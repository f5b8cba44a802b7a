/** Two helpers of the console menu: cutting a product line to the width of
    the listing table, and the integer prompt that retries a bounded number
    of times. The lines the user types are given as a sequence. */
module Console {
  import opened Wrappers
  import opened Text

  /** The widest product line the listing shows unshortened. */
  const DisplayWidth: nat := 100

  /** `MAX_RETRY_ATTEMPTS`. */
  const MaxRetryAttempts: nat := 3

  // ---------------------------------------------------------------------
  // formatProductDisplay
  // ---------------------------------------------------------------------

  /** A line of at most 100 characters is shown as it is; a longer one is cut
      to its first 97 characters followed by "...". */
  function FormatProductDisplay(line: string): (r: string)
    ensures |line| <= DisplayWidth ==> r == line
    ensures |line| > DisplayWidth ==> |r| == DisplayWidth && r[..97] == line[..97] && r[97..] == "..."
  {
    if |line| > DisplayWidth then line[..97] + "..." else line
  }

  /** Every shown line fits the table, starts like the product line, and is
      shown the same when formatted again. */
  lemma FormatProductDisplayFits(line: string)
    ensures |FormatProductDisplay(line)| <= DisplayWidth
    ensures var r := FormatProductDisplay(line);
      (r == line) || (|line| > DisplayWidth && StartsWith(line, r[..97]))
    ensures FormatProductDisplay(FormatProductDisplay(line)) == FormatProductDisplay(line)
  {
    var r := FormatProductDisplay(line);
    if |line| > DisplayWidth {
      assert r[..97] == line[..97];
    }
  }

  // ---------------------------------------------------------------------
  // getIntInput
  // ---------------------------------------------------------------------

  /** How a prompt ends: with a value after reading some lines, or with the
      input running out first (`nextLine` throws). */
  datatype Answer = Answered(value: Int32, linesRead: nat) | NoMoreInput

  /** The value a typed line gives, if it is an `int` within the bounds. */
  function Accepted(line: string, min: Int32, max: Int32): (r: Option<Int32>)
    ensures r.Some? <==> ParseInt(Trim(line)).Some? && min <= ParseInt(Trim(line)).value <= max
    ensures r.Some? ==> r == ParseInt(Trim(line))
  {
    match ParseInt(Trim(line))
    case Some(v) => if min <= v <= max then Some(v) else None
    case None => None
  }

  /** What each typed line would give, in order. */
  function Verdicts(lines: seq<string>, min: Int32, max: Int32): (r: seq<Option<Int32>>)
    ensures |r| == |lines|
    ensures forall i :: 0 <= i < |lines| ==> r[i] == Accepted(lines[i], min, max)
  {
    seq(|lines|, i requires 0 <= i < |lines| => Accepted(lines[i], min, max))
  }

  /** The prompt from attempt number `attempt` on, given what each line
      gives. */
  function PromptFrom(verdicts: seq<Option<Int32>>, min: Int32, attempt: nat): Answer
    requires attempt <= MaxRetryAttempts
    decreases MaxRetryAttempts - attempt
  {
    if attempt == MaxRetryAttempts then Answered(min, attempt)
    else if attempt >= |verdicts| then NoMoreInput
    else
      match verdicts[attempt]
      case Some(v) => Answered(v, attempt + 1)
      case None => PromptFrom(verdicts, min, attempt + 1)
  }

  /** What `getIntInput(prompt, min, max)` settles on for the typed lines. */
  function IntInput(lines: seq<string>, min: Int32, max: Int32): Answer {
    PromptFrom(Verdicts(lines, min, max), min, 0)
  }

  /** `getIntInput`: reads a line per attempt, returns the first value within
      the bounds, and gives `min` after three failed attempts. */
  method GetIntInput(lines: seq<string>, min: Int32, max: Int32) returns (answer: Answer)
    ensures answer == IntInput(lines, min, max)
  {
    ghost var verdicts := Verdicts(lines, min, max);
    var attempt: nat := 0;
    while attempt < MaxRetryAttempts
      invariant attempt <= MaxRetryAttempts
      invariant IntInput(lines, min, max) == PromptFrom(verdicts, min, attempt)
      decreases MaxRetryAttempts - attempt
    {
      if attempt >= |lines| {
        return NoMoreInput;
      }
      var value := ParseInt(Trim(lines[attempt]));
      if value.Some? && value.value >= min && value.value <= max {
        return Answered(value.value, attempt + 1);
      }
      attempt := attempt + 1;
      if attempt == MaxRetryAttempts {
        return Answered(min, attempt);
      }
    }
    return Answered(min, attempt);
  }

  /** From attempt `attempt` on, a value is one the lines give or `min`, the
      lines read are between the attempt and three and were all there to
      read, and the input runs out only when it has fewer than three lines. */
  lemma {:induction false} PromptFromBounds(verdicts: seq<Option<Int32>>, min: Int32, max: Int32, attempt: nat)
    requires min <= max && attempt <= MaxRetryAttempts && attempt <= |verdicts|
    requires forall i :: 0 <= i < |verdicts| && verdicts[i].Some? ==> min <= verdicts[i].value <= max
    ensures match PromptFrom(verdicts, min, attempt)
      case Answered(v, n) => min <= v <= max && attempt <= n <= MaxRetryAttempts && n <= |verdicts|
      case NoMoreInput => |verdicts| < MaxRetryAttempts
    decreases MaxRetryAttempts - attempt
  {
    if attempt < MaxRetryAttempts && attempt < |verdicts| && verdicts[attempt].None? {
      PromptFromBounds(verdicts, min, max, attempt + 1);
    }
  }

  /** With `min <= max` the value is always within the bounds, and at most
      three lines, all of them typed, are read. */
  lemma IntInputInRange(lines: seq<string>, min: Int32, max: Int32)
    requires min <= max
    ensures match IntInput(lines, min, max)
      case Answered(v, n) => min <= v <= max && n <= MaxRetryAttempts && n <= |lines|
      case NoMoreInput => |lines| < MaxRetryAttempts
  {
    PromptFromBounds(Verdicts(lines, min, max), min, max, 0);
  }

  /** Rejected lines are skipped up to the first accepted one. */
  lemma {:induction false} PromptFromSkips(verdicts: seq<Option<Int32>>, min: Int32, attempt: nat, k: nat)
    requires attempt <= k < MaxRetryAttempts && k < |verdicts| && verdicts[k].Some?
    requires forall i :: attempt <= i < k ==> verdicts[i].None?
    ensures PromptFrom(verdicts, min, attempt) == Answered(verdicts[k].value, k + 1)
    decreases k - attempt
  {
    if attempt < k {
      PromptFromSkips(verdicts, min, attempt + 1, k);
    }
  }

  /** The first accepted line among the first three decides. */
  lemma IntInputFirstAccepted(lines: seq<string>, min: Int32, max: Int32, k: nat)
    requires k < MaxRetryAttempts && k < |lines| && Accepted(lines[k], min, max).Some?
    requires forall i :: 0 <= i < k ==> Accepted(lines[i], min, max).None?
    ensures IntInput(lines, min, max) == Answered(Accepted(lines[k], min, max).value, k + 1)
  {
    PromptFromSkips(Verdicts(lines, min, max), min, 0, k);
  }

  /** Input that ends before three lines, none of them accepted, makes the
      prompt fail. */
  lemma {:induction false} PromptFromRunsOut(verdicts: seq<Option<Int32>>, min: Int32, attempt: nat)
    requires attempt <= |verdicts| < MaxRetryAttempts
    requires forall i :: attempt <= i < |verdicts| ==> verdicts[i].None?
    ensures PromptFrom(verdicts, min, attempt) == NoMoreInput
    decreases |verdicts| - attempt
  {
    if attempt < |verdicts| {
      PromptFromRunsOut(verdicts, min, attempt + 1);
    }
  }

  lemma IntInputRunsOut(lines: seq<string>, min: Int32, max: Int32)
    requires |lines| < MaxRetryAttempts
    requires forall i :: 0 <= i < |lines| ==> Accepted(lines[i], min, max).None?
    ensures IntInput(lines, min, max) == NoMoreInput
  {
    PromptFromRunsOut(Verdicts(lines, min, max), min, 0);
  }

  /** Three rejected lines give `min`, and the rest of the input is left
      unread. */
  lemma IntInputGivesUp(lines: seq<string>, min: Int32, max: Int32)
    requires |lines| >= MaxRetryAttempts
    requires forall i :: 0 <= i < MaxRetryAttempts ==> Accepted(lines[i], min, max).None?
    ensures IntInput(lines, min, max) == Answered(min, MaxRetryAttempts)
  {
    var verdicts := Verdicts(lines, min, max);
    assert PromptFrom(verdicts, min, 2) == PromptFrom(verdicts, min, 3);
    assert PromptFrom(verdicts, min, 1) == PromptFrom(verdicts, min, 2);
  }
}
