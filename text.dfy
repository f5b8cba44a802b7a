/** The `java.lang.String` and `Integer` operations the core relies on:
    case folding, trimming, searching, decimal digits and `Integer.parseInt`.
    A `char` is a Unicode scalar value, not a UTF-16 code unit, so lengths and
    indices count scalar values; case folding is modelled on ASCII letters
    only. */
module Text {
  import opened Wrappers

  // ---------------------------------------------------------------------
  // Case folding and trimming
  // ---------------------------------------------------------------------

  /** `Character.toLowerCase` restricted to ASCII: 'A'..'Z' map to 'a'..'z'. */
  function ToLowerChar(c: char): char {
    if 'A' <= c <= 'Z' then (c as int + 32) as char else c
  }

  /** `String.toLowerCase()` on ASCII letters. */
  function ToLower(s: string): (r: string)
    ensures |r| == |s|
    ensures forall i :: 0 <= i < |s| ==> r[i] == ToLowerChar(s[i])
  {
    if |s| == 0 then [] else [ToLowerChar(s[0])] + ToLower(s[1..])
  }

  /** `String.equalsIgnoreCase`: same length and equal after folding each char. */
  predicate EqualsIgnoreCase(a: string, b: string) {
    |a| == |b| && forall i :: 0 <= i < |a| ==> ToLowerChar(a[i]) == ToLowerChar(b[i])
  }

  lemma EqualsIgnoreCaseIsLowerEquality(a: string, b: string)
    ensures EqualsIgnoreCase(a, b) <==> ToLower(a) == ToLower(b)
  {
    if ToLower(a) == ToLower(b) {
      assert |a| == |b|;
      forall i | 0 <= i < |a| ensures ToLowerChar(a[i]) == ToLowerChar(b[i]) {
        assert ToLower(a)[i] == ToLower(b)[i];
      }
    }
  }

  /** Characters `String.trim()` removes: every code unit up to U+0020. */
  predicate IsTrimmed(c: char) {
    c <= ' '
  }

  function TrimStart(s: string): (r: string)
    ensures |r| <= |s| && r == s[|s| - |r|..]
    ensures |r| > 0 ==> !IsTrimmed(r[0])
    ensures forall i :: 0 <= i < |s| - |r| ==> IsTrimmed(s[i])
  {
    if |s| > 0 && IsTrimmed(s[0]) then TrimStart(s[1..]) else s
  }

  function TrimEnd(s: string): (r: string)
    ensures |r| <= |s| && r == s[..|r|]
    ensures |r| > 0 ==> !IsTrimmed(r[|r| - 1])
    ensures forall i :: |r| <= i < |s| ==> IsTrimmed(s[i])
  {
    if |s| > 0 && IsTrimmed(s[|s| - 1]) then TrimEnd(s[..|s| - 1]) else s
  }

  /** `String.trim()`. */
  function Trim(s: string): (r: string)
    ensures |r| > 0 ==> !IsTrimmed(r[0]) && !IsTrimmed(r[|r| - 1])
  {
    TrimEnd(TrimStart(s))
  }

  // ---------------------------------------------------------------------
  // Searching
  // ---------------------------------------------------------------------

  predicate StartsWith(s: string, prefix: string) {
    |prefix| <= |s| && s[..|prefix|] == prefix
  }

  /** The pattern `p` occurs in `s` at position `i`. */
  predicate MatchAt(s: string, p: string, i: int) {
    0 <= i && i + |p| <= |s| && s[i..i + |p|] == p
  }

  /** A match, character by character. */
  lemma MatchByChars(s: string, p: string, i: nat)
    requires i + |p| <= |s| && forall k :: 0 <= k < |p| ==> s[i + k] == p[k]
    ensures MatchAt(s, p, i)
  {
    assert s[i..i + |p|] == p;
  }

  /** One differing character rules a match out. */
  lemma MismatchAt(s: string, p: string, i: int, k: nat)
    requires 0 <= k < |p| && 0 <= i + k < |s| && s[i + k] != p[k]
    ensures !MatchAt(s, p, i)
  {
    if 0 <= i && i + |p| <= |s| {
      assert s[i..i + |p|][k] != p[k];
    }
  }

  /** A match inside a match. */
  lemma MatchInside(s: string, p: string, q: string, k: int, j: int)
    requires MatchAt(s, p, k) && MatchAt(p, q, j)
    ensures MatchAt(s, q, k + j)
  {
    var t := s[k..k + |p|];
    forall m | 0 <= m < |q| ensures s[k + j + m] == q[m] {
      assert s[k + j + m] == t[j + m];
      assert p[j..j + |q|][m] == p[j + m];
    }
    MatchByChars(s, q, k + j);
  }

  /** A match in the right part of a concatenation. */
  lemma MatchInRight(x: string, y: string, p: string, k: int)
    requires MatchAt(x + y, p, k) && k >= |x|
    ensures MatchAt(y, p, k - |x|)
  {
    assert (x + y)[k..k + |p|] == y[k - |x|..k - |x| + |p|];
  }

  /** A match in the right part stays a match in the whole. */
  lemma MatchShiftRight(x: string, y: string, p: string, k: int)
    requires MatchAt(y, p, k)
    ensures MatchAt(x + y, p, k + |x|)
  {
    assert (x + y)[k + |x|..k + |x| + |p|] == y[k..k + |p|];
  }

  /** A text matches itself at the start of any extension. */
  lemma MatchPrefix(x: string, y: string)
    ensures MatchAt(x + y, x, 0)
  {
    assert (x + y)[..|x|] == x;
  }

  /** A prefix of `[c] + rest` starts with `c`, and its tail is a prefix of
      `rest`. */
  lemma StartsWithCons(c: char, rest: string, w: string)
    requires |w| > 0 && StartsWith([c] + rest, w)
    ensures c == w[0] && StartsWith(rest, w[1..])
  {
    assert ([c] + rest)[..|w|] == [c] + rest[..|w| - 1];
  }

  /** A first character and a match of the rest make a match. */
  lemma MatchCons(s: string, w: string, i: nat)
    requires |w| > 0 && i < |s| && s[i] == w[0] && MatchAt(s, w[1..], i + 1)
    ensures MatchAt(s, w, i)
  {
    assert s[i..i + |w|] == [s[i]] + s[i + 1..i + |w|];
  }

  /** `s.indexOf(p, from)` for a non-empty pattern: the first position at or
      after `from` where `p` occurs, or -1. A negative `from` searches from 0. */
  function IndexOf(s: string, p: string, from: int): (r: int)
    requires |p| > 0
    ensures r == -1 || (from <= r && MatchAt(s, p, r))
    ensures r == -1 ==> forall i :: from <= i ==> !MatchAt(s, p, i)
    ensures r != -1 ==> forall i :: from <= i < r ==> !MatchAt(s, p, i)
    decreases |s| - from
  {
    if from < 0 then IndexOf(s, p, 0)
    else if from + |p| > |s| then -1
    else if s[from..from + |p|] == p then from
    else IndexOf(s, p, from + 1)
  }

  /** `s.contains(p)`, which Java defines as `s.indexOf(p) >= 0`. */
  predicate Contains(s: string, p: string)
    requires |p| > 0
  {
    IndexOf(s, p, 0) >= 0
  }

  lemma ContainsIffOccurs(s: string, p: string)
    requires |p| > 0
    ensures Contains(s, p) <==> exists i :: MatchAt(s, p, i)
  {
    if !Contains(s, p) {
      forall i ensures !MatchAt(s, p, i) {
        if i >= 0 { assert !MatchAt(s, p, i); }
      }
    }
  }

  // ---------------------------------------------------------------------
  // Decimal digits
  // ---------------------------------------------------------------------

  function Pow10(n: nat): (r: nat)
    ensures r >= 1
  {
    if n == 0 then 1 else 10 * Pow10(n - 1)
  }

  predicate IsDigit(c: char) {
    '0' <= c <= '9'
  }

  predicate AllDigits(s: string) {
    forall i :: 0 <= i < |s| ==> IsDigit(s[i])
  }

  function DigitChar(d: nat): char
    requires d < 10
  {
    ('0' as int + d) as char
  }

  /** The value of a string of ASCII digits, read left to right. */
  function DigitsValue(s: string): nat
    requires AllDigits(s)
  {
    if |s| == 0 then 0
    else DigitsValue(s[..|s| - 1]) * 10 + (s[|s| - 1] as int - '0' as int)
  }

  /** The shortest decimal representation of `n` (`Long.toString` of a non-negative value). */
  function NatDigits(n: nat): (r: string)
    ensures |r| > 0 && AllDigits(r)
  {
    if n < 10 then [DigitChar(n)] else NatDigits(n / 10) + [DigitChar(n % 10)]
  }

  lemma {:induction false} NatDigitsValue(n: nat)
    ensures DigitsValue(NatDigits(n)) == n
  {
    if n >= 10 {
      var s := NatDigits(n);
      assert s[..|s| - 1] == NatDigits(n / 10);
      NatDigitsValue(n / 10);
    }
  }

  /** `n` has at most `k` digits exactly when it is below 10^k. */
  lemma {:induction false} NatDigitsLength(n: nat, k: nat)
    requires k >= 1
    ensures |NatDigits(n)| <= k <==> n < Pow10(k)
  {
    assert Pow10(k) == 10 * Pow10(k - 1);
    if n >= 10 && k >= 2 {
      NatDigitsLength(n / 10, k - 1);
    } else if n >= 10 {
      assert |NatDigits(n)| == |NatDigits(n / 10)| + 1;
    }
  }

  function Zeros(k: nat): (r: string)
    ensures |r| == k && AllDigits(r)
    ensures forall i :: 0 <= i < k ==> r[i] == '0'
  {
    if k == 0 then [] else Zeros(k - 1) + ['0']
  }

  /** Left-pads a digit string with zeros to at least `width` characters
      (used by `LocalDate.toString`). */
  function PadDigits(s: string, width: nat): (r: string)
    requires AllDigits(s)
    ensures AllDigits(r) && |r| == if |s| < width then width else |s|
  {
    if |s| < width then Zeros(width - |s|) + s else s
  }

  lemma {:induction false} LeadingZerosValue(k: nat, s: string)
    requires AllDigits(s)
    ensures AllDigits(Zeros(k) + s) && DigitsValue(Zeros(k) + s) == DigitsValue(s)
    decreases |s|
  {
    var t := Zeros(k) + s;
    assert AllDigits(t) by {
      forall i | 0 <= i < |t| ensures IsDigit(t[i]) {
        if i < k { assert t[i] == Zeros(k)[i]; } else { assert t[i] == s[i - k]; }
      }
    }
    if |s| == 0 {
      assert t == Zeros(k);
      ZerosValue(k);
    } else {
      assert t[..|t| - 1] == Zeros(k) + s[..|s| - 1];
      LeadingZerosValue(k, s[..|s| - 1]);
    }
  }

  lemma {:induction false} ZerosValue(k: nat)
    ensures DigitsValue(Zeros(k)) == 0
  {
    if k > 0 {
      assert Zeros(k)[..k - 1] == Zeros(k - 1);
      ZerosValue(k - 1);
    }
  }

  lemma PadDigitsValue(s: string, width: nat)
    requires AllDigits(s)
    ensures DigitsValue(PadDigits(s, width)) == DigitsValue(s)
  {
    if |s| < width { LeadingZerosValue(width - |s|, s); }
  }

  // ---------------------------------------------------------------------
  // Java int
  // ---------------------------------------------------------------------

  const MinInt32: int := -0x8000_0000
  const MaxInt32: int := 0x7FFF_FFFF

  /** A Java `int`. */
  type Int32 = x: int | MinInt32 <= x <= MaxInt32

  /** Two's-complement wrap-around of an integer into a Java `int`
      (what `int` addition and the `(int)` cast of a `long` do). */
  function Wrap32(x: int): (r: Int32)
    ensures (r - x) % 0x1_0000_0000 == 0
    ensures MinInt32 <= x <= MaxInt32 ==> r == x
  {
    (x - MinInt32) % 0x1_0000_0000 + MinInt32
  }

  /** `Integer.toString(n)`. */
  function IntToString(n: int): (r: string)
    ensures |r| > 0
  {
    if n < 0 then "-" + NatDigits(-n) else NatDigits(n)
  }

  /** `Integer.parseInt(s)`: an optional sign followed by at least one ASCII
      digit, with a value that fits in an `int`; anything else is a
      `NumberFormatException` (None). */
  function ParseInt(s: string): (r: Option<Int32>)
    ensures r.Some? ==> |s| > 0
  {
    if |s| == 0 then None
    else
      var negative := s[0] == '-';
      var body := if s[0] == '-' || s[0] == '+' then s[1..] else s;
      if |body| == 0 || !AllDigits(body) then None
      else
        var v: int := if negative then 0 - DigitsValue(body) else DigitsValue(body);
        if MinInt32 <= v <= MaxInt32 then Some(v) else None
  }

  lemma ParseIntToString(n: Int32)
    ensures ParseInt(IntToString(n)) == Some(n)
  {
    var s := IntToString(n);
    var m: int := n;
    if m < 0 {
      var d := NatDigits(-m);
      assert s == "-" + d;
      assert s[0] == '-' && s[1..] == d;
      NatDigitsValue(-m);
    } else {
      var d := NatDigits(n);
      assert s == d;
      assert IsDigit(s[0]);
      NatDigitsValue(n);
    }
  }

  lemma ParseIntRejectsNonDigit(s: string, i: nat)
    requires i < |s| && !IsDigit(s[i]) && (i > 0 || (s[0] != '-' && s[0] != '+'))
    ensures ParseInt(s) == None
  {
    if s[0] == '-' || s[0] == '+' {
      assert s[1..][i - 1] == s[i];
    }
  }
}
