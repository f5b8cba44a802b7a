/** The parsed JSON tree (Jackson's `JsonNode`) and the accessors the store
    decodes records with: `has`, `get`, `asText`, `asDouble` and `asInt`
    with their defaults. A number keeps its exact decimal value; scale 0
    stands for an integer literal (`IntNode`, `LongNode`, `BigIntegerNode`),
    a positive scale for a literal with a fraction (`DoubleNode`). Object
    field order is not modelled. */
module Json {
  import opened Wrappers
  import opened Text
  import opened Decimals

  datatype Json =
    | JNull
    | JBool(b: bool)
    | JNum(n: Decimal)
    | JStr(s: string)
    | JArr(items: seq<Json>)
    | JObj(fields: map<string, Json>)

  /** `node.has(key)`: only an object has fields; a field holding `null` is present. */
  predicate Has(node: Json, key: string) {
    node.JObj? && key in node.fields
  }

  // ---------------------------------------------------------------------
  // Number text
  // ---------------------------------------------------------------------

  /** A literal with a fraction, with its trailing fraction zeros dropped
      down to one fraction digit: the same value, as `Double.toString` writes
      its digits. */
  function Shortest(n: Decimal): (r: Decimal)
    requires n.scale >= 1
    ensures 1 <= r.scale <= n.scale
    ensures r.unscaled * Pow10(n.scale - r.scale) == n.unscaled
    ensures r.scale == 1 || r.unscaled % 10 != 0
    decreases n.scale
  {
    if n.scale > 1 && n.unscaled % 10 == 0 then
      var m := Decimal(n.unscaled / 10, n.scale - 1);
      var r := Shortest(m);
      ShiftPow10(r.unscaled, n.scale - r.scale);
      r
    else n
  }

  lemma ShiftPow10(u: int, k: nat)
    requires k >= 1
    ensures u * Pow10(k) == 10 * (u * Pow10(k - 1))
  {
  }

  /** The text of a number (`asText()` of a numeric node): the integer for
      an integer literal (`IntNode.asText`); for a literal with a fraction
      (`DoubleNode.asText`, that is `Double.toString`) the integer part, '.',
      and the fraction digits without trailing zeros, at least one. */
  function NumberText(n: Decimal): (r: string)
    ensures |r| > 0
  {
    if n.scale == 0 then IntToString(n.unscaled)
    else
      var m := Shortest(n);
      var abs: nat := if m.unscaled < 0 then -m.unscaled else m.unscaled;
      var sign := if m.unscaled < 0 then "-" else "";
      var digits := PadDigits(NatDigits(abs), m.scale + 1);
      sign + digits[..|digits| - m.scale] + "." + digits[|digits| - m.scale..]
  }

  /** "1.50" reads as the text "1.5", "2.000" as "2.0" and "0.25" as "0.25". */
  lemma NumberTextExamples()
    ensures NumberText(Decimal(150, 2)) == "1.5"
    ensures NumberText(Decimal(2000, 3)) == "2.0"
    ensures NumberText(Decimal(25, 2)) == "0.25"
  {
    assert Shortest(Decimal(150, 2)) == Decimal(15, 1);
    assert Shortest(Decimal(2000, 3)) == Decimal(20, 1);
    assert Shortest(Decimal(25, 2)) == Decimal(25, 2);
    assert NatDigits(15) == "15" && NatDigits(20) == "20" && NatDigits(25) == "25";
    assert PadDigits("25", 3) == "025";
  }

  /** "-12.340" reads as the text "-12.34". */
  lemma NumberTextNegative()
    ensures NumberText(Decimal(-12340, 3)) == "-12.34"
  {
    var m := Shortest(Decimal(-12340, 3));
    assert m == Decimal(-1234, 2);
    assert NatDigits(1234) == "1234";
    var digits := PadDigits(NatDigits(1234), 3);
    assert digits == "1234";
    assert digits[..2] == "12" && digits[2..] == "34";
  }

  /** `Double.parseDouble` on plain decimal text: an optional sign, digits,
      and an optional '.' with more digits, at least one digit in all;
      anything else is a `NumberFormatException` (None). */
  function ParseDecimal(s: string): (r: Option<Decimal>)
    ensures r.Some? ==> |s| > 0
  {
    if |s| == 0 then None
    else
      var negative := s[0] == '-';
      var body := if s[0] == '-' || s[0] == '+' then s[1..] else s;
      var dot := IndexOf(body, ".", 0);
      var whole := if dot < 0 then body else body[..dot];
      var frac := if dot < 0 then "" else body[dot + 1..];
      if |whole| + |frac| == 0 || !AllDigits(whole) || !AllDigits(frac) then None
      else
        var magnitude := DigitsValue(whole + frac);
        Some(Decimal(if negative then 0 - magnitude else magnitude, |frac|))
  }

  /** The `(int)` cast of a `double`: truncation toward zero, saturating at
      the bounds of `int`. */
  function TruncateToInt32(d: Decimal): (r: Int32)
    ensures var t := TruncatedQuotient(d.unscaled, Pow10(d.scale));
      (MinInt32 <= t <= MaxInt32 ==> r == t) && (t > MaxInt32 ==> r == MaxInt32) && (t < MinInt32 ==> r == MinInt32)
    ensures d.scale == 0 && MinInt32 <= d.unscaled <= MaxInt32 ==> r == d.unscaled
    ensures d.unscaled >= 0 ==> r >= 0
    ensures d.unscaled <= 0 ==> r <= 0
  {
    var t := TruncatedQuotient(d.unscaled, Pow10(d.scale));
    if t < MinInt32 then MinInt32 else if t > MaxInt32 then MaxInt32 else t
  }

  /** Division rounding toward zero, as Java's integer division does. */
  function TruncatedQuotient(u: int, p: int): (t: int)
    requires p > 0
    ensures u >= 0 ==> t >= 0
    ensures u <= 0 ==> t <= 0
    ensures p == 1 ==> t == u
    ensures u >= 0 ==> t * p <= u < (t + 1) * p
    ensures u < 0 ==> (t - 1) * p < u <= t * p
  {
    if u >= 0 then
      QuotientBracket(u, p);
      u / p
    else
      QuotientBracket(-u, p);
      NegateBracket(-u, (-u) / p, p);
      -((-u) / p)
  }

  lemma QuotientBracket(a: int, p: int)
    requires a >= 0 && p > 0
    ensures a / p >= 0
    ensures (a / p) * p <= a < (a / p + 1) * p
  {
    var q := a / p;
    DivBounds(a, p);
    assert (q + 1) * p == p * q + p;
  }

  lemma NegateBracket(a: int, q: int, p: int)
    requires q * p <= a < (q + 1) * p
    ensures (-q - 1) * p < -a <= (-q) * p
  {
    assert (-q - 1) * p == -((q + 1) * p);
    assert (-q) * p == -(q * p);
  }

  /** 2.7 casts to 2, −2.7 to −2, and 3000000000 saturates to 2147483647. */
  lemma TruncateToInt32Examples()
    ensures TruncateToInt32(Decimal(27, 1)) == 2
    ensures TruncateToInt32(Decimal(-27, 1)) == -2
    ensures TruncateToInt32(Decimal(3000000000, 0)) == MaxInt32
  {
    assert Pow10(1) == 10 && Pow10(0) == 1;
  }

  /** Jackson's `NumberInput.parseAsInt(text, default)`: trimmed text of
      digits (after one sign) goes to `Integer.parseInt`, falling back to the
      default on overflow; any other text goes through `Double.parseDouble`
      and the `(int)` cast, falling back to the default when it does not parse. */
  function ParseAsInt(s: string, default: Int32): Int32 {
    var t := Trim(s);
    if |t| == 0 then default
    else
      var u := if t[0] == '+' then t[1..] else t;
      var start := if t[0] == '-' then 1 else 0;
      if start <= |u| && AllDigits(u[start..]) then
        match ParseInt(u)
        case Some(v) => v
        case None => default
      else
        match ParseDecimal(u)
        case Some(d) => TruncateToInt32(d)
        case None => default
  }

  /** Jackson's `NumberInput.parseAsDouble(text, default)` on plain decimals. */
  function ParseAsDecimal(s: string, default: Decimal): Decimal {
    var t := Trim(s);
    match ParseDecimal(t)
    case Some(d) => d
    case None => default
  }

  // ---------------------------------------------------------------------
  // Accessors
  // ---------------------------------------------------------------------

  /** `node.asText(default)`: a string's own text; the default for `null`;
      `true`/`false`; a number's text; "" for arrays and objects. */
  function AsText(node: Json, default: string): string {
    match node
    case JNull => default
    case JBool(b) => if b then "true" else "false"
    case JNum(n) => NumberText(n)
    case JStr(s) => s
    case JArr(_) => ""
    case JObj(_) => ""
  }

  /** `node.asDouble(default)` with exact decimals: a number's value; 1 or 0
      for a boolean; a string parsed as a decimal; the default otherwise. */
  function AsDecimal(node: Json, default: Decimal): Decimal {
    match node
    case JNum(n) => n
    case JBool(b) => if b then Decimal(1, 0) else Zero
    case JStr(s) => ParseAsDecimal(s, default)
    case _ => default
  }

  /** `node.asInt(default)`: an integer literal wraps to 32 bits as
      `intValue()` does, a fractional one is cast; 1 or 0 for a boolean; a
      string goes through `parseAsInt`; the default otherwise. */
  function AsInt(node: Json, default: Int32): Int32 {
    match node
    case JNum(n) => if n.scale == 0 then Wrap32(n.unscaled) else TruncateToInt32(n)
    case JBool(b) => if b then 1 else 0
    case JStr(s) => ParseAsInt(s, default)
    case _ => default
  }

  // ---------------------------------------------------------------------
  // Properties of the accessors
  // ---------------------------------------------------------------------

  /** A number written at any scale reads back as the same number, and an
      `int` written as an integer reads back as itself. */
  lemma AsNumberOfNumber(n: Decimal, q: Int32)
    ensures AsDecimal(JNum(n), Zero) == n
    ensures AsInt(JNum(Decimal(q, 0)), 0) == q
  {
  }

  /** Absent-content nodes give the defaults. */
  lemma AccessorsOfNull(textDefault: string, numberDefault: Decimal, intDefault: Int32)
    ensures AsText(JNull, textDefault) == textDefault
    ensures AsDecimal(JNull, numberDefault) == numberDefault
    ensures AsInt(JNull, intDefault) == intDefault
  {
  }

  /** Integer text is read by `asInt` as `Integer.parseInt` reads it. */
  lemma ParseAsIntOfIntText(n: Int32, default: Int32)
    ensures ParseAsInt(IntToString(n), default) == n
  {
    var s := IntToString(n);
    ParseIntToString(n);
    TrimmedDigits(s);
    var m: int := n;
    if m < 0 {
      assert s == "-" + NatDigits(-m);
      assert s[1..] == NatDigits(-m);
    } else {
      assert s == NatDigits(m);
      assert IsDigit(s[0]);
    }
  }

  /** Trimming leaves text that starts with '-' or a digit and ends with a digit alone. */
  lemma TrimmedDigits(s: string)
    requires |s| > 0 && (s[0] == '-' || IsDigit(s[0])) && IsDigit(s[|s| - 1])
    ensures Trim(s) == s
  {
    assert TrimStart(s) == s;
  }

  /** A decimal text parses to its digits, scaled by the number of fraction digits. */
  lemma ParseDecimalOfParts(whole: string, frac: string)
    requires AllDigits(whole) && AllDigits(frac) && |whole| > 0
    ensures ParseDecimal(whole + "." + frac) == Some(Decimal(DigitsValue(whole + frac), |frac|))
  {
    var s := whole + "." + frac;
    assert IsDigit(s[0]);
    assert forall i :: 0 <= i < |whole| ==> !MatchAt(s, ".", i) by {
      forall i | 0 <= i < |whole| ensures !MatchAt(s, ".", i) {
        assert s[i] == whole[i];
        assert s[i..i + 1][0] == s[i];
      }
    }
    assert MatchAt(s, ".", |whole|) by {
      assert s[|whole|..|whole| + 1] == ".";
    }
    assert s[..|whole|] == whole;
    assert s[|whole| + 1..] == frac;
  }
}
