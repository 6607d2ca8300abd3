/** The pieces of the Java standard library the application's logic depends on:
    null references, String.trim, String.lastIndexOf, Integer.parseInt,
    String.valueOf(int) and the parts of BigDecimal used for prices. */
module JavaLang {

  /** A Java reference that may be null. */
  datatype Option<T> = None | Some(value: T)

  const IntMin: int := -0x8000_0000
  const IntMax: int := 0x7FFF_FFFF

  /** The values of a Java `int`. */
  predicate InIntRange(n: int) {
    IntMin <= n <= IntMax
  }

  // ---------------------------------------------------------------------------
  // String.trim and String.isEmpty

  /** String.trim removes every leading and trailing character whose code is at most U+0020. */
  predicate IsTrimmable(c: char) {
    c <= ' '
  }

  /** A string that trims to the empty string. */
  predicate IsBlank(s: string) {
    forall i | 0 <= i < |s| :: IsTrimmable(s[i])
  }

  function TrimLeading(s: string): (r: string)
    ensures |r| <= |s| && r == s[|s| - |r|..]
    ensures r != [] ==> !IsTrimmable(r[0])
    ensures IsBlank(s[..|s| - |r|])
  {
    if s != [] && IsTrimmable(s[0]) then
      var r := TrimLeading(s[1..]);
      assert s[..|s| - |r|] == [s[0]] + s[1..][..|s| - 1 - |r|];
      r
    else
      s
  }

  function TrimTrailing(s: string): (r: string)
    ensures |r| <= |s| && r == s[..|r|]
    ensures r != [] ==> !IsTrimmable(r[|r| - 1])
    ensures IsBlank(s[|r|..])
  {
    if s != [] && IsTrimmable(s[|s| - 1]) then
      var r := TrimTrailing(s[..|s| - 1]);
      assert s[|r|..] == s[..|s| - 1][|r|..] + [s[|s| - 1]];
      r
    else
      s
  }

  /** String.trim(). */
  function Trim(s: string): string {
    TrimTrailing(TrimLeading(s))
  }

  /** A string trims to the empty string exactly when every character of it is trimmable. */
  lemma TrimEmptyIffBlank(s: string)
    ensures Trim(s) == [] <==> IsBlank(s)
  {
    var t := TrimLeading(s);
    if Trim(s) == [] {
      assert IsBlank(t[0..]);
      assert s == s[..|s| - |t|] + t;
    }
    if IsBlank(s) {
      BlankTrimsAway(s);
    }
  }

  lemma {:induction false} BlankTrimsAway(s: string)
    requires IsBlank(s)
    ensures TrimLeading(s) == []
  {
    if s != [] {
      BlankTrimsAway(s[1..]);
    }
  }

  /** Trimming a trimmed string changes nothing. */
  lemma TrimIdempotent(s: string)
    ensures Trim(Trim(s)) == Trim(s)
  {
    var t := TrimLeading(s);
    var u := TrimTrailing(t);
    if u != [] {
      assert u[0] == t[0];
    }
    assert TrimLeading(u) == u;
    assert TrimTrailing(u) == u;
  }

  // ---------------------------------------------------------------------------
  // Searching a string

  predicate StartsWith(s: string, prefix: string) {
    |prefix| <= |s| && s[..|prefix|] == prefix
  }

  /** String.lastIndexOf(char): the position of the last occurrence, or -1. */
  function LastIndexOf(s: string, c: char): (r: int)
    ensures -1 <= r < |s|
    ensures r >= 0 ==> s[r] == c
    ensures forall i | r < i < |s| :: s[i] != c
  {
    if s == [] then -1
    else if s[|s| - 1] == c then |s| - 1
    else LastIndexOf(s[..|s| - 1], c)
  }

  /** String.indexOf(char): the position of the first occurrence, or -1. */
  function IndexOf(s: string, c: char): (r: int)
    ensures -1 <= r < |s|
    ensures r >= 0 ==> s[r] == c
    ensures forall i | 0 <= i < |s| && (r < 0 || i < r) :: s[i] != c
  {
    if s == [] then -1
    else if s[0] == c then 0
    else
      var k := IndexOf(s[1..], c);
      if k < 0 then -1 else k + 1
  }

  // ---------------------------------------------------------------------------
  // Decimal digits, Integer.parseInt and String.valueOf(int)

  predicate IsDigit(c: char) {
    '0' <= c <= '9'
  }

  predicate AllDigits(s: string) {
    forall i | 0 <= i < |s| :: IsDigit(s[i])
  }

  function DigitValue(c: char): nat
    requires IsDigit(c)
  {
    (c as int) - ('0' as int)
  }

  function DigitChar(d: nat): (c: char)
    requires d < 10
    ensures IsDigit(c) && DigitValue(c) == d
  {
    (('0' as int) + d) as char
  }

  /** The number a string of decimal digits denotes (most significant digit first). */
  function DigitsValue(s: string): nat
    requires AllDigits(s)
  {
    if s == [] then 0 else 10 * DigitsValue(s[..|s| - 1]) + DigitValue(s[|s| - 1])
  }

  /** Integer.parseInt(s): an optional '+' or '-', then one or more decimal digits whose
      value is a Java int; anything else is a NumberFormatException (None). */
  function ParseInt(s: string): (r: Option<int>)
    ensures r.Some? ==> InIntRange(r.value)
    ensures r.Some? ==> s != [] && IsDigit(s[|s| - 1])
    ensures s != [] && AllDigits(s) && DigitsValue(s) <= IntMax ==> r == Some(DigitsValue(s))
  {
    var signed := s != [] && (s[0] == '-' || s[0] == '+');
    var digits := if signed then s[1..] else s;
    if digits == [] || !AllDigits(digits) then None
    else
      var magnitude: int := DigitsValue(digits);
      var v := if s[0] == '-' then -magnitude else magnitude;
      if InIntRange(v) then Some(v) else None
  }

  /** The decimal digits of a natural number, without leading zeros. */
  function NatToDigits(n: nat): (s: string)
    ensures s != [] && AllDigits(s)
    ensures s[0] != '-' && s[0] != '+'
  {
    if n < 10 then [DigitChar(n)] else NatToDigits(n / 10) + [DigitChar(n % 10)]
  }

  /** String.valueOf(int). */
  function IntToString(n: int): string {
    if n < 0 then "-" + NatToDigits(-n) else NatToDigits(n)
  }

  lemma {:induction false} DigitsRoundTrip(n: nat)
    ensures DigitsValue(NatToDigits(n)) == n
  {
    if n >= 10 {
      var s := NatToDigits(n);
      assert s[..|s| - 1] == NatToDigits(n / 10);
      DigitsRoundTrip(n / 10);
    }
  }

  /** Every Java int printed by String.valueOf parses back to itself. */
  lemma ParseIntRoundTrip(n: int)
    requires InIntRange(n)
    ensures ParseInt(IntToString(n)) == Some(n)
  {
    if n < 0 {
      var s := IntToString(n);
      assert s[1..] == NatToDigits(-n);
      DigitsRoundTrip(-n);
    } else {
      DigitsRoundTrip(n);
    }
  }

  // ---------------------------------------------------------------------------
  // BigDecimal

  /** A BigDecimal: the number unscaled / 10^scale. */
  datatype Decimal = Decimal(unscaled: int, scale: nat)

  function Pow10(n: nat): (r: nat)
    ensures r >= 1
  {
    if n == 0 then 1 else 10 * Pow10(n - 1)
  }

  /** a.compareTo(b) <= 0. */
  predicate DecimalLe(a: Decimal, b: Decimal) {
    a.unscaled * Pow10(b.scale) <= b.unscaled * Pow10(a.scale)
  }

  /** d.compareTo(BigDecimal.ZERO) > 0. */
  predicate IsPositive(d: Decimal) {
    DecimalLe(Decimal(0, 0), d) && !DecimalLe(d, Decimal(0, 0))
  }

  /** new BigDecimal(s) for plain notation: an optional sign, then digits with at most
      one '.', and at least one digit in all.  The scale is the number of digits after
      the point. */
  function ParseDecimal(s: string): (r: Option<Decimal>)
    ensures r.Some? ==> r.value.scale <= |s|
  {
    var signed := s != [] && (s[0] == '-' || s[0] == '+');
    var body := if signed then s[1..] else s;
    match SplitDecimal(body)
    case None => None
    case Some((whole, fraction)) =>
      AllDigitsConcat(whole, fraction);
      var magnitude: int := DigitsValue(whole + fraction);
      Some(Decimal(if signed && s[0] == '-' then -magnitude else magnitude, |fraction|))
  }

  /** The digits before and after the point of an unsigned plain-notation number, at
      least one digit in all; None for any other text. */
  function SplitDecimal(body: string): (r: Option<(string, string)>)
    ensures r.Some? ==> AllDigits(r.value.0) && AllDigits(r.value.1) && |r.value.0| + |r.value.1| > 0
    ensures r.Some? ==> body == r.value.0 || body == r.value.0 + "." + r.value.1
    ensures r.Some? && '.' !in body ==> r.value == (body, [])
  {
    var dot := IndexOf(body, '.');
    if dot < 0 then
      if body == [] || !AllDigits(body) then None else Some((body, []))
    else
      var whole, fraction := body[..dot], body[dot + 1..];
      if |whole| + |fraction| == 0 || !AllDigits(whole) || !AllDigits(fraction) then None
      else
        SplitAtPoint(body, dot);
        Some((whole, fraction))
  }

  lemma SplitAtPoint(body: string, dot: nat)
    requires dot < |body| && body[dot] == '.'
    ensures body == body[..dot] + "." + body[dot + 1..]
  {
    assert body == body[..dot] + body[dot..];
    assert body[dot..] == "." + body[dot + 1..];
  }

  lemma AllDigitsConcat(a: string, b: string)
    requires AllDigits(a) && AllDigits(b)
    ensures AllDigits(a + b)
  {
  }

  /** The sign of a BigDecimal is the sign of its unscaled value. */
  lemma PositiveIffUnscaledPositive(d: Decimal)
    ensures IsPositive(d) <==> d.unscaled > 0
  {
    assert Pow10(0) == 1;
  }

  /** An integer literal that Integer.parseInt accepts denotes the same number as a BigDecimal. */
  lemma {:induction false} ParseIntIsDecimal(s: string)
    requires ParseInt(s).Some?
    ensures ParseDecimal(s) == Some(Decimal(ParseInt(s).value, 0))
  {
    var signed := s != [] && (s[0] == '-' || s[0] == '+');
    var body := if signed then s[1..] else s;
    assert AllDigits(body);
    assert forall k | 0 <= k < |body| :: body[k] != '.';
    assert body + [] == body;
  }

  /** The value BigDecimal(String) gives a plain-notation literal: an optional sign, the
      digits before the point and the digits after it (at least one digit in all).  The
      unscaled value is all the digits read as one integer, negated after a '-', and the
      scale is the number of digits after the point. */
  lemma ParseDecimalValue(sign: string, whole: string, fraction: string, point: bool)
    requires sign == "" || sign == "-" || sign == "+"
    requires AllDigits(whole) && AllDigits(fraction) && |whole| + |fraction| > 0
    requires !point ==> fraction == []
    ensures AllDigits(whole + fraction)
    ensures ParseDecimal(sign + PlainBody(whole, fraction, point)) ==
      Some(Decimal(Signed(sign, DigitsValue(whole + fraction)), |fraction|))
  {
    AllDigitsConcat(whole, fraction);
    var body := PlainBody(whole, fraction, point);
    SplitPlainBody(whole, fraction, point);
    var s := sign + body;
    var signed := s != [] && (s[0] == '-' || s[0] == '+');
    assert signed <==> sign != "";
    assert (if signed then s[1..] else s) == body;
    ParseDecimalOfSplit(s, body, whole, fraction);
  }

  /** ParseDecimal once the text after the sign has been split at the point. */
  lemma ParseDecimalOfSplit(s: string, body: string, whole: string, fraction: string)
    requires AllDigits(whole) && AllDigits(fraction)
    requires (if s != [] && (s[0] == '-' || s[0] == '+') then s[1..] else s) == body
    requires SplitDecimal(body) == Some((whole, fraction))
    ensures AllDigits(whole + fraction)
    ensures ParseDecimal(s) == Some(Decimal(
      if s != [] && s[0] == '-' then -(DigitsValue(whole + fraction) as int) else DigitsValue(whole + fraction),
      |fraction|))
  {
    AllDigitsConcat(whole, fraction);
  }

  /** The text of a literal after its sign: the whole digits, then a point and the
      fraction digits when there is a point. */
  function PlainBody(whole: string, fraction: string, point: bool): (body: string)
    requires AllDigits(whole) && AllDigits(fraction) && |whole| + |fraction| > 0
    requires !point ==> fraction == []
    ensures body != [] && body[0] != '-' && body[0] != '+'
  {
    assert whole != [] ==> IsDigit(whole[0]);
    whole + (if point then "." + fraction else "")
  }

  /** The magnitude with the literal's sign applied. */
  function Signed(sign: string, magnitude: nat): int {
    if sign == "-" then -(magnitude as int) else magnitude
  }

  lemma SplitPlainBody(whole: string, fraction: string, point: bool)
    requires AllDigits(whole) && AllDigits(fraction) && |whole| + |fraction| > 0
    requires !point ==> fraction == []
    ensures SplitDecimal(PlainBody(whole, fraction, point)) == Some((whole, fraction))
  {
    var body := PlainBody(whole, fraction, point);
    var dot := IndexOf(body, '.');
    if point {
      assert body[|whole|] == '.';
      assert dot == |whole|;
      assert body[..dot] == whole && body[dot + 1..] == fraction;
    } else {
      assert body == whole;
      assert forall k | 0 <= k < |body| :: body[k] != '.';
    }
  }

  /** Zeros written in front of a digit string do not change its value. */
  lemma {:induction false} LeadingZerosValue(n: nat, digits: string)
    requires AllDigits(digits)
    ensures AllDigits(Zeros(n) + digits)
    ensures DigitsValue(Zeros(n) + digits) == DigitsValue(digits)
  {
    var s := Zeros(n) + digits;
    if digits == [] {
      ZerosValue(n);
      assert s == Zeros(n);
    } else {
      LeadingZerosValue(n, digits[..|digits| - 1]);
      assert s[..|s| - 1] == Zeros(n) + digits[..|digits| - 1];
    }
  }

  lemma {:induction false} ZerosValue(n: nat)
    ensures AllDigits(Zeros(n)) && DigitsValue(Zeros(n)) == 0
  {
    if n > 0 {
      ZerosValue(n - 1);
      assert Zeros(n)[..n - 1] == Zeros(n - 1);
    }
  }

  function Zeros(n: nat): (s: string)
    ensures |s| == n && forall i | 0 <= i < n :: s[i] == '0'
  {
    seq(n, _ => '0')
  }

  /** The digits of a magnitude, padded with leading zeros to more digits than `scale`. */
  function PaddedDigits(magnitude: nat, scale: nat): (digits: string)
    ensures AllDigits(digits) && |digits| > scale
    ensures DigitsValue(digits) == magnitude
  {
    var digits := NatToDigits(magnitude);
    DigitsRoundTrip(magnitude);
    if |digits| > scale then digits
    else
      LeadingZerosValue(scale + 1 - |digits|, digits);
      Zeros(scale + 1 - |digits|) + digits
  }

  /** BigDecimal.toPlainString (which BigDecimal.toString agrees with for scales
      0 to 6): the unscaled magnitude's digits, padded with zeros to more digits than
      the scale, a point before the last `scale` of them when the scale is positive,
      and a '-' in front of a negative value. */
  function PlainString(d: Decimal): string {
    var padded := PaddedDigits(if d.unscaled < 0 then -d.unscaled else d.unscaled, d.scale);
    var cut := |padded| - d.scale;
    (if d.unscaled < 0 then "-" else "") + PlainBody(padded[..cut], padded[cut..], d.scale > 0)
  }

  /** A price printed in plain notation parses back to the same BigDecimal, unscaled
      value and scale both. */
  lemma PlainStringRoundTrip(d: Decimal)
    ensures ParseDecimal(PlainString(d)) == Some(d)
  {
    var padded := PaddedDigits(if d.unscaled < 0 then -d.unscaled else d.unscaled, d.scale);
    var cut := |padded| - d.scale;
    var whole, fraction := padded[..cut], padded[cut..];
    var sign := if d.unscaled < 0 then "-" else "";
    assert whole + fraction == padded;
    assert PlainString(d) == sign + PlainBody(whole, fraction, d.scale > 0);
    assert |fraction| == d.scale;
    assert Signed(sign, DigitsValue(whole + fraction)) == d.unscaled;
    ParseDecimalValue(sign, whole, fraction, d.scale > 0);
  }
}
