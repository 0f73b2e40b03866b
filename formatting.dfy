/**
 * `format_value`: the display text of a metric value, and the float values
 * (finite, infinite, NaN) that a pandas division can produce.
 */
module Formatting {
  import opened Wrappers

  /** A float as far as formatting cares: finite values are exact reals. */
  datatype Float = Finite(r: real) | PosInf | NegInf | NaN

  /** What `format_value` can receive: None, a non-numeric object, or a float. */
  datatype Value = Absent | Text(s: string) | Number(f: Float)

  /** The `metric_type` argument: 'percent', 'currency', 'ratio', 'number', anything else. */
  datatype Kind = Percent | Currency | Ratio | Integer | Plain

  /** `int(inf)` raises OverflowError. */
  datatype FormatError = Overflow

  /** pandas Series division: x/0 is an infinity of the sign of x, 0/0 is NaN. */
  function Divide(n: real, d: real): (q: Float)
    ensures q.Finite? <==> d != 0.0
    ensures q.Finite? ==> q.r * d == n
    ensures q.NaN? <==> d == 0.0 && n == 0.0
    ensures q.PosInf? <==> d == 0.0 && n > 0.0
  {
    if d != 0.0 then Finite(n / d)
    else if n > 0.0 then PosInf
    else if n < 0.0 then NegInf
    else NaN
  }

  /** `q * 100` on a float. */
  function Times100(q: Float): (p: Float)
    ensures p.Finite? <==> q.Finite?
    ensures p.Finite? ==> p.r == 100.0 * q.r
    ensures p.NaN? <==> q.NaN?
    ensures p.PosInf? <==> q.PosInf?
  {
    if q.Finite? then Finite(100.0 * q.r) else q
  }

  predicate IsDigit(c: char) {
    '0' <= c <= '9'
  }

  predicate AllDigits(s: string) {
    forall i :: 0 <= i < |s| ==> IsDigit(s[i])
  }

  function Digit(d: nat): (c: char)
    requires d < 10
    ensures IsDigit(c) && (c as int) - ('0' as int) == d
  {
    (('0' as int) + d) as char
  }

  function DigitValue(c: char): nat
    requires IsDigit(c)
  {
    (c as int) - ('0' as int)
  }

  /** The decimal numeral of `n`, without leading zeros. */
  function NatText(n: nat): (s: string)
    ensures s != [] && AllDigits(s)
  {
    if n < 10 then [Digit(n)] else NatText(n / 10) + [Digit(n % 10)]
  }

  /** The number a string of decimal digits denotes. */
  function DigitsValue(s: string): nat
    requires AllDigits(s)
  {
    if s == [] then 0 else 10 * DigitsValue(s[..|s| - 1]) + DigitValue(s[|s| - 1])
  }

  /** Reading back a numeral gives the number written. */
  lemma {:induction false} NatTextRoundTrip(n: nat)
    ensures DigitsValue(NatText(n)) == n
  {
    if n >= 10 {
      var s := NatText(n);
      assert s[..|s| - 1] == NatText(n / 10);
      NatTextRoundTrip(n / 10);
    }
  }

  /** `str(i)` for an integer. */
  function IntText(i: int): string {
    if i < 0 then "-" + NatText(-i) else NatText(i)
  }

  /** `int(x)`: truncation toward zero. */
  function Truncate(x: real): (i: int)
    ensures 0.0 <= x ==> i as real <= x < i as real + 1.0
    ensures x < 0.0 ==> i as real - 1.0 < x <= i as real
  {
    if x >= 0.0 then x.Floor else -((-x).Floor)
  }

  /** The integer nearest to `x`, ties to the even one, as `%.2f` rounds. */
  function RoundHalfEven(x: real): (m: nat)
    requires x >= 0.0
    ensures -0.5 <= m as real - x <= 0.5
  {
    var n := x.Floor;
    var f := x - n as real;
    if f > 0.5 || (f == 0.5 && n % 2 == 1) then n + 1 else n
  }

  /** The two-digit text of a number below 100, with a leading zero. */
  function Pad2(n: nat): (s: string)
    requires n < 100
    ensures |s| == 2 && AllDigits(s) && DigitsValue(s) == n
  {
    var s := [Digit(n / 10), Digit(n % 10)];
    assert s[..1] == [Digit(n / 10)] && s[..1][..0] == [];
    assert DigitsValue(s[..1]) == n / 10;
    s
  }

  /** `f"{x:.2f}"` of a finite value: sign, integer part, '.', two rounded decimals. */
  function Fixed2(x: real): (s: string)
    ensures |s| >= 4 && s[|s| - 3] == '.'
    ensures s[0] == '-' <==> x < 0.0
    ensures IsDigit(s[if x < 0.0 then 1 else 0])
  {
    var m := Rounded(x);
    if x < 0.0 then "-" + Hundredths(m) else Hundredths(m)
  }

  /** The magnitude of `x` in hundredths, rounded half to even. */
  function Rounded(x: real): (m: nat)
    ensures -0.5 <= m as real - 100.0 * (if x < 0.0 then -x else x) <= 0.5
  {
    RoundHalfEven(100.0 * (if x < 0.0 then -x else x))
  }

  /** `f"{f:.2f}"` of a non-NaN float: infinities print as 'inf' and '-inf'. */
  function FloatFixed2(f: Float): (s: string)
    requires !f.NaN?
    ensures s == "inf" <==> f.PosInf?
    ensures s == "-inf" <==> f.NegInf?
    ensures f.Finite? ==> |s| >= 4 && s[|s| - 3] == '.'
  {
    match f
    case Finite(x) => Fixed2(x)
    case PosInf => "inf"
    case NegInf => "-inf"
  }

  /** The last `places` decimals of `m`, as digits. */
  function Decimals(m: nat, places: nat): (s: string)
    ensures |s| == places && AllDigits(s)
  {
    if places == 0 then "" else Decimals(m / 10, places - 1) + [Digit(m % 10)]
  }

  /** Drops trailing zeros from a decimal part, keeping at least one digit. */
  function TrimZeros(s: string): (r: string)
    ensures s != [] ==> r != []
    decreases |s|
  {
    if |s| > 1 && s[|s| - 1] == '0' then TrimZeros(s[..|s| - 1]) else s
  }

  /** Stand-in for `str(x)` of a finite value: integer part, '.', the decimals up to 1e-17 without trailing zeros. */
  function PlainText(x: real): (s: string)
    ensures |s| >= 3
    ensures s[0] == '-' <==> x < 0.0
    ensures '.' in s
  {
    var a := if x < 0.0 then -x else x;
    var n := a.Floor;
    var frac := RoundHalfEven((a - n as real) * 100000000000000000.0);
    var whole := if frac == 100000000000000000 then n + 1 else n;
    (if x < 0.0 then "-" else "") + NatText(whole) + "." + TrimZeros(Decimals(frac, 17))
  }

  /** Parses `[-]digits.dd`, the shape `Fixed2` writes, back to its value. */
  function ParseFixed2(s: string): Option<real> {
    if |s| > 0 && s[0] == '-' then
      match ParseUnsigned(s[1..])
      case Some(v) => Some(-v)
      case None => None
    else ParseUnsigned(s)
  }

  /** Parses `digits.dd`: at least one digit, '.', exactly two digits. */
  function ParseUnsigned(u: string): Option<real> {
    if |u| >= 4 && u[|u| - 3] == '.' then ParseDigits(u[..|u| - 3], u[|u| - 2..]) else None
  }

  /** The value of the whole digits `w` and the two decimals `d`. */
  function ParseDigits(w: string, d: string): Option<real> {
    if AllDigits(w) && AllDigits(d) then Some(DigitsValue(w) as real + DigitsValue(d) as real / 100.0) else None
  }

  /** The unsigned text of `m` hundredths. */
  function Hundredths(m: nat): (u: string)
    ensures |u| >= 4 && IsDigit(u[0]) && u[|u| - 3] == '.'
  {
    NatText(m / 100) + "." + Pad2(m % 100)
  }

  lemma ParseHundredths(m: nat)
    ensures ParseFixed2(Hundredths(m)) == Some(m as real / 100.0)
    ensures ParseFixed2("-" + Hundredths(m)) == Some(-(m as real / 100.0))
  {
    var w, d := NatText(m / 100), Pad2(m % 100);
    NatTextRoundTrip(m / 100);
    ParseParts(w, d);
    ParseNegated(Hundredths(m));
    HundredthsValue(m);
  }

  /** A numeral, '.', and two digits parse to their value. */
  lemma ParseParts(w: string, d: string)
    requires w != [] && AllDigits(w) && |d| == 2 && AllDigits(d)
    ensures ParseFixed2(w + "." + d) == Some(DigitsValue(w) as real + DigitsValue(d) as real / 100.0)
  {
    var u := w + "." + d;
    assert u[0] == w[0] && IsDigit(w[0]);
    assert u[..|u| - 3] == w && u[|u| - 2..] == d && u[|u| - 3] == '.';
  }

  /** A leading '-' negates the value of a text that does not start with one. */
  lemma ParseNegated(u: string)
    requires u != [] && u[0] != '-'
    ensures ParseFixed2("-" + u) == if ParseFixed2(u).Some? then Some(-ParseFixed2(u).value) else None
  {
    assert ("-" + u)[1..] == u;
  }

  lemma HundredthsValue(m: nat)
    ensures (m / 100) as real + (m % 100) as real / 100.0 == m as real / 100.0
  {
    var q, r := m / 100, m % 100;
    assert m == 100 * q + r;
    assert (m as real) == 100.0 * (q as real) + r as real;
  }

  /** `Fixed2` rounds to the nearest hundredth: parsing its text gives a value within 0.005 of `x`. */
  lemma Fixed2RoundTrip(x: real)
    ensures ParseFixed2(Fixed2(x)).Some?
    ensures -0.005 <= ParseFixed2(Fixed2(x)).value - x <= 0.005
  {
    var m := Rounded(x);
    HundredthNear(if x < 0.0 then -x else x, m);
    ParseHundredths(m);
  }

  /** A count of hundredths within half a unit of `100 * a` is within 0.005 of `a`. */
  lemma HundredthNear(a: real, m: nat)
    requires -0.5 <= m as real - 100.0 * a <= 0.5
    ensures -0.005 <= m as real / 100.0 - a <= 0.005
  {
  }

  /**
   * `format_value(value, metric_type)`: "-" for None, NaN or a non-number,
   * otherwise the value rendered according to the kind.
   */
  function FormatValue(v: Value, kind: Kind): (r: Result<string, FormatError>)
    ensures r.Err? <==> kind == Integer && v.Number? && (v.f.PosInf? || v.f.NegInf?)
    ensures (v.Absent? || v.Text? || (v.Number? && v.f.NaN?)) ==> r == Ok("-")
    ensures v.Number? && !v.f.NaN? && kind == Percent ==> r == Ok(FloatFixed2(v.f) + "%")
    ensures v.Number? && !v.f.NaN? && kind == Currency ==> r == Ok("¥" + FloatFixed2(v.f))
    ensures v.Number? && !v.f.NaN? && kind == Ratio ==> r == Ok(FloatFixed2(v.f) + "x")
    ensures v.Number? && v.f.Finite? && kind == Integer ==> r == Ok(IntText(Truncate(v.f.r)))
  {
    match v
    case Absent => Ok("-")
    case Text(_) => Ok("-")
    case Number(NaN) => Ok("-")
    case Number(f) =>
      match kind
      case Percent => Ok(FloatFixed2(f) + "%")
      case Currency => Ok("¥" + FloatFixed2(f))
      case Ratio => Ok(FloatFixed2(f) + "x")
      case Integer =>
        (match f
         case Finite(x) => Ok(IntText(Truncate(x)))
         case _ => Err(Overflow))
      case Plain =>
        (match f
         case Finite(x) => Ok(PlainText(x))
         case PosInf => Ok("inf")
         case _ => Ok("-inf"))
  }
}
