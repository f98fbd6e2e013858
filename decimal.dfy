/**
  Decimal text of numbers as Python writes it: `str(n)` for integers and
  `f"{x:.2f}"` for a matrix entry, with readers that take the text back.
  A floating-point entry is modelled by the exact real it denotes.
*/
module Decimal {
  import opened Wrappers

  predicate IsDigit(c: char) {
    '0' <= c <= '9'
  }

  predicate AllDigits(s: string) {
    forall i :: 0 <= i < |s| ==> IsDigit(s[i])
  }

  function DigitChar(d: nat): (c: char)
    requires d < 10
    ensures IsDigit(c)
  {
    ('0' as int + d) as char
  }

  function DigitValue(c: char): (d: nat)
    requires IsDigit(c)
    ensures d < 10
  {
    c as int - '0' as int
  }

  /** `str(n)` for a non-negative integer: its decimal digits, no leading zero. */
  function NatToString(n: nat): (s: string)
    ensures s != [] && AllDigits(s)
    ensures s[0] == '0' <==> n == 0
    ensures n == 0 ==> |s| == 1
  {
    if n < 10 then [DigitChar(n)] else NatToString(n / 10) + [DigitChar(n % 10)]
  }

  /** The number a string of decimal digits denotes. */
  function DigitsValue(s: string): nat
    requires AllDigits(s)
  {
    if s == [] then 0 else DigitsValue(s[..|s| - 1]) * 10 + DigitValue(s[|s| - 1])
  }

  lemma {:induction false} NatToStringReadsBack(n: nat)
    ensures DigitsValue(NatToString(n)) == n
  {
    var s := NatToString(n);
    if n >= 10 {
      NatToStringReadsBack(n / 10);
      assert s[..|s| - 1] == NatToString(n / 10);
    }
  }

  /** `str(i)` for any integer. */
  function IntToString(i: int): string {
    if i < 0 then "-" + NatToString(-i) else NatToString(i)
  }

  /** Reads an optionally negative decimal integer. */
  function ReadInt(s: string): Option<int> {
    if s != [] && s[0] == '-' then
      if |s| > 1 && AllDigits(s[1..]) then Some(0 - DigitsValue(s[1..])) else None
    else if s != [] && AllDigits(s) then Some(DigitsValue(s))
    else None
  }

  /** The integer counts written into an error message can be read back. */
  lemma IntToStringReadsBack(i: int)
    ensures ReadInt(IntToString(i)) == Some(i)
  {
    if i < 0 {
      NatToStringReadsBack(-i);
      ReadNegativeInt(NatToString(-i));
    } else {
      NatToStringReadsBack(i);
      ReadDigits(NatToString(i));
    }
  }

  lemma ReadNegativeInt(d: string)
    requires d != [] && AllDigits(d)
    ensures ReadInt("-" + d) == Some(0 - DigitsValue(d))
  {
    assert ("-" + d)[1..] == d;
  }

  lemma ReadDigits(d: string)
    requires d != [] && AllDigits(d)
    ensures ReadInt(d) == Some(DigitsValue(d))
  {
    assert IsDigit(d[0]);
  }

  function Abs(x: real): real {
    if x < 0.0 then -x else x
  }

  /** The integer nearest to `y`, ties going to the even neighbour. */
  function RoundHalfEven(y: real): (n: int)
    ensures -0.5 <= n as real - y <= 0.5
    ensures (n as real - y == 0.5 || y - n as real == 0.5) ==> n % 2 == 0
    ensures y >= 0.0 ==> n >= 0
  {
    var f := y.Floor;
    var d := y - f as real;
    if d < 0.5 then f
    else if d > 0.5 then f + 1
    else if f % 2 == 0 then f
    else f + 1
  }

  /** Hundredths of |x|, correctly rounded with ties to even. */
  function Hundredths(x: real): nat {
    RoundHalfEven(Abs(x) * 100.0)
  }

  /** `f"{x:.2f}"`: a minus sign when x is negative, the integer part, a point
      and exactly two decimals of |x| rounded to the nearest hundredth. */
  function Fmt2(x: real): (s: string)
    ensures |s| >= 4 && s[|s| - 3] == '.' && IsDigit(s[|s| - 2]) && IsDigit(s[|s| - 1])
    ensures forall i :: 0 <= i < |s| ==> IsDigit(s[i]) || s[i] == '-' || s[i] == '.'
  {
    var n := Hundredths(x);
    var sign := if x < 0.0 then "-" else "";
    sign + NatToString(n / 100) + "." + [DigitChar(n / 10 % 10), DigitChar(n % 10)]
  }

  /** The value that `Fmt2(x)` writes. */
  function Rounded2(x: real): real {
    var n := Hundredths(x) as real;
    if x < 0.0 then -n / 100.0 else n / 100.0
  }

  /** Reads text of the form `[-]digits.dd`. */
  function ReadFixed2(s: string): Option<real> {
    if |s| < 4 || s[|s| - 3] != '.' then None
    else ReadSigned(s[..|s| - 3], s[|s| - 2..])
  }

  function ReadSigned(whole: string, frac: string): Option<real> {
    if whole != [] && whole[0] == '-' then
      match ReadUnsigned(whole[1..], frac)
      case Some(v) => Some(-v)
      case None => None
    else ReadUnsigned(whole, frac)
  }

  function ReadUnsigned(digits: string, frac: string): Option<real> {
    if digits == [] || !AllDigits(digits) || !AllDigits(frac) then None
    else Some((DigitsValue(digits) * 100 + DigitsValue(frac)) as real / 100.0)
  }

  lemma TwoDigits(n: nat)
    ensures var frac := [DigitChar(n / 10 % 10), DigitChar(n % 10)];
      AllDigits(frac) && DigitsValue(frac) == n % 100
  {
    var frac := [DigitChar(n / 10 % 10), DigitChar(n % 10)];
    assert frac[..1] == [DigitChar(n / 10 % 10)];
    assert DigitsValue(frac[..1]) == n / 10 % 10;
    assert n / 10 % 10 * 10 + n % 10 == n % 100;
  }

  lemma ReadFixed2Parts(whole: string, frac: string)
    requires whole != [] && |frac| == 2
    ensures ReadFixed2(whole + "." + frac) == ReadSigned(whole, frac)
  {
    var s := whole + "." + frac;
    assert s[..|s| - 3] == whole;
    assert s[|s| - 2..] == frac;
  }

  lemma ReadNegative(ip: string, frac: string)
    requires ip != [] && |frac| == 2
    ensures ReadFixed2(("-" + ip) + "." + frac) == match ReadUnsigned(ip, frac)
      case Some(v) => Some(-v)
      case None => None
  {
    var whole := "-" + ip;
    assert whole[1..] == ip;
    ReadFixed2Parts(whole, frac);
  }

  lemma ReadPositive(ip: string, frac: string)
    requires ip != [] && AllDigits(ip) && |frac| == 2
    ensures ReadFixed2(ip + "." + frac) == ReadUnsigned(ip, frac)
  {
    assert IsDigit(ip[0]);
    ReadFixed2Parts(ip, frac);
  }

  /** The text `Fmt2` writes reads back as the entry rounded to hundredths. */
  lemma Fmt2ReadsBack(x: real)
    ensures ReadFixed2(Fmt2(x)) == Some(Rounded2(x))
  {
    var n := Hundredths(x);
    var ip := NatToString(n / 100);
    var frac := [DigitChar(n / 10 % 10), DigitChar(n % 10)];
    TwoDigits(n);
    NatToStringReadsBack(n / 100);
    ReadUnsignedHundredths(ip, frac, n);
    if x < 0.0 {
      ReadNegative(ip, frac);
      assert Fmt2(x) == ("-" + ip) + "." + frac;
    } else {
      ReadPositive(ip, frac);
      assert Fmt2(x) == "" + ip + "." + frac;
      assert "" + ip + "." + frac == ip + "." + frac;
    }
  }

  lemma ReadUnsignedHundredths(ip: string, frac: string, n: nat)
    requires ip != [] && AllDigits(ip) && AllDigits(frac)
    requires DigitsValue(ip) == n / 100 && DigitsValue(frac) == n % 100
    ensures ReadUnsigned(ip, frac) == Some(n as real / 100.0)
  {
    assert DigitsValue(ip) * 100 + DigitsValue(frac) == n;
  }

  lemma RoundWhole(y: real)
    requires y.Floor as real == y
    ensures RoundHalfEven(y) == y.Floor
  {
  }

  lemma HundredthsBound(n: real, y: real)
    requires -0.5 <= n - y * 100.0 <= 0.5
    ensures -0.005 <= n / 100.0 - y <= 0.005
  {
    assert n / 100.0 - y == (n - y * 100.0) / 100.0;
  }

  lemma AbsWhole(x: real, k: int)
    requires x * 100.0 == k as real
    ensures Abs(x) * 100.0 == (if k < 0 then -k else k) as real
  {
  }

  /** Rounding to hundredths moves an entry by at most half a hundredth, and
      not at all when the entry already is a whole number of hundredths. */
  lemma Rounded2Error(x: real)
    ensures -0.005 <= Rounded2(x) - x <= 0.005
    ensures (x * 100.0).Floor as real == x * 100.0 ==> Rounded2(x) == x
  {
    var a := Abs(x);
    var n := Hundredths(x) as real;
    HundredthsBound(n, a);
    assert Rounded2(x) == if x < 0.0 then -(n / 100.0) else n / 100.0;
    if (x * 100.0).Floor as real == x * 100.0 {
      var k := (x * 100.0).Floor;
      var w := if k < 0 then -k else k;
      AbsWhole(x, k);
      RoundWhole(w as real);
      assert n == w as real;
    }
  }
}
