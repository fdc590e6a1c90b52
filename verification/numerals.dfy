/** Python's integer/text conversions as the code uses them: `str(n)`, `int(s)`,
    `int(s, 16)` and the `02x` format specification. */
module Numerals {
  import opened Wrappers
  import Text

  predicate IsDigit(c: char) {
    '0' <= c <= '9'
  }

  predicate IsLowerHexDigit(c: char) {
    IsDigit(c) || 'a' <= c <= 'f'
  }

  predicate IsHexDigit(c: char) {
    IsLowerHexDigit(c) || 'A' <= c <= 'F'
  }

  predicate AllDigits(s: string) {
    forall i :: 0 <= i < |s| ==> IsDigit(s[i])
  }

  predicate AllHexDigits(s: string) {
    forall i :: 0 <= i < |s| ==> IsHexDigit(s[i])
  }

  predicate AllLowerHexDigits(s: string) {
    forall i :: 0 <= i < |s| ==> IsLowerHexDigit(s[i])
  }

  function DigitChar(d: nat): (c: char)
    requires d < 10
    ensures IsDigit(c)
  {
    ('0' as int + d) as char
  }

  function DigitValue(c: char): (d: nat)
    requires IsDigit(c)
    ensures d < 10
  {
    c as int - '0' as int
  }

  /** Python's `str(n)` for a non-negative integer. */
  function NatToDecimal(n: nat): (s: string)
    ensures |s| >= 1 && AllDigits(s)
  {
    if n < 10 then [DigitChar(n)] else NatToDecimal(n / 10) + [DigitChar(n % 10)]
  }

  /** Python's `str(i)` for any integer. */
  function IntToDecimal(i: int): string {
    if i < 0 then "-" + NatToDecimal(-i) else NatToDecimal(i)
  }

  /** The number a string of decimal digits denotes. */
  function DecimalValue(s: string): nat
    requires AllDigits(s)
  {
    if |s| == 0 then 0 else DecimalValue(s[..|s| - 1]) * 10 + DigitValue(s[|s| - 1])
  }

  /** Reading back the digits `str` printed gives the number printed. */
  lemma {:induction false} DecimalValueOfNatToDecimal(n: nat)
    ensures DecimalValue(NatToDecimal(n)) == n
  {
    if n >= 10 {
      DecimalValueOfNatToDecimal(n / 10);
      var s := NatToDecimal(n);
      assert s[..|s| - 1] == NatToDecimal(n / 10);
    }
  }

  /** Python's `int(s)`: optional surrounding whitespace, an optional sign, then one or
      more decimal digits; anything else raises (here: `None`). */
  function ParseInt(s: string): Option<int> {
    ParseStripped(Text.Strip(s))
  }

  /** `int` of text with no surrounding whitespace left. */
  function ParseStripped(t: string): Option<int> {
    if |t| > 0 && (t[0] == '-' || t[0] == '+') then
      var body := t[1..];
      if |body| > 0 && AllDigits(body) then
        var v: int := DecimalValue(body);
        Some(if t[0] == '-' then -v else v)
      else None
    else if |t| > 0 && AllDigits(t) then Some(DecimalValue(t))
    else None
  }

  lemma DigitIsNotSpace(c: char)
    requires IsDigit(c)
    ensures !Text.IsSpace(c)
  {
  }

  /** Text that starts and ends with a non-space is parsed as it stands. */
  lemma ParseIntUnstripped(s: string)
    requires |s| > 0 && !Text.IsSpace(s[0]) && !Text.IsSpace(s[|s| - 1])
    ensures ParseInt(s) == ParseStripped(s)
  {
  }

  lemma ParseIntOfDigits(d: string)
    requires |d| > 0 && AllDigits(d)
    ensures ParseInt(d) == Some(DecimalValue(d))
  {
    DigitIsNotSpace(d[0]);
    DigitIsNotSpace(d[|d| - 1]);
    ParseIntUnstripped(d);
  }

  /** A minus sign followed by digits is the negated number. */
  lemma ParseStrippedNegative(s: string)
    requires |s| > 1 && s[0] == '-' && AllDigits(s[1..])
    ensures ParseStripped(s) == Some(-(DecimalValue(s[1..]) as int))
  {
  }

  /** `int` of a minus sign followed by digits. */
  lemma ParseIntOfSignedDigits(s: string)
    requires |s| > 1 && s[0] == '-' && AllDigits(s[1..])
    ensures ParseInt(s) == Some(-(DecimalValue(s[1..]) as int))
  {
    assert s[|s| - 1] == s[1..][|s| - 2];
    DigitIsNotSpace(s[|s| - 1]);
    ParseIntUnstripped(s);
    ParseStrippedNegative(s);
  }

  /** What `str(i)` looks like: digits denoting `|i|`, after a minus sign when `i` is negative. */
  lemma IntToDecimalShape(i: int)
    ensures var s := IntToDecimal(i);
      if i < 0 then |s| > 1 && s[0] == '-' && AllDigits(s[1..]) && DecimalValue(s[1..]) == -i
      else |s| > 0 && AllDigits(s) && DecimalValue(s) == i
  {
    if i < 0 {
      DecimalValueOfNatToDecimal(-i);
      assert IntToDecimal(i)[1..] == NatToDecimal(-i);
    } else {
      DecimalValueOfNatToDecimal(i);
    }
  }

  /** `int(str(i)) == i`: the decimal printer and parser are inverse. */
  lemma ParseIntOfIntToDecimal(i: int)
    ensures ParseInt(IntToDecimal(i)) == Some(i)
  {
    IntToDecimalShape(i);
    if i < 0 {
      ParseIntOfSignedDigits(IntToDecimal(i));
    } else {
      ParseIntOfDigits(IntToDecimal(i));
    }
  }

  function HexDigitChar(d: nat): (c: char)
    requires d < 16
    ensures IsLowerHexDigit(c)
  {
    if d < 10 then DigitChar(d) else ('a' as int + (d - 10)) as char
  }

  function HexDigitValue(c: char): (d: nat)
    requires IsHexDigit(c)
    ensures d < 16
  {
    if IsDigit(c) then DigitValue(c)
    else if 'a' <= c <= 'f' then c as int - 'a' as int + 10
    else c as int - 'A' as int + 10
  }

  /** Python's `format(n, "x")`: lower-case hex digits without leading zeros. */
  function ToHex(n: nat): (s: string)
    ensures |s| >= 1 && AllLowerHexDigits(s)
  {
    if n < 16 then [HexDigitChar(n)] else ToHex(n / 16) + [HexDigitChar(n % 16)]
  }

  /** Python's `f"{n:02x}"`: hex, zero-padded to two characters; a negative number is
      its sign followed by the hex of its magnitude (already two characters wide). */
  function Format02x(n: int): (s: string)
    ensures |s| >= 2
    ensures forall i :: 0 <= i < |s| ==> s[i] == '-' || IsLowerHexDigit(s[i])
    ensures n >= 0 ==> AllLowerHexDigits(s)
  {
    if n < 0 then "-" + ToHex(-n)
    else if n < 16 then "0" + ToHex(n)
    else ToHex(n)
  }

  /** The number a string of hex digits (either case) denotes. */
  function HexValue(s: string): nat
    requires AllHexDigits(s)
  {
    if |s| == 0 then 0 else HexValue(s[..|s| - 1]) * 16 + HexDigitValue(s[|s| - 1])
  }

  /** Python's `int(s, 16)` on the strings the code hands it: one or more hex digits
      parse, anything else (in particular `""`) raises (here: `None`). */
  function ParseHex(s: string): Option<nat> {
    if |s| > 0 && AllHexDigits(s) then Some(HexValue(s)) else None
  }

  lemma HexDigitRoundTrip(c: char)
    requires IsLowerHexDigit(c)
    ensures HexDigitChar(HexDigitValue(c)) == c
  {
  }

  /** A byte prints as exactly its two hex digits, high nibble first. */
  lemma Format02xOfByte(n: nat)
    requires n < 256
    ensures Format02x(n) == [HexDigitChar(n / 16), HexDigitChar(n % 16)]
  {
    if n >= 16 {
      assert ToHex(n / 16) == [HexDigitChar(n / 16)];
    }
  }

  /** A two-digit lower-case hex string is a byte, and printing that byte gives the
      string back: `f"{int(p, 16):02x}" == p`. */
  lemma HexByteRoundTrip(p: string)
    requires |p| == 2 && AllLowerHexDigits(p)
    ensures ParseHex(p) == Some(HexValue(p))
    ensures HexValue(p) < 256
    ensures Format02x(HexValue(p)) == p
  {
    var hi, lo := HexDigitValue(p[0]), HexDigitValue(p[1]);
    assert p[..1][..0] == "";
    assert p[..1][0] == p[0];
    assert HexValue(p[..1]) == hi;
    assert HexValue(p) == hi * 16 + lo;
    Format02xOfByte(hi * 16 + lo);
    assert (hi * 16 + lo) / 16 == hi && (hi * 16 + lo) % 16 == lo;
    HexDigitRoundTrip(p[0]);
    HexDigitRoundTrip(p[1]);
  }

  /** Reading a byte's `02x` spelling back as hex gives the byte. */
  lemma ParseHexOfFormat02x(n: nat)
    requires n < 256
    ensures ParseHex(Format02x(n)) == Some(n)
  {
    Format02xOfByte(n);
    var p := Format02x(n);
    assert p[..1][..0] == "";
    assert p[..1][0] == p[0];
    assert HexDigitValue(HexDigitChar(n / 16)) == n / 16;
    assert HexDigitValue(HexDigitChar(n % 16)) == n % 16;
    assert HexValue(p[..1]) == n / 16;
    assert AllHexDigits(p);
  }
}
