/** Decimal and hexadecimal renderings of integers, and `Int32.TryParse`. */
module Numbers {
  import opened Wrappers
  import opened Text

  const Int32Min: int := -0x8000_0000
  const Int32Max: int := 0x7FFF_FFFF

  /** An octet, the element type of a .NET `byte[]`. */
  newtype byte = x: int | 0 <= x < 0x100

  predicate IsDigit(u: u16) {
    0x30 <= u <= 0x39
  }

  predicate AllDigits(s: Str) {
    forall i | 0 <= i < |s| :: IsDigit(s[i])
  }

  /** The number a string of decimal digits spells. */
  function DigitsValue(s: Str): nat
    requires AllDigits(s)
    decreases |s|
  {
    if s == [] then 0 else DigitsValue(s[..|s| - 1]) * 10 + (s[|s| - 1] - 0x30) as int
  }

  /** The shortest decimal digits of `n`. */
  function NatToDecimal(n: nat): (r: Str)
    ensures |r| > 0 && AllDigits(r)
    decreases n
  {
    if n < 10 then [(0x30 + n) as u16] else NatToDecimal(n / 10) + [(0x30 + n % 10) as u16]
  }

  /** `Int32.ToString()`: a minus sign for negative numbers, then the digits. */
  function IntToDecimal(n: int): Str {
    if n < 0 then [0x2D] + NatToDecimal(-n) else NatToDecimal(n)
  }

  /** The white space `NumberStyles.Integer` accepts around a number. */
  predicate IsWhite(u: u16) {
    u == 0x20 || 0x09 <= u <= 0x0D
  }

  function TrimStart(s: Str): Str
    decreases |s|
  {
    if s != [] && IsWhite(s[0]) then TrimStart(s[1..]) else s
  }

  function TrimEnd(s: Str): Str
    decreases |s|
  {
    if s != [] && IsWhite(s[|s| - 1]) then TrimEnd(s[..|s| - 1]) else s
  }

  /** `Int32.TryParse(s, out v)`: optional surrounding white space, an optional
      sign, at least one decimal digit, and a value that fits in 32 bits. */
  function ParseInt32(s: Str): (r: Option<int>)
    ensures r.Some? ==> Int32Min <= r.value <= Int32Max
  {
    var t := TrimEnd(TrimStart(s));
    var signed := |t| > 0 && (t[0] == 0x2D || t[0] == 0x2B);
    var body := if signed then t[1..] else t;
    if body == [] || !AllDigits(body) then None
    else
      var v: int := if signed && t[0] == 0x2D then -(DigitsValue(body) as int) else DigitsValue(body);
      if Int32Min <= v <= Int32Max then Some(v) else None
  }

  /** The value `TryParse` leaves in its out parameter: the number, or 0. */
  function ParseOrZero(s: Str): (r: int)
    ensures Int32Min <= r <= Int32Max
    ensures ParseInt32(s).None? ==> r == 0
  {
    match ParseInt32(s)
    case Some(v) => v
    case None => 0
  }

  lemma {:induction false} DigitsOfNat(n: nat)
    ensures DigitsValue(NatToDecimal(n)) == n
    decreases n
  {
    if n >= 10 {
      var d := NatToDecimal(n / 10) + [(0x30 + n % 10) as u16];
      assert d[..|d| - 1] == NatToDecimal(n / 10);
      DigitsOfNat(n / 10);
    }
  }

  lemma TrimDigits(s: Str)
    requires |s| > 0 && !IsWhite(s[0]) && !IsWhite(s[|s| - 1])
    ensures TrimEnd(TrimStart(s)) == s
  {
  }

  /** Parsing the rendering of any 32-bit integer gives it back. */
  lemma DecimalRoundTrip(n: int)
    requires Int32Min <= n <= Int32Max
    ensures ParseInt32(IntToDecimal(n)) == Some(n)
  {
    var s := IntToDecimal(n);
    TrimDigits(s);
    if n < 0 {
      DigitsOfNat(-n);
      assert s[1..] == NatToDecimal(-n);
    } else {
      DigitsOfNat(n);
    }
  }

  function HexDigit(d: int): (u: u16)
    requires 0 <= d < 16
  {
    if d < 10 then (0x30 + d) as u16 else (0x41 + d - 10) as u16
  }

  /** The value of an upper-case hexadecimal digit, or -1. */
  function HexValue(u: u16): int {
    if 0x30 <= u <= 0x39 then (u - 0x30) as int
    else if 0x41 <= u <= 0x46 then (u - 0x41) as int + 10
    else -1
  }

  /** Each byte as two upper-case hexadecimal digits (`String.Format("{0:X2}")`). */
  function HexUpper(bs: seq<byte>): (r: Str)
    ensures |r| == 2 * |bs|
    ensures forall i | 0 <= i < |r| :: 0 <= HexValue(r[i]) < 16
    decreases |bs|
  {
    if bs == [] then []
    else [HexDigit(bs[0] as int / 16), HexDigit(bs[0] as int % 16)] + HexUpper(bs[1..])
  }

  /** Reads pairs of upper-case hexadecimal digits back into bytes. */
  function HexDecode(s: Str): Option<seq<byte>>
    decreases |s|
  {
    if s == [] then Some([])
    else if |s| == 1 || HexValue(s[0]) < 0 || HexValue(s[1]) < 0 then None
    else match HexDecode(s[2..])
      case None => None
      case Some(rest) => Some([(HexValue(s[0]) * 16 + HexValue(s[1])) as byte] + rest)
  }

  lemma {:induction false} HexRoundTrip(bs: seq<byte>)
    ensures HexDecode(HexUpper(bs)) == Some(bs)
    decreases |bs|
  {
    if bs != [] {
      var s := HexUpper(bs);
      assert s[2..] == HexUpper(bs[1..]);
      HexRoundTrip(bs[1..]);
      assert HexValue(s[0]) * 16 + HexValue(s[1]) == bs[0] as int;
      assert [bs[0]] + bs[1..] == bs;
    }
  }
}
