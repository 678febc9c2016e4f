/**
 Bytes and PHP's `bin2hex`: every byte becomes two lower-case hexadecimal
 digits, high nibble first. `HexDecode` is its inverse, used to show that the
 encoding loses nothing.
 */
module Hex {
  import opened Wrappers

  type byte = x: int | 0 <= x < 256

  predicate IsLowerHexDigit(c: char)
  {
    '0' <= c <= '9' || 'a' <= c <= 'f'
  }

  /** The numeric value of a lower-case hexadecimal digit. */
  function DigitValue(c: char): (n: int)
    requires IsLowerHexDigit(c)
    ensures 0 <= n < 16
  {
    if c <= '9' then c as int - '0' as int else c as int - 'a' as int + 10
  }

  /** The lower-case hexadecimal digit for a nibble. */
  function Digit(n: int): (c: char)
    requires 0 <= n < 16
    ensures IsLowerHexDigit(c)
    ensures DigitValue(c) == n
  {
    if n < 10 then ('0' as int + n) as char else ('a' as int + n - 10) as char
  }

  /** `bin2hex`: two lower-case hexadecimal digits per byte. */
  function Bin2Hex(bytes: seq<byte>): (s: string)
    ensures |s| == 2 * |bytes|
    ensures forall i :: 0 <= i < |s| ==> IsLowerHexDigit(s[i])
  {
    if |bytes| == 0 then ""
    else [Digit(bytes[0] / 16), Digit(bytes[0] % 16)] + Bin2Hex(bytes[1..])
  }

  /** Reads pairs of lower-case hexadecimal digits back into bytes; `None` on any other string. */
  function HexDecode(s: string): Option<seq<byte>>
  {
    if |s| == 0 then Some([])
    else if |s| == 1 || !IsLowerHexDigit(s[0]) || !IsLowerHexDigit(s[1]) then None
    else
      match HexDecode(s[2..])
      case None => None
      case Some(rest) => Some([DigitValue(s[0]) * 16 + DigitValue(s[1])] + rest)
  }

  /** Decoding the output of `bin2hex` gives back the bytes. */
  lemma {:induction false} HexDecodeBin2Hex(bytes: seq<byte>)
    ensures HexDecode(Bin2Hex(bytes)) == Some(bytes)
  {
    if |bytes| > 0 {
      var s := Bin2Hex(bytes);
      assert s[2..] == Bin2Hex(bytes[1..]);
      HexDecodeBin2Hex(bytes[1..]);
      assert DigitValue(s[0]) * 16 + DigitValue(s[1]) == bytes[0];
      assert bytes == [bytes[0]] + bytes[1..];
    }
  }

  /** Different bytes give different hexadecimal strings. */
  lemma Bin2HexInjective(a: seq<byte>, b: seq<byte>)
    ensures Bin2Hex(a) == Bin2Hex(b) ==> a == b
  {
    HexDecodeBin2Hex(a);
    HexDecodeBin2Hex(b);
  }
}
