/** The reset token is 32 random bytes rendered with Node's
    `Buffer.toString('hex')`: two lower-case hexadecimal digits per byte,
    high nibble first. `HexDecode` is its inverse, used only to state that
    the rendering loses nothing. */
module Hex {
  import opened Wrappers

  newtype byte = x: int | 0 <= x < 256

  const Digits: string := "0123456789abcdef"

  predicate IsHexDigit(c: char) {
    '0' <= c <= '9' || 'a' <= c <= 'f'
  }

  /** Every character of `s` is a lower-case hexadecimal digit. */
  predicate IsLowerHex(s: string) {
    forall i :: 0 <= i < |s| ==> IsHexDigit(s[i])
  }

  function Digit(n: int): (c: char)
    requires 0 <= n < 16
    ensures IsHexDigit(c)
  {
    Digits[n]
  }

  lemma DigitValueOfDigit(n: int)
    requires 0 <= n < 16
    ensures DigitValue(Digit(n)) == n
  {
  }

  function DigitValue(c: char): (n: int)
    requires IsHexDigit(c)
    ensures 0 <= n < 16
    ensures Digit(n) == c
  {
    if c <= '9' then c as int - '0' as int else c as int - 'a' as int + 10
  }

  /** The two characters one byte is rendered as. */
  function EncodeByte(b: byte): (s: string)
    ensures |s| == 2 && IsLowerHex(s)
  {
    [Digit(b as int / 16), Digit(b as int % 16)]
  }

  function HexEncode(bytes: seq<byte>): (s: string)
    ensures |s| == 2 * |bytes|
    ensures IsLowerHex(s)
  {
    if bytes == [] then [] else EncodeByte(bytes[0]) + HexEncode(bytes[1..])
  }

  /** Reads a string of hexadecimal digit pairs back into bytes; `None` for a
      string of odd length or with a character that is not a lower-case
      hexadecimal digit. */
  function HexDecode(s: string): (r: Option<seq<byte>>)
    ensures r.Some? ==> 2 * |r.value| == |s|
    decreases |s|
  {
    if s == [] then Some([])
    else if |s| < 2 || !IsHexDigit(s[0]) || !IsHexDigit(s[1]) then None
    else
      match HexDecode(s[2..])
      case None => None
      case Some(rest) => Some([(DigitValue(s[0]) * 16 + DigitValue(s[1])) as byte] + rest)
  }

  /** Decoding an encoded token gives back the random bytes. */
  lemma {:induction false} DecodeEncode(bytes: seq<byte>)
    ensures HexDecode(HexEncode(bytes)) == Some(bytes)
  {
    if bytes != [] {
      var b := bytes[0];
      var s := HexEncode(bytes);
      assert s == EncodeByte(b) + HexEncode(bytes[1..]);
      assert s[2..] == HexEncode(bytes[1..]);
      DecodeEncode(bytes[1..]);
      DigitValueOfDigit(b as int / 16);
      DigitValueOfDigit(b as int % 16);
      assert (DigitValue(s[0]) * 16 + DigitValue(s[1])) as byte == b;
      assert bytes == [b] + bytes[1..];
    }
  }

  /** Every even-length lower-case hexadecimal string is the rendering of
      exactly the bytes it decodes to. */
  lemma {:induction false} EncodeDecode(s: string)
    requires IsLowerHex(s) && |s| % 2 == 0
    ensures HexDecode(s).Some? && HexEncode(HexDecode(s).value) == s
  {
    if s != [] {
      EncodeDecode(s[2..]);
      var hi, lo := DigitValue(s[0]), DigitValue(s[1]);
      var b := (hi * 16 + lo) as byte;
      assert b as int / 16 == hi && b as int % 16 == lo;
      assert HexDecode(s).value == [b] + HexDecode(s[2..]).value;
      assert HexDecode(s).value[1..] == HexDecode(s[2..]).value;
    }
  }

  /** Distinct random inputs give distinct tokens. */
  lemma EncodeInjective(a: seq<byte>, b: seq<byte>)
    requires HexEncode(a) == HexEncode(b)
    ensures a == b
  {
    DecodeEncode(a);
    DecodeEncode(b);
  }
}
