/** The opaque tokens of the session, reset and CSRF tables:
    `crypto.randomBytes(32).toString('hex')`. The random bytes are a parameter;
    the hex rendering is modelled exactly, together with its inverse, so that
    distinct random bytes are seen to give distinct tokens. */
module Tokens {
  import opened Common

  type Byte = b: int | 0 <= b < 256

  /** `crypto.randomBytes(32)`: 32 random bytes, 256 bits. */
  const TokenBytes: nat := 32

  const HexDigits: string := "0123456789abcdef"

  predicate IsHexDigit(c: char) {
    '0' <= c <= '9' || 'a' <= c <= 'f'
  }

  function HexDigit(d: int): (c: char)
    requires 0 <= d < 16
    ensures IsHexDigit(c)
  {
    HexDigits[d]
  }

  /** The value of a lower-case hex digit, or -1 for any other character. */
  function DigitValue(c: char): (d: int)
    ensures -1 <= d < 16
    ensures d >= 0 <==> IsHexDigit(c)
  {
    if '0' <= c <= '9' then c as int - '0' as int
    else if 'a' <= c <= 'f' then c as int - 'a' as int + 10
    else -1
  }

  /** Node's `Buffer.toString('hex')`: two lower-case digits per byte, high nibble first. */
  function Hex(bytes: seq<Byte>): (s: string)
    ensures |s| == 2 * |bytes|
    ensures forall i :: 0 <= i < |s| ==> IsHexDigit(s[i])
  {
    if |bytes| == 0 then []
    else [HexDigit(bytes[0] / 16), HexDigit(bytes[0] % 16)] + Hex(bytes[1..])
  }

  /** Reads a hex string back into bytes; `None` for an odd length or a
      character that is not a lower-case hex digit. */
  function Unhex(s: string): Option<seq<Byte>>
  {
    if |s| == 0 then Some([])
    else if |s| == 1 then None
    else
      var hi, lo := DigitValue(s[0]), DigitValue(s[1]);
      if hi < 0 || lo < 0 then None
      else match Unhex(s[2..])
        case None => None
        case Some(rest) => Some([hi * 16 + lo] + rest)
  }

  lemma {:induction false} UnhexHex(bytes: seq<Byte>)
    ensures Unhex(Hex(bytes)) == Some(bytes)
  {
    if |bytes| > 0 {
      var b := bytes[0];
      var s := Hex(bytes);
      assert s[2..] == Hex(bytes[1..]);
      assert DigitValue(HexDigits[b / 16]) == b / 16;
      assert DigitValue(HexDigits[b % 16]) == b % 16;
      UnhexHex(bytes[1..]);
      assert bytes == [b] + bytes[1..];
    }
  }

  /** Distinct random bytes give distinct tokens. */
  lemma HexInjective(a: seq<Byte>, b: seq<Byte>)
    ensures Hex(a) == Hex(b) ==> a == b
  {
    UnhexHex(a);
    UnhexHex(b);
  }

  /** The token minted from 32 random bytes: 64 lower-case hex characters. */
  function TokenFromBytes(bytes: seq<Byte>): (token: string)
    requires |bytes| == TokenBytes
    ensures |token| == 2 * TokenBytes == 64
    ensures forall i :: 0 <= i < |token| ==> IsHexDigit(token[i])
    ensures Unhex(token) == Some(bytes)
  {
    UnhexHex(bytes);
    Hex(bytes)
  }
}
