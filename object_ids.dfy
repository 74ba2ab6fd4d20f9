/** Event identifiers. A Mongo ObjectId is a string of bytes; every timer
    table is keyed by its lower-case hexadecimal rendering (`toHexString`). */
module ObjectIds {

  newtype Byte = x: int | 0 <= x < 256

  datatype ObjectId = ObjectId(bytes: seq<Byte>)

  function HexDigit(n: int): (c: char)
    requires 0 <= n < 16
    ensures ('0' <= c <= '9') || ('a' <= c <= 'f')
  {
    if n < 10 then ('0' as int + n) as char else ('a' as int + n - 10) as char
  }

  lemma HexDigitInjective(m: int, n: int)
    requires 0 <= m < 16 && 0 <= n < 16
    requires HexDigit(m) == HexDigit(n)
    ensures m == n
  {
  }

  function HexByte(b: Byte): (s: string)
    ensures |s| == 2
  {
    [HexDigit(b as int / 16), HexDigit(b as int % 16)]
  }

  function HexOfBytes(bs: seq<Byte>): (s: string)
    ensures |s| == 2 * |bs|
  {
    if bs == [] then "" else HexByte(bs[0]) + HexOfBytes(bs[1..])
  }

  /** `ObjectId.toHexString()` (and `toString()`, which renders the same). */
  function ToHexString(id: ObjectId): string
  {
    HexOfBytes(id.bytes)
  }

  /** Two bytes with the same two hex digits are the same byte. */
  lemma HexByteInjective(a: Byte, b: Byte)
    requires HexByte(a) == HexByte(b)
    ensures a == b
  {
    assert HexByte(a)[0] == HexByte(b)[0] && HexByte(a)[1] == HexByte(b)[1];
    HexDigitInjective(a as int / 16, b as int / 16);
    HexDigitInjective(a as int % 16, b as int % 16);
  }

  /** The hex rendering loses no information: distinct byte strings never
      share a key in a table keyed by hex strings. */
  lemma {:induction false} HexOfBytesInjective(a: seq<Byte>, b: seq<Byte>)
    requires HexOfBytes(a) == HexOfBytes(b)
    ensures a == b
  {
    if a != [] {
      assert b != [];
      var ha, hb := HexOfBytes(a), HexOfBytes(b);
      assert ha[..2] == HexByte(a[0]) && hb[..2] == HexByte(b[0]);
      HexByteInjective(a[0], b[0]);
      assert ha[2..] == HexOfBytes(a[1..]) && hb[2..] == HexOfBytes(b[1..]);
      HexOfBytesInjective(a[1..], b[1..]);
      assert a == [a[0]] + a[1..] && b == [b[0]] + b[1..];
    }
  }

  /** Equal hex keys mean equal identifiers, and conversely. */
  lemma ToHexStringInjective(x: ObjectId, y: ObjectId)
    ensures ToHexString(x) == ToHexString(y) <==> x == y
  {
    if ToHexString(x) == ToHexString(y) {
      HexOfBytesInjective(x.bytes, y.bytes);
    }
  }
}
