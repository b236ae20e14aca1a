/**
 * The Output opcode writes `char::from(cell)`: the byte value read as the code point
 * of the same number (Latin-1), encoded in UTF-8 as RFC 3629 section 3 prescribes.
 */
module Utf8 {
  import opened Wrappers
  import opened Commands

  /** The UTF-8 encoding of the code point U+0000 .. U+00FF numbered `v`. */
  function EncodeLatin1(v: Byte): (bytes: seq<Byte>)
    ensures 1 <= |bytes| <= 2
    ensures |bytes| == 1 <==> v < 0x80
    ensures WellFormed(bytes)
    ensures Decode(bytes) == Some(v)
  {
    if v < 0x80 then [v] else [0xC0 + v / 64, 0x80 + v % 64]
  }

  /**
   * A one- or two-byte UTF-8 sequence as section 4 of RFC 3629 admits it:
   * a byte 00..7F alone, or a lead byte C2..DF followed by one continuation byte 80..BF.
   */
  predicate WellFormed(bytes: seq<Byte>) {
    (|bytes| == 1 && bytes[0] < 0x80) ||
    (|bytes| == 2 && 0xC2 <= bytes[0] <= 0xDF && 0x80 <= bytes[1] <= 0xBF)
  }

  /** The code point a one- or two-byte UTF-8 sequence stands for (section 3 of RFC 3629). */
  function Decode(bytes: seq<Byte>): (r: Option<int>)
    ensures r.Some? <==> WellFormed(bytes)
    ensures r.Some? ==> 0 <= r.value < 0x800
  {
    if |bytes| == 1 && bytes[0] < 0x80 then Some(bytes[0] as int)
    else if |bytes| == 2 && 0xC2 <= bytes[0] <= 0xDF && 0x80 <= bytes[1] <= 0xBF then
      Some((bytes[0] as int - 0xC0) * 64 + (bytes[1] as int - 0x80))
    else None
  }

  /** Distinct cell values are written as distinct byte strings. */
  lemma EncodeInjective(v: Byte, w: Byte)
    requires EncodeLatin1(v) == EncodeLatin1(w)
    ensures v == w
  {
    assert Decode(EncodeLatin1(v)) == Some(v);
  }
}
