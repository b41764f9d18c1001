/** Bytes and 32-bit unsigned words, and the little-endian encoding of a word
    that every header field of a UF2 frame uses. */
module Bytes {

  const TwoTo32: int := 0x1_0000_0000

  type byte = x: int | 0 <= x < 0x100

  /** The source's `u32`: every header field and the length of the image. */
  type u32 = x: int | 0 <= x < 0x1_0000_0000

  /** `u32::to_le_bytes`: least significant byte first. */
  function ToLE32(x: u32): (r: seq<byte>)
    ensures |r| == 4
    ensures FromLE32(r) == x
  {
    var q1 := x / 0x100;
    var q2 := q1 / 0x100;
    var q3 := q2 / 0x100;
    assert x == x % 0x100 + 0x100 * q1;
    assert q1 == q1 % 0x100 + 0x100 * q2;
    assert q2 == q2 % 0x100 + 0x100 * q3;
    [x % 0x100, q1 % 0x100, q2 % 0x100, q3]
  }

  /** Reads four bytes back as a little-endian word (`u32::from_le_bytes`). */
  function FromLE32(s: seq<byte>): (x: u32)
    requires |s| == 4
  {
    s[0] as int + 0x100 * (s[1] as int + 0x100 * (s[2] as int + 0x100 * s[3] as int))
  }

  /** The other half of the round trip: every 4-byte group is the encoding of
      the word it decodes to, so the encoding is a bijection. */
  lemma ToLE32FromLE32(s: seq<byte>)
    requires |s| == 4
    ensures ToLE32(FromLE32(s)) == s
  {
    var x := FromLE32(s);
    var t := s[1] as int + 0x100 * (s[2] as int + 0x100 * s[3] as int);
    assert x / 0x100 == t && x % 0x100 == s[0];
    var u := s[2] as int + 0x100 * s[3] as int;
    assert t / 0x100 == u && t % 0x100 == s[1];
    assert u / 0x100 == s[3] && u % 0x100 == s[2];
  }

  /** Distinct words have distinct encodings. */
  lemma ToLE32Injective(x: u32, y: u32)
    requires ToLE32(x) == ToLE32(y)
    ensures x == y
  {
    assert FromLE32(ToLE32(x)) == FromLE32(ToLE32(y));
  }
}
