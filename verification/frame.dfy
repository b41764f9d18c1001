/** One UF2 block: the six header words and the 476-byte data buffer the
    encoder keeps per stream, and its 512-byte little-endian wire frame. */
module Frame {
  import opened Bytes
  import opened Wrappers

  /** Size of one serialised frame. */
  const ChunkSize: nat := 512
  /** Size of the data buffer: a frame minus 32 header bytes and 4 trailer bytes. */
  const MaxPayloadSize: nat := 476
  /** Flag bit announcing that `fileSize` carries a family id. */
  const FamilyFlag: u32 := 0x0000_2000

  const MagicStart0: u32 := 0x0A32_4655
  const MagicStart1: u32 := 0x9E5D_5157
  const MagicEnd: u32 := 0x0AB1_6F30

  /** The fixed-size array `[u8; 476]`. */
  type Buffer = s: seq<byte> | |s| == MaxPayloadSize witness seq(MaxPayloadSize, _ => 0)

  datatype Block = Block(
    flags: u32,
    targetAddr: u32,
    payloadSize: u32,
    blockNo: u32,
    numBlocks: u32,
    fileSize: u32,
    data: Buffer)

  /** Bit 13 of the flags word, the family flag. */
  predicate HasFamilyFlag(flags: u32) {
    (flags / FamilyFlag) % 2 == 1
  }

  /** The flags word seen without bit 13: the bits below it and the bits above it. */
  predicate SameOtherFlags(f: u32, g: u32) {
    f % FamilyFlag == g % FamilyFlag && f / (2 * FamilyFlag) == g / (2 * FamilyFlag)
  }

  /** `flags | FAMILY_FLAG`, written out on integers. */
  function WithFamilyFlag(flags: u32): (r: u32)
    ensures HasFamilyFlag(r)
    ensures SameOtherFlags(r, flags)
  {
    if HasFamilyFlag(flags) then flags else flags + FamilyFlag
  }

  /** `set_family`: raises the family flag and stores the family id in the
      size slot; the id is stored as given, without any flag bit in it. */
  function SetFamily(b: Block, family: u32): (r: Block)
    ensures HasFamilyFlag(r.flags)
    ensures SameOtherFlags(r.flags, b.flags)
    ensures r.fileSize == family
    ensures r.(flags := b.flags, fileSize := b.fileSize) == b
  {
    b.(flags := WithFamilyFlag(b.flags), fileSize := family)
  }

  /** Setting the same family twice is the same as setting it once. */
  lemma SetFamilyIdempotent(b: Block, family: u32)
    ensures SetFamily(SetFamily(b, family), family) == SetFamily(b, family)
  {
  }

  /** The magic words as they appear on the wire, least significant byte first. */
  lemma MagicBytes()
    ensures ToLE32(MagicStart0) == [0x55, 0x46, 0x32, 0x0A]
    ensures ToLE32(MagicStart1) == [0x57, 0x51, 0x5D, 0x9E]
    ensures ToLE32(MagicEnd) == [0x30, 0x6F, 0xB1, 0x0A]
  {
    ToLE32FromLE32([0x55, 0x46, 0x32, 0x0A]);
    ToLE32FromLE32([0x57, 0x51, 0x5D, 0x9E]);
    ToLE32FromLE32([0x30, 0x6F, 0xB1, 0x0A]);
  }

  /** `as_chunk`: magic words, header in field order, data buffer, end magic. */
  function Serialize(b: Block): (r: seq<byte>)
    ensures |r| == ChunkSize
    ensures r[0..4] == ToLE32(MagicStart0)
    ensures r[4..8] == ToLE32(MagicStart1)
    ensures r[8..12] == ToLE32(b.flags)
    ensures r[12..16] == ToLE32(b.targetAddr)
    ensures r[16..20] == ToLE32(b.payloadSize)
    ensures r[20..24] == ToLE32(b.blockNo)
    ensures r[24..28] == ToLE32(b.numBlocks)
    ensures r[28..32] == ToLE32(b.fileSize)
    ensures r[32..508] == b.data
    ensures r[508..512] == ToLE32(MagicEnd)
  {
    ToLE32(MagicStart0) + ToLE32(MagicStart1)
      + ToLE32(b.flags) + ToLE32(b.targetAddr) + ToLE32(b.payloadSize)
      + ToLE32(b.blockNo) + ToLE32(b.numBlocks) + ToLE32(b.fileSize)
      + b.data + ToLE32(MagicEnd)
  }

  /** Reads a frame back: `None` unless it is 512 bytes long and carries the
      three magic words. The source has no reader; this is the inverse that
      pins down `Serialize`. */
  function Parse(c: seq<byte>): (r: Option<Block>)
    ensures r.Some? ==> Serialize(r.value) == c
  {
    if |c| != ChunkSize
       || FromLE32(c[0..4]) != MagicStart0
       || FromLE32(c[4..8]) != MagicStart1
       || FromLE32(c[508..512]) != MagicEnd
    then None
    else
      var b := Block(FromLE32(c[8..12]), FromLE32(c[12..16]), FromLE32(c[16..20]),
                     FromLE32(c[20..24]), FromLE32(c[24..28]), FromLE32(c[28..32]),
                     c[32..508]);
      ToLE32FromLE32(c[0..4]);
      ToLE32FromLE32(c[4..8]);
      ToLE32FromLE32(c[8..12]);
      ToLE32FromLE32(c[12..16]);
      ToLE32FromLE32(c[16..20]);
      ToLE32FromLE32(c[20..24]);
      ToLE32FromLE32(c[24..28]);
      ToLE32FromLE32(c[28..32]);
      ToLE32FromLE32(c[508..512]);
      MagicBytes();
      SameChunk(Serialize(b), c);
      Some(b)
  }

  /** Two frames that agree on every word and on the data buffer are equal. */
  lemma SameChunk(x: seq<byte>, y: seq<byte>)
    requires |x| == ChunkSize && |y| == ChunkSize
    requires x[0..4] == y[0..4] && x[4..8] == y[4..8] && x[8..12] == y[8..12]
    requires x[12..16] == y[12..16] && x[16..20] == y[16..20] && x[20..24] == y[20..24]
    requires x[24..28] == y[24..28] && x[28..32] == y[28..32]
    requires x[32..508] == y[32..508] && x[508..512] == y[508..512]
    ensures x == y
  {
    forall j | 0 <= j < ChunkSize
      ensures x[j] == y[j]
    {
      var lo := if j < 32 then j / 4 * 4 else if j < 508 then 32 else 508;
      var hi := if j < 32 then lo + 4 else if j < 508 then 508 else 512;
      assert x[j] == x[lo..hi][j - lo] && y[j] == y[lo..hi][j - lo];
    }
  }

  /** Every block survives a serialise/parse round trip, so no two blocks
      share a frame. */
  lemma ParseSerialize(b: Block)
    ensures Parse(Serialize(b)) == Some(b)
  {
    var c := Serialize(b);
    assert c[0..4] == ToLE32(MagicStart0);
    assert c[4..8] == ToLE32(MagicStart1);
    assert c[508..512] == ToLE32(MagicEnd);
  }

  lemma SerializeInjective(a: Block, b: Block)
    requires Serialize(a) == Serialize(b)
    ensures a == b
  {
    ParseSerialize(a);
    ParseSerialize(b);
  }
}
