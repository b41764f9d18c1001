/** The `generate` command written as the source writes it: one reusable
    block mutated per iteration, the remaining length counting down, and the
    read position advancing through the image. */
module Generator {
  import opened Bytes
  import opened Wrappers
  import opened Frame
  import opened Encoder
  import opened Seqs

  method Generate(input: seq<byte>, pageSize: u32, family: Option<u32>)
    returns (r: Result<seq<Block>, Error>)
    requires pageSize >= 1
    ensures r == Encode(input, pageSize, family)
    ensures r.Success? ==> WellEncoded(input, EffectivePageSize(pageSize), family, r.value)
  {
    if |input| >= TwoTo32 {
      return Failure(LengthTooLarge(|input|));
    }
    var len: u32 := |input|;
    var page := pageSize;
    if page > MaxPayloadSize {
      page := 1;
    }
    if len % page != 0 {
      return Failure(IncompatibleLength(len, page));
    }
    var payload := NominalPayload(page);
    var block := NewBlock(payload, len);
    if family.Some? {
      block := SetFamily(block, family.value);
    }
    assert block == StartBlock(payload, len, family);
    var frames := WriteFrames(input, payload, block);
    return Success(frames);
  }

  /** The `while len > 0` loop of `generate`, from the start block. */
  method WriteFrames(input: seq<byte>, payload: u32, start: Block) returns (frames: seq<Block>)
    requires LoopState(input, payload, start, 0)
    ensures frames == EmitFrames(input, payload, start, 0)
  {
    var len: u32 := |input|;
    var block := start;
    frames := [];
    var pos: nat := 0;
    while len > 0
      invariant pos + len == |input|
      invariant LoopState(input, payload, block, pos)
      invariant frames + EmitFrames(input, payload, block, pos) == EmitFrames(input, payload, start, 0)
      decreases len
    {
      EmitFramesUnfold(input, payload, block, pos);
      ghost var frames0 := frames;
      var written;
      written, block, len, pos := WriteOne(input, payload, block, len, pos);
      frames := frames + [written];
      AppendOne(frames0, written, EmitFrames(input, payload, block, pos));
    }
    assert EmitFrames(input, payload, block, pos) == [];
  }

  /** One pass of the loop body: shorten the last payload, read it from the
      image, hand the block to the writer, then step the block number and
      the target address. */
  method WriteOne(input: seq<byte>, payload: u32, block: Block, len: u32, pos: nat)
    returns (written: Block, next: Block, len': u32, pos': nat)
    requires pos + len == |input| && len > 0
    requires LoopState(input, payload, block, pos)
    ensures written == Fill(input, payload, block, pos)
    ensures next == Advance(written)
    ensures pos' == pos + written.payloadSize && pos' + len' == |input|
  {
    written := block;
    if len < payload {
      written := written.(payloadSize := len);
    }
    len' := len - written.payloadSize;
    written := ReadInto(input, pos, written);
    pos' := pos + written.payloadSize;
    next := written.(blockNo := written.blockNo + 1, targetAddr := written.targetAddr + written.payloadSize);
  }
}
