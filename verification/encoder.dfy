/** `generate`: turns an image into a stream of UF2 blocks. Files are replaced
    by the image's bytes and by the sequence of blocks the source writes out. */
module Encoder {
  import opened Bytes
  import opened Wrappers
  import opened Arith
  import opened Frame
  import opened Seqs

  datatype Error =
    /** The image length does not fit the source's `u32` (its `try_into` fails). */
    | LengthTooLarge(fileLen: nat)
    /** The image length is not a whole number of device pages. */
    | IncompatibleLength(len: u32, pageSize: u32)

  /** A page size larger than the data buffer silently becomes 1. */
  function EffectivePageSize(pageSize: u32): (page: u32)
    ensures pageSize >= 1 ==> 1 <= page <= MaxPayloadSize
    ensures page == pageSize || page == 1
    ensures pageSize <= MaxPayloadSize ==> page == pageSize
  {
    if pageSize > MaxPayloadSize then 1 else pageSize
  }

  /** The nominal payload: the largest multiple of the page size that fits
      the data buffer. */
  function NominalPayload(page: u32): (payload: u32)
    requires 1 <= page <= MaxPayloadSize
    ensures payload % page == 0
    ensures page <= payload <= MaxPayloadSize
    ensures payload + page > MaxPayloadSize
  {
    var q := MaxPayloadSize / page;
    DivModUnique(MaxPayloadSize, page, q, MaxPayloadSize % page);
    MultipleMod(page, q);
    assert q >= 1;
    MultiplesApart(page, q, 0);
    page * q
  }

  /** The `num_blocks` header word, `(len + 1) / payload_size` in `u32`:
      `len + 1` wraps to 0 at the largest length. It is a floor division of
      `len + 1`, not the number of frames the encoder emits. */
  function NumBlocksField(len: u32, payload: u32): (n: u32)
    requires payload >= 1
    ensures len + 1 < TwoTo32 ==> n * payload <= len + 1 < (n + 1) * payload
    ensures len + 1 == TwoTo32 ==> n == 0
  {
    var w := (len + 1) % TwoTo32;
    DivModUnique(w, payload, w / payload, w % payload);
    w / payload
  }

  /** `UF2Block::new`: the block the stream starts from. */
  function NewBlock(payload: u32, len: u32): (b: Block)
    requires payload >= 1
    ensures b.flags == 0
    ensures b.targetAddr == 0 && b.blockNo == 0 && b.payloadSize == payload
    ensures len + 1 < TwoTo32 ==> b.numBlocks * payload <= len + 1 < (b.numBlocks + 1) * payload
    ensures len + 1 == TwoTo32 ==> b.numBlocks == 0
    ensures b.fileSize == len
    ensures b.data == ZeroBuffer()
  {
    Block(0, 0, payload, 0, NumBlocksField(len, payload), len, ZeroBuffer())
  }

  /** The block as it stands before the loop: new, then tagged with the
      family id when one is given. */
  function StartBlock(payload: u32, len: u32, family: Option<u32>): (b: Block)
    requires payload >= 1
    ensures HasFamilyFlag(b.flags) <==> family.Some?
    ensures SameOtherFlags(b.flags, 0)
    ensures b.fileSize == (if family.Some? then family.value else len)
    ensures b.targetAddr == 0 && b.blockNo == 0 && b.payloadSize == payload
    ensures b.numBlocks == NumBlocksField(len, payload) && b.data == ZeroBuffer()
  {
    var b := NewBlock(payload, len);
    if family.Some? then SetFamily(b, family.value) else b
  }

  /** The carried block a loop iteration starts from at read position `pos`. */
  predicate LoopState(input: seq<byte>, payload: u32, b: Block, pos: nat) {
    |input| < TwoTo32 && 1 <= payload <= MaxPayloadSize && pos <= |input|
    && b.targetAddr == pos && b.blockNo <= pos
    && (pos < |input| ==> b.payloadSize == payload)
  }

  /** `read_exact` into the front `payloadSize` bytes of the buffer: the next
      bytes of the image land there, the rest of the buffer is untouched. */
  function ReadInto(input: seq<byte>, pos: nat, b: Block): (f: Block)
    requires b.payloadSize <= MaxPayloadSize && pos + b.payloadSize <= |input|
    ensures f.(data := b.data) == b
    ensures f.data[..b.payloadSize] == input[pos..pos + b.payloadSize]
    ensures forall k :: b.payloadSize <= k < MaxPayloadSize ==> f.data[k] == b.data[k]
  {
    b.(data := input[pos..pos + b.payloadSize] + b.data[b.payloadSize..])
  }

  /** The frame one loop iteration emits: the payload shrinks to what is left
      when less than a nominal payload remains, then that many bytes are read
      into the buffer. */
  function Fill(input: seq<byte>, payload: u32, b: Block, pos: nat): (f: Block)
    requires LoopState(input, payload, b, pos) && pos < |input|
    ensures 1 <= f.payloadSize <= payload && pos + f.payloadSize <= |input|
    ensures f.payloadSize == payload || pos + f.payloadSize == |input|
    ensures f.flags == b.flags && f.targetAddr == b.targetAddr && f.blockNo == b.blockNo
    ensures f.numBlocks == b.numBlocks && f.fileSize == b.fileSize
  {
    var remaining := |input| - pos;
    ReadInto(input, pos, if remaining < payload then b.(payloadSize := remaining) else b)
  }

  /** The frame's payload is the next `payloadSize` bytes of the image, and
      the rest of its buffer is the carried block's. */
  lemma FillData(input: seq<byte>, payload: u32, b: Block, pos: nat)
    requires LoopState(input, payload, b, pos) && pos < |input|
    ensures var f := Fill(input, payload, b, pos);
      Payload(f) == input[pos..pos + f.payloadSize]
      && forall k :: f.payloadSize <= k < MaxPayloadSize ==> f.data[k] == b.data[k]
  {
  }

  /** The end of a loop iteration: next block number, address moved past the payload. */
  function Advance(f: Block): (next: Block)
    requires f.blockNo < f.targetAddr + f.payloadSize < TwoTo32
    ensures next.flags == f.flags && next.numBlocks == f.numBlocks && next.fileSize == f.fileSize
    ensures next.payloadSize == f.payloadSize && next.data == f.data
    ensures next.blockNo == f.blockNo + 1 && next.targetAddr == f.targetAddr + f.payloadSize
  {
    f.(blockNo := f.blockNo + 1, targetAddr := f.targetAddr + f.payloadSize)
  }

  /** The `while len > 0` loop, run from read position `pos` with carried block `b`. */
  function EmitFrames(input: seq<byte>, payload: u32, b: Block, pos: nat): (r: seq<Block>)
    requires LoopState(input, payload, b, pos)
    decreases |input| - pos
    ensures r == [] <==> pos == |input|
  {
    if pos == |input| then []
    else
      var f := Fill(input, payload, b, pos);
      [f] + EmitFrames(input, payload, Advance(f), pos + f.payloadSize)
  }

  /** One loop iteration: the frame it emits, then the frames of the loop
      continued from the advanced block. */
  lemma EmitFramesUnfold(input: seq<byte>, payload: u32, b: Block, pos: nat)
    requires LoopState(input, payload, b, pos) && pos < |input|
    ensures var f := Fill(input, payload, b, pos);
      LoopState(input, payload, Advance(f), pos + f.payloadSize)
      && EmitFrames(input, payload, b, pos) == [f] + EmitFrames(input, payload, Advance(f), pos + f.payloadSize)
  {
  }

  /** The loop emits one frame per nominal payload, rounding up. */
  lemma {:induction false} EmitFramesCount(input: seq<byte>, payload: u32, b: Block, pos: nat)
    requires LoopState(input, payload, b, pos)
    decreases |input| - pos
    ensures |EmitFrames(input, payload, b, pos)| == CeilDiv(|input| - pos, payload)
  {
    if pos < |input| {
      var f := Fill(input, payload, b, pos);
      EmitFramesUnfold(input, payload, b, pos);
      EmitFramesCount(input, payload, Advance(f), pos + f.payloadSize);
      CeilDivPeel(|input| - pos, payload);
    } else {
      assert EmitFrames(input, payload, b, pos) == [];
    }
  }

  /** Frames numbered consecutively from `firstNo`, addressed at consecutive
      multiples of the nominal payload from `firstAddr`. */
  predicate Addressed(r: seq<Block>, firstNo: int, firstAddr: int, payload: int) {
    forall i :: 0 <= i < |r| ==> r[i].blockNo == firstNo + i && r[i].targetAddr == firstAddr + i * payload
  }

  lemma AddressedCons(f: Block, rest: seq<Block>, no: int, addr: int, nextNo: int, nextAddr: int,
                      payload: int, r: seq<Block>)
    requires r == [f] + rest
    requires f.blockNo == no && f.targetAddr == addr && nextNo == no + 1
    requires Addressed(rest, nextNo, nextAddr, payload)
    requires rest != [] ==> nextAddr == addr + payload
    ensures Addressed(r, no, addr, payload)
  {
    forall i | 1 <= i < |r|
      ensures r[i].blockNo == no + i && r[i].targetAddr == addr + i * payload
    {
      assert r[i] == rest[i - 1];
      assert addr + payload + (i - 1) * payload == addr + i * payload;
    }
  }

  lemma {:induction false} EmitFramesAddressing(input: seq<byte>, payload: u32, b: Block, pos: nat)
    requires LoopState(input, payload, b, pos)
    decreases |input| - pos
    ensures Addressed(EmitFrames(input, payload, b, pos), b.blockNo, pos, payload)
  {
    if pos < |input| {
      var f := Fill(input, payload, b, pos);
      var rest := EmitFrames(input, payload, Advance(f), pos + f.payloadSize);
      EmitFramesUnfold(input, payload, b, pos);
      EmitFramesAddressing(input, payload, Advance(f), pos + f.payloadSize);
      AddressedCons(f, rest, b.blockNo, pos, Advance(f).blockNo, pos + f.payloadSize, payload,
                    EmitFrames(input, payload, b, pos));
    } else {
      assert EmitFrames(input, payload, b, pos) == [];
    }
  }

  /** Every frame repeats the header words fixed before the loop. */
  predicate SharedHeader(r: seq<Block>, flags: u32, numBlocks: u32, fileSize: u32) {
    forall i :: 0 <= i < |r| ==>
      r[i].flags == flags && r[i].numBlocks == numBlocks && r[i].fileSize == fileSize
  }

  lemma HeaderCons(f: Block, rest: seq<Block>, flags: u32, numBlocks: u32, fileSize: u32, r: seq<Block>)
    requires r == [f] + rest
    requires f.flags == flags && f.numBlocks == numBlocks && f.fileSize == fileSize
    requires SharedHeader(rest, flags, numBlocks, fileSize)
    ensures SharedHeader(r, flags, numBlocks, fileSize)
  {
  }

  lemma {:induction false} EmitFramesHeader(input: seq<byte>, payload: u32, b: Block, pos: nat,
                                             flags: u32, numBlocks: u32, fileSize: u32)
    requires LoopState(input, payload, b, pos)
    requires b.flags == flags && b.numBlocks == numBlocks && b.fileSize == fileSize
    decreases |input| - pos
    ensures SharedHeader(EmitFrames(input, payload, b, pos), flags, numBlocks, fileSize)
  {
    if pos < |input| {
      var f := Fill(input, payload, b, pos);
      EmitFramesUnfold(input, payload, b, pos);
      var rest := EmitFrames(input, payload, Advance(f), pos + f.payloadSize);
      EmitFramesHeader(input, payload, Advance(f), pos + f.payloadSize, flags, numBlocks, fileSize);
      HeaderCons(f, rest, flags, numBlocks, fileSize, EmitFrames(input, payload, b, pos));
    } else {
      assert EmitFrames(input, payload, b, pos) == [];
    }
  }

  /** Every frame but the last carries the nominal payload; the last carries
      what is left of `total` bytes after them. */
  predicate NominalThenRest(r: seq<Block>, payload: int, total: int) {
    (forall i :: 0 <= i < |r| ==> 1 <= r[i].payloadSize <= payload)
    && (forall i :: 0 <= i < |r| - 1 ==> r[i].payloadSize == payload)
    && (0 < |r| ==> r[|r| - 1].payloadSize == total - (|r| - 1) * payload)
  }

  lemma NominalThenRestCons(f: Block, rest: seq<Block>, payload: int, total: int, restTotal: int, r: seq<Block>)
    requires r == [f] + rest && restTotal == total - f.payloadSize
    requires NominalThenRest(rest, payload, restTotal)
    requires 1 <= f.payloadSize <= payload
    requires rest == [] ==> f.payloadSize == total
    requires rest != [] ==> f.payloadSize == payload
    ensures NominalThenRest(r, payload, total)
  {
    if rest != [] {
      assert r[|r| - 1] == rest[|rest| - 1];
      assert total - payload - (|rest| - 1) * payload == total - |rest| * payload;
      forall i | 1 <= i < |r|
        ensures 1 <= r[i].payloadSize <= payload && (i < |r| - 1 ==> r[i].payloadSize == payload)
      {
        assert r[i] == rest[i - 1];
      }
    }
  }

  lemma {:induction false} EmitFramesPayloadSizes(input: seq<byte>, payload: u32, b: Block, pos: nat)
    requires LoopState(input, payload, b, pos)
    decreases |input| - pos
    ensures NominalThenRest(EmitFrames(input, payload, b, pos), payload, |input| - pos)
  {
    if pos < |input| {
      var f := Fill(input, payload, b, pos);
      var rest := EmitFrames(input, payload, Advance(f), pos + f.payloadSize);
      EmitFramesUnfold(input, payload, b, pos);
      EmitFramesPayloadSizes(input, payload, Advance(f), pos + f.payloadSize);
      NominalThenRestCons(f, rest, payload, |input| - pos, |input| - (pos + f.payloadSize),
                          EmitFrames(input, payload, b, pos));
    } else {
      assert EmitFrames(input, payload, b, pos) == [];
    }
  }

  /** The bytes a frame carries: the front `payloadSize` bytes of its buffer. */
  function Payload(f: Block): seq<byte>
    requires f.payloadSize <= MaxPayloadSize
  {
    f.data[..f.payloadSize]
  }

  predicate PayloadsFit(r: seq<Block>) {
    forall i :: 0 <= i < |r| ==> r[i].payloadSize <= MaxPayloadSize
  }

  /** The frames' payloads, concatenated in stream order. */
  function Payloads(r: seq<Block>): seq<byte>
    requires PayloadsFit(r)
  {
    if r == [] then [] else Payload(r[0]) + Payloads(r[1..])
  }

  lemma PayloadsCons(f: Block, rest: seq<Block>, r: seq<Block>)
    requires r == [f] + rest
    requires f.payloadSize <= MaxPayloadSize && PayloadsFit(rest)
    ensures PayloadsFit(r)
    ensures Payloads(r) == Payload(f) + Payloads(rest)
  {
    assert r[1..] == rest;
  }

  /** The sum of the frames' `payloadSize` words. */
  function PayloadTotal(r: seq<Block>): nat {
    if r == [] then 0 else r[0].payloadSize + PayloadTotal(r[1..])
  }

  lemma {:induction false} PayloadsLength(r: seq<Block>)
    requires PayloadsFit(r)
    ensures |Payloads(r)| == PayloadTotal(r)
  {
    if r != [] {
      PayloadsLength(r[1..]);
    }
  }

  /** Reading the payloads back in order gives the unread part of the image. */
  lemma {:induction false} EmitFramesPayloads(input: seq<byte>, payload: u32, b: Block, pos: nat)
    requires LoopState(input, payload, b, pos)
    decreases |input| - pos
    ensures PayloadsFit(EmitFrames(input, payload, b, pos))
    ensures Payloads(EmitFrames(input, payload, b, pos)) == input[pos..]
  {
    if pos < |input| {
      var f := Fill(input, payload, b, pos);
      var end := pos + f.payloadSize;
      var rest := EmitFrames(input, payload, Advance(f), end);
      EmitFramesUnfold(input, payload, b, pos);
      EmitFramesPayloads(input, payload, Advance(f), end);
      FillData(input, payload, b, pos);
      PayloadsCons(f, rest, EmitFrames(input, payload, b, pos));
      SplitAt(input, pos, end);
    } else {
      assert EmitFrames(input, payload, b, pos) == [];
    }
  }

  /** The buffer a frame's bytes past its payload are carried over from:
      the start buffer for the first frame, the previous frame's otherwise. */
  function Previous(r: seq<Block>, first: Buffer, i: nat): Buffer
    requires i < |r|
  {
    if i == 0 then first else r[i - 1].data
  }

  /** No frame's buffer is cleared: past its payload it repeats the buffer before it. */
  predicate CarriedTails(r: seq<Block>, first: Buffer) {
    forall i, k :: 0 <= i < |r| && r[i].payloadSize <= k < MaxPayloadSize ==>
      r[i].data[k] == Previous(r, first, i)[k]
  }

  lemma CarriedTailsCons(f: Block, rest: seq<Block>, first: Buffer, carried: Buffer, r: seq<Block>)
    requires r == [f] + rest && carried == f.data
    requires forall k :: f.payloadSize <= k < MaxPayloadSize ==> f.data[k] == first[k]
    requires CarriedTails(rest, carried)
    ensures CarriedTails(r, first)
  {
    forall i, k | 1 <= i < |r| && r[i].payloadSize <= k < MaxPayloadSize
      ensures r[i].data[k] == Previous(r, first, i)[k]
    {
      assert r[i] == rest[i - 1];
      assert Previous(r, first, i) == Previous(rest, f.data, i - 1);
    }
  }

  lemma {:induction false} EmitFramesTails(input: seq<byte>, payload: u32, b: Block, pos: nat)
    requires LoopState(input, payload, b, pos)
    decreases |input| - pos
    ensures CarriedTails(EmitFrames(input, payload, b, pos), b.data)
  {
    if pos < |input| {
      var f := Fill(input, payload, b, pos);
      var rest := EmitFrames(input, payload, Advance(f), pos + f.payloadSize);
      EmitFramesUnfold(input, payload, b, pos);
      EmitFramesTails(input, payload, Advance(f), pos + f.payloadSize);
      FillData(input, payload, b, pos);
      CarriedTailsCons(f, rest, b.data, Advance(f).data, EmitFrames(input, payload, b, pos));
    } else {
      assert EmitFrames(input, payload, b, pos) == [];
    }
  }

  /** Every payload lies between one page and the nominal payload, is a whole
      number of pages, and only the last frame's may be short. */
  predicate PageAligned(r: seq<Block>, page: int, payload: int)
    requires page >= 1
  {
    forall i :: 0 <= i < |r| ==>
      1 <= r[i].payloadSize <= payload && r[i].payloadSize % page == 0
      && (i < |r| - 1 ==> r[i].payloadSize == payload)
  }

  /** The zero-filled buffer `UF2Block::new` starts with. */
  function ZeroBuffer(): (z: Buffer)
    ensures forall i :: 0 <= i < |z| ==> z[i] == 0
  {
    seq(MaxPayloadSize, _ => 0)
  }

  /** What `generate` promises of the frames it writes for `input`, given the
      effective page size and the optional family id. */
  predicate WellEncoded(input: seq<byte>, page: u32, family: Option<u32>, frames: seq<Block>)
    requires |input| < TwoTo32 && 1 <= page <= MaxPayloadSize
  {
    var payload := NominalPayload(page);
    |frames| == CeilDiv(|input|, payload)
    && Addressed(frames, 0, 0, payload)
    && PageAligned(frames, page, payload)
    && PayloadsFit(frames)
    && Payloads(frames) == input
    && PayloadTotal(frames) == |input|
    && SharedHeader(frames,
                    if family.Some? then FamilyFlag else 0,
                    NumBlocksField(|input|, payload),
                    if family.Some? then family.value else |input|)
    && CarriedTails(frames, ZeroBuffer())
  }

  /** The final short payload is still a whole number of pages. */
  lemma LastPayloadAligned(len: nat, page: nat, payload: nat, k: nat)
    requires page >= 1 && len % page == 0 && payload % page == 0
    ensures (len - k * payload) % page == 0
  {
    var m := payload / page;
    assert payload == page * m;
    assert k * payload == page * (m * k);
    MultipleMod(page, m * k);
    SubMultiple(len, k * payload, page);
  }

  /** `generate` on an image held in memory: reject a length beyond `u32`,
      replace a page size above 476 by 1, reject a length that is not page-aligned, then
      run the loop from the start block. */
  function Encode(input: seq<byte>, pageSize: u32, family: Option<u32>): (r: Result<seq<Block>, Error>)
    requires pageSize >= 1
    ensures |input| >= TwoTo32 ==> r == Failure(LengthTooLarge(|input|))
    ensures |input| < TwoTo32 && |input| % EffectivePageSize(pageSize) != 0 ==>
              r == Failure(IncompatibleLength(|input|, EffectivePageSize(pageSize)))
    ensures r.Success? <==> |input| < TwoTo32 && |input| % EffectivePageSize(pageSize) == 0
    ensures r.Success? ==> WellEncoded(input, EffectivePageSize(pageSize), family, r.value)
  {
    if |input| >= TwoTo32 then Failure(LengthTooLarge(|input|))
    else
      var page := EffectivePageSize(pageSize);
      if |input| % page != 0 then Failure(IncompatibleLength(|input|, page))
      else
        var payload := NominalPayload(page);
        var start := StartBlock(payload, |input|, family);
        var frames := EmitFrames(input, payload, start, 0);
        EmitFramesCount(input, payload, start, 0);
        EmitFramesAddressing(input, payload, start, 0);
        EmitFramesHeader(input, payload, start, 0, start.flags, start.numBlocks, start.fileSize);
        EmitFramesPayloadSizes(input, payload, start, 0);
        EmitFramesPayloads(input, payload, start, 0);
        EmitFramesTails(input, payload, start, 0);
        PayloadsLength(frames);
        assert start.data == ZeroBuffer();
        assert 0 < |frames| ==> frames[|frames| - 1].payloadSize % page == 0 by {
          if 0 < |frames| {
            LastPayloadAligned(|input|, page, payload, |frames| - 1);
          }
        }
        Success(frames)
  }
}
