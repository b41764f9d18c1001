/** Consequences of the encoder model: how the `num_blocks` word relates to
    the number of frames, and what `generate` does on a few typical images. */
module Properties {
  import opened Bytes
  import opened Wrappers
  import opened Arith
  import opened Frame
  import opened Encoder

  /** `num_blocks` equals the number of frames exactly when the payload is
      at least 2 and the length is a multiple of the payload or one short
      of one. With payload 1, or any other remainder, the word is off by one. */
  lemma NumBlocksMatchesFrameCount(len: u32, payload: u32)
    requires payload >= 1 && len + 1 < TwoTo32
    ensures NumBlocksField(len, payload) == CeilDiv(len, payload)
        <==> payload >= 2 && (len % payload == 0 || len % payload == payload - 1)
  {
    DivSucc(len, payload);
    CeilDivFloor(len, payload);
  }

  /** A ten-byte image with the default page size of 1 goes out as one
      frame whose `num_blocks` word reads 0. */
  lemma TenByteImage(input: seq<byte>)
    requires |input| == 10
    ensures Encode(input, 1, None).Success?
    ensures var frames := Encode(input, 1, None).value;
      |frames| == 1 && frames[0].numBlocks == 0 && frames[0].payloadSize == 10
      && frames[0].fileSize == 10 && frames[0].targetAddr == 0
  {
    var frames := Encode(input, 1, None).value;
    assert NominalPayload(1) == MaxPayloadSize;
    CeilDivOne(10, MaxPayloadSize);
    assert NumBlocksField(10, MaxPayloadSize) == 0;
    assert frames[0].payloadSize == 10 by {
      assert frames[1..] == [];
      assert PayloadTotal(frames) == frames[0].payloadSize;
    }
  }

  /** A 1024-byte image on 256-byte pages: four full frames at addresses
      0, 256, 512 and 768. */
  lemma FourPageImage(input: seq<byte>)
    requires |input| == 1024
    ensures Encode(input, 256, None).Success?
    ensures var frames := Encode(input, 256, None).value;
      |frames| == 4
      && forall i :: 0 <= i < 4 ==>
           frames[i].payloadSize == 256 && frames[i].targetAddr == 256 * i
           && frames[i].blockNo == i && frames[i].numBlocks == 4
  {
    var frames := Encode(input, 256, None).value;
    assert NominalPayload(256) == 256 by {
      var p := NominalPayload(256);
      DivModUnique(p, 256, 1, 0);
    }
    CeilDivStep(768, 256);
    CeilDivStep(512, 256);
    CeilDivStep(256, 256);
    CeilDivOne(256, 256);
    DivModUnique(1025, 256, 4, 1);
    assert frames[3].payloadSize == 256 by {
      assert frames[1..][1..][1..][1..] == [];
      assert PayloadTotal(frames) == frames[0].payloadSize + frames[1].payloadSize
        + frames[2].payloadSize + frames[3].payloadSize;
    }
  }

  /** The final short frame of a 477-byte image carries one fresh byte and,
      behind it, bytes 1 to 475 of the image left over from the frame before. */
  lemma StaleBytesInLastFrame(input: seq<byte>)
    requires |input| == 477
    ensures Encode(input, 1, None).Success?
    ensures var frames := Encode(input, 1, None).value;
      |frames| == 2 && frames[1].payloadSize == 1 && frames[1].data[0] == input[476]
      && forall k :: 1 <= k < MaxPayloadSize ==> frames[1].data[k] == input[k]
  {
    var frames := Encode(input, 1, None).value;
    assert NominalPayload(1) == MaxPayloadSize;
    CeilDivStep(1, MaxPayloadSize);
    CeilDivOne(1, MaxPayloadSize);
    assert frames[1..][1..] == [];
    assert Payloads(frames) == Payload(frames[0]) + Payload(frames[1]);
    assert Payload(frames[0]) == input[..MaxPayloadSize];
    forall k | 1 <= k < MaxPayloadSize
      ensures frames[1].data[k] == input[k]
    {
      assert Previous(frames, ZeroBuffer(), 1) == frames[0].data;
      assert frames[0].data[k] == Payload(frames[0])[k];
    }
  }

  /** A page size beyond the data buffer behaves like a page size of 1. */
  lemma OversizedPageActsAsOne(input: seq<byte>, pageSize: u32, family: Option<u32>)
    requires pageSize > MaxPayloadSize
    ensures Encode(input, pageSize, family) == Encode(input, 1, family)
  {
  }
}
