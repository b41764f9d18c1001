/** The `combine` command: the first frame of every input file, written back
    to back. Files become byte sequences; a file shorter than one frame makes
    `read_exact` fail, which ends the command with an error. */
module Combiner {
  import opened Bytes
  import opened Wrappers
  import opened Frame
  import opened Seqs

  /** `out` holds the first frame of each of the first `n` inputs, in order. */
  predicate FirstChunks(out: seq<byte>, inputs: seq<seq<byte>>, n: nat)
    requires n <= |inputs|
    requires forall i :: 0 <= i < n ==> |inputs[i]| >= ChunkSize
  {
    |out| == ChunkSize * n
    && forall i :: 0 <= i < n ==> out[ChunkSize * i..ChunkSize * i + ChunkSize] == inputs[i][..ChunkSize]
  }

  predicate AllLongEnough(inputs: seq<seq<byte>>) {
    forall i :: 0 <= i < |inputs| ==> |inputs[i]| >= ChunkSize
  }

  /** `combine`: fails as soon as one input is shorter than a frame,
      otherwise concatenates the inputs' first frames. */
  function Combine(inputs: seq<seq<byte>>): (r: Option<seq<byte>>)
    ensures r.Some? <==> AllLongEnough(inputs)
    ensures r.Some? ==> FirstChunks(r.value, inputs, |inputs|)
  {
    if inputs == [] then Some([])
    else if |inputs[0]| < ChunkSize then None
    else
      match Combine(inputs[1..])
      case None => None
      case Some(out) =>
        var chunk := inputs[0][..ChunkSize];
        FirstChunksCons(inputs, out);
        Some(chunk + out)
  }

  lemma FirstChunksCons(inputs: seq<seq<byte>>, out: seq<byte>)
    requires |inputs| >= 1 && AllLongEnough(inputs)
    requires FirstChunks(out, inputs[1..], |inputs| - 1)
    ensures FirstChunks(inputs[0][..ChunkSize] + out, inputs, |inputs|)
  {
    var r := inputs[0][..ChunkSize] + out;
    forall i | 0 <= i < |inputs|
      ensures r[ChunkSize * i..ChunkSize * i + ChunkSize] == inputs[i][..ChunkSize]
    {
      if i > 0 {
        var lo := ChunkSize * (i - 1);
        assert out[lo..lo + ChunkSize] == inputs[1..][i - 1][..ChunkSize];
        AppendSlice(inputs[0][..ChunkSize], out, lo, lo + ChunkSize);
      }
    }
  }

  /** Every input is exactly one frame long. */
  predicate WholeFrames(chunks: seq<seq<byte>>) {
    forall i :: 0 <= i < |chunks| ==> |chunks[i]| == ChunkSize
  }

  /** The inputs written back to back. */
  function Flatten(chunks: seq<seq<byte>>): seq<byte> {
    if chunks == [] then [] else chunks[0] + Flatten(chunks[1..])
  }

  /** Combining files of exactly one frame each loses nothing. */
  lemma {:induction false} CombineWholeFrames(chunks: seq<seq<byte>>)
    requires WholeFrames(chunks)
    ensures Combine(chunks) == Some(Flatten(chunks))
  {
    if chunks != [] {
      CombineWholeFrames(chunks[1..]);
      assert chunks[0][..ChunkSize] == chunks[0];
    }
  }

  lemma {:induction false} FlattenLength(chunks: seq<seq<byte>>)
    requires WholeFrames(chunks)
    ensures |Flatten(chunks)| == ChunkSize * |chunks|
  {
    if chunks != [] {
      FlattenLength(chunks[1..]);
    }
  }

  /** Frame `i` of a flattened list sits at bytes `512 * i` to `512 * i + 511`. */
  lemma {:induction false} FlattenFrame(chunks: seq<seq<byte>>, i: nat)
    requires WholeFrames(chunks) && i < |chunks|
    ensures ChunkSize * i + ChunkSize <= |Flatten(chunks)|
    ensures Flatten(chunks)[ChunkSize * i..ChunkSize * i + ChunkSize] == chunks[i]
  {
    var rest := Flatten(chunks[1..]);
    assert Flatten(chunks) == chunks[0] + rest;
    FlattenLength(chunks);
    if i == 0 {
      assert (chunks[0] + rest)[..ChunkSize] == chunks[0];
    } else {
      FlattenFrame(chunks[1..], i - 1);
      var lo := ChunkSize * (i - 1);
      assert chunks[1..][i - 1] == chunks[i];
      AppendSlice(chunks[0], rest, lo, lo + ChunkSize);
      assert ChunkSize * i == |chunks[0]| + lo;
    }
  }

  /** One file per frame, each holding just that frame. */
  function FrameFiles(frames: seq<Block>): (files: seq<seq<byte>>)
    ensures |files| == |frames| && WholeFrames(files)
    ensures forall i :: 0 <= i < |frames| ==> files[i] == Serialize(frames[i])
  {
    seq(|frames|, i requires 0 <= i < |frames| => Serialize(frames[i]))
  }

  /** The bytes of a file of frames written back to back, as `generate`
      writes them. */
  function Image(frames: seq<Block>): (r: seq<byte>)
    ensures |r| == ChunkSize * |frames|
  {
    FlattenLength(FrameFiles(frames));
    Flatten(FrameFiles(frames))
  }

  /** Frame `i` of an image sits at bytes `512 * i` to `512 * i + 511`. */
  lemma ImageFrame(frames: seq<Block>, i: nat)
    requires i < |frames|
    ensures Image(frames)[ChunkSize * i..ChunkSize * i + ChunkSize] == Serialize(frames[i])
  {
    FlattenFrame(FrameFiles(frames), i);
  }

  /** Combining one-frame files rebuilds the multi-frame image. */
  lemma CombineFrameFiles(frames: seq<Block>)
    ensures Combine(FrameFiles(frames)) == Some(Image(frames))
  {
    CombineWholeFrames(FrameFiles(frames));
  }

  /** Every frame of an image reads back as the block it was written from. */
  lemma ImageReadsBack(frames: seq<Block>, i: nat)
    requires i < |frames|
    ensures Parse(Image(frames)[ChunkSize * i..ChunkSize * i + ChunkSize]) == Some(frames[i])
  {
    ImageFrame(frames, i);
    ParseSerialize(frames[i]);
  }
}
