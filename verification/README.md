# UF2 encoder of `clif`, modelled in Dafny

`clif` is a small command-line tool with two commands. Both deal with UF2, the
USB Flashing Format: a file made of independent 512-byte frames, each carrying
at most 476 bytes of a flash image and the address they belong at.

- `generate` cuts an image into UF2 frames. A page size above 476 is replaced
  by 1. The command rejects an image whose length is not a whole number of
  pages. Otherwise it picks the largest page-aligned payload that fits a frame and writes one frame
  per payload. The frames are numbered in order, and their target addresses
  increase by the payload each time. An optional family id can be given: it
  raises flag bit 13 and takes the place of the file size in the header.
- `combine` writes the first 512 bytes of every input file, in order, to one
  output file.

The model replaces files with byte sequences. The Dafny modules follow the
structure of `src/main.rs`:

- `Bytes`: bytes, `u32`, and little-endian 4-byte words (`to_le_bytes`).
- `Frame`: the `UF2Block` record, `set_family`, and the 512-byte wire frame
  (`as_chunk`). It also has a reader, `Parse`, which serves as the inverse
  that pins the frame layout down.
- `Encoder`: `generate` as a pure function. It consists of:
  - the effective page size (above 476 becomes 1) and the alignment check;
  - the nominal payload;
  - `UF2Block::new`;
  - the `while len > 0` loop, written as the recursive `EmitFrames`, one frame
    per iteration.

  `WellEncoded` collects everything the emitted frames satisfy.
- `Generator`: `generate` as the source writes it, as a method. It mutates one
  block, the remaining length counts down, and the loop carries invariants
  tying it to `EmitFrames`.
- `Combiner`: `combine`, plus `Image`, the bytes of a file of frames written
  back to back.
- `Properties`: consequences of the model:
  - exactly when the `num_blocks` word equals the frame count;
  - concrete images and what is written for them.
- `Arith`: division facts the proofs use.
- `Seqs`: generic facts about slicing and concatenating sequences.

The model follows the code where a reader might expect something else:

- `num_blocks` is `(len + 1) / payload_size` in `u32` arithmetic
  (src/main.rs:53). This is not the number of frames:
  - a 10-byte image gets one frame whose `num_blocks` is 0;
  - at `len = 2^32 - 1` the sum wraps to 0.

  `Properties.NumBlocksMatchesFrameCount` states exactly when the two agree.
- The data buffer is never cleared between frames (src/main.rs:55, 118). So
  past its payload, a frame repeats the previous frame's bytes.
- `set_family` stores the family id itself in `file_size`, with no flag bit
  added to it. The flag goes into `flags` only.
- A page size of 0 makes `len % args.page_size` divide by zero
  (src/main.rs:101). The model requires a page size of at least 1.
- A length that does not fit `u32` makes `try_into` fail (src/main.rs:97). The
  model returns the error `LengthTooLarge` for it.

## Model

| member | source | states |
|---|---|---|
| Bytes.ToLE32 | src/main.rs:70-79 | `to_le_bytes` gives four bytes, least significant first, from which `FromLE32` recovers the word |
| Bytes.ToLE32FromLE32 | src/main.rs:70-79 | every 4-byte sequence is the little-endian encoding of the word it reads as |
| Bytes.ToLE32Injective | src/main.rs:70-79 | distinct words have distinct encodings |
| Frame.WithFamilyFlag | src/main.rs:60 | `flags` with `FAMILY_FLAG` or-ed in has bit 13 set and every other bit as before |
| Frame.SetFamily | src/main.rs:59-62 | the family flag is raised, all other flag bits are kept, `file_size` becomes the family id, and every other field is unchanged |
| Frame.SetFamilyIdempotent | src/main.rs:59-62 | setting the same family twice equals setting it once |
| Frame.MagicBytes | src/main.rs:65-67 | the three magic words, as bytes on the wire |
| Frame.Serialize | src/main.rs:64-81 | the frame is 512 bytes: the start magic words at bytes 0-3 and 4-7; flags, target address, payload size, block number, block count and file size at bytes 8-31, in that order, each little-endian; the data buffer at bytes 32-507; the end magic word at bytes 508-511 |
| Frame.Parse | src/main.rs:64-81 | any 512-byte sequence it accepts is the frame of the block it returns |
| Frame.ParseSerialize | src/main.rs:64-81 | every block's frame reads back as that block |
| Frame.SerializeInjective | src/main.rs:64-81 | distinct blocks give distinct frames |
| Encoder.EffectivePageSize | src/main.rs:98-100 | a page size of at least 1 becomes a usable page of 1 to 476 bytes: it is kept when it is at most 476 and otherwise becomes 1 (see `Properties.OversizedPageActsAsOne`) |
| Encoder.NominalPayload | src/main.rs:107 | the payload is a multiple of the page, at least one page, at most 476, and the largest such multiple |
| Encoder.NumBlocksField | src/main.rs:53 | the word is the floor of `(len + 1) / payload` when `len + 1` fits in `u32`, and 0 when it wraps |
| Encoder.NewBlock | src/main.rs:47-57 | the new block has flags 0, address 0, block number 0, the nominal payload, `num_blocks` the floor of `(len + 1) / payload` (0 when `len + 1` wraps), the image length as file size, and an all-zero buffer |
| Encoder.ZeroBuffer | src/main.rs:55 | the `[0; 476]` buffer: every byte is 0 |
| Encoder.StartBlock | src/main.rs:108-111 | the block before the loop: the family flag is set exactly when a family id is given and no other flag bit is; `file_size` is the family id if given, else the length; address 0, number 0, the nominal payload, the `num_blocks` word of `NumBlocksField` and a zero buffer |
| Encoder.ReadInto | src/main.rs:118 | `read_exact` into `data[..payload_size]`: the front of the buffer becomes the next `payload_size` image bytes, the rest of the buffer and every other field are unchanged |
| Encoder.Fill | src/main.rs:114-118 | the payload shrinks to what is left of the image when less than a nominal payload remains; flags, address, number, count and size words do not change |
| Encoder.FillData | src/main.rs:118 | the payload bytes are the next bytes of the image; the buffer past the payload is unchanged |
| Encoder.Advance | src/main.rs:120-121 | after writing, the block number goes up by one and the address moves past the payload; nothing else changes |
| Encoder.EmitFrames | src/main.rs:113-122 | the `while len > 0` loop as a recursion: it emits nothing exactly when the image is used up; what it emits is described by `EmitFramesUnfold`, `EmitFramesCount`, `EmitFramesAddressing`, `EmitFramesHeader`, `EmitFramesPayloadSizes`, `EmitFramesPayloads`, `EmitFramesTails` and, gathered, `WellEncoded` in `Encode` |
| Encoder.EmitFramesUnfold | src/main.rs:113-122 | one iteration emits the filled frame, then the loop continues from the advanced block; the loop state is preserved |
| Encoder.EmitFramesCount | src/main.rs:113-122 | from read position `pos`, the loop emits `ceil((len - pos) / payload)` frames |
| Encoder.EmitFramesAddressing | src/main.rs:113-122 | frame `i` has block number `first + i` and target address `pos + i * payload` |
| Encoder.EmitFramesHeader | src/main.rs:108-122 | every frame carries the flags, `num_blocks` and `file_size` fixed before the loop |
| Encoder.EmitFramesPayloadSizes | src/main.rs:113-117 | every frame but the last carries the nominal payload; the last carries what is left |
| Encoder.EmitFramesPayloads | src/main.rs:113-122 | the frames' payload bytes, concatenated, are exactly the unread part of the image |
| Encoder.PayloadsLength | src/main.rs:113-122 | the payload-size words add up to the number of payload bytes |
| Encoder.EmitFramesTails | src/main.rs:113-122 | past its payload, every frame's buffer equals the previous frame's buffer, or the start buffer for the first frame |
| Encoder.LastPayloadAligned | src/main.rs:101-107 | what is left for the last frame is still a whole number of pages |
| Encoder.Encode | src/main.rs:95-124 | a length beyond `u32` is rejected, and so is a length that is not a multiple of the effective page size; otherwise `generate` succeeds and its frames satisfy `WellEncoded`: the frame count, the numbering and addresses, page-aligned payloads with only the last one short, payloads that reassemble the image and sum to its length, shared header words, and carried-over buffer tails |
| Generator.Generate | src/main.rs:95-124 | the imperative `generate` computes exactly `Encode`, so its frames are well encoded |
| Generator.WriteFrames | src/main.rs:113-122 | the `while len > 0` loop writes exactly the frames of `EmitFrames` |
| Generator.WriteOne | src/main.rs:114-121 | one pass of the loop body writes the filled frame and leaves the advanced block, the shorter length and the next read position |
| Combiner.Combine | src/main.rs:84-93 | it succeeds exactly when every input holds at least 512 bytes; bytes `512*i` to `512*i+511` of the output are the first 512 bytes of input `i`, so the output is `512 * n` bytes long |
| Combiner.CombineWholeFrames | src/main.rs:84-93 | combining inputs that are one frame each gives their concatenation |
| Combiner.FlattenLength | src/main.rs:84-93 | concatenating `n` one-frame inputs gives `512 * n` bytes |
| Combiner.FlattenFrame | src/main.rs:84-93 | input `i` sits at bytes `512*i` to `512*i+511` of the concatenation |
| Combiner.Image | src/main.rs:112-122 | a written stream of `n` frames is `512 * n` bytes long |
| Combiner.ImageFrame | src/main.rs:112-122 | frame `i` of a written stream sits at bytes `512*i` to `512*i+511` |
| Combiner.CombineFrameFiles | src/main.rs:84-93 | combining one file per frame rebuilds the file `generate` writes for those frames |
| Combiner.ImageReadsBack | src/main.rs:64-81 | every frame of a written stream reads back as the block it came from |
| Properties.NumBlocksMatchesFrameCount | src/main.rs:53 | while `len + 1` fits in `u32`, `num_blocks` equals the frame count exactly when the payload is at least 2 and `len mod payload` is 0 or `payload - 1` |
| Properties.TenByteImage | src/main.rs:95-124 | a 10-byte image with page size 1 becomes one 10-byte frame at address 0 whose `num_blocks` reads 0 |
| Properties.FourPageImage | src/main.rs:95-124 | a 1024-byte image on 256-byte pages becomes four 256-byte frames, numbered 0-3, at addresses 0, 256, 512 and 768, each with `num_blocks` 4 |
| Properties.StaleBytesInLastFrame | src/main.rs:113-122 | in a 477-byte image the second frame carries one fresh byte; buffer bytes 1-475 still hold image bytes 1-475 from the first frame |
| Properties.OversizedPageActsAsOne | src/main.rs:98-100 | a page size above 476 gives the same result as a page size of 1 |

## Left out

- Command-line parsing is not modelled: the `clap` derive, `ClifArgs`, `CombineArgs`, `GenerateArgs` and `main` (src/main.rs:9-32, 126-131). It is plumbing around the two commands.
- File handling is not modelled: opening and creating files, `BufReader`/`BufWriter`, `metadata` and `write_all`.
  - The image is a byte sequence, and its length stands for the metadata length.
  - The output of `generate` is its sequence of blocks; `Image` gives their bytes.
  - Read failures in `generate` are not modelled: an I/O error, a file whose metadata length differs from its contents, or a file that shrinks while it is read. The image is a fixed byte sequence of the stated length.
- Combiner.Combine: on failure it returns `None`. The frames already written to the output file before the short input are not modelled, because they are a file-system side effect.
- The `anyhow` error texts are not modelled. Errors are the variants `LengthTooLarge` and `IncompatibleLength`, the latter carrying the length and the effective page size.
- `ArrayVec` is not modelled. Only the resulting 512 bytes matter.
- Encoder.NumBlocksField: `len + 1` wraps to 0, as in a release build. A debug build would panic on that overflow instead; the panic is not modelled. The other additions in the loop cannot overflow, because the loop state bounds them by the image length.
- Encoder.Encode, Generator.Generate: both require a page size of at least 1. The source divides by a page size of 0 and panics.
- Frame.Parse: the source has no frame reader. `Parse` exists only as the inverse of `Serialize`.
