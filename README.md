# codec-from-scratch-rust in Dafny

This project models the core of a small video codec. The encoder turns raw
interleaved RGB frames (384 x 216, 3 bytes per pixel) into a compressed byte
stream. It does this in four steps:

1. it converts every frame in place to a planar YUV 4:2:0 frame: a full luma
   plane, then U and V at quarter resolution, each averaged over 2x2 blocks;
2. it builds a new video in which every frame after the first is its
   byte-wise wrapping difference from the previous original frame;
3. it computes a demonstration run-length coding of the delta frames (only
   its size is reported);
4. it compresses the concatenated delta frames.

The decoder reverses this:

1. it decompresses the stream;
2. it cuts the stream into chunks of `width * height * 3 / 2` bytes;
3. it undoes the delta coding in place, adding each frame to its already
   decoded predecessor;
4. it rebuilds each frame as RGB, reading the luma sample of the pixel and the
   chroma samples of its 2x2 block.

Files and modules:

- `bytes.dfy` (`Bytes`): the `u8` type as `byte`, the wrapping `u8`
  arithmetic written out modulo 256, and the concatenation of frames.
- `arith.dfy` (`Arith`): division and multiplication facts used by the
  row-major index proofs.
- `encoder.dfy` (`Encoder`): `src/encoder/mod.rs`.
- `decoder.dfy` (`Decoder`): `src/decoder/mod.rs`.
- `pipeline.dfy` (`Pipeline`): the encode-then-decode chain of `main`.

Each stage is proved against a specification:

- **Delta coding.** `IsDeltaEncoding` and `IsDeltaDecoding` describe the two
  directions pointwise. The theorems are:
  - decoding an encoding gives back the frames (`DeltaRoundTrip`);
  - encoding a decoding gives back the deltas (`EncodeAfterDecode`);
  - both predicates determine their result uniquely.
- **Run-length coding.** The reference is `Runs`: greedy maximal runs, split at
  255. The partners of `Runs` are:
  - its inverse `Expand`;
  - the characterisation `IsRunEncoding`: well-formed pairs whose counts are
    in `1..255`, with every pair ending a run or being full, that expand to
    the frame. `Runs` is the only output that meets it.
- **Framing.** `IsChunking` specifies the frame splitter. It is unique, and
  splitting a concatenation of full frames gives back those frames.
- **Colour stages.**
  - Only the index arithmetic is modelled. The floating-point formulas, the
    clamp and the truncating casts are opaque function parameters:
    - `colour` for RGB to YUV,
    - `mean` for the 2x2 chroma average,
    - `pixel` for YUV to RGB.
  - The final theorem, `Pipeline.RoundTrip`, says this: with a lossless
    compressor, every decoded pixel is `pixel` applied to three values:
    - the pixel's own luma,
    - the U mean of its 2x2 block,
    - the V mean of its 2x2 block.

Two points of the code are worth stating on their own:

- The encoder differences every frame against the previous *original*
  frame, while the decoder adds each delta to the previous *decoded* frame.
  The delta stage is lossless, so the two predecessors coincide:
  `DeltaRoundTrip` proves that the decoder recovers the original frames.
- The splitter keeps a short trailing chunk as a shorter frame, and
  `SplitDataToFrames` models that. `convert_yuv_to_rgb` then slices and
  indexes past the end of such a chunk (src/decoder/mod.rs:52-61) and panics.
  `DecodeVideo` therefore requires the decompressed data to be a whole number
  of frames.

## Model

| member | source | states |
|---|---|---|
| Bytes.WrappingSub | src/encoder/mod.rs:100 | `u8::wrapping_sub` is `a - b` when `a >= b`, and `a - b + 256` otherwise |
| Bytes.WrappingAdd | src/decoder/mod.rs:44-45 | `u8::wrapping_add` is `a + b` below 256, and `a + b - 256` otherwise |
| Bytes.WrappingAddSub | src/decoder/mod.rs:44-45 | adding back what was subtracted restores the byte, which is the per-pixel step of delta decoding |
| Bytes.WrappingSubAdd | src/encoder/mod.rs:100 | subtracting what was added restores the byte, so re-encoding a decoded frame gives the delta |
| Bytes.FlattenAppend | src/encoder/mod.rs:152-154 | writing one more frame into the stream appends exactly that frame's bytes |
| Encoder.CalculatePixelDeltas | src/encoder/mod.rs:88-107 | frame 0 is copied; every byte of every later frame is the wrapping difference from the same byte of the previous original frame; shape is kept |
| Encoder.DeltaEncodingUnique | src/encoder/mod.rs:88-107 | the delta coding of a video is unique |
| Encoder.CalculateCorrectDeltas | src/encoder/mod.rs:173-189 | the unit test: the delta coding of `[[5,3,3,1],[6,1,2,1],[5,1,2,1]]` is `[[5,3,3,1],[1,254,255,0],[255,0,0,0]]` |
| Encoder.RunLength | src/encoder/mod.rs:118-135 | the length of the leading block of equal bytes is between 1 and the input length |
| Encoder.RunLengthMaximal | src/encoder/mod.rs:120-134 | the leading block holds only copies of the first byte, and it ends at the input's end or at a different byte |
| Encoder.RunsStep | src/encoder/mod.rs:116-141 | a run of `n` copies that is full (255), or ends at the input's end or at a different byte, is emitted as the pair `[n, value]` followed by the coding of the rest |
| Encoder.EmitPair | src/encoder/mod.rs:123-129 | pushing the pair for a block that is full or ends the run keeps the buffer plus the coding still owed equal to the whole coding |
| Encoder.ExpandCons | src/encoder/mod.rs:137-138 | a pair `[n, v]` expands to `n` copies of `v` in front of the expansion of the rest |
| Encoder.RunsWellFormed | src/encoder/mod.rs:116-141 | the coding is a sequence of pairs whose counts are between 1 and 255 |
| Encoder.ExpandRuns | src/encoder/mod.rs:116-141 | expanding the coding restores the frame (lossless) |
| Encoder.RunsMaximal | src/encoder/mod.rs:120-134 | every pair either is full (255) or is followed by a pair with a different value |
| Encoder.RunsIsRunEncoding | src/encoder/mod.rs:116-141 | the reference coding is well formed, maximal and expands to the frame |
| Encoder.RunsHead | src/encoder/mod.rs:117-118 | a non-empty frame's coding starts with the capped length of its first run and the first byte |
| Encoder.ExpandLength | src/encoder/mod.rs:137-140 | the expansion is as long as the sum of the counts |
| Encoder.RunsCountSum | src/encoder/mod.rs:140 | the counts of the coding add up to the frame length, so `index` ends exactly at the frame's end |
| Encoder.RunEncodingUnique | src/encoder/mod.rs:116-141 | any well-formed, maximal coding that expands to the frame is the reference coding |
| Encoder.RunsExample | src/encoder/mod.rs:116-141 | `[7,7,7,7,9]` is coded as `[4,7,1,9]` |
| Encoder.RunsLongExample | src/encoder/mod.rs:122-129 | 300 equal bytes are coded as a full pair `[255,3]` followed by `[45,3]` |
| Encoder.RunLengthAt | src/encoder/mod.rs:117-134 | the block of copies that starts at `index` has between 1 and `len - index` bytes |
| Encoder.RunLengthAtMaximal | src/encoder/mod.rs:120-134 | that block holds only copies of `frame[index]` and ends at the frame's end or at a different byte |
| Encoder.RunLengthAtSuffix | src/encoder/mod.rs:117-134 | reading the block in place at `index` measures the same run as `RunLength` of the suffix |
| Encoder.ChunkAt | src/encoder/mod.rs:122-129 | the count emitted at `index` is at least 1 and stays inside the frame |
| Encoder.ChunkAtIs | src/encoder/mod.rs:120-134 | a block of `n` copies that is full (255) or is followed by the end or a different byte is exactly the count emitted there |
| Encoder.StepFrom | src/encoder/mod.rs:136-140 | the coding owed from `index` is the pair `[n, frame[index]]` and then the coding owed from `index + n` |
| Encoder.SuffixStep | src/encoder/mod.rs:113-141 | if the in-place coding after the first pair agrees with the suffix coding there, it agrees from `index` |
| Encoder.RunsFromSuffix | src/encoder/mod.rs:113-141 | the in-place coding from `index` is the reference coding `Runs` of the suffix from `index` |
| Encoder.CountRun | src/encoder/mod.rs:117-134 | the counting loop stops at the end of the block of copies of the current element; every 255 copies it flushes a full pair and advances `index`; the buffer plus the coding still owed from `index` is always the buffer on entry plus the coding owed from the run's start |
| Encoder.RunLengthEncodeFrame | src/encoder/mod.rs:113-141 | the per-frame `while` loop produces exactly the reference coding `Runs(frame)` |
| Encoder.CreateRunLengthEncoding | src/encoder/mod.rs:109-147 | one coding per frame, in order, each equal to `Runs` of its frame and lossless, maximal and well formed |
| Encoder.Slot | src/encoder/mod.rs:80-81 | a block position `(r, c)` maps into the quarter-resolution plane |
| Encoder.SubsampleReadsInBounds | src/encoder/mod.rs:69-78 | the four reads of a 2x2 block lie inside the full-resolution plane |
| Encoder.QuarterPlaneSize | src/encoder/mod.rs:64-65 | a `width * height / 4` buffer has exactly one slot per 2x2 block |
| Encoder.SubsampleWriteIndexIsSlot | src/encoder/mod.rs:80-81 | the write index `x / 2 * width / 2 + y / 2` is the row-major block slot and lies inside the buffer |
| Encoder.SubsampleWritesDistinct | src/encoder/mod.rs:67-83 | no two blocks of the stepped loops write the same slot |
| Encoder.SubsampleWritesCover | src/encoder/mod.rs:67-83 | every slot of the quarter-resolution buffer is written by some 2x2 block |
| Encoder.SlotBlockAt | src/encoder/mod.rs:67-83 | the slot of block `(r, c)` holds the mean of that block's four samples |
| Encoder.SampleBlock | src/encoder/mod.rs:69-78 | the four reads of block `(x/2, y/2)`, averaged by `mean`, are that block's value |
| Encoder.WriteSlot | src/encoder/mod.rs:80-81 | writing block `(x/2, y/2)` at the source's write index extends the row-major prefix of finished slots by one |
| Encoder.SubsampleRow | src/encoder/mod.rs:68-82 | one pass of the inner `y` loop finishes the next `width / 2` slots of both outputs |
| Encoder.ChromaSubsampling420 | src/encoder/mod.rs:58-86 | both outputs have `width * height / 4` bytes; every slot holds the mean of its own 2x2 block of the input plane |
| Encoder.Size | src/encoder/mod.rs:159-167 | the result is the total byte count of the frames |
| Encoder.ConvertFrameToYuv | src/encoder/mod.rs:32-56 | three planes of `width * height` samples; sample `p` of each comes from bytes `3p`, `3p+1`, `3p+2` of the RGB frame |
| Encoder.YuvFrame | src/encoder/mod.rs:11-16 | the stored 4:2:0 frame is the luma plane and the two quarter planes, `width * height + 2 * (width * height / 4)` bytes |
| Encoder.DeflateFrames | src/encoder/mod.rs:148-157 | the compressor receives all frames concatenated in order |
| Encoder.EncodeVideo | src/encoder/mod.rs:5-30 | every frame is replaced in place by its 4:2:0 frame; the output is the compression of the concatenated delta coding of those frames |
| Decoder.SplitDataToFrames | src/decoder/mod.rs:26-35 | chunks concatenate to the data; every chunk has between 1 and `frame_size` bytes and only the last may be short; there are `ceil(len / frame_size)` chunks |
| Decoder.SplitStep | src/decoder/mod.rs:30-32 | cutting the next chunk, full or the short tail, keeps the chunks so far a chunking of the data read |
| Decoder.SplitDone | src/decoder/mod.rs:30-34 | chunks that reach the end of the data are its chunking, `ceil(len / frame_size)` of them |
| Decoder.ChunkCount | src/decoder/mod.rs:30 | `n` chunks of at most `size` bytes, all full but the last, means `n` is `ceil(len / size)` |
| Decoder.FlattenLength | src/decoder/mod.rs:30-31 | non-empty chunks concatenate to at least as many bytes as there are chunks |
| Decoder.FirstChunk | src/decoder/mod.rs:30-31 | the first chunk has `min(len, size)` bytes |
| Decoder.ChunkingUnique | src/decoder/mod.rs:30-31 | the chunking of data is unique |
| Decoder.SplitOfFlatten | src/decoder/mod.rs:26-35 | splitting a concatenation of full frames gives back those frames |
| Decoder.ChunkingNonIncreasing | src/decoder/mod.rs:37-48 | chunk lengths never grow, so the delta decoder's reads of the previous frame stay in bounds |
| Decoder.YuvFrameLength | src/decoder/mod.rs:27 | for even dimensions, `width * height * 3 / 2` is the luma plane plus two quarter planes |
| Decoder.ChunkingLength | src/decoder/mod.rs:30-31 | the data length is `(n - 1) * size` plus the length of the last chunk |
| Decoder.AllChunksFull | src/decoder/mod.rs:30-31 | data that is a whole number of frames splits into full frames only |
| Decoder.WholeFrames | src/encoder/mod.rs:152-154 | full frames concatenate to a whole number of frames |
| Decoder.Planes | src/decoder/mod.rs:52-54 | the three slices partition the frame into `[0, wh)`, `[wh, wh + wh/4)` and the rest |
| Decoder.LumaIndex | src/decoder/mod.rs:59 | `j * width + k` lies inside the luma plane |
| Decoder.ChromaIndex | src/decoder/mod.rs:60-61 | `(j / 2) * (width / 2) + k / 2` lies inside each quarter plane |
| Decoder.ChromaLayoutAgrees | src/decoder/mod.rs:60-61 | the decoder reads a pixel's chroma from the slot the encoder wrote for the 2x2 block holding that pixel |
| Decoder.RowColumn | src/decoder/mod.rs:57-58 | the `p`-th iteration of the nested loops is pixel `(p / width, p % width)`, inside the frame |
| Decoder.PixelOfAt | src/decoder/mod.rs:57-70 | the pixel at loop position `j * width + k` is pixel `(j, k)` |
| Decoder.PushPixel | src/decoder/mod.rs:66-68 | pushing the three bytes of pixel `(j, k)` extends the rebuilt prefix by that pixel |
| Decoder.RebuiltWhole | src/decoder/mod.rs:57-70 | a rebuilt prefix of all `width * height` pixels gives every pixel `(j, k)` at `j * width + k` |
| Decoder.ConvertRow | src/decoder/mod.rs:58-69 | one pass of the inner `k` loop appends row `j`, pixel by pixel, to the rebuilt prefix |
| Decoder.ConvertFrameToRgb | src/decoder/mod.rs:51-72 | the output has `width * height * 3` bytes; its pixel `j * width + k` is rebuilt from luma `(j, k)` and the chroma of block `(j/2, k/2)` |
| Decoder.ConvertYuvToRgb | src/decoder/mod.rs:50-74 | every frame is replaced in place by its RGB rebuild |
| Decoder.DecodeFrameDeltas | src/decoder/mod.rs:37-48 | frame 0 is kept; every later byte is the wrapping sum of its delta and the same byte of the already decoded previous frame |
| Decoder.DecodeFrame | src/decoder/mod.rs:43-46 | one pass of the inner loop adds the rebuilt previous frame into frame `index`, byte by byte with wrap-around, and changes no other frame |
| Decoder.DecodedStep | src/decoder/mod.rs:37-48 | rebuilding frame `index` from the rebuilt frame before it extends the decoded prefix by one frame |
| Decoder.DecodedWhole | src/decoder/mod.rs:37-48 | a decoded prefix that covers the video is its delta decoding |
| Decoder.DecodedFrame | src/decoder/mod.rs:37-48 | decoding a delta coding restores each frame, by induction over the frame index |
| Decoder.DeltaRoundTrip | src/decoder/mod.rs:37-48 | decoding the delta coding of a video gives back the video |
| Decoder.EncodeAfterDecode | src/encoder/mod.rs:88-107 | delta-coding a decoded video gives back the deltas |
| Decoder.DeltaDecodingUnique | src/decoder/mod.rs:37-48 | the delta decoding is unique |
| Decoder.DecodingsAgree | src/decoder/mod.rs:37-48 | two decodings agree frame by frame, by induction over the frame index |
| Decoder.DecodeCorrectDeltas | src/decoder/mod.rs:104-120 | the unit test: decoding `[[5,3,3,1],[1,254,255,0],[255,0,0,0]]` gives `[[5,3,3,1],[6,1,2,1],[5,1,2,1]]` |
| Decoder.DecodeVideo | src/decoder/mod.rs:5-16 | the data is split into frames, delta-decoded and rebuilt as RGB, every frame `width * height * 3` bytes |
| Pipeline.PixelOfYuvFrame | src/decoder/mod.rs:57-70 | rebuilding pixel `(j, k)` from an encoder frame uses the pixel's luma and the means of its block's U and V samples |
| Pipeline.DecodedPixels | src/decoder/mod.rs:57-70 | rebuilding the encoder's 4:2:0 frames gives, for every frame and pixel `(j, k)`, the rebuild of that pixel's luma and its block's U and V means |
| Pipeline.WholeDeltaFrames | src/encoder/mod.rs:148-157 | the concatenated delta coding of 4:2:0 frames is a whole number of `width * height * 3 / 2`-byte frames |
| Pipeline.EndToEnd | src/main.rs:7-16 | after colour conversion nothing is lost: splitting and delta-decoding the concatenated delta coding gives back the encoder's 4:2:0 frames, so every decoded pixel is rebuilt from them |
| Pipeline.RoundTrip | src/main.rs:7-16 | encode then decode, for any positive even dimensions and a lossless compressor: one RGB frame of `width * height * 3` bytes per input frame, and every decoded pixel is the rebuild of its own luma and its block's chroma means |

## Left out

- The floating-point colour formulas are left out: RGB to YUV, the 2x2 average, YUV to RGB, `clamp` and the `as u8` casts. They are the opaque parameters `colour`, `mean` and `pixel`, because floating point is outside the model.
- `DeflateEncoder` and `DeflateDecoder` (`flate2`) are foreign library calls. They are the opaque `compress` and `decompress`. `Pipeline.RoundTrip` assumes, as a precondition, that `decompress` inverts `compress`.
- `decode_deflate` is only the call of `decompress` inside `DecodeVideo`. Its `unwrap` panic on a corrupt stream is not modelled.
- File I/O is left out: `read_video_frames` in `main.rs` and `write_frames_to_file`. `DecodeVideo` returns the frames that would be written.
- The `println!` size reports in `encode_video` are left out. The run-length frames are still computed, but their reported size is not.
- `usize` overflow is not modelled. Lengths and indices are unbounded naturals, and the hard-coded 384 x 216 frames are far from the limit.
- Encoder.CountRun: the inner counting loop of `create_run_length_encoding` is its own method, and the per-frame body is `RunLengthEncodeFrame`. Each step is the same as in the source, but the loop nesting is split across methods. The same holds for the inner loops of `chroma_subsampling_420` (`SubsampleRow`, with the four reads in `SampleBlock`), `convert_yuv_to_rgb` (`ConvertRow`) and `decode_frame_deltas` (`DecodeFrame`).
- Encoder.ChromaSubsampling420, Decoder.ConvertFrameToRgb: both require even dimensions. The source does not check this, but the hard-coded 384 x 216 frames are even.
- Encoder.EncodeVideo, Decoder.DecodeVideo, Pipeline.RoundTrip: the source hard-codes 384 x 216 frames; here `width` and `height` are parameters, required positive and even like the constants. `DecodeVideo` requires the data to hold whole frames, because the source panics on a short trailing chunk. `RoundTrip` requires every RGB frame to hold at least `3 * width * height` bytes, because `convert_frame_to_yuv` panics otherwise.
