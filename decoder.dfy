/**
 * The decoder half of the codec (src/decoder/mod.rs): splitting the
 * decompressed stream into frames, in-place delta decoding, and the slicing
 * and index arithmetic of the YUV 4:2:0 to RGB conversion.
 */
module Decoder {
  import opened Bytes
  import opened Arith
  import opened Encoder

  // ---------------------------------------------------------------------------
  // Frame chunker
  // ---------------------------------------------------------------------------

  /** Bytes of one planar YUV 4:2:0 frame, `(width * height * 3) / 2`. */
  function FrameSize(width: nat, height: nat): nat
  {
    (width * height * 3) / 2
  }

  /**
   * `chunks` cut `data` into consecutive pieces: all of them `size` long
   * except possibly the last, which is kept whole with 1 to `size` bytes.
   */
  ghost predicate IsChunking(data: seq<byte>, size: nat, chunks: seq<seq<byte>>)
  {
    && Flatten(chunks) == data
    && (forall i :: 0 <= i < |chunks| ==> 1 <= |chunks[i]| <= size)
    && (forall i :: 0 <= i < |chunks| - 1 ==> |chunks[i]| == size)
  }

  /**
   * `split_data_to_frames`: the frames of `data.chunks(frame_size)`, in order.
   * `slice::chunks` panics on a chunk size of 0, hence the positive dimensions.
   */
  method SplitDataToFrames(data: seq<byte>, width: nat, height: nat) returns (result: seq<seq<byte>>)
    requires 0 < width && 0 < height
    ensures FrameSize(width, height) > 0
    ensures IsChunking(data, FrameSize(width, height), result)
    ensures |result| == (|data| + FrameSize(width, height) - 1) / FrameSize(width, height)
  {
    var frameSize := (width * height * 3) / 2;
    MulAtLeast(width, height);
    result := [];
    var offset := 0;
    while offset < |data|
      invariant SplitPrefix(data, frameSize, result, offset)
      decreases |data| - offset
    {
      var end := if |data| - offset < frameSize then |data| else offset + frameSize;
      SplitStep(data, frameSize, result, offset);
      result := result + [data[offset..end]];
      offset := end;
    }
    SplitDone(data, frameSize, result);
  }

  /**
   * `result` is the chunking of `data[..offset]`, and while bytes remain every
   * chunk so far is full, so `offset` is `|result| * size`.
   */
  ghost predicate SplitPrefix(data: seq<byte>, size: nat, result: seq<seq<byte>>, offset: nat)
  {
    && 0 < size && offset <= |data|
    && Flatten(result) == data[..offset]
    && (forall i :: 0 <= i < |result| ==> 1 <= |result[i]| <= size)
    && (forall i :: 0 <= i < |result| - 1 ==> |result[i]| == size)
    && (offset < |data| ==> offset == |result| * size && forall i :: 0 <= i < |result| ==> |result[i]| == size)
    && offset <= |result| * size
    && (|result| > 0 ==> (|result| - 1) * size < offset)
  }

  /** Cutting the next chunk, full or the short tail, extends the split prefix. */
  lemma SplitStep(data: seq<byte>, size: nat, result: seq<seq<byte>>, offset: nat)
    requires SplitPrefix(data, size, result, offset) && offset < |data|
    ensures var end := if |data| - offset < size then |data| else offset + size;
            SplitPrefix(data, size, result + [data[offset..end]], end)
  {
    var end := if |data| - offset < size then |data| else offset + size;
    var chunk := data[offset..end];
    var next := result + [chunk];
    FlattenAppend(result, chunk);
    assert data[..offset] + chunk == data[..end];
    MulSuccessor(|result|, size);
    assert |next| - 1 == |result|;
    assert forall i :: 0 <= i < |result| ==> next[i] == result[i];
    assert next[|result|] == chunk;
  }

  /** A split prefix that reached the end of the data is its chunking. */
  lemma SplitDone(data: seq<byte>, size: nat, result: seq<seq<byte>>)
    requires SplitPrefix(data, size, result, |data|)
    ensures IsChunking(data, size, result)
    ensures |result| == (|data| + size - 1) / size
  {
    assert data[..|data|] == data;
    ChunkCount(|data|, size, |result|);
  }

  /** `n` chunks of at most `size` bytes, all but the last full, number `ceil(length / size)`. */
  lemma ChunkCount(length: nat, size: nat, n: nat)
    requires 0 < size
    requires length <= n * size
    requires n > 0 ==> (n - 1) * size < length
    ensures n == (length + size - 1) / size
  {
    if n == 0 {
      DivModUnique(length + size - 1, size, 0, length + size - 1);
    } else {
      assert n * size == (n - 1) * size + size;
      DivModUnique(length + size - 1, size, n, length + size - 1 - n * size);
    }
  }

  /** Flattening a non-empty video puts its first frame in front. */
  lemma FlattenFirst(chunks: seq<seq<byte>>)
    requires chunks != []
    ensures Flatten(chunks) == chunks[0] + Flatten(chunks[1..])
  {
  }

  /** Pieces of at least one byte each concatenate to at least as many bytes as there are pieces. */
  lemma {:induction false} FlattenLength(chunks: seq<seq<byte>>)
    requires forall i :: 0 <= i < |chunks| ==> 1 <= |chunks[i]|
    ensures |Flatten(chunks)| >= |chunks|
    decreases |chunks|
  {
    if chunks != [] {
      FlattenLength(chunks[1..]);
    }
  }

  /** The first piece of a chunking is full exactly when more data follows it. */
  lemma FirstChunk(data: seq<byte>, size: nat, chunks: seq<seq<byte>>)
    requires IsChunking(data, size, chunks) && chunks != []
    ensures |chunks[0]| == if |data| > size then size else |data|
  {
    FlattenFirst(chunks);
    FlattenLength(chunks[1..]);
    if |chunks| == 1 {
      assert chunks[1..] == [];
    }
  }

  /** The chunking of a buffer is unique: every piece is determined by the data and the size. */
  lemma {:induction false} ChunkingUnique(data: seq<byte>, size: nat, a: seq<seq<byte>>, b: seq<seq<byte>>)
    requires IsChunking(data, size, a) && IsChunking(data, size, b)
    ensures a == b
    decreases |a|
  {
    FlattenLength(a);
    FlattenLength(b);
    if a != [] && b != [] {
      FlattenFirst(a);
      FlattenFirst(b);
      FlattenLength(a[1..]);
      FlattenLength(b[1..]);
      FirstChunk(data, size, a);
      FirstChunk(data, size, b);
      var n := |a[0]|;
      assert a[0] == data[..n] == b[0];
      assert Flatten(a[1..]) == data[n..] == Flatten(b[1..]);
      ChunkingUnique(data[n..], size, a[1..], b[1..]);
      assert a == [a[0]] + a[1..];
      assert b == [b[0]] + b[1..];
    }
  }

  /** A video of full frames is a chunking of its own concatenation. */
  lemma FullFramesChunking(frames: seq<seq<byte>>, size: nat)
    requires 0 < size
    requires forall i :: 0 <= i < |frames| ==> |frames[i]| == size
    ensures IsChunking(Flatten(frames), size, frames)
  {
  }

  /** Splitting the encoder's concatenation of full frames gives back exactly those frames. */
  lemma SplitOfFlatten(frames: seq<seq<byte>>, size: nat, chunks: seq<seq<byte>>)
    requires 0 < size
    requires forall i :: 0 <= i < |frames| ==> |frames[i]| == size
    requires IsChunking(Flatten(frames), size, chunks)
    ensures chunks == frames
  {
    FullFramesChunking(frames, size);
    ChunkingUnique(Flatten(frames), size, chunks, frames);
  }

  /** A short trailing chunk still meets the delta decoder's length precondition. */
  lemma ChunkingNonIncreasing(data: seq<byte>, size: nat, chunks: seq<seq<byte>>)
    requires IsChunking(data, size, chunks)
    ensures NonIncreasingLengths(chunks)
  {
  }


  // ---------------------------------------------------------------------------
  // YUV 4:2:0 to RGB: slicing and index arithmetic only
  // ---------------------------------------------------------------------------

  /** One interleaved RGB pixel. */
  datatype Rgb = Rgb(r: byte, g: byte, b: byte)

  /**
   * The three planes `convert_yuv_to_rgb` slices out of a frame: luma
   * `[0, wh)`, U `[wh, wh + wh / 4)` and V from `wh + wh / 4` to the end.
   */
  function Planes(frame: seq<byte>, width: nat, height: nat): (planes: (seq<byte>, seq<byte>, seq<byte>))
    requires |frame| >= width * height + width * height / 4
    ensures |planes.0| == width * height && |planes.1| == width * height / 4
    ensures |planes.2| == |frame| - width * height - width * height / 4
    ensures planes.0 + planes.1 + planes.2 == frame
  {
    var wh := width * height;
    (frame[..wh], frame[wh..wh + wh / 4], frame[wh + wh / 4..])
  }

  /** The luma index `j * width + k` of pixel (j, k) lies inside the luma plane. */
  function LumaIndex(width: nat, height: nat, j: nat, k: nat): (index: nat)
    requires j < height && k < width
    ensures index < width * height
  {
    RowMajorBound(j, k, height, width);
    j * width + k
  }

  /**
   * The chroma index `(j / 2) * (width / 2) + k / 2` of pixel (j, k): for even
   * dimensions it lies inside each quarter-resolution chroma plane.
   */
  function ChromaIndex(width: nat, height: nat, j: nat, k: nat): (index: nat)
    requires width % 2 == 0 && height % 2 == 0
    requires j < height && k < width
    ensures index < width * height / 4
  {
    Slot(width, height, j / 2, k / 2)
  }

  /** The pixel (j, k) rebuilt from its luma sample and the chroma samples of its 2x2 block. */
  function PixelAt(frame: seq<byte>, width: nat, height: nat, j: nat, k: nat, pixel: (byte, byte, byte) -> Rgb): Rgb
    requires width % 2 == 0 && height % 2 == 0
    requires |frame| >= width * height + 2 * (width * height / 4)
    requires j < height && k < width
  {
    var planes := Planes(frame, width, height);
    var chroma := ChromaIndex(width, height, j, k);
    pixel(planes.0[LumaIndex(width, height, j, k)], planes.1[chroma], planes.2[chroma])
  }

  /** Pixel `p` of an interleaved RGB buffer. */
  function RgbAt(rgb: seq<byte>, p: nat): Rgb
    requires 3 * p + 2 < |rgb|
  {
    Rgb(rgb[3 * p], rgb[3 * p + 1], rgb[3 * p + 2])
  }

  /** Pixel `p` of the row-major pixel order, as rebuilt from the frame. */
  function PixelOf(frame: seq<byte>, width: nat, height: nat, p: nat, pixel: (byte, byte, byte) -> Rgb): Rgb
    requires width % 2 == 0 && height % 2 == 0
    requires |frame| >= width * height + 2 * (width * height / 4)
    requires p < width * height
  {
    var (j, k) := RowColumn(width, height, p);
    PixelAt(frame, width, height, j, k, pixel)
  }

  /** The row and column of pixel `p` in row-major order. */
  function RowColumn(width: nat, height: nat, p: nat): (position: (nat, nat))
    requires p < width * height
    ensures position.0 < height && position.1 < width
    ensures p == position.0 * width + position.1
  {
    WidthPositive(width, height, p);
    (p / width, p % width)
  }

  /** A pixel position below `width * height` lies on row `p / width < height`. */
  lemma WidthPositive(width: nat, height: nat, p: nat)
    requires p < width * height
    ensures width > 0 && p / width < height
  {
    if width == 0 {
      assert false;
    }
    var j := p / width;
    if j >= height {
      MulMonotone(height, j, width);
      assert false;
    }
  }

  /** Pixel `p` of the row-major order is pixel `(j, k)` with `p == j * width + k`. */
  lemma PixelOfAt(frame: seq<byte>, width: nat, height: nat, j: nat, k: nat, pixel: (byte, byte, byte) -> Rgb)
    requires width % 2 == 0 && height % 2 == 0
    requires |frame| >= width * height + 2 * (width * height / 4)
    requires j < height && k < width
    ensures PixelOf(frame, width, height, LumaIndex(width, height, j, k), pixel) == PixelAt(frame, width, height, j, k, pixel)
  {
    DivModUnique(LumaIndex(width, height, j, k), width, j, k);
  }

  /** The first `n` pixels of `rgb` are the first `n` pixels of the frame, rebuilt in row-major order. */
  ghost predicate RebuiltPrefix(rgb: seq<byte>, frame: seq<byte>, width: nat, height: nat, n: nat, pixel: (byte, byte, byte) -> Rgb)
    requires width % 2 == 0 && height % 2 == 0
    requires |frame| >= width * height + 2 * (width * height / 4)
  {
    && |rgb| == 3 * n && n <= width * height
    && forall p :: 0 <= p < n ==> RgbAt(rgb, p) == PixelOf(frame, width, height, p, pixel)
  }

  /** Pushing the rebuild of pixel (j, k), the next one in row-major order, extends the prefix. */
  lemma PushPixel(rgb: seq<byte>, frame: seq<byte>, width: nat, height: nat, j: nat, k: nat, pixel: (byte, byte, byte) -> Rgb)
    requires width % 2 == 0 && height % 2 == 0
    requires |frame| >= width * height + 2 * (width * height / 4)
    requires j < height && k < width
    requires RebuiltPrefix(rgb, frame, width, height, j * width + k, pixel)
    ensures var px := PixelAt(frame, width, height, j, k, pixel);
            RebuiltPrefix(rgb + [px.r, px.g, px.b], frame, width, height, j * width + k + 1, pixel)
  {
    var px := PixelAt(frame, width, height, j, k, pixel);
    var n := LumaIndex(width, height, j, k);
    PixelOfAt(frame, width, height, j, k, pixel);
    var rgb' := rgb + [px.r, px.g, px.b];
    assert RgbAt(rgb', n) == px;
    forall p | 0 <= p < n
      ensures RgbAt(rgb', p) == PixelOf(frame, width, height, p, pixel)
    {
      assert RgbAt(rgb', p) == RgbAt(rgb, p);
    }
  }

  /** A prefix of all `width * height` pixels is the whole rebuilt frame. */
  lemma RebuiltWhole(rgb: seq<byte>, frame: seq<byte>, width: nat, height: nat, pixel: (byte, byte, byte) -> Rgb)
    requires width % 2 == 0 && height % 2 == 0
    requires |frame| >= width * height + 2 * (width * height / 4)
    requires RebuiltPrefix(rgb, frame, width, height, width * height, pixel)
    ensures |rgb| == width * height * 3
    ensures forall j, k :: 0 <= j < height && 0 <= k < width ==>
              RgbAt(rgb, LumaIndex(width, height, j, k)) == PixelAt(frame, width, height, j, k, pixel)
  {
    forall j, k | 0 <= j < height && 0 <= k < width
      ensures RgbAt(rgb, LumaIndex(width, height, j, k)) == PixelAt(frame, width, height, j, k, pixel)
    {
      PixelOfAt(frame, width, height, j, k, pixel);
    }
  }

  /** Row `j` of the nested pixel loops of `convert_yuv_to_rgb`, appended to `rgb`. */
  method ConvertRow(frame: seq<byte>, y: seq<byte>, u: seq<byte>, v: seq<byte>, width: nat, height: nat, j: nat,
                    rgb: seq<byte>, pixel: (byte, byte, byte) -> Rgb)
    returns (rgb': seq<byte>)
    requires width % 2 == 0 && height % 2 == 0
    requires |frame| >= width * height + 2 * (width * height / 4)
    requires (y, u, v) == Planes(frame, width, height)
    requires j < height
    requires RebuiltPrefix(rgb, frame, width, height, j * width, pixel)
    ensures RebuiltPrefix(rgb', frame, width, height, (j + 1) * width, pixel)
  {
    rgb' := rgb;
    for k := 0 to width
      invariant RebuiltPrefix(rgb', frame, width, height, j * width + k, pixel)
    {
      var chroma := ChromaIndex(width, height, j, k);
      var luma := LumaIndex(width, height, j, k);
      var px := pixel(y[luma], u[chroma], v[chroma]);
      PushPixel(rgb', frame, width, height, j, k, pixel);
      rgb' := rgb' + [px.r, px.g, px.b];
    }
    assert j * width + width == (j + 1) * width;
  }

  /**
   * The body of `convert_yuv_to_rgb` for one frame: slices the three planes
   * and pushes three bytes per pixel in row-major order. The colour formulas,
   * the clamp and the truncating casts are the opaque `pixel`.
   */
  method ConvertFrameToRgb(frame: seq<byte>, width: nat, height: nat, pixel: (byte, byte, byte) -> Rgb) returns (rgb: seq<byte>)
    requires width % 2 == 0 && height % 2 == 0
    requires |frame| >= width * height + 2 * (width * height / 4)
    ensures |rgb| == width * height * 3
    ensures forall j, k :: 0 <= j < height && 0 <= k < width ==>
              RgbAt(rgb, LumaIndex(width, height, j, k)) == PixelAt(frame, width, height, j, k, pixel)
  {
    var y := frame[..width * height];
    var u := frame[width * height..(width * height) + (width * height / 4)];
    var v := frame[(width * height) + (width * height / 4)..];
    rgb := [];
    for j := 0 to height
      invariant RebuiltPrefix(rgb, frame, width, height, j * width, pixel)
    {
      rgb := ConvertRow(frame, y, u, v, width, height, j, rgb, pixel);
    }
    RebuiltWhole(rgb, frame, width, height, pixel);
  }

  /**
   * `convert_yuv_to_rgb`: overwrites every frame of the video with its RGB
   * rebuild, which is `width * height * 3` bytes long.
   */
  method ConvertYuvToRgb(frames: array<seq<byte>>, width: nat, height: nat, pixel: (byte, byte, byte) -> Rgb)
    requires width % 2 == 0 && height % 2 == 0
    requires forall i :: 0 <= i < frames.Length ==> |frames[i]| >= width * height + 2 * (width * height / 4)
    modifies frames
    ensures forall i :: 0 <= i < frames.Length ==> |frames[i]| == width * height * 3
    ensures forall i, j, k :: 0 <= i < frames.Length && 0 <= j < height && 0 <= k < width ==>
              RgbAt(frames[i], LumaIndex(width, height, j, k)) == PixelAt(old(frames[i]), width, height, j, k, pixel)
  {
    ghost var original := frames[..];
    for i := 0 to frames.Length
      invariant forall n :: i <= n < frames.Length ==> frames[n] == original[n]
      invariant forall n :: 0 <= n < i ==> |frames[n]| == width * height * 3
      invariant forall n, j, k :: 0 <= n < i && 0 <= j < height && 0 <= k < width ==>
                  RgbAt(frames[n], LumaIndex(width, height, j, k)) == PixelAt(original[n], width, height, j, k, pixel)
    {
      var rgb := ConvertFrameToRgb(frames[i], width, height, pixel);
      frames[i] := rgb;
    }
  }

  // ---------------------------------------------------------------------------
  // Temporal delta decoding
  // ---------------------------------------------------------------------------

  /**
   * `decoded` is the delta decoding of `frames`: same shape, frame 0 copied,
   * every later byte the wrapping sum with the ALREADY RECONSTRUCTED previous frame.
   */
  ghost predicate IsDeltaDecoding(frames: seq<seq<byte>>, decoded: seq<seq<byte>>)
  {
    && NonIncreasingLengths(frames)
    && |decoded| == |frames|
    && (forall i :: 0 <= i < |frames| ==> |decoded[i]| == |frames[i]|)
    && (|frames| > 0 ==> decoded[0] == frames[0])
    && (forall i, j :: 0 < i < |frames| && 0 <= j < |frames[i]| ==>
          decoded[i][j] == WrappingAdd(frames[i][j], decoded[i - 1][j]))
  }

  /**
   * `decode_frame_deltas`: rewrites the video in place, front to back, so
   * that frame `i` is rebuilt from the already rebuilt frame `i - 1`.
   */
  method DecodeFrameDeltas(frames: array<seq<byte>>)
    requires NonIncreasingLengths(frames[..])
    modifies frames
    ensures IsDeltaDecoding(old(frames[..]), frames[..])
  {
    ghost var original := frames[..];
    for index := 0 to frames.Length
      invariant DecodedPrefix(original, frames[..], index)
    {
      if index == 0 {
        continue;
      }
      ghost var before := frames[..];
      DecodeFrame(frames, index);
      assert frames[..] == before[index := frames[index]];
      DecodedStep(original, before, index, frames[index]);
    }
    DecodedWhole(original, frames[..]);
  }

  /**
   * The first `n` frames of `current` are rebuilt from `original` and the
   * rest are still the deltas.
   */
  ghost predicate DecodedPrefix(original: seq<seq<byte>>, current: seq<seq<byte>>, n: nat)
  {
    && NonIncreasingLengths(original)
    && |current| == |original|
    && n <= |original|
    && (forall i :: n <= i < |original| ==> current[i] == original[i])
    && (forall i :: 0 <= i < n ==> |current[i]| == |original[i]|)
    && (n > 0 ==> current[0] == original[0])
    && (forall i, j :: 0 < i < n && 0 <= j < |original[i]| ==>
          current[i][j] == WrappingAdd(original[i][j], current[i - 1][j]))
  }

  /** Rebuilding frame `index` from the rebuilt frame before it extends the prefix by one. */
  lemma DecodedStep(original: seq<seq<byte>>, before: seq<seq<byte>>, index: nat, rebuilt: seq<byte>)
    requires DecodedPrefix(original, before, index) && 0 < index < |original|
    requires |rebuilt| == |before[index]|
    requires forall j :: 0 <= j < |rebuilt| ==> rebuilt[j] == WrappingAdd(before[index][j], before[index - 1][j])
    ensures DecodedPrefix(original, before[index := rebuilt], index + 1)
  {
    var after := before[index := rebuilt];
    forall i, j | 0 < i < index + 1 && 0 <= j < |original[i]|
      ensures after[i][j] == WrappingAdd(original[i][j], after[i - 1][j])
    {
      if i == index {
        assert after[i] == rebuilt && after[i - 1] == before[i - 1];
      } else {
        assert after[i] == before[i] && after[i - 1] == before[i - 1];
      }
    }
  }

  /** A prefix that covers the whole video is its delta decoding. */
  lemma DecodedWhole(original: seq<seq<byte>>, current: seq<seq<byte>>)
    requires DecodedPrefix(original, current, |original|)
    ensures IsDeltaDecoding(original, current)
  {
  }

  /**
   * The inner `for pixel_index` loop of `decode_frame_deltas`: adds the
   * rebuilt frame `index - 1` into frame `index`, byte by byte, wrapping.
   */
  method DecodeFrame(frames: array<seq<byte>>, index: nat)
    requires 0 < index < frames.Length && |frames[index]| <= |frames[index - 1]|
    modifies frames
    ensures forall i :: 0 <= i < frames.Length && i != index ==> frames[i] == old(frames[i])
    ensures |frames[index]| == |old(frames[index])|
    ensures forall j :: 0 <= j < |frames[index]| ==>
              frames[index][j] == WrappingAdd(old(frames[index])[j], frames[index - 1][j])
  {
    ghost var delta := frames[index];
    for pixelIndex := 0 to |frames[index]|
      invariant forall i :: 0 <= i < frames.Length && i != index ==> frames[i] == old(frames[i])
      invariant |frames[index]| == |delta|
      invariant forall j :: 0 <= j < pixelIndex ==>
                  frames[index][j] == WrappingAdd(delta[j], frames[index - 1][j])
      invariant forall j :: pixelIndex <= j < |frames[index]| ==> frames[index][j] == delta[j]
    {
      frames[index] := frames[index][pixelIndex := WrappingAdd(frames[index][pixelIndex], frames[index - 1][pixelIndex])];
    }
  }

  /** Frame `i` of the decoding of an encoding is frame `i` of the original video. */
  lemma {:induction false} DecodedFrame(frames: seq<seq<byte>>, encoded: seq<seq<byte>>, decoded: seq<seq<byte>>, i: nat)
    requires IsDeltaEncoding(frames, encoded) && IsDeltaDecoding(encoded, decoded)
    requires i < |frames|
    ensures decoded[i] == frames[i]
    decreases i
  {
    if i > 0 {
      DecodedFrame(frames, encoded, decoded, i - 1);
      forall j | 0 <= j < |frames[i]|
        ensures decoded[i][j] == frames[i][j]
      {
        assert j < |frames[i - 1]|;
        assert encoded[i][j] == WrappingSub(frames[i][j], frames[i - 1][j]);
        assert decoded[i][j] == WrappingAdd(encoded[i][j], decoded[i - 1][j]);
        WrappingAddSub(frames[i][j], frames[i - 1][j]);
      }
      assert |decoded[i]| == |encoded[i]| == |frames[i]|;
    }
  }

  /**
   * Round trip across the two halves: decoding what the encoder produced
   * restores the video exactly, for every byte value.
   */
  lemma DeltaRoundTrip(frames: seq<seq<byte>>, encoded: seq<seq<byte>>, decoded: seq<seq<byte>>)
    requires IsDeltaEncoding(frames, encoded) && IsDeltaDecoding(encoded, decoded)
    ensures decoded == frames
  {
    forall i | 0 <= i < |frames|
      ensures decoded[i] == frames[i]
    {
      DecodedFrame(frames, encoded, decoded, i);
    }
  }

  /** The other direction: encoding a decoded video gives back the deltas. */
  lemma EncodeAfterDecode(encoded: seq<seq<byte>>, decoded: seq<seq<byte>>, reencoded: seq<seq<byte>>)
    requires IsDeltaDecoding(encoded, decoded) && IsDeltaEncoding(decoded, reencoded)
    ensures reencoded == encoded
  {
    forall i | 0 <= i < |encoded|
      ensures reencoded[i] == encoded[i]
    {
      if i > 0 {
        forall j | 0 <= j < |encoded[i]|
          ensures reencoded[i][j] == encoded[i][j]
        {
          WrappingSubAdd(encoded[i][j], decoded[i - 1][j]);
        }
      }
    }
  }

  /** Delta decoding is a function: the decoding of a video is unique. */
  lemma DeltaDecodingUnique(frames: seq<seq<byte>>, a: seq<seq<byte>>, b: seq<seq<byte>>)
    requires IsDeltaDecoding(frames, a) && IsDeltaDecoding(frames, b)
    ensures a == b
  {
    forall i | 0 <= i < |frames|
      ensures a[i] == b[i]
    {
      DecodingsAgree(frames, a, b, i);
    }
  }

  lemma {:induction false} DecodingsAgree(frames: seq<seq<byte>>, a: seq<seq<byte>>, b: seq<seq<byte>>, i: nat)
    requires IsDeltaDecoding(frames, a) && IsDeltaDecoding(frames, b)
    requires i < |frames|
    ensures a[i] == b[i]
    decreases i
  {
    if i > 0 {
      DecodingsAgree(frames, a, b, i - 1);
      forall j | 0 <= j < |frames[i]|
        ensures a[i][j] == b[i][j]
      {
        assert a[i][j] == WrappingAdd(frames[i][j], a[i - 1][j]);
        assert b[i][j] == WrappingAdd(frames[i][j], b[i - 1][j]);
      }
      assert |a[i]| == |b[i]| == |frames[i]|;
    }
  }

  /** The source's unit test: the example deltas decode to the example frames. */
  lemma DecodeCorrectDeltas(decoded: seq<seq<byte>>)
    requires IsDeltaDecoding([[5, 3, 3, 1], [1, 254, 255, 0], [255, 0, 0, 0]], decoded)
    ensures decoded == [[5, 3, 3, 1], [6, 1, 2, 1], [5, 1, 2, 1]]
  {
    var frames: seq<seq<byte>> := [[5, 3, 3, 1], [1, 254, 255, 0], [255, 0, 0, 0]];
    var expected: seq<seq<byte>> := [[5, 3, 3, 1], [6, 1, 2, 1], [5, 1, 2, 1]];
    assert IsDeltaDecoding(frames, expected);
    DeltaDecodingUnique(frames, decoded, expected);
  }

  // ---------------------------------------------------------------------------
  // The decoder entry point
  // ---------------------------------------------------------------------------

  /** For even dimensions a 4:2:0 frame is the luma plane plus two quarter planes. */
  lemma YuvFrameLength(width: nat, height: nat)
    requires width % 2 == 0 && height % 2 == 0
    ensures FrameSize(width, height) == width * height + 2 * (width * height / 4)
  {
    var a, b := width / 2, height / 2;
    var c := a * b;
    assert width * height == (2 * a) * (2 * b) == 4 * c;
    assert width * height * 3 == 12 * c;
  }

  /** A chunking's length: all chunks before the last are full. */
  lemma {:induction false} ChunkingLength(chunks: seq<seq<byte>>, size: nat)
    requires chunks != []
    requires forall i :: 0 <= i < |chunks| - 1 ==> |chunks[i]| == size
    ensures |Flatten(chunks)| == (|chunks| - 1) * size + |chunks[|chunks| - 1]|
    decreases |chunks|
  {
    FlattenFirst(chunks);
    if |chunks| > 1 {
      ChunkingLength(chunks[1..], size);
      assert (|chunks| - 1) * size == (|chunks| - 2) * size + size;
    }
  }

  /** When the data is a whole number of frames, every chunk is a full frame. */
  lemma AllChunksFull(data: seq<byte>, size: nat, chunks: seq<seq<byte>>)
    requires 0 < size && |data| % size == 0
    requires IsChunking(data, size, chunks)
    ensures forall i :: 0 <= i < |chunks| ==> |chunks[i]| == size
  {
    if chunks != [] {
      var last := |chunks| - 1;
      ChunkingLength(chunks, size);
      if |chunks[last]| < size {
        DivModUnique(|data|, size, last, |chunks[last]|);
        assert false;
      }
    }
  }

  /** Full frames concatenate to a whole number of frames. */
  lemma WholeFrames(frames: seq<seq<byte>>, size: nat)
    requires 0 < size
    requires forall i :: 0 <= i < |frames| ==> |frames[i]| == size
    ensures |Flatten(frames)| == |frames| * size && |Flatten(frames)| % size == 0
  {
    if frames != [] {
      ChunkingLength(frames, size);
      assert (|frames| - 1) * size + size == |frames| * size;
    }
    DivModUnique(|Flatten(frames)|, size, |frames|, 0);
  }

  /**
   * The decoder reads the chroma of pixel (j, k) from the slot the encoder's
   * stepped loops wrote for the 2x2 block holding that pixel.
   */
  lemma ChromaLayoutAgrees(width: nat, height: nat, j: nat, k: nat)
    requires width % 2 == 0 && height % 2 == 0
    requires j < height && k < width
    ensures 2 * (j / 2) < height && 2 * (k / 2) < width
    ensures ChromaIndex(width, height, j, k) == SubsampleWriteIndex(width, 2 * (j / 2), 2 * (k / 2))
  {
    SubsampleWriteIndexIsSlot(width, height, 2 * (j / 2), 2 * (k / 2));
  }

  /**
   * `decode_video` up to the file write: decompresses `data` with the opaque
   * `decompress`, splits it into frames, undoes the delta coding in place and
   * overwrites every frame with its RGB rebuild. `chunks` is the split video
   * and `yuv` the delta-decoded video the colour conversion read. The source
   * indexes past the end of a short trailing frame, so the decompressed data
   * must be a whole number of frames.
   */
  method DecodeVideo(data: seq<byte>, width: nat, height: nat, decompress: seq<byte> -> seq<byte>, pixel: (byte, byte, byte) -> Rgb)
    returns (rgb: seq<seq<byte>>, ghost chunks: seq<seq<byte>>, ghost yuv: seq<seq<byte>>)
    requires 0 < width && 0 < height && width % 2 == 0 && height % 2 == 0
    requires |decompress(data)| % FrameSize(width, height) == 0
    ensures IsChunking(decompress(data), FrameSize(width, height), chunks)
    ensures IsDeltaDecoding(chunks, yuv)
    ensures forall i :: 0 <= i < |yuv| ==> |yuv[i]| == FrameSize(width, height)
    ensures |rgb| == |yuv|
    ensures forall i :: 0 <= i < |rgb| ==> |rgb[i]| == width * height * 3
    ensures forall i, j, k :: 0 <= i < |rgb| && 0 <= j < height && 0 <= k < width ==>
              RgbAt(rgb[i], LumaIndex(width, height, j, k)) == PixelAt(yuv[i], width, height, j, k, pixel)
  {
    var decodedData := decompress(data);
    var frames := SplitDataToFrames(decodedData, width, height);
    chunks := frames;
    AllChunksFull(decodedData, FrameSize(width, height), frames);
    ChunkingNonIncreasing(decodedData, FrameSize(width, height), frames);
    var buffer := new seq<byte>[|frames|](i requires 0 <= i < |frames| => frames[i]);
    assert buffer[..] == frames;
    DecodeFrameDeltas(buffer);
    yuv := buffer[..];
    YuvFrameLength(width, height);
    ConvertYuvToRgb(buffer, width, height, pixel);
    rgb := buffer[..];
  }
}
