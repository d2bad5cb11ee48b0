/**
 * The encoder and the decoder chained as `main` chains them: the decoder
 * rebuilds, pixel by pixel, what the lossy colour stages of the encoder kept.
 */
module Pipeline {
  import opened Bytes
  import opened Encoder
  import opened Decoder
  import opened Arith

  /**
   * The rebuild of pixel (j, k) from the 4:2:0 frame of an RGB frame: its own
   * luma sample and the chroma means of the 2x2 block that holds it.
   */
  lemma PixelOfYuvFrame<S>(frame: seq<byte>, width: nat, height: nat, j: nat, k: nat,
                           colour: (byte, byte, byte) -> (byte, S, S), mean: (S, S, S, S) -> byte, pixel: (byte, byte, byte) -> Rgb)
    requires width % 2 == 0 && height % 2 == 0 && |frame| >= 3 * (width * height)
    requires j < height && k < width
    ensures j / 2 < height / 2 && k / 2 < width / 2
    ensures PixelAt(YuvFrame(frame, width, height, colour, mean), width, height, j, k, pixel)
            == pixel(Colour(frame, width, height, LumaIndex(width, height, j, k), colour).0,
                     Block(UPlane(frame, width, height, colour), width, height, j / 2, k / 2, mean),
                     Block(VPlane(frame, width, height, colour), width, height, j / 2, k / 2, mean))
  {
    var yuv := YuvFrame(frame, width, height, colour, mean);
    var planes := Planes(yuv, width, height);
    var wh := width * height;
    var u, v := UPlane(frame, width, height, colour), VPlane(frame, width, height, colour);
    assert planes.0 == yuv[..wh] == LumaPlane(frame, width, height, colour);
    assert planes.1 == yuv[wh..wh + wh / 4] == Subsampled(u, width, height, mean);
    assert planes.2 == yuv[wh + wh / 4..] == Subsampled(v, width, height, mean);
    SlotBlockAt(u, width, height, j / 2, k / 2, mean);
    SlotBlockAt(v, width, height, j / 2, k / 2, mean);
  }

  /**
   * `rgb` holds one RGB frame of `width * height` pixels per input frame, and
   * pixel (j, k) of frame i is the rebuild of that RGB frame's own luma sample
   * and the U and V means of the 2x2 block that holds it.
   */
  ghost predicate RebuildsVideo<S>(frames: seq<seq<byte>>, rgb: seq<seq<byte>>, width: nat, height: nat,
                                   colour: (byte, byte, byte) -> (byte, S, S), mean: (S, S, S, S) -> byte, pixel: (byte, byte, byte) -> Rgb)
    requires width % 2 == 0 && height % 2 == 0
    requires forall i :: 0 <= i < |frames| ==> |frames[i]| >= 3 * (width * height)
  {
    && |rgb| == |frames|
    && (forall i :: 0 <= i < |rgb| ==> |rgb[i]| == width * height * 3)
    && (forall i, j, k :: 0 <= i < |frames| && 0 <= j < height && 0 <= k < width ==>
          RgbAt(rgb[i], LumaIndex(width, height, j, k))
          == pixel(Colour(frames[i], width, height, LumaIndex(width, height, j, k), colour).0,
                   Block(UPlane(frames[i], width, height, colour), width, height, j / 2, k / 2, mean),
                   Block(VPlane(frames[i], width, height, colour), width, height, j / 2, k / 2, mean)))
  }

  /** Rebuilding the 4:2:0 frames of an RGB video rebuilds every pixel from its own luma and its block's chroma. */
  lemma DecodedPixels<S>(frames: seq<seq<byte>>, yuv: seq<seq<byte>>, rgb: seq<seq<byte>>, width: nat, height: nat,
                         colour: (byte, byte, byte) -> (byte, S, S), mean: (S, S, S, S) -> byte, pixel: (byte, byte, byte) -> Rgb)
    requires width % 2 == 0 && height % 2 == 0
    requires forall i :: 0 <= i < |frames| ==> |frames[i]| >= 3 * (width * height)
    requires |yuv| == |frames| && forall i :: 0 <= i < |frames| ==> yuv[i] == YuvFrame(frames[i], width, height, colour, mean)
    requires forall i :: 0 <= i < |yuv| ==> |yuv[i]| == width * height + 2 * (width * height / 4)
    requires |rgb| == |yuv| && forall i :: 0 <= i < |rgb| ==> |rgb[i]| == width * height * 3
    requires forall i, j, k :: 0 <= i < |rgb| && 0 <= j < height && 0 <= k < width ==>
               RgbAt(rgb[i], LumaIndex(width, height, j, k)) == PixelAt(yuv[i], width, height, j, k, pixel)
    ensures RebuildsVideo(frames, rgb, width, height, colour, mean, pixel)
  {
    forall i, j, k | 0 <= i < |frames| && 0 <= j < height && 0 <= k < width
      ensures RgbAt(rgb[i], LumaIndex(width, height, j, k))
              == pixel(Colour(frames[i], width, height, LumaIndex(width, height, j, k), colour).0,
                       Block(UPlane(frames[i], width, height, colour), width, height, j / 2, k / 2, mean),
                       Block(VPlane(frames[i], width, height, colour), width, height, j / 2, k / 2, mean))
    {
      PixelOfYuvFrame(frames[i], width, height, j, k, colour, mean, pixel);
    }
  }

  /**
   * The stages after colour conversion lose nothing: the 4:2:0 frames are
   * delta-coded, concatenated, split back into full frames and delta-decoded,
   * so the decoder's rebuild reads exactly the encoder's 4:2:0 frames.
   */
  lemma EndToEnd<S>(frames: seq<seq<byte>>, yuvFrames: seq<seq<byte>>, deltas: seq<seq<byte>>, chunks: seq<seq<byte>>,
                    yuv: seq<seq<byte>>, rgb: seq<seq<byte>>, width: nat, height: nat,
                    colour: (byte, byte, byte) -> (byte, S, S), mean: (S, S, S, S) -> byte, pixel: (byte, byte, byte) -> Rgb)
    requires 0 < width && 0 < height && width % 2 == 0 && height % 2 == 0
    requires forall i :: 0 <= i < |frames| ==> |frames[i]| >= 3 * (width * height)
    requires |yuvFrames| == |frames| && forall i :: 0 <= i < |frames| ==> yuvFrames[i] == YuvFrame(frames[i], width, height, colour, mean)
    requires IsDeltaEncoding(yuvFrames, deltas)
    requires IsChunking(Flatten(deltas), FrameSize(width, height), chunks)
    requires IsDeltaDecoding(chunks, yuv)
    requires |rgb| == |yuv| && forall i :: 0 <= i < |rgb| ==> |rgb[i]| == width * height * 3
    requires forall i :: 0 <= i < |yuv| ==> |yuv[i]| == FrameSize(width, height)
    requires forall i, j, k :: 0 <= i < |rgb| && 0 <= j < height && 0 <= k < width ==>
               RgbAt(rgb[i], LumaIndex(width, height, j, k)) == PixelAt(yuv[i], width, height, j, k, pixel)
    ensures RebuildsVideo(frames, rgb, width, height, colour, mean, pixel)
  {
    var size := FrameSize(width, height);
    YuvFrameLength(width, height);
    MulAtLeast(width, height);
    assert forall i :: 0 <= i < |deltas| ==> |deltas[i]| == size;
    SplitOfFlatten(deltas, size, chunks);
    DeltaRoundTrip(yuvFrames, deltas, yuv);
    DecodedPixels(frames, yuv, rgb, width, height, colour, mean, pixel);
  }

  /** The delta coding of a video of 4:2:0 frames is a whole number of frames long. */
  lemma WholeDeltaFrames(yuvFrames: seq<seq<byte>>, deltas: seq<seq<byte>>, width: nat, height: nat)
    requires 0 < width && 0 < height && width % 2 == 0 && height % 2 == 0
    requires forall i :: 0 <= i < |yuvFrames| ==> |yuvFrames[i]| == width * height + 2 * (width * height / 4)
    requires IsDeltaEncoding(yuvFrames, deltas)
    ensures 0 < FrameSize(width, height) && |Flatten(deltas)| % FrameSize(width, height) == 0
  {
    var size := FrameSize(width, height);
    YuvFrameLength(width, height);
    MulAtLeast(width, height);
    assert forall i :: 0 <= i < |deltas| ==> |deltas[i]| == size;
    WholeFrames(deltas, size);
  }

  /**
   * `main`'s encode-then-decode run on RGB frames of any even size, given a
   * lossless compressor pair: every decoded pixel is the opaque rebuild of the
   * pixel's own luma and its block's chroma means, so the delta coding, the
   * framing and the compression lose nothing.
   */
  method RoundTrip<S>(frames: seq<seq<byte>>, width: nat, height: nat, colour: (byte, byte, byte) -> (byte, S, S), mean: (S, S, S, S) -> byte,
                      compress: seq<byte> -> seq<byte>, decompress: seq<byte> -> seq<byte>, pixel: (byte, byte, byte) -> Rgb)
    returns (rgb: seq<seq<byte>>)
    requires 0 < width && 0 < height && width % 2 == 0 && height % 2 == 0
    requires forall s :: decompress(compress(s)) == s
    requires forall i :: 0 <= i < |frames| ==> |frames[i]| >= 3 * (width * height)
    ensures RebuildsVideo(frames, rgb, width, height, colour, mean, pixel)
  {
    var video := new seq<byte>[|frames|](i requires 0 <= i < |frames| => frames[i]);
    assert video[..] == frames;
    ghost var deltas;
    var encoded;
    encoded, deltas := EncodeVideo(video, width, height, colour, mean, compress);
    ghost var yuvFrames := video[..];
    WholeDeltaFrames(yuvFrames, deltas, width, height);
    assert decompress(encoded) == Flatten(deltas);
    ghost var chunks, yuv;
    rgb, chunks, yuv := DecodeVideo(encoded, width, height, decompress, pixel);
    EndToEnd(frames, yuvFrames, deltas, chunks, yuv, rgb, width, height, colour, mean, pixel);
  }
}
