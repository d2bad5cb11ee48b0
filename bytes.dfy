/** Bytes, Rust's wrapping u8 arithmetic, and flat streams of frames. */
module Bytes {

  /** An unsigned 8-bit value (Rust's `u8`). */
  type byte = b: int | 0 <= b < 256

  /** `u8::wrapping_sub`: the difference modulo 256, never an overflow error. */
  function WrappingSub(a: byte, b: byte): (r: byte)
    ensures a >= b ==> r == a - b
    ensures a < b ==> r == a - b + 256
  {
    (a - b) % 256
  }

  /** `u8::wrapping_add`: the sum modulo 256, never an overflow error. */
  function WrappingAdd(a: byte, b: byte): (r: byte)
    ensures a + b < 256 ==> r == a + b
    ensures a + b >= 256 ==> r == a + b - 256
  {
    (a + b) % 256
  }

  /** Adding back what was subtracted restores the byte, at the 0/255 boundary too. */
  lemma WrappingAddSub(a: byte, b: byte)
    ensures WrappingAdd(WrappingSub(a, b), b) == a
  {
  }

  /** Subtracting what was added restores the byte. */
  lemma WrappingSubAdd(a: byte, b: byte)
    ensures WrappingSub(WrappingAdd(a, b), b) == a
  {
  }

  /** The frames' bytes one after another, in frame order, with no separators. */
  function Flatten(frames: seq<seq<byte>>): seq<byte>
  {
    if frames == [] then [] else frames[0] + Flatten(frames[1..])
  }

  /** Pushing a frame at the end of a video appends its bytes to the stream. */
  lemma {:induction false} FlattenAppend(frames: seq<seq<byte>>, frame: seq<byte>)
    ensures Flatten(frames + [frame]) == Flatten(frames) + frame
  {
    if frames == [] {
      assert [] + [frame] == [frame];
    } else {
      assert (frames + [frame])[1..] == frames[1..] + [frame];
      FlattenAppend(frames[1..], frame);
    }
  }
}
