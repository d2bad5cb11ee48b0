/**
 * The encoder half of the codec (src/encoder/mod.rs): temporal delta coding,
 * the demonstration run-length stage, the size accumulator, and the index
 * arithmetic of 4:2:0 chroma subsampling.
 */
module Encoder {
  import opened Bytes
  import opened Arith

  // ---------------------------------------------------------------------------
  // Temporal delta coding
  // ---------------------------------------------------------------------------

  /**
   * Every frame after the first is no longer than its predecessor, so that
   * reading the predecessor at each index of a frame stays in bounds.
   */
  ghost predicate NonIncreasingLengths(frames: seq<seq<byte>>)
  {
    forall i :: 0 < i < |frames| ==> |frames[i]| <= |frames[i - 1]|
  }

  /**
   * `encoded` is the delta coding of `frames`: same shape, frame 0 copied,
   * every later byte the wrapping difference against the ORIGINAL previous frame.
   */
  ghost predicate IsDeltaEncoding(frames: seq<seq<byte>>, encoded: seq<seq<byte>>)
  {
    && NonIncreasingLengths(frames)
    && |encoded| == |frames|
    && (forall i :: 0 <= i < |frames| ==> |encoded[i]| == |frames[i]|)
    && (|frames| > 0 ==> encoded[0] == frames[0])
    && (forall i, j :: 0 < i < |frames| && 0 <= j < |frames[i]| ==>
          encoded[i][j] == WrappingSub(frames[i][j], frames[i - 1][j]))
  }

  /** `calculate_pixel_deltas`: builds the delta-coded video frame by frame. */
  method CalculatePixelDeltas(frames: seq<seq<byte>>) returns (encoded: seq<seq<byte>>)
    requires NonIncreasingLengths(frames)
    ensures IsDeltaEncoding(frames, encoded)
  {
    encoded := [];
    for index := 0 to |frames|
      invariant |encoded| == index
      invariant forall i :: 0 <= i < index ==> |encoded[i]| == |frames[i]|
      invariant index > 0 ==> encoded[0] == frames[0]
      invariant forall i, j :: 0 < i < index && 0 <= j < |frames[i]| ==>
                  encoded[i][j] == WrappingSub(frames[i][j], frames[i - 1][j])
    {
      var frame := frames[index];
      if index == 0 {
        encoded := encoded + [frame];
        continue;
      }
      var deltas: seq<byte> := [];
      for deltaIndex := 0 to |frame|
        invariant |deltas| == deltaIndex
        invariant forall j :: 0 <= j < deltaIndex ==>
                    deltas[j] == WrappingSub(frame[j], frames[index - 1][j])
      {
        deltas := deltas + [WrappingSub(frame[deltaIndex], frames[index - 1][deltaIndex])];
      }
      encoded := encoded + [deltas];
    }
  }

  /** Delta coding is a function: the encoding of a video is unique. */
  lemma DeltaEncodingUnique(frames: seq<seq<byte>>, a: seq<seq<byte>>, b: seq<seq<byte>>)
    requires IsDeltaEncoding(frames, a) && IsDeltaEncoding(frames, b)
    ensures a == b
  {
    forall i | 0 <= i < |frames|
      ensures a[i] == b[i]
    {
      if i == 0 {
      } else {
        assert forall j :: 0 <= j < |frames[i]| ==> a[i][j] == b[i][j];
      }
    }
  }

  /** The source's unit test: the three-frame example and its expected deltas. */
  lemma CalculateCorrectDeltas(encoded: seq<seq<byte>>)
    requires IsDeltaEncoding([[5, 3, 3, 1], [6, 1, 2, 1], [5, 1, 2, 1]], encoded)
    ensures encoded == [[5, 3, 3, 1], [1, 254, 255, 0], [255, 0, 0, 0]]
  {
    var frames: seq<seq<byte>> := [[5, 3, 3, 1], [6, 1, 2, 1], [5, 1, 2, 1]];
    var expected: seq<seq<byte>> := [[5, 3, 3, 1], [1, 254, 255, 0], [255, 0, 0, 0]];
    assert IsDeltaEncoding(frames, expected);
    DeltaEncodingUnique(frames, encoded, expected);
  }


  // ---------------------------------------------------------------------------
  // Run-length stage (demonstration only)
  // ---------------------------------------------------------------------------

  /** The largest count one pair can carry (`u8::MAX`). */
  const MaxCount: byte := 255

  /** Length of the maximal block of copies of `s[0]` at the front of `s`. */
  function RunLength(s: seq<byte>): (n: nat)
    requires s != []
    ensures 1 <= n <= |s|
    decreases |s|
  {
    if |s| == 1 || s[1] != s[0] then 1 else 1 + RunLength(s[1..])
  }

  /** The leading block is all copies of `s[0]` and is followed by a different byte or by the end. */
  lemma {:induction false} RunLengthMaximal(s: seq<byte>)
    requires s != []
    ensures forall k :: 0 <= k < RunLength(s) ==> s[k] == s[0]
    ensures RunLength(s) == |s| || s[RunLength(s)] != s[0]
    decreases |s|
  {
    if |s| > 1 && s[1] == s[0] {
      RunLengthMaximal(s[1..]);
    }
  }

  /** The count of the first pair: the leading run, cut at 255. */
  function ChunkLength(s: seq<byte>): byte
    requires s != []
  {
    if RunLength(s) < MaxCount then RunLength(s) else MaxCount
  }

  /**
   * Reference run-length coding as a flat `count, value, count, value, ...`
   * sequence: each maximal run is emitted as pairs of 255 until fewer remain.
   */
  function Runs(s: seq<byte>): seq<byte>
    decreases |s|
  {
    if s == [] then [] else
    var n := ChunkLength(s);
    [n, s[0]] + Runs(s[n..])
  }

  /** The count of the `p`-th pair of a flat pair sequence. */
  function Count(rle: seq<byte>, p: nat): byte
    requires p < |rle| / 2
  {
    rle[2 * p]
  }

  /** The value of the `p`-th pair of a flat pair sequence. */
  function Value(rle: seq<byte>, p: nat): byte
    requires p < |rle| / 2
  {
    rle[2 * p + 1]
  }

  /** The bytes a pair sequence stands for: each pair becomes `count` copies of `value`. */
  function Expand(rle: seq<byte>): seq<byte>
  {
    if |rle| < 2 then [] else seq(rle[0], _ => rle[1]) + Expand(rle[2..])
  }

  /** The sum of the counts of a pair sequence. */
  function CountSum(rle: seq<byte>): nat
  {
    if |rle| < 2 then 0 else rle[0] + CountSum(rle[2..])
  }

  /** A well-formed run-length buffer: whole pairs, every count in 1..255. */
  ghost predicate WellFormedRuns(rle: seq<byte>)
  {
    |rle| % 2 == 0 && forall p :: 0 <= p < |rle| / 2 ==> 1 <= Count(rle, p)
  }

  /** Two neighbouring pairs carry the same value only when the first was cut at 255. */
  ghost predicate MaximalRuns(rle: seq<byte>)
  {
    forall p :: 0 <= p < |rle| / 2 - 1 && Value(rle, p) == Value(rle, p + 1) ==> Count(rle, p) == MaxCount
  }

  /** What the run-length stage promises about the buffer it emits for `frame`. */
  ghost predicate IsRunEncoding(frame: seq<byte>, rle: seq<byte>)
  {
    WellFormedRuns(rle) && MaximalRuns(rle) && Expand(rle) == frame
  }

  /** The first pair of the reference coding carries `n` exactly when the block it covers ends there. */
  lemma RunsStep(s: seq<byte>, n: nat)
    requires 1 <= n <= |s| && n <= MaxCount
    requires forall k :: 0 <= k < n ==> s[k] == s[0]
    requires n == MaxCount || n == |s| || s[n] != s[0]
    ensures ChunkLength(s) == n
    ensures Runs(s) == [n, s[0]] + Runs(s[n..])
  {
    RunLengthMaximal(s);
  }

  /** Expanding a leading pair contributes its copies before the rest. */
  lemma ExpandCons(n: byte, v: byte, rest: seq<byte>)
    ensures Expand([n, v] + rest) == seq(n, _ => v) + Expand(rest)
  {
    var rle := [n, v] + rest;
    assert rle[0] == n && rle[1] == v && rle[2..] == rest;
  }

  /** Dropping the first pair shifts the pair positions by one. */
  lemma PairsShift(rle: seq<byte>, p: nat)
    requires 2 <= |rle| && p < |rle[2..]| / 2
    ensures p + 1 < |rle| / 2
    ensures Count(rle[2..], p) == Count(rle, p + 1) && Value(rle[2..], p) == Value(rle, p + 1)
  {
  }

  /** The reference coding has whole pairs and every count in 1..255. */
  lemma {:induction false} RunsWellFormed(s: seq<byte>)
    ensures WellFormedRuns(Runs(s))
    decreases |s|
  {
    if s != [] {
      var n := ChunkLength(s);
      var rest := Runs(s[n..]);
      RunsWellFormed(s[n..]);
      assert Runs(s) == [n, s[0]] + rest;
      forall p | 0 <= p < |Runs(s)| / 2
        ensures 1 <= Count(Runs(s), p)
      {
        if p > 0 {
          PairsShift(Runs(s), p - 1);
          assert Runs(s)[2..] == rest;
        }
      }
    }
  }

  /** Expanding the reference coding gives back the frame: no byte skipped or counted twice. */
  lemma {:induction false} ExpandRuns(s: seq<byte>)
    ensures Expand(Runs(s)) == s
    decreases |s|
  {
    if s != [] {
      var n := ChunkLength(s);
      ExpandRuns(s[n..]);
      ExpandCons(n, s[0], Runs(s[n..]));
      LeadingCopies(s, n);
    }
  }

  /** A frame whose first `n` bytes are copies of `s[0]` is those copies followed by the rest. */
  lemma LeadingCopies(s: seq<byte>, n: nat)
    requires 1 <= n <= |s| && n <= RunLength(s)
    ensures s == seq(n, _ => s[0]) + s[n..]
  {
    RunLengthMaximal(s);
    var copies := seq(n, _ => s[0]);
    forall k | 0 <= k < |s|
      ensures (copies + s[n..])[k] == s[k]
    {
      if k < n {
        assert copies[k] == s[0];
      }
    }
  }

  /** The first value of a non-empty coding is the frame's first byte. */
  lemma RunsHead(s: seq<byte>)
    requires s != []
    ensures |Runs(s)| >= 2 && Runs(s)[0] == ChunkLength(s) && Runs(s)[1] == s[0]
  {
  }

  /** In the reference coding, equal neighbouring values only follow a forced split at 255. */
  lemma {:induction false} RunsMaximal(s: seq<byte>)
    ensures MaximalRuns(Runs(s))
    decreases |s|
  {
    if s != [] {
      var n := ChunkLength(s);
      var rest := Runs(s[n..]);
      RunsMaximal(s[n..]);
      assert Runs(s) == [n, s[0]] + rest;
      assert Runs(s)[2..] == rest;
      assert n == MaxCount || n == RunLength(s);
      RunLengthMaximal(s);
      forall p | 0 <= p < |Runs(s)| / 2 - 1 && Value(Runs(s), p) == Value(Runs(s), p + 1)
        ensures Count(Runs(s), p) == MaxCount
      {
        if p == 0 {
          RunsHead(s[n..]);
          assert Value(Runs(s), 1) == s[n];
        } else {
          PairsShift(Runs(s), p - 1);
          PairsShift(Runs(s), p);
        }
      }
    }
  }

  /** The reference coding meets every promise of the run-length stage. */
  lemma RunsIsRunEncoding(s: seq<byte>)
    ensures IsRunEncoding(s, Runs(s))
  {
    RunsWellFormed(s);
    RunsMaximal(s);
    ExpandRuns(s);
  }

  /** Expansion produces as many bytes as the counts add up to. */
  lemma {:induction false} ExpandLength(rle: seq<byte>)
    ensures |Expand(rle)| == CountSum(rle)
    decreases |rle|
  {
    if |rle| >= 2 {
      ExpandLength(rle[2..]);
    }
  }

  /** The counts of the reference coding add up to the frame length. */
  lemma RunsCountSum(s: seq<byte>)
    ensures CountSum(Runs(s)) == |s|
  {
    ExpandRuns(s);
    ExpandLength(Runs(s));
  }

  /**
   * The three promises pin the buffer down: any well-formed, maximal pair
   * sequence that expands to `s` is the reference coding of `s`.
   */
  lemma {:induction false} RunEncodingUnique(s: seq<byte>, rle: seq<byte>)
    requires IsRunEncoding(s, rle)
    ensures rle == Runs(s)
    decreases |s|
  {
    if |rle| < 2 {
      assert rle == [];
    } else {
      var n, v := rle[0], rle[1];
      var tail := rle[2..];
      assert Count(rle, 0) == n;
      ExpandCons(n, v, tail);
      assert rle == [n, v] + tail;
      assert s == seq(n, _ => v) + Expand(tail);
      assert s[0] == v;
      assert forall k :: 0 <= k < n ==> s[k] == s[0];
      assert s[n..] == Expand(tail);
      forall p | 0 <= p < |tail| / 2
        ensures 1 <= Count(tail, p)
      {
        PairsShift(rle, p);
      }
      forall p | 0 <= p < |tail| / 2 - 1 && Value(tail, p) == Value(tail, p + 1)
        ensures Count(tail, p) == MaxCount
      {
        PairsShift(rle, p);
        PairsShift(rle, p + 1);
      }
      assert IsRunEncoding(s[n..], tail);
      if n < MaxCount && n < |s| {
        // the next pair starts at s[n]; maximality forbids it to repeat v
        assert |tail| >= 2;
        assert Count(tail, 0) >= 1;
        ExpandCons(tail[0], tail[1], tail[2..]);
        assert tail == [tail[0], tail[1]] + tail[2..];
        assert Expand(tail)[0] == tail[1];
        assert Value(rle, 1) == tail[1];
        assert s[n] != s[0];
      }
      RunsStep(s, n);
      RunEncodingUnique(s[n..], tail);
      assert rle == [n, v] + tail;
    }
  }

  /** `[7, 7, 7, 7, 9]` codes as `(4, 7), (1, 9)`. */
  lemma RunsExample()
    ensures Runs([7, 7, 7, 7, 9]) == [4, 7, 1, 9]
  {
    var s: seq<byte> := [7, 7, 7, 7, 9];
    RunsStep(s, 4);
    assert s[4..] == [9];
    RunsStep([9], 1);
    assert [9][1..] == [];
  }

  /** `n` copies of one value. */
  function Repeat(v: byte, n: nat): (r: seq<byte>)
    ensures |r| == n && forall k :: 0 <= k < n ==> r[k] == v
  {
    seq(n, _ => v)
  }

  /** 300 copies of 3 code as `(255, 3), (45, 3)`. */
  lemma RunsLongExample()
    ensures Runs(Repeat(3, 300)) == [255, 3, 45, 3]
  {
    var s := Repeat(3, 300);
    RunsStep(s, 255);
    assert s[255..] == Repeat(3, 45);
    RunsStep(Repeat(3, 45), 45);
    assert Repeat(3, 45)[45..] == [];
  }

  /** Length of the block of copies of `frame[i]` that starts at `i`: `RunLength` read in place. */
  function RunLengthAt(frame: seq<byte>, i: nat): (n: nat)
    requires i < |frame|
    ensures 1 <= n <= |frame| - i
    decreases |frame| - i
  {
    if i + 1 == |frame| || frame[i + 1] != frame[i] then 1 else 1 + RunLengthAt(frame, i + 1)
  }

  /** The count of the pair that starts at `i`: the block there, cut at 255. */
  function ChunkAt(frame: seq<byte>, i: nat): (n: byte)
    requires i < |frame|
    ensures 1 <= n && i + n <= |frame|
  {
    if RunLengthAt(frame, i) < MaxCount then RunLengthAt(frame, i) else MaxCount
  }

  /** The reference coding of `frame[i..]`, read in place: `Runs` without slicing. */
  function RunsFrom(frame: seq<byte>, i: nat): seq<byte>
    requires i <= |frame|
    decreases |frame| - i
  {
    if i == |frame| then [] else [ChunkAt(frame, i), frame[i]] + RunsFrom(frame, i + ChunkAt(frame, i))
  }

  /** The in-place run length is the run length of the suffix. */
  lemma {:induction false} RunLengthAtSuffix(frame: seq<byte>, i: nat)
    requires i < |frame|
    ensures RunLengthAt(frame, i) == RunLength(frame[i..])
    decreases |frame| - i
  {
    if i + 1 < |frame| && frame[i + 1] == frame[i] {
      RunLengthAtSuffix(frame, i + 1);
      assert frame[i..][1..] == frame[i + 1..];
    }
  }

  /** The in-place count is the count of the suffix. */
  lemma ChunkAtSuffix(frame: seq<byte>, i: nat)
    requires i < |frame|
    ensures ChunkAt(frame, i) == ChunkLength(frame[i..])
  {
    RunLengthAtSuffix(frame, i);
  }

  /** Dropping `n` more bytes from a suffix is a later suffix. */
  lemma DropSuffix(frame: seq<byte>, i: nat, n: nat)
    requires i + n <= |frame|
    ensures frame[i..][n..] == frame[i + n..]
  {
  }

  /** One pair off the front of the reference coding. */
  lemma RunsUnfold(s: seq<byte>)
    requires s != []
    ensures Runs(s) == [ChunkLength(s), s[0]] + Runs(s[ChunkLength(s)..])
  {
  }

  /** If the coding after the first pair agrees with the suffix coding there, so does the whole. */
  lemma SuffixStep(frame: seq<byte>, i: nat)
    requires i < |frame|
    requires RunsFrom(frame, i + ChunkAt(frame, i)) == Runs(frame[i + ChunkAt(frame, i)..])
    ensures RunsFrom(frame, i) == Runs(frame[i..])
  {
    var suffix, n := frame[i..], ChunkAt(frame, i);
    ChunkAtSuffix(frame, i);
    DropSuffix(frame, i, n);
    RunsUnfold(suffix);
    RunsFromUnfold(frame, i);
  }

  /** One pair off the front of the in-place coding. */
  lemma RunsFromUnfold(frame: seq<byte>, i: nat)
    requires i < |frame|
    ensures RunsFrom(frame, i) == [ChunkAt(frame, i), frame[i]] + RunsFrom(frame, i + ChunkAt(frame, i))
  {
  }

  /** The in-place coding is the coding of the suffix. */
  lemma {:induction false} RunsFromSuffix(frame: seq<byte>, i: nat)
    requires i <= |frame|
    ensures RunsFrom(frame, i) == Runs(frame[i..])
    decreases |frame| - i
  {
    if i < |frame| {
      RunsFromSuffix(frame, i + ChunkAt(frame, i));
      SuffixStep(frame, i);
    } else {
      assert frame[i..] == [];
    }
  }

  /** The block at `i` is all copies of `frame[i]` and ends at a different byte or at the end. */
  lemma {:induction false} RunLengthAtMaximal(frame: seq<byte>, i: nat)
    requires i < |frame|
    ensures forall k :: i <= k < i + RunLengthAt(frame, i) ==> frame[k] == frame[i]
    ensures i + RunLengthAt(frame, i) == |frame| || frame[i + RunLengthAt(frame, i)] != frame[i]
    decreases |frame| - i
  {
    if i + 1 < |frame| && frame[i + 1] == frame[i] {
      RunLengthAtMaximal(frame, i + 1);
    }
  }

  /** A block of `n` copies at `i` that is full or ends there is emitted as the pair `[n, frame[i]]`. */
  lemma StepFrom(frame: seq<byte>, i: nat, n: byte)
    requires i + n <= |frame| && 1 <= n <= MaxCount
    requires forall k :: i <= k < i + n ==> frame[k] == frame[i]
    requires n == MaxCount || i + n == |frame| || frame[i + n] != frame[i]
    ensures RunsFrom(frame, i) == [n, frame[i]] + RunsFrom(frame, i + n)
  {
    ChunkAtIs(frame, i, n);
  }

  /** The pair at `i` counts exactly a block of `n` copies that is full or ends there. */
  lemma ChunkAtIs(frame: seq<byte>, i: nat, n: byte)
    requires i + n <= |frame| && 1 <= n
    requires forall k :: i <= k < i + n ==> frame[k] == frame[i]
    requires n == MaxCount || i + n == |frame| || frame[i + n] != frame[i]
    ensures ChunkAt(frame, i) == n
  {
    var length := RunLengthAt(frame, i);
    RunLengthAtMaximal(frame, i);
    if length < n {
      assert false;
    }
    if n < MaxCount && length > n {
      assert false;
    }
  }

  /**
   * Emitting the pair for the block of `n` at `index` keeps the buffer and the
   * reference coding in step: what was owed from `index` is that pair, then
   * what is owed from `index + n`.
   */
  lemma EmitPair(frame: seq<byte>, whole: seq<byte>, before: seq<byte>, index: nat, n: byte)
    requires index + n <= |frame| && 1 <= n
    requires forall k :: index <= k < index + n ==> frame[k] == frame[index]
    requires n == MaxCount || index + n == |frame| || frame[index + n] != frame[index]
    requires before + RunsFrom(frame, index) == whole
    ensures (before + [n, frame[index]]) + RunsFrom(frame, index + n) == whole
  {
    StepFrom(frame, index, n);
    AppendAssociative(before, [n, frame[index]], RunsFrom(frame, index + n));
  }

  /** Concatenation is associative. */
  lemma AppendAssociative(a: seq<byte>, b: seq<byte>, c: seq<byte>)
    ensures a + (b + c) == (a + b) + c
  {
  }

  /**
   * The inner `for count_index` loop of `create_run_length_encoding`: its range
   * is fixed to `start..|frame| - 1` when it begins, while `index` and the
   * buffer advance by 255 at every forced flush inside it. It stops at the end
   * of the block of copies of `frame[start]`.
   */
  method CountRun(frame: seq<byte>, start: nat, done: seq<byte>) returns (index: nat, count: byte, frameRle: seq<byte>)
    requires start < |frame|
    ensures start <= index && index + count <= |frame| && 1 <= count
    ensures forall k :: start <= k < index + count ==> frame[k] == frame[start]
    ensures index + count == |frame| || frame[index + count] != frame[start]
    ensures frameRle + RunsFrom(frame, index) == done + RunsFrom(frame, start)
  {
    frameRle := done;
    index := start;
    var currentElement := frame[index];
    count := 1;
    for countIndex := index to |frame| - 1
      invariant start <= index <= countIndex
      invariant 1 <= count <= MaxCount
      invariant index + count == countIndex + 1
      invariant forall k :: start <= k <= countIndex ==> frame[k] == currentElement
      invariant frameRle + RunsFrom(frame, index) == done + RunsFrom(frame, start)
    {
      if frame[countIndex + 1] == currentElement {
        // a u8 count can go no further: flush a full pair and keep counting
        if count == MaxCount {
          EmitPair(frame, done + RunsFrom(frame, start), frameRle, index, count);
          frameRle := frameRle + [count, currentElement];
          index := index + count as nat;
          count := 0;
        }
        count := count + 1;
      } else {
        break;
      }
    }
  }

  /**
   * One frame of `create_run_length_encoding`: the `while` over `index` that
   * emits the pair left open by each counting loop.
   */
  method RunLengthEncodeFrame(frame: seq<byte>) returns (frameRle: seq<byte>)
    ensures frameRle == Runs(frame)
  {
    frameRle := [];
    var index := 0;
    while index < |frame|
      invariant index <= |frame|
      invariant frameRle + RunsFrom(frame, index) == RunsFrom(frame, 0)
      decreases |frame| - index
    {
      var currentElement := frame[index];
      var count: byte;
      index, count, frameRle := CountRun(frame, index, frameRle);
      EmitPair(frame, RunsFrom(frame, 0), frameRle, index, count);
      frameRle := frameRle + [count, currentElement];
      index := index + count;
    }
    RunsFromSuffix(frame, 0);
    assert frame[0..] == frame;
  }

  /** `create_run_length_encoding`: one run-length buffer per frame, in frame order. */
  method CreateRunLengthEncoding(frames: seq<seq<byte>>) returns (rle: seq<seq<byte>>)
    ensures |rle| == |frames|
    ensures forall i :: 0 <= i < |frames| ==> rle[i] == Runs(frames[i]) && IsRunEncoding(frames[i], rle[i])
  {
    rle := [];
    for index := 0 to |frames|
      invariant |rle| == index
      invariant forall i :: 0 <= i < index ==> rle[i] == Runs(frames[i]) && IsRunEncoding(frames[i], rle[i])
    {
      var frameRle := RunLengthEncodeFrame(frames[index]);
      RunsIsRunEncoding(frames[index]);
      rle := rle + [frameRle];
    }
  }


  // ---------------------------------------------------------------------------
  // 4:2:0 chroma subsampling: index geometry only
  // ---------------------------------------------------------------------------

  /** Row-major position of sample `(r, c)` of the quarter-resolution plane of a `width` x `height` frame. */
  function Slot(width: nat, height: nat, r: nat, c: nat): (k: nat)
    requires width % 2 == 0 && height % 2 == 0
    requires r < height / 2 && c < width / 2
    ensures k < width * height / 4
  {
    RowMajorBound(r, c, height / 2, width / 2);
    QuarterPlaneSize(width, height);
    r * (width / 2) + c
  }

  /** The write index of `chroma_subsampling_420`, in the source's own operator order. */
  function SubsampleWriteIndex(width: nat, x: nat, y: nat): nat
  {
    x / 2 * width / 2 + y / 2
  }

  /**
   * For even dimensions the four reads of the 2x2 block whose top-left sample
   * is at row `x`, column `y` (both even) stay below `width * height`.
   */
  lemma SubsampleReadsInBounds(width: nat, height: nat, x: nat, y: nat)
    requires width % 2 == 0 && height % 2 == 0
    requires x % 2 == 0 && x < height && y % 2 == 0 && y < width
    ensures x * width + y < x * width + y + 1 < (x + 1) * width + y < (x + 1) * width + y + 1 < width * height
  {
    assert (x + 1) * width == x * width + width;
    RowMajorBound(x + 1, y + 1, height, width);
    assert height * width == width * height;
  }

  /** The quarter-resolution plane has `(width / 2) * (height / 2)` samples. */
  lemma QuarterPlaneSize(width: nat, height: nat)
    requires width % 2 == 0 && height % 2 == 0
    ensures width * height / 4 == (height / 2) * (width / 2)
  {
    var hw, hh := width / 2, height / 2;
    assert width * height == 4 * (hh * hw);
  }

  /**
   * For even width the write index is the row-major slot `(x / 2, y / 2)` of
   * the half-size plane, and it stays below `width * height / 4`.
   */
  lemma SubsampleWriteIndexIsSlot(width: nat, height: nat, x: nat, y: nat)
    requires width % 2 == 0 && height % 2 == 0
    requires x < height && y < width
    ensures SubsampleWriteIndex(width, x, y) == (x / 2) * (width / 2) + y / 2 == Slot(width, height, x / 2, y / 2)
    ensures SubsampleWriteIndex(width, x, y) < width * height / 4
  {
    var r, hw := x / 2, width / 2;
    assert r * width == 2 * (r * hw);
    assert r * width / 2 == r * hw;
    RowMajorBound(r, y / 2, height / 2, hw);
    QuarterPlaneSize(width, height);
  }

  /** No two blocks of the stepped loops write the same slot. */
  lemma SubsampleWritesDistinct(width: nat, height: nat, x1: nat, y1: nat, x2: nat, y2: nat)
    requires width % 2 == 0 && height % 2 == 0
    requires x1 % 2 == 0 && x1 < height && y1 % 2 == 0 && y1 < width
    requires x2 % 2 == 0 && x2 < height && y2 % 2 == 0 && y2 < width
    requires SubsampleWriteIndex(width, x1, y1) == SubsampleWriteIndex(width, x2, y2)
    ensures x1 == x2 && y1 == y2
  {
    var hw := width / 2;
    var slot := SubsampleWriteIndex(width, x1, y1);
    SubsampleWriteIndexIsSlot(width, height, x1, y1);
    SubsampleWriteIndexIsSlot(width, height, x2, y2);
    DivModUnique(slot, hw, x1 / 2, y1 / 2);
    DivModUnique(slot, hw, x2 / 2, y2 / 2);
  }

  /** Every slot of the quarter-resolution plane is written by some block of the stepped loops. */
  lemma SubsampleWritesCover(width: nat, height: nat, slot: nat)
    requires width % 2 == 0 && height % 2 == 0
    requires slot < width * height / 4
    ensures width > 0
    ensures 2 * (slot / (width / 2)) < height && 2 * (slot % (width / 2)) < width
    ensures SubsampleWriteIndex(width, 2 * (slot / (width / 2)), 2 * (slot % (width / 2))) == slot
  {
    QuarterPlaneSize(width, height);
    var hw, hh := width / 2, height / 2;
    assert hw > 0;
    var r, c := slot / hw, slot % hw;
    assert slot == r * hw + c;
    if r >= hh {
      MulMonotone(hh, r, hw);
    }
    SubsampleWriteIndexIsSlot(width, height, 2 * r, 2 * c);
  }

  /**
   * The subsampled chroma value of block `(r, c)`: the opaque mean of its four
   * samples, row `2r` then row `2r + 1`, left then right.
   */
  function Block<S>(plane: seq<S>, width: nat, height: nat, r: nat, c: nat, mean: (S, S, S, S) -> byte): byte
    requires width % 2 == 0 && height % 2 == 0 && |plane| >= width * height
    requires r < height / 2 && c < width / 2
  {
    var x, y := 2 * r, 2 * c;
    SubsampleReadsInBounds(width, height, x, y);
    mean(plane[x * width + y], plane[x * width + y + 1], plane[(x + 1) * width + y], plane[(x + 1) * width + y + 1])
  }

  /** The subsampled value that belongs in slot `slot` of the row-major quarter-resolution plane. */
  function SlotBlock<S>(plane: seq<S>, width: nat, height: nat, slot: nat, mean: (S, S, S, S) -> byte): byte
    requires width % 2 == 0 && height % 2 == 0 && |plane| >= width * height
    requires slot < width * height / 4
  {
    SubsampleWritesCover(width, height, slot);
    Block(plane, width, height, slot / (width / 2), slot % (width / 2), mean)
  }

  /** Slot `Slot(r, c)` holds the value of block `(r, c)`. */
  lemma SlotBlockAt<S>(plane: seq<S>, width: nat, height: nat, r: nat, c: nat, mean: (S, S, S, S) -> byte)
    requires width % 2 == 0 && height % 2 == 0 && |plane| >= width * height
    requires r < height / 2 && c < width / 2
    ensures SlotBlock(plane, width, height, Slot(width, height, r, c), mean) == Block(plane, width, height, r, c, mean)
  {
    DivModUnique(Slot(width, height, r, c), width / 2, r, c);
  }

  /** The first `n` slots of `out` hold the subsampled values of the first `n` blocks of `plane`. */
  ghost predicate SubsampledPrefix<S>(out: seq<byte>, plane: seq<S>, width: nat, height: nat, n: nat, mean: (S, S, S, S) -> byte)
    requires width % 2 == 0 && height % 2 == 0 && |plane| >= width * height
  {
    && |out| == width * height / 4 && n <= width * height / 4
    && forall slot :: 0 <= slot < n ==> out[slot] == SlotBlock(plane, width, height, slot, mean)
  }

  /** Writing block (x, y)'s mean at its write index, the next slot in row-major order, extends the prefix. */
  lemma WriteSlot<S>(out: seq<byte>, plane: seq<S>, width: nat, height: nat, x: nat, y: nat, mean: (S, S, S, S) -> byte)
    requires width % 2 == 0 && height % 2 == 0 && |plane| >= width * height
    requires x % 2 == 0 && x < height && y % 2 == 0 && y < width
    requires SubsampledPrefix(out, plane, width, height, SubsampleWriteIndex(width, x, y), mean)
    ensures SubsampleWriteIndex(width, x, y) < |out|
    ensures SubsampledPrefix(out[SubsampleWriteIndex(width, x, y) := Block(plane, width, height, x / 2, y / 2, mean)],
                             plane, width, height, SubsampleWriteIndex(width, x, y) + 1, mean)
  {
    SubsampleWriteIndexIsSlot(width, height, x, y);
    SlotBlockAt(plane, width, height, x / 2, y / 2, mean);
  }

  /** The averaged sample of the 2x2 block whose top-left corner is (x, y): the four reads and the opaque mean. */
  method SampleBlock<S>(plane: seq<S>, width: nat, height: nat, x: nat, y: nat, mean: (S, S, S, S) -> byte) returns (sampled: byte)
    requires width % 2 == 0 && height % 2 == 0 && |plane| >= width * height
    requires x % 2 == 0 && x < height && y % 2 == 0 && y < width
    ensures sampled == Block(plane, width, height, x / 2, y / 2, mean)
  {
    SubsampleReadsInBounds(width, height, x, y);
    sampled := mean(plane[x * width + y], plane[x * width + y + 1], plane[(x + 1) * width + y], plane[(x + 1) * width + y + 1]);
  }

  /** One row of 2x2 blocks, rows `x` and `x + 1` of the planes, of `chroma_subsampling_420`. */
  method SubsampleRow<S>(width: nat, height: nat, x: nat, u: seq<S>, v: seq<S>, mean: (S, S, S, S) -> byte,
                         uDownsampled: array<byte>, vDownsampled: array<byte>)
    requires width % 2 == 0 && height % 2 == 0
    requires |u| >= width * height && |v| >= width * height
    requires x % 2 == 0 && x < height
    requires uDownsampled != vDownsampled
    requires SubsampledPrefix(uDownsampled[..], u, width, height, (x / 2) * (width / 2), mean)
    requires SubsampledPrefix(vDownsampled[..], v, width, height, (x / 2) * (width / 2), mean)
    modifies uDownsampled, vDownsampled
    ensures SubsampledPrefix(uDownsampled[..], u, width, height, (x / 2 + 1) * (width / 2), mean)
    ensures SubsampledPrefix(vDownsampled[..], v, width, height, (x / 2 + 1) * (width / 2), mean)
  {
    var y := 0;
    while y < width
      invariant y % 2 == 0 && y <= width
      invariant SubsampledPrefix(uDownsampled[..], u, width, height, (x / 2) * (width / 2) + y / 2, mean)
      invariant SubsampledPrefix(vDownsampled[..], v, width, height, (x / 2) * (width / 2) + y / 2, mean)
    {
      var sampledU := SampleBlock(u, width, height, x, y, mean);
      var sampledV := SampleBlock(v, width, height, x, y, mean);
      var slot := SubsampleWriteIndex(width, x, y);
      SubsampleWriteIndexIsSlot(width, height, x, y);
      WriteSlot(uDownsampled[..], u, width, height, x, y, mean);
      WriteSlot(vDownsampled[..], v, width, height, x, y, mean);
      ghost var uBefore, vBefore := uDownsampled[..], vDownsampled[..];
      uDownsampled[slot] := sampledU;
      assert uDownsampled[..] == uBefore[slot := sampledU];
      vDownsampled[slot] := sampledV;
      assert vDownsampled[..] == vBefore[slot := sampledV];
      EvenStep(y, width);
      y := y + 2;
    }
    assert (x / 2 + 1) * (width / 2) == (x / 2) * (width / 2) + width / 2;
  }

  /**
   * `chroma_subsampling_420`: both chroma planes are reduced to quarter
   * resolution by stepping over the 2x2 blocks in row-major order; the
   * averaging and the truncating cast are the opaque `mean`. Slot `s` of each
   * output plane holds the value of block `(s / (width / 2), s % (width / 2))`.
   */
  method ChromaSubsampling420<S>(width: nat, height: nat, u: seq<S>, v: seq<S>, mean: (S, S, S, S) -> byte)
    returns (uDownsampled: array<byte>, vDownsampled: array<byte>)
    requires width % 2 == 0 && height % 2 == 0
    requires |u| >= width * height && |v| >= width * height
    ensures uDownsampled.Length == width * height / 4 && vDownsampled.Length == width * height / 4
    ensures forall slot :: 0 <= slot < width * height / 4 ==>
              uDownsampled[slot] == SlotBlock(u, width, height, slot, mean) &&
              vDownsampled[slot] == SlotBlock(v, width, height, slot, mean)
  {
    uDownsampled := new byte[width * height / 4](_ => 0);
    vDownsampled := new byte[width * height / 4](_ => 0);
    QuarterPlaneSize(width, height);
    var x := 0;
    while x < height
      invariant x % 2 == 0 && x <= height
      invariant SubsampledPrefix(uDownsampled[..], u, width, height, (x / 2) * (width / 2), mean)
      invariant SubsampledPrefix(vDownsampled[..], v, width, height, (x / 2) * (width / 2), mean)
    {
      SubsampleRow(width, height, x, u, v, mean, uDownsampled, vDownsampled);
      EvenStep(x, height);
      x := x + 2;
    }
    assert forall slot :: 0 <= slot < width * height / 4 ==> uDownsampled[slot] == uDownsampled[..][slot];
    assert forall slot :: 0 <= slot < width * height / 4 ==> vDownsampled[slot] == vDownsampled[..][slot];
  }

  // ---------------------------------------------------------------------------
  // Size accumulator
  // ---------------------------------------------------------------------------

  /** `size`: the total number of bytes of all frames, i.e. the length of their concatenation. */
  method Size(frames: seq<seq<byte>>) returns (size: nat)
    ensures size == |Flatten(frames)|
  {
    size := 0;
    for index := 0 to |frames|
      invariant size == |Flatten(frames[..index])|
    {
      assert frames[..index + 1] == frames[..index] + [frames[index]];
      FlattenAppend(frames[..index], frames[index]);
      size := size + |frames[index]|;
    }
    assert frames[..|frames|] == frames;
  }

  // ---------------------------------------------------------------------------
  // RGB to YUV: index arithmetic only
  // ---------------------------------------------------------------------------

  /**
   * The colour triple of pixel `p` of an interleaved RGB frame, as the opaque
   * `colour` maps it: a truncated luma byte and the two unrounded chroma values.
   */
  function Colour<S>(frame: seq<byte>, width: nat, height: nat, p: nat, colour: (byte, byte, byte) -> (byte, S, S)): (byte, S, S)
    requires |frame| >= 3 * (width * height) && p < width * height
  {
    colour(frame[3 * p], frame[3 * p + 1], frame[3 * p + 2])
  }

  /** The full-resolution luma plane of an RGB frame. */
  function LumaPlane<S>(frame: seq<byte>, width: nat, height: nat, colour: (byte, byte, byte) -> (byte, S, S)): (y: seq<byte>)
    requires |frame| >= 3 * (width * height)
    ensures |y| == width * height
  {
    seq(width * height, p requires 0 <= p < width * height => Colour(frame, width, height, p, colour).0)
  }

  /** The full-resolution U plane of an RGB frame. */
  function UPlane<S>(frame: seq<byte>, width: nat, height: nat, colour: (byte, byte, byte) -> (byte, S, S)): (u: seq<S>)
    requires |frame| >= 3 * (width * height)
    ensures |u| == width * height
  {
    seq(width * height, p requires 0 <= p < width * height => Colour(frame, width, height, p, colour).1)
  }

  /** The full-resolution V plane of an RGB frame. */
  function VPlane<S>(frame: seq<byte>, width: nat, height: nat, colour: (byte, byte, byte) -> (byte, S, S)): (v: seq<S>)
    requires |frame| >= 3 * (width * height)
    ensures |v| == width * height
  {
    seq(width * height, p requires 0 <= p < width * height => Colour(frame, width, height, p, colour).2)
  }

  /**
   * `convert_frame_to_yuv`: one pass over the pixels, reading the three bytes
   * of pixel `index` at `3 * index`, `3 * index + 1` and `3 * index + 2`, and
   * pushing one sample onto each plane.
   */
  method ConvertFrameToYuv<S>(width: nat, height: nat, frame: seq<byte>, colour: (byte, byte, byte) -> (byte, S, S))
    returns (y: seq<byte>, u: seq<S>, v: seq<S>)
    requires |frame| >= 3 * (width * height)
    ensures y == LumaPlane(frame, width, height, colour)
    ensures u == UPlane(frame, width, height, colour)
    ensures v == VPlane(frame, width, height, colour)
  {
    y, u, v := [], [], [];
    for index := 0 to width * height
      invariant |y| == index && |u| == index && |v| == index
      invariant forall p :: 0 <= p < index ==> (y[p], u[p], v[p]) == Colour(frame, width, height, p, colour)
    {
      var red := frame[index * 3];
      var green := frame[index * 3 + 1];
      var blue := frame[index * 3 + 2];
      var (pixelY, pixelU, pixelV) := colour(red, green, blue);
      y := y + [pixelY];
      u := u + [pixelU];
      v := v + [pixelV];
    }
  }

  /** A chroma plane reduced to quarter resolution, slot by slot. */
  function Subsampled<S>(plane: seq<S>, width: nat, height: nat, mean: (S, S, S, S) -> byte): (quarter: seq<byte>)
    requires width % 2 == 0 && height % 2 == 0 && |plane| >= width * height
    ensures |quarter| == width * height / 4
  {
    seq(width * height / 4, slot requires 0 <= slot < width * height / 4 => SlotBlock(plane, width, height, slot, mean))
  }

  /**
   * The 4:2:0 frame `encode_video` stores in place of an RGB frame: the luma
   * plane followed by the subsampled U and V planes.
   */
  function YuvFrame<S>(frame: seq<byte>, width: nat, height: nat, colour: (byte, byte, byte) -> (byte, S, S), mean: (S, S, S, S) -> byte): (yuv: seq<byte>)
    requires width % 2 == 0 && height % 2 == 0 && |frame| >= 3 * (width * height)
    ensures |yuv| == width * height + 2 * (width * height / 4)
  {
    LumaPlane(frame, width, height, colour)
      + Subsampled(UPlane(frame, width, height, colour), width, height, mean)
      + Subsampled(VPlane(frame, width, height, colour), width, height, mean)
  }

  // ---------------------------------------------------------------------------
  // Compression stage and the encoder entry point
  // ---------------------------------------------------------------------------

  /**
   * `deflate_frames`: writes every frame, in order, into one compressor
   * stream; the DEFLATE compressor itself is the opaque `compress`.
   */
  method DeflateFrames(frames: seq<seq<byte>>, compress: seq<byte> -> seq<byte>) returns (encoded: seq<byte>)
    ensures encoded == compress(Flatten(frames))
  {
    var stream := [];
    for index := 0 to |frames|
      invariant stream == Flatten(frames[..index])
    {
      assert frames[..index + 1] == frames[..index] + [frames[index]];
      FlattenAppend(frames[..index], frames[index]);
      stream := stream + frames[index];
    }
    assert frames[..|frames|] == frames;
    encoded := compress(stream);
  }

  /**
   * `encode_video`: replaces every RGB frame, in place, by its 4:2:0 frame,
   * delta-codes the video and compresses the concatenated delta frames.
   * `deltas` is the delta-coded video that went into the compressor.
   */
  method EncodeVideo<S>(videoFrames: array<seq<byte>>, width: nat, height: nat,
                        colour: (byte, byte, byte) -> (byte, S, S), mean: (S, S, S, S) -> byte,
                        compress: seq<byte> -> seq<byte>)
    returns (encoded: seq<byte>, ghost deltas: seq<seq<byte>>)
    requires 0 < width && 0 < height && width % 2 == 0 && height % 2 == 0
    requires forall i :: 0 <= i < videoFrames.Length ==> |videoFrames[i]| >= 3 * (width * height)
    modifies videoFrames
    ensures forall i :: 0 <= i < videoFrames.Length ==> videoFrames[i] == YuvFrame(old(videoFrames[i]), width, height, colour, mean)
    ensures IsDeltaEncoding(videoFrames[..], deltas)
    ensures encoded == compress(Flatten(deltas))
  {
    ghost var original := videoFrames[..];
    for index := 0 to videoFrames.Length
      invariant forall n :: index <= n < videoFrames.Length ==> videoFrames[n] == original[n]
      invariant forall n :: 0 <= n < index ==> videoFrames[n] == YuvFrame(original[n], width, height, colour, mean)
    {
      var y, u, v := ConvertFrameToYuv(width, height, videoFrames[index], colour);
      var uSubSampling, vSubSampling := ChromaSubsampling420(width, height, u, v, mean);
      assert uSubSampling[..] == Subsampled(u, width, height, mean);
      assert vSubSampling[..] == Subsampled(v, width, height, mean);
      videoFrames[index] := y + uSubSampling[..] + vSubSampling[..];
    }
    var frames := videoFrames[..];
    assert forall n :: 0 <= n < |frames| ==> |frames[n]| == width * height + 2 * (width * height / 4);
    var pixelDeltaFrames := CalculatePixelDeltas(frames);
    // the run-length frames only feed a printed size; they are not part of the output
    var rleFrames := CreateRunLengthEncoding(pixelDeltaFrames);
    encoded := DeflateFrames(pixelDeltaFrames, compress);
    deltas := pixelDeltaFrames;
  }
}
