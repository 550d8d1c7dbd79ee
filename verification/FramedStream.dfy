/**
 * A stream cut into frames, what the pull reader gets out of it, and when a seek point leads
 * to the right place.
 */
module FramedStream {
  import opened AcceptedFrames
  import opened PcmStream
  import opened SeekTable
  import opened Words
  import opened Wrappers

  /** What a frame asks of the reservoir, nothing in Layers I and II, and the PCM frames it yields when accepted. */
  datatype Packet<T> = Packet(frame: SoundFrame, samples: seq<T>)

  function Frames<T>(packets: seq<Packet<T>>): (fs: seq<SoundFrame>)
    ensures |fs| == |packets|
  {
    seq(|packets|, i requires 0 <= i < |packets| => packets[i].frame)
  }

  function Sizes<T>(packets: seq<Packet<T>>): (sizes: seq<nat>)
    ensures |sizes| == |packets|
  {
    seq(|packets|, i requires 0 <= i < |packets| => |packets[i].samples|)
  }

  /** The samples of the listed frames. */
  function BlocksOf<T>(packets: seq<Packet<T>>, idx: seq<nat>): (blocks: seq<seq<T>>)
    ensures |blocks| == |idx|
  {
    seq(|idx|, k requires 0 <= k < |idx| => if idx[k] < |packets| then packets[idx[k]].samples else [])
  }

  /** Byte positions of the frames and of the end of the stream, and frames of the sizes there are. */
  ghost predicate WellFramed<T>(packets: seq<Packet<T>>, framePos: seq<nat>) {
    && |framePos| == |packets| + 1
    && (forall i, j :: 0 <= i < j < |framePos| ==> framePos[i] < framePos[j])
    && (forall i :: 0 <= i < |packets| ==> BlockSize(|packets[i].samples|))
  }

  /** The frame before which the reader looks for the k-th frame of the list. */
  function CallFrame(idx: seq<nat>, k: nat): (at: nat)
    requires k <= |idx|
  {
    if k == 0 then 0 else idx[k - 1] + 1
  }

  /** Where in the stream these calls happen. */
  function CallPositions(framePos: seq<nat>, idx: seq<nat>): (pos: seq<nat>)
    ensures |pos| == |idx| + 1
  {
    seq(|idx| + 1, k requires 0 <= k < |idx| + 1 =>
      if CallFrame(idx, k) < |framePos| then framePos[CallFrame(idx, k)] else 0)
  }

  lemma CallsAdvance(fs: seq<SoundFrame>, framePos: seq<nat>, decode: bool)
    requires |framePos| == |fs| + 1 && forall i, j :: 0 <= i < j < |framePos| ==> framePos[i] < framePos[j]
    ensures var idx := Accepted(fs, START, decode);
            var pos := CallPositions(framePos, idx);
            && (forall k :: 0 <= k <= |idx| ==> CallFrame(idx, k) <= |fs| && pos[k] == framePos[CallFrame(idx, k)])
            && (forall i, j :: 0 <= i < j < |pos| ==> pos[i] < pos[j])
  {
    hide Accepted;
    AcceptedFrom(fs, START, decode);
    Ascending(fs, START, decode);
  }

  lemma BlocksAreSmall<T>(packets: seq<Packet<T>>, framePos: seq<nat>, s: Spot, decode: bool)
    requires WellFramed(packets, framePos) && s.at <= |packets|
    ensures SmallBlocks(BlocksOf(packets, Accepted(Frames(packets), s, decode)))
    ensures forall t: Track<T> :: t.blocks == BlocksOf(packets, Accepted(Frames(packets), s, decode)) ==> ValidTrack(t)
  {
    hide Accepted;
    AcceptedFrom(Frames(packets), s, decode);
  }

  // ----- Where a jump leads, in PCM frames -----

  lemma {:induction false} StartIsTotal<T>(packets: seq<Packet<T>>, idx: seq<nat>, m: nat)
    requires m <= |idx|
    ensures Start(BlocksOf(packets, idx), m) == Total(Sizes(packets), idx[..m])
  {
    if 0 < m {
      StartIsTotal(packets, idx, m - 1);
      assert idx[..m] == idx[..m - 1] + [idx[m - 1]];
      TotalJoins(Sizes(packets), idx[..m - 1], [idx[m - 1]]);
    }
  }

  lemma {:induction false} FromShift<T>(blocks: seq<seq<T>>, m: nat, k: nat)
    requires m + k <= |blocks|
    ensures From(blocks[m..], k) == From(blocks, m + k)
    decreases |blocks| - k
  {
    if m + k < |blocks| {
      FromShift(blocks, m, k + 1);
    }
  }

  /** What decoding the whole stream from its start gives. */
  function Decoded<T>(packets: seq<Packet<T>>): (samples: seq<T>) {
    From(BlocksOf(packets, Accepted(Frames(packets), START, true)), 0)
  }

  lemma BlocksOfTail<T>(packets: seq<Packet<T>>, idx: seq<nat>, m: nat)
    requires m <= |idx|
    ensures BlocksOf(packets, idx[m..]) == BlocksOf(packets, idx)[m..]
  {
  }

  /** A reader on track after pcm PCM frames goes on with the stream from there. */
  lemma OnTrackGoesOn<T>(packets: seq<Packet<T>>, pending: seq<nat>, pcm: nat)
    requires OnTrack(Frames(packets), Sizes(packets), pending, pcm)
    ensures pcm <= |Decoded(packets)| && From(BlocksOf(packets, pending), 0) == Decoded(packets)[pcm..]
  {
    hide Accepted, From, Start, Total, BlocksOf, Frames, Sizes;
    var all := Accepted(Frames(packets), START, true);
    var m :| 0 <= m <= |all| && pending == all[m..] && Total(Sizes(packets), all[..m]) == pcm;
    var blocks := BlocksOf(packets, all);
    BlocksOfTail(packets, all, m);
    StartIsTotal(packets, all, m);
    FromShift(blocks, m, 0);
    FromAtStart(blocks, m);
  }

  /** The point lies at a frame. */
  ghost predicate Placed(framePos: seq<nat>, p: SeekPoint) {
    exists k :: 0 <= k < |framePos| && framePos[k] == p.bytePos
  }

  ghost function FrameAt(framePos: seq<nat>, p: SeekPoint): (k: nat)
    requires Placed(framePos, p)
    ensures k < |framePos| && framePos[k] == p.bytePos
  {
    var k :| 0 <= k < |framePos| && framePos[k] == p.bytePos;
    k
  }

  /** Where seeking to a point leads: to the last of the MP3 frames to drop, cached, or nowhere. */
  ghost function LandingOf<T>(packets: seq<Packet<T>>, framePos: seq<nat>, p: SeekPoint): (s: Option<Spot>)
    requires |framePos| == |packets| + 1 && Placed(framePos, p)
    ensures s.Some? ==> s.value.at <= |packets|
  {
    Landing(Frames(packets), FrameAt(framePos, p), p.mp3Discard)
  }

  /** Seeking to the point puts the reader where reading forward is after pcmIndex - pcmDiscard PCM frames. */
  ghost predicate Right<T>(packets: seq<Packet<T>>, framePos: seq<nat>, p: SeekPoint)
    requires |framePos| == |packets| + 1
  {
    && Placed(framePos, p) && p.pcmDiscard <= p.pcmIndex
    && LandingOf(packets, framePos, p).Some?
    && OnTrack(Frames(packets), Sizes(packets), Accepted(Frames(packets), LandingOf(packets, framePos, p).value, true),
               p.pcmIndex - p.pcmDiscard)
  }

  /** The start of the stream is always right. */
  lemma StartIsRight<T>(packets: seq<Packet<T>>, framePos: seq<nat>)
    requires WellFramed(packets, framePos) && framePos[0] == 0
    ensures Right(packets, framePos, SeekPoint(0, 0, 0, 0))
  {
    hide Accepted;
    var p := SeekPoint(0, 0, 0, 0);
    assert framePos[0] == p.bytePos;
    assert FrameAt(framePos, p) == 0;
    StartIsOnTrack(Frames(packets), Sizes(packets));
  }

  /**
   * A point is right if and only if decoding from the start accepts the frame it leads to,
   * and has decoded exactly the stated number of PCM frames before it.
   */
  lemma RightExactly<T>(packets: seq<Packet<T>>, framePos: seq<nat>, p: SeekPoint)
    requires WellFramed(packets, framePos) && Placed(framePos, p) && 0 < p.mp3Discard
    ensures var fs, landing := Frames(packets), LandingOf(packets, framePos, p);
            Right(packets, framePos, p)
            <==> && landing.Some? && p.pcmDiscard <= p.pcmIndex
                 && Takes(fs, SpotAt(fs, START, landing.value.at, true))
                 && Total(Sizes(packets), Before(fs, START, landing.value.at, true)) == p.pcmIndex - p.pcmDiscard
  {
    hide Accepted, Total, SpotAt, Before, OnTrack;
    var landing := LandingOf(packets, framePos, p);
    if landing.Some? && p.pcmDiscard <= p.pcmIndex {
      LandsExactly(Frames(packets), Sizes(packets), landing.value, p.pcmIndex - p.pcmDiscard);
    }
  }

  // ----- Computed tables -----

  /** The counted blocks of a stream that decodes completely are its frames, one by one. */
  lemma CompleteBlocks<T>(packets: seq<Packet<T>>, framePos: seq<nat>)
    requires WellFramed(packets, framePos) && Complete(Frames(packets))
    ensures var counted := Accepted(Frames(packets), START, false);
            && counted == Indices(0, |packets|) && |counted| == |packets|
            && CallPositions(framePos, counted) == framePos
            && (forall k :: 0 <= k < |packets| ==> BlocksOf(packets, counted)[k] == packets[k].samples)
  {
    hide Accepted, Indices, Complete;
    CompleteExactly(Frames(packets));
    IndicesLength(0, |packets|);
  }

  /**
   * In a stream that decodes completely a computed point is right if and only if the first
   * target lies beyond the first MP3 frame, and the frame that the point starts at needs no
   * main data of earlier frames.
   */
  lemma ComputedPointIsRightExactly<T>(packets: seq<Packet<T>>, framePos: seq<nat>, t: nat, j: nat)
    requires WellFramed(packets, framePos) && Complete(Frames(packets)) && 3 <= |packets| && j < |packets|
    requires var blocks := BlocksOf(packets, Indices(0, |packets|));
             |blocks| == |packets| && Start(blocks, j) <= t < Start(blocks, j + 1)
    ensures var blocks := BlocksOf(packets, Indices(0, |packets|));
            var b := (if 2 <= j then j else 2) - 2;
            Right(packets, framePos, PointFor(blocks, framePos, t)) <==> 1 <= j && packets[b].frame.begin == 0
  {
    hide Accepted, Start, Landing, Total, OnTrack, PointFor, Complete, Indices, SmallBlocks, BlocksOf, Sizes, CallPositions, BlockSize;
    CompleteBlocks(packets, framePos);
    BlocksAreSmall(packets, framePos, START, false);
    var blocks := BlocksOf(packets, Indices(0, |packets|));
    var b := (if 2 <= j then j else 2) - 2;
    var p := PointFor(blocks, framePos, t);
    PointIsSound(blocks, framePos, t, j);
    assert framePos[b] == p.bytePos;
    assert FrameAt(framePos, p) == b;
    if j == 0 {
      TruncatedDiscard(blocks, framePos, t);
    } else {
      StartIsTotal(packets, Indices(0, |packets|), b + 1);
      IndicesPrefix(0, b + 1, |packets|);
      SizesPositive(packets, framePos);
      CompleteLandsExactly(Frames(packets), Sizes(packets), b);
    }
  }

  lemma SizesPositive<T>(packets: seq<Packet<T>>, framePos: seq<nat>)
    requires WellFramed(packets, framePos)
    ensures forall i :: 0 <= i < |Sizes(packets)| ==> 0 < Sizes(packets)[i]
  {
  }

  lemma {:induction false} IndicesPrefix(from: nat, m: nat, end: nat)
    requires from <= m <= end
    ensures |Indices(from, end)| == end - from && Indices(from, end)[..m - from] == Indices(from, m)
    decreases m - from
  {
    IndicesLength(from, end);
    IndicesLength(from, m);
  }

  /**
   * The truncated discard of a target in the first block exceeds the target, so that a seek
   * from such a point asks for 65536 PCM frames more than lie between the second block and its goal.
   */
  lemma TruncatedDiscard<T>(blocks: seq<seq<T>>, bytePos: seq<nat>, t: nat)
    requires SmallBlocks(blocks) && 3 <= |blocks| < |bytePos| && t < Start(blocks, 1)
    ensures var p := PointFor(blocks, bytePos, t); p.pcmDiscard == p.pcmIndex + 0x1_0000 - Start(blocks, 1) && p.pcmIndex < p.pcmDiscard < 0x1_0000
  {
    StartGrows(blocks, 1, 3);
  }

  /** Every point of the table is right. */
  ghost predicate TableRight<T>(packets: seq<Packet<T>>, framePos: seq<nat>, ps: seq<SeekPoint>)
    requires |framePos| == |packets| + 1
  {
    forall i :: 0 <= i < |ps| ==> Right(packets, framePos, ps[i])
  }

  /** The frame at which a point for target t starts needs no main data of earlier frames. */
  ghost predicate SelfContained<T>(packets: seq<Packet<T>>, blocks: seq<seq<T>>, t: nat)
    requires |blocks| == |packets|
  {
    forall j :: 0 <= j < |blocks| && Start(blocks, j) <= t < Start(blocks, j) + |blocks[j]| ==>
      packets[if 2 <= j then j - 2 else 0].frame.begin == 0
  }

  /** The same for every target of a table. */
  ghost predicate AllSelfContained<T>(packets: seq<Packet<T>>, blocks: seq<seq<T>>, step: nat, count: nat)
    requires |blocks| == |packets|
  {
    forall s :: 1 <= s <= count ==> SelfContained(packets, blocks, Target(step, s))
  }

  lemma TargetIsRightExactly<T>(packets: seq<Packet<T>>, framePos: seq<nat>, t: nat)
    requires WellFramed(packets, framePos) && Complete(Frames(packets)) && 3 <= |packets|
    requires var blocks := BlocksOf(packets, Indices(0, |packets|));
             |blocks| == |packets| && t < Start(blocks, |blocks|)
    ensures var blocks := BlocksOf(packets, Indices(0, |packets|));
            Right(packets, framePos, PointFor(blocks, framePos, t))
            <==> Start(blocks, 1) <= t && SelfContained(packets, blocks, t)
  {
    hide PointFor, BlocksOf, Complete, Right, Indices, SmallBlocks, Accepted, SelfContained, Start, WellFramed;
    CompleteBlocks(packets, framePos);
    BlocksAreSmall(packets, framePos, START, false);
    var blocks := BlocksOf(packets, Indices(0, |packets|));
    var j := BlockOf(blocks, t, |blocks|);
    ComputedPointIsRightExactly(packets, framePos, t, j);
    SelfContainedExactly(packets, blocks, t, j);
  }

  lemma SelfContainedExactly<T>(packets: seq<Packet<T>>, blocks: seq<seq<T>>, t: nat, j: nat)
    requires SmallBlocks(blocks) && |blocks| == |packets| && j < |blocks|
    requires Start(blocks, j) <= t < Start(blocks, j + 1)
    ensures 1 <= j <==> Start(blocks, 1) <= t
    ensures SelfContained(packets, blocks, t) <==> packets[if 2 <= j then j - 2 else 0].frame.begin == 0
  {
    hide BlockSize;
    StartGrows(blocks, if 1 <= j then 1 else 0, j);
    forall k | 0 <= k < |blocks| && Start(blocks, k) <= t < Start(blocks, k) + |blocks[k]| ensures k == j {
      OneBlock(blocks, t, j, k);
    }
  }

  lemma OneBlock<T>(blocks: seq<seq<T>>, t: nat, j: nat, k: nat)
    requires SmallBlocks(blocks) && j < |blocks| && k < |blocks|
    requires Start(blocks, j) <= t < Start(blocks, j + 1) && Start(blocks, k) <= t < Start(blocks, k + 1)
    ensures j == k
  {
    if j < k {
      StartGrows(blocks, j + 1, k);
    } else if k < j {
      StartGrows(blocks, k + 1, j);
    }
  }

  /**
   * The table computed for a stream that decodes completely is right if and only if the first
   * target lies beyond the first MP3 frame and the frames at all its points are self-contained.
   */
  lemma ComputedTableIsRightExactly<T>(packets: seq<Packet<T>>, framePos: seq<nat>, step: nat, count: nat)
    requires WellFramed(packets, framePos) && Complete(Frames(packets))
    requires Scannable(BlocksOf(packets, Indices(0, |packets|)), framePos, step, count)
    ensures var blocks := BlocksOf(packets, Indices(0, |packets|));
            |blocks| == |packets|
            && (TableRight(packets, framePos, Points(blocks, framePos, step, count))
                <==> Start(blocks, 1) <= step && AllSelfContained(packets, blocks, step, count))
  {
    hide Points, BlocksOf, Complete, Right, Indices, SelfContained, SmallBlocks, Start, Target, Accepted;
    var blocks := BlocksOf(packets, Indices(0, |packets|));
    var ps := Points(blocks, framePos, step, count);
    PointIsRightExactly(packets, framePos, step, count, 1);
    if TableRight(packets, framePos, ps) {
      assert Right(packets, framePos, ps[0]);
      forall s | 1 <= s <= count ensures SelfContained(packets, blocks, Target(step, s)) {
        PointIsRightExactly(packets, framePos, step, count, s);
      }
    }
    if Start(blocks, 1) <= step && AllSelfContained(packets, blocks, step, count) {
      forall i | 0 <= i < |ps| ensures Right(packets, framePos, ps[i]) {
        PointIsRightExactly(packets, framePos, step, count, i + 1);
      }
    }
  }

  lemma PointIsRightExactly<T>(packets: seq<Packet<T>>, framePos: seq<nat>, step: nat, count: nat, s: nat)
    requires WellFramed(packets, framePos) && Complete(Frames(packets))
    requires Scannable(BlocksOf(packets, Indices(0, |packets|)), framePos, step, count)
    requires 1 <= s <= count
    ensures var blocks := BlocksOf(packets, Indices(0, |packets|));
            var ps := Points(blocks, framePos, step, count);
            && |blocks| == |packets| && |ps| == count && s <= count && step <= Target(step, s) && Target(step, 1) == step
            && (Right(packets, framePos, ps[s - 1])
                <==> Start(blocks, 1) <= Target(step, s) && SelfContained(packets, blocks, Target(step, s)))
  {
    hide Points, PointFor, BlocksOf, Complete, Right, Indices, SmallBlocks, BlockSize, SelfContained, WellFramed, Start, Accepted;
    var blocks := BlocksOf(packets, Indices(0, |packets|));
    IndicesLength(0, |packets|);
    PointAt(blocks, framePos, step, count, s - 1);
    NextTarget(blocks, framePos, step, count, s - 1);
    TargetIsRightExactly(packets, framePos, Target(step, s));
    TargetGrows(step, 0, s);
    assert Target(step, 1) == step;
  }

  /**
   * An ordinary stream of five MP3 frames in which each but the first uses one byte of the
   * frame before: it decodes completely, but seeking to the third point of its table skips
   * the MP3 frame the reader should be at.
   */
  lemma PointersMislead<T>(payload: seq<byte>, samples: seq<T>, framePos: seq<nat>)
    requires |payload| == 75 && |samples| == 1152
    requires |framePos| == 6 && forall i, j :: 0 <= i < j < 6 ==> framePos[i] < framePos[j]
    ensures var next := Packet(Following(payload), samples);
            var packets := [Packet(Leading(payload), samples), next, next, next, next];
            var blocks := BlocksOf(packets, Indices(0, 5));
            && WellFramed(packets, framePos) && Complete(Frames(packets)) && Scannable(blocks, framePos, 1152, 4)
            && PointFor(blocks, framePos, 3456) == SeekPoint(framePos[1], 3456, 2, 1152)
            && LandingOf(packets, framePos, SeekPoint(framePos[1], 3456, 2, 1152)) == Some(Spot(3, 76))
            && !Right(packets, framePos, SeekPoint(framePos[1], 3456, 2, 1152))
  {
    hide Accepted, Landing, Right, Complete, Indices, Start, PointFor, Scannable, SmallBlocks, OnTrack;
    var next := Packet(Following(payload), samples);
    var packets := [Packet(Leading(payload), samples), next, next, next, next];
    var f := Following(payload);
    assert Frames(packets) == [Leading(payload), f, f, f, f];
    PointerShiftsLanding(payload);
    CompleteBlocks(packets, framePos);
    FiveEqualBlocks(BlocksOf(packets, Indices(0, 5)), framePos);
    assert FrameAt(framePos, SeekPoint(framePos[1], 3456, 2, 1152)) == 1;
    ComputedPointIsRightExactly(packets, framePos, 3456, 3);
  }
}
