/**
 * The seek table as arithmetic on block sizes: which points drmp3_calculate_seek_points
 * produces, and exactly when they lead to the right place.
 */
module SeekTable {
  import opened PcmStream

  const LEADING: nat := 2          // DRMP3_SEEK_LEADING_MP3_FRAMES
  const MAX_BLOCK: nat := 1152     // PCM frames in one MP3 frame at most

  /** The PCM frames that one MP3 frame can hold: Layer I, Layer III at low rates, all others. */
  predicate BlockSize(n: nat) {
    n == 384 || n == 576 || n == MAX_BLOCK
  }

  /** A stream position to start from, how many MP3 frames and PCM frames to drop there, and
      the PCM frame this leads to. */
  datatype SeekPoint = SeekPoint(bytePos: nat, pcmIndex: nat, mp3Discard: nat, pcmDiscard: nat)

  ghost predicate SmallBlocks<T>(blocks: seq<seq<T>>) {
    forall k :: 0 <= k < |blocks| ==> BlockSize(|blocks[k]|)
  }

  /** Number of PCM frames before block k. */
  function Start<T>(blocks: seq<seq<T>>, k: nat): (n: nat)
    requires k <= |blocks|
  {
    if k == 0 then 0 else Start(blocks, k - 1) + |blocks[k - 1]|
  }

  lemma {:induction false} StartGrows<T>(blocks: seq<seq<T>>, j: nat, k: nat)
    requires SmallBlocks(blocks) && j <= k <= |blocks|
    ensures Start(blocks, j) + (k - j) <= Start(blocks, k) <= Start(blocks, j) + MAX_BLOCK * (k - j)
    decreases k - j
  {
    if j < k {
      StartGrows(blocks, j, k - 1);
    }
  }

  /** Dropping the first k blocks from the joined stream. */
  lemma {:induction false} FromAtStart<T>(blocks: seq<seq<T>>, k: nat)
    requires k <= |blocks|
    ensures Start(blocks, k) <= |From(blocks, 0)|
    ensures From(blocks, 0)[Start(blocks, k)..] == From(blocks, k)
  {
    if k > 0 {
      FromAtStart(blocks, k - 1);
      var all, s := From(blocks, 0), Start(blocks, k - 1);
      assert From(blocks, k - 1) == blocks[k - 1] + From(blocks, k);
      assert all[s..][|blocks[k - 1]|..] == all[s + |blocks[k - 1]|..];
    }
  }

  lemma TotalLength<T>(blocks: seq<seq<T>>)
    ensures |From(blocks, 0)| == Start(blocks, |blocks|)
  {
    FromAtStart(blocks, |blocks|);
  }

  /** Targets are step, 2 * step, 3 * step and so on. */
  function Target(step: nat, s: nat): (t: nat) {
    if s == 0 then 0 else Target(step, s - 1) + step
  }

  /** The step leaves room for one more target before the end of the stream. */
  lemma {:induction false} TargetsBeforeEnd(total: nat, count: nat, s: nat)
    requires s <= count && count < total
    ensures 1 <= total / (count + 1)
    ensures Target(total / (count + 1), s) < total
  {
    var step := total / (count + 1);
    QuotientAtLeast(total, count + 1, 1);
    TargetIsProduct(step, count + 1);
    assert step * (count + 1) <= total;
    TargetGrows(step, s, count + 1);
  }

  lemma {:induction false} TargetIsProduct(step: nat, s: nat)
    ensures Target(step, s) == step * s
  {
    if s > 0 {
      TargetIsProduct(step, s - 1);
    }
  }

  lemma {:induction false} TargetGrows(step: nat, r: nat, s: nat)
    requires r < s
    ensures Target(step, r) + step <= Target(step, s)
  {
    if r + 1 < s {
      TargetGrows(step, r, s - 1);
    }
  }

  /** How many blocks the scan has decoded, from m on, when target t lies in the last of them. */
  function Reach<T>(blocks: seq<seq<T>>, t: nat, m: nat): (n: nat)
    requires m <= |blocks|
    ensures m <= n <= |blocks|
    decreases |blocks| - m
  {
    if t < Start(blocks, m) || m == |blocks| then m else Reach(blocks, t, m + 1)
  }

  lemma {:induction false} ReachFinds<T>(blocks: seq<seq<T>>, t: nat, m: nat)
    requires m <= |blocks| && t < Start(blocks, |blocks|)
    ensures t < Start(blocks, Reach(blocks, t, m))
    ensures m < Reach(blocks, t, m) ==> Start(blocks, Reach(blocks, t, m) - 1) <= t
    decreases |blocks| - m
  {
    if Start(blocks, m) <= t && m < |blocks| {
      ReachFinds(blocks, t, m + 1);
    }
  }

  /** Going on from where the search for an earlier target stopped. */
  lemma {:induction false} ReachContinues<T>(blocks: seq<seq<T>>, t: nat, m: nat, k: nat)
    requires m <= |blocks| && m <= k <= Reach(blocks, t, m)
    ensures Reach(blocks, t, k) == Reach(blocks, t, m)
    decreases k - m
  {
    if m < k {
      ReachContinues(blocks, t, m + 1, k);
    }
  }

  lemma {:induction false} ReachMonotone<T>(blocks: seq<seq<T>>, t: nat, u: nat, m: nat)
    requires t <= u && m <= |blocks|
    ensures Reach(blocks, t, m) <= Reach(blocks, u, m)
    decreases |blocks| - m
  {
    if Start(blocks, m) <= t && m < |blocks| {
      ReachMonotone(blocks, t, u, m + 1);
    }
  }

  /** What a 16-bit field keeps of a difference. */
  function Low16(x: int): (r: nat) {
    x % 0x1_0000
  }

  /**
   * The point for target t: at least two blocks before the one that holds the target, but
   * not before the stream, and the distance from the second block there.
   */
  function PointFor<T>(blocks: seq<seq<T>>, bytePos: seq<nat>, t: nat): (p: SeekPoint)
    requires 3 <= |blocks| < |bytePos|
  {
    var n := Reach(blocks, t, 3);
    SeekPoint(bytePos[n - 3], t, LEADING, Low16(t - Start(blocks, n - 2)))
  }

  /** drmp3_calculate_seek_points for `wanted` points. */
  function Points<T>(blocks: seq<seq<T>>, bytePos: seq<nat>, step: nat, count: nat): (ps: seq<SeekPoint>)
    requires 3 <= |blocks| < |bytePos|
  {
    if count == 0 then [] else Points(blocks, bytePos, step, count - 1) + [PointFor(blocks, bytePos, Target(step, count))]
  }

  /**
   * The point leads to the start of a block: after dropping its MP3 frames the reader is at
   * PCM frame pcmIndex - pcmDiscard.
   */
  ghost predicate Leads<T>(blocks: seq<seq<T>>, bytePos: seq<nat>, p: SeekPoint, block: nat) {
    && |bytePos| == |blocks| + 1 && block + p.mp3Discard <= |blocks|
    && p.bytePos == bytePos[block]
    && p.pcmDiscard <= p.pcmIndex
    && p.pcmIndex - p.pcmDiscard == Start(blocks, if p.mp3Discard == 0 then block else block + p.mp3Discard - 1)
  }

  /** The number of blocks decoded for target t, in closed form: block j holds the target. */
  lemma ReachClosedForm<T>(blocks: seq<seq<T>>, t: nat, j: nat)
    requires SmallBlocks(blocks) && 3 <= |blocks| && j < |blocks|
    requires Start(blocks, j) <= t < Start(blocks, j + 1)
    ensures Reach(blocks, t, 3) == (if 2 <= j then j else 2) + 1
  {
    StartGrows(blocks, j + 1, |blocks|);
    ReachFinds(blocks, t, 3);
    var n := Reach(blocks, t, 3);
    if n - 1 < j {
      StartGrows(blocks, n, j);
    } else if j < n - 1 && 3 < n {
      StartGrows(blocks, j + 1, n - 1);
    }
  }

  /**
   * The point for a target inside the stream starts at block max(2, j) - 2 when block j holds
   * the target, and its discard needs no truncation exactly if the target does not lie in
   * the very first block; then it is less than the second and third block there together.
   */
  lemma PointIsSound<T>(blocks: seq<seq<T>>, bytePos: seq<nat>, t: nat, j: nat)
    requires SmallBlocks(blocks) && 3 <= |blocks| && |bytePos| == |blocks| + 1 && j < |blocks|
    requires Start(blocks, j) <= t < Start(blocks, j + 1)
    ensures var p := PointFor(blocks, bytePos, t);
            var b := (if 2 <= j then j else 2) - 2;
            && p.bytePos == bytePos[b] && p.pcmIndex == t && p.mp3Discard == 2
            && (Leads(blocks, bytePos, p, b) <==> 1 <= j)
            && (1 <= j ==> p.pcmDiscard == t - Start(blocks, b + 1) < |blocks[b + 1]| + |blocks[b + 2]|)
  {
    ReachClosedForm(blocks, t, j);
    var n := Reach(blocks, t, 3);
    StartGrows(blocks, n - 2, n);
    StartGrows(blocks, 1, n - 2);
    if j == 0 {
      assert n - 2 == 1 && t < Start(blocks, 1);
    }
  }

  /** The block that holds PCM frame t. */
  lemma {:induction false} BlockOf<T>(blocks: seq<seq<T>>, t: nat, n: nat) returns (j: nat)
    requires n <= |blocks| && t < Start(blocks, n)
    ensures j < n && Start(blocks, j) <= t < Start(blocks, j + 1)
  {
    if Start(blocks, n - 1) <= t {
      j := n - 1;
    } else {
      j := BlockOf(blocks, t, n - 1);
    }
  }

  lemma {:induction false} PointAt<T>(blocks: seq<seq<T>>, bytePos: seq<nat>, step: nat, count: nat, s: nat)
    requires 3 <= |blocks| < |bytePos| && s < count
    ensures |Points(blocks, bytePos, step, count)| == count
    ensures Points(blocks, bytePos, step, count)[s] == PointFor(blocks, bytePos, Target(step, s + 1))
  {
    if s < count - 1 {
      PointAt(blocks, bytePos, step, count - 1, s);
    } else if 0 < s {
      PointAt(blocks, bytePos, step, count - 1, s - 1);
    }
  }

  ghost predicate LeadsSomewhere<T>(blocks: seq<seq<T>>, bytePos: seq<nat>, p: SeekPoint) {
    exists b: nat :: Leads(blocks, bytePos, p, b)
  }

  /** Every point of the table leads to a block. */
  ghost predicate TableLeads<T>(blocks: seq<seq<T>>, bytePos: seq<nat>, ps: seq<SeekPoint>) {
    forall i :: 0 <= i < |ps| ==> LeadsSomewhere(blocks, bytePos, ps[i])
  }

  predicate Increasing(ps: seq<SeekPoint>) {
    forall i, j :: 0 <= i < j < |ps| ==> ps[i].pcmIndex < ps[j].pcmIndex
  }

  /** A table laid out over the stream: sorted byte positions, at least three blocks. */
  ghost predicate Scannable<T>(blocks: seq<seq<T>>, bytePos: seq<nat>, step: nat, count: nat) {
    && SmallBlocks(blocks) && 3 <= |blocks| && |bytePos| == |blocks| + 1
    && (forall i, j :: 0 <= i < j < |bytePos| ==> bytePos[i] < bytePos[j])
    && 1 <= count < |blocks|
    && step == Start(blocks, |blocks|) / (count + 1)
  }

  lemma ScannableSizes<T>(blocks: seq<seq<T>>, bytePos: seq<nat>, step: nat, count: nat)
    requires Scannable(blocks, bytePos, step, count)
    ensures 3 <= |blocks| == |bytePos| - 1
  {
  }

  lemma PointsIncrease<T>(blocks: seq<seq<T>>, bytePos: seq<nat>, step: nat, count: nat)
    requires Scannable(blocks, bytePos, step, count)
    ensures Increasing(Points(blocks, bytePos, step, count))
  {
    hide PointFor, Points;
    StartGrows(blocks, 0, |blocks|);
    TargetsBeforeEnd(Start(blocks, |blocks|), count, 0);
    var ps := Points(blocks, bytePos, step, count);
    PointAt(blocks, bytePos, step, count, 0);
    forall i, j | 0 <= i < j < |ps| ensures ps[i].pcmIndex < ps[j].pcmIndex {
      PointAt(blocks, bytePos, step, count, i);
      PointAt(blocks, bytePos, step, count, j);
      PointTarget(blocks, bytePos, Target(step, i + 1));
      PointTarget(blocks, bytePos, Target(step, j + 1));
      TargetGrows(step, i + 1, j + 1);
    }
  }

  lemma PointTarget<T>(blocks: seq<seq<T>>, bytePos: seq<nat>, t: nat)
    requires 3 <= |blocks| < |bytePos|
    ensures PointFor(blocks, bytePos, t).pcmIndex == t
  {
  }

  lemma NextTarget<T>(blocks: seq<seq<T>>, bytePos: seq<nat>, step: nat, count: nat, s: nat)
    requires Scannable(blocks, bytePos, step, count) && s < count
    ensures Target(step, s + 1) < Start(blocks, |blocks|)
    ensures Reach(blocks, Target(step, s), 3) <= Reach(blocks, Target(step, s + 1), 3)
  {
    StartGrows(blocks, 0, |blocks|);
    TargetsBeforeEnd(Start(blocks, |blocks|), count, s + 1);
    TargetGrows(step, s, s + 1);
    ReachMonotone(blocks, Target(step, s), Target(step, s + 1), 3);
  }

  /** Point s leads to a block if the first target lies beyond the first block. */
  lemma PointLeads<T>(blocks: seq<seq<T>>, bytePos: seq<nat>, step: nat, count: nat, s: nat) returns (b: nat)
    requires Scannable(blocks, bytePos, step, count) && s < count && Start(blocks, 1) <= step
    ensures |Points(blocks, bytePos, step, count)| == count
    ensures Leads(blocks, bytePos, Points(blocks, bytePos, step, count)[s], b)
  {
    hide PointFor, Points, Leads;
    StartGrows(blocks, 0, |blocks|);
    PointAt(blocks, bytePos, step, count, s);
    TargetsBeforeEnd(Start(blocks, |blocks|), count, s + 1);
    TargetGrows(step, 0, s + 1);
    var t := Target(step, s + 1);
    var j := BlockOf(blocks, t, |blocks|);
    if j == 0 {
      assert false;
    }
    PointIsSound(blocks, bytePos, t, j);
    b := (if 2 <= j then j else 2) - 2;
  }

  /** If the first target lies in the first block, the first point leads nowhere. */
  lemma FirstPointMisleads<T>(blocks: seq<seq<T>>, bytePos: seq<nat>, step: nat, count: nat, b: nat)
    requires Scannable(blocks, bytePos, step, count) && step < Start(blocks, 1)
    ensures |Points(blocks, bytePos, step, count)| == count
    ensures !Leads(blocks, bytePos, Points(blocks, bytePos, step, count)[0], b)
  {
    hide PointFor, Points;
    PointAt(blocks, bytePos, step, count, 0);
    assert Target(step, 1) == step;
    PointIsSound(blocks, bytePos, step, 0);
    if 0 < b < |bytePos| {
      assert bytePos[0] < bytePos[b];
    }
  }

  /**
   * A computed table is strictly increasing, and it is sound exactly if the first target
   * lies beyond the first block. Blocks may be of any sizes.
   */
  lemma TableIsSound<T>(blocks: seq<seq<T>>, bytePos: seq<nat>, step: nat, count: nat)
    requires Scannable(blocks, bytePos, step, count)
    ensures var ps := Points(blocks, bytePos, step, count);
            Increasing(ps) && (TableLeads(blocks, bytePos, ps) <==> Start(blocks, 1) <= step)
  {
    hide Points, Leads, Increasing;
    var ps := Points(blocks, bytePos, step, count);
    PointsIncrease(blocks, bytePos, step, count);
    PointAt(blocks, bytePos, step, count, 0);
    if Start(blocks, 1) <= step {
      forall i | 0 <= i < |ps| ensures LeadsSomewhere(blocks, bytePos, ps[i]) {
        var b := PointLeads(blocks, bytePos, step, count, i);
      }
    } else {
      forall b: nat ensures !Leads(blocks, bytePos, ps[0], b) {
        FirstPointMisleads(blocks, bytePos, step, count, b);
      }
      assert !LeadsSomewhere(blocks, bytePos, ps[0]);
    }
  }

  /**
   * Ten blocks of 1152 PCM frames followed by two of 384 make the distance between points
   * shorter than the first block, and the first point wrong. Eleven frames of Layer II or III and
   * two of Layer I at the same sample rate give these blocks: the change of layer loses one frame.
   */
  lemma LongFirstBlockMisleads<T>(a: seq<T>, z: seq<T>, bytePos: seq<nat>)
    requires |a| == 1152 && |z| == 384
    requires |bytePos| == 13 && forall i, j :: 0 <= i < j < 13 ==> bytePos[i] < bytePos[j]
    ensures var blocks := [a, a, a, a, a, a, a, a, a, a, z, z];
            var ps := Points(blocks, bytePos, 1024, 11);
            && Scannable(blocks, bytePos, 1024, 11)
            && |ps| == 11 && ps[0] == SeekPoint(bytePos[0], 1024, 2, 65408) && !TableLeads(blocks, bytePos, ps)
  {
    hide Points, TableLeads;
    var blocks := [a, a, a, a, a, a, a, a, a, a, z, z];
    EqualStart(blocks, 1152, 1);
    EqualStart(blocks, 1152, 3);
    EqualStart(blocks, 1152, 10);
    assert Start(blocks, 11) == 11520 + 384;
    assert Start(blocks, 12) == 12288;
    PointAt(blocks, bytePos, 1024, 11, 0);
    assert Target(1024, 1) == 1024 && Reach(blocks, 1024, 3) == 3;
    TableIsSound(blocks, bytePos, 1024, 11);
  }

  /** The last point at or before PCM frame x, or the start of the stream if there is none. */
  function Closest(ps: seq<SeekPoint>, x: nat): (p: SeekPoint) {
    if ps == [] then SeekPoint(0, 0, 0, 0)
    else if ps[|ps| - 1].pcmIndex <= x then ps[|ps| - 1]
    else Closest(ps[..|ps| - 1], x)
  }

  /** In an increasing table that is the point before the first one beyond x. */
  lemma {:induction false} ClosestIs(ps: seq<SeekPoint>, x: nat, k: nat)
    requires Increasing(ps) && k <= |ps|
    requires forall i :: 0 <= i < k ==> ps[i].pcmIndex <= x
    requires forall i :: k <= i < |ps| ==> x < ps[i].pcmIndex
    ensures Closest(ps, x) == if k == 0 then SeekPoint(0, 0, 0, 0) else ps[k - 1]
  {
    if k < |ps| {
      ClosestIs(ps[..|ps| - 1], x, k);
    }
  }

  lemma {:induction false} ClosestBefore(ps: seq<SeekPoint>, x: nat)
    ensures Closest(ps, x).pcmIndex <= x
    ensures Closest(ps, x) == SeekPoint(0, 0, 0, 0) || Closest(ps, x) in ps
  {
    if ps != [] && x < ps[|ps| - 1].pcmIndex {
      ClosestBefore(ps[..|ps| - 1], x);
    }
  }

  /** With blocks of one size the first target is always beyond the first block. */
  lemma EqualBlocksAreSound<T>(blocks: seq<seq<T>>, size: nat, count: nat)
    requires 1 <= |blocks| && count < |blocks|
    requires forall k :: 0 <= k < |blocks| ==> |blocks[k]| == size
    ensures Start(blocks, 1) == size <= Start(blocks, |blocks|) / (count + 1)
  {
    EqualStart(blocks, size, |blocks|);
    EqualStart(blocks, size, 1);
    QuotientAtLeast(|blocks| * size, count + 1, size);
  }

  lemma {:induction false} EqualStart<T>(blocks: seq<seq<T>>, size: nat, k: nat)
    requires k <= |blocks| && forall i :: 0 <= i < k ==> |blocks[i]| == size
    ensures Start(blocks, k) == k * size
  {
    if k > 0 {
      EqualStart(blocks, size, k - 1);
      assert (k - 1) * size + size == k * size;
    }
  }

  lemma FiveEqualBlocks<T>(blocks: seq<seq<T>>, bytePos: seq<nat>)
    requires |blocks| == 5 && forall k :: 0 <= k < 5 ==> |blocks[k]| == 1152
    requires |bytePos| == 6 && forall i, j :: 0 <= i < j < 6 ==> bytePos[i] < bytePos[j]
    ensures Scannable(blocks, bytePos, 1152, 4)
    ensures PointFor(blocks, bytePos, 3456) == SeekPoint(bytePos[1], 3456, 2, 1152)
    ensures Start(blocks, 3) == 3456 < Start(blocks, 4)
  {
    hide Start, Reach;
    EqualStart(blocks, 1152, 2);
    EqualStart(blocks, 1152, 3);
    EqualStart(blocks, 1152, 4);
    EqualStart(blocks, 1152, 5);
    ReachClosedForm(blocks, 3456, 3);
  }

  lemma QuotientAtLeast(a: nat, b: nat, q: nat)
    requires 0 < b && q * b <= a
    ensures q <= a / b
  {
    var d := a / b;
    assert a < (d + 1) * b;
    if d < q {
      MulMonotone(d + 1, q, b);
    }
  }

  lemma MulMonotone(a: nat, b: nat, c: nat)
    requires a <= b
    ensures a * c <= b * c
  {
  }
}
