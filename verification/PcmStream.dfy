/**
 * Reading PCM frames from a sequence of decoded MP3 frames, as a function: what a read of n
 * frames delivers and where it leaves the reader.
 */
module PcmStream {
  import opened Wrappers

  /** The decoded stream: one non-empty block of PCM frames per MP3 frame, and the ranges to
      leave out. PCM frames from `end` on, when it is known, are padding. */
  datatype Track<T> = Track(blocks: seq<seq<T>>, delay: nat, end: Limit)

  datatype Limit = Unlimited | UpTo(n: nat)

  /** Blocks decoded so far, what is consumed and left of the current one, the global position. */
  datatype Cursor = Cursor(next: nat, consumed: nat, remaining: nat, current: nat)

  ghost predicate ValidTrack<T>(t: Track<T>) {
    forall k :: 0 <= k < |t.blocks| ==> t.blocks[k] != []
  }

  ghost predicate ValidCursor<T>(t: Track<T>, c: Cursor) {
    && c.next <= |t.blocks|
    && (0 < c.remaining ==> 0 < c.next && c.consumed + c.remaining == |t.blocks[c.next - 1]|)
  }

  /** All blocks from number k on, joined. */
  function From<T>(blocks: seq<seq<T>>, k: nat): (s: seq<T>)
    requires k <= |blocks|
    decreases |blocks| - k
  {
    if k == |blocks| then [] else blocks[k] + From(blocks, k + 1)
  }

  /** The undelivered rest of the current block. */
  function Cached<T>(t: Track<T>, c: Cursor): (s: seq<T>)
    requires ValidCursor(t, c)
    ensures |s| == c.remaining
  {
    if c.remaining == 0 then [] else t.blocks[c.next - 1][c.consumed..]
  }

  /** Everything the reader has not passed yet. */
  function Rest<T>(t: Track<T>, c: Cursor): (s: seq<T>)
    requires ValidCursor(t, c)
  {
    Cached(t, c) + From(t.blocks, c.next)
  }

  function Advance(c: Cursor, k: nat): (d: Cursor)
    requires k <= c.remaining
  {
    Cursor(c.next, c.consumed + k, c.remaining - k, c.current + k)
  }

  /** Skip what is cached of the encoder delay. */
  function SkipDelay(c: Cursor, delay: nat): (d: Cursor) {
    if c.current < delay then Advance(c, Min(c.remaining, delay - c.current)) else c
  }

  /** The padding starts at or before the cursor. */
  predicate AtEnd(c: Cursor, end: Limit) {
    end.UpTo? && end.n <= c.current
  }

  /** How many of n wanted PCM frames the cached block can give. */
  function Portion(c: Cursor, end: Limit, n: nat): (k: nat)
    requires !AtEnd(c, end)
  {
    var k := Min(c.remaining, n);
    if end.UpTo? then Min(k, end.n - c.current) else k
  }

  function Load<T>(t: Track<T>, c: Cursor): (d: Cursor)
    requires c.next < |t.blocks|
  {
    Cursor(c.next + 1, 0, |t.blocks[c.next]|, c.current)
  }

  /** drmp3_read_pcm_frames_raw: where a read of n frames ends and what it delivers. */
  function Read<T>(t: Track<T>, c: Cursor, n: nat): (r: (Cursor, seq<T>))
    requires ValidTrack(t) && ValidCursor(t, c)
    decreases |t.blocks| - c.next, 1
  {
    var c1 := SkipDelay(c, t.delay);
    if n == 0 then (c, [])
    else if AtEnd(c1, t.end) then (c1, [])
    else
      var k := Portion(c1, t.end, n);
      var (c3, more) := Continue(t, Advance(c1, k), n - k);
      (c3, Cached(t, c1)[..k] + more)
  }

  /** The rest of a read once the cached block has given what it can. */
  function Continue<T>(t: Track<T>, c: Cursor, left: nat): (r: (Cursor, seq<T>))
    requires ValidTrack(t) && ValidCursor(t, c)
    decreases |t.blocks| - c.next, 0
  {
    if left == 0 || AtEnd(c, t.end) || c.next == |t.blocks| then (c, []) else Read(t, Load(t, c), left)
  }

  /** The block cache is empty whenever the reader goes on to the next block. */
  lemma CacheEmptyBeforeLoad<T>(t: Track<T>, c: Cursor, n: nat)
    requires ValidCursor(t, c) && 0 < n
    requires !AtEnd(SkipDelay(c, t.delay), t.end)
    ensures var c1 := SkipDelay(c, t.delay);
            var k := Portion(c1, t.end, n);
            k < n && !AtEnd(Advance(c1, k), t.end) ==> c1.remaining == k
  {
  }

  lemma {:induction false} ReadKeepsValid<T>(t: Track<T>, c: Cursor, n: nat)
    requires ValidTrack(t) && ValidCursor(t, c)
    ensures ValidCursor(t, Read(t, c, n).0)
    ensures |Read(t, c, n).1| <= n
    decreases |t.blocks| - c.next
  {
    if n != 0 && !AtEnd(SkipDelay(c, t.delay), t.end) {
      var c1 := SkipDelay(c, t.delay);
      var k := Portion(c1, t.end, n);
      var c2 := Advance(c1, k);
      if k != n && !AtEnd(c2, t.end) && c2.next != |t.blocks| {
        ReadKeepsValid(t, Load(t, c2), n - k);
      }
    }
  }

  /** After a skip and a delivery there is nothing more of the delay to skip in this block. */
  lemma NothingLeftToSkip(c: Cursor, delay: nat, k: nat)
    requires k <= SkipDelay(c, delay).remaining
    ensures SkipDelay(Advance(SkipDelay(c, delay), k), delay) == Advance(SkipDelay(c, delay), k)
  {
  }

  /** A read that stopped early stays stopped. */
  lemma StoppedReadStays<T>(t: Track<T>, c: Cursor, m: nat)
    requires ValidTrack(t) && ValidCursor(t, c)
    requires SkipDelay(c, t.delay) == c
    requires AtEnd(c, t.end) || (c.remaining == 0 && c.next == |t.blocks|)
    ensures Read(t, c, m) == (c, [])
  {
    if 0 < m && !AtEnd(c, t.end) {
      assert Portion(c, t.end, m) == 0 && Advance(c, 0) == c;
      assert Cached(t, c)[..0] + [] == [];
    }
  }

  /** Delivering k and then p frames of one block is delivering k + p. */
  lemma PortionsJoin<T>(t: Track<T>, c: Cursor, n: nat, m: nat)
    requires ValidCursor(t, c) && !AtEnd(c, t.end)
    requires Portion(c, t.end, n) == n && !AtEnd(Advance(c, n), t.end)
    ensures var p := Portion(Advance(c, n), t.end, m);
            && Portion(c, t.end, n + m) == n + p
            && Advance(Advance(c, n), p) == Advance(c, n + p)
            && Cached(t, c)[..n + p] == Cached(t, c)[..n] + Cached(t, Advance(c, n))[..p]
  {
    if n < c.remaining {
      assert Cached(t, Advance(c, n)) == Cached(t, c)[n..];
    }
  }

  /**
   * Reading n frames and then m more is reading n + m frames, in output and in state,
   * wherever the block boundaries, the delay and the padding fall.
   */
  lemma {:induction false} ReadSplits<T>(t: Track<T>, c: Cursor, n: nat, m: nat)
    requires ValidTrack(t) && ValidCursor(t, c)
    ensures ValidCursor(t, Read(t, c, n).0)
    ensures var (c1, o1) := Read(t, c, n);
            var (c2, o2) := Read(t, c1, m);
            Read(t, c, n + m) == (c2, o1 + o2)
    decreases |t.blocks| - c.next
  {
    hide Portion, Cached, Continue, SkipDelay, AtEnd;
    ReadKeepsValid(t, c, n);
    SkipKeepsValid(t, c);
    var c1 := SkipDelay(c, t.delay);
    if n == 0 {
      var o2 := Read(t, c, m).1;
      assert [] + o2 == o2;
    } else if m == 0 {
      var o1 := Read(t, c, n).1;
      assert o1 + [] == o1;
    } else if AtEnd(c1, t.end) {
      NothingLeftToSkip(c, t.delay, 0);
      StoppedReadStays(t, c1, m);
      var none: seq<T> := [];
      assert none + none == none;
    } else {
      SplitInBlock(t, c, n, m);
    }
  }

  lemma SkipKeepsValid<T>(t: Track<T>, c: Cursor)
    requires ValidCursor(t, c)
    ensures ValidCursor(t, SkipDelay(c, t.delay)) && SkipDelay(c, t.delay).next == c.next
  {
  }

  lemma {:induction false} SplitInBlock<T>(t: Track<T>, c: Cursor, n: nat, m: nat)
    requires ValidTrack(t) && ValidCursor(t, c) && 0 < n && 0 < m
    requires !AtEnd(SkipDelay(c, t.delay), t.end)
    ensures ValidCursor(t, Read(t, c, n).0)
    ensures var (c1, o1) := Read(t, c, n);
            var (c2, o2) := Read(t, c1, m);
            Read(t, c, n + m) == (c2, o1 + o2)
    decreases |t.blocks| - c.next, 0
  {
    hide Cached, SkipDelay;
    ReadKeepsValid(t, c, n);
    SkipKeepsValid(t, c);
    var c1 := SkipDelay(c, t.delay);
    var k := Portion(c1, t.end, n);
    var c2 := Advance(c1, k);
    NothingLeftToSkip(c, t.delay, k);
    if AtEnd(c2, t.end) || (k < n && c2.next == |t.blocks|) {
      StoppedReadStays(t, c2, m);
      var o1 := Cached(t, c1)[..k] + [];
      assert o1 + [] == o1;
    } else if k == n {
      SplitSameBlock(t, c, n, m);
    } else {
      ReadSplits(t, Load(t, c2), n - k, m);
      var first := Cached(t, c1)[..k];
      var (c3, o1) := Continue(t, c2, n - k);
      var o2 := Read(t, c3, m).1;
      assert first + (o1 + o2) == first + o1 + o2;
    }
  }

  lemma SplitSameBlock<T>(t: Track<T>, c: Cursor, n: nat, m: nat)
    requires ValidTrack(t) && ValidCursor(t, c) && 0 < n && 0 < m
    requires var c1 := SkipDelay(c, t.delay);
             !AtEnd(c1, t.end) && Portion(c1, t.end, n) == n && !AtEnd(Advance(c1, n), t.end)
    ensures ValidCursor(t, Read(t, c, n).0)
    ensures var (c1, o1) := Read(t, c, n);
            var (c2, o2) := Read(t, c1, m);
            Read(t, c, n + m) == (c2, o1 + o2)
  {
    hide Cached, SkipDelay, AtEnd;
    ReadKeepsValid(t, c, n);
    SkipKeepsValid(t, c);
    var c1 := SkipDelay(c, t.delay);
    var c2 := Advance(c1, n);
    NothingLeftToSkip(c, t.delay, n);
    PortionsJoin(t, c1, n, m);
    var p := Portion(c2, t.end, m);
    var first, second := Cached(t, c1)[..n], Cached(t, c2)[..p];
    var more := Continue(t, Advance(c2, p), m - p).1;
    assert first + (second + more) == first + second + more;
    assert first + [] == first;
  }

  /** The part of a remaining stream that lies after the delay and before the padding. */
  function Clip<T>(rest: seq<T>, current: nat, delay: nat, end: Limit): (w: seq<T>) {
    var from := if current < delay then delay - current else 0;
    var to := if end.Unlimited? then |rest|
              else if end.n < current then 0 else Min(|rest|, end.n - current);
    if from < to then rest[from..to] else []
  }

  function Wanted<T>(t: Track<T>, c: Cursor): (w: seq<T>)
    requires ValidCursor(t, c)
  {
    Clip(Rest(t, c), c.current, t.delay, t.end)
  }

  lemma AdvanceRest<T>(t: Track<T>, c: Cursor, k: nat)
    requires ValidCursor(t, c) && k <= c.remaining
    ensures k <= |Rest(t, c)| && Rest(t, Advance(c, k)) == Rest(t, c)[k..]
  {
    assert Cached(t, Advance(c, k)) == Cached(t, c)[k..];
  }

  lemma LoadRest<T>(t: Track<T>, c: Cursor)
    requires ValidTrack(t) && ValidCursor(t, c) && c.remaining == 0 && c.next < |t.blocks|
    ensures ValidCursor(t, Load(t, c)) && Rest(t, Load(t, c)) == Rest(t, c)
  {
    assert Cached(t, Load(t, c)) == t.blocks[c.next];
    assert Rest(t, c) == From(t.blocks, c.next);
  }

  lemma SkipWanted<T>(t: Track<T>, c: Cursor)
    requires ValidCursor(t, c)
    ensures Wanted(t, SkipDelay(c, t.delay)) == Wanted(t, c)
  {
    hide Rest, Clip;
    if c.current < t.delay {
      var k := Min(c.remaining, t.delay - c.current);
      AdvanceRest(t, c, k);
      ClipSkips(Rest(t, c), c.current, t.delay, t.end, k);
    }
  }

  lemma ClipSkips<T>(rest: seq<T>, current: nat, delay: nat, end: Limit, k: nat)
    requires k <= |rest| && current + k <= delay
    ensures Clip(rest[k..], current + k, delay, end) == Clip(rest, current, delay, end)
  {
  }

  /** What one block gives is the head of what is wanted, and leaves the tail of it. */
  lemma PortionWanted<T>(t: Track<T>, c: Cursor, n: nat)
    requires ValidTrack(t) && ValidCursor(t, c) && !AtEnd(c, t.end)
    requires SkipDelay(c, t.delay) == c
    ensures var k := Portion(c, t.end, n);
            && k <= n && k <= |Wanted(t, c)|
            && Cached(t, c)[..k] == Wanted(t, c)[..k]
            && Wanted(t, Advance(c, k)) == Wanted(t, c)[k..]
            && (k < n ==> AtEnd(Advance(c, k), t.end) || Advance(c, k).remaining == 0)
  {
    hide From;
    var k := Portion(c, t.end, n);
    AdvanceRest(t, c, k);
    if c.current < t.delay {
      assert k == 0;
    } else {
      assert Cached(t, c)[..k] == Rest(t, c)[..k];
    }
  }

  lemma NothingWantedAtEnd<T>(t: Track<T>, c: Cursor)
    requires ValidCursor(t, c)
    requires AtEnd(c, t.end) || (c.remaining == 0 && c.next == |t.blocks|)
    ensures Wanted(t, c) == []
  {
  }

  /**
   * A read of n frames delivers the first n frames of what lies between the delay and the
   * padding, or all of it if there are fewer.
   */
  lemma {:induction false} ReadDelivers<T>(t: Track<T>, c: Cursor, n: nat)
    requires ValidTrack(t) && ValidCursor(t, c)
    ensures Read(t, c, n).1 == Wanted(t, c)[..Min(n, |Wanted(t, c)|)]
    decreases |t.blocks| - c.next
  {
    hide Cached, Wanted, SkipDelay, Portion;
    SkipWanted(t, c);
    SkipKeepsValid(t, c);
    var c1 := SkipDelay(c, t.delay);
    if 0 < n {
      NothingLeftToSkip(c, t.delay, 0);
      if AtEnd(c1, t.end) {
        NothingWantedAtEnd(t, c1);
      } else {
        PortionWanted(t, c1, n);
        var k := Portion(c1, t.end, n);
        var c2 := Advance(c1, k);
        var all := Wanted(t, c);
        if k < n {
          if AtEnd(c2, t.end) || c2.next == |t.blocks| {
            NothingWantedAtEnd(t, c2);
          } else {
            LoadWanted(t, c2);
            ReadDelivers(t, Load(t, c2), n - k);
          }
        }
        assert all[..Min(n, |all|)] == all[..k] + all[k..][..Min(n - k, |all| - k)];
      }
    }
  }

  lemma LoadWanted<T>(t: Track<T>, c: Cursor)
    requires ValidTrack(t) && ValidCursor(t, c) && c.remaining == 0 && c.next < |t.blocks|
    ensures ValidCursor(t, Load(t, c)) && Wanted(t, Load(t, c)) == Wanted(t, c)
  {
    LoadRest(t, c);
  }

  /** The reader went from c to d by passing over d.current - c.current PCM frames. */
  ghost predicate Passed<T>(t: Track<T>, c: Cursor, d: Cursor) {
    && ValidCursor(t, c) && ValidCursor(t, d)
    && c.current <= d.current <= c.current + |Rest(t, c)|
    && Rest(t, d) == Rest(t, c)[d.current - c.current..]
  }

  lemma PassedTransitive<T>(t: Track<T>, a: Cursor, b: Cursor, c: Cursor)
    requires Passed(t, a, b) && Passed(t, b, c)
    ensures Passed(t, a, c)
  {
    hide Rest;
    var i, j := b.current - a.current, c.current - b.current;
    assert Rest(t, a)[i..][j..] == Rest(t, a)[i + j..];
  }

  lemma PassedByAdvance<T>(t: Track<T>, c: Cursor, k: nat)
    requires ValidCursor(t, c) && k <= c.remaining
    ensures Passed(t, c, Advance(c, k))
  {
    AdvanceRest(t, c, k);
  }

  /** What remains after a read is the stream from the new position on. */
  lemma {:induction false} ReadPasses<T>(t: Track<T>, c: Cursor, n: nat)
    requires ValidTrack(t) && ValidCursor(t, c)
    ensures Passed(t, c, Read(t, c, n).0)
    decreases |t.blocks| - c.next
  {
    hide ValidTrack, From, Rest, Cached, Passed, Portion, SkipDelay, Read, Continue, AtEnd;
    ReadUnfolds(t, c, n);
    PassedByAdvance(t, c, 0);
    SkipMoves(t, c);
    SkipKeepsValid(t, c);
    var c1 := SkipDelay(c, t.delay);
    if 0 < n && !AtEnd(c1, t.end) {
      var k := Portion(c1, t.end, n);
      PortionBounds(t, c1, n);
      var c2 := Advance(c1, k);
      PassedByAdvance(t, c1, k);
      PassedTransitive(t, c, c1, c2);
      if k < n && !AtEnd(c2, t.end) && c2.next != |t.blocks| {
        var c3 := Load(t, c2);
        PassedByLoad(t, c2);
        PassedTransitive(t, c, c2, c3);
        ReadPasses(t, c3, n - k);
        PassedTransitive(t, c, c3, Read(t, c3, n - k).0);
      }
    }
  }

  /** A read ends past the delay, once it delivers, by the number of frames it delivered. */
  lemma {:induction false} ReadMoves<T>(t: Track<T>, c: Cursor, n: nat)
    requires ValidTrack(t) && ValidCursor(t, c) && 0 < n
    ensures var (d, out) := Read(t, c, n);
            out != [] || t.delay <= c.current ==> d.current == Max(c.current, t.delay) + |out|
    decreases |t.blocks| - c.next
  {
    hide Cached, Portion, SkipDelay, Read, Continue, AtEnd;
    ReadUnfolds(t, c, n);
    SkipKeepsValid(t, c);
    SkipMax(t, c);
    var c1 := SkipDelay(c, t.delay);
    if !AtEnd(c1, t.end) {
      var k := Portion(c1, t.end, n);
      PortionBounds(t, c1, n);
      var c2 := Advance(c1, k);
      if k < n && !AtEnd(c2, t.end) && c2.next != |t.blocks| {
        ReadMoves(t, Load(t, c2), n - k);
      }
    }
  }

  lemma SkipMax<T>(t: Track<T>, c: Cursor)
    requires ValidCursor(t, c)
    ensures var c1 := SkipDelay(c, t.delay);
            && Max(c1.current, t.delay) == Max(c.current, t.delay)
            && (c1.current < t.delay ==> c1.remaining == 0)
            && (t.delay <= c.current ==> c1 == c)
  {
  }

  lemma PortionBounds<T>(t: Track<T>, c: Cursor, n: nat)
    requires ValidCursor(t, c) && !AtEnd(c, t.end)
    ensures var k := Portion(c, t.end, n);
            k <= c.remaining && k <= n && (k < n ==> AtEnd(Advance(c, k), t.end) || c.remaining == k)
  {
  }

  lemma SkipMoves<T>(t: Track<T>, c: Cursor)
    requires ValidCursor(t, c)
    ensures Passed(t, c, SkipDelay(c, t.delay)) && SkipDelay(c, t.delay).next == c.next
  {
    hide Passed, ValidCursor;
    if c.current < t.delay {
      PassedByAdvance(t, c, Min(c.remaining, t.delay - c.current));
    } else {
      PassedByAdvance(t, c, 0);
      assert Advance(c, 0) == c;
    }
  }

  /** One turn of the read loop. */
  lemma ReadUnfolds<T>(t: Track<T>, c: Cursor, n: nat)
    requires ValidTrack(t) && ValidCursor(t, c)
    ensures n == 0 ==> Read(t, c, n) == (c, [])
    ensures 0 < n && AtEnd(SkipDelay(c, t.delay), t.end) ==> Read(t, c, n) == (SkipDelay(c, t.delay), [])
    ensures 0 < n && !AtEnd(SkipDelay(c, t.delay), t.end) ==>
      var c1 := SkipDelay(c, t.delay);
      var k := Portion(c1, t.end, n);
      var c2 := Advance(c1, k);
      if k == n || AtEnd(c2, t.end) || c2.next == |t.blocks| then
        Read(t, c, n) == (c2, Cached(t, c1)[..k])
      else
        ValidCursor(t, Load(t, c2)) &&
        var (d, more) := Read(t, Load(t, c2), n - k);
        Read(t, c, n) == (d, Cached(t, c1)[..k] + more)
  {
    hide Cached, SkipDelay;
    SkipKeepsValid(t, c);
    var c1 := SkipDelay(c, t.delay);
    if 0 < n && !AtEnd(c1, t.end) {
      var out := Cached(t, c1)[..Portion(c1, t.end, n)];
      assert out + [] == out;
    }
  }

  lemma PassedByLoad<T>(t: Track<T>, c: Cursor)
    requires ValidTrack(t) && ValidCursor(t, c) && c.remaining == 0 && c.next < |t.blocks|
    ensures Passed(t, c, Load(t, c))
  {
    LoadRest(t, c);
  }

  /** A sequence of reads of the given sizes. */
  function ReadAll<T>(t: Track<T>, c: Cursor, sizes: seq<nat>): (r: (Cursor, seq<T>))
    requires ValidTrack(t) && ValidCursor(t, c)
    decreases |sizes|
  {
    if sizes == [] then (c, []) else
    var (c1, o1) := Read(t, c, sizes[0]);
    ReadKeepsValid(t, c, sizes[0]);
    var (c2, o2) := ReadAll(t, c1, sizes[1..]);
    (c2, o1 + o2)
  }

  function Sum(sizes: seq<nat>): (n: nat) {
    if sizes == [] then 0 else sizes[0] + Sum(sizes[1..])
  }

  /** The sizes in which a stream is pulled do not matter, only their sum. */
  lemma {:induction false} ChunkSizesDoNotMatter<T>(t: Track<T>, c: Cursor, sizes: seq<nat>)
    requires ValidTrack(t) && ValidCursor(t, c)
    ensures ReadAll(t, c, sizes) == Read(t, c, Sum(sizes))
    decreases |sizes|
  {
    hide Read, ValidTrack;
    ReadUnfolds(t, c, 0);
    if sizes != [] {
      ReadKeepsValid(t, c, sizes[0]);
      ChunkSizesDoNotMatter(t, Read(t, c, sizes[0]).0, sizes[1..]);
      ReadSplits(t, c, sizes[0], Sum(sizes[1..]));
    }
  }

  /** From the start of the stream, any reads together give a prefix of the audible PCM. */
  lemma ReadsGivePrefix<T>(t: Track<T>, sizes: seq<nat>)
    requires ValidTrack(t)
    ensures var audible := Clip(From(t.blocks, 0), 0, t.delay, t.end);
            ReadAll(t, Cursor(0, 0, 0, 0), sizes).1 == audible[..Min(Sum(sizes), |audible|)]
  {
    var c := Cursor(0, 0, 0, 0);
    ChunkSizesDoNotMatter(t, c, sizes);
    ReadDelivers(t, c, Sum(sizes));
    assert Rest(t, c) == From(t.blocks, 0);
  }
}
