/**
 * Which frames of a Layer III stream yield samples, told by reservoir levels alone: decoding,
 * counting, starting in the middle, and where a jump into the stream lands.
 */
module AcceptedFrames {
  import opened Reservoir
  import opened Words
  import opened Wrappers

  /** A frame whose side information has been accepted. */
  type SoundFrame = f: Frame | f.Checked() witness Frame(0, [], 0)

  /** A decoder before frame `at`, with `fill` bytes in its reservoir. */
  datatype Spot = Spot(at: nat, fill: nat)

  const START := Spot(0, 0)

  /** Reservoir bytes after a frame. */
  function Fill(f: SoundFrame, fill: nat, decode: bool): (r: nat) {
    Min(511, Min(f.begin, fill) + |f.payload| - (if decode && f.begin <= fill then (f.partBits + 7) / 8 else 0))
  }

  /** The levels are those of the byte reservoir. */
  lemma FillIsReservoir(reservoir: seq<byte>, f: SoundFrame, decode: bool)
    ensures |Step(reservoir, Feed(f, decode))| == Fill(f, |reservoir|, decode)
  {
  }

  function Past(fs: seq<SoundFrame>, s: Spot, decode: bool): (t: Spot)
    requires s.at < |fs|
    ensures t.at == s.at + 1
  {
    Spot(s.at + 1, Fill(fs[s.at], s.fill, decode))
  }

  /** A frame without enough reservoir leaves the same in it whether it should be stored or not. */
  lemma RefusedFillsTheSame(f: SoundFrame, fill: nat, store: bool)
    requires fill < f.begin
    ensures Fill(f, fill, store) == Fill(f, fill, false)
  {
  }

  predicate Takes(fs: seq<SoundFrame>, s: Spot)
    requires s.at < |fs|
  {
    fs[s.at].begin <= s.fill
  }

  /** The frames from a spot on that yield samples. */
  function Accepted(fs: seq<SoundFrame>, s: Spot, decode: bool): (idx: seq<nat>)
    requires s.at <= |fs|
    decreases |fs| - s.at
  {
    if s.at == |fs| then []
    else (if Takes(fs, s) then [s.at] else []) + Accepted(fs, Past(fs, s, decode), decode)
  }

  /** The spot at the first frame that yields samples, or at the end: one call of the decoding loop. */
  function Arrive(fs: seq<SoundFrame>, s: Spot): (t: Spot)
    requires s.at <= |fs|
    ensures s.at <= t.at <= |fs| && (t.at < |fs| ==> Takes(fs, t))
    decreases |fs| - s.at
  {
    if s.at == |fs| || Takes(fs, s) then s else Arrive(fs, Past(fs, s, false))
  }

  lemma {:induction false} ArriveAccepts(fs: seq<SoundFrame>, s: Spot, decode: bool)
    requires s.at <= |fs|
    ensures var a := Arrive(fs, s);
            Accepted(fs, s, decode) == if a.at == |fs| then [] else [a.at] + Accepted(fs, Past(fs, a, decode), decode)
    decreases |fs| - s.at
  {
    if s.at < |fs| && !Takes(fs, s) {
      ArriveAccepts(fs, Past(fs, s, false), decode);
    }
  }

  // ----- The byte reservoir -----

  function Feeds(fs: seq<SoundFrame>, decode: bool): (run: seq<Event>)
    ensures |run| == |fs|
  {
    seq(|fs|, i requires 0 <= i < |fs| => Feed(fs[i], decode))
  }

  /** The spot before frame `end`. */
  function SpotAt(fs: seq<SoundFrame>, s: Spot, end: nat, decode: bool): (t: Spot)
    requires s.at <= end <= |fs|
    ensures t.at == end
    decreases end - s.at
  {
    if s.at == end then s else SpotAt(fs, Past(fs, s, decode), end, decode)
  }

  lemma {:induction false} SpotAtNext(fs: seq<SoundFrame>, s: Spot, end: nat, decode: bool)
    requires s.at <= end < |fs|
    ensures SpotAt(fs, s, end + 1, decode) == Past(fs, SpotAt(fs, s, end, decode), decode)
    decreases end - s.at
  {
    if s.at < end {
      SpotAtNext(fs, Past(fs, s, decode), end, decode);
    }
  }

  lemma SliceEnd<T>(s: seq<T>, from: nat, end: nat)
    requires from < end <= |s|
    ensures s[from..end] == s[from..end - 1] + [s[end - 1]]
  {
  }

  /** After any run that left s.fill bytes, such as one that ends in a reset, the levels are those of the byte reservoir. */
  lemma {:induction false} SpotIsReservoir(run: seq<Event>, fs: seq<SoundFrame>, s: Spot, end: nat, decode: bool)
    requires Checked(run) && |After(run)| == s.fill && s.at <= end <= |fs|
    ensures Checked(run + Feeds(fs, decode)[s.at..end])
    ensures SpotAt(fs, s, end, decode).fill == |After(run + Feeds(fs, decode)[s.at..end])|
    decreases end - s.at
  {
    hide Step, Fill, After;
    var all := run + Feeds(fs, decode)[s.at..end];
    if s.at < end {
      SpotIsReservoir(run, fs, s, end - 1, decode);
      SpotAtNext(fs, s, end - 1, decode);
      var before, e := run + Feeds(fs, decode)[s.at..end - 1], Feed(fs[end - 1], decode);
      SliceEnd(Feeds(fs, decode), s.at, end);
      assert all == before + [e];
      AppendEvent(before, e);
      FillIsReservoir(After(before), fs[end - 1], decode);
    } else {
      assert all == run;
    }
  }

  /** The frames accepted before frame `end`. */
  function Before(fs: seq<SoundFrame>, s: Spot, end: nat, decode: bool): (idx: seq<nat>)
    requires s.at <= end <= |fs|
    ensures forall k :: 0 <= k < |idx| ==> s.at <= idx[k] < end
    decreases end - s.at
  {
    if s.at == end then []
    else (if Takes(fs, s) then [s.at] else []) + Before(fs, Past(fs, s, decode), end, decode)
  }

  lemma {:induction false} AcceptedSplits(fs: seq<SoundFrame>, s: Spot, end: nat, decode: bool)
    requires s.at <= end <= |fs|
    ensures Accepted(fs, s, decode) == Before(fs, s, end, decode) + Accepted(fs, SpotAt(fs, s, end, decode), decode)
    decreases end - s.at
  {
    if s.at < end {
      AcceptedSplits(fs, Past(fs, s, decode), end, decode);
    }
  }

  lemma {:induction false} AcceptedFrom(fs: seq<SoundFrame>, s: Spot, decode: bool)
    requires s.at <= |fs|
    ensures forall k :: 0 <= k < |Accepted(fs, s, decode)| ==> s.at <= Accepted(fs, s, decode)[k] < |fs|
    decreases |fs| - s.at
  {
    if s.at < |fs| {
      AcceptedFrom(fs, Past(fs, s, decode), decode);
    }
  }

  /**
   * The listed frames are exactly those that the byte reservoir accepts, from the start of the
   * stream as well as after a jump, which resets it.
   */
  lemma AcceptedIsReservoirs(run: seq<Event>, fs: seq<SoundFrame>, s: Spot, i: nat, decode: bool)
    requires Checked(run) && |After(run)| == s.fill && s.at <= i < |fs|
    ensures Checked(run + Feeds(fs, decode)[s.at..i])
    ensures i in Accepted(fs, s, decode) <==> Accepts(After(run + Feeds(fs, decode)[s.at..i]), fs[i])
  {
    hide Fill, Step;
    SpotIsReservoir(run, fs, s, i, decode);
    var t := SpotAt(fs, s, i, decode);
    AcceptedSplits(fs, s, i, decode);
    AcceptedFrom(fs, Past(fs, t, decode), decode);
  }

  /** A jump empties the reservoir, whatever was decoded before. */
  lemma JumpEmpties(run: seq<Event>)
    requires Checked(run)
    ensures Checked(run + [Reset]) && After(run + [Reset]) == []
  {
  }

  // ----- Decoding against counting -----

  /** No pointer falls between what decoding and what counting leave in the reservoir. */
  predicate NoneInGap(fs: seq<SoundFrame>, at: nat, decoding: nat, counting: nat)
    requires at <= |fs|
    decreases |fs| - at
  {
    at == |fs| ||
    (&& !(decoding < fs[at].begin <= counting)
     && NoneInGap(fs, at + 1, Fill(fs[at], decoding, true), Fill(fs[at], counting, false)))
  }

  lemma CountingKeepsMore(f: SoundFrame, decoding: nat, counting: nat)
    requires decoding <= counting
    ensures Fill(f, decoding, true) <= Fill(f, counting, false)
  {
  }

  /** Sum of the sizes of the listed frames. */
  function Total(sizes: seq<nat>, idx: seq<nat>): (n: nat) {
    if idx == [] then 0 else (if idx[0] < |sizes| then sizes[idx[0]] else 0) + Total(sizes, idx[1..])
  }

  lemma SameHeads(at: nat, d: bool, a: seq<nat>, c: bool, b: seq<nat>)
    requires forall k :: 0 <= k < |a| ==> at < a[k]
    requires d ==> c
    ensures (if d then [at] else []) + a == (if c then [at] else []) + b <==> d == c && a == b
  {
    var x, y := (if d then [at] else []) + a, (if c then [at] else []) + b;
    if d {
      assert x[1..] == a && y[1..] == b;
    } else {
      assert x == a;
      assert if c then y[0] == at else y == b;
    }
  }

  lemma TotalOfHead(sizes: seq<nat>, at: nat, takes: bool, a: seq<nat>)
    requires at < |sizes|
    ensures Total(sizes, (if takes then [at] else []) + a) == (if takes then sizes[at] else 0) + Total(sizes, a)
  {
    if takes {
      assert ([at] + a)[1..] == a;
    } else {
      assert [] + a == a;
    }
  }

  /**
   * Counting and decoding accept the same frames if and only if no reservoir pointer falls into
   * the gap between their two levels, which pointers, payload lengths and part lengths decide.
   */
  lemma {:induction false} SameFramesExactly(fs: seq<SoundFrame>, at: nat, decoding: nat, counting: nat)
    requires at <= |fs| && decoding <= counting
    ensures Accepted(fs, Spot(at, decoding), true) == Accepted(fs, Spot(at, counting), false)
       <==> NoneInGap(fs, at, decoding, counting)
    decreases |fs| - at
  {
    hide Fill, Total;
    if at < |fs| {
      var d, c := Past(fs, Spot(at, decoding), true), Past(fs, Spot(at, counting), false);
      CountingKeepsMore(fs[at], decoding, counting);
      SameFramesExactly(fs, at + 1, d.fill, c.fill);
      AcceptedFrom(fs, d, true);
      SameHeads(at, Takes(fs, Spot(at, decoding)), Accepted(fs, d, true), Takes(fs, Spot(at, counting)), Accepted(fs, c, false));
    }
  }

  /**
   * Counting finds at least as many MP3 frames and PCM frames as decoding, and either number
   * agrees exactly if the frames are the same.
   */
  lemma {:induction false} CountsAgreeExactly(fs: seq<SoundFrame>, sizes: seq<nat>, at: nat, decoding: nat, counting: nat)
    requires |sizes| == |fs| && (forall i :: 0 <= i < |sizes| ==> 0 < sizes[i])
    requires at <= |fs| && decoding <= counting
    ensures var d, c := Accepted(fs, Spot(at, decoding), true), Accepted(fs, Spot(at, counting), false);
            && |d| <= |c| && (|d| == |c| <==> d == c)
            && Total(sizes, d) <= Total(sizes, c) && (Total(sizes, d) == Total(sizes, c) <==> d == c)
    decreases |fs| - at
  {
    hide Fill, Total;
    if at < |fs| {
      var d, c := Past(fs, Spot(at, decoding), true), Past(fs, Spot(at, counting), false);
      CountingKeepsMore(fs[at], decoding, counting);
      CountsAgreeExactly(fs, sizes, at + 1, d.fill, c.fill);
      AcceptedFrom(fs, d, true);
      SameHeads(at, Takes(fs, Spot(at, decoding)), Accepted(fs, d, true), Takes(fs, Spot(at, counting)), Accepted(fs, c, false));
      TotalOfHead(sizes, at, Takes(fs, Spot(at, decoding)), Accepted(fs, d, true));
      TotalOfHead(sizes, at, Takes(fs, Spot(at, counting)), Accepted(fs, c, false));
    }
  }

  // ----- Streams that decode completely -----

  function Indices(from: nat, end: nat): (idx: seq<nat>)
    requires from <= end
    decreases end - from
  {
    if from == end then [] else [from] + Indices(from + 1, end)
  }

  /** Whole bytes of main data that an accepted and decoded frame leaves. */
  function Left(f: SoundFrame): (n: int) {
    Min(511, f.begin + |f.payload| - (f.partBits + 7) / 8)
  }

  /** From frame `from` on no frame points back further than the frame before it leaves. */
  predicate Chained(fs: seq<SoundFrame>, from: nat) {
    forall i :: from < i < |fs| ==> fs[i].begin <= Left(fs[i - 1])
  }

  /** Decoding accepts every frame of the stream. */
  predicate Complete(fs: seq<SoundFrame>) {
    Accepted(fs, START, true) == Indices(0, |fs|)
  }

  lemma {:induction false} IndicesLength(from: nat, end: nat)
    requires from <= end
    ensures |Indices(from, end)| == end - from
    ensures forall k :: 0 <= k < end - from ==> Indices(from, end)[k] == from + k
    decreases end - from
  {
    if from < end {
      IndicesLength(from + 1, end);
    }
  }

  /** A decoder accepts everything from a spot on exactly if it accepts the first frame and the rest is chained. */
  lemma {:induction false} AcceptsAllExactly(fs: seq<SoundFrame>, s: Spot)
    requires s.at < |fs|
    ensures Accepted(fs, s, true) == Indices(s.at, |fs|) <==> Takes(fs, s) && Chained(fs, s.at)
    decreases |fs| - s.at
  {
    var t := Past(fs, s, true);
    var rest := Accepted(fs, t, true);
    AcceptedFrom(fs, t, true);
    if Takes(fs, s) {
      assert ([s.at] + rest)[1..] == rest && Indices(s.at, |fs|)[1..] == Indices(s.at + 1, |fs|);
      if t.at < |fs| {
        AcceptsAllExactly(fs, t);
        assert t.fill == Left(fs[s.at]);
      }
    } else {
      assert Indices(s.at, |fs|)[0] == s.at;
      assert rest != [] ==> rest[0] > s.at;
    }
  }

  /** Decoding accepts every frame exactly if the first points nowhere and the stream is chained; counting does then too. */
  lemma CompleteExactly(fs: seq<SoundFrame>)
    ensures Complete(fs) <==> (fs != [] ==> fs[0].begin == 0 && Chained(fs, 0))
    ensures Complete(fs) ==> Accepted(fs, START, false) == Indices(0, |fs|)
  {
    if fs != [] {
      AcceptsAllExactly(fs, START);
      if Complete(fs) {
        CountsAll(fs, START);
      }
    }
  }

  lemma {:induction false} CountsAll(fs: seq<SoundFrame>, s: Spot)
    requires s.at < |fs| && Takes(fs, s) && Chained(fs, s.at)
    ensures Accepted(fs, s, false) == Indices(s.at, |fs|)
    decreases |fs| - s.at
  {
    if s.at + 1 < |fs| {
      assert fs[s.at + 1].begin <= Left(fs[s.at]);
      CountsAll(fs, Past(fs, s, false));
    }
  }

  // ----- Starting in the middle -----

  /** Before the n-th frame that yields samples when all but the last are only counted; None if the stream ends first. */
  function DropTo(fs: seq<SoundFrame>, s: Spot, n: nat): (t: Option<Spot>)
    requires s.at <= |fs| && 0 < n
    ensures t.Some? ==> s.at + n <= t.value.at + 1 && t.value.at < |fs| && Takes(fs, t.value)
    decreases n
  {
    var a := Arrive(fs, s);
    if a.at == |fs| then None else if n == 1 then Some(a) else DropTo(fs, Past(fs, a, false), n - 1)
  }

  /** Where a jump to frame k and dropping n MP3 frames leads. The decoder starts over with an empty reservoir. */
  function Landing(fs: seq<SoundFrame>, k: nat, n: nat): (s: Option<Spot>)
    requires k <= |fs|
    ensures s.Some? ==> s.value.at <= |fs|
  {
    if n == 0 then Some(Spot(k, 0)) else DropTo(fs, Spot(k, 0), n)
  }

  /** The frames still to be read are those that decoding from the start has left after pcm PCM frames. */
  ghost predicate OnTrack(fs: seq<SoundFrame>, sizes: seq<nat>, pending: seq<nat>, pcm: nat) {
    var all := Accepted(fs, START, true);
    exists m :: 0 <= m <= |all| && pending == all[m..] && Total(sizes, all[..m]) == pcm
  }

  lemma {:induction false} Ascending(fs: seq<SoundFrame>, s: Spot, decode: bool)
    requires s.at <= |fs|
    ensures forall i, j :: 0 <= i < j < |Accepted(fs, s, decode)| ==> Accepted(fs, s, decode)[i] < Accepted(fs, s, decode)[j]
    decreases |fs| - s.at
  {
    if s.at < |fs| {
      Ascending(fs, Past(fs, s, decode), decode);
      AcceptedFrom(fs, Past(fs, s, decode), decode);
    }
  }

  /**
   * A decoder that goes on from a frame it accepts is where reading forward would be if and
   * only if decoding from the start accepts that frame too and has decoded pcm PCM frames
   * before it. From there on both yield the same frames.
   */
  lemma LandsExactly(fs: seq<SoundFrame>, sizes: seq<nat>, s: Spot, pcm: nat)
    requires s.at < |fs| && Takes(fs, s)
    ensures OnTrack(fs, sizes, Accepted(fs, s, true), pcm)
       <==> Takes(fs, SpotAt(fs, START, s.at, true)) && Total(sizes, Before(fs, START, s.at, true)) == pcm
  {
    hide Total, Before, SpotAt;
    var all, here := Accepted(fs, START, true), SpotAt(fs, START, s.at, true);
    var before := Before(fs, START, s.at, true);
    AcceptedSplits(fs, START, s.at, true);
    assert Accepted(fs, s, true)[0] == s.at;
    if Takes(fs, here) {
      assert Past(fs, here, true) == Past(fs, s, true);
      assert all[|before|..] == Accepted(fs, here, true) == Accepted(fs, s, true);
      assert all[..|before|] == before;
    }
    if m :| 0 <= m <= |all| && Accepted(fs, s, true) == all[m..] && Total(sizes, all[..m]) == pcm {
      assert all[m] == s.at;
      AcceptedFrom(fs, Past(fs, here, true), true);
      assert Takes(fs, here);
      Ascending(fs, START, true);
      assert all[|before|] == s.at;
      assert m == |before|;
    }
  }

  lemma {:induction false} StartsSame(fs: seq<SoundFrame>, end: nat)
    requires end <= |fs| && Complete(fs)
    ensures Before(fs, START, end, true) == Indices(0, end)
    ensures 0 < end ==> SpotAt(fs, START, end, true).fill == Left(fs[end - 1])
    ensures end < |fs| ==> Takes(fs, SpotAt(fs, START, end, true))
  {
    CompleteExactly(fs);
    if 0 < end {
      StartsSame(fs, end - 1);
      SpotAtNext(fs, START, end - 1, true);
      BeforeNext(fs, START, end - 1, true);
      IndicesEnd(0, end - 1);
    }
  }

  lemma {:induction false} BeforeNext(fs: seq<SoundFrame>, s: Spot, end: nat, decode: bool)
    requires s.at <= end < |fs|
    ensures Before(fs, s, end + 1, decode)
         == Before(fs, s, end, decode) + (if Takes(fs, SpotAt(fs, s, end, decode)) then [end] else [])
    decreases end - s.at
  {
    if s.at < end {
      BeforeNext(fs, Past(fs, s, decode), end, decode);
    } else {
      assert Before(fs, Past(fs, s, decode), end + 1, decode) == [];
    }
  }

  lemma {:induction false} IndicesEnd(from: nat, end: nat)
    requires from <= end
    ensures Indices(from, end + 1) == Indices(from, end) + [end]
    decreases end - from
  {
    if from < end {
      IndicesEnd(from + 1, end);
    }
  }

  lemma {:induction false} TotalGrows(sizes: seq<nat>, i: nat, j: nat)
    requires i < j <= |sizes| && forall k :: 0 <= k < |sizes| ==> 0 < sizes[k]
    ensures Total(sizes, Indices(0, i)) < Total(sizes, Indices(0, j))
  {
    IndicesEnd(0, j - 1);
    TotalJoins(sizes, Indices(0, j - 1), [j - 1]);
    if i < j - 1 {
      TotalGrows(sizes, i, j - 1);
    }
  }

  lemma {:induction false} TotalJoins(sizes: seq<nat>, a: seq<nat>, b: seq<nat>)
    ensures Total(sizes, a + b) == Total(sizes, a) + Total(sizes, b)
  {
    if a == [] {
      assert a + b == b;
    } else {
      assert (a + b)[1..] == a[1..] + b;
      TotalJoins(sizes, a[1..], b);
    }
  }

  /**
   * In a stream that decodes completely a jump to frame k, for a table that counts k + 1 MP3
   * frames up to the landing place, is right if and only if frame k needs no earlier data.
   */
  lemma CompleteLandsExactly(fs: seq<SoundFrame>, sizes: seq<nat>, k: nat)
    requires Complete(fs) && k + 2 <= |fs| == |sizes| && forall i :: 0 <= i < |sizes| ==> 0 < sizes[i]
    ensures (Landing(fs, k, 2).Some?
             && OnTrack(fs, sizes, Accepted(fs, Landing(fs, k, 2).value, true), Total(sizes, Indices(0, k + 1))))
       <==> fs[k].begin == 0
  {
    hide Total, OnTrack, Accepted, SpotAt, Before, Complete;
    CompleteExactly(fs);
    if fs[k].begin == 0 {
      assert fs[k + 1].begin <= Left(fs[k]);
      assert Arrive(fs, Spot(k, 0)) == Spot(k, 0);
      assert Landing(fs, k, 2) == DropTo(fs, Past(fs, Spot(k, 0), false), 1) == Some(Past(fs, Spot(k, 0), false));
    }
    if Landing(fs, k, 2).Some? {
      var s := Landing(fs, k, 2).value;
      LandsExactly(fs, sizes, s, Total(sizes, Indices(0, k + 1)));
      StartsSame(fs, s.at);
      if k + 1 < s.at {
        TotalGrows(sizes, k + 1, s.at);
      }
    }
  }

  /** Frames of 96 bytes (32 kbit/s, 48 kHz, mono): one that leaves a byte, and one that uses it and leaves one. */
  function Leading(payload: seq<byte>): (f: SoundFrame)
    requires |payload| == 75
  {
    Frame(0, payload, 592)
  }

  function Following(payload: seq<byte>): (f: SoundFrame)
    requires |payload| == 75
  {
    Frame(1, payload, 600)
  }

  /**
   * An ordinary stream in which every frame but the first uses one byte of the frame before:
   * it decodes completely, but a jump to its second frame lands one MP3 frame late.
   */
  lemma PointerShiftsLanding(payload: seq<byte>)
    requires |payload| == 75
    ensures var next := Following(payload);
            var fs := [Leading(payload), next, next, next, next];
            Complete(fs) && Landing(fs, 1, 2) == Some(Spot(3, 76))
  {
    var next := Following(payload);
    var fs := [Leading(payload), next, next, next, next];
    CompleteExactly(fs);
    assert Past(fs, Spot(1, 0), false) == Spot(2, 75);
    assert Arrive(fs, Spot(1, 0)) == Arrive(fs, Spot(2, 75)) == Spot(2, 75);
    assert Past(fs, Spot(2, 75), false) == Spot(3, 76);
    assert Arrive(fs, Spot(3, 76)) == Spot(3, 76);
    assert DropTo(fs, Spot(3, 76), 1) == Some(Spot(3, 76));
  }

  /** What comes after a jump to the start is what decoding from the start yields. */
  lemma StartIsOnTrack(fs: seq<SoundFrame>, sizes: seq<nat>)
    ensures OnTrack(fs, sizes, Accepted(fs, START, true), 0)
  {
    var all := Accepted(fs, START, true);
    assert all == all[0..] && Total(sizes, all[..0]) == 0;
  }
}
