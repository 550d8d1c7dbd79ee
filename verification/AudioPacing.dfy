/** The audio queue between the core and the frontend, drained once per video frame. */
module AudioPacing {
  /** One stereo sample frame. */
  datatype Sample = Sample(left: int, right: int)

  /** What the frontend reports about its own buffer, with an occupancy in percent. */
  datatype Report = Report(active: bool, underrunLikely: bool, occupancy: nat)

  /** Extra frames when the frontend is running dry: 15 to 50 percent, at most what is above one video frame. */
  function Boost(perFrame: real, avail: nat, r: Report): (b: real)
    requires 0.0 < perFrame
  {
    if r.active && r.underrunLikely && perFrame.Floor < avail then
      var low := (50 - (if r.occupancy < 50 then r.occupancy else 50)) as real / 50.0;
      var boost := perFrame * (0.15 + low * 0.35);
      if boost < avail as real - perFrame then boost else avail as real - perFrame
    else 0.0
  }

  lemma BoostIsNotNegative(perFrame: real, avail: nat, r: Report)
    requires 0.0 < perFrame
    ensures 0.0 <= Boost(perFrame, avail, r)
  {
    var low := (50 - (if r.occupancy < 50 then r.occupancy else 50)) as real / 50.0;
    assert 0.0 <= low;
    Product(perFrame, 0.15 + low * 0.35);
  }

  lemma Product(a: real, b: real)
    requires 0.0 <= a && 0.0 <= b
    ensures 0.0 <= a * b
  {
  }

  /**
   * What a report asks for: nothing unless the frontend is active and likely to run dry with more
   * than a video frame queued; then 50 percent of a frame at an empty buffer, seven tenths of a
   * percent less for each percent of occupancy up to 50, and never more than lies above one frame.
   */
  ghost predicate Asks(perFrame: real, avail: nat, r: Report, b: real) {
    var spare := avail as real - perFrame;
    if r.active && r.underrunLikely && 0.0 < spare then
      var percent := if 50 <= r.occupancy then 15.0 else 50.0 - 0.7 * r.occupancy as real;
      var share := perFrame * (percent / 100.0);
      b == if share < spare then share else spare
    else b == 0.0
  }

  lemma BoostIsAsked(perFrame: real, avail: nat, r: Report)
    requires 0.0 < perFrame
    ensures Asks(perFrame, avail, r, Boost(perFrame, avail, r))
  {
    var low := (50 - (if r.occupancy < 50 then r.occupancy else 50)) as real / 50.0;
    var percent := if 50 <= r.occupancy then 15.0 else 50.0 - 0.7 * r.occupancy as real;
    assert 0.15 + low * 0.35 == percent / 100.0;
    assert perFrame.Floor < avail <==> perFrame < avail as real;
  }

  /** Frames to send and the fraction carried over. */
  datatype Pace = Pace(want: nat, frac: real)

  /** One video frame's worth, steered by a twentieth of the distance to a depth of 1.5 frames. */
  function Emit(perFrame: real, avail: nat, boost: real): (e: real) {
    perFrame + (avail as real - perFrame * 1.5) * 0.05 + boost
  }

  /** The pacing decision of libretro_drain_audio_frame. */
  function Decide(frac: real, perFrame: real, avail: nat, boost: real): (p: Pace) {
    var total := frac + Emit(perFrame, avail, boost);
    var want := if total < 0.0 then 0 else total.Floor;
    if avail < want then Pace(avail, 0.0) else Pace(want, total - want as real)
  }

  /**
   * The carried fraction stays in [0, 1): nothing is rounded away, and the branch for a
   * negative amount is never taken.
   */
  lemma FractionStaysProper(frac: real, perFrame: real, avail: nat, boost: real)
    requires 0.0 <= frac < 1.0 && 0.0 < perFrame && 0.0 <= boost
    ensures var p := Decide(frac, perFrame, avail, boost);
            && 0.0 <= p.frac < 1.0 && p.want <= avail
            && 0.0 < frac + Emit(perFrame, avail, boost)
            && (p.want as real + p.frac == frac + Emit(perFrame, avail, boost)
                || (p.want == avail && avail as real < frac + Emit(perFrame, avail, boost)))
  {
  }

  /** One frame of the run: what the core produced, and what the frontend reports and takes. */
  datatype Frame = Frame(produced: seq<Sample>, report: Report, room: nat)

  datatype State = State(fifo: seq<Sample>, frac: real, sent: seq<Sample>)

  const START := State([], 0.0, [])

  /** The depth the pacing sees: the queue after this frame's samples have been added. */
  function Depth(s: State, f: Frame): (n: nat) {
    |s.fifo| + |f.produced|
  }

  function PaceOf(s: State, f: Frame, perFrame: real): (p: Pace)
    requires 0.0 < perFrame
  {
    Decide(s.frac, perFrame, Depth(s, f), Boost(perFrame, Depth(s, f), f.report))
  }

  /** Enqueue, then drain; the frontend takes at most its room and leaves the rest queued. */
  function Step(s: State, f: Frame, perFrame: real): (t: State)
    requires 0.0 < perFrame
  {
    var all := s.fifo + f.produced;
    var p := PaceOf(s, f, perFrame);
    var n := if p.want < f.room then p.want else f.room;
    if n <= |all| then State(all[n..], p.frac, s.sent + all[..n]) else s
  }

  function Run(s: State, fs: seq<Frame>, perFrame: real): (t: State)
    requires 0.0 < perFrame
  {
    if fs == [] then s else Step(Run(s, fs[..|fs| - 1], perFrame), fs[|fs| - 1], perFrame)
  }

  ghost predicate Proper(s: State) {
    0.0 <= s.frac < 1.0
  }

  lemma StepStaysProper(s: State, f: Frame, perFrame: real)
    requires Proper(s) && 0.0 < perFrame
    ensures var p, t, n := PaceOf(s, f, perFrame), Step(s, f, perFrame), Depth(s, f);
            && Proper(t) && p.want <= n
            && |t.fifo| == n - (if p.want < f.room then p.want else f.room)
            && t.sent + t.fifo == s.sent + s.fifo + f.produced
  {
    hide Boost, Decide;
    BoostIsNotNegative(perFrame, Depth(s, f), f.report);
    FractionStaysProper(s.frac, perFrame, Depth(s, f), Boost(perFrame, Depth(s, f), f.report));
  }

  /**
   * One video frame in whole: a frame's worth, a twentieth of the distance of the depth from one
   * and a half, and what the report asks for, with the fraction so far, are sent in whole samples.
   * The rest is carried over unless the queue ran out, and what the frontend has no room for stays.
   */
  lemma FrameIsPaced(s: State, f: Frame, perFrame: real, b: real)
    requires Proper(s) && 0.0 < perFrame && Asks(perFrame, |s.fifo + f.produced|, f.report, b)
    ensures var all, t := s.fifo + f.produced, Step(s, f, perFrame);
            var total := s.frac + perFrame + (|all| as real - 1.5 * perFrame) / 20.0 + b;
            var want := if |all| < total.Floor then |all| else total.Floor;
            && 0.0 < total && t.sent == s.sent + all[..if f.room < want then f.room else want]
            && t.fifo == all[if f.room < want then f.room else want..]
            && t.frac == if |all| < total.Floor then 0.0 else total - total.Floor as real
  {
    hide Boost;
    var all := s.fifo + f.produced;
    BoostIsAsked(perFrame, |all|, f.report);
    BoostIsNotNegative(perFrame, |all|, f.report);
    assert b == Boost(perFrame, |all|, f.report);
    FractionStaysProper(s.frac, perFrame, |all|, b);
    assert Emit(perFrame, |all|, b) == perFrame + (|all| as real - 1.5 * perFrame) / 20.0 + b;
  }

  function Produced(fs: seq<Frame>): (all: seq<Sample>) {
    if fs == [] then [] else Produced(fs[..|fs| - 1]) + fs[|fs| - 1].produced
  }

  /** Whatever the frontend takes and when: what was sent, followed by the queue, is what was produced. */
  lemma {:induction false} RunConserves(s: State, fs: seq<Frame>, perFrame: real)
    requires Proper(s) && 0.0 < perFrame
    ensures var t := Run(s, fs, perFrame);
            Proper(t) && t.sent + t.fifo == s.sent + s.fifo + Produced(fs)
  {
    hide Step;
    if fs == [] {
      assert s.sent + s.fifo + [] == s.sent + s.fifo;
    } else {
      RunConserves(s, fs[..|fs| - 1], perFrame);
      StepStaysProper(Run(s, fs[..|fs| - 1], perFrame), fs[|fs| - 1], perFrame);
      assert s.sent + s.fifo + Produced(fs[..|fs| - 1]) + fs[|fs| - 1].produced == s.sent + s.fifo + Produced(fs);
    }
  }

  // ----- Depth -----

  /** In every frame the core produces at most spread too much and the frontend takes all that is sent. */
  ghost predicate Served(s: State, fs: seq<Frame>, perFrame: real, spread: real)
    requires 0.0 < perFrame
  {
    fs == [] ||
    var before, f := Run(s, fs[..|fs| - 1], perFrame), fs[|fs| - 1];
    && Served(s, fs[..|fs| - 1], perFrame, spread)
    && |f.produced| as real <= perFrame + spread && PaceOf(before, f, perFrame).want <= f.room
  }

  /** The core does not produce much too little either, and the frontend asks for no boost. */
  ghost predicate Calm(fs: seq<Frame>, perFrame: real, spread: real) {
    forall f :: f in fs ==> perFrame - spread <= |f.produced| as real && !f.report.underrunLikely
  }

  /** What a deviation shrinks to in n frames: five percent are taken off in each. */
  function Gap(g: real, n: nat): (r: real) {
    if n == 0 then g else 0.95 * Gap(g, n - 1)
  }

  lemma {:induction false} GapShrinks(g: real, n: nat)
    requires 0.0 <= g
    ensures 0.0 <= Gap(g, n) <= g
  {
    if n > 0 {
      GapShrinks(g, n - 1);
    }
  }

  lemma {:induction false} GapHalves(g: real, n: nat)
    requires 0.0 <= g
    ensures 2.0 * Gap(g, n + 14) <= Gap(g, n)
  {
    GapShrinks(g, n);
    GapInFour(g, n);
    GapInFour(g, n + 4);
    GapInFour(g, n + 8);
    assert Gap(g, n + 13) == 0.95 * Gap(g, n + 12);
  }

  lemma GapInFour(g: real, n: nat)
    ensures Gap(g, n + 4) == 0.81450625 * Gap(g, n)
  {
    assert Gap(g, n + 1) == 0.95 * Gap(g, n);
    assert Gap(g, n + 2) == 0.95 * Gap(g, n + 1);
    assert Gap(g, n + 3) == 0.95 * Gap(g, n + 2);
  }

  /** Half a frame stays queued, give or take 19 spreads and 20 samples, and a deviation g. */
  ghost predicate Above(q: nat, perFrame: real, spread: real, g: real) {
    perFrame * 0.5 - 19.0 * spread - 20.0 - g <= q as real
  }

  ghost predicate Below(q: nat, perFrame: real, spread: real, g: real) {
    q as real <= perFrame * 0.5 + 19.0 * spread + 20.0 + g
  }

  lemma StepStaysBelow(s: State, f: Frame, perFrame: real, spread: real, g: real)
    requires Proper(s) && 0.0 < perFrame && 0.0 <= spread && 0.0 <= g
    requires Below(|s.fifo|, perFrame, spread, g)
    requires |f.produced| as real <= perFrame + spread && PaceOf(s, f, perFrame).want <= f.room
    ensures Below(|Step(s, f, perFrame).fifo|, perFrame, spread, 0.95 * g)
  {
    hide Boost, Step;
    BoostIsNotNegative(perFrame, Depth(s, f), f.report);
    StepStaysProper(s, f, perFrame);
  }

  lemma StepStaysAbove(s: State, f: Frame, perFrame: real, spread: real, g: real)
    requires Proper(s) && 0.0 < perFrame && 0.0 <= spread && 0.0 <= g
    requires Above(|s.fifo|, perFrame, spread, g)
    requires perFrame - spread <= |f.produced| as real && !f.report.underrunLikely
    ensures Above(|Step(s, f, perFrame).fifo|, perFrame, spread, 0.95 * g)
  {
  }

  /** Whatever the queue starts with, the excess over its band decays by five percent a frame. */
  lemma {:induction false} ExcessDecays(s: State, fs: seq<Frame>, perFrame: real, spread: real, g: real)
    requires Proper(s) && 0.0 < perFrame && 0.0 <= spread && 0.0 <= g
    requires Below(|s.fifo|, perFrame, spread, g) && Served(s, fs, perFrame, spread)
    ensures Below(|Run(s, fs, perFrame).fifo|, perFrame, spread, Gap(g, |fs|))
  {
    hide Step, Below, PaceOf;
    if fs != [] {
      ExcessDecays(s, fs[..|fs| - 1], perFrame, spread, g);
      GapShrinks(g, |fs| - 1);
      RunConserves(s, fs[..|fs| - 1], perFrame);
      StepStaysBelow(Run(s, fs[..|fs| - 1], perFrame), fs[|fs| - 1], perFrame, spread, Gap(g, |fs| - 1));
    }
  }

  /** So does a shortage, as long as no boost is asked for. */
  lemma {:induction false} ShortageDecays(s: State, fs: seq<Frame>, perFrame: real, spread: real, g: real)
    requires Proper(s) && 0.0 < perFrame && 0.0 <= spread && 0.0 <= g
    requires Above(|s.fifo|, perFrame, spread, g) && Calm(fs, perFrame, spread)
    ensures Above(|Run(s, fs, perFrame).fifo|, perFrame, spread, Gap(g, |fs|))
  {
    hide Step, Above;
    if fs != [] {
      ShortageDecays(s, fs[..|fs| - 1], perFrame, spread, g);
      GapShrinks(g, |fs| - 1);
      RunConserves(s, fs[..|fs| - 1], perFrame);
      StepStaysAbove(Run(s, fs[..|fs| - 1], perFrame), fs[|fs| - 1], perFrame, spread, Gap(g, |fs| - 1));
    }
  }

  lemma {:induction false} NoGap(n: nat)
    ensures Gap(0.0, n) == 0.0
  {
    if n > 0 {
      NoGap(n - 1);
    }
  }

  /** From an empty queue the depth at a drain never exceeds 1.5 frames plus 20 (spread + 1) samples. */
  lemma DepthIsBounded(fs: seq<Frame>, f: Frame, perFrame: real, spread: real)
    requires 0.0 < perFrame && 0.0 <= spread && Served(START, fs, perFrame, spread)
    requires |f.produced| as real <= perFrame + spread
    ensures Depth(Run(START, fs, perFrame), f) as real <= perFrame * 1.5 + 20.0 * (spread + 1.0)
  {
    hide Run, Served;
    ExcessDecays(START, fs, perFrame, spread, 0.0);
    NoGap(|fs|);
  }

  // ----- The program -----

  /** Where the samples go: nowhere, to a batch callback that takes `room` frames before it pushes back, or one by one. */
  datatype Sink = NoCallback | Batch(room: nat) | Single

  class AudioQueue {
    var fifo: seq<Sample>
    var frac: real

    /** libretro_audio_reset. */
    constructor ()
      ensures fifo == [] && frac == 0.0
    {
      fifo, frac := [], 0.0;
    }

    /** libretro_audio_enqueue. */
    method Enqueue(samples: seq<Sample>)
      modifies this
      ensures fifo == old(fifo) + samples && frac == old(frac)
    {
      if samples == [] {
        return;
      }
      fifo := fifo + samples;
    }

    /**
     * libretro_drain_audio_frame. Without a callback the queue is dropped, without a rate it is
     * left alone; else exactly the frames the pacing wants and the sink takes leave its front.
     */
    method DrainFrame(rateKnown: bool, perFrame: real, report: Report, sink: Sink) returns (sent: seq<Sample>)
      requires rateKnown ==> 0.0 < perFrame
      requires 0.0 <= frac < 1.0
      modifies this
      ensures 0.0 <= frac < 1.0
      ensures sink.NoCallback? ==> sent == [] && fifo == [] && frac == old(frac)
      ensures !sink.NoCallback? ==> sent + fifo == old(fifo)
      ensures !sink.NoCallback? && !rateKnown ==> sent == [] && frac == old(frac)
      ensures !sink.NoCallback? && rateKnown ==>
                var p := Decide(old(frac), perFrame, |old(fifo)|, Boost(perFrame, |old(fifo)|, report));
                && frac == p.frac
                && |sent| == if sink.Batch? && sink.room < p.want then sink.room else p.want
    {
      sent := [];
      if sink.NoCallback? {
        fifo := [];
        return;
      }
      if !rateKnown {
        return;
      }
      var avail := |fifo|;
      var want := Settle(perFrame, report);
      if want <= 0 {
        return;
      }
      if sink.Batch? {
        sent := SendBatches(want, sink.room);
      } else {
        sent := fifo[..want];
      }
      fifo := fifo[|sent|..];
    }

    /** One video frame on a batch frontend does exactly what the run model says. */
    method VideoFrame(f: Frame, perFrame: real) returns (sent: seq<Sample>)
      requires 0.0 < perFrame && 0.0 <= frac < 1.0
      modifies this
      ensures State(fifo, frac, sent) == Step(State(old(fifo), old(frac), []), f, perFrame)
    {
      hide Boost, Decide;
      ghost var s := State(fifo, frac, []);
      StepStaysProper(s, f, perFrame);
      Enqueue(f.produced);
      ghost var all := fifo;
      sent := DrainFrame(true, perFrame, f.report, Batch(f.room));
      assert sent == all[..|sent|] && fifo == all[|sent|..];
    }

    /** The arithmetic of the drain: how many frames to send, with the fraction carried over. */
    method Settle(perFrame: real, report: Report) returns (want: nat)
      requires 0.0 < perFrame && 0.0 <= frac < 1.0
      modifies this`frac
      ensures var p := Decide(old(frac), perFrame, |fifo|, Boost(perFrame, |fifo|, report));
              want == p.want <= |fifo| && frac == p.frac && 0.0 <= frac < 1.0
    {
      hide Boost;
      BoostIsNotNegative(perFrame, |fifo|, report);
      FractionStaysProper(frac, perFrame, |fifo|, Boost(perFrame, |fifo|, report));
      frac := frac + Emit(perFrame, |fifo|, Boost(perFrame, |fifo|, report));
      var whole: int := if frac < 0.0 then 0 else frac.Floor;
      frac := frac - whole as real;
      if |fifo| < whole {
        whole := |fifo|;
        frac := 0.0;
      }
      want := whole;
    }

    /** Batches of at most 2048 frames, until all are sent or the frontend takes less than offered. */
    method SendBatches(want: nat, room: nat) returns (sent: seq<Sample>)
      requires want <= |fifo|
      ensures sent == fifo[..if room < want then room else want]
    {
      var done := 0;
      while done < want
        invariant done <= want && done <= room
        decreases want - done
      {
        var chunk := if want - done < 2048 then want - done else 2048;
        var accepted := if chunk < room - done then chunk else room - done;
        done := done + accepted;
        if accepted < chunk {
          break;
        }
      }
      return fifo[..done];
    }
  }
}
