/** Hysteresis for the automatic crop: a new crop is adopted only after it has been steady. */
module CropStabiliser {
  import opened CropRects
  import opened Wrappers

  /** A crop as the core reports it; inactive means the whole frame. */
  datatype Crop = Crop(rect: Rect, aspect: real, active: bool) {
    /** libretro_crop_equals: the aspect does not count. */
    predicate Same(other: Crop) { active == other.active && rect == other.rect }
    predicate FitsSurface(width: int, height: int) { active && rect.Fits(width, height) }
  }

  const NO_CROP := Crop(EMPTY, 0.0, false)

  predicate ExpandsToInclude(current: Rect, next: Rect) {
    next.Covers(current) && next != current
  }

  function FramesRequired(current: Rect, next: Rect): (n: nat) {
    if ExpandsToInclude(current, next) then 6 else 18
  }

  /** A pending crop and for how many frames in a row it has been asked for. */
  datatype Pending = Pending(crop: Crop, frames: nat)

  datatype State = State(submitted: Option<Crop>, pending: Option<Pending>)

  /** One frame's request: the surface size and the crop computed for it. */
  datatype Frame = Frame(width: int, height: int, crop: Crop)

  /** How often the crop has been asked for in a row, this frame included. */
  function Streak(p: Option<Pending>, c: Crop): (n: nat) {
    if p.None? || !c.Same(p.value.crop) then 1 else p.value.frames + 1
  }

  /** libretro_stabilize_auto_crop: the state after a frame. */
  function Step(s: State, f: Frame): (t: State) {
    if !f.crop.active then State(None, None)
    else if s.submitted.None? || !s.submitted.value.FitsSurface(f.width, f.height) then State(Some(f.crop), None)
    else if f.crop.Same(s.submitted.value) then State(s.submitted, None)
    else
      var n := Streak(s.pending, f.crop);
      var pending := if s.pending.Some? && f.crop.Same(s.pending.value.crop) then s.pending.value.crop else f.crop;
      if FramesRequired(s.submitted.value.rect, f.crop.rect) <= n then State(Some(f.crop), None)
      else State(s.submitted, Some(Pending(pending, n)))
  }

  /** The crop the frame is shown with. */
  function Shown(s: State, f: Frame): (c: Crop) {
    if !f.crop.active then f.crop else Step(s, f).submitted.value
  }

  function Run(fs: seq<Frame>): (s: State) {
    if fs == [] then State(None, None) else Step(Run(fs[..|fs| - 1]), fs[|fs| - 1])
  }

  /** The last n frames all asked for the crop c. */
  ghost predicate Steady(fs: seq<Frame>, n: nat, c: Crop) {
    n <= |fs| && forall i :: |fs| - n <= i < |fs| ==> fs[i].crop.Same(c)
  }

  /** The pending crop is what the last frames asked for, and it is not shown yet. */
  ghost predicate PendingIsSteady(fs: seq<Frame>, s: State) {
    s.pending.Some? ==>
      && s.submitted.Some? && !s.pending.value.crop.Same(s.submitted.value)
      && 1 <= s.pending.value.frames && Steady(fs, s.pending.value.frames, s.pending.value.crop)
  }

  lemma {:induction false} RunIsSteady(fs: seq<Frame>)
    ensures PendingIsSteady(fs, Run(fs))
  {
    if fs != [] {
      RunIsSteady(fs[..|fs| - 1]);
    }
  }

  /**
   * While the shown crop fits the surface it changes only to a crop that has been asked for in
   * each of the last 6 frames if it takes in the current one, and in the last 18 otherwise.
   */
  lemma ChangeNeedsSteadyRequests(fs: seq<Frame>, f: Frame)
    requires var s := Run(fs);
             s.submitted.Some? && s.submitted.value.FitsSurface(f.width, f.height) && f.crop.active
    ensures var was, now := Run(fs).submitted.value, Step(Run(fs), f).submitted;
            && now.Some?
            && (!now.value.Same(was) ==> now.value == f.crop && Steady(fs + [f], FramesRequired(was.rect, f.crop.rect), f.crop))
  {
    RunIsSteady(fs);
    var s := Run(fs);
    if !Step(s, f).submitted.value.Same(s.submitted.value) {
      var n := Streak(s.pending, f.crop);
      assert Steady(fs + [f], n, f.crop);
    }
  }

  function RunFrom(s: State, fs: seq<Frame>): (t: State) {
    if fs == [] then s else Step(RunFrom(s, fs[..|fs| - 1]), fs[|fs| - 1])
  }

  /** For how many frames c has been pending. */
  function Count(s: State, c: Crop): (n: nat) {
    if s.pending.Some? && c.Same(s.pending.value.crop) then s.pending.value.frames else 0
  }

  /** A crop is pending only while its streak is too short. */
  ghost predicate PendingIsShort(s: State) {
    s.pending.Some? ==>
      && s.submitted.Some?
      && s.pending.value.frames < FramesRequired(s.submitted.value.rect, s.pending.value.crop.rect)
  }

  lemma RunKeepsPendingShort(s: State, fs: seq<Frame>)
    requires PendingIsShort(s)
    ensures PendingIsShort(RunFrom(s, fs))
  {
  }

  /** A steady request for another crop on surfaces the shown one fits. */
  ghost predicate AsksFor(s: State, fs: seq<Frame>, c: Crop) {
    && c.active && s.submitted.Some? && !c.Same(s.submitted.value)
    && forall f :: f in fs ==> f.crop.Same(c) && s.submitted.value.FitsSurface(f.width, f.height)
  }

  /** The adoption of a steady request comes at exactly the frame that completes its streak. */
  lemma {:induction false} AdoptedExactly(s: State, fs: seq<Frame>, c: Crop)
    requires AsksFor(s, fs, c) && PendingIsShort(s)
    requires Count(s, c) + |fs| <= FramesRequired(s.submitted.value.rect, c.rect)
    ensures var t := RunFrom(s, fs);
            if Count(s, c) + |fs| < FramesRequired(s.submitted.value.rect, c.rect)
            then t.submitted == s.submitted && Count(t, c) == Count(s, c) + |fs|
            else fs != [] && t == State(Some(fs[|fs| - 1].crop), None)
  {
    hide ExpandsToInclude;
    if fs != [] {
      var before := RunFrom(s, fs[..|fs| - 1]);
      AdoptedExactly(s, fs[..|fs| - 1], c);
      assert fs[|fs| - 1].crop.Same(c);
    }
  }

  /**
   * A new request is shown with its sixth frame in a row if it takes in all of the crop that is
   * shown, and with its eighteenth otherwise; until then nothing changes.
   */
  lemma NewRequestIsShown(s: State, fs: seq<Frame>, c: Crop)
    requires AsksFor(s, fs, c) && PendingIsShort(s) && fs != []
    requires s.pending.Some? ==> !c.Same(s.pending.value.crop)
    ensures var was, next := s.submitted.value.rect, c.rect;
            var grows := && next.x <= was.x && was.x + was.w <= next.x + next.w
                         && next.y <= was.y && was.y + was.h <= next.y + next.h;
            var t, streak := RunFrom(s, fs), if grows then 6 else 18;
            && (|fs| < streak ==> t.submitted == s.submitted)
            && (|fs| == streak ==> t == State(Some(fs[|fs| - 1].crop), None))
  {
    if |fs| <= FramesRequired(s.submitted.value.rect, c.rect) {
      AdoptedExactly(s, fs, c);
    }
    assert s.submitted.value.FitsSurface(fs[0].width, fs[0].height);
  }

  /** While c is asked for it is shown, or its streak is growing. */
  lemma {:induction false} ShownOrCounting(s: State, fs: seq<Frame>, c: Crop)
    requires c.active && fs != [] && forall f :: f in fs ==> f.crop.Same(c)
    ensures var t := RunFrom(s, fs);
            t.submitted.Some? && (t.submitted.value.Same(c) || |fs| <= Count(t, c))
  {
    assert fs[|fs| - 1].crop.Same(c);
    if |fs| > 1 {
      ShownOrCounting(s, fs[..|fs| - 1], c);
    } else {
      assert RunFrom(s, []) == s;
      assert fs[..0] == [];
    }
  }

  /** From any reachable state, whatever the surface does, 18 requests in a row are granted. */
  lemma SteadyRequestIsGranted(before: seq<Frame>, fs: seq<Frame>, c: Crop)
    requires c.active && 18 <= |fs| && forall f :: f in fs ==> f.crop.Same(c)
    ensures var t := RunFrom(Run(before), fs); t.submitted.Some? && t.submitted.value.Same(c)
  {
    hide Step;
    RunIsRunFrom(before);
    RunKeepsPendingShort(State(None, None), before);
    RunKeepsPendingShort(Run(before), fs);
    ShownOrCounting(Run(before), fs, c);
  }

  lemma {:induction false} RunIsRunFrom(fs: seq<Frame>)
    ensures RunFrom(State(None, None), fs) == Run(fs)
  {
    hide Step;
    if fs != [] {
      RunIsRunFrom(fs[..|fs| - 1]);
    }
  }

  /** The crop shown fits the surface of its frame, in any state, if the crop asked for does. */
  lemma ShownFits(s: State, f: Frame)
    requires f.crop.active ==> f.crop.FitsSurface(f.width, f.height)
    ensures Shown(s, f).active == f.crop.active
    ensures Shown(s, f).active ==> Shown(s, f).FitsSurface(f.width, f.height)
  {
  }

  /** The static variables behind libretro_stabilize_auto_crop. */
  class Stabiliser {
    var submitted: Crop
    var pending: Crop
    var submittedValid: bool
    var pendingValid: bool
    var pendingFrames: nat

    ghost function Abstract(): (s: State)
      reads this
    {
      State(if submittedValid then Some(submitted) else None,
            if pendingValid then Some(Pending(pending, pendingFrames)) else None)
    }

    constructor ()
      ensures Abstract() == State(None, None)
    {
      submitted, pending := NO_CROP, NO_CROP;
      submittedValid, pendingValid, pendingFrames := false, false, 0;
    }

    /** libretro_reset_submitted_crop. */
    method Reset()
      modifies this
      ensures Abstract() == State(None, None)
    {
      submitted, pending := NO_CROP, NO_CROP;
      submittedValid, pendingValid, pendingFrames := false, false, 0;
    }

    /** libretro_stabilize_auto_crop. */
    method Stabilize(width: int, height: int, crop: Crop) returns (shown: Crop)
      modifies this
      ensures Abstract() == Step(old(Abstract()), Frame(width, height, crop))
      ensures shown == Shown(old(Abstract()), Frame(width, height, crop))
    {
      if !crop.active {
        Reset();
        return crop;
      }
      if !submittedValid || !submitted.FitsSurface(width, height) {
        submitted, submittedValid := crop, true;
        pendingValid, pendingFrames := false, 0;
        return crop;
      }
      if crop.Same(submitted) {
        pendingValid, pendingFrames := false, 0;
        return submitted;
      }
      if !pendingValid || !crop.Same(pending) {
        pending, pendingValid, pendingFrames := crop, true, 1;
      } else {
        pendingFrames := pendingFrames + 1;
      }
      if FramesRequired(submitted.rect, crop.rect) <= pendingFrames {
        submitted := crop;
        pendingValid, pendingFrames := false, 0;
      }
      return submitted;
    }
  }
}
