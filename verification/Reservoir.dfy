/**
 * The Layer III bit reservoir as a function of the frames seen since the last reset: what
 * the save and restore steps keep over every run, decoding or skipping.
 */
module Reservoir {
  import opened Words

  const CAPACITY: nat := 511

  /** One frame after its side information: the reservoir pointer, the bytes of main data that
      the frame itself carries, and the number of bits its granules use. */
  datatype Frame = Frame(begin: nat, payload: seq<byte>, partBits: nat) {
    /** What drmp3_L3_read_side_info has checked. */
    predicate Checked() {
      partBits <= 8 * (|payload| + begin)
    }
  }

  /** A run of the decoder: resets, and frames that are decoded or only skipped over. */
  datatype Event = Reset | Feed(frame: Frame, decode: bool)

  /** drmp3_L3_restore_reservoir: the last `begin` reservoir bytes, then the payload. */
  function MainData(reservoir: seq<byte>, f: Frame): (main: seq<byte>) {
    (if f.begin <= |reservoir| then reservoir[|reservoir| - f.begin..] else reservoir) + f.payload
  }

  /** The frame can be decoded: the reservoir reaches back far enough. */
  predicate Accepts(reservoir: seq<byte>, f: Frame) {
    f.begin <= |reservoir|
  }

  /** drmp3_L3_save_reservoir: what is left after `pos` bits, at most the last 511 bytes. */
  function Leftover(main: seq<byte>, pos: nat): (r: seq<byte>)
    requires pos <= 8 * |main|
  {
    var from := (pos + 7) / 8;
    if |main| - from > CAPACITY then main[|main| - CAPACITY..] else main[from..]
  }

  /** Bits consumed: all the granules of an accepted frame, none when the frame is skipped. */
  function Consumed(reservoir: seq<byte>, e: Event): (bits: nat)
    requires e.Feed?
  {
    if e.decode && Accepts(reservoir, e.frame) then e.frame.partBits else 0
  }

  lemma ConsumedFits(reservoir: seq<byte>, e: Event)
    requires e.Feed? && e.frame.Checked()
    ensures Consumed(reservoir, e) <= 8 * |MainData(reservoir, e.frame)|
  {
  }

  function Step(reservoir: seq<byte>, e: Event): (r: seq<byte>)
    requires e.Feed? ==> e.frame.Checked()
  {
    match e
    case Reset => []
    case Feed(f, _) =>
      ConsumedFits(reservoir, e);
      Leftover(MainData(reservoir, f), Consumed(reservoir, e))
  }

  ghost predicate Checked(run: seq<Event>) {
    forall i :: 0 <= i < |run| ==> run[i].Feed? ==> run[i].frame.Checked()
  }

  /** The reservoir after a run. */
  function After(run: seq<Event>): (r: seq<byte>)
    requires Checked(run)
  {
    if run == [] then [] else Step(After(run[..|run| - 1]), run[|run| - 1])
  }

  lemma AppendEvent(run: seq<Event>, e: Event)
    requires Checked(run) && (e.Feed? ==> e.frame.Checked())
    ensures Checked(run + [e]) && After(run + [e]) == Step(After(run), e)
  {
  }

  /** All main data bytes fed since the last reset: the logical byte stream. */
  function Fed(run: seq<Event>): (s: seq<byte>) {
    if run == [] then [] else
      match run[|run| - 1]
      case Reset => []
      case Feed(f, _) => Fed(run[..|run| - 1]) + f.payload
  }

  predicate IsSuffix(s: seq<byte>, t: seq<byte>) {
    |s| <= |t| && s == t[|t| - |s|..]
  }

  lemma SuffixOfSuffix(t: seq<byte>, from: nat, more: seq<byte>, from2: nat)
    requires from <= |t| && from2 <= |t[from..] + more|
    ensures IsSuffix((t[from..] + more)[from2..], t + more)
  {
  }

  /**
   * Over every run the reservoir is a suffix of the main data since the last reset, and
   * never longer than 511 bytes.
   */
  lemma {:induction false} ReservoirIsSuffix(run: seq<Event>)
    requires Checked(run)
    ensures |After(run)| <= CAPACITY && IsSuffix(After(run), Fed(run))
  {
    if run != [] && run[|run| - 1].Feed? {
      var before := run[..|run| - 1];
      var e := run[|run| - 1];
      ReservoirIsSuffix(before);
      LeftoverIsSuffix(After(before), Fed(before), e);
    }
  }

  lemma LeftoverIsSuffix(reservoir: seq<byte>, fed: seq<byte>, e: Event)
    requires e.Feed? && e.frame.Checked() && IsSuffix(reservoir, fed)
    ensures |Step(reservoir, e)| <= CAPACITY && IsSuffix(Step(reservoir, e), fed + e.frame.payload)
  {
    var f := e.frame;
    var have := if f.begin <= |reservoir| then f.begin else |reservoir|;
    var main := MainData(reservoir, f);
    assert main == fed[|fed| - have..] + f.payload;
    var from := |main| - |Step(reservoir, e)|;
    assert Step(reservoir, e) == main[from..];
    SuffixOfSuffix(fed, |fed| - have, f.payload, from);
  }

  /**
   * What a frame leaves is the longest end of its main data, up to 511 bytes, of which no bit has
   * been consumed; a frame that is skipped or cannot be decoded consumes none.
   */
  lemma StepKeepsLongest(reservoir: seq<byte>, f: Frame, decode: bool)
    requires f.Checked()
    ensures var have := if f.begin < |reservoir| then f.begin else |reservoir|;
            var main, r := reservoir[|reservoir| - have..] + f.payload, Step(reservoir, Feed(f, decode));
            var used, dropped := if decode && f.begin <= |reservoir| then f.partBits else 0, |main| - |r|;
            && 0 <= dropped && r == main[dropped..] && |r| <= 511 && used <= 8 * dropped
            && (|r| < 511 ==> 8 * dropped < used + 8)
  {
    var main := MainData(reservoir, f);
    var r := Step(reservoir, Feed(f, decode));
    assert r == main[|main| - |r|..];
  }

  /**
   * When a frame is accepted, the buffer its granules are decoded from is exactly the stretch
   * of the logical stream that starts `begin` bytes before the frame's own payload.
   */
  lemma AcceptedFrameSeesPointedData(run: seq<Event>, f: Frame)
    requires Checked(run) && Accepts(After(run), f)
    ensures f.begin <= |Fed(run)|
    ensures MainData(After(run), f) == Fed(run)[|Fed(run)| - f.begin..] + f.payload
  {
    hide After, Fed, Checked;
    ReservoirIsSuffix(run);
    EndOfSuffix(After(run), Fed(run), f.begin);
  }

  lemma EndOfSuffix(s: seq<byte>, t: seq<byte>, n: nat)
    requires IsSuffix(s, t) && n <= |s|
    ensures s[|s| - n..] == t[|t| - n..]
  {
  }

  /** The same run with every frame only skipped. */
  function Skipping(run: seq<Event>): (s: seq<Event>)
    ensures |s| == |run|
  {
    seq(|run|, i requires 0 <= i < |run| => if run[i].Feed? then Feed(run[i].frame, false) else Reset)
  }

  lemma SkippingPrefix(run: seq<Event>)
    requires run != []
    ensures Skipping(run)[..|run| - 1] == Skipping(run[..|run| - 1])
  {
  }

  /** Skipping feeds the same logical byte stream. */
  lemma {:induction false} SkippingFeedsTheSame(run: seq<Event>)
    ensures Fed(Skipping(run)) == Fed(run)
  {
    if run != [] {
      SkippingPrefix(run);
      SkippingFeedsTheSame(run[..|run| - 1]);
    }
  }

  /** Skipping the frames of a run keeps a reservoir that the decoding one is a suffix of. */
  lemma {:induction false} SkippingKeepsMore(run: seq<Event>)
    requires Checked(run)
    ensures Checked(Skipping(run))
    ensures IsSuffix(After(run), After(Skipping(run)))
  {
    if run != [] {
      SkippingPrefix(run);
      SkippingKeepsMore(run[..|run| - 1]);
      StepKeepsMore(After(run[..|run| - 1]), After(Skipping(run)[..|run| - 1]), run[|run| - 1]);
    }
    ReservoirIsSuffix(run);
    ReservoirIsSuffix(Skipping(run));
    SkippingFeedsTheSame(run);
    ShorterSuffix(After(run), After(Skipping(run)), Fed(run));
  }

  /** Of two suffixes of the same bytes the shorter one is a suffix of the longer one. */
  lemma ShorterSuffix(a: seq<byte>, b: seq<byte>, t: seq<byte>)
    requires IsSuffix(a, t) && IsSuffix(b, t) && |a| <= |b|
    ensures IsSuffix(a, b)
  {
    assert b[|b| - |a|..] == t[|t| - |b|..][|b| - |a|..] == t[|t| - |a|..];
  }

  lemma StepKeepsMore(decoding: seq<byte>, skipping: seq<byte>, e: Event)
    requires e.Feed? ==> e.frame.Checked()
    requires |decoding| <= |skipping|
    ensures e.Feed? ==> |Step(decoding, e)| <= |Step(skipping, Feed(e.frame, false))|
  {
  }

  /** Every frame that real decoding accepts is also accepted by the frame counting scan. */
  lemma AcceptedWhenSkipped(run: seq<Event>, f: Frame)
    requires Checked(run) && Accepts(After(run), f)
    ensures Checked(Skipping(run)) && Accepts(After(Skipping(run)), f)
  {
    SkippingKeepsMore(run);
  }

  /** The converse fails: the scan can count a frame that real decoding has to refuse. */
  lemma SkippedFrameMayBeRefused()
    ensures var run := [Feed(Frame(0, [7], 8), true)];
            var f := Frame(1, [], 0);
            Checked(run) && Checked(Skipping(run))
            && !Accepts(After(run), f) && Accepts(After(Skipping(run)), f)
  {
    var run := [Feed(Frame(0, [7], 8), true)];
    assert run[..0] == [] && Skipping(run)[..0] == [];
    assert After(run) == Step([], run[0]) == [];
    assert After(Skipping(run)) == Step([], Skipping(run)[0]) == [7];
  }
}
