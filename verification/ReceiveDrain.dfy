/**
 * The receive queue between its two threads: the network worker offers packets, the emulation
 * thread drains them in separate semaphore sections, and a reset may clear the queue.
 */
module ReceiveDrain {
  import opened Words

  type Packet = seq<byte>

  /** Bytes a packet needs in the ring: padded to 60, four more for the frame check sequence; -1 if unfit. */
  function BufferSize(len: int, strip: bool): (needed: int) {
    if len <= 0 || len > 4000 || (!strip && len > 3996) then -1
    else (if len < 60 then 60 else len) + (if strip then 0 else 4)
  }

  /**
   * What the drain sees of the card: ring set up, FCS stripping, bytes of the whole ring, and
   * whether the check of the chip-owned buffers passed for the length at hand.
   */
  datatype Look = Look(ready: bool, strip: bool, capacity: int, space: bool)

  predicate CanHold(len: int, look: Look) {
    look.ready && 0 <= BufferSize(len, look.strip) <= look.capacity
  }

  /** What became of an accepted packet, with the length and the look the decision was based on. */
  datatype Fate =
    | Delivered(p: Packet, len: int, look: Look)
    | Dropped(p: Packet, len: int, look: Look)
    | Cleared(p: Packet)

  /** Where the drain stands: turn i of its loop, and what it has learned in that turn. */
  datatype Drain =
    | Idle
    | Between(i: nat)
    | Peeked(i: nat, len: int)
    | Dropping(i: nat, len: int, look: Look)
    | Taking(i: nat, len: int, look: Look)

  datatype State = State(queue: seq<Packet>, drain: Drain, accepted: seq<Packet>, fates: seq<Fate>, base: nat)

  const START := State([], Idle, [], [], 0)

  /** One semaphore section or decision of either thread. */
  datatype Step =
    | Offer(p: Packet)
    | Clear
    | Wake
    | Peek
    | Check(look: Look)
    | Pop

  function ClearAll(q: seq<Packet>): (f: seq<Fate>)
    ensures |f| == |q|
  {
    if q == [] then [] else [Cleared(q[0])] + ClearAll(q[1..])
  }

  function PeekNext(s: State, i: nat): (t: State) {
    s.(drain := if 16 <= i || s.queue == [] then Idle else Peeked(i, |s.queue[0]|))
  }

  function Decide(i: nat, len: int, look: Look): (d: Drain) {
    if !CanHold(len, look) then Dropping(i, len, look)
    else if !look.space then Idle
    else Taking(i, len, look)
  }

  function PopHead(s: State, i: nat, len: int, look: Look, taking: bool): (t: State) {
    if s.queue == [] then s.(drain := Idle)
    else State(s.queue[1..], Between(i + 1), s.accepted,
               s.fates + [if taking then Delivered(s.queue[0], len, look) else Dropped(s.queue[0], len, look)], s.base)
  }

  /** A step that does not apply where the drain stands changes nothing. */
  function Next(s: State, step: Step): (t: State) {
    match step
    case Offer(p) =>
      if 0 < |p| <= 4000 && |s.queue| < 255 then s.(queue := s.queue + [p], accepted := s.accepted + [p]) else s
    case Clear => s.(queue := [], fates := s.fates + ClearAll(s.queue))
    case Wake => if s.drain.Idle? then s.(drain := Between(0), base := |s.fates|) else s
    case Peek => if s.drain.Between? then PeekNext(s, s.drain.i) else s
    case Check(look) => if s.drain.Peeked? then s.(drain := Decide(s.drain.i, s.drain.len, look)) else s
    case Pop =>
      match s.drain
      case Dropping(i, len, look) => PopHead(s, i, len, look, false)
      case Taking(i, len, look) => PopHead(s, i, len, look, true)
      case _ => s
  }

  function Run(steps: seq<Step>): (s: State) {
    if steps == [] then START else Next(Run(steps[..|steps| - 1]), steps[|steps| - 1])
  }

  function PacketsOf(fates: seq<Fate>): (ps: seq<Packet>) {
    if fates == [] then [] else PacketsOf(fates[..|fates| - 1]) + [fates[|fates| - 1].p]
  }

  lemma {:induction false} PacketsOfJoined(a: seq<Fate>, b: seq<Fate>)
    ensures PacketsOf(a + b) == PacketsOf(a) + PacketsOf(b)
    decreases |b|
  {
    if b == [] {
      assert a + b == a;
    } else {
      PacketsOfJoined(a, b[..|b| - 1]);
      assert (a + b)[..|a + b| - 1] == a + b[..|b| - 1];
    }
  }

  lemma {:induction false} ClearedPackets(q: seq<Packet>)
    ensures PacketsOf(ClearAll(q)) == q
  {
    if q != [] {
      ClearedPackets(q[1..]);
      PacketsOfJoined([Cleared(q[0])], ClearAll(q[1..]));
      assert [q[0]] + q[1..] == q;
    }
  }

  /** Nothing is lost, repeated or reordered. */
  ghost predicate Conserved(s: State) {
    s.accepted == PacketsOf(s.fates) + s.queue && |s.queue| <= 255
  }

  lemma PopConserves(s: State, i: nat, len: int, look: Look, taking: bool)
    requires Conserved(s)
    ensures Conserved(PopHead(s, i, len, look, taking))
  {
    hide PacketsOf;
    if s.queue != [] {
      var f := if taking then Delivered(s.queue[0], len, look) else Dropped(s.queue[0], len, look);
      OnePacketMore(s.fates, f);
      HeadMoves(PacketsOf(s.fates), s.queue);
    }
  }

  lemma HeadMoves(settled: seq<Packet>, queue: seq<Packet>)
    requires queue != []
    ensures settled + [queue[0]] + queue[1..] == settled + queue
  {
  }

  lemma OnePacketMore(fates: seq<Fate>, f: Fate)
    ensures PacketsOf(fates + [f]) == PacketsOf(fates) + [f.p]
  {
    assert (fates + [f])[..|fates|] == fates;
  }

  lemma NextConserves(s: State, step: Step)
    requires Conserved(s)
    ensures Conserved(Next(s, step))
  {
    hide CanHold, PacketsOf, PopHead, ClearAll;
    match step
    case Clear =>
      ClearedPackets(s.queue);
      PacketsOfJoined(s.fates, ClearAll(s.queue));
    case Pop =>
      if s.drain.Dropping? || s.drain.Taking? {
        PopConserves(s, s.drain.i, s.drain.len, s.drain.look, s.drain.Taking?);
      }
    case _ =>
  }

  /**
   * Under every interleaving each accepted packet is, in order of acceptance, either settled or
   * still queued, and at most 255 are queued.
   */
  lemma {:induction false} RunConserves(steps: seq<Step>)
    ensures Conserved(Run(steps))
  {
    hide Next;
    if steps != [] {
      RunConserves(steps[..|steps| - 1]);
      NextConserves(Run(steps[..|steps| - 1]), steps[|steps| - 1]);
    }
  }

  /** No queue clear falls into a drain: both belong to the emulation thread. */
  ghost predicate Orderly(steps: seq<Step>) {
    steps == [] ||
    (Orderly(steps[..|steps| - 1]) && (steps[|steps| - 1].Clear? ==> Run(steps[..|steps| - 1]).drain.Idle?))
  }

  /** The decision was made about this very packet, and for the right reason. */
  ghost predicate Sound(f: Fate) {
    match f
    case Delivered(p, len, look) => len == |p| && CanHold(len, look) && look.space
    case Dropped(p, len, look) => len == |p| && !CanHold(len, look)
    case Cleared(_) => true
  }

  /** The head is still the packet that was peeked at, and it is in the right branch. */
  ghost predicate HeadIsPeeked(s: State) {
    match s.drain
    case Peeked(i, len) => s.queue != [] && |s.queue[0]| == len
    case Dropping(i, len, look) => s.queue != [] && |s.queue[0]| == len && !CanHold(len, look)
    case Taking(i, len, look) => s.queue != [] && |s.queue[0]| == len && CanHold(len, look) && look.space
    case _ => true
  }

  lemma ClearAllSound(q: seq<Packet>)
    ensures forall f :: f in ClearAll(q) ==> Sound(f)
  {
  }

  lemma NextSound(s: State, step: Step)
    requires HeadIsPeeked(s) && (forall f :: f in s.fates ==> Sound(f))
    requires step.Clear? ==> s.drain.Idle?
    ensures HeadIsPeeked(Next(s, step)) && forall f :: f in Next(s, step).fates ==> Sound(f)
  {
    hide CanHold;
    ClearAllSound(s.queue);
  }

  /**
   * Without a clear inside a drain the packet taken is the packet that was looked at: a frame
   * is delivered only if the ring had room for it, and dropped only if the whole ring has not.
   */
  lemma {:induction false} OrderlyRunIsSound(steps: seq<Step>)
    requires Orderly(steps)
    ensures HeadIsPeeked(Run(steps)) && forall f :: f in Run(steps).fates ==> Sound(f)
  {
    hide Next, Sound, HeadIsPeeked;
    if steps == [] {
      StartIsSound();
    } else {
      OrderlyRunIsSound(steps[..|steps| - 1]);
      NextSound(Run(steps[..|steps| - 1]), steps[|steps| - 1]);
    }
  }

  lemma StartIsSound()
    ensures HeadIsPeeked(START)
  {
  }

  /** A clear inside a drain could make it drop a packet that fits. */
  lemma ClearInDrainMisjudges(big: Packet, small: Packet)
    requires |big| == 1000 && |small| == 60
    ensures var look := Look(true, true, 100, false);
            var s := Run([Offer(big), Wake, Peek, Check(look), Clear, Offer(small), Pop]);
            s.fates == [Cleared(big), Dropped(small, 1000, look)] && CanHold(|small|, look)
  {
    var look := Look(true, true, 100, false);
    var peeked := [Offer(big), Wake, Peek];
    Unroll([], Offer(big));
    assert [] + [Offer(big)] == [Offer(big)];
    Unroll([Offer(big)], Wake);
    assert [Offer(big)] + [Wake] == [Offer(big), Wake];
    Unroll([Offer(big), Wake], Peek);
    assert [Offer(big), Wake] + [Peek] == peeked;
    assert Run(peeked) == State([big], Peeked(0, 1000), [big], [], 0);
    var judged := peeked + [Check(look)];
    Unroll(peeked, Check(look));
    Unroll(judged, Clear);
    Unroll(judged + [Clear], Offer(small));
    Unroll(judged + [Clear] + [Offer(small)], Pop);
    assert ClearAll([big]) == [Cleared(big)];
    assert judged + [Clear] + [Offer(small)] + [Pop]
        == [Offer(big), Wake, Peek, Check(look), Clear, Offer(small), Pop];
  }

  lemma Unroll(steps: seq<Step>, step: Step)
    ensures Run(steps + [step]) == Next(Run(steps), step)
  {
  }

  /** The turn of the drain is the number of packets settled since it woke, clears aside, and stays within 16. */
  ghost predicate Bounded(s: State) {
    match s.drain
    case Idle => true
    case Between(i) => i <= 16 && |s.fates| == s.base + i
    case Peeked(i, _) => i < 16 && |s.fates| == s.base + i
    case Dropping(i, _, _) => i < 16 && |s.fates| == s.base + i
    case Taking(i, _, _) => i < 16 && |s.fates| == s.base + i
  }

  lemma {:induction false} DrainIsBounded(steps: seq<Step>)
    requires Orderly(steps)
    ensures Bounded(Run(steps))
  {
    hide CanHold;
    if steps != [] {
      DrainIsBounded(steps[..|steps| - 1]);
    }
  }
}
