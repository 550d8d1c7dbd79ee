/**
 * Delivery of one frame into the receive descriptor ring, and why the space check made
 * beforehand is enough.
 */
module RxRing {
  import opened Words
  import opened BoardRam
  import opened Csr
  import opened Wrappers

  /** The memory cell of byte i of a descriptor's buffer. */
  function BufferCell(bus: Bus, d: Desc, i: nat): (c: nat)
    ensures c < 0x8000
  {
    Cell(Swapped(bus, d.Address() + i))
  }

  /** Frame bytes written from a buffer address on. */
  function Scatter(m: Memory, bus: Bus, addr: nat, s: seq<byte>): (n: Memory) {
    if s == [] then m
    else PutByte(Scatter(m, bus, addr, s[..|s| - 1]), bus, Swapped(bus, addr + |s| - 1), s[|s| - 1])
  }

  function SetFlag(w: nat, flag: nat): (v: nat)
    requires 0 < flag
  {
    if (w / flag) % 2 == 1 then w else w + flag
  }

  /** The status word the chip hands back: OWN cleared, STP on the first, ENP on the last. */
  function HandBack(d1: nat, first: bool, last: bool): (w: nat) {
    var w0 := if 0x8000 <= d1 then d1 - 0x8000 else d1;
    var w1 := if first then SetFlag(w0, 0x0200) else w0;
    if last then SetFlag(w1, 0x0100) else w1
  }

  /** ERR, BUFF and OFLO on the last buffer of a frame that ran into a host-owned one. */
  function FlagOverrun(d1: nat): (w: nat) {
    SetFlag(SetFlag(SetFlag(d1, 0x4000), 0x0400), 0x1000)
  }

  lemma StatusFits(d1: nat, first: bool, last: bool)
    requires d1 < 0x1_0000
    ensures HandBack(d1, first, last) < 0x8000 && FlagOverrun(d1) < 0x1_0000
  {
  }

  function Next(r: Ring, k: nat): (j: nat) {
    if k + 1 == r.len then 0 else k + 1
  }

  /** The memory after the chip has filled descriptor k and handed it back. */
  function Fill(m: Memory, bus: Bus, r: Ring, k: nat, chunk: seq<byte>, first: bool, last: bool, total: nat): (n: Memory)
    requires total < 0x1_0000
  {
    var d := DescAt(m, bus, r, k);
    StatusFits(d.d1, first, last);
    var m1 := Scatter(m, bus, d.Address(), chunk);
    var m2 := PutWord(m1, bus, DescOff(r, k) + 2, HandBack(d.d1, first, last));
    PutWord(m2, bus, DescOff(r, k) + 6, if last then total else d.d3)
  }

  /** Where a delivery ends: memory, ring position, outcome and descriptors used. */
  datatype Rx = Rx(m: Memory, k: nat, outcome: RxOutcome, used: nat)

  /**
   * The delivery loop of gotfunc2 from ring position k, with `done` bytes delivered and
   * prev the descriptor before, if any.
   */
  function Receive(m: Memory, bus: Bus, r: Ring, k: nat, data: seq<byte>, done: nat, prev: Option<nat>): (x: Rx)
    requires done < |data| < 0x1_0000
    decreases |data| - done
  {
    var d := DescAt(m, bus, r, k);
    if !d.Own() then
      match prev
      case None => Rx(m, k, Missed, 0)
      case Some(p) =>
        StatusFits(DescAt(m, bus, r, p).d1, false, false);
        Rx(PutWord(m, bus, DescOff(r, p) + 2, FlagOverrun(DescAt(m, bus, r, p).d1)), k, Overrun, 0)
    else
      var n := Min(d.Size(), |data| - done);
      var last := done + n == |data|;
      var m' := Fill(m, bus, r, k, data[done..done + n], prev.None?, last, |data|);
      if last then Rx(m', k + 1, Delivered, 1)
      else
        var x := Receive(m', bus, r, Next(r, k), data, done + n, Some(k));
        Rx(x.m, x.k, x.outcome, x.used + 1)
  }

  /** receive_space_available from ring position k: chip-owned buffers hold `needed` bytes. */
  predicate Fits(m: Memory, bus: Bus, r: Ring, k: nat, n: nat, needed: int)
    decreases n
  {
    && 0 < n
    && DescAt(m, bus, r, k).Own()
    && var left := needed - DescAt(m, bus, r, k).Size();
       left <= 0 || Fits(m, bus, r, Next(r, k), n - 1, left)
  }

  lemma {:induction false} FitsLess(m: Memory, bus: Bus, r: Ring, k: nat, n: nat, needed: int, less: int)
    requires Fits(m, bus, r, k, n, needed) && less <= needed
    ensures Fits(m, bus, r, k, n, less)
    decreases n
  {
    hide DescAt;
    if 0 < less - DescAt(m, bus, r, k).Size() {
      FitsLess(m, bus, r, Next(r, k), n - 1, needed - DescAt(m, bus, r, k).Size(), less - DescAt(m, bus, r, k).Size());
    }
  }

  /** Forward distance in the ring. */
  function Dist(r: Ring, k: nat, j: nat): (d: int) {
    if k <= j then j - k else j + r.len - k
  }

  /** A space check that does not reach descriptor c does not depend on it. */
  lemma {:induction false} FitsIgnores(m: Memory, m': Memory, bus: Bus, r: Ring, k: nat, n: nat, needed: int, c: nat)
    requires k < r.len && c < r.len && n <= Dist(r, k, c)
    requires forall j: nat :: j < r.len && j != c ==> DescAt(m', bus, r, j) == DescAt(m, bus, r, j)
    requires Fits(m, bus, r, k, n, needed)
    ensures Fits(m', bus, r, k, n, needed)
    decreases n
  {
    hide DescAt;
    var left := needed - DescAt(m, bus, r, k).Size();
    if 0 < left {
      FitsIgnores(m, m', bus, r, Next(r, k), n - 1, left, c);
    }
  }

  /** The buffer of a descriptor lies outside the ring. */
  ghost predicate BufferOffRing(bus: Bus, r: Ring, d: Desc) {
    forall i: nat :: i < d.Size() ==> !InRing(r, BufferCell(bus, d, i))
  }

  /** The host's part: the buffers it has given to the chip lie outside the ring. */
  ghost predicate OwnedBuffersOffRing(m: Memory, bus: Bus, r: Ring) {
    forall j: nat :: j < r.len && DescAt(m, bus, r, j).Own() ==> BufferOffRing(bus, r, DescAt(m, bus, r, j))
  }

  lemma {:induction false} ScatterKeepsRing(m: Memory, bus: Bus, r: Ring, d: Desc, s: seq<byte>, k: nat)
    requires ValidRing(bus, r) && k < r.len && BufferOffRing(bus, r, d) && |s| <= d.Size()
    ensures DescAt(Scatter(m, bus, d.Address(), s), bus, r, k) == DescAt(m, bus, r, k)
    decreases |s|
  {
    hide DescAt, InRing;
    if s != [] {
      var n := |s| - 1;
      ScatterKeepsRing(m, bus, r, d, s[..n], k);
      assert !InRing(r, BufferCell(bus, d, n));
      PutOutsideRing(Scatter(m, bus, d.Address(), s[..n]), bus, r, Swapped(bus, d.Address() + n), s[n], k);
    }
  }

  /** What handing back does to the descriptors: one changes, as documented, and no other. */
  lemma FillDescriptors(m: Memory, bus: Bus, r: Ring, k: nat, chunk: seq<byte>, first: bool, last: bool, total: nat, j: nat)
    requires ValidRing(bus, r) && k < r.len && j < r.len && total < 0x1_0000
    requires DescAt(m, bus, r, k).Own() && BufferOffRing(bus, r, DescAt(m, bus, r, k))
    requires |chunk| <= DescAt(m, bus, r, k).Size()
    ensures DescAt(Fill(m, bus, r, k, chunk, first, last, total), bus, r, j)
         == if j == k then Handed(DescAt(m, bus, r, k), first, last, total) else DescAt(m, bus, r, j)
  {
    hide DescAt, PutWord, BufferOffRing, HandBack;
    var d := DescAt(m, bus, r, k);
    DescWords(m, bus, r, k);
    StatusFits(d.d1, first, last);
    OwnedIsVisible(m, bus, r, k);
    var m1 := Scatter(m, bus, d.Address(), chunk);
    var m2 := PutWord(m1, bus, DescOff(r, k) + 2, HandBack(d.d1, first, last));
    ScatterKeepsRing(m, bus, r, d, chunk, j);
    ScatterKeepsRing(m, bus, r, d, chunk, k);
    PutStatus(m1, bus, r, k, HandBack(d.d1, first, last), j);
    PutMessage(m2, bus, r, k, if last then total else d.d3, j);
  }

  lemma DescWords(m: Memory, bus: Bus, r: Ring, k: nat)
    ensures var d := DescAt(m, bus, r, k); d.d0 < 0x1_0000 && d.d1 < 0x1_0000 && d.d2 < 0x1_0000 && d.d3 < 0x1_0000
  {
  }

  function Handed(d: Desc, first: bool, last: bool, total: nat): (e: Desc) {
    Desc(d.d0, HandBack(d.d1, first, last), d.d2, if last then total else d.d3)
  }

  /** Bytes that n buffers in a row hold. */
  function Capacity(m: Memory, bus: Bus, r: Ring, k: nat, n: nat): (c: int)
    decreases n
  {
    if n == 0 then 0 else DescAt(m, bus, r, k).Size() + Capacity(m, bus, r, Next(r, k), n - 1)
  }

  lemma {:induction false} CapacitySame(m: Memory, m': Memory, bus: Bus, r: Ring, k: nat, n: nat)
    requires k < r.len
    requires forall j: nat :: j < r.len ==> DescAt(m', bus, r, j).d2 == DescAt(m, bus, r, j).d2
    ensures Capacity(m', bus, r, k, n) == Capacity(m, bus, r, k, n)
    decreases n
  {
    hide DescAt;
    if n > 0 {
      CapacitySame(m, m', bus, r, Next(r, k), n - 1);
    }
  }

  /** `used` descriptors from k on are handed back as one frame, and all others untouched. */
  ghost predicate RunHandedBack(m: Memory, m': Memory, bus: Bus, r: Ring, k: nat, used: nat, first: bool, total: nat) {
    forall j: nat :: j < r.len ==>
      DescAt(m', bus, r, j) ==
        if Dist(r, k, j) < used then Handed(DescAt(m, bus, r, j), first && j == k, Dist(r, k, j) == used - 1, total)
        else DescAt(m, bus, r, j)
  }

  /** The ring position after i steps. */
  function Steps(r: Ring, k: nat, i: nat): (j: nat)
    decreases i
  {
    if i == 0 then k else Steps(r, Next(r, k), i - 1)
  }

  /** A frame that is in the ring: delivered, with the least number of buffers that hold it. */
  ghost predicate InTheRing(m: Memory, bus: Bus, r: Ring, k: nat, left: int, first: bool, total: nat, n: nat, x: Rx) {
    && x.outcome.Delivered? && 1 <= x.used <= n
    && RunHandedBack(m, x.m, bus, r, k, x.used, first, total)
    && Capacity(m, bus, r, k, x.used - 1) < left <= Capacity(m, bus, r, k, x.used)
    && x.k == Steps(r, k, x.used - 1) + 1
  }

  /** Filling one descriptor with part of a frame keeps everything the rest of it needs. */
  lemma FillKeepsGuard(m: Memory, bus: Bus, r: Ring, k: nat, chunk: seq<byte>, first: bool, total: nat, n: nat, needed: int)
    requires ValidRing(bus, r) && k < r.len && total < 0x1_0000 && 0 < n <= r.len
    requires OwnedBuffersOffRing(m, bus, r) && DescAt(m, bus, r, k).Own()
    requires |chunk| == DescAt(m, bus, r, k).Size() < needed && Fits(m, bus, r, k, n, needed)
    ensures var m' := Fill(m, bus, r, k, chunk, first, false, total);
            && Fits(m', bus, r, Next(r, k), n - 1, needed - |chunk|)
            && OwnedBuffersOffRing(m', bus, r)
            && (forall j: nat :: j < r.len ==>
                  DescAt(m', bus, r, j) == if j == k then Handed(DescAt(m, bus, r, k), first, false, total)
                                           else DescAt(m, bus, r, j))
  {
    hide DescAt, Fill, BufferOffRing;
    var m' := Fill(m, bus, r, k, chunk, first, false, total);
    forall j: nat | j < r.len
      ensures DescAt(m', bus, r, j) == if j == k then Handed(DescAt(m, bus, r, k), first, false, total)
                                       else DescAt(m, bus, r, j)
    {
      FillDescriptors(m, bus, r, k, chunk, first, false, total, j);
    }
    DescWords(m, bus, r, k);
    StatusFits(DescAt(m, bus, r, k).d1, first, false);
    FitsIgnores(m, m', bus, r, Next(r, k), n - 1, needed - |chunk|, k);
  }

  /** Prepending one filled descriptor to a run of handed-back ones. */
  lemma RunGrows(m: Memory, m1: Memory, m2: Memory, bus: Bus, r: Ring, k: nat, used: nat, first: bool, total: nat)
    requires k < r.len && 1 <= used < r.len
    requires forall j: nat :: j < r.len ==>
               DescAt(m1, bus, r, j) == if j == k then Handed(DescAt(m, bus, r, k), first, false, total)
                                        else DescAt(m, bus, r, j)
    requires RunHandedBack(m1, m2, bus, r, Next(r, k), used, false, total)
    ensures RunHandedBack(m, m2, bus, r, k, used + 1, first, total)
  {
  }

  /**
   * If the space check holds, the delivery never meets a descriptor the host owns: it hands
   * back one contiguous run of the ring, marked as a single frame, and moves past it.
   */
  lemma {:induction false} GuardSuffices(m: Memory, bus: Bus, r: Ring, k: nat, data: seq<byte>, done: nat, prev: Option<nat>, n: nat)
    requires ValidRing(bus, r) && k < r.len && n <= r.len && done < |data| < 0x1_0000
    requires OwnedBuffersOffRing(m, bus, r)
    requires Fits(m, bus, r, k, n, |data| - done)
    ensures InTheRing(m, bus, r, k, |data| - done, prev.None?, |data|, n, Receive(m, bus, r, k, data, done, prev))
    decreases n
  {
    hide DescAt, Fill, Handed, OwnedBuffersOffRing, RunHandedBack;
    var d := DescAt(m, bus, r, k);
    var left := |data| - done;
    DescWords(m, bus, r, k);
    if left <= d.Size() {
      OneHandedBack(m, bus, r, k, data[done..done + left], prev.None?, |data|);
    } else {
      var chunk := data[done..done + d.Size()];
      var m' := Fill(m, bus, r, k, chunk, prev.None?, false, |data|);
      FillKeepsGuard(m, bus, r, k, chunk, prev.None?, |data|, n, left);
      GuardSuffices(m', bus, r, Next(r, k), data, done + d.Size(), Some(k), n - 1);
      var x := Receive(m', bus, r, Next(r, k), data, done + d.Size(), Some(k));
      RunGrows(m, m', x.m, bus, r, k, x.used, prev.None?, |data|);
      HandedKeepsSize(d, prev.None?, false, |data|);
      CapacitySame(m, m', bus, r, Next(r, k), x.used);
      CapacitySame(m, m', bus, r, Next(r, k), x.used - 1);
    }
  }

  /** The last part of a frame fills one buffer. */
  lemma OneHandedBack(m: Memory, bus: Bus, r: Ring, k: nat, chunk: seq<byte>, first: bool, total: nat)
    requires ValidRing(bus, r) && k < r.len && total < 0x1_0000 && |chunk| <= DescAt(m, bus, r, k).Size()
    requires OwnedBuffersOffRing(m, bus, r) && DescAt(m, bus, r, k).Own()
    ensures RunHandedBack(m, Fill(m, bus, r, k, chunk, first, true, total), bus, r, k, 1, first, total)
  {
    hide DescAt, Fill, Handed, OwnedBuffersOffRing;
    OwnedOffRing(m, bus, r, k);
    forall j: nat | j < r.len
      ensures DescAt(Fill(m, bus, r, k, chunk, first, true, total), bus, r, j)
           == if j == k then Handed(DescAt(m, bus, r, k), first, true, total) else DescAt(m, bus, r, j)
    {
      FillDescriptors(m, bus, r, k, chunk, first, true, total, j);
    }
  }

  lemma OwnedOffRing(m: Memory, bus: Bus, r: Ring, k: nat)
    requires OwnedBuffersOffRing(m, bus, r) && k < r.len && DescAt(m, bus, r, k).Own()
    ensures BufferOffRing(bus, r, DescAt(m, bus, r, k))
  {
  }

  lemma HandedKeepsSize(d: Desc, first: bool, last: bool, total: nat)
    ensures Handed(d, first, last, total).d2 == d.d2 && Handed(d, first, last, total).d0 == d.d0
    ensures d.d1 < 0x1_0000 ==> Handed(d, first, last, total).d1 % 256 == d.d1 % 256
  {
  }

  /** Filling a descriptor keeps a failing check failing. */
  lemma {:induction false} FitsNeeds(m: Memory, m': Memory, bus: Bus, r: Ring, k: nat, n: nat, needed: int, c: nat)
    requires k < r.len && c < r.len && n <= Dist(r, k, c)
    requires forall j: nat :: j < r.len && j != c ==> DescAt(m', bus, r, j) == DescAt(m, bus, r, j)
    requires Fits(m', bus, r, k, n, needed)
    ensures Fits(m, bus, r, k, n, needed)
  {
    FitsIgnores(m', m, bus, r, k, n, needed, c);
  }

  /** Without the space the frame does not get into the ring, even going round it. */
  lemma {:induction false} GuardIsNeeded(m: Memory, bus: Bus, r: Ring, k: nat, data: seq<byte>, done: nat, prev: Option<nat>, n: nat)
    requires ValidRing(bus, r) && k < r.len && n <= r.len && done < |data| < 0x1_0000
    requires OwnedBuffersOffRing(m, bus, r)
    requires forall j: nat :: j < r.len && n <= Dist(r, k, j) ==> !DescAt(m, bus, r, j).Own()
    requires !Fits(m, bus, r, k, n, |data| - done)
    ensures !Receive(m, bus, r, k, data, done, prev).outcome.Delivered?
    decreases n
  {
    hide DescAt, Fill, BufferOffRing;
    var d := DescAt(m, bus, r, k);
    if n > 0 && d.Own() {
      DescWords(m, bus, r, k);
      StatusFits(d.d1, prev.None?, false);
      var chunk := data[done..done + d.Size()];
      var m' := Fill(m, bus, r, k, chunk, prev.None?, false, |data|);
      forall j: nat | j < r.len
        ensures DescAt(m', bus, r, j) == if j == k then Handed(d, prev.None?, false, |data|) else DescAt(m, bus, r, j)
      {
        FillDescriptors(m, bus, r, k, chunk, prev.None?, false, |data|, j);
      }
      if Fits(m', bus, r, Next(r, k), n - 1, |data| - done - d.Size()) {
        FitsNeeds(m, m', bus, r, Next(r, k), n - 1, |data| - done - d.Size(), k);
      }
      GuardIsNeeded(m', bus, r, Next(r, k), data, done + d.Size(), Some(k), n - 1);
    }
  }

  /** A frame is delivered exactly if the chip-owned buffers from the ring position on hold it. */
  lemma DeliveredExactlyIfItFits(m: Memory, bus: Bus, r: Ring, k: nat, data: seq<byte>)
    requires ValidRing(bus, r) && k < r.len && 0 < |data| < 0x1_0000 && OwnedBuffersOffRing(m, bus, r)
    ensures Receive(m, bus, r, k, data, 0, None).outcome.Delivered? <==> Fits(m, bus, r, k, r.len, |data|)
  {
    hide Receive, Fits, OwnedBuffersOffRing;
    if Fits(m, bus, r, k, r.len, |data|) {
      GuardSuffices(m, bus, r, k, data, 0, None, r.len);
    } else {
      GuardIsNeeded(m, bus, r, k, data, 0, None, r.len);
    }
  }

  /** The bytes in a buffer. */
  function Gather(m: Memory, bus: Bus, addr: nat, n: nat): (s: seq<byte>)
    ensures |s| == n
  {
    if n == 0 then [] else Gather(m, bus, addr, n - 1) + [GetByte(m, bus, Swapped(bus, addr + n - 1))]
  }

  /** The contents of n buffers in a row. */
  function Collect(m: Memory, bus: Bus, r: Ring, k: nat, n: nat): (s: seq<byte>)
    decreases n
  {
    if n == 0 then []
    else Gather(m, bus, DescAt(m, bus, r, k).Address(), DescAt(m, bus, r, k).Size()) + Collect(m, bus, r, Next(r, k), n - 1)
  }

  /** The chip sees byte i of the buffer. */
  predicate Seen(bus: Bus, d: Desc, i: nat) {
    Visible(bus, Swapped(bus, d.Address() + i))
  }

  /** Every byte of the buffer is visible and in a cell of its own. */
  ghost predicate BufferDistinct(bus: Bus, d: Desc) {
    && (forall i: nat :: i < d.Size() ==> Seen(bus, d, i))
    && (forall i: nat, j: nat :: i < j < d.Size() ==> BufferCell(bus, d, i) != BufferCell(bus, d, j))
  }

  ghost predicate BuffersDisjoint(bus: Bus, d: Desc, e: Desc) {
    forall i: nat, j: nat :: i < d.Size() && j < e.Size() ==> BufferCell(bus, d, i) != BufferCell(bus, e, j)
  }

  /** The host's part for the data: its chip-owned buffers are visible and do not overlap. */
  ghost predicate OwnedBuffersApart(m: Memory, bus: Bus, r: Ring) {
    && (forall j: nat :: j < r.len && DescAt(m, bus, r, j).Own() ==> BufferDistinct(bus, DescAt(m, bus, r, j)))
    && (forall i: nat, j: nat :: i < r.len && j < r.len && i != j && DescAt(m, bus, r, i).Own() && DescAt(m, bus, r, j).Own() ==>
          BuffersDisjoint(bus, DescAt(m, bus, r, i), DescAt(m, bus, r, j)))
  }

  /** Board memory with one chip-owned descriptor at its start, for a buffer of 100 bytes. */
  function OneBuffer(i: nat): (b: byte) {
    match i
    case 0 => 0x81 case 2 => 0x80 case 4 => 0xFF case 5 => 0x9C
    case _ => 0
  }

  lemma OneDescriptor(m: Memory)
    requires forall i: nat :: i < 0x8000 ==> m[i] == OneBuffer(i)
    ensures DescAt(m, Bus(false, false), Ring(0x8000, 1), 0) == Desc(0x8100, 0x8000, 0xFF9C, 0)
  {
    assert m[0] == 0x81 && m[1] == 0 && m[2] == 0x80 && m[3] == 0 && m[4] == 0xFF && m[5] == 0x9C && m[6] == 0 && m[7] == 0;
  }

  lemma OneBufferCells(d: Desc)
    requires d == Desc(0x8100, 0x8000, 0xFF9C, 0)
    ensures forall i: nat :: i < 100 ==> BufferCell(Bus(false, false), d, i) == 0x100 + i && Seen(Bus(false, false), d, i)
    ensures BufferOffRing(Bus(false, false), Ring(0x8000, 1), d) && BufferDistinct(Bus(false, false), d)
  {
  }

  /** The host can meet its part, with room for a frame of 100 bytes. */
  lemma HostPartCanBeMet(m: Memory)
    requires forall i: nat :: i < 0x8000 ==> m[i] == OneBuffer(i)
    ensures var bus, r := Bus(false, false), Ring(0x8000, 1);
            && ValidRing(bus, r) && OwnedBuffersOffRing(m, bus, r) && OwnedBuffersApart(m, bus, r)
            && Fits(m, bus, r, 0, 1, 100)
  {
    hide DescAt, BufferOffRing, BufferDistinct, OneBuffer, BuffersDisjoint;
    OneDescriptor(m);
    OneBufferCells(DescAt(m, Bus(false, false), Ring(0x8000, 1), 0));
  }

  lemma {:induction false} GatherSame(m: Memory, m': Memory, bus: Bus, d: Desc, n: nat)
    requires n <= d.Size()
    requires forall i: nat :: i < n ==> m'[BufferCell(bus, d, i)] == m[BufferCell(bus, d, i)]
    ensures Gather(m', bus, d.Address(), n) == Gather(m, bus, d.Address(), n)
  {
    if n > 0 {
      GatherSame(m, m', bus, d, n - 1);
      assert m'[BufferCell(bus, d, n - 1)] == m[BufferCell(bus, d, n - 1)];
    }
  }

  /** Scattering changes no cell outside the buffer. */
  lemma {:induction false} ScatterElsewhere(m: Memory, bus: Bus, d: Desc, s: seq<byte>, c: nat)
    requires |s| <= d.Size() && c < 0x8000
    requires forall i: nat :: i < |s| ==> BufferCell(bus, d, i) != c
    ensures Scatter(m, bus, d.Address(), s)[c] == m[c]
    decreases |s|
  {
    if s != [] {
      ScatterElsewhere(m, bus, d, s[..|s| - 1], c);
      assert BufferCell(bus, d, |s| - 1) != c;
    }
  }

  /** What is scattered into a buffer is what is gathered from it. */
  lemma {:induction false} GatherScattered(m: Memory, bus: Bus, d: Desc, s: seq<byte>)
    requires |s| <= d.Size() && BufferDistinct(bus, d)
    ensures Gather(Scatter(m, bus, d.Address(), s), bus, d.Address(), |s|) == s
    decreases |s|
  {
    hide Visible, Cell;
    if s != [] {
      var n := |s| - 1;
      var m1 := Scatter(m, bus, d.Address(), s[..n]);
      var m2 := Scatter(m, bus, d.Address(), s);
      GatherScattered(m, bus, d, s[..n]);
      assert Seen(bus, d, n);
      forall i: nat | i < n ensures m2[BufferCell(bus, d, i)] == m1[BufferCell(bus, d, i)] {
        assert BufferCell(bus, d, i) != BufferCell(bus, d, n);
      }
      GatherSame(m1, m2, bus, d, n);
      assert s[..n] + [s[n]] == s;
    }
  }

  /** Handing a descriptor back changes nothing but its buffer and the ring. */
  lemma FillElsewhere(m: Memory, bus: Bus, r: Ring, k: nat, chunk: seq<byte>, first: bool, last: bool, total: nat, c: nat)
    requires ValidRing(bus, r) && k < r.len && total < 0x1_0000 && |chunk| <= DescAt(m, bus, r, k).Size()
    requires c < 0x8000 && !InRing(r, c)
    ensures Fill(m, bus, r, k, chunk, first, last, total)[c] == Scatter(m, bus, DescAt(m, bus, r, k).Address(), chunk)[c]
  {
    hide DescAt, Scatter, Visible, HandBack, PutWord, InRing;
    var d := DescAt(m, bus, r, k);
    DescWords(m, bus, r, k);
    StatusFits(d.d1, first, last);
    var m1 := Scatter(m, bus, d.Address(), chunk);
    var m2 := PutWord(m1, bus, DescOff(r, k) + 2, HandBack(d.d1, first, last));
    RingWordElsewhere(m1, bus, r, k, 2, HandBack(d.d1, first, last), c);
    RingWordElsewhere(m2, bus, r, k, 6, if last then total else d.d3, c);
  }

  /** A word written into a descriptor changes no cell outside the ring. */
  lemma RingWordElsewhere(m: Memory, bus: Bus, r: Ring, k: nat, b: nat, w: nat, c: nat)
    requires ValidRing(bus, r) && k < r.len && b < 7 && w < 0x1_0000 && c < 0x8000 && !InRing(r, c)
    ensures PutWord(m, bus, DescOff(r, k) + b, w)[c] == m[c]
  {
    hide Visible, Cell;
    RingPlace(r, 8 * k + b);
    RingPlace(r, 8 * k + b + 1);
  }

  /** The chunk stays in the buffer when its descriptor is handed back. */
  lemma FillStores(m: Memory, bus: Bus, r: Ring, k: nat, chunk: seq<byte>, first: bool, last: bool, total: nat)
    requires ValidRing(bus, r) && k < r.len && total < 0x1_0000
    requires var d := DescAt(m, bus, r, k);
             |chunk| <= d.Size() && BufferOffRing(bus, r, d) && BufferDistinct(bus, d)
    ensures Gather(Fill(m, bus, r, k, chunk, first, last, total), bus, DescAt(m, bus, r, k).Address(), |chunk|) == chunk
  {
    hide DescAt, Fill, Scatter, BufferDistinct, InRing;
    var d := DescAt(m, bus, r, k);
    var m1 := Scatter(m, bus, d.Address(), chunk);
    var m2 := Fill(m, bus, r, k, chunk, first, last, total);
    forall i: nat | i < |chunk| ensures m2[BufferCell(bus, d, i)] == m1[BufferCell(bus, d, i)] {
      FillElsewhere(m, bus, r, k, chunk, first, last, total, BufferCell(bus, d, i));
    }
    GatherSame(m1, m2, bus, d, |chunk|);
    GatherScattered(m, bus, d, chunk);
  }

  /** Cell c is in no chip-owned buffer and not in the ring. */
  ghost predicate Private(m: Memory, bus: Bus, r: Ring, c: nat) {
    && c < 0x8000 && !InRing(r, c)
    && forall j: nat :: j < r.len && DescAt(m, bus, r, j).Own() ==> OutsideBuffer(bus, DescAt(m, bus, r, j), c)
  }

  ghost predicate OutsideBuffer(bus: Bus, d: Desc, c: nat) {
    forall i: nat :: i < d.Size() ==> BufferCell(bus, d, i) != c
  }

  /** A delivery leaves memory that the host has not handed over alone. */
  lemma {:induction false} ReceiveElsewhere(m: Memory, bus: Bus, r: Ring, k: nat, data: seq<byte>, done: nat, prev: Option<nat>, c: nat)
    requires ValidRing(bus, r) && k < r.len && done < |data| < 0x1_0000
    requires OwnedBuffersOffRing(m, bus, r) && Private(m, bus, r, c)
    requires prev.Some? ==> prev.value < r.len
    ensures Receive(m, bus, r, k, data, done, prev).m[c] == m[c]
    decreases |data| - done
  {
    hide DescAt, Fill, BufferOffRing, OutsideBuffer, InRing;
    var d := DescAt(m, bus, r, k);
    if d.Own() {
      DescWords(m, bus, r, k);
      var n := Min(d.Size(), |data| - done);
      var last := done + n == |data|;
      var chunk := data[done..done + n];
      var m' := Fill(m, bus, r, k, chunk, prev.None?, last, |data|);
      FillElsewhere(m, bus, r, k, chunk, prev.None?, last, |data|, c);
      ChunkElsewhere(m, bus, d, chunk, c);
      if !last {
        StatusFits(d.d1, prev.None?, last);
        forall j: nat | j < r.len
          ensures DescAt(m', bus, r, j) == if j == k then Handed(d, prev.None?, last, |data|) else DescAt(m, bus, r, j)
        {
          FillDescriptors(m, bus, r, k, chunk, prev.None?, last, |data|, j);
        }
        ReceiveElsewhere(m', bus, r, Next(r, k), data, done + n, Some(k), c);
      }
    } else if prev.Some? {
      DescWords(m, bus, r, prev.value);
      StatusFits(DescAt(m, bus, r, prev.value).d1, false, false);
      RingWordElsewhere(m, bus, r, prev.value, 2, FlagOverrun(DescAt(m, bus, r, prev.value).d1), c);
    }
  }

  lemma ChunkElsewhere(m: Memory, bus: Bus, d: Desc, chunk: seq<byte>, c: nat)
    requires |chunk| <= d.Size() && c < 0x8000 && OutsideBuffer(bus, d, c)
    ensures Scatter(m, bus, d.Address(), chunk)[c] == m[c]
  {
    ScatterElsewhere(m, bus, d, chunk, c);
  }

  lemma {:induction false} GatherPrefix(m: Memory, bus: Bus, addr: nat, n: nat, k: nat)
    requires k <= n
    ensures Gather(m, bus, addr, n)[..k] == Gather(m, bus, addr, k)
    decreases n
  {
    if k < n {
      GatherPrefix(m, bus, addr, n - 1, k);
    }
  }

  /** The buffer of the descriptor being filled is private once it is handed back. */
  lemma FilledIsPrivate(m: Memory, m': Memory, bus: Bus, r: Ring, k: nat, i: nat)
    requires k < r.len && DescAt(m, bus, r, k).Own() && i < DescAt(m, bus, r, k).Size()
    requires OwnedBuffersOffRing(m, bus, r) && OwnedBuffersApart(m, bus, r)
    requires !DescAt(m', bus, r, k).Own()
    requires forall j: nat :: j < r.len && j != k ==> DescAt(m', bus, r, j) == DescAt(m, bus, r, j)
    ensures Private(m', bus, r, BufferCell(bus, DescAt(m, bus, r, k), i))
  {
  }

  /** Filling one descriptor keeps the host's buffers apart. */
  lemma FillKeepsApart(m: Memory, m': Memory, bus: Bus, r: Ring, k: nat)
    requires k < r.len && !DescAt(m', bus, r, k).Own() && OwnedBuffersApart(m, bus, r)
    requires forall j: nat :: j < r.len && j != k ==> DescAt(m', bus, r, j) == DescAt(m, bus, r, j)
    ensures OwnedBuffersApart(m', bus, r)
  {
  }

  /** The chunk of a filled descriptor is still there when the delivery ends. */
  lemma ChunkSurvives(m: Memory, m1: Memory, m2: Memory, bus: Bus, r: Ring, k: nat, chunk: seq<byte>)
    requires k < r.len && DescAt(m, bus, r, k).Own() && |chunk| <= DescAt(m, bus, r, k).Size()
    requires Gather(m1, bus, DescAt(m, bus, r, k).Address(), |chunk|) == chunk
    requires forall i: nat :: i < |chunk| ==>
               m2[BufferCell(bus, DescAt(m, bus, r, k), i)] == m1[BufferCell(bus, DescAt(m, bus, r, k), i)]
    requires DescAt(m2, bus, r, k).Address() == DescAt(m, bus, r, k).Address()
    requires DescAt(m2, bus, r, k).d2 == DescAt(m, bus, r, k).d2
    ensures Gather(m2, bus, DescAt(m2, bus, r, k).Address(), DescAt(m2, bus, r, k).Size())[..|chunk|] == chunk
  {
    hide DescAt;
    var d := DescAt(m, bus, r, k);
    GatherSame(m1, m2, bus, d, |chunk|);
    GatherPrefix(m2, bus, d.Address(), d.Size(), |chunk|);
  }

  /**
   * After a delivery the buffers of the run hold the frame: read in ring order they start
   * with exactly its bytes, for both byte orders of the data path.
   */
  lemma {:induction false} ReceiveStores(m: Memory, bus: Bus, r: Ring, k: nat, data: seq<byte>, done: nat, prev: Option<nat>, n: nat)
    requires ValidRing(bus, r) && k < r.len && n <= r.len && done < |data| < 0x1_0000
    requires prev.Some? ==> prev.value < r.len
    requires OwnedBuffersOffRing(m, bus, r) && OwnedBuffersApart(m, bus, r)
    requires Fits(m, bus, r, k, n, |data| - done)
    ensures var x := Receive(m, bus, r, k, data, done, prev);
            && |data| - done <= |Collect(x.m, bus, r, k, x.used)|
            && Collect(x.m, bus, r, k, x.used)[..|data| - done] == data[done..]
    decreases n
  {
    hide DescAt, Fill, Handed, OwnedBuffersOffRing, OwnedBuffersApart, Fits, BufferDistinct, Gather, Capacity, Steps, RunHandedBack, BufferCell;
    GuardSuffices(m, bus, r, k, data, done, prev, n);
    var d := DescAt(m, bus, r, k);
    var left := |data| - done;
    var x := Receive(m, bus, r, k, data, done, prev);
    FitsHere(m, bus, r, k, n, left);
    DescWords(m, bus, r, k);
    OwnedOffRing(m, bus, r, k);
    OwnedDistinct(m, bus, r, k);
    var take := Min(d.Size(), left);
    var chunk := data[done..done + take];
    var last := take == left;
    var m' := Fill(m, bus, r, k, chunk, prev.None?, last, |data|);
    FillStores(m, bus, r, k, chunk, prev.None?, last, |data|);
    HandedKeeps(m, bus, r, k, x, prev.None?, |data|);
    if last {
      ChunkSurvives(m, m', x.m, bus, r, k, chunk);
      assert Collect(x.m, bus, r, k, 1) == Gather(x.m, bus, d.Address(), d.Size()) + Collect(x.m, bus, r, Next(r, k), 0);
    } else {
      FillKeepsGuard(m, bus, r, k, chunk, prev.None?, |data|, n, left);
      HandedNotOwned(d, prev.None?, |data|);
      FillKeepsApart(m, m', bus, r, k);
      forall i: nat | i < |chunk| ensures x.m[BufferCell(bus, d, i)] == m'[BufferCell(bus, d, i)] {
        FilledIsPrivate(m, m', bus, r, k, i);
        ReceiveElsewhere(m', bus, r, Next(r, k), data, done + take, Some(k), BufferCell(bus, d, i));
      }
      ChunkSurvives(m, m', x.m, bus, r, k, chunk);
      ReceiveStores(m', bus, r, Next(r, k), data, done + take, Some(k), n - 1);
      var rest := Collect(x.m, bus, r, Next(r, k), x.used - 1);
      assert (chunk + rest)[..left] == chunk + rest[..left - take];
      assert data[done..] == chunk + data[done + take..];
    }
  }

  lemma FitsHere(m: Memory, bus: Bus, r: Ring, k: nat, n: nat, needed: int)
    requires Fits(m, bus, r, k, n, needed)
    ensures DescAt(m, bus, r, k).Own()
    ensures 0 < needed - DescAt(m, bus, r, k).Size() ==>
              0 < n && Fits(m, bus, r, Next(r, k), n - 1, needed - DescAt(m, bus, r, k).Size())
  {
  }

  lemma OwnedDistinct(m: Memory, bus: Bus, r: Ring, k: nat)
    requires OwnedBuffersApart(m, bus, r) && k < r.len && DescAt(m, bus, r, k).Own()
    ensures BufferDistinct(bus, DescAt(m, bus, r, k))
  {
  }

  lemma HandedNotOwned(d: Desc, first: bool, total: nat)
    requires d.d1 < 0x1_0000
    ensures !Handed(d, first, false, total).Own()
  {
  }

  /** The first descriptor of a finished run still points to the same buffer. */
  lemma HandedKeeps(m: Memory, bus: Bus, r: Ring, k: nat, x: Rx, first: bool, total: nat)
    requires k < r.len && 1 <= x.used && RunHandedBack(m, x.m, bus, r, k, x.used, first, total)
    ensures DescAt(x.m, bus, r, k).Address() == DescAt(m, bus, r, k).Address()
    ensures DescAt(x.m, bus, r, k).d2 == DescAt(m, bus, r, k).d2
  {
    hide DescAt, Handed;
    DescWords(m, bus, r, k);
    HandedKeepsSize(DescAt(m, bus, r, k), first, x.used == 1, total);
  }
}
