/** Transmission of a descriptor chain: the gather loop, its end, and its inverse relation to delivery. */
module TxRing {
  import opened Words
  import opened BoardRam
  import opened RxRing
  import opened Wrappers
  import Csr

  const MAX_PACKET: nat := 4000

  predicate Enp(d1: nat) { (d1 / 0x0100) % 2 == 1 }
  predicate Stp(d1: nat) { (d1 / 0x0200) % 2 == 1 }
  predicate AddFcs(d1: nat) { (d1 / 0x2000) % 2 == 1 }

  function ClearOwn(d1: nat): (w: nat) { if 0x8000 <= d1 then d1 - 0x8000 else d1 }
  function SetErr(d1: nat): (w: nat) { SetFlag(d1, 0x4000) }
  function SetUnderflow(d3: nat): (w: nat) { SetFlag(SetFlag(d3, 0x8000), 0x4000) }

  lemma WordsFit(d1: nat, d3: nat)
    requires d1 < 0x1_0000 && d3 < 0x1_0000
    ensures ClearOwn(d1) < 0x8000 && SetErr(d1) < 0x1_0000 && SetUnderflow(d3) < 0x1_0000
    ensures SetErr(ClearOwn(d1)) < 0x8000
  {
  }

  function Zeros(n: nat): (s: seq<byte>)
    ensures |s| == n
  {
    seq(n, _ => 0)
  }

  /** What one buffer adds to the frame: at most 4000 bytes, padded to 60 on request. */
  function Segment(m: Memory, bus: Bus, d: Desc, pad: bool): (s: seq<byte>)
    requires d.d2 < 0x1_0000
  {
    var size := Min(d.Size(), MAX_PACKET);
    Gather(m, bus, d.Address(), size) + (if pad && size < 60 then Zeros(60 - size) else [])
  }

  /** Both writable words of a visible descriptor. */
  function PutBoth(m: Memory, bus: Bus, r: Ring, k: nat, d1: nat, d3: nat): (n: Memory)
    requires d1 < 0x1_0000 && d3 < 0x1_0000
  {
    PutWord(PutWord(m, bus, DescOff(r, k) + 2, d1), bus, DescOff(r, k) + 6, d3)
  }

  lemma PutBothDescriptors(m: Memory, bus: Bus, r: Ring, k: nat, d1: nat, d3: nat, j: nat)
    requires ValidRing(bus, r) && k < r.len && j < r.len && d1 < 0x1_0000 && d3 < 0x1_0000
    requires Visible(bus, DescOff(r, k))
    ensures DescAt(PutBoth(m, bus, r, k, d1, d3), bus, r, j)
         == if j == k then DescAt(m, bus, r, k).(d1 := d1, d3 := d3) else DescAt(m, bus, r, j)
  {
    hide DescAt, PutWord;
    PutStatus(m, bus, r, k, d1, j);
    PutMessage(PutWord(m, bus, DescOff(r, k) + 2, d1), bus, r, k, d3, j);
  }

  /** How many of the first n descriptors the chip owns. */
  function Owned(m: Memory, bus: Bus, r: Ring, n: nat): (c: nat) {
    if n == 0 then 0 else Owned(m, bus, r, n - 1) + (if DescAt(m, bus, r, n - 1).Own() then 1 else 0)
  }

  lemma {:induction false} OwnedDrops(m: Memory, m': Memory, bus: Bus, r: Ring, k: nat, n: nat)
    requires n <= r.len && k < r.len && DescAt(m, bus, r, k).Own() && !DescAt(m', bus, r, k).Own()
    requires forall j: nat :: j < r.len && j != k ==> DescAt(m', bus, r, j).Own() == DescAt(m, bus, r, j).Own()
    ensures Owned(m', bus, r, n) == Owned(m, bus, r, n) - (if k < n then 1 else 0)
  {
    hide DescAt;
    if n > 0 {
      OwnedDrops(m, m', bus, r, k, n - 1);
    }
  }

  /** The memory after a transmitted descriptor has been handed back. */
  function GiveBack(m: Memory, bus: Bus, r: Ring, k: nat): (n: Memory) {
    var d := DescAt(m, bus, r, k);
    DescWords(m, bus, r, k);
    WordsFit(d.d1, d.d3);
    PutBoth(m, bus, r, k, ClearOwn(d.d1), d.d3)
  }

  lemma GiveBackDescriptors(m: Memory, bus: Bus, r: Ring, k: nat)
    requires ValidRing(bus, r) && k < r.len && DescAt(m, bus, r, k).Own()
    ensures forall j: nat :: j < r.len ==>
              DescAt(GiveBack(m, bus, r, k), bus, r, j)
                == if j == k then DescAt(m, bus, r, k).(d1 := ClearOwn(DescAt(m, bus, r, k).d1)) else DescAt(m, bus, r, j)
    ensures Owned(GiveBack(m, bus, r, k), bus, r, r.len) < Owned(m, bus, r, r.len)
  {
    hide DescAt, PutBoth;
    var d := DescAt(m, bus, r, k);
    DescWords(m, bus, r, k);
    WordsFit(d.d1, d.d3);
    OwnedIsVisible(m, bus, r, k);
    forall j: nat | j < r.len
      ensures DescAt(GiveBack(m, bus, r, k), bus, r, j) == if j == k then d.(d1 := ClearOwn(d.d1)) else DescAt(m, bus, r, j)
    {
      PutBothDescriptors(m, bus, r, k, ClearOwn(d.d1), d.d3, j);
    }
    OwnedDrops(m, GiveBack(m, bus, r, k), bus, r, k, r.len);
  }

  /** Where the gather loop ends: memory, ring position, frame, own error, and descriptors handed back. */
  datatype Tx = Tx(m: Memory, k: nat, out: seq<byte>, ownError: bool, used: nat)

  /**
   * The gather loop of do_transmit from ring position k. Every turn but the last hands one
   * descriptor back, so the loop ends whatever the host left in the ring.
   */
  function Transmit(m: Memory, bus: Bus, r: Ring, k: nat, out: seq<byte>, pad: bool): (x: Tx)
    requires ValidRing(bus, r) && k < r.len
    decreases Owned(m, bus, r, r.len)
  {
    var d := DescAt(m, bus, r, k);
    DescWords(m, bus, r, k);
    WordsFit(d.d1, d.d3);
    if !d.Own() then
      Tx(PutBoth(m, bus, r, k, SetErr(d.d1), SetUnderflow(d.d3)), k, out, true, 0)
    else
      var more := out + Segment(m, bus, d, pad);
      GiveBackDescriptors(m, bus, r, k);
      if Enp(d.d1) then Tx(GiveBack(m, bus, r, k), k + 1, more, false, 1)
      else
        var x := Transmit(GiveBack(m, bus, r, k), bus, r, Next(r, k), more, pad);
        Tx(x.m, x.k, x.out, x.ownError, x.used + 1)
  }

  /** The chip-owned descriptors from k on reach an end of packet within n. */
  predicate Ends(m: Memory, bus: Bus, r: Ring, k: nat, n: nat)
    decreases n
  {
    && 0 < n && DescAt(m, bus, r, k).Own()
    && (Enp(DescAt(m, bus, r, k).d1) || Ends(m, bus, r, Next(r, k), n - 1))
  }

  /** n chip-owned descriptors from k on, of which exactly the last ends a packet. */
  predicate Chain(m: Memory, bus: Bus, r: Ring, k: nat, n: nat)
    decreases n
  {
    && 0 < n && DescAt(m, bus, r, k).Own()
    && (if Enp(DescAt(m, bus, r, k).d1) then n == 1 else Chain(m, bus, r, Next(r, k), n - 1))
  }

  /** The frame that the buffers of a chain spell out. */
  function ChainBytes(m: Memory, bus: Bus, r: Ring, k: nat, n: nat, pad: bool): (s: seq<byte>)
    decreases n
  {
    if n == 0 then []
    else
      DescWords(m, bus, r, k);
      Segment(m, bus, DescAt(m, bus, r, k), pad) + ChainBytes(m, bus, r, Next(r, k), n - 1, pad)
  }

  /** A chain that does not reach descriptor c does not depend on it. */
  lemma {:induction false} EndsIgnores(m: Memory, m': Memory, bus: Bus, r: Ring, k: nat, n: nat, c: nat)
    requires k < r.len && c < r.len && n <= Dist(r, k, c)
    requires forall j: nat :: j < r.len && j != c ==> DescAt(m', bus, r, j) == DescAt(m, bus, r, j)
    ensures Ends(m', bus, r, k, n) == Ends(m, bus, r, k, n)
    decreases n
  {
    hide DescAt;
    if n > 0 {
      EndsIgnores(m, m', bus, r, Next(r, k), n - 1, c);
    }
  }

  lemma {:induction false} ChainIgnores(m: Memory, m': Memory, bus: Bus, r: Ring, k: nat, n: nat, c: nat)
    requires k < r.len && c < r.len && n <= Dist(r, k, c)
    requires forall j: nat :: j < r.len && j != c ==> DescAt(m', bus, r, j) == DescAt(m, bus, r, j)
    ensures Chain(m', bus, r, k, n) == Chain(m, bus, r, k, n)
    decreases n
  {
    hide DescAt;
    if n > 0 {
      ChainIgnores(m, m', bus, r, Next(r, k), n - 1, c);
    }
  }

  /** Handing a descriptor back leaves every buffer outside the ring alone. */
  lemma SegmentKept(m: Memory, bus: Bus, r: Ring, k: nat, d: Desc, pad: bool)
    requires ValidRing(bus, r) && k < r.len && d.d2 < 0x1_0000 && BufferOffRing(bus, r, d)
    ensures Segment(GiveBack(m, bus, r, k), bus, d, pad) == Segment(m, bus, d, pad)
  {
    hide DescAt, PutWord, InRing;
    var e := DescAt(m, bus, r, k);
    DescWords(m, bus, r, k);
    WordsFit(e.d1, e.d3);
    var m1 := PutWord(m, bus, DescOff(r, k) + 2, ClearOwn(e.d1));
    forall i: nat | i < d.Size()
      ensures GiveBack(m, bus, r, k)[BufferCell(bus, d, i)] == m[BufferCell(bus, d, i)]
    {
      RingWordElsewhere(m, bus, r, k, 2, ClearOwn(e.d1), BufferCell(bus, d, i));
      RingWordElsewhere(m1, bus, r, k, 6, e.d3, BufferCell(bus, d, i));
    }
    GatherSame(m, GiveBack(m, bus, r, k), bus, d, Min(d.Size(), MAX_PACKET));
  }

  /** The buffers of the rest of a chain still hold the same bytes. */
  lemma {:induction false} ChainBytesKept(m: Memory, bus: Bus, r: Ring, c: nat, k: nat, n: nat, pad: bool)
    requires ValidRing(bus, r) && c < r.len && k < r.len && n <= Dist(r, k, c)
    requires OwnedBuffersOffRing(m, bus, r) && DescAt(m, bus, r, c).Own() && Chain(m, bus, r, k, n)
    ensures ChainBytes(GiveBack(m, bus, r, c), bus, r, k, n, pad) == ChainBytes(m, bus, r, k, n, pad)
    decreases n
  {
    hide DescAt, GiveBack, Segment, OwnedBuffersOffRing;
    DescWords(m, bus, r, k);
    DescWords(GiveBack(m, bus, r, c), bus, r, k);
    GiveBackDescriptors(m, bus, r, c);
    OwnedOffRing(m, bus, r, k);
    SegmentKept(m, bus, r, c, DescAt(m, bus, r, k), pad);
    if !Enp(DescAt(m, bus, r, k).d1) {
      ChainBytesKept(m, bus, r, c, Next(r, k), n - 1, pad);
    }
  }

  /** OWN is cleared on n descriptors from k on; everything else is as before. */
  ghost predicate RunGivenBack(m: Memory, m': Memory, bus: Bus, r: Ring, k: nat, n: nat) {
    forall j: nat :: j < r.len ==>
      DescAt(m', bus, r, j) ==
        if Dist(r, k, j) < n then DescAt(m, bus, r, j).(d1 := ClearOwn(DescAt(m, bus, r, j).d1)) else DescAt(m, bus, r, j)
  }

  /** A frame that has been taken from the ring. */
  ghost predicate Taken(m: Memory, bus: Bus, r: Ring, k: nat, out: seq<byte>, pad: bool, n: nat, x: Tx) {
    && !x.ownError && 1 <= x.used <= n
    && Chain(m, bus, r, k, x.used)
    && x.out == out + ChainBytes(m, bus, r, k, x.used, pad)
    && RunGivenBack(m, x.m, bus, r, k, x.used)
    && x.k == Steps(r, k, x.used - 1) + 1
  }

  lemma GiveBackKeepsHost(m: Memory, bus: Bus, r: Ring, k: nat)
    requires ValidRing(bus, r) && k < r.len && DescAt(m, bus, r, k).Own() && OwnedBuffersOffRing(m, bus, r)
    ensures OwnedBuffersOffRing(GiveBack(m, bus, r, k), bus, r)
  {
    hide DescAt, GiveBack, BufferOffRing;
    GiveBackDescriptors(m, bus, r, k);
    DescWords(m, bus, r, k);
    WordsFit(DescAt(m, bus, r, k).d1, 0);
  }

  lemma RunGivenBackGrows(m: Memory, m2: Memory, bus: Bus, r: Ring, k: nat, n: nat)
    requires ValidRing(bus, r) && k < r.len && 1 <= n < r.len && DescAt(m, bus, r, k).Own()
    requires RunGivenBack(GiveBack(m, bus, r, k), m2, bus, r, Next(r, k), n)
    ensures RunGivenBack(m, m2, bus, r, k, n + 1)
  {
    hide DescAt, GiveBack, ClearOwn;
    GiveBackDescriptors(m, bus, r, k);
  }

  /**
   * A chain with an end is sent whole: the frame is what its buffers held, joined in ring
   * order, exactly its descriptors are given back, and the ring position moves past it.
   */
  lemma {:induction false} ChainIsSent(m: Memory, bus: Bus, r: Ring, k: nat, out: seq<byte>, pad: bool, n: nat)
    requires ValidRing(bus, r) && k < r.len && n <= r.len && OwnedBuffersOffRing(m, bus, r)
    requires Ends(m, bus, r, k, n)
    ensures Taken(m, bus, r, k, out, pad, n, Transmit(m, bus, r, k, out, pad))
    decreases n
  {
    hide DescAt, GiveBack, Segment, OwnedBuffersOffRing, RunGivenBack;
    var d := DescAt(m, bus, r, k);
    DescWords(m, bus, r, k);
    var more := out + Segment(m, bus, d, pad);
    var m' := GiveBack(m, bus, r, k);
    GiveBackDescriptors(m, bus, r, k);
    if Enp(d.d1) {
      OneGivenBack(m, bus, r, k);
      assert ChainBytes(m, bus, r, k, 1, pad) == Segment(m, bus, d, pad) + ChainBytes(m, bus, r, Next(r, k), 0, pad);
    } else {
      EndsIgnores(m, m', bus, r, Next(r, k), n - 1, k);
      GiveBackKeepsHost(m, bus, r, k);
      ChainIsSent(m', bus, r, Next(r, k), more, pad, n - 1);
      var x := Transmit(m', bus, r, Next(r, k), more, pad);
      ChainIgnores(m, m', bus, r, Next(r, k), x.used, k);
      ChainBytesKept(m, bus, r, k, Next(r, k), x.used, pad);
      RunGivenBackGrows(m, x.m, bus, r, k, x.used);
    }
  }

  lemma OneGivenBack(m: Memory, bus: Bus, r: Ring, k: nat)
    requires ValidRing(bus, r) && k < r.len && DescAt(m, bus, r, k).Own()
    ensures RunGivenBack(m, GiveBack(m, bus, r, k), bus, r, k, 1)
  {
    hide DescAt, GiveBack, ClearOwn;
    GiveBackDescriptors(m, bus, r, k);
  }

  /** A chain without an end runs into a descriptor the host owns, at the latest its own first one. */
  lemma {:induction false} EndlessChainFails(m: Memory, bus: Bus, r: Ring, k: nat, out: seq<byte>, pad: bool, n: nat)
    requires ValidRing(bus, r) && k < r.len && n <= r.len
    requires forall j: nat :: j < r.len && n <= Dist(r, k, j) ==> !DescAt(m, bus, r, j).Own()
    requires !Ends(m, bus, r, k, n)
    ensures Transmit(m, bus, r, k, out, pad).ownError
    decreases n
  {
    hide DescAt, GiveBack, Segment;
    var d := DescAt(m, bus, r, k);
    if d.Own() {
      DescWords(m, bus, r, k);
      WordsFit(d.d1, d.d3);
      var m' := GiveBack(m, bus, r, k);
      GiveBackDescriptors(m, bus, r, k);
      EndsIgnores(m, m', bus, r, Next(r, k), n - 1, k);
      EndlessChainFails(m', bus, r, Next(r, k), out + Segment(m, bus, d, pad), pad, n - 1);
    }
  }

  /** The gather loop raises no error exactly if the chip-owned descriptors reach an end of packet. */
  lemma SentExactlyIfItEnds(m: Memory, bus: Bus, r: Ring, k: nat, pad: bool)
    requires ValidRing(bus, r) && k < r.len && OwnedBuffersOffRing(m, bus, r)
    ensures !Transmit(m, bus, r, k, [], pad).ownError <==> Ends(m, bus, r, k, r.len)
  {
    hide Transmit, Ends, OwnedBuffersOffRing, RunGivenBack;
    if Ends(m, bus, r, k, r.len) {
      ChainIsSent(m, bus, r, k, [], pad, r.len);
    } else {
      EndlessChainFails(m, bus, r, k, [], pad, r.len);
    }
  }

  /** Every buffer of the chain holds a minimum frame by itself. */
  predicate NoShortBuffer(m: Memory, bus: Bus, r: Ring, k: nat, n: nat)
    decreases n
  {
    n == 0 || (60 <= DescAt(m, bus, r, k).Size() && NoShortBuffer(m, bus, r, Next(r, k), n - 1))
  }

  /**
   * Automatic padding works per buffer, so it leaves the frame alone exactly if no buffer of
   * the chain is short; a chained header of less than 60 bytes is padded in mid-frame.
   */
  lemma {:induction false} PaddingHarmlessExactlyWithoutShortBuffers(m: Memory, bus: Bus, r: Ring, k: nat, n: nat)
    ensures |ChainBytes(m, bus, r, k, n, false)| <= |ChainBytes(m, bus, r, k, n, true)|
    ensures ChainBytes(m, bus, r, k, n, true) == ChainBytes(m, bus, r, k, n, false) <==> NoShortBuffer(m, bus, r, k, n)
    decreases n
  {
    hide DescAt, Gather;
    if n > 0 {
      DescWords(m, bus, r, k);
      PaddingHarmlessExactlyWithoutShortBuffers(m, bus, r, Next(r, k), n - 1);
      var d := DescAt(m, bus, r, k);
      var a, b := ChainBytes(m, bus, r, Next(r, k), n - 1, false), ChainBytes(m, bus, r, Next(r, k), n - 1, true);
      var s := Gather(m, bus, d.Address(), Min(d.Size(), MAX_PACKET));
      if 60 <= d.Size() {
        assert s + [] == s;
        SameSuffix(s, a, b);
      }
    }
  }

  lemma SameSuffix(s: seq<byte>, a: seq<byte>, b: seq<byte>)
    ensures s + a == s + b <==> a == b
  {
    assert a == (s + a)[|s|..] && b == (s + b)[|s|..];
  }

  lemma {:induction false} ChainEnds(m: Memory, bus: Bus, r: Ring, k: nat, n: nat, n': nat)
    requires Chain(m, bus, r, k, n)
    ensures n <= n' ==> Ends(m, bus, r, k, n')
    ensures Chain(m, bus, r, k, n') ==> n' == n
    decreases n
  {
    hide DescAt;
    if !Enp(DescAt(m, bus, r, k).d1) && 0 < n' {
      ChainEnds(m, bus, r, Next(r, k), n - 1, n' - 1);
    }
  }

  /**
   * The first n descriptors of a transmit ring point at the n buffers of a receive run whose
   * first `left` bytes are the frame; the last one is cut to the frame, and no buffer byte changed.
   */
  ghost predicate Forwards(m: Memory, bus: Bus, rx: Ring, k: nat, m': Memory, tx: Ring, t: nat, n: nat, left: int)
    decreases n
  {
    var d, e := DescAt(m, bus, rx, k), DescAt(m', bus, tx, t);
    && 0 < n && e.Address() == d.Address()
    && e.Size() == (if n == 1 then left else d.Size()) && 0 < e.Size() <= d.Size() && e.Size() <= MAX_PACKET
    && (forall i: nat :: i < e.Size() ==> m'[BufferCell(bus, d, i)] == m[BufferCell(bus, d, i)])
    && (n == 1 || Forwards(m, bus, rx, Next(rx, k), m', tx, Next(tx, t), n - 1, left - d.Size()))
  }

  lemma SegmentForwards(m: Memory, m': Memory, bus: Bus, d: Desc, e: Desc)
    requires e.Address() == d.Address() && 0 < e.Size() <= d.Size() && e.Size() <= MAX_PACKET && e.d2 < 0x1_0000
    requires forall i: nat :: i < e.Size() ==> m'[BufferCell(bus, d, i)] == m[BufferCell(bus, d, i)]
    ensures Segment(m', bus, e, false) == Gather(m, bus, d.Address(), d.Size())[..e.Size()]
  {
    hide BufferCell, Gather;
    GatherSame(m, m', bus, d, e.Size());
    GatherPrefix(m, bus, d.Address(), d.Size(), e.Size());
  }

  lemma {:induction false} ChainForwards(m: Memory, bus: Bus, rx: Ring, k: nat, m': Memory, tx: Ring, t: nat, n: nat, left: int)
    requires Forwards(m, bus, rx, k, m', tx, t, n, left)
    ensures 0 < left <= |Collect(m, bus, rx, k, n)|
    ensures ChainBytes(m', bus, tx, t, n, false) == Collect(m, bus, rx, k, n)[..left]
    decreases n
  {
    hide DescAt, Gather, Segment, BufferCell;
    var d, e := DescAt(m, bus, rx, k), DescAt(m', bus, tx, t);
    DescWords(m', bus, tx, t);
    SegmentForwards(m, m', bus, d, e);
    var s := Gather(m, bus, d.Address(), d.Size());
    if n == 1 {
      assert ChainBytes(m', bus, tx, t, 1, false) == s[..left] + ChainBytes(m', bus, tx, Next(tx, t), 0, false);
    } else {
      ChainForwards(m, bus, rx, Next(rx, k), m', tx, Next(tx, t), n - 1, left - d.Size());
      var rest := Collect(m, bus, rx, Next(rx, k), n - 1);
      assert (s + rest)[..left] == s + rest[..left - d.Size()];
    }
  }

  /**
   * Gather undoes scatter: a frame delivered over a run of receive buffers and sent from
   * those same buffers is the frame itself, for both byte orders of the data path.
   */
  lemma DeliveredThenSent(m: Memory, bus: Bus, rx: Ring, k: nat, data: seq<byte>, m': Memory, tx: Ring, t: nat)
    requires ValidRing(bus, rx) && k < rx.len && 0 < |data| < 0x1_0000
    requires OwnedBuffersOffRing(m, bus, rx) && OwnedBuffersApart(m, bus, rx) && RxRing.Fits(m, bus, rx, k, rx.len, |data|)
    requires ValidRing(bus, tx) && t < tx.len && OwnedBuffersOffRing(m', bus, tx)
    requires var x := Receive(m, bus, rx, k, data, 0, None);
             x.used <= tx.len && Chain(m', bus, tx, t, x.used) && Forwards(x.m, bus, rx, k, m', tx, t, x.used, |data|)
    ensures var y := Transmit(m', bus, tx, t, [], false); !y.ownError && y.out == data
  {
    hide Receive, Transmit, RxRing.Fits, OwnedBuffersOffRing, OwnedBuffersApart, Collect, ChainBytes, RunGivenBack, Forwards, Chain, Ends;
    var x := Receive(m, bus, rx, k, data, 0, None);
    var y := Transmit(m', bus, tx, t, [], false);
    ReceiveStores(m, bus, rx, k, data, 0, None, rx.len);
    ChainForwards(x.m, bus, rx, k, m', tx, t, x.used, |data|);
    ChainEnds(m', bus, tx, t, x.used, tx.len);
    ChainIsSent(m', bus, tx, t, [], false, tx.len);
    ChainEnds(m', bus, tx, t, x.used, y.used);
  }
}
