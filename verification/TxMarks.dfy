/**
 * What the host reads from its transmit descriptors after an attempt, bit by bit, and what a
 * buffer puts on the line, byte by byte.
 */
module TxMarks {
  import opened Words
  import opened BoardRam
  import opened RxRing
  import opened RxMarks
  import opened TxRing
  import opened Wrappers

  const UFLO := 14

  lemma {:induction false} BitIsDigit(w: nat, i: nat)
    ensures 0 < Pow2(i)
    ensures Bit(w, i) <==> (w / Pow2(i)) % 2 == 1
    decreases i
  {
    Pow2Grows(0, i);
    if i > 0 {
      BitIsDigit(w / 2, i - 1);
      var p := Pow2(i - 1);
      var q, rest := w / 2 / p, w / 2 % p;
      assert w / 2 == q * p + rest;
      assert w == q * (2 * p) + (2 * rest + w % 2);
      QuotientOnly(w, q, 2 * p, 2 * rest + w % 2);
    }
  }

  /** Start and end of packet, and the request for a frame check sequence, as bits. */
  lemma StatusBits(d1: nat)
    ensures Stp(d1) <==> Bit(d1, STP)
    ensures Enp(d1) <==> Bit(d1, ENP)
    ensures AddFcs(d1) <==> Bit(d1, 13)
  {
    Weights();
    BitIsDigit(d1, 9);
    BitIsDigit(d1, 8);
    BitIsDigit(d1, 13);
  }

  lemma ClearOwnBits(d1: nat, i: nat)
    requires d1 < 0x1_0000
    ensures Bit(ClearOwn(d1), i) <==> i != OWN && Bit(d1, i)
  {
    Weights();
    TopBit(d1, 15);
    if 0x8000 <= d1 {
      ClearTop(d1, i, 15);
    }
  }

  lemma ErrorBits(d1: nat, d3: nat, i: nat)
    ensures Bit(SetErr(d1), i) <==> i == ERROR || Bit(d1, i)
    ensures Bit(SetUnderflow(d3), i) <==> i == 15 || i == UFLO || Bit(d3, i)
  {
    hide SetFlag;
    Weights();
    SetFlagBits(d1, 14, i);
    SetFlagBits(d3, 15, i);
    SetFlagBits(SetFlag(d3, 0x8000), 14, i);
  }

  /** `e` is what the host gets back for `d`: given back, and marked with ERR, BUFF and UFLO. */
  ghost predicate Returned(d: Desc, e: Desc, given: bool, failed: bool) {
    && SamePlace(d, e)
    && (forall i: nat :: i < 16 ==>
          (Bit(e.d1, i) <==> (Bit(d.d1, i) && !(given && i == OWN)) || (failed && i == ERROR)))
    && (forall i: nat :: i < 16 ==> (Bit(e.d3, i) <==> Bit(d.d3, i) || (failed && (i == 15 || i == UFLO))))
  }

  /** What becomes of descriptor j of a run of n without an end; `seen` if the chip can write it. */
  function Failed(r: Ring, k: nat, n: nat, j: nat, d: Desc, seen: bool): (e: Desc) {
    var given := if Dist(r, k, j) < n then d.(d1 := ClearOwn(d.d1)) else d;
    if Dist(r, k, j) == (if n == r.len then 0 else n) && seen
    then given.(d1 := SetErr(given.d1), d3 := SetUnderflow(given.d3))
    else given
  }

  lemma FailedReturns(r: Ring, k: nat, n: nat, j: nat, d: Desc, seen: bool)
    requires d.d1 < 0x1_0000
    ensures Returned(d, Failed(r, k, n, j, d, seen), Dist(r, k, j) < n, Dist(r, k, j) == (if n == r.len then 0 else n) && seen)
  {
    hide ClearOwn, SetErr, SetUnderflow;
    var given := if Dist(r, k, j) < n then d.(d1 := ClearOwn(d.d1)) else d;
    forall i: nat
      ensures Bit(ClearOwn(d.d1), i) <==> i != OWN && Bit(d.d1, i)
      ensures Bit(SetErr(given.d1), i) <==> i == ERROR || Bit(given.d1, i)
      ensures Bit(SetUnderflow(given.d3), i) <==> i == 15 || i == UFLO || Bit(given.d3, i)
    {
      ClearOwnBits(d.d1, i);
      ErrorBits(given.d1, given.d3, i);
    }
  }

  /** The first p + 1 descriptors from k on are the chip's, and the last of them alone ends a packet. */
  ghost predicate PacketRun(m: Memory, bus: Bus, r: Ring, k: nat, p: nat) {
    && p < r.len
    && (forall j: nat :: j < r.len && Dist(r, k, j) <= p ==>
          DescAt(m, bus, r, j).Own() && (Bit(DescAt(m, bus, r, j).d1, ENP) <==> Dist(r, k, j) == p))
  }

  lemma {:induction false} PacketIsChain(m: Memory, bus: Bus, r: Ring, k: nat, p: nat)
    requires k < r.len && PacketRun(m, bus, r, k, p)
    ensures p < r.len && Chain(m, bus, r, k, p + 1)
    decreases p
  {
    hide DescAt, Enp, Bit;
    assert Dist(r, k, k) == 0;
    StatusBits(DescAt(m, bus, r, k).d1);
    if p > 0 {
      PacketIsChain(m, bus, r, Next(r, k), p - 1);
    }
  }

  /**
   * A packet is taken whole: its descriptors come back with OWN off and nothing else changed,
   * no other descriptor changes, the ring position moves behind it, and no error is raised.
   */
  lemma SentMarks(m: Memory, bus: Bus, r: Ring, k: nat, pad: bool, p: nat)
    requires ValidRing(bus, r) && k < r.len && OwnedBuffersOffRing(m, bus, r) && PacketRun(m, bus, r, k, p)
    ensures var x := Transmit(m, bus, r, k, [], pad);
            && !x.ownError && x.used == p + 1 && x.k == Steps(r, k, p) + 1
            && x.out == ChainBytes(m, bus, r, k, p + 1, pad)
            && forall j: nat :: j < r.len ==>
                 Returned(DescAt(m, bus, r, j), DescAt(x.m, bus, r, j), Dist(r, k, j) <= p, false)
  {
    hide DescAt, Transmit, OwnedBuffersOffRing, ClearOwn, Returned, PacketRun, Chain, Ends;
    PacketIsChain(m, bus, r, k, p);
    ChainEnds(m, bus, r, k, p + 1, r.len);
    ChainIsSent(m, bus, r, k, [], pad, r.len);
    var x := Transmit(m, bus, r, k, [], pad);
    ChainEnds(m, bus, r, k, p + 1, x.used);
    assert x.out == [] + ChainBytes(m, bus, r, k, p + 1, pad);
    forall j: nat | j < r.len
      ensures Returned(DescAt(m, bus, r, j), DescAt(x.m, bus, r, j), Dist(r, k, j) <= p, false)
    {
      DescWords(m, bus, r, j);
      GivenReturns(DescAt(m, bus, r, j), Dist(r, k, j) <= p);
    }
  }

  lemma GivenReturns(d: Desc, given: bool)
    requires d.d1 < 0x1_0000
    ensures Returned(d, if given then d.(d1 := ClearOwn(d.d1)) else d, given, false)
  {
    hide ClearOwn;
    forall i: nat ensures Bit(ClearOwn(d.d1), i) <==> i != OWN && Bit(d.d1, i) {
      ClearOwnBits(d.d1, i);
    }
  }

  /** Error marks in a descriptor the chip may not even see. */
  lemma MarksHere(m: Memory, bus: Bus, r: Ring, k: nat, d1: nat, d3: nat, j: nat)
    requires ValidRing(bus, r) && k < r.len && j < r.len && d1 < 0x1_0000 && d3 < 0x1_0000
    ensures DescAt(PutBoth(m, bus, r, k, d1, d3), bus, r, j)
         == if j == k && Visible(bus, DescOff(r, k)) then DescAt(m, bus, r, k).(d1 := d1, d3 := d3) else DescAt(m, bus, r, j)
  {
    hide DescAt, PutBoth, Visible;
    if Visible(bus, DescOff(r, k)) {
      PutBothDescriptors(m, bus, r, k, d1, d3, j);
    } else {
      Unseen(m, bus, r, k, d1, d3);
    }
  }

  lemma Unseen(m: Memory, bus: Bus, r: Ring, k: nat, d1: nat, d3: nat)
    requires ValidRing(bus, r) && k < r.len && d1 < 0x1_0000 && d3 < 0x1_0000
    requires !Visible(bus, DescOff(r, k))
    ensures PutBoth(m, bus, r, k, d1, d3) == m
  {
    hide Visible;
    VisibleTogether(bus, r, k, 2);
    VisibleTogether(bus, r, k, 3);
    VisibleTogether(bus, r, k, 6);
    VisibleTogether(bus, r, k, 7);
  }

  /** A run of n chip-owned descriptors, none of which ends a packet. */
  ghost predicate EndlessRun(m: Memory, bus: Bus, r: Ring, k: nat, n: nat) {
    && ChipRun(m, bus, r, k, n)
    && (forall j: nat :: j < r.len && Dist(r, k, j) < n ==> !Bit(DescAt(m, bus, r, j).d1, ENP))
  }

  lemma EndlessShrinks(m: Memory, m': Memory, bus: Bus, r: Ring, k: nat, n: nat)
    requires k < r.len && 0 < n && EndlessRun(m, bus, r, k, n) && !DescAt(m', bus, r, k).Own()
    requires forall j: nat :: j < r.len && j != k ==> DescAt(m', bus, r, j) == DescAt(m, bus, r, j)
    ensures EndlessRun(m', bus, r, Next(r, k), n - 1)
  {
    hide DescAt, ChipRun, Bit;
    RunShrinks(m, m', bus, r, k, n);
    RunIsShort(m, bus, r, k, n);
  }

  lemma RunIsShort(m: Memory, bus: Bus, r: Ring, k: nat, n: nat)
    requires ChipRun(m, bus, r, k, n)
    ensures n <= r.len
  {
  }

  lemma EndlessHere(m: Memory, bus: Bus, r: Ring, k: nat, n: nat)
    requires k < r.len && EndlessRun(m, bus, r, k, n)
    ensures n <= r.len
    ensures DescAt(m, bus, r, k).Own() <==> 0 < n
    ensures 0 < n ==> !Enp(DescAt(m, bus, r, k).d1)
  {
    hide DescAt, ChipRun, Bit, Enp;
    assert Dist(r, k, k) == 0;
    RunIsShort(m, bus, r, k, n);
    RunEnds(m, bus, r, k, n);
    StatusBits(DescAt(m, bus, r, k).d1);
  }

  lemma FailedGrows(m: Memory, m1: Memory, m2: Memory, bus: Bus, r: Ring, k: nat, n: nat)
    requires k < r.len && 0 < n <= r.len && Visible(bus, DescOff(r, k))
    requires forall j: nat :: j < r.len ==>
               DescAt(m1, bus, r, j) == if j == k then DescAt(m, bus, r, k).(d1 := ClearOwn(DescAt(m, bus, r, k).d1))
                                        else DescAt(m, bus, r, j)
    requires forall j: nat :: j < r.len ==>
               DescAt(m2, bus, r, j) == Failed(r, Next(r, k), n - 1, j, DescAt(m1, bus, r, j), Visible(bus, DescOff(r, j)))
    ensures forall j: nat :: j < r.len ==>
              DescAt(m2, bus, r, j) == Failed(r, k, n, j, DescAt(m, bus, r, j), Visible(bus, DescOff(r, j)))
  {
    hide DescAt, Visible, ClearOwn, SetErr, SetUnderflow;
  }

  lemma {:induction false} RunFails(m: Memory, bus: Bus, r: Ring, k: nat, out: seq<byte>, pad: bool, n: nat)
    requires ValidRing(bus, r) && k < r.len && EndlessRun(m, bus, r, k, n)
    ensures var x := Transmit(m, bus, r, k, out, pad);
            && x.ownError && x.used == n && x.k == Steps(r, k, n)
            && forall j: nat :: j < r.len ==>
                 DescAt(x.m, bus, r, j) == Failed(r, k, n, j, DescAt(m, bus, r, j), Visible(bus, DescOff(r, j)))
    decreases n
  {
    hide DescAt, GiveBack, Segment, PutBoth, EndlessRun, Visible, Enp, ClearOwn, SetErr, SetUnderflow, Failed, Owned;
    var d := DescAt(m, bus, r, k);
    EndlessHere(m, bus, r, k, n);
    DescWords(m, bus, r, k);
    WordsFit(d.d1, d.d3);
    if n == 0 {
      FailsHere(m, bus, r, k);
    } else {
      var m' := GiveBack(m, bus, r, k);
      GiveBackDescriptors(m, bus, r, k);
      OwnedIsVisible(m, bus, r, k);
      EndlessShrinks(m, m', bus, r, k, n);
      RunFails(m', bus, r, Next(r, k), out + Segment(m, bus, d, pad), pad, n - 1);
      FailedGrows(m, m', Transmit(m, bus, r, k, out, pad).m, bus, r, k, n);
    }
  }

  lemma FailsHere(m: Memory, bus: Bus, r: Ring, k: nat)
    requires ValidRing(bus, r) && k < r.len
    ensures var d := DescAt(m, bus, r, k);
            && SetErr(d.d1) < 0x1_0000 && SetUnderflow(d.d3) < 0x1_0000
            && forall j: nat :: j < r.len ==>
                 DescAt(PutBoth(m, bus, r, k, SetErr(d.d1), SetUnderflow(d.d3)), bus, r, j)
                   == Failed(r, k, 0, j, DescAt(m, bus, r, j), Visible(bus, DescOff(r, j)))
  {
    hide DescAt, PutBoth, Visible, SetErr, SetUnderflow;
    var d := DescAt(m, bus, r, k);
    DescWords(m, bus, r, k);
    WordsFit(d.d1, d.d3);
    forall j: nat | j < r.len
      ensures DescAt(PutBoth(m, bus, r, k, SetErr(d.d1), SetUnderflow(d.d3)), bus, r, j)
           == Failed(r, k, 0, j, DescAt(m, bus, r, j), Visible(bus, DescOff(r, j)))
    {
      MarksHere(m, bus, r, k, SetErr(d.d1), SetUnderflow(d.d3), j);
    }
  }

  /**
   * A chain without an end fails: all the chip's descriptors come back, and the one that stopped
   * it gets ERR, BUFF and UFLO, if the chip can see it. That one is the host's, or in a ring that
   * is the chip's all round, the first of the chain.
   */
  lemma UnendedMarks(m: Memory, bus: Bus, r: Ring, k: nat, pad: bool, n: nat)
    requires ValidRing(bus, r) && k < r.len && EndlessRun(m, bus, r, k, n)
    ensures var x, stop := Transmit(m, bus, r, k, [], pad), if n == r.len then 0 else n;
            && x.ownError && x.used == n && x.k == Steps(r, k, n)
            && forall j: nat :: j < r.len ==>
                 Returned(DescAt(m, bus, r, j), DescAt(x.m, bus, r, j), Dist(r, k, j) < n,
                          Dist(r, k, j) == stop && Visible(bus, DescOff(r, j)))
  {
    hide DescAt, Transmit, Failed, Visible, Returned, EndlessRun;
    RunFails(m, bus, r, k, [], pad, n);
    forall j: nat | j < r.len
      ensures Returned(DescAt(m, bus, r, j), DescAt(Transmit(m, bus, r, k, [], pad).m, bus, r, j), Dist(r, k, j) < n,
                       Dist(r, k, j) == (if n == r.len then 0 else n) && Visible(bus, DescOff(r, j)))
    {
      DescWords(m, bus, r, j);
      FailedReturns(r, k, n, j, DescAt(m, bus, r, j), Visible(bus, DescOff(r, j)));
    }
  }

  lemma {:induction false} GatherBytes(m: Memory, bus: Bus, addr: nat, n: nat, i: nat)
    requires i < n
    ensures var a := addr + i;
            Gather(m, bus, addr, n)[i] == GetByte(m, bus, if !bus.swap then a else if a % 2 == 0 then a + 1 else a - 1)
  {
    if i < n - 1 {
      GatherBytes(m, bus, addr, n - 1, i);
    }
  }

  /**
   * A buffer puts at most 4000 bytes on the line, each from its place in memory, odd and even
   * ones exchanged in swapped words, and zeros up to 60 bytes if padding is asked for.
   */
  lemma SegmentBytes(m: Memory, bus: Bus, d: Desc, pad: bool, i: nat)
    requires d.d2 < 0x1_0000
    ensures var size, s := 0x1_0000 - d.d2, Segment(m, bus, d, pad);
            && |s| == (if 4000 < size then 4000 else if pad && size < 60 then 60 else size)
            && (i < |s| ==>
                  var a := d.d0 + 0x1_0000 * (d.d1 % 256) + i;
                  s[i] == if i < size then GetByte(m, bus, if !bus.swap then a else if a % 2 == 0 then a + 1 else a - 1) else 0)
  {
    hide GetByte, Gather;
    var n := Min(d.Size(), MAX_PACKET);
    if i < n {
      GatherBytes(m, bus, d.Address(), n, i);
    }
  }
}
