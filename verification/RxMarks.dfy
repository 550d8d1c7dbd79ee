/**
 * What the host reads from its receive descriptors once a frame has come in: bit by bit,
 * for a frame that fits the chip-owned buffers, one that does not, and one that is missed.
 */
module RxMarks {
  import opened Words
  import opened BoardRam
  import Csr
  import opened RxRing
  import opened Wrappers

  /** Bit i of a word, counted from the right. */
  predicate Bit(w: nat, i: nat) {
    if i == 0 then w % 2 == 1 else Bit(w / 2, i - 1)
  }

  const OWN := 15
  const ERROR := 14
  const OFLO := 12
  const BUFF := 10
  const STP := 9
  const ENP := 8

  lemma Weights()
    ensures Pow2(8) == 0x0100 && Pow2(9) == 0x0200 && Pow2(10) == 0x0400 && Pow2(12) == 0x1000
    ensures Pow2(13) == 0x2000 && Pow2(14) == 0x4000 && Pow2(15) == 0x8000 && Pow2(16) == 0x1_0000
  {
    Pow2At32();
    assert Pow2(10) == 4 * Pow2(8);
    assert Pow2(12) == 4 * Pow2(10);
    assert Pow2(14) == 4 * Pow2(12);
    assert Pow2(16) == 4 * Pow2(14);
  }

  lemma {:induction false} TopBit(w: nat, i: nat)
    requires w < Pow2(i + 1)
    ensures Bit(w, i) <==> Pow2(i) <= w
  {
    if i > 0 {
      TopBit(w / 2, i - 1);
    }
  }

  lemma OwnIsTopBit(d: Desc)
    requires d.d1 < 0x1_0000
    ensures d.Own() <==> Bit(d.d1, 15)
  {
    Weights();
    TopBit(d.d1, 15);
  }

  lemma Scaled(a: nat, b: nat, p: nat)
    requires a <= b
    ensures a * p <= b * p
  {
  }

  lemma QuotientOnly(x: nat, q: nat, p: nat, rest: nat)
    requires rest < p && x == q * p + rest
    ensures x / p == q
  {
    var e := x / p;
    assert e * p <= x < e * p + p;
    if e < q {
      Scaled(e + 1, q, p);
    } else if q < e {
      Scaled(q + 1, e, p);
    }
  }

  /** Halving a word moves a flag one place to the right. */
  lemma SetFlagHalves(w: nat, p: nat)
    requires 0 < p
    ensures SetFlag(w, 2 * p) == 2 * SetFlag(w / 2, p) + w % 2
  {
    var q, rest := w / 2 / p, w / 2 % p;
    assert w / 2 == q * p + rest;
    assert w == q * (2 * p) + (2 * rest + w % 2);
    QuotientOnly(w, q, 2 * p, 2 * rest + w % 2);
  }

  lemma {:induction false} SetFlagBits(w: nat, f: nat, i: nat)
    ensures 0 < Pow2(f)
    ensures Bit(SetFlag(w, Pow2(f)), i) <==> i == f || Bit(w, i)
    decreases f
  {
    Pow2Grows(0, f);
    if f == 0 {
    } else {
      SetFlagHalves(w, Pow2(f - 1));
      if i > 0 {
        SetFlagBits(w / 2, f - 1, i - 1);
      }
    }
  }

  lemma {:induction false} ClearTop(w: nat, i: nat, t: nat)
    requires Pow2(t) <= w < Pow2(t + 1)
    ensures Bit(w - Pow2(t), i) <==> i != t && Bit(w, i)
  {
    if t == 0 {
      assert Pow2(0) == 1 && Pow2(1) == 2;
    } else if i > 0 {
      assert Pow2(t) == 2 * Pow2(t - 1) && Pow2(t + 1) == 2 * Pow2(t);
      hide Pow2;
      assert (w - Pow2(t)) / 2 == w / 2 - Pow2(t - 1);
      ClearTop(w / 2, i - 1, t - 1);
    } else {
      assert Pow2(t) == 2 * Pow2(t - 1);
    }
  }

  /** What handing back does to the status word. */
  lemma HandBackBits(d1: nat, first: bool, last: bool, i: nat)
    requires d1 < 0x1_0000
    ensures Bit(HandBack(d1, first, last), i) <==> i != OWN && (Bit(d1, i) || (first && i == STP) || (last && i == ENP))
  {
    hide SetFlag;
    Weights();
    TopBit(d1, 15);
    if 0x8000 <= d1 {
      ClearTop(d1, i, 15);
    }
    var w0 := if 0x8000 <= d1 then d1 - 0x8000 else d1;
    assert Bit(w0, i) <==> i != 15 && Bit(d1, i);
    SetFlagBits(w0, 9, i);
    var w1 := if first then SetFlag(w0, 0x0200) else w0;
    SetFlagBits(w1, 8, i);
  }

  /** What cutting a frame short does to it. */
  lemma OverrunBits(d1: nat, i: nat)
    ensures Bit(FlagOverrun(d1), i) <==> Bit(d1, i) || i in {ERROR, BUFF, OFLO}
  {
    hide SetFlag;
    Weights();
    SetFlagBits(d1, 14, i);
    SetFlagBits(SetFlag(d1, 0x4000), 10, i);
    SetFlagBits(SetFlag(SetFlag(d1, 0x4000), 0x0400), 12, i);
  }

  /** Everything of a descriptor but its status bits and message word. */
  predicate SamePlace(d: Desc, e: Desc) {
    d.d0 == e.d0 && d.d2 == e.d2
  }

  /** `e` is what the host gets back for `d`: first or last of a frame, or where it was cut. */
  ghost predicate ComesBack(d: Desc, e: Desc, first: bool, last: bool, cut: bool, length: nat) {
    && SamePlace(d, e)
    && e.d3 == (if last then length else d.d3)
    && (forall i: nat :: i < 16 ==>
          (Bit(e.d1, i) <==>
            i != OWN && (Bit(d.d1, i) || (first && i == STP) || (last && i == ENP) || (cut && i in {ERROR, BUFF, OFLO}))))
  }

  lemma HandedComesBack(d: Desc, first: bool, last: bool, length: nat)
    requires d.d1 < 0x1_0000
    ensures ComesBack(d, Handed(d, first, last, length), first, last, false, length)
  {
    hide HandBack;
    forall i: nat | i < 16
      ensures Bit(HandBack(d.d1, first, last), i) <==>
                i != OWN && (Bit(d.d1, i) || (first && i == STP) || (last && i == ENP))
    {
      HandBackBits(d.d1, first, last, i);
    }
  }

  /** The n descriptors from k on are the chip's, and no more than these. */
  ghost predicate ChipRun(m: Memory, bus: Bus, r: Ring, k: nat, n: nat) {
    && n <= r.len
    && (forall j: nat :: j < r.len && Dist(r, k, j) < n ==> DescAt(m, bus, r, j).Own())
    && (forall j: nat :: j < r.len && Dist(r, k, j) == n ==> !DescAt(m, bus, r, j).Own())
  }

  /** The space check asks for what the run of chip-owned buffers holds. */
  lemma {:induction false} CheckIsCapacity(m: Memory, bus: Bus, r: Ring, k: nat, n: nat, more: nat, needed: int)
    requires k < r.len && n <= more <= r.len && 0 < needed
    requires forall j: nat :: j < r.len && Dist(r, k, j) < n ==> DescAt(m, bus, r, j).Own()
    requires n < more ==> forall j: nat :: j < r.len && Dist(r, k, j) == n ==> !DescAt(m, bus, r, j).Own()
    ensures RxRing.Fits(m, bus, r, k, more, needed) <==> needed <= Capacity(m, bus, r, k, n)
    decreases n
  {
    hide DescAt;
    assert Dist(r, k, k) == 0;
    if n > 0 {
      var d := DescAt(m, bus, r, k);
      DescWords(m, bus, r, k);
      var left := needed - d.Size();
      if 0 < left {
        CheckIsCapacity(m, bus, r, Next(r, k), n - 1, more - 1, left);
      } else {
        CapacityGrows(m, bus, r, Next(r, k), n - 1);
      }
    }
  }

  lemma {:induction false} CapacityGrows(m: Memory, bus: Bus, r: Ring, k: nat, n: nat)
    ensures 0 <= Capacity(m, bus, r, k, n)
    decreases n
  {
    hide DescAt;
    if n > 0 {
      DescWords(m, bus, r, k);
      CapacityGrows(m, bus, r, Next(r, k), n - 1);
    }
  }

  /**
   * A frame that the run of chip-owned buffers holds comes back in as many of them as it
   * needs: STP on the first, ENP and the frame's length on the last, OWN off all of them.
   * Every other bit and every other descriptor is as the host left it.
   */
  lemma DeliveredMarks(m: Memory, bus: Bus, r: Ring, k: nat, data: seq<byte>, n: nat)
    requires ValidRing(bus, r) && k < r.len && 0 < |data| < 0x1_0000 && OwnedBuffersOffRing(m, bus, r)
    requires ChipRun(m, bus, r, k, n) && |data| <= Capacity(m, bus, r, k, n)
    ensures var x := Receive(m, bus, r, k, data, 0, None);
            && x.outcome.Delivered? && 1 <= x.used <= n
            && Capacity(m, bus, r, k, x.used - 1) < |data| <= Capacity(m, bus, r, k, x.used)
            && x.k == Steps(r, k, x.used - 1) + 1
            && forall j: nat :: j < r.len ==>
                 var d, e := DescAt(m, bus, r, j), DescAt(x.m, bus, r, j);
                 if Dist(r, k, j) < x.used
                 then ComesBack(d, e, j == k, Dist(r, k, j) == x.used - 1, false, |data|)
                 else e == d
  {
    hide DescAt, Receive, Capacity, HandBack, OwnedBuffersOffRing, ComesBack, Handed;
    CheckIsCapacity(m, bus, r, k, n, n, |data|);
    GuardSuffices(m, bus, r, k, data, 0, None, n);
    var x := Receive(m, bus, r, k, data, 0, None);
    forall j: nat | j < r.len && Dist(r, k, j) < x.used
      ensures ComesBack(DescAt(m, bus, r, j), DescAt(x.m, bus, r, j), j == k, Dist(r, k, j) == x.used - 1, false, |data|)
    {
      DescWords(m, bus, r, j);
      HandedComesBack(DescAt(m, bus, r, j), j == k, Dist(r, k, j) == x.used - 1, |data|);
    }
  }

  /** What becomes of descriptor j when the run ends n descriptors on, before the frame does. */
  function Cut(r: Ring, k: nat, n: nat, prev: Option<nat>, j: nat, d: Desc, total: nat): (e: Desc) {
    if Dist(r, k, j) < n then
      var h := Handed(d, prev.None? && j == k, false, total);
      if Dist(r, k, j) == n - 1 then h.(d1 := FlagOverrun(h.d1)) else h
    else if n == 0 && prev == Some(j) then d.(d1 := FlagOverrun(d.d1))
    else d
  }

  /** The error flags go into one descriptor. */
  lemma CutHere(m: Memory, bus: Bus, r: Ring, p: nat)
    requires ValidRing(bus, r) && p < r.len && Visible(bus, DescOff(r, p))
    ensures FlagOverrun(DescAt(m, bus, r, p).d1) < 0x1_0000
    ensures var m' := PutWord(m, bus, DescOff(r, p) + 2, FlagOverrun(DescAt(m, bus, r, p).d1));
            forall j: nat :: j < r.len ==>
              var d := DescAt(m, bus, r, j);
              DescAt(m', bus, r, j) == if j == p then d.(d1 := FlagOverrun(d.d1)) else d
  {
    hide DescAt, FlagOverrun, PutWord, Visible;
    DescWords(m, bus, r, p);
    StatusFits(DescAt(m, bus, r, p).d1, false, false);
    var w := FlagOverrun(DescAt(m, bus, r, p).d1);
    forall j: nat | j < r.len
      ensures DescAt(PutWord(m, bus, DescOff(r, p) + 2, w), bus, r, j)
           == if j == p then DescAt(m, bus, r, j).(d1 := w) else DescAt(m, bus, r, j)
    {
      PutStatus(m, bus, r, p, w, j);
    }
  }

  lemma RunEnds(m: Memory, bus: Bus, r: Ring, k: nat, n: nat)
    requires k < r.len && ChipRun(m, bus, r, k, n)
    ensures DescAt(m, bus, r, k).Own() <==> 0 < n
  {
    hide DescAt;
    assert Dist(r, k, k) == 0;
  }

  /** With its first descriptor handed back a run is one shorter. */
  lemma RunShrinks(m: Memory, m': Memory, bus: Bus, r: Ring, k: nat, n: nat)
    requires k < r.len && 0 < n && ChipRun(m, bus, r, k, n) && !DescAt(m', bus, r, k).Own()
    requires forall j: nat :: j < r.len && j != k ==> DescAt(m', bus, r, j) == DescAt(m, bus, r, j)
    ensures ChipRun(m', bus, r, Next(r, k), n - 1)
  {
    hide DescAt;
  }

  lemma CutNow(m: Memory, m2: Memory, bus: Bus, r: Ring, k: nat, prev: Option<nat>, total: nat)
    requires k < r.len && (prev.None? ==> m2 == m)
    requires prev.Some? ==> forall j: nat :: j < r.len ==>
               var d := DescAt(m, bus, r, j);
               DescAt(m2, bus, r, j) == if j == prev.value then d.(d1 := FlagOverrun(d.d1)) else d
    ensures forall j: nat :: j < r.len ==>
              DescAt(m2, bus, r, j) == Cut(r, k, 0, prev, j, DescAt(m, bus, r, j), total)
  {
    hide DescAt, FlagOverrun, HandBack;
  }

  lemma CutGrows(m: Memory, m1: Memory, m2: Memory, bus: Bus, r: Ring, k: nat, n: nat, prev: Option<nat>, total: nat)
    requires k < r.len && 0 < n <= r.len
    requires forall j: nat :: j < r.len ==>
               DescAt(m1, bus, r, j) == if j == k then Handed(DescAt(m, bus, r, k), prev.None?, false, total)
                                        else DescAt(m, bus, r, j)
    requires forall j: nat :: j < r.len ==>
               DescAt(m2, bus, r, j) == Cut(r, Next(r, k), n - 1, Some(k), j, DescAt(m1, bus, r, j), total)
    ensures forall j: nat :: j < r.len ==>
              DescAt(m2, bus, r, j) == Cut(r, k, n, prev, j, DescAt(m, bus, r, j), total)
  {
    hide DescAt, FlagOverrun, HandBack;
    forall j: nat | j < r.len
      ensures DescAt(m2, bus, r, j) == Cut(r, k, n, prev, j, DescAt(m, bus, r, j), total)
    {
      var d1 := DescAt(m1, bus, r, j);
      assert DescAt(m2, bus, r, j) == Cut(r, Next(r, k), n - 1, Some(k), j, d1, total);
    }
  }

  /** A frame too long for the chip-owned run fills all of it and is cut there. */
  lemma {:induction false} CutShort(m: Memory, bus: Bus, r: Ring, k: nat, data: seq<byte>, done: nat, prev: Option<nat>, n: nat)
    requires ValidRing(bus, r) && k < r.len && done < |data| < 0x1_0000 && OwnedBuffersOffRing(m, bus, r)
    requires prev.Some? ==> prev.value < r.len && Visible(bus, DescOff(r, prev.value))
    requires ChipRun(m, bus, r, k, n) && Capacity(m, bus, r, k, n) < |data| - done
    ensures var x := Receive(m, bus, r, k, data, done, prev);
            && x.outcome == (if n == 0 && prev.None? then Csr.Missed else Csr.Overrun)
            && x.used == n && x.k == Steps(r, k, n)
            && (n == 0 && prev.None? ==> x.m == m)
            && forall j: nat :: j < r.len ==>
                 DescAt(x.m, bus, r, j) == Cut(r, k, n, prev, j, DescAt(m, bus, r, j), |data|)
    decreases n
  {
    hide DescAt, Fill, BufferOffRing, HandBack, FlagOverrun, OwnedBuffersOffRing, PutWord, Visible;
    var d := DescAt(m, bus, r, k);
    assert Dist(r, k, k) == 0;
    RunEnds(m, bus, r, k, n);
    hide ChipRun, Cut;
    if n == 0 {
      if prev.Some? {
        CutHere(m, bus, r, prev.value);
      }
      CutNow(m, Receive(m, bus, r, k, data, done, prev).m, bus, r, k, prev, |data|);
    } else {
      DescWords(m, bus, r, k);
      CapacityGrows(m, bus, r, Next(r, k), n - 1);
      OwnedOffRing(m, bus, r, k);
      OwnedIsVisible(m, bus, r, k);
      StatusFits(d.d1, prev.None?, false);
      var chunk := data[done..done + d.Size()];
      var m' := Fill(m, bus, r, k, chunk, prev.None?, false, |data|);
      forall j: nat | j < r.len
        ensures DescAt(m', bus, r, j) == if j == k then Handed(d, prev.None?, false, |data|) else DescAt(m, bus, r, j)
      {
        FillDescriptors(m, bus, r, k, chunk, prev.None?, false, |data|, j);
      }
      FilledOffRing(m, m', bus, r, k);
      CapacitySame(m, m', bus, r, Next(r, k), n - 1);
      RunShrinks(m, m', bus, r, k, n);
      CutShort(m', bus, r, Next(r, k), data, done + d.Size(), Some(k), n - 1);
      CutGrows(m, m', Receive(m, bus, r, k, data, done, prev).m, bus, r, k, n, prev, |data|);
    }
  }

  lemma FilledOffRing(m: Memory, m': Memory, bus: Bus, r: Ring, k: nat)
    requires k < r.len && OwnedBuffersOffRing(m, bus, r) && !DescAt(m', bus, r, k).Own()
    requires forall j: nat :: j < r.len && j != k ==> DescAt(m', bus, r, j) == DescAt(m, bus, r, j)
    ensures OwnedBuffersOffRing(m', bus, r)
  {
    hide DescAt, BufferOffRing;
  }

  /**
   * A frame that the run of chip-owned buffers does not hold: without any the frame is missed
   * and nothing changes; else all of them come back, without ENP, and the last with ERR, BUFF
   * and OFLO. The descriptor of the host that ended the run is left alone.
   */
  lemma OverrunMarks(m: Memory, bus: Bus, r: Ring, k: nat, data: seq<byte>, n: nat)
    requires ValidRing(bus, r) && k < r.len && |data| < 0x1_0000 && OwnedBuffersOffRing(m, bus, r)
    requires ChipRun(m, bus, r, k, n) && 0 <= Capacity(m, bus, r, k, n) < |data|
    ensures var x := Receive(m, bus, r, k, data, 0, None);
            && x.outcome == (if n == 0 then Csr.Missed else Csr.Overrun)
            && x.used == n && x.k == Steps(r, k, n)
            && (n == 0 ==> x.m == m)
            && forall j: nat :: j < r.len ==>
                 var d, e := DescAt(m, bus, r, j), DescAt(x.m, bus, r, j);
                 if Dist(r, k, j) < n
                 then ComesBack(d, e, j == k, false, Dist(r, k, j) == n - 1, |data|)
                 else e == d
  {
    hide DescAt, Receive, Capacity, HandBack, FlagOverrun, OwnedBuffersOffRing, ComesBack;
    CutShort(m, bus, r, k, data, 0, None, n);
    var x := Receive(m, bus, r, k, data, 0, None);
    forall j: nat | j < r.len && Dist(r, k, j) < n
      ensures ComesBack(DescAt(m, bus, r, j), DescAt(x.m, bus, r, j), j == k, false, Dist(r, k, j) == n - 1, |data|)
    {
      var d := DescAt(m, bus, r, j);
      DescWords(m, bus, r, j);
      HandedComesBack(d, j == k, false, |data|);
      if Dist(r, k, j) == n - 1 {
        FlaggedComesBack(d, Handed(d, j == k, false, |data|), j == k, |data|);
      }
    }
  }

  lemma FlaggedComesBack(d: Desc, e: Desc, first: bool, length: nat)
    requires ComesBack(d, e, first, false, false, length)
    ensures ComesBack(d, e.(d1 := FlagOverrun(e.d1)), first, false, true, length)
  {
    hide FlagOverrun;
    forall i: nat | i < 16
      ensures Bit(FlagOverrun(e.d1), i) <==> Bit(e.d1, i) || i in {ERROR, BUFF, OFLO}
    {
      OverrunBits(e.d1, i);
    }
  }
}
