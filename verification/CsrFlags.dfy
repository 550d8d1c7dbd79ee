/** The control register bit by bit: what transmissions, receptions and writes leave in it. */
module CsrFlags {
  import opened Csr

  /** One of the six bits that interrupt is set. */
  ghost predicate Interrupting(c: Flags) {
    BABL in c || MISS in c || MERR in c || RINT in c || TINT in c || IDON in c
  }

  /**
   * A transmit attempt that takes a chain raises TINT and with it INTR. It turns the transmitter
   * off exactly if it ends in error, and drops the demand exactly if the error is of ownership.
   */
  ghost predicate TransmitLeaves(c: Flags, d: Flags, o: TxOutcome) {
    && (o.Idle? ==> d == c)
    && (!o.Idle? ==> TINT in d && INTR in d)
    && (!o.Idle? ==> forall f: Flag :: f != TINT && f != INTR ==>
          (f in d <==> f in c && (f == TXON ==> o.Sent?) && (f == TDMD ==> !o.OwnError?)))
  }

  /** A frame in the ring, whole or cut short, raises RINT, a missed one MISS, and both INTR. */
  ghost predicate ReceiveLeaves(c: Flags, d: Flags, o: RxOutcome) {
    && INTR in d
    && (o.Missed? ==> MISS in d && forall f: Flag :: f != MISS && f != INTR ==> (f in d <==> f in c))
    && (!o.Missed? ==> RINT in d && forall f: Flag :: f != RINT && f != INTR ==> (f in d <==> f in c))
  }

  lemma TransmitFlags(c: Flags, o: TxOutcome)
    ensures TransmitLeaves(c, AfterTransmit(c, o), o)
  {
  }

  lemma ReceiveFlags(c: Flags, o: RxOutcome)
    ensures ReceiveLeaves(c, AfterReceive(c, o), o)
  {
  }

  /** Each event of the lines changes CSR0 alone, and only if its line is on. */
  lemma LineEvents(r: Regs, tx: TxOutcome, rx: RxOutcome)
    ensures var s := Step(r, Event.Transmit(tx));
            && s == r.(csr0 := s.csr0)
            && (TXON in r.csr0 ==> TransmitLeaves(r.csr0, s.csr0, tx))
            && (TXON !in r.csr0 ==> forall f: Flag :: f in s.csr0 <==> f in r.csr0 && f != TDMD)
    ensures var s := Step(r, Event.Receive(rx));
            && s == r.(csr0 := s.csr0)
            && (RXON in r.csr0 ==> ReceiveLeaves(r.csr0, s.csr0, rx))
            && (RXON !in r.csr0 ==> s == r)
  {
    hide AfterTransmit, AfterReceive;
    TransmitFlags(r.csr0, tx);
    ReceiveFlags(r.csr0, rx);
  }

  lemma InDecoded(v: bv16, f: Flag)
    ensures f in Decode(v) <==> v & Mask(f) != 0
  {
    hide Mask;
    assert f in ALL;
  }

  function Weight(on: bool, weight: bv16): (w: bv16) {
    if on then weight else 0
  }

  lemma SplitWord(v: bv16)
    ensures v == (v & 0x8000) | (v & 0x4000) | (v & 0x2000) | (v & 0x1000)
               | (v & 0x0800) | (v & 0x0400) | (v & 0x0200) | (v & 0x0100)
               | (v & 0x0080) | (v & 0x0040) | (v & 0x0020) | (v & 0x0010)
               | (v & 0x0008) | (v & 0x0004) | (v & 0x0002) | (v & 0x0001)
  {
  }

  lemma WeightOf(v: bv16, f: Flag)
    ensures Weight(f in Decode(v), Mask(f)) == v & Mask(f)
  {
    hide Decode;
    InDecoded(v, f);
  }

  /** A word on the bus is its flags, in the order of the data sheet from bit 15 down. */
  lemma WordOfFlags(v: bv16)
    ensures var c := Decode(v);
            v == Weight(ERR in c, 0x8000) | Weight(BABL in c, 0x4000) | Weight(CERR in c, 0x2000) | Weight(MISS in c, 0x1000)
               | Weight(MERR in c, 0x0800) | Weight(RINT in c, 0x0400) | Weight(TINT in c, 0x0200) | Weight(IDON in c, 0x0100)
               | Weight(INTR in c, 0x0080) | Weight(INEA in c, 0x0040) | Weight(RXON in c, 0x0020) | Weight(TXON in c, 0x0010)
               | Weight(TDMD in c, 0x0008) | Weight(STOP in c, 0x0004) | Weight(STRT in c, 0x0002) | Weight(INIT in c, 0x0001)
  {
    hide Decode, Weight;
    WeightOf(v, ERR);
    WeightOf(v, BABL);
    WeightOf(v, CERR);
    WeightOf(v, MISS);
    WeightOf(v, MERR);
    WeightOf(v, RINT);
    WeightOf(v, TINT);
    WeightOf(v, IDON);
    WeightOf(v, INTR);
    WeightOf(v, INEA);
    WeightOf(v, RXON);
    WeightOf(v, TXON);
    WeightOf(v, TDMD);
    WeightOf(v, STOP);
    WeightOf(v, STRT);
    WeightOf(v, INIT);
    SplitWord(v);
  }

  /** A one written to STOP of a running chip leaves STOP alone and clears the byte order. */
  lemma StopWrite(r: Regs, v: bv16, initMode: bv16)
    requires STOP in Decode(v) && STOP !in r.csr0
    ensures Step(r, Write(0, v, initMode)) == r.(csr0 := {STOP}, csr3 := 0, byteSwap := false)
  {
    hide Decode, WriteCsr0, Latch, LineEnables;
    WriteBranches(r, Decode(v), initMode);
    LatchFlags(r.csr0, Decode(v));
    assert {STOP} !! CAUSES;
    assert {STOP} - {INTR} == {STOP};
  }

  lemma LatchFlags(c: Flags, v: Flags)
    ensures var d := Latch(c, v);
            && (INEA in d <==> INEA in v) && ERR !in d
            && (forall f: Flag :: f in {BABL, CERR, MISS, MERR, RINT, TINT, IDON} ==> (f in d <==> f in c && f !in v))
            && (forall f: Flag :: f in {TDMD, STOP, STRT, INIT} ==> (f in d <==> f in c || f in v))
            && (forall f: Flag :: f in {INTR, RXON, TXON} ==> (f in d <==> f in c))
  {
  }

  /** A write of b takes a chip with c out of STOP or INIT and puts it on the line. */
  ghost predicate Starts(c: Flags, b: Flags) {
    STRT in b && STRT !in c && (STOP in c || INIT in c)
  }

  /** The write reads the initialization block. */
  ghost predicate Initializes(c: Flags, b: Flags) {
    INIT in b && INIT !in c && (Starts(c, b) || STOP in c)
  }

  /** A line after a write; `enabled` by the mode so far. */
  ghost predicate LineAfter(on: bool, enabled: bool, c: Flags, b: Flags) {
    if Starts(c, b) then on || enabled else on && !Initializes(c, b)
  }

  /** The two lowest bits of the mode word: even allows the receiver. */
  predicate ReceiverAllowed(mode: bv16) {
    mode & 0x0001 == 0
  }

  predicate SenderAllowed(mode: bv16) {
    mode & 0x0002 == 0
  }

  lemma EnabledLines(mode: bv16)
    ensures RXON in LineEnables(mode) <==> ReceiverAllowed(mode)
    ensures TXON in LineEnables(mode) <==> SenderAllowed(mode)
    ensures LineEnables(mode) <= {RXON, TXON}
  {
  }

  lemma RethinkFlags(c: Flags)
    ensures INTR in Rethink(c) <==> Interrupting(c)
    ensures forall f: Flag :: f != INTR ==> (f in Rethink(c) <==> f in c)
  {
  }

  lemma WrittenFlags(c: Flags, b: Flags, mode: bv16)
    requires STOP !in b || STOP in c
    ensures var d, l := Written(c, b, mode), Latch(c, b);
            && (STOP in d <==> STOP in l && !Starts(c, b) && !Initializes(c, b))
            && (IDON in d <==> IDON in l || Initializes(c, b))
            && (RXON in d <==> LineAfter(RXON in l, ReceiverAllowed(mode), c, b))
            && (TXON in d <==> LineAfter(TXON in l, SenderAllowed(mode), c, b))
            && (forall f: Flag :: f !in {STOP, IDON, RXON, TXON} ==> (f in d <==> f in l))
    ensures !ActionOf(c, Latch(c, b)).Stopping?
    ensures ReadsBlock(ActionOf(c, Latch(c, b))) <==> Initializes(c, b)
  {
    hide Latch, LineEnables, ReceiverAllowed, SenderAllowed;
    LatchFlags(c, b);
    EnabledLines(mode);
  }

  lemma AtZero(r: Regs, v: bv16, initMode: bv16)
    ensures Step(r, Write(0, v, initMode)) == WriteCsr0(r, Decode(v), initMode)
  {
    hide WriteCsr0, Decode;
  }

  /** What the latch, the action and the interrupt logic together leave of c. */
  ghost predicate WriteLeaves(c: Flags, b: Flags, mode: bv16, d: Flags) {
    && (forall f: Flag :: f in {BABL, CERR, MISS, MERR, RINT, TINT} ==> (f in d <==> f in c && f !in b))
    && (IDON in d <==> Initializes(c, b) || (IDON in c && IDON !in b))
    && (forall f: Flag :: f in {TDMD, STRT, INIT} ==> (f in d <==> f in c || f in b))
    && (STOP in d <==> STOP in c && !Starts(c, b) && !Initializes(c, b))
    && (INEA in d <==> INEA in b) && ERR !in d
    && (INTR in d <==> Interrupting(d))
    && (RXON in d <==> LineAfter(RXON in c, ReceiverAllowed(mode), c, b))
    && (TXON in d <==> LineAfter(TXON in c, SenderAllowed(mode), c, b))
  }

  lemma WrittenLeaves(c: Flags, b: Flags, mode: bv16)
    requires STOP !in b || STOP in c
    ensures WriteLeaves(c, b, mode, Rethink(Written(c, b, mode)))
    ensures !ActionOf(c, Latch(c, b)).Stopping? && (ReadsBlock(ActionOf(c, Latch(c, b))) <==> Initializes(c, b))
  {
    hide Latch, Written, Rethink, Interrupting, Starts, Initializes, LineAfter, ActionOf, ReceiverAllowed, SenderAllowed;
    LatchFlags(c, b);
    WrittenFlags(c, b, mode);
    RethinkFlags(Written(c, b, mode));
    SameCauses(Written(c, b, mode), Rethink(Written(c, b, mode)));
  }

  /** Any other write to CSR0: every flag, and of the other registers the mode word alone. */
  lemma Csr0Write(r: Regs, v: bv16, initMode: bv16)
    requires STOP !in Decode(v) || STOP in r.csr0
    ensures var s, inits := Step(r, Write(0, v, initMode)), Initializes(r.csr0, Decode(v));
            && WriteLeaves(r.csr0, Decode(v), r.mode, s.csr0)
            && s == r.(csr0 := s.csr0, mode := if inits then initMode else r.mode, initialized := r.initialized || inits)
  {
    hide Decode, Latch, Written, Rethink, ActionOf, Step, WriteLeaves, Initializes;
    AtZero(r, v, initMode);
    WrittenLeaves(r.csr0, Decode(v), r.mode);
  }

  lemma SameCauses(c: Flags, d: Flags)
    requires forall f: Flag :: f != INTR ==> (f in d <==> f in c)
    ensures Interrupting(c) <==> Interrupting(d)
  {
  }

  /** x is v without its lowest bit. */
  predicate EvenPart(x: bv16, v: bv16) {
    x & 0x0001 == 0 && x | 0x0001 == v | 0x0001
  }

  /** x is v without its upper byte. */
  predicate LowByte(x: bv16, v: bv16) {
    x < 0x0100 && x << 8 == v << 8
  }

  /** x is v without all but its lowest three bits. */
  predicate LowThree(x: bv16, v: bv16) {
    x < 0x0008 && x << 13 == v << 13
  }

  lemma Parts(v: bv16)
    ensures EvenPart(v & 0xfffe, v) && LowByte(v & 0x00ff, v) && LowThree(v & 0x0007, v)
    ensures v & 0x0004 != 0 <==> (v >> 2) & 0x0001 == 1
  {
  }

  lemma StoppedWrites(r: Regs, v: bv16, initMode: bv16)
    requires STOP in r.csr0
    ensures Step(r, Write(1, v, initMode)) == r.(csr1 := v & 0xfffe)
    ensures Step(r, Write(2, v, initMode)) == r.(csr2 := v & 0x00ff)
    ensures Step(r, Write(3, v, initMode)) == r.(csr3 := v & 0x0007, byteSwap := v & 0x0004 != 0)
  {
    hide WriteCsr0, Decode;
  }

  lemma OtherWrites(r: Regs, rap: nat, v: bv16, initMode: bv16)
    requires 1 <= rap && (STOP !in r.csr0 || 3 < rap)
    ensures Step(r, Write(rap, v, initMode)) == r
  {
    hide WriteCsr0, Decode;
  }

  /** CSR1 to CSR3 take a write only while stopped, and not all of its bits. */
  lemma AddressWrites(r: Regs, rap: nat, v: bv16, initMode: bv16)
    requires 1 <= rap
    ensures var s := Step(r, Write(rap, v, initMode));
            && (STOP !in r.csr0 || 3 < rap ==> s == r)
            && (STOP in r.csr0 && rap == 1 ==> s == r.(csr1 := s.csr1) && EvenPart(s.csr1, v))
            && (STOP in r.csr0 && rap == 2 ==> s == r.(csr2 := s.csr2) && LowByte(s.csr2, v))
            && (STOP in r.csr0 && rap == 3 ==> s == r.(csr3 := s.csr3, byteSwap := s.byteSwap) && LowThree(s.csr3, v))
            && (STOP in r.csr0 && rap == 3 ==> (s.byteSwap <==> (v >> 2) & 0x0001 == 1))
  {
    hide Step, EvenPart, LowByte, LowThree;
    if STOP in r.csr0 && rap <= 3 {
      StoppedWrites(r, v, initMode);
      Parts(v);
    } else {
      OtherWrites(r, rap, v, initMode);
    }
  }
}
