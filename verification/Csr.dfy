/** The control and status registers of the Am7990 as a state machine over bus and line events. */
module Csr {
  /** The bits of register 0, from bit 15 down. */
  datatype Flag =
    | ERR | BABL | CERR | MISS | MERR | RINT | TINT | IDON
    | INTR | INEA | RXON | TXON | TDMD | STOP | STRT | INIT

  /** A register value as the set of its one bits. */
  type Flags = set<Flag>

  const CAUSES: Flags := {BABL, MISS, MERR, RINT, TINT, IDON}
  const COMMANDS: Flags := {INIT, STRT, STOP, TDMD}
  const CLEARABLE: Flags := {IDON, TINT, RINT, MERR, MISS, CERR, BABL}

  function Mask(f: Flag): (m: bv16) {
    match f
    case ERR => 0x8000 case BABL => 0x4000 case CERR => 0x2000 case MISS => 0x1000
    case MERR => 0x0800 case RINT => 0x0400 case TINT => 0x0200 case IDON => 0x0100
    case INTR => 0x0080 case INEA => 0x0040 case RXON => 0x0020 case TXON => 0x0010
    case TDMD => 0x0008 case STOP => 0x0004 case STRT => 0x0002 case INIT => 0x0001
  }

  const ALL: Flags := {ERR, BABL, CERR, MISS, MERR, RINT, TINT, IDON,
                       INTR, INEA, RXON, TXON, TDMD, STOP, STRT, INIT}

  /** The flags of a word on the bus. */
  function Decode(w: bv16): (c: Flags) {
    set f | f in ALL && w & Mask(f) != 0
  }

  /** The mode word bits that keep the transmitter or the receiver off. */
  predicate TxDisabled(mode: bv16) { mode & 0x0002 != 0 }
  predicate RxDisabled(mode: bv16) { mode & 0x0001 != 0 }

  datatype Regs = Regs(csr0: Flags, csr1: bv16, csr2: bv16, csr3: bv16, byteSwap: bool, mode: bv16, initialized: bool)

  /** rethink_a2065 on an Am7990: INTR follows the causes. */
  function Rethink(c: Flags): (r: Flags) {
    if c !! CAUSES then c - {INTR} else c + {INTR}
  }

  /** The latch part of a CSR0 write: INEA copied, command bits set, cause bits cleared by ones. */
  function Latch(c: Flags, v: Flags): (r: Flags) {
    (c - {INEA} + v * {INEA} + v * COMMANDS) - v * CLEARABLE - {ERR}
  }

  /** What a start adds, by the mode in force. */
  function LineEnables(mode: bv16): (c: Flags) {
    (if TxDisabled(mode) then {} else {TXON}) + (if RxDisabled(mode) then {} else {RXON})
  }

  /** Which of its actions a CSR0 write triggers. */
  datatype Action = Stopping | Starting(reinit: bool) | Initializing | Nothing

  function ActionOf(was: Flags, c: Flags): (a: Action) {
    if STOP in c && STOP !in was then Stopping
    else if STRT in c && STRT !in was && (STOP in was || INIT in was) then Starting(INIT in c && INIT !in was)
    else if INIT in c && INIT !in was && STOP in was then Initializing
    else Nothing
  }

  /** CSR0 after a write: stopped, started by the mode in force so far, initialized, or latched. */
  function Written(was: Flags, v: Flags, mode: bv16): (c: Flags) {
    var c := Latch(was, v);
    match ActionOf(was, c)
    case Stopping => {STOP}
    case Starting(reinit) => c - {STOP} + LineEnables(mode) + (if reinit then {IDON} else {})
    case Initializing => c + {IDON} - {RXON, TXON, STOP}
    case Nothing => c
  }

  /** The action reads the initialization block. */
  predicate ReadsBlock(a: Action) {
    a.Initializing? || (a.Starting? && a.reinit)
  }

  /**
   * A CSR0 write (chip_wput). Stopping clears CSR3; initializing takes the mode word, here
   * initMode, from the initialization block in board memory.
   */
  function WriteCsr0(r: Regs, v: Flags, initMode: bv16): (s: Regs) {
    var a := ActionOf(r.csr0, Latch(r.csr0, v));
    var inits := ReadsBlock(a);
    Regs(Rethink(Written(r.csr0, v, r.mode)), r.csr1, r.csr2,
         if a.Stopping? then 0 else r.csr3, !a.Stopping? && r.byteSwap,
         if inits then initMode else r.mode, r.initialized || inits)
  }

  /** A CSR0 write branch by branch: what it leaves, and whether it reads the initialization block. */
  lemma WriteBranches(r: Regs, v: Flags, initMode: bv16)
    ensures var was, c := r.csr0, Latch(r.csr0, v);
            var s, reads0 := WriteCsr0(r, v, initMode), ReadsBlock(ActionOf(r.csr0, c));
            var started := c - {STOP} + LineEnables(r.mode);
            if STOP in c && STOP !in was then s == r.(csr0 := Rethink({STOP}), csr3 := 0, byteSwap := false) && !reads0
            else if STRT in c && STRT !in was && (STOP in was || INIT in was) then
              if INIT in c && INIT !in was
              then s == r.(csr0 := Rethink(started + {IDON}), mode := initMode, initialized := true) && reads0
              else s == r.(csr0 := Rethink(started)) && !reads0
            else if INIT in c && INIT !in was && STOP in was then
              s == r.(csr0 := Rethink(c + {IDON} - {RXON, TXON, STOP}), mode := initMode, initialized := true) && reads0
            else s == r.(csr0 := Rethink(c)) && !reads0
  {
    hide Latch, Rethink, LineEnables;
    var started := Latch(r.csr0, v) - {STOP} + LineEnables(r.mode);
    assert started + {} == started;
  }

  /** A register data port write through the register address port. */
  function WriteCsr(r: Regs, rap: nat, v: bv16, initMode: bv16): (s: Regs) {
    match rap
    case 0 => WriteCsr0(r, Decode(v), initMode)
    case 1 => if STOP in r.csr0 then r.(csr1 := v & 0xfffe) else r
    case 2 => if STOP in r.csr0 then r.(csr2 := v & 0x00ff) else r
    case 3 => if STOP in r.csr0 then r.(csr3 := v & 0x0007, byteSwap := v & 0x0004 != 0) else r
    case _ => r
  }

  /** How the receiver left a frame: in the ring, cut short by the host's ring, or nowhere. */
  datatype RxOutcome = Delivered | Overrun | Missed

  /** How a transmit attempt ended. */
  datatype TxOutcome = Idle | Sent | OwnError | Underflow

  function AfterReceive(c: Flags, o: RxOutcome): (d: Flags) {
    Rethink(c + (if o.Missed? then {MISS} else {RINT}))
  }

  function AfterTransmit(c: Flags, o: TxOutcome): (d: Flags) {
    match o
    case Idle => c
    case Sent => Rethink(c + {TINT})
    case OwnError => Rethink(c - {TXON, TDMD} + {TINT})
    case Underflow => Rethink(c - {TXON} + {TINT})
  }

  datatype Event =
    | Reset
    | Write(rap: nat, v: bv16, initMode: bv16)
    | Receive(rx: RxOutcome)
    | Transmit(tx: TxOutcome)

  const RESET_REGS := Regs({STOP}, 0, 0, 0, false, 0, false)

  /** One event. Frames reach the receiver only with RXON; without TXON a poll drops TDMD. */
  function Step(r: Regs, e: Event): (s: Regs) {
    match e
    case Reset => RESET_REGS.(mode := r.mode)
    case Write(rap, v, initMode) => WriteCsr(r, rap, v, initMode)
    case Receive(o) => if RXON in r.csr0 then r.(csr0 := AfterReceive(r.csr0, o)) else r
    case Transmit(o) => r.(csr0 := if TXON in r.csr0 then AfterTransmit(r.csr0, o) else r.csr0 - {TDMD})
  }

  function Run(es: seq<Event>): (r: Regs) {
    if es == [] then RESET_REGS else Step(Run(es[..|es| - 1]), es[|es| - 1])
  }

  /** A stopped chip is not on the line and has no command pending; ERR is never stored. */
  ghost predicate Quiet(c: Flags) {
    && (STOP in c ==> RXON !in c && TXON !in c && STRT !in c && INIT !in c)
    && ERR !in c
  }

  /** INTR is the OR of the six causes. */
  ghost predicate IntrIsCauses(c: Flags) {
    INTR in c <==> BABL in c || MISS in c || MERR in c || RINT in c || TINT in c || IDON in c
  }

  ghost predicate Good(c: Flags) {
    Quiet(c) && IntrIsCauses(c)
  }

  lemma RethinkIsGood(c: Flags)
    requires Quiet(c)
    ensures Good(Rethink(c))
  {
  }

  lemma WrittenIsQuiet(was: Flags, v: Flags, mode: bv16)
    requires Quiet(was)
    ensures Quiet(Written(was, v, mode))
  {
  }

  lemma StepKeepsInvariant(r: Regs, e: Event)
    requires Good(r.csr0)
    ensures Good(Step(r, e).csr0)
  {
    hide Decode, Written, Rethink;
    match e
    case Reset =>
    case Write(rap, v, initMode) =>
      WrittenIsQuiet(r.csr0, Decode(v), r.mode);
      RethinkIsGood(Written(r.csr0, Decode(v), r.mode));
    case Receive(o) =>
      RethinkIsGood(r.csr0 + (if o.Missed? then {MISS} else {RINT}));
    case Transmit(o) =>
      RethinkIsGood(r.csr0 + {TINT});
      RethinkIsGood(r.csr0 - {TXON, TDMD} + {TINT});
      RethinkIsGood(r.csr0 - {TXON} + {TINT});
  }

  /** After every run the stopped state is quiet and INTR is exactly the OR of its causes. */
  lemma {:induction false} RunKeepsInvariant(es: seq<Event>)
    ensures Good(Run(es).csr0)
  {
    hide Step;
    if es != [] {
      RunKeepsInvariant(es[..|es| - 1]);
      StepKeepsInvariant(Run(es[..|es| - 1]), es[|es| - 1]);
    }
  }

  /** A new stop takes every cause away; an initialization raises IDON after the write-ones. */
  lemma WriteClears(was: Flags, v: Flags, mode: bv16, b: Flag)
    requires b in CAUSES && b in was
    ensures b !in Written(was, v, mode) ==> b in v || (STOP in v && STOP !in was)
    ensures b != IDON && (b in v || (STOP in v && STOP !in was)) ==> b !in Written(was, v, mode)
  {
  }

  /** The events that take cause bit b away. */
  predicate Clears(r: Regs, e: Event, b: Flag) {
    match e
    case Reset => true
    case Write(rap, v, _) => rap == 0 && (b in Decode(v) || (STOP in Decode(v) && STOP !in r.csr0))
    case _ => false
  }

  /**
   * A cause bit goes away exactly by a reset, a new stop, or writing a one to it. IDON alone
   * may survive that, when the same write initializes the chip again.
   */
  lemma CauseClearsOnlyOnPurpose(r: Regs, e: Event, b: Flag)
    requires b in CAUSES && b in r.csr0
    ensures b !in Step(r, e).csr0 ==> Clears(r, e, b)
    ensures b != IDON && Clears(r, e, b) ==> b !in Step(r, e).csr0
  {
    hide Decode, Written, Rethink, AfterReceive, AfterTransmit;
    match e
    case Reset =>
    case Write(rap, v, initMode) =>
      WriteClears(r.csr0, Decode(v), r.mode, b);
      RethinkKeeps(Written(r.csr0, Decode(v), r.mode), b);
    case Receive(o) => ReceiveKeepsCause(r.csr0, o, b);
    case Transmit(o) => TransmitKeepsCause(r.csr0, o, b);
  }

  lemma RethinkKeeps(c: Flags, b: Flag)
    requires b != INTR
    ensures b in Rethink(c) <==> b in c
  {
  }

  lemma ReceiveKeepsCause(c: Flags, o: RxOutcome, b: Flag)
    requires b in CAUSES && b in c
    ensures b in AfterReceive(c, o)
  {
    hide Rethink;
    RethinkKeeps(c + (if o.Missed? then {MISS} else {RINT}), b);
  }

  lemma TransmitKeepsCause(c: Flags, o: TxOutcome, b: Flag)
    requires b in CAUSES && b in c
    ensures b in AfterTransmit(c, o) && b in c - {TDMD}
  {
  }

  /** The initialization address can only change while the chip is stopped, or by a reset. */
  lemma AddressLockedWhileRunning(r: Regs, e: Event)
    requires STOP !in r.csr0 && !e.Reset?
    ensures Step(r, e).csr1 == r.csr1 && Step(r, e).csr2 == r.csr2
  {
  }

  lemma WriteTurnsOn(was: Flags, v: Flags, mode: bv16, line: Flag)
    requires line == RXON || line == TXON
    ensures line in Written(was, v, mode) && line !in was ==> STRT in v && (STOP in was || INIT in was)
  {
  }

  /** The receiver and transmitter come on only by a start that takes the chip out of STOP or INIT. */
  lemma LineComesOnOnlyByStart(r: Regs, e: Event, line: Flag)
    requires line == RXON || line == TXON
    requires line in Step(r, e).csr0 && line !in r.csr0
    ensures e.Write? && e.rap == 0 && STRT in Decode(e.v) && (STOP in r.csr0 || INIT in r.csr0)
  {
    hide Decode, Written;
    match e
    case Reset =>
    case Write(rap, v, initMode) => WriteTurnsOn(r.csr0, Decode(v), r.mode, line);
    case Receive(o) =>
    case Transmit(o) =>
  }
}
