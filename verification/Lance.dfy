/** The Am7990 card: registers, board memory, rings and transmit buffer, updated in place. */
module Lance {
  import opened Words
  import opened BoardRam
  import opened RxRing
  import opened TxRing
  import opened Csr
  import opened CsrFlags
  import opened MacMunge
  import opened ReceiveDrain
  import opened Wrappers
  import PacketQueue

  const BROADCAST: seq<byte> := [255, 255, 255, 255, 255, 255]

  lemma ModNext(x: nat, n: nat)
    requires 0 < n
    ensures (x + 1) % n == if x % n + 1 == n then 0 else x % n + 1
  {
    var q, r := x / n, x % n;
    var a, b := (x + 1) / n, (x + 1) % n;
    assert x == n * q + r && x + 1 == n * a + b;
    if r + 1 < n {
      SameQuotient(n, q, r + 1, a, b);
    } else {
      assert x + 1 == n * (q + 1) + 0;
      SameQuotient(n, q + 1, 0, a, b);
    }
  }

  lemma SameQuotient(n: nat, q: int, r: nat, a: int, b: nat)
    requires n * q + r == n * a + b && r < n && b < n
    ensures q == a && r == b
  {
    assert n * (q - a) == b - r;
    Multiple(n, q - a);
  }

  lemma Multiple(n: nat, x: int)
    ensures 1 <= x ==> n <= n * x
    ensures x <= -1 ==> n * x + n <= 0
  {
  }

  /** Which frames the address filters let through (gotfunc2). */
  predicate PassesFilter(p: seq<byte>, host: seq<byte>, promiscuous: bool, multicast: bool)
    requires 12 <= |p|
  {
    var group := p[0] % 2 == 1;
    var dst, src := p[..6], p[6..12];
    && (if group && dst != BROADCAST then multicast else promiscuous || dst == host || dst == BROADCAST)
    && !(src == host && (dst == host || dst == BROADCAST || group))
  }

  /** What a turn of the drain did with the head of the queue: kept it, dropped it, or handed it to gotfunc2. */
  datatype Turn = Stop | Drop | Hand(o: Option<RxOutcome>)

  /** The ring that an initialization block describes: length a power of two, address a multiple of eight. */
  function RingFrom(low: nat, high: nat): (r: Ring)
    requires low < 0x1_0000 && high < 0x1_0000
    ensures r.len == Pow2(high / 0x2000) && r.base % 8 == 0
    ensures r.base <= 0x1_0000 * (high % 256) + low < r.base + 8
  {
    assert Pow2(2) == 4 && Pow2(4) == 16 && Pow2(6) == 64;
    Ring(0x1_0000 * (high % 256) + (low - low % 8),
         match high / 0x2000
         case 0 => 1 case 1 => 2 case 2 => 4 case 3 => 8
         case 4 => 16 case 5 => 32 case 6 => 64 case _ => 128)
  }

  lemma RingFits(bus: Bus, low: nat, high: nat)
    requires low < 0x1_0000 && high < 0x1_0000
    ensures ValidRing(bus, RingFrom(low, high)) && 0 < RingFrom(low, high).len
  {
  }

  /** The address of the initialization block, in registers 1 and 2. */
  function InitOff(r: Regs): (off: nat) {
    0x1_0000 * (r.csr2 as nat % 256) + r.csr1 as nat
  }

  /** Word k of the initialization block. */
  function InitWord(m: Memory, bus: Bus, off: nat, k: nat): (w: nat)
    ensures w < 0x1_0000
  {
    GetWord(m, bus, off + k)
  }

  /** The mode word as register bits. */
  function ModeOf(m: Memory, bus: Bus, off: nat): (mode: bv16) {
    InitWord(m, bus, off, 0) as bv16
  }

  /** The card address in the block: three words, low byte first. */
  function InitAddress(m: Memory, bus: Bus, off: nat): (a: seq<byte>)
    ensures |a| == 6
  {
    var u: int, v: int, w: int := InitWord(m, bus, off, 2), InitWord(m, bus, off, 4), InitWord(m, bus, off, 6);
    [u % 256, u / 256, v % 256, v / 256, w % 256, w / 256]
  }

  class Card {
    const ram: array<byte>
    const transmitBuffer: array<byte>
    var macs: Macs
    const translate: bool
    const crc: seq<byte> -> (byte, byte, byte, byte)
    var regs: Regs
    var strip: bool
    var pad: bool
    var promiscuous: bool
    var multicast: bool
    var rdr: Ring
    var tdr: Ring
    var rdrOffset: nat
    var tdrOffset: nat
    var transmitLen: int

    ghost predicate Valid()
      reads this, ram
    {
      && ram.Length == 0x8000 && transmitBuffer.Length == 4000 && ram != transmitBuffer && macs.Valid()
      && (0 < rdr.len ==> ValidRing(TheBus(), rdr))
      && (0 < tdr.len ==> ValidRing(TheBus(), tdr))
    }

    /** The A2065 hands frame data over in swapped words unless CSR3 asks for byte swapping. */
    function TheBus(): (b: Bus)
      reads this
    {
      Bus(false, !regs.byteSwap)
    }

    ghost function Mem(): (m: Memory)
      requires Valid()
      reads this, ram
    {
      ram[..]
    }

    constructor (macs: Macs, translate: bool, crc: seq<byte> -> (byte, byte, byte, byte))
      requires macs.Valid()
      ensures Valid() && fresh(ram) && fresh(transmitBuffer)
      ensures regs == RESET_REGS && rdr.len == 0 && tdr.len == 0 && transmitLen == 0
    {
      ram, transmitBuffer := new byte[0x8000], new byte[4000];
      this.macs, this.translate, this.crc := macs, translate, crc;
      regs, strip, pad, promiscuous, multicast := RESET_REGS, false, false, false, false;
      rdr, tdr, rdrOffset, tdrOffset, transmitLen := Ring(0, 0), Ring(0, 0), 0, 0, 0;
    }

    /** Mode, filter, address and rings are those of an initialization block. */
    ghost predicate Initialized(m: Memory, bus: Bus, off: nat)
      reads this
    {
      && regs.mode == ModeOf(m, bus, off) && promiscuous == (0x8000 <= InitWord(m, bus, off, 0))
      && multicast == !(InitWord(m, bus, off, 8) == 0 && InitWord(m, bus, off, 10) == 0
                       && InitWord(m, bus, off, 12) == 0 && InitWord(m, bus, off, 14) == 0)
      && macs.card == InitAddress(m, bus, off)
      && rdr == RingFrom(InitWord(m, bus, off, 16), InitWord(m, bus, off, 18)) && rdrOffset == 0
      && tdr == RingFrom(InitWord(m, bus, off, 20), InitWord(m, bus, off, 22)) && tdrOffset == 0
    }

    /**
     * chip_init: mode, filter, address and rings from the initialization block. Whatever the
     * host has written there, both rings are well formed.
     */
    method ChipInit()
      requires Valid()
      modifies this`regs, this`promiscuous, this`multicast, this`macs, this`rdr, this`tdr, this`rdrOffset, this`tdrOffset
      ensures Valid() && 0 < rdr.len && 0 < tdr.len
      ensures Initialized(Mem(), TheBus(), InitOff(old(regs))) && macs.host == old(macs.host)
      ensures regs == old(regs).(mode := ModeOf(Mem(), TheBus(), InitOff(old(regs))))
    {
      hide GetWord, RingFrom, InitAddress, InitOff, ValidRing, ModeOf;
      var off := InitOff(regs);
      var m, bus := ram[..], TheBus();
      ReadAddress(off);
      regs := regs.(mode := ModeOf(m, bus, off));
      promiscuous := 0x8000 <= GetWord(m, bus, off + 0);
      multicast := !(GetWord(m, bus, off + 8) == 0 && GetWord(m, bus, off + 10) == 0
                     && GetWord(m, bus, off + 12) == 0 && GetWord(m, bus, off + 14) == 0);
      assert TheBus() == bus;
      ReadRings(off);
    }

    /** Both descriptor rings, read from their first descriptors on. */
    method ReadRings(off: nat)
      requires Valid()
      modifies this`rdr, this`tdr, this`rdrOffset, this`tdrOffset
      ensures Valid() && 0 < rdr.len && 0 < tdr.len && rdrOffset == 0 && tdrOffset == 0
      ensures rdr == RingFrom(GetWord(Mem(), TheBus(), off + 16), GetWord(Mem(), TheBus(), off + 18))
      ensures tdr == RingFrom(GetWord(Mem(), TheBus(), off + 20), GetWord(Mem(), TheBus(), off + 22))
    {
      hide GetWord, RingFrom, ValidRing;
      var m, bus := ram[..], TheBus();
      RingFits(bus, GetWord(m, bus, off + 16), GetWord(m, bus, off + 18));
      RingFits(bus, GetWord(m, bus, off + 20), GetWord(m, bus, off + 22));
      rdr := RingFrom(GetWord(m, bus, off + 16), GetWord(m, bus, off + 18));
      tdr := RingFrom(GetWord(m, bus, off + 20), GetWord(m, bus, off + 22));
      rdrOffset, tdrOffset := 0, 0;
    }

    /** The card address, byte by byte. */
    method ReadAddress(off: nat)
      requires Valid()
      modifies this`macs
      ensures Valid() && macs == old(macs).(card := InitAddress(Mem(), TheBus(), off))
    {
      hide GetByte, InitOff;
      var m, bus := ram[..], TheBus();
      macs := macs.(card := [GetByte(m, bus, off + 3), GetByte(m, bus, off + 2), GetByte(m, bus, off + 5),
                             GetByte(m, bus, off + 4), GetByte(m, bus, off + 7), GetByte(m, bus, off + 6)]);
      WordBytes(m, bus, off + 2);
      WordBytes(m, bus, off + 4);
      WordBytes(m, bus, off + 6);
    }

    /** The write is one to register 0 that makes the chip read its initialization block. */
    predicate Initializes(rap: nat, v: bv16)
      reads this`regs
    {
      rap == 0 && ReadsBlock(ActionOf(regs.csr0, Latch(regs.csr0, Decode(v))))
    }

    /** The register 0 branch of chip_wput: latch the bits, then stop, start or initialize. */
    method WriteControl(v: Flags)
      requires Valid()
      modifies this`regs, this`promiscuous, this`multicast, this`macs, this`rdr, this`tdr, this`rdrOffset, this`tdrOffset
      ensures Valid() && regs == WriteCsr0(old(regs), v, old(ModeOf(Mem(), TheBus(), InitOff(regs))))
      ensures macs.host == old(macs.host)
      ensures if old(ReadsBlock(ActionOf(regs.csr0, Latch(regs.csr0, v))))
              then 0 < rdr.len && 0 < tdr.len && Initialized(old(Mem()), old(TheBus()), InitOff(old(regs)))
              else unchanged(`promiscuous, `multicast, `macs, `rdr, `tdr, `rdrOffset, `tdrOffset)
    {
      hide WriteCsr0, ActionOf, ReadsBlock, Latch, Rethink, LineEnables, ModeOf, InitOff, Card.Initialized, Card.Valid;
      var was := regs.csr0;
      var c := Latch(was, v);
      WriteBranches(regs, v, ModeOf(Mem(), TheBus(), InitOff(regs)));
      if STOP in c && STOP !in was {
        SetRegs(regs.(csr0 := {STOP}, csr3 := 0, byteSwap := false));
      } else if STRT in c && STRT !in was && (STOP in was || INIT in was) {
        var started := c - {STOP} + LineEnables(regs.mode);
        if INIT in c && INIT !in was {
          Initialize(started + {IDON});
        } else {
          SetRegs(regs.(csr0 := started));
        }
      } else if INIT in c && INIT !in was && STOP in was {
        Initialize(c + {IDON} - {RXON, TXON, STOP});
      } else {
        SetRegs(regs.(csr0 := c));
      }
    }

    /** Initialize the chip and leave it with these flags. */
    method Initialize(c: Flags)
      requires Valid()
      modifies this`regs, this`promiscuous, this`multicast, this`macs, this`rdr, this`tdr, this`rdrOffset, this`tdrOffset
      ensures Valid() && 0 < rdr.len && 0 < tdr.len && macs.host == old(macs.host)
      ensures Initialized(old(Mem()), old(TheBus()), InitOff(old(regs)))
      ensures regs == old(regs).(csr0 := Rethink(c), mode := ModeOf(old(Mem()), old(TheBus()), InitOff(old(regs))),
                                 initialized := true)
    {
      hide Rethink, ModeOf, InitOff, Card.Initialized, Card.Valid;
      ChipInit();
      SetRegs(regs.(csr0 := c, initialized := true));
    }

    /** Store the registers and let INTR follow the causes. */
    method SetRegs(r: Regs)
      requires Valid() && r.mode == regs.mode
      modifies this`regs
      ensures Valid() && regs == r.(csr0 := Rethink(r.csr0))
      ensures forall m: Memory, bus: Bus, off: nat :: old(Initialized(m, bus, off)) ==> Initialized(m, bus, off)
    {
      regs := r.(csr0 := Rethink(r.csr0));
    }

    /**
     * chip_wput on the data port of an Am7990: the registers follow the state machine, with the
     * mode word that board memory holds, and keep its invariant; an initialization takes over
     * the block as it is then.
     */
    method ChipWrite(rap: nat, v: bv16)
      requires Valid()
      modifies this`regs, this`promiscuous, this`multicast, this`macs, this`rdr, this`tdr, this`rdrOffset, this`tdrOffset
      ensures Valid() && regs == Csr.Step(old(regs), Csr.Event.Write(rap, v, old(ModeOf(Mem(), TheBus(), InitOff(regs)))))
      ensures Good(old(regs.csr0)) ==> Good(regs.csr0)
      ensures macs.host == old(macs.host)
      ensures if old(Initializes(rap, v))
              then 0 < rdr.len && 0 < tdr.len && Initialized(old(Mem()), old(TheBus()), InitOff(old(regs)))
              else unchanged(`promiscuous, `multicast, `macs, `rdr, `tdr, `rdrOffset, `tdrOffset)
    {
      hide WriteCsr0, Latch, Good, Card.Initialized, Card.Valid, ModeOf, InitOff, Decode, ActionOf, ReadsBlock;
      ghost var mode := ModeOf(Mem(), TheBus(), InitOff(regs));
      if Good(regs.csr0) {
        StepKeepsInvariant(regs, Csr.Event.Write(rap, v, mode));
      }
      if rap == 0 {
        WriteControl(Decode(v));
      } else if STOP in regs.csr0 {
        WriteStopped(rap, v, mode);
      }
    }

    /** The other registers can only be written while the chip is stopped. */
    method WriteStopped(rap: nat, v: bv16, ghost mode: bv16)
      requires Valid() && 0 < rap && STOP in regs.csr0
      modifies this`regs
      ensures Valid() && regs == WriteCsr(old(regs), rap, v, mode)
    {
      if rap == 1 {
        regs := regs.(csr1 := v & 0xfffe);
      } else if rap == 2 {
        regs := regs.(csr2 := v & 0x00ff);
      } else if rap == 3 {
        regs := regs.(csr3 := v & 0x0007, byteSwap := v & 0x0004 != 0);
      }
    }

    // ----- Board memory -----

    method PutRamByte(off: nat, v: byte)
      requires Valid()
      modifies ram
      ensures Valid() && Mem() == PutByte(old(Mem()), TheBus(), off, v)
    {
      if Visible(TheBus(), off) {
        ram[Cell(off)] := v;
      }
    }

    method PutRamWord(off: nat, w: nat)
      requires Valid() && w < 0x1_0000
      modifies ram
      ensures Valid() && Mem() == PutWord(old(Mem()), TheBus(), off, w)
    {
      PutRamByte(off, w / 256);
      PutRamByte(off + 1, w % 256);
    }

    // ----- Reception -----

    /** The card's buffers from the ring position on have room for a packet of the given length. */
    ghost predicate HasSpace(len: int)
      requires Valid()
      reads this, ram
    {
      && regs.initialized && RXON in regs.csr0 && 0 < rdr.len && 0 <= BufferSize(len, strip)
      && RxRing.Fits(Mem(), TheBus(), rdr, rdrOffset % rdr.len, rdr.len, BufferSize(len, strip))
    }

    /** The whole ring, whoever owns it, could hold such a packet. */
    ghost predicate CouldHold(len: int)
      requires Valid()
      reads this, ram
    {
      && regs.initialized && 0 < rdr.len && 0 <= BufferSize(len, strip)
      && BufferSize(len, strip) <= Capacity(Mem(), TheBus(), rdr, rdrOffset % rdr.len, rdr.len)
    }

    /** receive_space_available. */
    method ReceiveSpaceAvailable(len: int) returns (ok: bool)
      requires Valid()
      ensures ok <==> HasSpace(len)
    {
      hide DescAt;
      var needed := BufferSize(len, strip);
      if needed < 0 || !regs.initialized || RXON !in regs.csr0 || rdr.len == 0 {
        return false;
      }
      var i := 0;
      while i < rdr.len
        invariant i <= rdr.len && 0 < needed
        invariant RxRing.Fits(Mem(), TheBus(), rdr, rdrOffset % rdr.len, rdr.len, BufferSize(len, strip))
             == RxRing.Fits(Mem(), TheBus(), rdr, (rdrOffset + i) % rdr.len, rdr.len - i, needed)
      {
        var d := DescAt(ram[..], TheBus(), rdr, (rdrOffset + i) % rdr.len);
        if !d.Own() {
          return false;
        }
        ModNext(rdrOffset + i, rdr.len);
        needed := needed - d.Size();
        if needed <= 0 {
          return true;
        }
        i := i + 1;
      }
      return false;
    }

    /** receive_packet_can_fit. */
    method ReceivePacketCanFit(len: int) returns (ok: bool)
      requires Valid()
      ensures ok <==> CouldHold(len)
    {
      hide DescAt;
      var needed := BufferSize(len, strip);
      if needed < 0 || !regs.initialized || rdr.len == 0 {
        return false;
      }
      var i := 0;
      while i < rdr.len
        invariant i <= rdr.len && 0 < needed
        invariant Capacity(Mem(), TheBus(), rdr, rdrOffset % rdr.len, rdr.len) - BufferSize(len, strip)
             == Capacity(Mem(), TheBus(), rdr, (rdrOffset + i) % rdr.len, rdr.len - i) - needed
      {
        DescWords(Mem(), TheBus(), rdr, (rdrOffset + i) % rdr.len);
        needed := needed - DescAt(ram[..], TheBus(), rdr, (rdrOffset + i) % rdr.len).Size();
        ModNext(rdrOffset + i, rdr.len);
        if needed <= 0 {
          CapacityPositive(Mem(), TheBus(), rdr, (rdrOffset + i + 1) % rdr.len, rdr.len - i - 1);
          return true;
        }
        i := i + 1;
      }
      return false;
    }

    /** The bytes of one buffer, stored from its address on. */
    method StoreChunk(addr: nat, chunk: seq<byte>)
      requires Valid()
      modifies ram
      ensures Valid() && Mem() == Scatter(old(Mem()), TheBus(), addr, chunk)
    {
      hide PutByte;
      var i := 0;
      while i < |chunk|
        invariant i <= |chunk| && Valid()
        invariant Mem() == Scatter(old(Mem()), TheBus(), addr, chunk[..i])
      {
        assert chunk[..i + 1][..i] == chunk[..i];
        PutRamByte(Swapped(TheBus(), addr + i), chunk[i]);
        i := i + 1;
      }
      assert chunk[..|chunk|] == chunk;
    }

    /** Fills descriptor k and hands it back. */
    method FillDescriptor(k: nat, chunk: seq<byte>, first: bool, last: bool, total: nat)
      requires Valid() && total < 0x1_0000
      modifies ram
      ensures Valid() && Mem() == Fill(old(Mem()), TheBus(), rdr, k, chunk, first, last, total)
    {
      hide DescAt, Scatter, PutWord, HandBack;
      var d := DescAt(ram[..], TheBus(), rdr, k);
      DescWords(Mem(), TheBus(), rdr, k);
      StatusFits(d.d1, first, last);
      StoreChunk(d.Address(), chunk);
      PutRamWord(DescOff(rdr, k) + 2, HandBack(d.d1, first, last));
      PutRamWord(DescOff(rdr, k) + 6, if last then total else d.d3);
    }

    /** The delivery loop of gotfunc2. */
    method Deliver(data: seq<byte>) returns (o: RxOutcome)
      requires Valid() && 0 < rdr.len && 0 < |data| < 0x1_0000
      modifies ram, this`rdrOffset
      ensures Valid()
      ensures var x := RxRing.Receive(old(Mem()), TheBus(), rdr, old(rdrOffset) % rdr.len, data, 0, None);
              Mem() == x.m && rdrOffset == x.k && o == x.outcome
    {
      hide DescAt, Fill, PutWord, FlagOverrun;
      var done := 0;
      var prev: Option<nat> := None;
      ghost var x := RxRing.Receive(Mem(), TheBus(), rdr, rdrOffset % rdr.len, data, 0, None);
      while true
        invariant Valid() && done < |data|
        invariant var y := RxRing.Receive(Mem(), TheBus(), rdr, rdrOffset % rdr.len, data, done, prev);
                  x.m == y.m && x.k == y.k && x.outcome == y.outcome
        decreases |data| - done
      {
        rdrOffset := rdrOffset % rdr.len;
        InRange(rdrOffset, rdr.len);
        var k := rdrOffset;
        var d := DescAt(ram[..], TheBus(), rdr, k);
        DescWords(Mem(), TheBus(), rdr, k);
        if !d.Own() {
          if prev.Some? {
            var w := DescAt(ram[..], TheBus(), rdr, prev.value).d1;
            DescWords(Mem(), TheBus(), rdr, prev.value);
            StatusFits(w, false, false);
            PutRamWord(DescOff(rdr, prev.value) + 2, FlagOverrun(w));
            return Overrun;
          }
          return Missed;
        }
        var n := Min(d.Size(), |data| - done);
        var last := done + n == |data|;
        ModNext(k, rdr.len);
        rdrOffset := rdrOffset + 1;
        FillDescriptor(k, data[done..done + n], prev.None?, last, |data|);
        if last {
          return RxOutcome.Delivered;
        }
        prev := Some(k);
        done := done + n;
      }
    }

    /** The frame as it goes into the ring: with its frame check sequence unless the card strips it. */
    function FrameFor(body: seq<byte>): (f: seq<byte>)
      reads this
    {
      var c := crc(body);
      body + (if strip then [] else [c.0, c.1, c.2, c.3])
    }

    ghost predicate Translates(len: nat)
      reads this`macs
    {
      translate && 20 <= len && macs.card != macs.host
    }

    /** The buffer after mungepacket on a frame of len bytes. */
    ghost function Munged(buf: seq<byte>, len: nat): (b: seq<byte>)
      reads this`macs
      requires macs.Valid() && (Translates(len) ==> Room(buf))
      ensures |b| == |buf|
    {
      if Translates(len) then Munge(buf, macs) else buf
    }

    /** gotfunc2 ignores the frame: receiver off, too short, filtered, or too long with its FCS. */
    predicate Ignores(packet: seq<byte>)
      reads this
    {
      || RXON !in regs.csr0 || |packet| < 20
      || !PassesFilter(packet, macs.host, promiscuous, multicast)
      || (!strip && 3996 < |packet|)
    }

    /**
     * gotfunc2 on a frame that lies in a 4000-byte buffer. A frame that is not ignored is
     * translated, delivered as RxRing.Receive says, and recorded in CSR0.
     */
    method GotFrame(packet: seq<byte>, buffer: array<byte>) returns (o: Option<RxOutcome>)
      requires Valid() && |packet| <= 4000 && 0 < rdr.len
      requires buffer.Length == 4000 && buffer != ram && buffer != transmitBuffer && buffer[..|packet|] == packet
      requires Translates(|packet|) ==> Room(buffer[..])
      modifies ram, this`regs, this`rdrOffset, buffer
      ensures Valid()
      ensures o == None <==> old(Ignores(packet))
      ensures o == None ==> Mem() == old(Mem()) && regs == old(regs) && rdrOffset == old(rdrOffset)
      ensures o.Some? ==>
                var x := old(AfterFrame(Munged(buffer[..], |packet|)[..|packet|]));
                && o.value == x.outcome && Mem() == x.m && rdrOffset == x.k
                && regs == old(regs).(csr0 := regs.csr0) && ReceiveLeaves(old(regs.csr0), regs.csr0, x.outcome)
                && regs.csr0 == AfterReceive(old(regs.csr0), x.outcome)
    {
      hide PassesFilter, Munge, Room, RxRing.Receive, AfterReceive, ValidRing, ReceiveLeaves;
      if RXON !in regs.csr0 || |packet| < 20 || !PassesFilter(packet, macs.host, promiscuous, multicast) {
        return None;
      }
      MungeInPlace(buffer, |packet|, translate, macs);
      ghost var munged := buffer[..];
      var len := |packet|;
      if !strip {
        if 3996 < len {
          return None;
        }
        AppendFcs(buffer, len, crc(buffer[..len]));
        len := len + 4;
      }
      assert buffer[..len] == FrameFor(munged[..|packet|]);
      var out := Deliver(buffer[..len]);
      ReceiveFlags(regs.csr0, out);
      regs := regs.(csr0 := AfterReceive(regs.csr0, out));
      return Some(out);
    }

    /** Where the delivery of a translated frame ends. */
    ghost function AfterFrame(body: seq<byte>): (x: Rx)
      requires Valid() && 0 < rdr.len && 0 < |body| <= 4000
      reads this, ram
    {
      RxRing.Receive(Mem(), TheBus(), rdr, rdrOffset % rdr.len, FrameFor(body), 0, None)
    }

    /** The host's part in reception; it only concerns buffers it has handed to the card. */
    ghost predicate HostRxOk()
      requires Valid()
      reads this, ram
    {
      OwnedBuffersOffRing(Mem(), TheBus(), rdr)
    }

    /** A frame taken after the space check is in the ring, whole: never missed, never cut short. */
    method GotCheckedFrame(packet: seq<byte>, buffer: array<byte>) returns (o: Option<RxOutcome>)
      requires Valid() && 0 < |packet| <= 4000 && 0 < rdr.len && HostRxOk()
      requires buffer.Length == 4000 && buffer != ram && buffer != transmitBuffer && buffer[..|packet|] == packet
      requires Translates(|packet|) ==> Room(buffer[..])
      requires HasSpace(|packet|)
      modifies ram, this`regs, this`rdrOffset, buffer
      ensures Valid() && HostRxOk() && regs == old(regs).(csr0 := regs.csr0)
      ensures o == None || o == Some(RxOutcome.Delivered)
      ensures o == None <==> old(Ignores(packet))
      ensures Mem() == if o == None then old(Mem()) else old(AfterFrame(Munged(buffer[..], |packet|)[..|packet|])).m
      ensures MISS in regs.csr0 ==> MISS in old(regs.csr0)
    {
      hide Munge, Room, RxRing.Receive, OwnedBuffersOffRing, RxRing.Fits, PassesFilter, ValidRing, DescAt, Capacity;
      ghost var frame := FrameFor(Munged(buffer[..], |packet|)[..|packet|]);
      ghost var k := rdrOffset % rdr.len;
      ghost var m := Mem();
      FitsLess(m, TheBus(), rdr, k, rdr.len, BufferSize(|packet|, strip), |frame|);
      GuardSuffices(m, TheBus(), rdr, k, frame, 0, None, rdr.len);
      DeliveredKeepsHost(m, TheBus(), rdr, k, |frame|, |frame|, rdr.len, RxRing.Receive(m, TheBus(), rdr, k, frame, 0, None));
      o := GotFrame(packet, buffer);
    }

    /** Any buffer that starts with the packet has room for its translation. */
    ghost predicate Translatable(packet: seq<byte>)
      reads this`macs
    {
      forall buf: seq<byte> :: |buf| == 4000 && packet <= buf && Translates(|packet|) ==> Room(buf)
    }

    /**
     * One turn of the drain. The head waits if the ring could hold it but has no room now, is
     * dropped if the whole ring could not hold it, and is delivered otherwise unless ignored.
     * loaded is the packet buffer, with whatever it held before behind the packet.
     */
    method DrainTurn(queue: PacketQueue.Queue, buffer: array<byte>) returns (turn: Turn, ghost loaded: seq<byte>)
      requires Valid() && HostRxOk() && queue.Valid()
      requires buffer.Length == 4000 && {ram, transmitBuffer, queue.buffer} !! {buffer}
      requires queue.buffer != ram
      requires queue.Contents() != [] ==> 0 < |queue.Contents()[0]| <= 4000 && Translatable(queue.Contents()[0])
      modifies ram, this`regs, this`rdrOffset, queue, buffer
      ensures Valid() && HostRxOk() && queue.Valid() && regs == old(regs).(csr0 := regs.csr0)
      ensures MISS in regs.csr0 ==> MISS in old(regs.csr0)
      ensures old(queue.Contents()) == [] ==> turn.Stop?
      ensures old(queue.Contents()) != [] ==>
                var p := old(queue.Contents())[0];
                && (turn.Drop? <==> !old(CouldHold(|p|)))
                && (turn.Stop? <==> old(CouldHold(|p|)) && !old(HasSpace(|p|)))
                && (turn.Hand? ==> turn.o == if old(Ignores(p)) then None else Some(RxOutcome.Delivered))
      ensures if turn.Stop? then queue.Contents() == old(queue.Contents())
              else old(queue.Contents()) != [] && queue.Contents() == old(queue.Contents())[1..]
      ensures turn.Hand? && turn.o.Some? ==>
                var p := old(queue.Contents())[0];
                && |loaded| == 4000 && p <= loaded
                && Mem() == old(AfterFrame(Munged(loaded, |p|)[..|p|])).m
      ensures !(turn.Hand? && turn.o.Some?) ==> Mem() == old(Mem())
    {
      hide Room, RxRing.Fits, OwnedBuffersOffRing, PassesFilter, Capacity, BufferSize, ValidRing, PacketQueue.From;
      var len := queue.PeekSize();
      loaded := [];
      if len == 0 {
        return Stop, loaded;
      }
      var fits := ReceivePacketCanFit(len);
      if !fits {
        var _, _ := queue.Pop();
        return Drop, loaded;
      }
      var space := ReceiveSpaceAvailable(len);
      if !space {
        return Stop, loaded;
      }
      var _, packet := queue.Pop();
      CopyPacket(buffer, packet);
      loaded := buffer[..];
      var o := GotCheckedFrame(packet, buffer);
      return Hand(o), loaded;
    }

    /**
     * receive_queue_drain: takes at most 16 packets off the front of the queue. It leaves the
     * ring to the host's rules and never raises MISS: a packet that does not fit now waits, and
     * one that the whole ring could not hold is dropped.
     */
    method Drain(queue: PacketQueue.Queue) returns (ghost taken: nat)
      requires Valid() && HostRxOk() && queue.Valid()
      requires queue.buffer != ram && queue.buffer != transmitBuffer
      requires forall p :: p in queue.Contents() ==> 0 < |p| <= 4000 && Translatable(p)
      modifies ram, this`regs, this`rdrOffset, queue
      ensures Valid() && HostRxOk() && queue.Valid() && regs == old(regs).(csr0 := regs.csr0)
      ensures taken <= 16 && taken <= |old(queue.Contents())| && queue.Contents() == old(queue.Contents())[taken..]
      ensures MISS in regs.csr0 ==> MISS in old(regs.csr0)
    {
      hide Room, OwnedBuffersOffRing, ValidRing, PacketQueue.From;
      taken := 0;
      ghost var all := queue.Contents();
      var buffer := new byte[4000];
      for i := 0 to 16
        invariant Valid() && HostRxOk() && queue.Valid() && regs == old(regs).(csr0 := regs.csr0)
        invariant taken == i <= |all| && queue.Contents() == all[taken..]
        invariant MISS in regs.csr0 ==> MISS in old(regs.csr0)
      {
        var turn, _ := DrainTurn(queue, buffer);
        if turn.Stop? {
          return;
        }
        taken := taken + 1;
      }
    }

    // ----- Transmission -----

    /** One buffer of a chain, padded on request, appended to the transmit buffer. */
    method GatherSegment(d: Desc, size: nat) returns (grown: nat)
      requires Valid() && d.d2 < 0x1_0000 && size + |Segment(Mem(), TheBus(), d, pad)| <= 4000
      modifies transmitBuffer
      ensures Valid() && grown == size + |Segment(Mem(), TheBus(), d, pad)|
      ensures transmitBuffer[..grown] == old(transmitBuffer[..size]) + Segment(Mem(), TheBus(), d, pad)
      ensures transmitBuffer[grown..] == old(transmitBuffer[grown..])
    {
      hide Gather, Zeros;
      var n := Min(d.Size(), 4000);
      CopyBytes(d.Address(), size, n);
      grown := size + n;
      if n < 60 && pad {
        ZeroFill(grown, 60 - n);
        grown := size + 60;
      }
    }

    /** n bytes of board memory go behind the first `size` bytes of the transmit buffer. */
    method CopyBytes(addr: nat, size: nat, n: nat)
      requires Valid() && size + n <= 4000
      modifies transmitBuffer
      ensures Valid() && transmitBuffer[..size + n] == old(transmitBuffer[..size]) + Gather(Mem(), TheBus(), addr, n)
      ensures transmitBuffer[size + n..] == old(transmitBuffer[size + n..])
    {
      hide GetByte, Visible, Swapped;
      for i := 0 to n
        invariant Valid()
        invariant transmitBuffer[..size + i] == old(transmitBuffer[..size]) + Gather(Mem(), TheBus(), addr, i)
        invariant forall j :: size + i <= j < 4000 ==> transmitBuffer[j] == old(transmitBuffer[j])
      {
        transmitBuffer[size + i] := GetByte(ram[..], TheBus(), Swapped(TheBus(), addr + i));
      }
    }

    method ZeroFill(at: nat, n: nat)
      requires Valid() && at + n <= 4000
      modifies transmitBuffer
      ensures Valid() && transmitBuffer[..at + n] == old(transmitBuffer[..at]) + Zeros(n)
      ensures transmitBuffer[at + n..] == old(transmitBuffer[at + n..])
    {
      for i := 0 to n
        invariant forall j :: 0 <= j < 4000 ==> transmitBuffer[j] == if at <= j < at + i then 0 else old(transmitBuffer[j])
      {
        transmitBuffer[at + i] := 0;
      }
    }

    /** The status and message words of transmit descriptor k. */
    method PutStatusWords(k: nat, d1: nat, d3: nat)
      requires Valid() && d1 < 0x1_0000 && d3 < 0x1_0000
      modifies ram
      ensures Valid() && Mem() == PutBoth(old(Mem()), TheBus(), tdr, k, d1, d3)
    {
      PutRamWord(DescOff(tdr, k) + 2, d1);
      PutRamWord(DescOff(tdr, k) + 6, d3);
    }

    /** Gathers the buffer of descriptor k and hands the descriptor back. */
    method SendBuffer(k: nat, size: nat) returns (grown: nat)
      requires Valid()
      requires var d := DescAt(Mem(), TheBus(), tdr, k);
               d.Own() && d.d2 < 0x1_0000 && size + |Segment(Mem(), TheBus(), d, pad)| <= 4000
      modifies ram, transmitBuffer
      ensures Valid() && Mem() == GiveBack(old(Mem()), TheBus(), tdr, k)
      ensures var s := Segment(old(Mem()), TheBus(), DescAt(old(Mem()), TheBus(), tdr, k), pad);
              grown == size + |s| && transmitBuffer[..grown] == old(transmitBuffer[..size]) + s
      ensures transmitBuffer[grown..] == old(transmitBuffer[grown..])
    {
      hide DescAt, Segment, PutBoth, ClearOwn;
      var d := DescAt(ram[..], TheBus(), tdr, k);
      DescWords(Mem(), TheBus(), tdr, k);
      WordsFit(d.d1, d.d3);
      grown := GatherSegment(d, size);
      PutStatusWords(k, ClearOwn(d.d1), d.d3);
    }

    /** What transmitting from the ring position on does, with `size` bytes gathered so far. */
    ghost function Onward(size: nat): (x: Tx)
      requires Valid() && 0 < tdr.len && size <= 4000
      reads this, ram, transmitBuffer
    {
      TxRing.Transmit(Mem(), TheBus(), tdr, tdrOffset % tdr.len, transmitBuffer[..size], pad)
    }

    /** One turn of the gather loop: an ownership error, or one buffer is sent. */
    method GatherOne(size: nat) returns (grown: nat, done: bool, err: bool)
      requires Valid() && 0 < tdr.len && size <= 4000 && |Onward(size).out| <= 4000
      modifies ram, transmitBuffer, this`tdrOffset
      ensures Valid() && size <= grown <= 4000 && transmitBuffer[grown..] == old(transmitBuffer[grown..])
      ensures done ==>
                var x := old(Onward(size));
                Mem() == x.m && tdrOffset == x.k && err == x.ownError && transmitBuffer[..grown] == x.out
      ensures !done ==>
                && SameEnd(Onward(grown), old(Onward(size)))
                && Owned(Mem(), TheBus(), tdr, tdr.len) < old(Owned(Mem(), TheBus(), tdr, tdr.len))
    {
      hide DescAt, Segment, PutBoth, SetErr, SetUnderflow, Owned, ClearOwn, GiveBack, ValidRing, Enp;
      tdrOffset := tdrOffset % tdr.len;
      InRange(tdrOffset, tdr.len);
      var k := tdrOffset;
      var d := DescAt(ram[..], TheBus(), tdr, k);
      DescWords(Mem(), TheBus(), tdr, k);
      WordsFit(d.d1, d.d3);
      if !d.Own() {
        PutStatusWords(k, SetErr(d.d1), SetUnderflow(d.d3));
        return size, true, true;
      }
      TransmitGrows(Mem(), TheBus(), tdr, k, transmitBuffer[..size], pad);
      GiveBackDescriptors(Mem(), TheBus(), tdr, k);
      ModNext(k, tdr.len);
      tdrOffset := tdrOffset + 1;
      grown := SendBuffer(k, size);
      return grown, Enp(d.d1), false;
    }

    /** The gather loop of do_transmit. It assumes that the chain fits the transmit buffer. */
    method GatherChain() returns (size: nat, err: bool)
      requires Valid() && 0 < tdr.len
      requires |TxRing.Transmit(Mem(), TheBus(), tdr, tdrOffset % tdr.len, [], pad).out| <= 4000
      modifies ram, transmitBuffer, this`tdrOffset
      ensures Valid()
      ensures var x := TxRing.Transmit(old(Mem()), TheBus(), tdr, old(tdrOffset) % tdr.len, [], pad);
              && Mem() == x.m && tdrOffset == x.k && err == x.ownError
              && size == |x.out| <= 4000 && transmitBuffer[..size] == x.out
              && transmitBuffer[size..] == old(transmitBuffer[..])[size..]
    {
      hide TxRing.Transmit, Owned, ValidRing;
      size, err := 0, false;
      assert transmitBuffer[..0] == [];
      ghost var x := Onward(0);
      var done := false;
      while !done
        invariant Valid() && size <= 4000 && |x.out| <= 4000
        invariant transmitBuffer[size..] == old(transmitBuffer[..])[size..]
        invariant !done ==> SameEnd(Onward(size), x)
        invariant done ==> Mem() == x.m && tdrOffset == x.k && err == x.ownError && transmitBuffer[..size] == x.out
        decreases if done then 0 else 1, Owned(Mem(), TheBus(), tdr, tdr.len)
      {
        size, done, err := GatherOne(size);
      }
    }

    /** What the gather loop leaves of the current chain. */
    ghost function Gathered(): (x: Tx)
      requires Valid() && 0 < tdr.len
      reads this, ram
    {
      TxRing.Transmit(Mem(), TheBus(), tdr, tdrOffset % tdr.len, [], pad)
    }

    ghost function CurrentTx(): (d: Desc)
      requires Valid() && 0 < tdr.len
      reads this, ram
    {
      DescAt(Mem(), TheBus(), tdr, tdrOffset % tdr.len)
    }

    /** Bytes of a gathered frame that go on the line: the host's FCS is cut off unless the card adds one. */
    function LineLength(size: nat, d1: nat): (n: int)
      reads this
    {
      size - (if regs.mode & 0x0008 != 0 && !AddFcs(d1) then 4 else 0)
    }

    /** The transmit buffer once the chain is in it. */
    ghost function Loaded(): (b: seq<byte>)
      requires Valid() && 0 < tdr.len && |Gathered().out| <= 4000
      reads this, ram, transmitBuffer
    {
      Gathered().out + transmitBuffer[|Gathered().out|..]
    }

    /** An error mark on the last descriptor of a chain that is too short. */
    ghost function MarkShort(m: Memory, bus: Bus, k: nat): (n: Memory)
      reads this
    {
      var d := DescAt(m, bus, tdr, k);
      DescWords(m, bus, tdr, k);
      WordsFit(d.d1, d.d3);
      PutBoth(m, bus, tdr, k, SetErr(d.d1), SetUnderflow(d.d3))
    }

    /** How do_transmit ends, told from the state before it. */
    ghost function TxOutcomeOf(): (o: TxOutcome)
      requires Valid() && 0 < tdr.len
      reads this, ram
    {
      if !CurrentTx().Own() || !Stp(CurrentTx().d1) then TxOutcome.Idle
      else if Gathered().ownError then OwnError
      else if |Gathered().out| < 60 then Underflow
      else Sent
    }

    /** do_transmit: one chain is taken from the ring, sent or marked, and recorded in CSR0. */
    method DoTransmit() returns (o: TxOutcome)
      requires Valid() && 0 < tdr.len && |Gathered().out| <= 4000
      requires Translates(|Gathered().out|) ==> Room(Loaded())
      modifies ram, transmitBuffer, this`tdrOffset, this`transmitLen, this`regs
      ensures Valid() && o == old(TxOutcomeOf()) && regs == old(regs).(csr0 := AfterTransmit(old(regs.csr0), o))
      ensures TransmitLeaves(old(regs.csr0), regs.csr0, o)
      ensures o.Idle? ==> Mem() == old(Mem()) && tdrOffset == old(tdrOffset) % tdr.len + 1
      ensures !o.Idle? ==> tdrOffset == old(Gathered()).k
      ensures o.OwnError? || o.Sent? ==> Mem() == old(Gathered()).m
      ensures o.Underflow? ==> 0 < old(Gathered()).k && Mem() == old(MarkShort(Gathered().m, TheBus(), Gathered().k - 1))
      ensures o.Sent? ==> 56 <= transmitLen == old(LineLength(|Gathered().out|, CurrentTx().d1))
                          && transmitBuffer[..] == old(Munged(Loaded(), LineLength(|Gathered().out|, CurrentTx().d1)))
      ensures !o.Sent? ==> transmitLen == old(transmitLen)
    {
      hide DescAt, TxRing.Transmit, PutBoth, SetErr, SetUnderflow, AfterTransmit, Munge, Room, ValidRing, Stp, AddFcs,
           TransmitLeaves;
      TransmitFlags(regs.csr0, TxOutcomeOf());
      tdrOffset := tdrOffset % tdr.len;
      InRange(tdrOffset, tdr.len);
      var k := tdrOffset;
      var d := DescAt(ram[..], TheBus(), tdr, k);
      if !d.Own() || !Stp(d.d1) {
        tdrOffset := tdrOffset + 1;
        AfterIdle(regs.csr0);
        return TxOutcome.Idle;
      }
      TakesOne(Mem(), TheBus(), tdr, k, pad);
      var size, err := GatherChain();
      if err {
        o := OwnError;
      } else if size < 60 {
        var last := DescAt(ram[..], TheBus(), tdr, tdrOffset - 1);
        DescWords(Mem(), TheBus(), tdr, tdrOffset - 1);
        WordsFit(last.d1, last.d3);
        PutStatusWords(tdrOffset - 1, SetErr(last.d1), SetUnderflow(last.d3));
        o := Underflow;
      } else {
        assert transmitBuffer[..] == old(Loaded());
        transmitLen := LineLength(size, d.d1);
        MungeInPlace(transmitBuffer, transmitLen, translate, macs);
        o := Sent;
      }
      regs := regs.(csr0 := AfterTransmit(regs.csr0, o));
    }

    /** check_transmit on an Am7990: without TXON a pending demand is dropped. */
    method CheckTransmit()
      requires Valid() && 0 < tdr.len && |Gathered().out| <= 4000
      requires Translates(|Gathered().out|) ==> Room(Loaded())
      modifies ram, transmitBuffer, this`tdrOffset, this`transmitLen, this`regs
      ensures Valid()
      ensures 0 < old(transmitLen) ==> regs == old(regs)
      ensures old(transmitLen) <= 0 ==> regs == Csr.Step(old(regs), Csr.Event.Transmit(old(TxOutcomeOf())))
      ensures 0 < old(transmitLen) || TXON !in old(regs.csr0) ==>
                Mem() == old(Mem()) && tdrOffset == old(tdrOffset) && transmitLen == old(transmitLen)
      ensures old(transmitLen) <= 0 && TXON in old(regs.csr0) ==>
                var o := old(TxOutcomeOf());
                && (o.Idle? ==> Mem() == old(Mem()) && tdrOffset == old(tdrOffset) % tdr.len + 1)
                && (!o.Idle? ==> tdrOffset == old(Gathered()).k)
                && (o.OwnError? || o.Sent? ==> Mem() == old(Gathered()).m)
                && (o.Underflow? ==> 0 < old(Gathered()).k && Mem() == old(MarkShort(Gathered().m, TheBus(), Gathered().k - 1)))
                && (o.Sent? ==> 56 <= transmitLen == old(LineLength(|Gathered().out|, CurrentTx().d1))
                                && transmitBuffer[..] == old(Munged(Loaded(), LineLength(|Gathered().out|, CurrentTx().d1))))
                && (!o.Sent? ==> transmitLen == old(transmitLen))
    {
      hide TxRing.Transmit, AfterTransmit, Munge, Room, ValidRing, DescAt;
      if 0 < transmitLen {
        return;
      }
      if TXON !in regs.csr0 {
        regs := regs.(csr0 := regs.csr0 - {TDMD});
        return;
      }
      var _ := DoTransmit();
    }
  }

  lemma WordBytes(m: Memory, bus: Bus, a: nat)
    ensures GetWord(m, bus, a) / 256 == GetByte(m, bus, a) && GetWord(m, bus, a) % 256 == GetByte(m, bus, a + 1)
  {
  }

  /** The same result, whatever number of descriptors it took from here. */
  predicate SameEnd(x: Tx, y: Tx) {
    x.m == y.m && x.k == y.k && x.out == y.out && x.ownError == y.ownError
  }

  lemma AfterIdle(c: Flags)
    ensures AfterTransmit(c, TxOutcome.Idle) == c
  {
  }

  /** A chain whose first descriptor is the card's takes at least that one. */
  lemma TakesOne(m: Memory, bus: Bus, r: Ring, k: nat, pad: bool)
    requires ValidRing(bus, r) && k < r.len && DescAt(m, bus, r, k).Own()
    ensures !TxRing.Transmit(m, bus, r, k, [], pad).ownError ==> 0 < TxRing.Transmit(m, bus, r, k, [], pad).k
  {
    EndsPastZero(m, bus, r, k, [], pad);
  }

  lemma {:induction false} EndsPastZero(m: Memory, bus: Bus, r: Ring, k: nat, out: seq<byte>, pad: bool)
    requires ValidRing(bus, r) && k < r.len
    ensures var x := TxRing.Transmit(m, bus, r, k, out, pad); !x.ownError ==> 0 < x.k
    decreases Owned(m, bus, r, r.len)
  {
    hide DescAt, Segment, PutBoth, Owned, GiveBack;
    var d := DescAt(m, bus, r, k);
    DescWords(m, bus, r, k);
    WordsFit(d.d1, d.d3);
    if d.Own() {
      GiveBackDescriptors(m, bus, r, k);
      EndsPastZero(GiveBack(m, bus, r, k), bus, r, RxRing.Next(r, k), out + Segment(m, bus, d, pad), pad);
    }
  }

  lemma {:induction false} TransmitGrows(m: Memory, bus: Bus, r: Ring, k: nat, out: seq<byte>, pad: bool)
    requires ValidRing(bus, r) && k < r.len
    ensures |out| <= |TxRing.Transmit(m, bus, r, k, out, pad).out|
    ensures DescAt(m, bus, r, k).Own() && DescAt(m, bus, r, k).d2 < 0x1_0000 ==>
              |out| + |Segment(m, bus, DescAt(m, bus, r, k), pad)| <= |TxRing.Transmit(m, bus, r, k, out, pad).out|
    decreases Owned(m, bus, r, r.len)
  {
    hide DescAt, Segment, PutBoth, Owned, GiveBack;
    var d := DescAt(m, bus, r, k);
    DescWords(m, bus, r, k);
    WordsFit(d.d1, d.d3);
    if d.Own() {
      GiveBackDescriptors(m, bus, r, k);
      TransmitGrows(GiveBack(m, bus, r, k), bus, r, RxRing.Next(r, k), out + Segment(m, bus, d, pad), pad);
    }
  }

  method CopyPacket(buffer: array<byte>, packet: seq<byte>)
    requires |packet| <= buffer.Length
    modifies buffer
    ensures buffer[..|packet|] == packet
  {
    for i := 0 to |packet|
      invariant buffer[..i] == packet[..i]
    {
      buffer[i] := packet[i];
    }
  }

  /** The descriptors of a delivered frame are the host's again, so its contract still holds. */
  lemma DeliveredKeepsHost(m: Memory, bus: Bus, r: Ring, k: nat, left: int, total: nat, n: nat, x: Rx)
    requires InTheRing(m, bus, r, k, left, true, total, n, x) && OwnedBuffersOffRing(m, bus, r)
    ensures OwnedBuffersOffRing(x.m, bus, r)
  {
    hide DescAt, BufferOffRing, HandBack, Capacity;
    forall j: nat | j < r.len && DescAt(x.m, bus, r, j).Own()
      ensures BufferOffRing(bus, r, DescAt(x.m, bus, r, j))
    {
      DescWords(m, bus, r, j);
      StatusFits(DescAt(m, bus, r, j).d1, j == k, Dist(r, k, j) == x.used - 1);
    }
  }

  method AppendFcs(buffer: array<byte>, len: nat, c: (byte, byte, byte, byte))
    requires len + 4 <= buffer.Length
    modifies buffer
    ensures buffer[..len + 4] == old(buffer[..len]) + [c.0, c.1, c.2, c.3]
  {
    buffer[len] := c.0;
    buffer[len + 1] := c.1;
    buffer[len + 2] := c.2;
    buffer[len + 3] := c.3;
  }

  lemma InRange(k: nat, n: nat)
    requires k < n
    ensures k % n == k
  {
  }

  lemma {:induction false} CapacityPositive(m: Memory, bus: Bus, r: Ring, k: nat, n: nat)
    ensures n <= Capacity(m, bus, r, k, n)
    decreases n
  {
    hide DescAt;
    if n > 0 {
      DescWords(m, bus, r, k);
      CapacityPositive(m, bus, r, RxRing.Next(r, k), n - 1);
    }
  }
}
