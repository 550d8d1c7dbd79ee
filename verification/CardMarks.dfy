/** How a transmit attempt of the card ends, and what the card reads and lets through, on the bits. */
module CardMarks {
  import opened Words
  import opened BoardRam
  import opened RxRing
  import opened RxMarks
  import opened TxRing
  import opened TxMarks
  import opened Lance
  import Csr

  /**
   * Without OWN and STP on its descriptor an attempt is idle; a chain without an end is an
   * ownership error, a packet of less than 60 bytes an underflow, and any other packet is sent.
   */
  lemma AttemptEnds(card: Card, n: nat)
    requires card.Valid() && 0 < card.tdr.len && OwnedBuffersOffRing(card.Mem(), card.TheBus(), card.tdr)
    ensures var o, d := card.TxOutcomeOf(), card.CurrentTx();
            var m, bus, r, k := card.Mem(), card.TheBus(), card.tdr, card.tdrOffset % card.tdr.len;
            && (o.Idle? <==> !Bit(d.d1, OWN) || !Bit(d.d1, STP))
            && (!o.Idle? && EndlessRun(m, bus, r, k, n) ==> o.OwnError?)
            && (!o.Idle? && PacketRun(m, bus, r, k, n) ==>
                  var size := |ChainBytes(m, bus, r, k, n + 1, card.pad)|;
                  o == if size < 60 then Csr.Underflow else Csr.Sent)
  {
    hide DescAt, Transmit, OwnedBuffersOffRing, Bit, Stp, EndlessRun, PacketRun, Returned, Visible, ValidRing;
    var m, bus, r, k := card.Mem(), card.TheBus(), card.tdr, card.tdrOffset % card.tdr.len;
    var d := card.CurrentTx();
    DescWords(m, bus, r, k);
    OwnIsTopBit(d);
    StatusBits(d.d1);
    if EndlessRun(m, bus, r, k, n) {
      UnendedMarks(m, bus, r, k, card.pad, n);
    }
    if PacketRun(m, bus, r, k, n) {
      SentMarks(m, bus, r, k, card.pad, n);
    }
  }

  /** With DTCR in the mode word and no ADD_FCS on the descriptor the last four bytes stay off the line. */
  lemma LineCut(card: Card, size: nat, d1: nat)
    ensures card.LineLength(size, d1) == if card.regs.mode & 0x0008 != 0 && !Bit(d1, 13) then size - 4 else size
  {
    hide Bit, AddFcs;
    StatusBits(d1);
  }

  /** A packet that is too short gets ERR, BUFF and UFLO on its last descriptor. */
  lemma ShortMarks(card: Card, m: Memory, bus: Bus, k: nat, j: nat)
    requires ValidRing(bus, card.tdr) && k < card.tdr.len && j < card.tdr.len
    ensures Returned(DescAt(m, bus, card.tdr, j), DescAt(card.MarkShort(m, bus, k), bus, card.tdr, j),
                     false, j == k && Visible(bus, DescOff(card.tdr, k)))
  {
    hide DescAt, PutBoth, Visible, SetErr, SetUnderflow;
    var d := DescAt(m, bus, card.tdr, k);
    DescWords(m, bus, card.tdr, k);
    WordsFit(d.d1, d.d3);
    MarksHere(m, bus, card.tdr, k, SetErr(d.d1), SetUnderflow(d.d3), j);
    forall i: nat
      ensures Bit(SetErr(d.d1), i) <==> i == ERROR || Bit(d.d1, i)
      ensures Bit(SetUnderflow(d.d3), i) <==> i == 15 || i == UFLO || Bit(d.d3, i)
    {
      ErrorBits(d.d1, d.d3, i);
    }
  }

  /**
   * A packet has space exactly if the run of the chip's buffers from the ring position on holds it,
   * padded to 60 bytes and with four of a frame check sequence unless that is stripped. A packet of
   * more than 4000 bytes, these four included, never has.
   */
  lemma SpaceExactly(card: Card, n: nat, len: int)
    requires card.Valid() && 0 < card.rdr.len
    requires ChipRun(card.Mem(), card.TheBus(), card.rdr, card.rdrOffset % card.rdr.len, n)
    ensures var m, bus, r, k := card.Mem(), card.TheBus(), card.rdr, card.rdrOffset % card.rdr.len;
            var fcs := if card.strip then 0 else 4;
            var fits := 0 < len && len + fcs <= 4000 && card.regs.initialized;
            && (card.HasSpace(len) <==>
                  fits && Csr.RXON in card.regs.csr0
                  && 60 + fcs <= Capacity(m, bus, r, k, n) && len + fcs <= Capacity(m, bus, r, k, n))
            && (card.CouldHold(len) <==>
                  fits && 60 + fcs <= Capacity(m, bus, r, k, r.len) && len + fcs <= Capacity(m, bus, r, k, r.len))
  {
    hide DescAt, Capacity, ValidRing, RxRing.Fits;
    var fcs := if card.strip then 0 else 4;
    if 0 < len && len + fcs <= 4000 {
      var needed := (if len < 60 then 60 else len) + fcs;
      CheckIsCapacity(card.Mem(), card.TheBus(), card.rdr, card.rdrOffset % card.rdr.len, n, card.rdr.len, needed);
    }
  }

  /** Sent by this station itself, to itself or to a group. */
  predicate OwnEcho(p: seq<byte>, host: seq<byte>)
    requires 12 <= |p|
  {
    p[6..12] == host && (p[0] % 2 == 1 || p[..6] == host)
  }

  /** Every kind of destination, for frames that are not the station's own. */
  lemma FilterCases(p: seq<byte>, host: seq<byte>, promiscuous: bool, multicast: bool)
    requires 12 <= |p|
    ensures OwnEcho(p, host) ==> !PassesFilter(p, host, promiscuous, multicast)
    ensures !OwnEcho(p, host) && p[..6] == [255, 255, 255, 255, 255, 255] ==> PassesFilter(p, host, promiscuous, multicast)
    ensures !OwnEcho(p, host) && p[..6] != [255, 255, 255, 255, 255, 255] && p[0] % 2 == 1 ==>
              (PassesFilter(p, host, promiscuous, multicast) <==> multicast)
    ensures !OwnEcho(p, host) && p[0] % 2 == 0 ==>
              (PassesFilter(p, host, promiscuous, multicast) <==> promiscuous || p[..6] == host)
  {
    assert p[..6] == BROADCAST ==> p[0] == BROADCAST[0] by {
      assert p[0] == p[..6][0];
    }
  }

  /**
   * A frame is taken with the receiver on, from 20 bytes, past the filter, and up to 4000 bytes
   * with its frame check sequence; that goes behind it as computed unless it is stripped.
   */
  lemma TakenExactly(card: Card, p: seq<byte>)
    ensures !card.Ignores(p) <==>
              && Csr.RXON in card.regs.csr0 && 20 <= |p| && PassesFilter(p, card.macs.host, card.promiscuous, card.multicast)
              && (card.strip || |p| + 4 <= 4000)
    ensures var f := card.FrameFor(p);
            if card.strip then f == p
            else |f| == |p| + 4 && f[..|p|] == p && (f[|p|], f[|p| + 1], f[|p| + 2], f[|p| + 3]) == card.crc(p)
  {
    hide PassesFilter;
  }

  /** The initialization block lies at the address in registers 1 and 2; its words come high byte first, the address low. */
  lemma BlockIsRead(r: Csr.Regs, m: Memory, bus: Bus, k: nat)
    ensures InitOff(r) % 0x1_0000 == r.csr1 as nat && InitOff(r) / 0x1_0000 == r.csr2 as nat % 256
    ensures var off := InitOff(r);
            && InitWord(m, bus, off, k) / 256 == GetByte(m, bus, off + k)
            && InitWord(m, bus, off, k) % 256 == GetByte(m, bus, off + k + 1)
            && InitAddress(m, bus, off) == [GetByte(m, bus, off + 3), GetByte(m, bus, off + 2), GetByte(m, bus, off + 5),
                                            GetByte(m, bus, off + 4), GetByte(m, bus, off + 7), GetByte(m, bus, off + 6)]
  {
    InitOffHalves(r);
    hide GetByte, GetWord, InitOff;
    WordBytes(m, bus, InitOff(r) + k);
    WordBytes(m, bus, InitOff(r) + 2);
    WordBytes(m, bus, InitOff(r) + 4);
    WordBytes(m, bus, InitOff(r) + 6);
  }

  lemma InitOffHalves(r: Csr.Regs)
    ensures InitOff(r) % 0x1_0000 == r.csr1 as nat && InitOff(r) / 0x1_0000 == r.csr2 as nat % 256
  {
    var low, high := r.csr1 as nat, r.csr2 as nat % 256;
    assert InitOff(r) == 0x1_0000 * high + low && low < 0x1_0000;
    Halves(high, low);
  }

  lemma Halves(high: nat, low: nat)
    requires low < 0x1_0000
    ensures (0x1_0000 * high + low) % 0x1_0000 == low && (0x1_0000 * high + low) / 0x1_0000 == high
  {
  }
}
