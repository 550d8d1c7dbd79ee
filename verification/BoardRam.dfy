/** The board memory as the network chip sees it, and the descriptor rings in it. */
module BoardRam {
  import opened Words

  type Memory = m: seq<byte> | |m| == 0x8000 witness seq(0x8000, _ => 0)

  /** The chip variant and whether frame data bytes are swapped within words. */
  datatype Bus = Bus(am79c960: bool, swap: bool)

  /** The Am7990 sees the board memory only with address line A15 set. */
  predicate Visible(bus: Bus, off: nat) {
    bus.am79c960 || (off / 0x8000) % 2 == 1
  }

  function Cell(off: nat): (c: nat)
    ensures c < 0x8000
  {
    off % 0x8000
  }

  /** off ^ 1 when swapping. */
  function Swapped(bus: Bus, off: nat): (a: nat) {
    if !bus.swap then off else if off % 2 == 0 then off + 1 else off - 1
  }

  function GetByte(m: Memory, bus: Bus, off: nat): (b: byte) {
    if Visible(bus, off) then m[Cell(off)] else 0
  }

  function GetWord(m: Memory, bus: Bus, off: nat): (w: nat)
    ensures w < 0x1_0000
  {
    var high: int, low: int := GetByte(m, bus, off), GetByte(m, bus, off + 1);
    256 * high + low
  }

  function PutByte(m: Memory, bus: Bus, off: nat, v: byte): (n: Memory) {
    if Visible(bus, off) then m[Cell(off) := v] else m
  }

  function PutWord(m: Memory, bus: Bus, off: nat, w: nat): (n: Memory)
    requires w < 0x1_0000
  {
    PutByte(PutByte(m, bus, off, w / 256), bus, off + 1, w % 256)
  }

  /** A ring of eight-byte descriptors. */
  datatype Ring = Ring(base: nat, len: nat)

  /** The ring does not overlap itself; the Am7990 aligns it to eight bytes. */
  predicate ValidRing(bus: Bus, r: Ring) {
    1 <= r.len && 8 * r.len <= 0x8000 && (bus.am79c960 || r.base % 8 == 0)
  }

  function DescOff(r: Ring, k: nat): (off: nat) {
    r.base + 8 * k
  }

  datatype Desc = Desc(d0: nat, d1: nat, d2: nat, d3: nat) {
    predicate Own() { 0x8000 <= d1 }
    function Address(): (a: nat) { d0 + 0x1_0000 * (d1 % 256) }
    function Size(): (n: int) { 0x1_0000 - d2 }
  }

  /** Byte b of descriptor k. */
  function DescByte(m: Memory, bus: Bus, r: Ring, k: nat, b: nat): (v: byte) {
    GetByte(m, bus, DescOff(r, k) + b)
  }

  function DescWord(m: Memory, bus: Bus, r: Ring, k: nat, b: nat): (w: nat)
    ensures w < 0x1_0000
  {
    var high: int, low: int := DescByte(m, bus, r, k, b), DescByte(m, bus, r, k, b + 1);
    256 * high + low
  }

  function DescAt(m: Memory, bus: Bus, r: Ring, k: nat): (d: Desc) {
    Desc(DescWord(m, bus, r, k, 0), DescWord(m, bus, r, k, 2), DescWord(m, bus, r, k, 4), DescWord(m, bus, r, k, 6))
  }

  /** Cell c belongs to the ring. */
  predicate InRing(r: Ring, c: nat) {
    (c - r.base) % 0x8000 < 8 * r.len
  }

  /** The place of a descriptor byte within the ring. */
  lemma RingPlace(r: Ring, j: nat)
    requires j < 0x8000
    ensures (Cell(r.base + j) - r.base) % 0x8000 == j
  {
  }

  /** All eight bytes of an aligned descriptor are visible together. */
  lemma VisibleTogether(bus: Bus, r: Ring, k: nat, b: nat)
    requires ValidRing(bus, r) && b < 8
    ensures Visible(bus, DescOff(r, k) + b) == Visible(bus, DescOff(r, k))
  {
  }

  /** A write outside the ring leaves every descriptor alone. */
  lemma PutOutsideRing(m: Memory, bus: Bus, r: Ring, off: nat, v: byte, k: nat)
    requires ValidRing(bus, r) && k < r.len && !InRing(r, Cell(off))
    ensures DescAt(PutByte(m, bus, off, v), bus, r, k) == DescAt(m, bus, r, k)
  {
    hide Visible, Cell;
    forall b: nat | b < 8
      ensures DescByte(PutByte(m, bus, off, v), bus, r, k, b) == DescByte(m, bus, r, k, b)
    {
      RingPlace(r, 8 * k + b);
    }
  }

  /** A byte written into descriptor k at place b changes that byte and no other of the ring. */
  lemma PutInRing(m: Memory, bus: Bus, r: Ring, k: nat, b: nat, v: byte, k': nat, b': nat)
    requires ValidRing(bus, r) && k < r.len && k' < r.len && b < 8 && b' < 8
    ensures DescByte(PutByte(m, bus, DescOff(r, k) + b, v), bus, r, k', b')
         == if k == k' && b == b' && Visible(bus, DescOff(r, k)) then v else DescByte(m, bus, r, k', b')
  {
    hide Visible, Cell;
    RingPlace(r, 8 * k + b);
    RingPlace(r, 8 * k' + b');
    VisibleTogether(bus, r, k, b);
  }

  /** Writing the status word, the second of a visible descriptor. */
  lemma PutStatus(m: Memory, bus: Bus, r: Ring, k: nat, w: nat, k': nat)
    requires ValidRing(bus, r) && k < r.len && k' < r.len && w < 0x1_0000 && Visible(bus, DescOff(r, k))
    ensures var n := PutWord(m, bus, DescOff(r, k) + 2, w);
            DescAt(n, bus, r, k') == if k == k' then DescAt(m, bus, r, k).(d1 := w) else DescAt(m, bus, r, k')
  {
    hide Visible, Cell, PutByte, DescByte;
    var m1 := PutByte(m, bus, DescOff(r, k) + 2, w / 256);
    var n := PutByte(m1, bus, DescOff(r, k) + 3, w % 256);
    forall b: nat | b < 8
      ensures DescByte(n, bus, r, k', b)
           == if k == k' && b == 2 then w / 256 else if k == k' && b == 3 then w % 256 else DescByte(m, bus, r, k', b)
    {
      PutInRing(m, bus, r, k, 2, w / 256, k', b);
      PutInRing(m1, bus, r, k, 3, w % 256, k', b);
    }
  }

  /** Writing the message word, the last of a visible descriptor. */
  lemma PutMessage(m: Memory, bus: Bus, r: Ring, k: nat, w: nat, k': nat)
    requires ValidRing(bus, r) && k < r.len && k' < r.len && w < 0x1_0000 && Visible(bus, DescOff(r, k))
    ensures var n := PutWord(m, bus, DescOff(r, k) + 6, w);
            DescAt(n, bus, r, k') == if k == k' then DescAt(m, bus, r, k).(d3 := w) else DescAt(m, bus, r, k')
  {
    hide Visible, Cell, PutByte, DescByte;
    var m1 := PutByte(m, bus, DescOff(r, k) + 6, w / 256);
    var n := PutByte(m1, bus, DescOff(r, k) + 7, w % 256);
    forall b: nat | b < 8
      ensures DescByte(n, bus, r, k', b)
           == if k == k' && b == 6 then w / 256 else if k == k' && b == 7 then w % 256 else DescByte(m, bus, r, k', b)
    {
      PutInRing(m, bus, r, k, 6, w / 256, k', b);
      PutInRing(m1, bus, r, k, 7, w % 256, k', b);
    }
  }

  /** A descriptor the chip owns is visible to it. */
  lemma OwnedIsVisible(m: Memory, bus: Bus, r: Ring, k: nat)
    requires ValidRing(bus, r) && DescAt(m, bus, r, k).Own()
    ensures Visible(bus, DescOff(r, k))
  {
  }

  /** Byte i of the ring in board memory. */
  function RingByte(m: Memory, r: Ring, i: nat): (b: int) {
    m[(r.base + i) % 0x8000]
  }

  /**
   * The eight bytes of a descriptor: address, status with the top address byte, negated buffer
   * size and message, high bytes first. The chip sees them with address line A15 set, and
   * without it a descriptor that it does not own.
   */
  lemma DescriptorLayout(m: Memory, bus: Bus, r: Ring, k: nat)
    requires ValidRing(bus, r) && k < r.len
    ensures var d, p := DescAt(m, bus, r, k), 8 * k;
            if bus.am79c960 || 0x8000 <= (r.base + p) % 0x1_0000 then
              && (d.Own() <==> 0x80 <= RingByte(m, r, p + 2))
              && d.Address() == 0x1_0000 * RingByte(m, r, p + 3) + 256 * RingByte(m, r, p) + RingByte(m, r, p + 1)
              && d.Size() == 0x1_0000 - 256 * RingByte(m, r, p + 4) - RingByte(m, r, p + 5)
              && d.d3 == 256 * RingByte(m, r, p + 6) + RingByte(m, r, p + 7)
            else !d.Own()
  {
    hide Visible, GetByte;
    assert Visible(bus, DescOff(r, k)) <==> bus.am79c960 || 0x8000 <= DescOff(r, k) % 0x1_0000 by {
      VisibleByLine(bus, DescOff(r, k));
    }
    forall b: nat | b < 8
      ensures DescByte(m, bus, r, k, b) == if Visible(bus, DescOff(r, k)) then m[(r.base + (8 * k + b)) % 0x8000] else 0
    {
      VisibleTogether(bus, r, k, b);
      SeenByte(m, bus, DescOff(r, k) + b);
    }
    SplitWord(m, bus, r, k, 0);
    SplitWord(m, bus, r, k, 2);
    SplitWord(m, bus, r, k, 4);
    SplitWord(m, bus, r, k, 6);
  }

  lemma VisibleByLine(bus: Bus, off: nat)
    ensures Visible(bus, off) <==> bus.am79c960 || 0x8000 <= off % 0x1_0000
  {
  }

  lemma SeenByte(m: Memory, bus: Bus, off: nat)
    ensures GetByte(m, bus, off) == if Visible(bus, off) then m[off % 0x8000] else 0
  {
  }

  lemma SplitWord(m: Memory, bus: Bus, r: Ring, k: nat, b: nat)
    ensures DescWord(m, bus, r, k, b) / 256 == DescByte(m, bus, r, k, b)
    ensures DescWord(m, bus, r, k, b) % 256 == DescByte(m, bus, r, k, b + 1)
  {
  }
}
