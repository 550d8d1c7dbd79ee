/** MAC address translation of frames, with the UDP checksum repair for DHCP messages. */
module MacMunge {
  import opened Words

  /** The card's own address and the host adapter's. */
  datatype Macs = Macs(card: seq<byte>, host: seq<byte>) {
    predicate Valid() { |card| == 6 && |host| == 6 }
  }

  function Word(p: seq<byte>, i: nat): (w: nat)
    requires i + 1 < |p|
  {
    var high: int, low: int := p[i], p[i + 1];
    256 * high + low
  }

  // ----- Address fields -----

  predicate Holds(p: seq<byte>, at: nat, mac: seq<byte>) {
    at + |mac| <= |p| && p[at..at + |mac|] == mac
  }

  /** The six bytes hold one of the two addresses. */
  predicate Ours(p: seq<byte>, at: nat, macs: Macs) {
    Holds(p, at, macs.card) || Holds(p, at, macs.host)
  }

  function Overwrite(p: seq<byte>, at: nat, v: seq<byte>): (q: seq<byte>)
    requires at + |v| <= |p|
    ensures |q| == |p|
    ensures forall i :: 0 <= i < |q| ==> q[i] == if at <= i < at + |v| then v[i - at] else p[i]
  {
    p[..at] + v + p[at + |v|..]
  }

  /** dofakemac on distinct addresses: each is replaced by the other. */
  function Exchange(p: seq<byte>, at: nat, macs: Macs): (q: seq<byte>)
    requires macs.Valid() && at + 6 <= |p|
    ensures |q| == |p|
    ensures forall i :: 0 <= i < |q| && !(at <= i < at + 6) ==> q[i] == p[i]
  {
    if Holds(p, at, macs.card) then Overwrite(p, at, macs.host)
    else if Holds(p, at, macs.host) then Overwrite(p, at, macs.card)
    else p
  }

  lemma ExchangeTwice(p: seq<byte>, at: nat, macs: Macs)
    requires macs.Valid() && at + 6 <= |p|
    ensures Exchange(Exchange(p, at, macs), at, macs) == p
    ensures Ours(Exchange(p, at, macs), at, macs) == Ours(p, at, macs)
  {
  }

  /** What happens to a field depends on the field alone. */
  lemma ExchangeIsLocal(p: seq<byte>, q: seq<byte>, at: nat, macs: Macs)
    requires macs.Valid() && at + 6 <= |p| == |q|
    requires forall i :: at <= i < at + 6 ==> q[i] == p[i]
    ensures Ours(q, at, macs) == Ours(p, at, macs)
    ensures forall i :: at <= i < at + 6 ==> Exchange(q, at, macs)[i] == Exchange(p, at, macs)[i]
  {
    assert p[at..at + 6] == q[at..at + 6];
  }

  lemma ExchangesCommute(p: seq<byte>, a: nat, b: nat, macs: Macs)
    requires macs.Valid() && a + 6 <= b && b + 6 <= |p|
    ensures Exchange(Exchange(p, a, macs), b, macs) == Exchange(Exchange(p, b, macs), a, macs)
  {
    hide Exchange, Ours;
    ExchangeIsLocal(p, Exchange(p, a, macs), b, macs);
    ExchangeIsLocal(p, Exchange(p, b, macs), a, macs);
  }

  // ----- Checksum -----

  /** End-around carry folding to 16 bits. */
  function Fold(s: nat): (f: nat)
    ensures f < 0x1_0000
    decreases s
  {
    if s < 0x1_0000 then s else Fold(s % 0x1_0000 + s / 0x1_0000)
  }

  /** Folding keeps the residue modulo 65535, with 65535 standing for the nonzero multiples. */
  lemma {:induction false} FoldKeepsResidue(s: nat) returns (h: nat)
    ensures s == 0xFFFF * h + Fold(s)
    ensures 0 < s ==> 0 < Fold(s)
    decreases s
  {
    if s < 0x1_0000 {
      h := 0;
    } else {
      var carry := s / 0x1_0000;
      assert s == 0x1_0000 * carry + s % 0x1_0000;
      h := FoldKeepsResidue(s % 0x1_0000 + carry);
      h := h + carry;
    }
  }

  /** Adding the complement of the folded rest makes every sum fold to all ones. */
  lemma ComplementVerifies(s: nat)
    requires 0 < s
    ensures Fold(s + (0xFFFF - Fold(s))) == 0xFFFF
  {
    hide Fold;
    var h := FoldKeepsResidue(s);
    var h' := FoldKeepsResidue(s + (0xFFFF - Fold(s)));
  }

  /** n big-endian words from position `at` on. */
  function WordSum(p: seq<byte>, at: nat, n: nat): (s: nat)
    requires at + 2 * n <= |p|
  {
    if n == 0 then 0 else WordSum(p, at, n - 1) + Word(p, at + 2 * (n - 1))
  }

  /** Sixteen-bit words of a byte string, an odd last byte padded with zero. */
  function PaddedSum(d: seq<byte>): (s: nat) {
    if d == [] then 0
    else if |d| == 1 then var high: int := d[0]; 256 * high
    else Word(d, 0) + PaddedSum(d[2..])
  }

  /** Source and destination address, protocol and length, as UDP sums them before the datagram. */
  function PseudoHeader(p: seq<byte>, n: nat): (s: nat)
    requires 34 <= |p|
  {
    Word(p, 26) + Word(p, 28) + Word(p, 30) + Word(p, 32) + 17 + n
  }

  /** The receiver's test of a UDP checksum over a datagram of n bytes at u. */
  predicate Verifies(p: seq<byte>, u: nat, n: nat)
    requires 34 <= |p| && u + n <= |p|
  {
    Fold(PseudoHeader(p, n) + PaddedSum(p[u..u + n])) == 0xFFFF
  }

  lemma {:induction false} WordSumEnds(p: seq<byte>, at: nat, n: nat)
    requires 0 < n && at + 2 * n <= |p|
    ensures WordSum(p, at, n) == Word(p, at) + WordSum(p, at + 2, n - 1)
  {
    if n > 1 {
      WordSumEnds(p, at, n - 1);
    }
  }

  /** The summing loop over a zero-terminated datagram computes the padded sum. */
  lemma {:induction false} LoopSumIsPaddedSum(p: seq<byte>, u: nat, n: nat)
    requires u + n < |p| && p[u + n] == 0
    ensures WordSum(p, u, (n + 1) / 2) == PaddedSum(p[u..u + n])
    decreases n
  {
    if n == 1 {
      assert p[u..u + 1] == [p[u]];
      assert WordSum(p, u, 1) == WordSum(p, u, 0) + Word(p, u);
    } else if n > 1 {
      var d := p[u..u + n];
      LoopSumIsPaddedSum(p, u + 2, n - 2);
      assert d[2..] == p[u + 2..u + n];
      WordSumEnds(p, u, (n + 1) / 2);
    }
  }

  // ----- Frame layout -----

  predicate IsArp(p: seq<byte>)
    requires 38 <= |p|
  {
    Word(p, 12) == 0x0806 && Word(p, 14) == 1 && p[18] == 6
  }

  predicate IsUdp(p: seq<byte>)
    requires 38 <= |p|
  {
    Word(p, 12) == 0x0800 && p[23] == 17
  }

  /** Where the datagram starts: after the Ethernet header and the IPv4 header. */
  function UdpAt(p: seq<byte>): (u: nat)
    requires 38 <= |p|
  {
    var ihl: int := p[14] % 16;
    14 + 4 * ihl
  }

  predicate DhcpPorts(p: seq<byte>, u: nat)
    requires u + 4 <= |p|
  {
    Word(p, u) == 67 || Word(p, u) == 68 || Word(p, u + 2) == 67 || Word(p, u + 2) == 68
  }

  function UdpLength(p: seq<byte>): (n: nat)
    requires 80 <= |p|
  {
    Word(p, UdpAt(p) + 4)
  }

  /**
   * The buffer holds every field of any header, and a datagram with one byte to spare: the
   * program zeroes the byte after it.
   */
  predicate Room(p: seq<byte>) {
    116 <= |p| && (IsUdp(p) ==> UdpAt(p) + UdpLength(p) < |p|)
  }

  // ----- Translation -----

  /** The datagram as it is summed: checksum and the byte after the datagram zero. */
  function Cleared(p: seq<byte>, u: nat): (z: seq<byte>)
    requires u + 8 <= |p| && u + Word(p, u + 4) < |p|
  {
    p[u + 6 := 0][u + 7 := 0][u + Word(p, u + 4) := 0]
  }

  /** The folded sum of a cleared datagram of n bytes, pseudo-header included. */
  function Folded(z: seq<byte>, u: nat, n: nat): (f: nat)
    requires 34 <= |z| && u + n < |z|
    ensures f < 0x1_0000
  {
    Fold(WordSum(z, u, (n + 1) / 2) + PseudoHeader(z, n))
  }

  /** The checksum of a folded sum: its 32-bit complement, all ones if that were zero, cut to 16 bits. */
  function Checksum(f: nat): (c: nat)
    requires f < 0x1_0000
  {
    var c := 0xFFFF_FFFF - f;
    (if c == 0 then 0xFFFF else c) % 0x1_0000
  }

  /** The frame with the checksum of the datagram at u repaired. */
  function Repaired(p: seq<byte>, u: nat): (q: seq<byte>)
    requires 34 <= |p| && u + 8 <= |p| && u + Word(p, u + 4) < |p|
    ensures |q| == |p|
  {
    var z := Cleared(p, u);
    var c := Checksum(Folded(z, u, Word(p, u + 4)));
    z[u + 6 := c / 256][u + 7 := c % 256]
  }

  /** The DHCP part: client hardware address, and the checksum if there is one. */
  function Dhcp(p: seq<byte>, u: nat, macs: Macs): (q: seq<byte>)
    requires macs.Valid() && 34 <= |p| && u + 42 <= |p| && u + Word(p, u + 4) < |p|
    ensures |q| == |p|
  {
    var r := Exchange(p, u + 36, macs);
    if Ours(p, u + 36, macs) && Word(r, u + 6) != 0 then Repaired(r, u) else r
  }

  /** Destination and source address. */
  function Ends(p: seq<byte>, macs: Macs): (q: seq<byte>)
    requires macs.Valid() && 12 <= |p|
    ensures |q| == |p|
    ensures forall i :: 12 <= i < |q| ==> q[i] == p[i]
  {
    Exchange(Exchange(p, 0, macs), 6, macs)
  }

  /** Sender and target address of an ARP message. */
  function Arp(p: seq<byte>, macs: Macs): (q: seq<byte>)
    requires macs.Valid() && 38 <= |p|
    ensures |q| == |p|
    ensures forall i :: 0 <= i < 22 ==> q[i] == p[i]
  {
    Exchange(Exchange(p, 22, macs), 32, macs)
  }

  /** The part of the translation that lies behind the Ethernet addresses. */
  function Body(p: seq<byte>, macs: Macs): (q: seq<byte>)
    requires macs.Valid() && Room(p)
    ensures |q| == |p|
  {
    if IsArp(p) then Arp(p, macs)
    else if IsUdp(p) && DhcpPorts(p, UdpAt(p)) then Dhcp(p, UdpAt(p), macs)
    else p
  }

  /** mungepacket on distinct addresses and a frame of at least 20 bytes. */
  function Munge(p: seq<byte>, macs: Macs): (q: seq<byte>)
    requires macs.Valid() && Room(p)
    ensures |q| == |p|
  {
    Body(Ends(p, macs), macs)
  }

  // ----- The repaired checksum -----

  /** The frame carries a DHCP message with a checksum and one of the two addresses in it. */
  predicate Repairs(p: seq<byte>, macs: Macs)
    requires Room(p)
  {
    var u := UdpAt(p);
    IsUdp(p) && DhcpPorts(p, u) && Ours(p, u + 36, macs) && Word(p, u + 6) != 0
  }

  /** The datagram follows a full IPv4 header and is at least n bytes long. */
  predicate Datagram(p: seq<byte>, n: nat)
    requires Room(p)
  {
    34 <= UdpAt(p) && n <= UdpLength(p)
  }

  /** The all-ones substitution never fires: what is stored is the plain 16-bit complement. */
  lemma ChecksumIsComplement(f: nat)
    requires f < 0x1_0000
    ensures Checksum(f) == 0xFFFF - f
  {
  }

  lemma {:induction false} WordSumSame(p: seq<byte>, q: seq<byte>, at: nat, n: nat)
    requires at + 2 * n <= |p| == |q|
    requires forall i :: at <= i < at + 2 * n ==> q[i] == p[i]
    ensures WordSum(q, at, n) == WordSum(p, at, n)
  {
    if n > 0 {
      WordSumSame(p, q, at, n - 1);
    }
  }

  /** Storing the checksum adds it to the sum. */
  lemma {:induction false} WordSumStores(z: seq<byte>, u: nat, n: nat, c: nat)
    requires 4 <= n && u + 2 * n <= |z| && z[u + 6] == 0 && z[u + 7] == 0 && c < 0x1_0000
    ensures WordSum(z[u + 6 := c / 256][u + 7 := c % 256], u, n) == WordSum(z, u, n) + c
  {
    var q := z[u + 6 := c / 256][u + 7 := c % 256];
    if n == 4 {
      WordSumSame(z, q, u, 3);
    } else {
      WordSumStores(z, u, n - 1, c);
    }
  }

  lemma RepairedElsewhere(p: seq<byte>, u: nat)
    requires 34 <= |p| && u + 8 <= |p| && u + Word(p, u + 4) < |p|
    ensures forall i :: 0 <= i < |p| && i != u + 6 && i != u + 7 && i != u + Word(p, u + 4) ==> Repaired(p, u)[i] == p[i]
  {
  }

  /** A repaired datagram verifies, whatever its length, parity and contents. */
  lemma RepairVerifies(p: seq<byte>, u: nat)
    requires 34 <= u && u + 8 <= |p| && 8 <= Word(p, u + 4) && u + Word(p, u + 4) < |p|
    ensures var n := Word(p, u + 4); Word(Repaired(p, u), u + 4) == n && Verifies(Repaired(p, u), u, n)
  {
    hide Fold, WordSum, PaddedSum;
    var n := Word(p, u + 4);
    var z := Cleared(p, u);
    var q := Repaired(p, u);
    var s := WordSum(z, u, (n + 1) / 2) + PseudoHeader(z, n);
    ChecksumIsComplement(Fold(s));
    WordSumStores(z, u, (n + 1) / 2, 0xFFFF - Fold(s));
    LoopSumIsPaddedSum(q, u, n);
    ComplementVerifies(s);
  }

  /** The stored checksum can be zero, which UDP reads as "none": exactly when the sum folds to all ones. */
  lemma StoredChecksumIsZeroExactly(p: seq<byte>, u: nat)
    requires 34 <= |p| && u + 8 <= |p| && 8 <= Word(p, u + 4) && u + Word(p, u + 4) < |p|
    ensures Word(Repaired(p, u), u + 6) == 0 <==> Folded(Cleared(p, u), u, Word(p, u + 4)) == 0xFFFF
    ensures Word(Repaired(p, u), u + 6) == 0xFFFF - Folded(Cleared(p, u), u, Word(p, u + 4))
  {
    hide Folded;
    ChecksumIsComplement(Folded(Cleared(p, u), u, Word(p, u + 4)));
  }

  // ----- Locality -----

  /** q agrees with p behind the Ethernet addresses. */
  ghost predicate SameBody(p: seq<byte>, q: seq<byte>) {
    |p| == |q| && forall i :: 12 <= i < |p| ==> q[i] == p[i]
  }

  lemma SameBodySameRoom(p: seq<byte>, q: seq<byte>)
    requires SameBody(p, q) && Room(p)
    ensures Room(q) && UdpAt(q) == UdpAt(p) && UdpLength(q) == UdpLength(p)
    ensures IsArp(q) == IsArp(p) && IsUdp(q) == IsUdp(p) && DhcpPorts(q, UdpAt(p)) == DhcpPorts(p, UdpAt(p))
  {
  }

  lemma RepairedIsLocal(p: seq<byte>, q: seq<byte>, u: nat)
    requires SameBody(p, q) && 34 <= |p| && 14 <= u && u + 8 <= |p| && u + Word(p, u + 4) < |p|
    ensures SameBody(Repaired(p, u), Repaired(q, u))
    ensures forall i :: 0 <= i < 12 ==> Repaired(q, u)[i] == q[i]
  {
    hide WordSum, Fold, Checksum;
    var n := Word(p, u + 4);
    WordSumSame(Cleared(p, u), Cleared(q, u), u, (n + 1) / 2);
  }

  lemma DhcpIsLocal(p: seq<byte>, q: seq<byte>, u: nat, macs: Macs)
    requires macs.Valid() && SameBody(p, q) && 34 <= |p| && 14 <= u && u + 42 <= |p| && u + Word(p, u + 4) < |p|
    ensures SameBody(Dhcp(p, u, macs), Dhcp(q, u, macs))
    ensures forall i :: 0 <= i < 12 ==> Dhcp(q, u, macs)[i] == q[i]
  {
    hide Repaired, Exchange, Ours;
    ExchangeIsLocal(p, q, u + 36, macs);
    RepairedIsLocal(Exchange(p, u + 36, macs), Exchange(q, u + 36, macs), u);
    RepairedIsLocal(Exchange(q, u + 36, macs), Exchange(q, u + 36, macs), u);
  }

  lemma ArpIsLocal(p: seq<byte>, q: seq<byte>, macs: Macs)
    requires macs.Valid() && SameBody(p, q) && 38 <= |p|
    ensures SameBody(Arp(p, macs), Arp(q, macs))
  {
    hide Exchange, Ours;
    ExchangeIsLocal(p, q, 22, macs);
    ExchangeIsLocal(Exchange(p, 22, macs), Exchange(q, 22, macs), 32, macs);
  }

  lemma BodyIsLocal(p: seq<byte>, q: seq<byte>, macs: Macs)
    requires macs.Valid() && Room(p) && SameBody(p, q)
    ensures Room(q) && SameBody(Body(p, macs), Body(q, macs))
    ensures forall i :: 0 <= i < 12 ==> Body(q, macs)[i] == q[i]
  {
    hide Arp, Dhcp;
    SameBodySameRoom(p, q);
    if IsArp(p) {
      ArpIsLocal(p, q, macs);
    } else if IsUdp(p) {
      DhcpIsLocal(p, q, UdpAt(p), macs);
    }
  }

  lemma EndsTwice(p: seq<byte>, q: seq<byte>, macs: Macs)
    requires macs.Valid() && 12 <= |p| == |q|
    requires forall i :: 0 <= i < 12 ==> q[i] == Ends(p, macs)[i]
    ensures forall i :: 0 <= i < 12 ==> Ends(q, macs)[i] == p[i]
  {
    hide Exchange, Ours;
    var e := Ends(p, macs);
    ExchangeIsLocal(e, q, 0, macs);
    ExchangeIsLocal(Exchange(e, 0, macs), Exchange(q, 0, macs), 6, macs);
    ExchangesCommute(Exchange(p, 0, macs), 0, 6, macs);
    ExchangeTwice(p, 0, macs);
    ExchangeTwice(p, 6, macs);
  }

  // ----- Translating back -----

  lemma ArpTwice(p: seq<byte>, macs: Macs)
    requires macs.Valid() && 38 <= |p|
    ensures Arp(Arp(p, macs), macs) == p
  {
    hide Exchange, Ours;
    ExchangesCommute(Exchange(p, 22, macs), 22, 32, macs);
    ExchangeTwice(p, 22, macs);
    ExchangeTwice(p, 32, macs);
  }

  /** The checksum of the datagram is the one the repair would compute. */
  predicate Canonical(p: seq<byte>)
    requires Room(p) && IsUdp(p)
  {
    Word(p, UdpAt(p) + 6) == Checksum(Folded(Cleared(p, UdpAt(p)), UdpAt(p), UdpLength(p)))
  }

  /** The client address in between does not show in the repaired frame once it is translated back. */
  lemma RepairTwice(p: seq<byte>, u: nat, macs: Macs)
    requires macs.Valid() && 34 <= u && u + 42 <= |p| && 42 <= Word(p, u + 4) && u + Word(p, u + 4) < |p|
    ensures var e := Exchange(Repaired(Exchange(p, u + 36, macs), u), u + 36, macs);
            && Ours(Repaired(Exchange(p, u + 36, macs), u), u + 36, macs) == Ours(p, u + 36, macs)
            && Word(e, u + 4) == Word(p, u + 4) && Cleared(e, u) == Cleared(p, u)
            && Word(e, u + 6) == Word(Repaired(Exchange(p, u + 36, macs), u), u + 6)
            && e[u + Word(p, u + 4)] == 0
            && forall i :: 0 <= i < |p| && i != u + 6 && i != u + 7 && i != u + Word(p, u + 4) ==> e[i] == p[i]
  {
    hide Folded, Checksum, Exchange, Ours;
    var x := Exchange(p, u + 36, macs);
    ExchangeTwice(p, u + 36, macs);
    ExchangeIsLocal(x, Repaired(x, u), u + 36, macs);
    var e := Exchange(Repaired(x, u), u + 36, macs);
    var n := Word(p, u + 4);
    forall i | 0 <= i < |p| && i != u + 6 && i != u + 7 && i != u + n ensures e[i] == p[i] {
      if u + 36 <= i < u + 42 {
        assert e[i] == Exchange(x, u + 36, macs)[i];
      }
    }
  }

  /** Two passes over a datagram at u with a checksum to repair: t is p but for the checksum and the byte after it. */
  ghost predicate RepairedBack(p: seq<byte>, u: nat, once: seq<byte>, t: seq<byte>)
    requires 34 <= |p| && u + 8 <= |p| && u + Word(p, u + 4) < |p| && |once| == |p| && |t| == |p|
  {
    var n := Word(p, u + 4);
    && Word(t, u + 6) == (if Word(once, u + 6) == 0 then 0 else Checksum(Folded(Cleared(p, u), u, n)))
    && forall i :: 0 <= i < |p| && i != u + 6 && i != u + 7 && i != u + n ==> t[i] == p[i]
  }

  /** What two passes leave of a DHCP frame. */
  lemma DhcpTwice(p: seq<byte>, u: nat, macs: Macs)
    requires macs.Valid() && 34 <= |p| && 14 <= u && u + 42 <= |p| && u + Word(p, u + 4) < |p|
    requires Ours(p, u + 36, macs) && Word(p, u + 6) != 0 ==> 34 <= u && 42 <= Word(p, u + 4)
    ensures var d := Dhcp(p, u, macs);
            && Word(d, u + 4) == Word(p, u + 4) && (forall i :: 12 <= i < u + 6 || 12 <= i < 24 ==> d[i] == p[i])
            && if !Ours(p, u + 36, macs) || Word(p, u + 6) == 0 then Dhcp(d, u, macs) == p
               else RepairedBack(p, u, d, Dhcp(d, u, macs))
  {
    hide Folded, Exchange, Ours, Checksum;
    ExchangeTwice(p, u + 36, macs);
    if Ours(p, u + 36, macs) && Word(p, u + 6) != 0 {
      RepairTwice(p, u, macs);
    }
    ChecksumIsComplement(Folded(Cleared(p, u), u, Word(p, u + 4)));
    ChecksumIsComplement(Folded(Cleared(Exchange(p, u + 36, macs), u), u, Word(p, u + 4)));
  }

  lemma BodyTwice(p: seq<byte>, macs: Macs)
    requires macs.Valid() && Room(p) && (Repairs(p, macs) ==> Datagram(p, 42))
    ensures var once := Body(p, macs);
            && Room(once)
            && if Repairs(p, macs) then RepairedBack(p, UdpAt(p), once, Body(once, macs)) else Body(once, macs) == p
  {
    hide Arp, Dhcp, Folded, Cleared, Checksum, Ours;
    var u := UdpAt(p);
    if IsArp(p) {
      ArpTwice(p, macs);
    } else if IsUdp(p) && DhcpPorts(p, u) {
      DhcpTwice(p, u, macs);
    }
  }

  /** Everything up to the end of the datagram, or the whole frame if there is none. */
  ghost predicate Restored(p: seq<byte>, q: seq<byte>)
    requires Room(p) && |q| == |p|
  {
    if IsUdp(p) then q[..UdpAt(p) + UdpLength(p)] == p[..UdpAt(p) + UdpLength(p)] else q == p
  }

  /** Two frames that agree elsewhere have a prefix in common exactly if they agree in the one word at i. */
  lemma SamePrefix(p: seq<byte>, q: seq<byte>, i: nat, k: nat)
    requires i + 1 < k <= |p| == |q|
    requires forall j :: 0 <= j < k && j != i && j != i + 1 ==> q[j] == p[j]
    ensures q[..k] == p[..k] <==> Word(q, i) == Word(p, i)
  {
  }

  /**
   * Translating twice gives the frame back exactly unless a checksum is repaired; then it
   * does so exactly if that checksum was canonical and the one in between is not zero.
   */
  lemma MungeTwice(p: seq<byte>, macs: Macs)
    requires macs.Valid() && Room(p) && (Repairs(p, macs) ==> Datagram(p, 42))
    ensures var q := Munge(p, macs);
            && Room(q)
            && (Restored(p, Munge(q, macs)) <==>
                Repairs(p, macs) ==> Canonical(p) && Word(q, UdpAt(p) + 6) != 0)
  {
    hide Body, Ends, Cleared, Folded, Checksum, Ours;
    var e := Ends(p, macs);
    var q := Munge(p, macs);
    BodyIsLocal(p, e, macs);
    BodyTwice(p, macs);
    BodyIsLocal(Body(p, macs), q, macs);
    BodyIsLocal(Body(p, macs), Ends(q, macs), macs);
    EndsTwice(p, q, macs);
    var t, b := Munge(q, macs), Body(Body(p, macs), macs);
    assert forall i :: 0 <= i < 12 ==> t[i] == p[i];
    assert forall i :: 12 <= i < |p| ==> t[i] == b[i];
    if Repairs(p, macs) {
      var u, n := UdpAt(p), UdpLength(p);
      assert Word(t, u + 6) == Word(b, u + 6);
      SamePrefix(p, t, u + 6, u + n);
    } else {
      assert t == p;
    }
  }

  /**
   * A DHCP frame whose client address is translated leaves with a checksum that verifies,
   * for every datagram length, even or odd.
   */
  lemma MungedVerifies(p: seq<byte>, macs: Macs)
    requires macs.Valid() && Room(p) && Repairs(p, macs) && Datagram(p, 8)
    ensures UdpLength(Munge(p, macs)) == UdpLength(p) && Verifies(Munge(p, macs), UdpAt(p), UdpLength(p))
  {
    hide Repaired, Exchange, Ours, Verifies;
    var u := UdpAt(p);
    var e := Ends(p, macs);
    SameBodySameRoom(p, e);
    ExchangeIsLocal(p, e, u + 36, macs);
    RepairedElsewhere(Exchange(e, u + 36, macs), u);
    RepairVerifies(Exchange(e, u + 36, macs), u);
  }

  // ----- A frame that leaves without a checksum -----

  lemma {:induction false} ZeroWords(p: seq<byte>, at: nat, n: nat, m: nat)
    requires at + 2 * (n + m) <= |p|
    requires forall i :: at + 2 * n <= i < at + 2 * (n + m) ==> p[i] == 0
    ensures WordSum(p, at, n + m) == WordSum(p, at, n)
  {
    if m > 0 {
      ZeroWords(p, at, n, m - 1);
    }
  }

  const CARD: seq<byte> := [0, 0, 0, 0, 0, 1]
  const HOST: seq<byte> := [0, 0, 0, 0, 0, 2]

  /** A DHCP request from the card's address; the source IP address makes the sum fold to all ones. */
  function Request(i: nat): (b: byte) {
    match i
    case 12 => 0x08 case 14 => 0x45 case 23 => 17
    case 26 => 0xFF case 27 => 0x54
    case 35 => 68 case 39 => 42 case 41 => 1
    case 75 => 1
    case _ => 0
  }

  lemma RequestIsMunged(p: seq<byte>, macs: Macs)
    requires |p| == 116 && macs == Macs(CARD, HOST) && forall i :: 0 <= i < 116 ==> p[i] == Request(i)
    ensures Room(p) && Repairs(p, macs) && Datagram(p, 42)
    ensures UdpAt(p) == 34 && Word(Exchange(p, 70, macs), 38) == 42
    ensures Munge(p, macs) == Repaired(Exchange(p, 70, macs), 34)
  {
    hide Repaired;
    assert p[70..76] == CARD;
    NotOurs(p, 0, macs);
    NotOurs(p, 6, macs);
  }

  /** The intended all-ones substitution is missing: this request leaves with checksum zero. */
  lemma RequestLosesItsChecksum()
    ensures var p, macs := seq(116, i requires 0 <= i => Request(i)), Macs(CARD, HOST);
            && macs.Valid() && Room(p) && Repairs(p, macs) && Datagram(p, 42)
            && Word(Munge(p, macs), 40) == 0
  {
    hide Repaired, Folded, Munge, Repairs, Room, Datagram, Ours;
    var p, macs := seq(116, i requires 0 <= i => Request(i)), Macs(CARD, HOST);
    RequestIsMunged(p, macs);
    assert p[70..76] == CARD;
    var x := Exchange(p, 70, macs);
    RequestSum(Cleared(x, 34));
    StoredChecksumIsZeroExactly(x, 34);
  }

  lemma NotOurs(p: seq<byte>, at: nat, macs: Macs)
    requires macs == Macs(CARD, HOST) && at + 6 <= |p| && p[at + 5] == 0
    ensures !Ours(p, at, macs)
  {
  }

  lemma RequestSum(z: seq<byte>)
    requires |z| == 116
    requires forall i :: 0 <= i < 116 ==> z[i] == if i == 41 then 0 else if i == 75 then 2 else Request(i)
    ensures Folded(z, 34, 42) == 0xFFFF
  {
    hide Fold;
    assert WordSum(z, 34, 1) == 68;
    assert WordSum(z, 34, 2) == 68;
    assert WordSum(z, 34, 3) == 110;
    ZeroWords(z, 34, 3, 17);
    assert WordSum(z, 34, 21) == 112;
    assert PseudoHeader(z, 42) == 0xFFFF - 112;
    FoldOfAllOnes();
  }

  lemma FoldOfAllOnes()
    ensures Fold(0xFFFF) == 0xFFFF
  {
  }

  // ----- The program -----

  /** dofakemac. */
  method ExchangeInPlace(a: array<byte>, at: nat, macs: Macs) returns (hit: bool)
    requires macs.Valid() && at + 6 <= a.Length
    modifies a
    ensures a[..] == Exchange(old(a[..]), at, macs)
    ensures hit <==> macs.card == macs.host || Ours(old(a[..]), at, macs)
  {
    if macs.card == macs.host {
      return true;
    }
    if a[at..at + 6] == macs.card {
      CopyInto(a, at, macs.host);
      return true;
    }
    if a[at..at + 6] == macs.host {
      CopyInto(a, at, macs.card);
      return true;
    }
    return false;
  }

  method CopyInto(a: array<byte>, at: nat, v: seq<byte>)
    requires at + |v| <= a.Length
    modifies a
    ensures a[..] == Overwrite(old(a[..]), at, v)
  {
    for i := 0 to |v|
      invariant forall j :: 0 <= j < a.Length ==> a[j] == if at <= j < at + i then v[j - at] else old(a[j])
    {
      a[at + i] := v[i];
    }
  }

  /** The checksum part of mungepacket, for a datagram at u. */
  method RepairInPlace(a: array<byte>, u: nat)
    requires 34 <= a.Length && u + 8 <= a.Length && u + Word(a[..], u + 4) < a.Length
    modifies a
    ensures a[..] == Repaired(old(a[..]), u)
  {
    hide Fold, WordSum, PseudoHeader, Checksum;
    var n := Word(a[..], u + 4);
    a[u + 6] := 0;
    a[u + 7] := 0;
    a[u + n] := 0;
    assert a[..] == Cleared(old(a[..]), u);
    var sum := SumLoop(a, u, n);
    sum := sum + PseudoHeader(a[..], n);
    sum := FoldLoop(sum);
    StoreChecksum(a, u, sum);
  }

  method StoreChecksum(a: array<byte>, u: nat, folded: nat)
    requires u + 8 <= a.Length && folded < 0x1_0000
    modifies a
    ensures a[..] == old(a[..])[u + 6 := Checksum(folded) / 256][u + 7 := Checksum(folded) % 256]
  {
    var sum := 0xFFFF_FFFF - folded;
    if sum == 0 {
      sum := 0xFFFF;
    }
    a[u + 6] := sum / 256 % 256;
    a[u + 7] := sum % 256;
  }

  method SumLoop(a: array<byte>, u: nat, n: nat) returns (sum: nat)
    requires u + n < a.Length
    ensures sum == WordSum(a[..], u, (n + 1) / 2)
  {
    sum := 0;
    var i := 0;
    while i < (n + 1) / 2
      invariant i <= (n + 1) / 2 && sum == WordSum(a[..], u, i)
    {
      var high: int, low: int := a[u + 2 * i], a[u + 2 * i + 1];
      sum := sum + 256 * high + low;
      i := i + 1;
    }
  }

  method FoldLoop(s: nat) returns (f: nat)
    ensures f == Fold(s)
  {
    f := s;
    while 0x1_0000 <= f
      invariant Fold(f) == Fold(s)
      decreases f
    {
      f := f % 0x1_0000 + f / 0x1_0000;
    }
  }

  /** The 32-bit accumulator of the checksum never wraps. */
  lemma {:induction false} SumFitsWord(p: seq<byte>, u: nat, n: nat)
    requires 34 <= |p| && u + 2 * n <= |p| && n <= 0x8000
    ensures WordSum(p, u, n) <= 0xFFFF * n
    ensures WordSum(p, u, n) + PseudoHeader(p, 0xFFFF) < 0x1_0000_0000
  {
    if n > 0 {
      SumFitsWord(p, u, n - 1);
    }
  }

  /** mungepacket. */
  method MungeInPlace(a: array<byte>, len: int, enabled: bool, macs: Macs)
    requires macs.Valid()
    requires enabled && 20 <= len && macs.card != macs.host ==> Room(a[..])
    modifies a
    ensures a[..] == if enabled && 20 <= len && macs.card != macs.host then Munge(old(a[..]), macs) else old(a[..])
  {
    hide Exchange, Ours, Repaired;
    if !enabled || len < 20 || macs.card == macs.host {
      return;
    }
    var _ := ExchangeInPlace(a, 0, macs);
    var _ := ExchangeInPlace(a, 6, macs);
    ghost var e := a[..];
    assert e == Ends(old(a[..]), macs);
    SameBodySameRoom(old(a[..]), e);
    if Word(a[..], 12) == 0x0806 {
      if Word(a[..], 14) == 1 && a[18] == 6 {
        var _ := ExchangeInPlace(a, 22, macs);
        var _ := ExchangeInPlace(a, 32, macs);
      }
    } else if Word(a[..], 12) == 0x0800 {
      var u := UdpAt(a[..]);
      if a[23] == 17 {
        var rewritten := false;
        if DhcpPorts(a[..], u) {
          rewritten := ExchangeInPlace(a, u + 36, macs);
        }
        if rewritten && (a[u + 6] != 0 || a[u + 7] != 0) {
          RepairInPlace(a, u);
        }
      }
    }
  }
}
