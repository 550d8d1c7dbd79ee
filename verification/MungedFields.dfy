/**
 * Where the address translation puts its fingers: every byte of the frame it leaves, by place,
 * and the checksum test as RFC 768 and RFC 1071 state it.
 */
module MungedFields {
  import opened Words
  import opened MacMunge

  /** The other one of the two addresses; any other address stays. */
  function Other(a: seq<byte>, macs: Macs): (b: seq<byte>)
    requires macs.Valid() && |a| == 6
    ensures |b| == 6
  {
    if a == macs.card then macs.host else if a == macs.host then macs.card else a
  }

  /** EtherType 0x0806, hardware type 1, hardware addresses of six bytes. */
  predicate ArpFrame(p: seq<byte>)
    requires 116 <= |p|
  {
    p[12] == 0x08 && p[13] == 0x06 && p[14] == 0 && p[15] == 1 && p[18] == 6
  }

  /** EtherType 0x0800, protocol 17, and behind an IPv4 header of p[14] % 16 words a DHCP port. */
  predicate DhcpFrame(p: seq<byte>)
    requires 116 <= |p|
  {
    && p[12] == 0x08 && p[13] == 0x00 && p[23] == 17
    && (PortAt(p, Start(p)) in {67, 68} || PortAt(p, Start(p) + 2) in {67, 68})
  }

  function Start(p: seq<byte>): (u: nat)
    requires 116 <= |p|
    ensures u <= 74
  {
    var words: int := p[14] % 16;
    14 + 4 * words
  }

  function PortAt(p: seq<byte>, at: nat): (w: nat)
    requires at + 1 < |p|
  {
    var high: int, low: int := p[at], p[at + 1];
    256 * high + low
  }

  /** The message names one of the two addresses and carries a checksum. */
  predicate Resummed(p: seq<byte>, macs: Macs)
    requires 116 <= |p|
  {
    var u := Start(p);
    DhcpFrame(p) && (p[u + 36..u + 42] == macs.card || p[u + 36..u + 42] == macs.host) && (p[u + 6] != 0 || p[u + 7] != 0)
  }

  /** Byte i of the translated frame, but for the checksum. */
  function Translated(p: seq<byte>, macs: Macs, i: nat): (b: byte)
    requires macs.Valid() && 116 <= |p| && i < |p|
  {
    var u := Start(p);
    if i < 6 then Other(p[..6], macs)[i]
    else if i < 12 then Other(p[6..12], macs)[i - 6]
    else if ArpFrame(p) && 22 <= i < 28 then Other(p[22..28], macs)[i - 22]
    else if ArpFrame(p) && 32 <= i < 38 then Other(p[32..38], macs)[i - 32]
    else if DhcpFrame(p) && u + 36 <= i < u + 42 then Other(p[u + 36..u + 42], macs)[i - u - 36]
    else p[i]
  }

  lemma ExchangedByte(p: seq<byte>, at: nat, macs: Macs, i: nat)
    requires macs.Valid() && at + 6 <= |p| && i < |p|
    ensures Exchange(p, at, macs)[i] == if at <= i < at + 6 then Other(p[at..at + 6], macs)[i - at] else p[i]
  {
  }

  lemma EndsByte(p: seq<byte>, macs: Macs, i: nat)
    requires macs.Valid() && 12 <= |p| && i < |p|
    ensures Ends(p, macs)[i] == if i < 6 then Other(p[..6], macs)[i] else if i < 12 then Other(p[6..12], macs)[i - 6] else p[i]
  {
    hide Exchange, Other;
    var q := Exchange(p, 0, macs);
    ExchangedByte(p, 0, macs, i);
    ExchangedByte(q, 6, macs, i);
    assert q[6..12] == p[6..12];
  }

  lemma SameKinds(p: seq<byte>)
    requires Room(p)
    ensures IsArp(p) == ArpFrame(p) && UdpAt(p) == Start(p)
    ensures (IsUdp(p) && DhcpPorts(p, UdpAt(p))) == DhcpFrame(p)
  {
  }

  lemma BodyByte(p: seq<byte>, macs: Macs, i: nat)
    requires macs.Valid() && Room(p) && 12 <= i < |p|
    ensures var u := Start(p);
            !(Resummed(p, macs) && (i == u + 6 || i == u + 7 || i == u + PortAt(p, u + 4))) ==>
              Body(p, macs)[i] == Translated(p, macs, i)
  {
    hide Exchange, Other, Repaired, Ours, IsArp, IsUdp, DhcpPorts, UdpAt;
    SameKinds(p);
    var u := Start(p);
    if ArpFrame(p) {
      var q := Exchange(p, 22, macs);
      ExchangedByte(p, 22, macs, i);
      ExchangedByte(q, 32, macs, i);
      assert q[32..38] == p[32..38];
    } else if DhcpFrame(p) {
      var q := Exchange(p, u + 36, macs);
      ExchangedByte(p, u + 36, macs, i);
      RoomForClient(p);
      OursIs(p, u + 36, macs);
      if Resummed(p, macs) {
        RepairedElsewhere(q, u);
      }
    }
  }

  lemma RoomForClient(p: seq<byte>)
    requires Room(p) && DhcpFrame(p)
    ensures Start(p) + 42 <= |p| && Start(p) + PortAt(p, Start(p) + 4) < |p|
  {
  }

  lemma OursIs(p: seq<byte>, at: nat, macs: Macs)
    requires macs.Valid() && at + 6 <= |p|
    ensures Ours(p, at, macs) <==> p[at..at + 6] == macs.card || p[at..at + 6] == macs.host
  {
  }

  /**
   * The translated frame byte by byte: destination and source address always, sender and target
   * of an ARP message, the client address of a DHCP message, and no byte else but the checksum
   * and, when that is repaired, the byte after the datagram.
   */
  lemma MungedByte(p: seq<byte>, macs: Macs, i: nat)
    requires macs.Valid() && Room(p) && i < |p|
    ensures var u := Start(p);
            !(Resummed(p, macs) && (i == u + 6 || i == u + 7 || i == u + PortAt(p, u + 4))) ==>
              Munge(p, macs)[i] == Translated(p, macs, i)
  {
    hide Body, Ends, Other, DhcpFrame, ArpFrame;
    var e := Ends(p, macs);
    EndsByte(p, macs, i);
    SameBodySameRoom(p, e);
    BodyIsLocal(p, e, macs);
    SameMessage(p, e, macs);
    if 12 <= i {
      BodyByte(e, macs, i);
      SameTranslation(p, e, macs, i);
    }
  }

  lemma SameMessage(p: seq<byte>, q: seq<byte>, macs: Macs)
    requires 116 <= |p| && SameBody(p, q)
    ensures Start(q) == Start(p) && PortAt(q, Start(p) + 4) == PortAt(p, Start(p) + 4)
    ensures ArpFrame(q) == ArpFrame(p) && DhcpFrame(q) == DhcpFrame(p) && Resummed(q, macs) == Resummed(p, macs)
  {
    var u := Start(p);
    assert q[u + 36..u + 42] == p[u + 36..u + 42];
  }

  lemma SameTranslation(p: seq<byte>, q: seq<byte>, macs: Macs, i: nat)
    requires macs.Valid() && 116 <= |p| && SameBody(p, q) && 12 <= i < |p|
    ensures Translated(q, macs, i) == Translated(p, macs, i)
  {
    hide ArpFrame, DhcpFrame, Other;
    SameMessage(p, q, macs);
    var u := Start(p);
    assert q[22..28] == p[22..28] && q[32..38] == p[32..38] && q[u + 36..u + 42] == p[u + 36..u + 42];
  }

  /** The first k bytes of a datagram as the high and low bytes of words. */
  function Weighed(d: seq<byte>, k: nat): (s: nat)
    requires k <= |d|
  {
    if k == 0 then 0 else
      var b: int := d[k - 1];
      Weighed(d, k - 1) + (if k % 2 == 1 then 256 * b else b)
  }

  lemma {:induction false} WeighedSplits(d: seq<byte>, k: nat)
    requires 2 <= k <= |d|
    ensures Weighed(d, k) == Word(d, 0) + Weighed(d[2..], k - 2)
    decreases k
  {
    if k == 2 {
      assert Weighed(d, 1) == Weighed(d, 0) + 256 * (d[0] as int);
    } else {
      WeighedSplits(d, k - 1);
      assert d[2..][k - 3] == d[k - 1];
    }
  }

  lemma {:induction false} PaddedSumIs(d: seq<byte>)
    ensures PaddedSum(d) == Weighed(d, |d|)
    decreases |d|
  {
    if |d| == 1 {
      assert Weighed(d, 1) == Weighed(d, 0) + 256 * (d[0] as int);
    } else if 2 <= |d| {
      PaddedSumIs(d[2..]);
      WeighedSplits(d, |d|);
    }
  }

  /**
   * A checksum verifies exactly if the datagram, the two IPv4 addresses, the protocol and the
   * length add up to a multiple of 65535.
   */
  lemma VerifiesExactly(p: seq<byte>, u: nat, n: nat)
    requires 34 <= |p| && u + n <= |p|
    ensures Verifies(p, u, n) <==>
              (Weighed(p[u..u + n], n) + Weighed(p[26..34], 8) + 17 + n) % 0xFFFF == 0
  {
    hide Fold, PaddedSum;
    PaddedSumIs(p[u..u + n]);
    AddressesWeigh(p);
    var s := PseudoHeader(p, n) + PaddedSum(p[u..u + n]);
    var h := FoldKeepsResidue(s);
    if Fold(s) == 0xFFFF {
      assert s == 0xFFFF * (h + 1);
    } else {
      assert s % 0xFFFF == Fold(s) by {
        assert s == 0xFFFF * h + Fold(s) && Fold(s) < 0xFFFF;
      }
    }
  }

  lemma NextWord(d: seq<byte>, k: nat)
    requires k % 2 == 0 && k + 2 <= |d|
    ensures Weighed(d, k + 2) == Weighed(d, k) + Word(d, k)
  {
    assert Weighed(d, k + 1) == Weighed(d, k) + 256 * (d[k] as int);
  }

  lemma AddressesWeigh(p: seq<byte>)
    requires 34 <= |p|
    ensures PseudoHeader(p, 0) == Weighed(p[26..34], 8) + 17
  {
    var a := p[26..34];
    assert Weighed(a, 0) == 0;
    NextWord(a, 0);
    NextWord(a, 2);
    NextWord(a, 4);
    NextWord(a, 6);
  }
}
