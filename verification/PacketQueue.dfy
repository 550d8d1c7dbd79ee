/** The queue between the network worker and the emulation thread, and every interleaving over it. */
module PacketQueue {
  import opened Words

  const MAX_PACKET: nat := 4000
  function Next(i: nat): (j: nat) {
    (i + 1) % 256
  }

  /** Steps from slot i forward to slot j. */
  function Dist(i: nat, j: nat): (d: int) {
    if i <= j then j - i else j + 256 - i
  }

  /** The packet in slot i of the flat buffer. */
  function Slot(buf: seq<byte>, sizes: seq<nat>, i: nat): (p: seq<byte>)
    requires |buf| == 1024000 && |sizes| == 256 && i < 256 && sizes[i] <= 4000
  {
    buf[4000 * i..4000 * i + sizes[i]]
  }

  ghost predicate ValidSizes(sizes: seq<nat>) {
    |sizes| == 256 && forall i :: 0 <= i < 256 ==> sizes[i] <= 4000
  }

  /** The n packets from slot i on, in ring order. */
  ghost function From(buf: seq<byte>, sizes: seq<nat>, i: nat, n: nat): (s: seq<seq<byte>>)
    requires |buf| == 1024000 && ValidSizes(sizes) && i < 256
    ensures |s| == n
    decreases n
  {
    if n == 0 then [] else [Slot(buf, sizes, i)] + From(buf, sizes, Next(i), n - 1)
  }

  /** Writing a slot outside the run leaves the run alone. */
  lemma {:induction false} FromIgnores(buf: seq<byte>, sizes: seq<nat>, buf': seq<byte>, sizes': seq<nat>, i: nat, n: nat, w: nat)
    requires |buf| == 1024000 == |buf'| && ValidSizes(sizes) && ValidSizes(sizes')
    requires i < 256 && w < 256 && n <= Dist(i, w)
    requires forall j: nat :: j < 256 && j != w ==> Slot(buf', sizes', j) == Slot(buf, sizes, j)
    ensures From(buf', sizes', i, n) == From(buf, sizes, i, n)
    decreases n
  {
    hide Slot;
    if n > 0 {
      FromIgnores(buf, sizes, buf', sizes', Next(i), n - 1, w);
    }
  }

  lemma {:induction false} FromSnoc(buf: seq<byte>, sizes: seq<nat>, i: nat, n: nat, w: nat)
    requires |buf| == 1024000 && ValidSizes(sizes) && i < 256 && w < 256 && n == Dist(i, w)
    ensures From(buf, sizes, i, n + 1) == From(buf, sizes, i, n) + [Slot(buf, sizes, w)]
    decreases n
  {
    hide Slot;
    if n == 0 {
      assert From(buf, sizes, i, 1) == [Slot(buf, sizes, i)] + From(buf, sizes, Next(i), 0);
    } else {
      FromSnoc(buf, sizes, Next(i), n - 1, w);
    }
  }

  /** A ring of 256 packet slots; one stays free to tell a full ring from an empty one. */
  class Queue {
    const buffer: array<byte>
    const sizes: array<nat>
    var first: nat
    var free: nat

    ghost predicate Valid()
      reads this, buffer, sizes
    {
      buffer.Length == 1024000 && ValidSizes(sizes[..]) && first < 256 && free < 256
    }

    ghost function Contents(): (s: seq<seq<byte>>)
      requires Valid()
      reads this, buffer, sizes
      ensures |s| <= 255
    {
      From(buffer[..], sizes[..], first, Dist(first, free))
    }

    constructor ()
      ensures Valid() && Contents() == [] && fresh(buffer) && fresh(sizes)
    {
      buffer := new byte[1024000];
      sizes := new nat[256](_ => 0);
      first, free := 0, 0;
    }

    /** receive_queue_clear. */
    method Clear()
      requires Valid()
      modifies this
      ensures Valid() && Contents() == []
    {
      first, free := 0, 0;
    }

    /** The semaphore section of gotfunc: appends unless 255 packets are waiting. */
    method Push(packet: seq<byte>) returns (ok: bool)
      requires Valid() && 0 < |packet| <= MAX_PACKET
      modifies this, buffer, sizes
      ensures Valid() && ok == (|old(Contents())| < 255)
      ensures Contents() == if ok then old(Contents()) + [packet] else old(Contents())
    {
      hide Slot, From;
      if Next(free) == first {
        return false;
      }
      ghost var buf, szs, n := buffer[..], sizes[..], Dist(first, free);
      Store(free, packet);
      FromIgnores(buf, szs, buffer[..], sizes[..], first, n, free);
      FromSnoc(buffer[..], sizes[..], first, n, free);
      free := Next(free);
      return true;
    }

    method Store(slot: nat, packet: seq<byte>)
      requires Valid() && slot < 256 && 0 < |packet| <= MAX_PACKET
      modifies buffer, sizes
      ensures Valid() && Slot(buffer[..], sizes[..], slot) == packet
      ensures forall j: nat :: j < 256 && j != slot ==>
                Slot(buffer[..], sizes[..], j) == Slot(old(buffer[..]), old(sizes[..]), j)
    {
      for i := 0 to |packet|
        invariant sizes[..] == old(sizes[..])
        invariant forall k :: 0 <= k < buffer.Length ==>
                    buffer[k] == if 4000 * slot <= k < 4000 * slot + i then packet[k - 4000 * slot] else old(buffer[k])
      {
        buffer[4000 * slot + i] := packet[i];
      }
      sizes[slot] := |packet|;
      forall j: nat | j < 256 && j != slot
        ensures Slot(buffer[..], sizes[..], j) == Slot(old(buffer[..]), old(sizes[..]), j)
      {
        var a, b := Slot(buffer[..], sizes[..], j), Slot(old(buffer[..]), old(sizes[..]), j);
        assert forall k :: 0 <= k < |a| ==> a[k] == b[k];
      }
      assert Slot(buffer[..], sizes[..], slot) == packet;
    }

    /** receive_queue_peek_size: the size of the head, zero if there is none. */
    method PeekSize() returns (size: nat)
      requires Valid()
      ensures size == if Contents() == [] then 0 else |Contents()[0]|
    {
      size := 0;
      if first != free {
        size := sizes[first];
      }
    }

    /** receive_queue_pop: takes the head. */
    method Pop() returns (got: bool, packet: seq<byte>)
      requires Valid()
      modifies this
      ensures Valid() && got == (old(Contents()) != [])
      ensures if got then old(Contents()) == [packet] + Contents() else Contents() == old(Contents())
    {
      hide Slot;
      got, packet := false, [];
      if first != free {
        packet := buffer[4000 * first..4000 * first + sizes[first]];
        HeadIs(packet);
        first := Next(first);
        got := true;
      }
    }

    lemma HeadIs(packet: seq<byte>)
      requires Valid() && first != free && packet == buffer[4000 * first..4000 * first + sizes[first]]
      ensures packet == Slot(buffer[..], sizes[..], first)
    {
    }
  }
}
