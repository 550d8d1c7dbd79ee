/**
 * The 32-bit cached bit reader that the Huffman decoder uses instead of the plain one,
 * and the proof that it reads the same bits.
 */
module CachedReader {
  import opened Words
  import opened BitStream
  import opened Wrappers

  /** A cached reader: the next byte to fetch, the 32-bit cache and its shift. */
  datatype Cache = Cache(next: nat, word: nat, sh: int) {
    /** Position of the first unread bit in the stream (DRMP3_BSPOS). */
    function BsPos(): int {
      8 * next - 24 + sh
    }

    /** How many stream bits the cache holds. */
    function Available(): int {
      24 - sh
    }

    /**
     * The top 24 - sh bits of the word are the stream bits from BsPos on, and the rest
     * of the word is zero.
     */
    ghost predicate Valid(buf: seq<byte>) {
      InRange(buf) && Exact(buf)
    }

    ghost predicate InRange(buf: seq<byte>) {
      -8 <= sh <= 24 && next <= |buf| && 0 <= BsPos()
    }

    ghost predicate Exact(buf: seq<byte>)
      requires InRange(buf)
    {
      word == Shl(Value(buf, BsPos(), Available()), 8 + sh)
    }

    /** DRMP3_PEEK_BITS: the top n bits of the cache. */
    function Peek(n: nat): (v: nat)
      requires 1 <= n <= 32
    {
      Shr(word, 32 - n)
    }

    /** DRMP3_FLUSH_BITS. */
    function Flush(n: nat): (c: Cache) {
      Cache(next, Shl32(word, n), sh + n)
    }

    /** One round of the DRMP3_CHECK_BITS loop. */
    function Fetch(buf: seq<byte>): (c: Cache)
      requires next < |buf| && 0 <= sh
    {
      Cache(next + 1, Or(word, Shl32(buf[next], sh)), sh - 8)
    }
  }

  /** The top 32 bits of a word that holds `have` bits, below which all is zero. */
  lemma ShiftedPrefix(v: nat, n: nat, have: nat)
    requires n <= have <= 32
    ensures Shr(Shl(v, 32 - have), 32 - n) == Shr(v, have - n)
  {
    ShrShl(v, 32 - have, have - n);
  }

  lemma {:induction false} ShrShl(v: nat, m: nat, n: nat)
    ensures Shr(Shl(v, m), m + n) == Shr(v, n)
    decreases m
  {
    if m > 0 {
      ShrHalves(Shl(v, m), m + n - 1);
      ShrShl(v, m - 1, n);
    }
  }

  /** Peeking n of the held bits reads what the plain reader would return there. */
  lemma PeekReads(buf: seq<byte>, c: Cache, n: nat)
    requires c.Valid(buf) && 1 <= n <= c.Available()
    ensures c.Peek(n) == Value(buf, c.BsPos(), n)
  {
    var have := c.Available();
    ShiftedPrefix(Value(buf, c.BsPos(), have), n, have);
    ValuePrefix(buf, c.BsPos(), n, have - n);
  }

  /** Flushing held bits keeps the cache exact and moves the position by their number. */
  lemma FlushKeeps(buf: seq<byte>, c: Cache, n: nat)
    requires c.Valid(buf) && n <= c.Available()
    ensures c.Flush(n).Valid(buf)
    ensures c.Flush(n).BsPos() == c.BsPos() + n
    ensures c.Flush(n).Available() == c.Available() - n
  {
    hide Value, Shl, Shl32;
    var pos, rest := c.BsPos(), c.Available() - n;
    ValueSplit(buf, pos, n, rest);
    ValueFits(buf, pos + n, rest);
    DropTop(Value(buf, pos, n), Value(buf, pos + n, rest), n, rest, 8 + c.sh);
  }

  /** Shifting the top n bits out of a word leaves the bits below them. */
  lemma DropTop(head: nat, tail: nat, n: nat, rest: nat, pad: nat)
    requires n + rest + pad == 32 && Fits(tail, rest)
    ensures Shl32(Shl(Shl(head, rest) + tail, pad), n) == Shl(tail, pad + n)
  {
    hide Shl, Fits;
    ShlAdds(Shl(head, rest), tail, pad);
    ShlAdds(Shl(Shl(head, rest), pad), Shl(tail, pad), n);
    ShlTwice(tail, pad, n);
    assert Shl(Shl(Shl(head, rest), pad), n) == head * 0x1_0000_0000 by {
      ShlTwice(head, rest, pad);
      ShlTwice(head, rest + pad, n);
      WholeWord(head);
    }
    assert Shl(tail, pad + n) < 0x1_0000_0000 by {
      ShlFits(tail, rest, pad + n);
      Pow2At32();
    }
  }

  lemma WholeWord(x: nat)
    ensures Shl(x, 32) == x * 0x1_0000_0000
  {
    ShlTwice(x, 8, 8);
    ShlTwice(x, 16, 8);
    ShlTwice(x, 24, 8);
    ShlByte(x);
    ShlByte(Shl(x, 8));
    ShlByte(Shl(x, 16));
    ShlByte(Shl(x, 24));
  }

  lemma ShlByte(x: nat)
    ensures Shl(x, 8) == 256 * x
  {
    assert Shl(x, 2) == 2 * Shl(x, 1) == 4 * x;
    assert Shl(x, 4) == 2 * Shl(x, 3) == 16 * x;
    assert Shl(x, 6) == 2 * Shl(x, 5) == 64 * x;
    assert Shl(x, 8) == 2 * Shl(x, 7);
  }

  /** Fetching the next byte keeps the cache exact and does not move the position. */
  lemma FetchKeeps(buf: seq<byte>, c: Cache)
    requires c.Valid(buf) && c.next < |buf| && 0 <= c.sh
    ensures c.Fetch(buf).Valid(buf) && c.Fetch(buf).BsPos() == c.BsPos()
  {
    hide Value, Shl, Shl32, Or;
    var have, pos := c.Available(), c.BsPos();
    AddByte(Value(buf, pos, have), buf[c.next], c.sh);
    ByteValue(buf, c.next);
    assert pos + have == 8 * c.next;
    ValueSplit(buf, pos, have, 8);
  }

  lemma AddByte(v: nat, b: byte, sh: nat)
    requires sh <= 24
    ensures Or(Shl(v, 8 + sh), Shl32(b, sh)) == Shl(Shl(v, 8) + b, sh)
  {
    Pow2At32();
    Shl32Exact(b, 8, sh);
    OrDisjoint(v, 8 + sh, Shl(b, sh));
    ShlTwice(v, 8, sh);
    ShlAdds(Shl(v, 8), b, sh);
  }

  /** Any mix of the three reader operations. A refill is one run of DRMP3_CHECK_BITS. */
  datatype Op = PeekOp(n: nat) | FlushOp(n: nat) | RefillOp

  /** DRMP3_CHECK_BITS as a whole: fetch while the shift is not negative. */
  function Refill(buf: seq<byte>, c: Cache): (r: Cache)
    decreases if c.sh < 0 then 0 else c.sh + 1
  {
    if c.sh < 0 || |buf| <= c.next then c else Refill(buf, c.Fetch(buf))
  }

  lemma {:induction false} RefillKeeps(buf: seq<byte>, c: Cache)
    requires c.Valid(buf)
    ensures Refill(buf, c).Valid(buf) && Refill(buf, c).BsPos() == c.BsPos()
    ensures c.Available() <= Refill(buf, c).Available()
    ensures Refill(buf, c).next == |buf| || 25 <= Refill(buf, c).Available()
    decreases c.sh + 8
  {
    if 0 <= c.sh && c.next < |buf| {
      FetchKeeps(buf, c);
      RefillKeeps(buf, c.Fetch(buf));
    }
  }

  /** The values peeked by a script of operations on the cached reader. */
  function RunCached(buf: seq<byte>, c: Cache, ops: seq<Op>): (vs: seq<nat>)
    decreases ops
  {
    if ops == [] then [] else
      match ops[0]
      case PeekOp(n) => [if 1 <= n <= 32 then c.Peek(n) else 0] + RunCached(buf, c, ops[1..])
      case FlushOp(n) => RunCached(buf, c.Flush(n), ops[1..])
      case RefillOp => RunCached(buf, Refill(buf, c), ops[1..])
  }

  /** The same script on a bare stream position: a flush skips, a refill does nothing. */
  function RunPlain(buf: seq<byte>, pos: nat, ops: seq<Op>): (vs: seq<nat>)
    decreases ops
  {
    if ops == [] then [] else
      match ops[0]
      case PeekOp(n) => [if pos + n <= 8 * |buf| then Value(buf, pos, n) else 0] + RunPlain(buf, pos, ops[1..])
      case FlushOp(n) => RunPlain(buf, pos + n, ops[1..])
      case RefillOp => RunPlain(buf, pos, ops[1..])
  }

  /** No operation of the script asks for more bits than the cache holds at that point. */
  predicate InBudget(buf: seq<byte>, c: Cache, ops: seq<Op>)
    decreases ops
  {
    ops == [] ||
    match ops[0]
    case PeekOp(n) => 1 <= n <= c.Available() && InBudget(buf, c, ops[1..])
    case FlushOp(n) => n <= c.Available() && InBudget(buf, c.Flush(n), ops[1..])
    case RefillOp => InBudget(buf, Refill(buf, c), ops[1..])
  }

  /** Under every interleaving of peeks, flushes and refills both readers see the same bits. */
  lemma {:induction false} CachedRefinesPlain(buf: seq<byte>, c: Cache, ops: seq<Op>)
    requires c.Valid(buf) && InBudget(buf, c, ops)
    ensures RunCached(buf, c, ops) == RunPlain(buf, c.BsPos(), ops)
    decreases ops
  {
    if ops != [] {
      match ops[0]
      case PeekOp(n) =>
        PeekReads(buf, c, n);
        CachedRefinesPlain(buf, c, ops[1..]);
      case FlushOp(n) =>
        FlushKeeps(buf, c, n);
        CachedRefinesPlain(buf, c.Flush(n), ops[1..]);
      case RefillOp =>
        RefillKeeps(buf, c);
        CachedRefinesPlain(buf, Refill(buf, c), ops[1..]);
    }
  }

  /** Four bytes as one big-endian word. */
  function BigEndian(buf: seq<byte>, p: nat): (word: nat)
    requires p + 4 <= |buf|
  {
    var b0: int, b1: int, b2: int, b3: int := buf[p], buf[p + 1], buf[p + 2], buf[p + 3];
    ((b0 * 256 + b1) * 256 + b2) * 256 + b3
  }

  lemma LoadIsValid(buf: seq<byte>, pos: nat)
    requires pos / 8 + 4 <= |buf|
    ensures var c := Cache(pos / 8 + 4, Shl32(BigEndian(buf, pos / 8), pos % 8), pos % 8 - 8);
            c.Valid(buf) && c.BsPos() == pos
  {
    var p := pos / 8;
    assert Value(buf, 8 * p, 32) == BigEndian(buf, p) by {
      ByteValue(buf, p);
      AppendByte(buf, p, 1);
      AppendByte(buf, p, 2);
      AppendByte(buf, p, 3);
    }
    FlushKeeps(buf, Cache(p + 4, BigEndian(buf, p), -8), pos % 8);
  }

  lemma AppendByte(buf: seq<byte>, p: nat, n: nat)
    requires p + n < |buf|
    ensures Value(buf, 8 * p, 8 * n + 8) == 256 * Value(buf, 8 * p, 8 * n) + buf[p + n]
  {
    ValueSplit(buf, 8 * p, 8 * n, 8);
    ByteValue(buf, p + n);
    ShlByte(Value(buf, 8 * p, 8 * n));
  }

  /** The result of a code lookup: the leaf, the position after it, and the end of the last peek. */
  datatype Lookup = Lookup(leaf: int, pos: nat, peeked: nat)

  /**
   * Code table lookup on the plain bit string: peek w bits, follow the link of a negative
   * entry, stop at a leaf whose upper bits say how many of the peeked bits it uses.
   * None when the table leads outside itself or the stream ends.
   */
  function LookupAt(codebook: seq<int>, buf: seq<byte>, pos: nat, w: nat, base: int): (r: Option<Lookup>)
    decreases 8 * |buf| - pos
  {
    if w == 0 || 8 * |buf| < pos + w then None else
    var index := Value(buf, pos, w) - base;
    if !(0 <= index < |codebook|) then None else
    var leaf := codebook[index];
    if 0 <= leaf then
      if leaf / 256 <= w then Some(Lookup(leaf, pos + leaf / 256, pos + w)) else None
    else LookupAt(codebook, buf, pos + w, leaf % 8, leaf / 8)
  }

  lemma {:induction false} LookupMovesForward(codebook: seq<int>, buf: seq<byte>, pos: nat, w: nat, base: int)
    requires LookupAt(codebook, buf, pos, w, base).Some?
    ensures pos + w <= LookupAt(codebook, buf, pos, w, base).value.peeked
    decreases 8 * |buf| - pos
  {
    var leaf := codebook[Value(buf, pos, w) - base];
    if leaf < 0 {
      LookupMovesForward(codebook, buf, pos + w, leaf % 8, leaf / 8);
    }
  }

  /** The bit cache the Huffman decoder keeps in local variables. */
  class BitCache {
    const buf: seq<byte>
    var next: nat
    var word: nat
    var sh: int

    function View(): (c: Cache)
      reads this
    {
      Cache(next, word, sh)
    }

    /** Load four bytes at a bit position. */
    constructor (data: seq<byte>, pos: nat)
      requires pos / 8 + 4 <= |data|
      ensures buf == data && View().Valid(buf) && View().BsPos() == pos
    {
      buf := data;
      next := pos / 8 + 4;
      word := Shl32(BigEndian(data, pos / 8), pos % 8);
      sh := pos % 8 - 8;
      LoadIsValid(data, pos);
    }

    /** A peek returns what the plain reader's GetBits would return at this position. */
    method PeekBits(n: nat) returns (v: nat)
      requires View().Valid(buf) && 1 <= n <= View().Available()
      ensures v == Value(buf, View().BsPos(), n)
    {
      PeekReads(buf, View(), n);
      return Shr(word, 32 - n);
    }

    method FlushBits(n: nat)
      requires View().Valid(buf) && n <= View().Available()
      modifies this
      ensures View().Valid(buf) && View().BsPos() == old(View().BsPos()) + n
      ensures View().Available() == old(View().Available()) - n
    {
      FlushKeeps(buf, View(), n);
      word := Shl32(word, n);
      sh := sh + n;
    }

    /** Refill to at least 25 bits. The bytes it takes must be there. */
    method CheckBits()
      requires View().Valid(buf) && 8 * next + sh < 8 * |buf|
      modifies this
      ensures View().Valid(buf) && View().BsPos() == old(View().BsPos())
      ensures 25 <= View().Available()
    {
      while sh >= 0
        invariant View().Valid(buf) && View().BsPos() == old(View().BsPos())
        invariant 8 * next + sh < 8 * |buf|
        decreases sh + 8
      {
        FetchKeeps(buf, View());
        word := Or(word, Shl32(buf[next], sh));
        next := next + 1;
        sh := sh - 8;
      }
    }

    /** Decode one code word: the leaf and the new position are those of the plain lookup. */
    method DecodeLeaf(codebook: seq<int>) returns (leaf: int)
      requires View().Valid(buf)
      requires LookupAt(codebook, buf, View().BsPos(), 5, 0).Some?
      requires LookupAt(codebook, buf, View().BsPos(), 5, 0).value.peeked <= View().BsPos() + View().Available()
      modifies this
      ensures View().Valid(buf)
      ensures Some(Lookup(leaf, View().BsPos(), LookupAt(codebook, buf, old(View().BsPos()), 5, 0).value.peeked))
           == LookupAt(codebook, buf, old(View().BsPos()), 5, 0)
    {
      hide Cache.Exact, Value;
      ghost var goal := LookupAt(codebook, buf, View().BsPos(), 5, 0);
      LookupMovesForward(codebook, buf, View().BsPos(), 5, 0);
      var w, base := 5, 0;
      var peek := PeekBits(w);
      leaf := codebook[peek];
      while leaf < 0
        invariant View().Valid(buf) && 1 <= w <= View().Available()
        invariant LookupAt(codebook, buf, View().BsPos(), w, base) == goal
        invariant 0 <= Value(buf, View().BsPos(), w) - base < |codebook|
        invariant leaf == codebook[Value(buf, View().BsPos(), w) - base]
        invariant goal.value.peeked <= View().BsPos() + View().Available()
        decreases View().Available()
      {
        FlushBits(w);
        w, base := leaf % 8, leaf / 8;
        LookupMovesForward(codebook, buf, View().BsPos(), w, base);
        peek := PeekBits(w);
        leaf := codebook[peek - base];
      }
      FlushBits(leaf / 256);
    }
  }
}
