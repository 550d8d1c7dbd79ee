/** The plain bit reader of the MP3 decoder and the bit string it reads. */
module BitStream {
  import opened Words

  /** Bit i of the buffer, most significant bit of each byte first. */
  function Bit(buf: seq<byte>, i: nat): (b: nat)
    requires i < 8 * |buf|
  {
    Shr(buf[i / 8], 7 - i % 8) % 2
  }

  /** The n bits from position pos on, read as one big-endian number. */
  function Value(buf: seq<byte>, pos: nat, n: nat): (v: nat)
    requires pos + n <= 8 * |buf|
  {
    if n == 0 then 0 else 2 * Value(buf, pos, n - 1) + Bit(buf, pos + n - 1)
  }

  lemma {:induction false} ValueFits(buf: seq<byte>, pos: nat, n: nat)
    requires pos + n <= 8 * |buf|
    ensures Fits(Value(buf, pos, n), n)
  {
    if n > 0 {
      ValueFits(buf, pos, n - 1);
    }
  }

  /** What a reader with this limit gets for n bits at a position: past the limit, 0. */
  function Field(buf: seq<byte>, limit: int, pos: nat, n: nat): (v: nat)
    requires limit <= 8 * |buf|
  {
    if pos + n <= limit then Value(buf, pos, n) else 0
  }

  /** Bit strings concatenate. */
  lemma {:induction false} ValueSplit(buf: seq<byte>, pos: nat, m: nat, n: nat)
    requires pos + m + n <= 8 * |buf|
    ensures Value(buf, pos, m + n) == Shl(Value(buf, pos, m), n) + Value(buf, pos + m, n)
    decreases n
  {
    if n > 0 {
      ValueSplit(buf, pos, m, n - 1);
    }
  }

  lemma {:induction false} ShrBound(b: nat, n: nat, m: nat)
    requires Fits(b, m + n)
    ensures Fits(Shr(b, n), m)
    decreases n
  {
    if n > 0 {
      ShrBound(b, n - 1, m + 1);
    }
  }

  lemma {:induction false} LeadingBits(buf: seq<byte>, j: nat, k: nat)
    requires j < |buf| && k <= 8
    ensures Value(buf, 8 * j, k) == Shr(buf[j], 8 - k)
  {
    if k == 0 {
      Pow2At32();
      ShrBound(buf[j], 8, 0);
    } else {
      LeadingBits(buf, j, k - 1);
    }
  }

  /** A whole byte of the buffer is the value of its eight bits. */
  lemma ByteValue(buf: seq<byte>, j: nat)
    requires j < |buf|
    ensures Value(buf, 8 * j, 8) == buf[j]
  {
    LeadingBits(buf, j, 8);
  }

  /** The low bits of a byte are its last bits in stream order. */
  lemma ByteTail(buf: seq<byte>, j: nat, s: nat)
    requires j < |buf| && s <= 8
    ensures Value(buf, 8 * j + s, 8 - s) == LowBits(buf[j], 8 - s)
  {
    ByteValue(buf, j);
    ValueSplit(buf, 8 * j, s, 8 - s);
    ValueFits(buf, 8 * j + s, 8 - s);
    LowPacked(Value(buf, 8 * j, s), 8 - s, Value(buf, 8 * j + s, 8 - s));
  }

  /** The leading m bits of an m + n bit value. */
  lemma ValuePrefix(buf: seq<byte>, pos: nat, m: nat, n: nat)
    requires pos + m + n <= 8 * |buf|
    ensures Shr(Value(buf, pos, m + n), n) == Value(buf, pos, m)
  {
    ValueSplit(buf, pos, m, n);
    ValueFits(buf, pos + m, n);
    ShrPacked(Value(buf, pos, m), n, Value(buf, pos + m, n));
  }

  /** A bit reader over a constant buffer; only the position moves. */
  class Reader {
    const buf: seq<byte>
    const limit: int
    var pos: nat

    predicate Valid() {
      limit <= 8 * |buf|
    }

    /** A reader over the first `bytes` bytes of the data; a negative count allows no read. */
    constructor (data: seq<byte>, bytes: int)
      requires bytes <= |data|
      ensures Valid() && buf == data && pos == 0 && limit == 8 * bytes
    {
      buf := data;
      limit := 8 * bytes;
      pos := 0;
    }

    /** Read n bits. The position always advances; past the limit the result is 0. */
    method GetBits(n: nat) returns (r: nat)
      requires Valid() && 1 <= n <= 32
      modifies this`pos
      ensures pos == old(pos) + n
      ensures r == Field(buf, limit, old(pos), n)
    {
      hide Value, Or, Shl, Shl32, Shr, LowBits;
      ghost var start := pos;
      var s := pos % 8;
      var shl: int := n + s;
      var p := pos / 8;
      pos := pos + n;
      if pos > limit {
        return 0;
      }
      var cache: nat := 0;
      var next: nat := LowBits(buf[p], 8 - s);
      p := p + 1;
      shl := shl - 8;
      ghost var done, width := 0, 8 - s;   // bits held by cache, bits held by next
      FirstByte(buf, start);
      while shl > 0
        invariant pos == start + n <= limit && shl == n - done - width && -width < shl
        invariant GetBitsState(buf, start, done, width, n, p, cache, next)
      {
        NextByte(buf, start, done, width, n, p, cache, next);
        cache := Or(cache, Shl32(next, shl));
        next := buf[p];
        p := p + 1;
        done, width := done + width, 8;
        shl := shl - 8;
      }
      LastByte(buf, start, done, width, -shl);
      return Or(cache, Shr(next, -shl));
    }
  }

  /**
   * What the loop of GetBits keeps: `cache` holds the first `done` bits at their final
   * weight, `next` the following `width` bits, which end where byte p starts.
   */
  ghost predicate GetBitsState(buf: seq<byte>, start: nat, done: int, width: int, n: nat,
                               p: nat, cache: nat, next: nat) {
    && 0 <= done < n <= 32 && 1 <= width <= 8
    && start + done + width == 8 * p <= 8 * |buf|
    && cache == Shl(Value(buf, start, done), n - done)
    && next == Value(buf, start + done, width)
  }

  lemma FirstByte(buf: seq<byte>, start: nat)
    requires start < 8 * |buf|
    ensures Value(buf, start, 8 - start % 8) == LowBits(buf[start / 8], 8 - start % 8)
    ensures forall n: nat :: Shl(Value(buf, start, 0), n) == 0
  {
    ByteTail(buf, start / 8, start % 8);
    forall n: nat ensures Shl(0, n) == 0 {
      ShlZero(n);
    }
  }

  lemma {:induction false} ShlZero(n: nat)
    ensures Shl(0, n) == 0
  {
    if n > 0 {
      ShlZero(n - 1);
    }
  }

  /** One loop step of GetBits: shifting the next byte in below the cached bits. */
  lemma NextByte(buf: seq<byte>, start: nat, done: nat, width: nat, n: nat,
                 p: nat, cache: nat, next: nat)
    requires GetBitsState(buf, start, done, width, n, p, cache, next)
    requires done + width < n && start + n <= 8 * |buf|
    ensures p < |buf|
    ensures GetBitsState(buf, start, done + width, 8, n, p + 1,
                         Or(cache, Shl32(next, n - done - width)), buf[p])
  {
    var shl := n - done - width;
    ValueFits(buf, start + done, width);
    Shl32Exact(next, width, shl);
    OrDisjoint(Value(buf, start, done), n - done, Shl(next, shl));
    ValueSplit(buf, start, done, width);
    ShlAdds(Shl(Value(buf, start, done), width), next, shl);
    ShlTwice(Value(buf, start, done), width, shl);
    ByteValue(buf, p);
  }

  /** The end of GetBits: only the leading width - drop bits of the last byte are wanted. */
  lemma LastByte(buf: seq<byte>, start: nat, done: nat, width: nat, drop: nat)
    requires drop <= width <= 8 && start + done + width <= 8 * |buf|
    ensures var cache := Shl(Value(buf, start, done), width - drop);
            var next := Value(buf, start + done, width);
            Or(cache, Shr(next, drop)) == Value(buf, start, done + width - drop)
  {
    hide Value, Shl, Shr, Or;
    var keep := width - drop;
    ValueSplit(buf, start, done, keep);
    ValueFits(buf, start + done, keep);
    OrDisjoint(Value(buf, start, done), keep, Value(buf, start + done, keep));
    ValuePrefix(buf, start + done, keep, drop);
  }
}
