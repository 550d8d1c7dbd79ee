/**
 * A writer of Layer III frames (ISO/IEC 11172-3, section 2.4.1.7, and ISO/IEC 13818-3), defined
 * on its own, and the round trip: the parser gives back what was written.
 */
module SideInfoWriter {
  import opened BitStream
  import opened Decoder
  import opened FrameHeader
  import opened Reservoir
  import opened SideInfo
  import opened Words
  import opened Wrappers

  // ----- Bits -----

  /** Bits read as a big-endian number. */
  function Number(b: seq<bool>): (v: nat)
    ensures v < Pow2(|b|)
  {
    if b == [] then 0 else 2 * Number(b[..|b| - 1]) + (if b[|b| - 1] then 1 else 0)
  }

  /** The n low bits of a number, most significant first. */
  function Digits(v: nat, n: nat): (b: seq<bool>)
    ensures |b| == n
  {
    if n == 0 then [] else Digits(v / 2, n - 1) + [v % 2 == 1]
  }

  lemma {:induction false} NumberOfDigits(v: nat, n: nat)
    requires v < Pow2(n)
    ensures Number(Digits(v, n)) == v
  {
    if n > 0 {
      NumberOfDigits(v / 2, n - 1);
      assert Digits(v, n)[..n - 1] == Digits(v / 2, n - 1);
    }
  }

  /** Eight bits to a byte. */
  function Pack(b: seq<bool>): (s: seq<byte>)
    requires |b| % 8 == 0
    ensures |s| == |b| / 8
  {
    seq(|b| / 8, j requires 0 <= j < |b| / 8 => PackByte(b[8 * j..8 * j + 8]))
  }

  function PackByte(b: seq<bool>): (v: byte)
    requires |b| == 8
  {
    assert Pow2(8) == 256 by { assert Pow2(4) == 16; }
    Number(b)
  }

  lemma {:induction false} NumberPrefix(b: seq<bool>, k: nat)
    requires k <= |b|
    ensures Shr(Number(b), k) == Number(b[..|b| - k])
  {
    if k == 0 {
      assert b[..|b|] == b;
    } else {
      NumberPrefix(b, k - 1);
      var c := b[..|b| - k + 1];
      assert c[..|c| - 1] == b[..|b| - k];
    }
  }

  lemma PackedBit(b: seq<bool>, tail: seq<byte>, i: nat)
    requires |b| % 8 == 0 && i < |b|
    ensures Bit(Pack(b) + tail, i) == if b[i] then 1 else 0
  {
    hide Shr, Number;
    var j, k := i / 8, i % 8;
    var eight := b[8 * j..8 * j + 8];
    NumberPrefix(eight, 7 - k);
    LastDigit(eight[..k + 1]);
    assert eight[k] == b[i];
  }

  lemma LastDigit(b: seq<bool>)
    requires b != []
    ensures Number(b) % 2 == if b[|b| - 1] then 1 else 0
  {
    hide Pow2, Shl, Number;
    var m := Number(b[..|b| - 1]);
    NumberStep(b);
    LastOfTwice(m, if b[|b| - 1] then 1 else 0);
  }

  lemma NumberStep(b: seq<bool>)
    requires b != []
    ensures Number(b) == 2 * Number(b[..|b| - 1]) + if b[|b| - 1] then 1 else 0
  {
  }

  lemma LastOfTwice(m: nat, d: nat)
    requires d < 2
    ensures (2 * m + d) % 2 == d
  {
  }

  lemma {:induction false} PackedValue(b: seq<bool>, tail: seq<byte>, pos: nat, n: nat)
    requires |b| % 8 == 0 && pos + n <= |b|
    ensures Value(Pack(b) + tail, pos, n) == Number(b[pos..pos + n])
  {
    hide Bit, Pack;
    if n > 0 {
      PackedValue(b, tail, pos, n - 1);
      PackedBit(b, tail, pos + n - 1);
      assert b[pos..pos + n][..n - 1] == b[pos..pos + n - 1];
    }
  }

  // ----- Fields -----

  datatype Entry = Entry(value: nat, width: nat)

  function Emit(es: seq<Entry>): (b: seq<bool>)
    ensures |b| == Width(es)
  {
    if es == [] then [] else Digits(es[0].value, es[0].width) + Emit(es[1..])
  }

  function Width(es: seq<Entry>): (n: nat) {
    if es == [] then 0 else es[0].width + Width(es[1..])
  }

  predicate InRange(es: seq<Entry>) {
    forall i :: 0 <= i < |es| ==> es[i].value < Pow2(es[i].width)
  }

  /** The body has these fields one after the other from a bit position on. */
  ghost predicate Has(body: seq<byte>, pos: nat, es: seq<Entry>)
    decreases |es|
  {
    es == [] ||
    (&& pos + es[0].width <= 8 * |body| && Value(body, pos, es[0].width) == es[0].value
     && Has(body, pos + es[0].width, es[1..]))
  }

  lemma {:induction false} EmittedIsThere(b: seq<bool>, tail: seq<byte>, pos: nat, es: seq<Entry>)
    requires |b| % 8 == 0 && InRange(es) && pos + Width(es) <= |b| && b[pos..pos + Width(es)] == Emit(es)
    ensures Has(Pack(b) + tail, pos, es)
    decreases |es|
  {
    hide Pack, Number, Digits;
    if es != [] {
      var w := es[0].width;
      var emitted := Emit(es);
      assert b[pos..pos + w] == emitted[..w] == Digits(es[0].value, w);
      assert b[pos + w..pos + w + Width(es[1..])] == emitted[w..] == Emit(es[1..]);
      PackedValue(b, tail, pos, w);
      NumberOfDigits(es[0].value, w);
      EmittedIsThere(b, tail, pos + w, es[1..]);
    }
  }

  lemma {:induction false} WidthAppends(a: seq<Entry>, b: seq<Entry>)
    ensures Width(a + b) == Width(a) + Width(b)
  {
    if a == [] {
      assert a + b == b;
    } else {
      assert (a + b)[1..] == a[1..] + b;
      WidthAppends(a[1..], b);
    }
  }

  lemma {:induction false} HasSplits(body: seq<byte>, pos: nat, a: seq<Entry>, b: seq<Entry>)
    requires Has(body, pos, a + b)
    ensures Has(body, pos, a) && Has(body, pos + Width(a), b)
    decreases |a|
  {
    if a == [] {
      assert a + b == b;
    } else {
      assert (a + b)[1..] == a[1..] + b;
      HasSplits(body, pos + a[0].width, a[1..], b);
    }
  }

  /** The first field, and where the others start. */
  lemma FirstField(body: seq<byte>, pos: nat, e: Entry, es: seq<Entry>)
    requires Has(body, pos, [e] + es)
    ensures Field(body, 8 * |body|, pos, e.width) == e.value && Has(body, pos + e.width, es)
    ensures pos + e.width <= 8 * |body|
  {
    assert ([e] + es)[1..] == es;
  }

  // ----- Records -----

  /** The window part of a record: an ordinary block, or one with window switching. */
  datatype Shape =
    | Long(tables: nat, region0: nat, region1: nat)
    | Switched(blockType: nat, mixed: nat, tables: nat, gain0: nat, gain1: nat, gain2: nat)

  /** What an encoder says about one granule of one channel; preflag is written in MPEG-1 only. */
  datatype Record = Record(
    part23Length: nat, bigValues: nat, globalGain: nat, scalefac: nat, shape: Shape,
    preflag: nat, scale: nat, count1: nat)

  function ShapeEntries(s: Shape): (es: seq<Entry>) {
    match s
    case Long(tables, region0, region1) => [Entry(0, 1), Entry(tables, 15), Entry(region0, 4), Entry(region1, 3)]
    case Switched(blockType, mixed, tables, gain0, gain1, gain2) =>
      [Entry(1, 1), Entry(blockType, 2), Entry(mixed, 1), Entry(tables, 10), Entry(gain0, 3), Entry(gain1, 3), Entry(gain2, 3)]
  }

  function LeadEntries(r: Record, mpeg1: bool): (es: seq<Entry>) {
    [Entry(r.part23Length, 12), Entry(r.bigValues, 9), Entry(r.globalGain, 8), Entry(r.scalefac, if mpeg1 then 4 else 9)]
  }

  function TailEntries(r: Record, mpeg1: bool): (es: seq<Entry>) {
    (if mpeg1 then [Entry(r.preflag, 1)] else []) + [Entry(r.scale, 1), Entry(r.count1, 1)]
  }

  function RecordEntries(r: Record, mpeg1: bool): (es: seq<Entry>) {
    LeadEntries(r, mpeg1) + (ShapeEntries(r.shape) + TailEntries(r, mpeg1))
  }

  /** At most 288 pairs of big values, and no switch to the ordinary block type. */
  predicate Allowed(r: Record) {
    r.bigValues <= 288 && (r.shape.Switched? ==> r.shape.blockType != 0)
  }

  ghost predicate AllAllowed(rs: seq<Record>) {
    forall r :: r in rs ==> Allowed(r)
  }

  /** The decoder's view of a record. */
  function Understood(r: Record, mpeg1: bool): (g: Granule) {
    Granule(r.part23Length, r.bigValues, r.globalGain, r.scalefac,
      match r.shape
      case Long(tables, region0, region1) => Window(0, 0, tables, [], [region0, region1, 255])
      case Switched(blockType, mixed, tables, gain0, gain1, gain2) =>
        Window(blockType, mixed, 32 * tables, [gain0, gain1, gain2], [if blockType == 2 && mixed == 0 then 8 else 7, 255]),
      if mpeg1 then r.preflag else if 500 <= r.scalefac then 1 else 0,
      r.scale, r.count1)
  }

  lemma LeadIs(body: seq<byte>, pos: nat, r: Record, mpeg1: bool, rest: seq<Entry>)
    requires Has(body, pos, LeadEntries(r, mpeg1) + rest)
    ensures var n, limit := if mpeg1 then 4 else 9, 8 * |body|;
            && Field(body, limit, pos, 12) == r.part23Length && Field(body, limit, pos + 12, 9) == r.bigValues
            && Field(body, limit, pos + 21, 8) == r.globalGain && Field(body, limit, pos + 29, n) == r.scalefac
            && Has(body, pos + 29 + n, rest)
  {
    hide Has, Field;
    var n := if mpeg1 then 4 else 9;
    var d := [Entry(r.scalefac, n)] + rest;
    var c := [Entry(r.globalGain, 8)] + d;
    var b := [Entry(r.bigValues, 9)] + c;
    assert LeadEntries(r, mpeg1) + rest == [Entry(r.part23Length, 12)] + b;
    FirstField(body, pos, Entry(r.part23Length, 12), b);
    FirstField(body, pos + 12, Entry(r.bigValues, 9), c);
    FirstField(body, pos + 21, Entry(r.globalGain, 8), d);
    FirstField(body, pos + 29, Entry(r.scalefac, n), rest);
  }

  lemma ShapeIs(body: seq<byte>, pos: nat, r: Record, mpeg1: bool, rest: seq<Entry>)
    requires Has(body, pos, ShapeEntries(r.shape) + rest)
    ensures var limit := 8 * |body|;
            && (Field(body, limit, pos, 1) != 0 <==> r.shape.Switched?)
            && WindowAt(body, limit, pos + 1, r.shape.Switched?) == Understood(r, mpeg1).window
            && (r.shape.Switched? ==> Field(body, limit, pos + 1, 2) == r.shape.blockType)
            && Has(body, pos + 23, rest)
  {
    hide Has, Field;
    match r.shape
    case Long(tables, region0, region1) =>
      var c := [Entry(region1, 3)] + rest;
      var b := [Entry(region0, 4)] + c;
      var a := [Entry(tables, 15)] + b;
      assert ShapeEntries(r.shape) + rest == [Entry(0, 1)] + a;
      FirstField(body, pos, Entry(0, 1), a);
      FirstField(body, pos + 1, Entry(tables, 15), b);
      FirstField(body, pos + 16, Entry(region0, 4), c);
      FirstField(body, pos + 20, Entry(region1, 3), rest);
    case Switched(blockType, mixed, tables, gain0, gain1, gain2) =>
      var f := [Entry(gain2, 3)] + rest;
      var e := [Entry(gain1, 3)] + f;
      var d := [Entry(gain0, 3)] + e;
      var c := [Entry(tables, 10)] + d;
      var b := [Entry(mixed, 1)] + c;
      var a := [Entry(blockType, 2)] + b;
      assert ShapeEntries(r.shape) + rest == [Entry(1, 1)] + a;
      FirstField(body, pos, Entry(1, 1), a);
      FirstField(body, pos + 1, Entry(blockType, 2), b);
      FirstField(body, pos + 3, Entry(mixed, 1), c);
      FirstField(body, pos + 4, Entry(tables, 10), d);
      FirstField(body, pos + 14, Entry(gain0, 3), e);
      FirstField(body, pos + 17, Entry(gain1, 3), f);
      FirstField(body, pos + 20, Entry(gain2, 3), rest);
  }

  lemma TailIs(body: seq<byte>, pos: nat, r: Record, mpeg1: bool)
    requires Has(body, pos, TailEntries(r, mpeg1))
    ensures var limit, k := 8 * |body|, if mpeg1 then 1 else 0;
            && (mpeg1 ==> Field(body, limit, pos, 1) == r.preflag)
            && Field(body, limit, pos + k, 1) == r.scale && Field(body, limit, pos + k + 1, 1) == r.count1
  {
    hide Has, Field;
    var a, b := [Entry(r.scale, 1), Entry(r.count1, 1)], [Entry(r.count1, 1)];
    assert a == [Entry(r.scale, 1)] + b && b == [Entry(r.count1, 1)] + [];
    var k := if mpeg1 then 1 else 0;
    if mpeg1 {
      assert TailEntries(r, mpeg1) == [Entry(r.preflag, 1)] + a;
      FirstField(body, pos, Entry(r.preflag, 1), a);
    } else {
      assert TailEntries(r, mpeg1) == a;
    }
    FirstField(body, pos + k, Entry(r.scale, 1), b);
    FirstField(body, pos + k + 1, Entry(r.count1, 1), []);
  }

  /** A written record is refused exactly if it is not allowed, and otherwise understood. */
  lemma RecordIs(body: seq<byte>, pos: nat, r: Record, h: Header)
    requires Has(body, pos, RecordEntries(r, (h.b1 / 8) % 2 == 1))
    ensures Refused(body, 8 * |body|, pos, h) <==> !Allowed(r)
    ensures GranuleAt(body, 8 * |body|, pos, h) == Understood(r, (h.b1 / 8) % 2 == 1)
  {
    hide Has, Field, WindowAt, LeadEntries, ShapeEntries, TailEntries;
    var mpeg1 := (h.b1 / 8) % 2 == 1;
    LeadIs(body, pos, r, mpeg1, ShapeEntries(r.shape) + TailEntries(r, mpeg1));
    var next := pos + 29 + if mpeg1 then 4 else 9;
    ShapeIs(body, next, r, mpeg1, TailEntries(r, mpeg1));
    TailIs(body, next + 23, r, mpeg1);
  }

  // ----- Frames -----

  function AllEntries(rs: seq<Record>, mpeg1: bool): (es: seq<Entry>) {
    if rs == [] then [] else AllEntries(rs[..|rs| - 1], mpeg1) + RecordEntries(rs[|rs| - 1], mpeg1)
  }

  function PartTotal(rs: seq<Record>): (n: nat) {
    if rs == [] then 0 else PartTotal(rs[..|rs| - 1]) + rs[|rs| - 1].part23Length
  }

  /** The fields of a frame body: checksum, reservoir pointer, private and scfsi bits, records. */
  function FrameEntries(crc: seq<Entry>, mpeg1: bool, mono: bool, begin: nat, extra: nat, rs: seq<Record>): (es: seq<Entry>) {
    crc + ([Entry(begin, if mpeg1 then 9 else 8),
            Entry(extra, if mpeg1 then if mono then 9 else 11 else if mono then 1 else 2)] + AllEntries(rs, mpeg1))
  }

  lemma {:induction false} RecordWidth(r: Record, mpeg1: bool)
    ensures Width(RecordEntries(r, mpeg1)) == if mpeg1 then 59 else 63
  {
    WidthAppends(LeadEntries(r, mpeg1), ShapeEntries(r.shape) + TailEntries(r, mpeg1));
    WidthAppends(ShapeEntries(r.shape), TailEntries(r, mpeg1));
    LeadWidth(r, mpeg1);
    ShapeWidth(r.shape);
    TailWidth(r, mpeg1);
  }

  lemma LeadWidth(r: Record, mpeg1: bool)
    ensures Width(LeadEntries(r, mpeg1)) == if mpeg1 then 33 else 38
  {
    var es := LeadEntries(r, mpeg1);
    assert Width(es[3..]) == if mpeg1 then 4 else 9;
    assert Width(es[2..]) == es[2].width + Width(es[3..]);
    assert Width(es[1..]) == es[1].width + Width(es[2..]);
  }

  lemma ShapeWidth(s: Shape)
    ensures Width(ShapeEntries(s)) == 23
  {
    var es := ShapeEntries(s);
    if s.Switched? {
      assert Width(es[6..]) == 3;
      assert Width(es[5..]) == es[5].width + Width(es[6..]);
      assert Width(es[4..]) == es[4].width + Width(es[5..]);
    }
    assert Width(es[3..]) == es[3].width + Width(es[4..]);
    assert Width(es[2..]) == es[2].width + Width(es[3..]);
    assert Width(es[1..]) == es[1].width + Width(es[2..]);
  }

  lemma TailWidth(r: Record, mpeg1: bool)
    ensures Width(TailEntries(r, mpeg1)) == if mpeg1 then 3 else 2
  {
    var es := TailEntries(r, mpeg1);
    if mpeg1 {
      assert Width(es[2..]) == 1;
    }
    assert Width(es[1..]) == es[1].width + Width(es[2..]);
  }

  lemma {:induction false} AllWidth(rs: seq<Record>, mpeg1: bool)
    ensures Width(AllEntries(rs, mpeg1)) == |rs| * if mpeg1 then 59 else 63
  {
    hide Width, RecordEntries;
    if rs != [] {
      var most := rs[..|rs| - 1];
      AllWidth(most, mpeg1);
      RecordWidth(rs[|rs| - 1], mpeg1);
      WidthAppends(AllEntries(most, mpeg1), RecordEntries(rs[|rs| - 1], mpeg1));
    } else {
      NoWidth();
    }
  }

  lemma NoWidth()
    ensures Width([]) == 0
  {
  }

  /** Written records are found one after the other. */
  lemma {:induction false} RecordsAre(body: seq<byte>, pos: nat, rs: seq<Record>, h: Header)
    requires Has(body, pos, AllEntries(rs, (h.b1 / 8) % 2 == 1))
    ensures var grs := Granules(body, 8 * |body|, pos, h, |rs|);
            && |grs| == |rs|
            && (forall k :: 0 <= k < |rs| ==> grs[k] == Understood(rs[k], (h.b1 / 8) % 2 == 1))
    ensures SomeRefused(body, 8 * |body|, pos, h, |rs|) <==> !AllAllowed(rs)
    ensures RecordPos(pos, h, |rs|) == pos + Width(AllEntries(rs, (h.b1 / 8) % 2 == 1))
  {
    hide Has, GranuleAt, Refused, SomeRefused, RecordEntries, Understood, Allowed, AllAllowed, Width;
    var mpeg1 := (h.b1 / 8) % 2 == 1;
    NoWidth();
    if rs == [] {
      NoneRefused(body, 8 * |body|, pos, h);
    } else {
      var n, most, last := |rs| - 1, rs[..|rs| - 1], rs[|rs| - 1];
      HasSplits(body, pos, AllEntries(most, mpeg1), RecordEntries(last, mpeg1));
      RecordsAre(body, pos, most, h);
      RecordIs(body, pos + Width(AllEntries(most, mpeg1)), last, h);
      WidthAppends(AllEntries(most, mpeg1), RecordEntries(last, mpeg1));
      RecordWidth(last, mpeg1);
      var limit := 8 * |body|;
      var grs := Granules(body, limit, pos, h, |rs|);
      assert grs[..n] == Granules(body, limit, pos, h, n);
      RefusedStep(body, limit, pos, h, n);
      AllowedStep(rs);
    }
  }

  lemma {:induction false} SameParts(grs: seq<Granule>, rs: seq<Record>, mpeg1: bool)
    requires |grs| == |rs| && forall k :: 0 <= k < |rs| ==> grs[k] == Understood(rs[k], mpeg1)
    ensures PartSum(grs) == PartTotal(rs)
  {
    if rs != [] {
      SameParts(grs[..|grs| - 1], rs[..|rs| - 1], mpeg1);
      assert grs[|grs| - 1] == Understood(rs[|rs| - 1], mpeg1);
    }
  }

  lemma NoneRefused(body: seq<byte>, limit: int, pos: nat, h: Header)
    requires limit <= 8 * |body|
    ensures !SomeRefused(body, limit, pos, h, 0) && AllAllowed([])
  {
  }

  lemma RefusedStep(body: seq<byte>, limit: int, pos: nat, h: Header, n: nat)
    requires limit <= 8 * |body|
    ensures SomeRefused(body, limit, pos, h, n + 1)
       <==> SomeRefused(body, limit, pos, h, n) || Refused(body, limit, RecordPos(pos, h, n), h)
  {
    hide Refused, RecordPos;
  }

  lemma AllowedStep(rs: seq<Record>)
    requires rs != []
    ensures AllAllowed(rs) <==> AllAllowed(rs[..|rs| - 1]) && Allowed(rs[|rs| - 1])
  {
    hide Allowed;
    assert rs == rs[..|rs| - 1] + [rs[|rs| - 1]];
  }

  /** Checksum and side information of a frame, whole bytes. */
  function SideBits(crc: seq<Entry>, mpeg1: bool, mono: bool, begin: nat, extra: nat, rs: seq<Record>): (b: seq<bool>)
    requires crc == [] || (|crc| == 1 && crc[0].width == 16)
    requires |rs| == (if mono then 1 else 2) * (if mpeg1 then 2 else 1)
    ensures |b| == 8 * ((if crc == [] then 0 else 2)
                        + if mpeg1 then if mono then 17 else 32 else if mono then 9 else 17)
  {
    FrameWidth(crc, mpeg1, mono, begin, extra, rs);
    Emit(FrameEntries(crc, mpeg1, mono, begin, extra, rs))
  }

  lemma FrameWidth(crc: seq<Entry>, mpeg1: bool, mono: bool, begin: nat, extra: nat, rs: seq<Record>)
    requires crc == [] || (|crc| == 1 && crc[0].width == 16)
    requires |rs| == (if mono then 1 else 2) * (if mpeg1 then 2 else 1)
    ensures Width(FrameEntries(crc, mpeg1, mono, begin, extra, rs))
         == 8 * ((if crc == [] then 0 else 2) + if mpeg1 then if mono then 17 else 32 else if mono then 9 else 17)
  {
    hide AllEntries;
    var lead := [Entry(begin, if mpeg1 then 9 else 8), Entry(extra, if mpeg1 then if mono then 9 else 11 else if mono then 1 else 2)];
    WidthAppends(crc, lead + AllEntries(rs, mpeg1));
    WidthAppends(lead, AllEntries(rs, mpeg1));
    AllWidth(rs, mpeg1);
    assert Width(lead[1..]) == lead[1].width;
    assert crc != [] ==> Width(crc[1..]) == 0;
  }

  /** A frame body as an encoder writes it. */
  function Written(crc: seq<Entry>, mpeg1: bool, mono: bool, begin: nat, extra: nat, rs: seq<Record>, payload: seq<byte>): (body: seq<byte>)
    requires crc == [] || (|crc| == 1 && crc[0].width == 16)
    requires |rs| == (if mono then 1 else 2) * (if mpeg1 then 2 else 1)
  {
    Pack(SideBits(crc, mpeg1, mono, begin, extra, rs)) + payload
  }

  /** What is written fits its fields. */
  ghost predicate Fitting(crc: seq<Entry>, mpeg1: bool, mono: bool, begin: nat, extra: nat, rs: seq<Record>) {
    InRange(FrameEntries(crc, mpeg1, mono, begin, extra, rs))
  }

  /**
   * Parsing a written frame, MPEG-1 or not, mono or stereo, with or without a checksum, gives back
   * the reservoir pointer, the part lengths and the payload, unless a record is not allowed or the
   * parts exceed the payload and the bytes pointed back to.
   */
  lemma WrittenFrameParses(h: Header, crc: seq<Entry>, begin: nat, extra: nat, rs: seq<Record>, payload: seq<byte>)
    requires if h.b1 % 2 == 0 then |crc| == 1 && crc[0].width == 16 else crc == []
    requires |rs| == (if h.b3 / 64 == 3 then 1 else 2) * (if (h.b1 / 8) % 2 == 1 then 2 else 1)
    requires Fitting(crc, (h.b1 / 8) % 2 == 1, h.b3 / 64 == 3, begin, extra, rs)
    ensures var body := Written(crc, (h.b1 / 8) % 2 == 1, h.b3 / 64 == 3, begin, extra, rs, payload);
            Parse(body, 8 * |body|, h)
            == if AllAllowed(rs) && PartTotal(rs) <= 8 * (begin + |payload|)
               then Some(Frame(begin, payload, PartTotal(rs))) else None
  {
    hide Has, Emit, Pack, AllEntries, Granules, SomeRefused, PartSum, Allowed, RecordPos, Field, InRange, Width;
    var mpeg1, mono := (h.b1 / 8) % 2 == 1, h.b3 / 64 == 3;
    var body := Written(crc, mpeg1, mono, begin, extra, rs, payload);
    WrittenSideInfo(h, crc, begin, extra, rs, payload);
    var at := if crc == [] then 0 else 16;
    var r := SideInfoAt(body, 8 * |body|, at, h);
    var side := Pack(SideBits(crc, mpeg1, mono, begin, extra, rs));
    assert 8 * |body| / 8 == |body|;
    TailOf(side, payload);
  }

  lemma TailOf<T>(a: seq<T>, b: seq<T>)
    ensures (a + b)[|a|..|a + b|] == b
  {
  }

  /** The same for the side information, record by record. */
  lemma WrittenSideInfo(h: Header, crc: seq<Entry>, begin: nat, extra: nat, rs: seq<Record>, payload: seq<byte>)
    requires if h.b1 % 2 == 0 then |crc| == 1 && crc[0].width == 16 else crc == []
    requires |rs| == (if h.b3 / 64 == 3 then 1 else 2) * (if (h.b1 / 8) % 2 == 1 then 2 else 1)
    requires Fitting(crc, (h.b1 / 8) % 2 == 1, h.b3 / 64 == 3, begin, extra, rs)
    ensures var mpeg1 := (h.b1 / 8) % 2 == 1;
            var body := Written(crc, mpeg1, h.b3 / 64 == 3, begin, extra, rs, payload);
            var r := SideInfoAt(body, 8 * |body|, if crc == [] then 0 else 16, h);
            if AllAllowed(rs) && PartTotal(rs) <= 8 * (begin + |payload|)
            then && r.Good? && r.mainDataBegin == begin && |r.granules| == |rs| && PartSum(r.granules) == PartTotal(rs)
                 && forall k :: 0 <= k < |rs| ==> r.granules[k] == Understood(rs[k], mpeg1)
            else r.Bad?
  {
    hide Has, Written, Fitting, AllEntries, Granules, SomeRefused, PartSum, Allowed, Understood, RecordPos, Field, Width;
    var mpeg1 := (h.b1 / 8) % 2 == 1;
    var body := Written(crc, mpeg1, h.b3 / 64 == 3, begin, extra, rs, payload);
    var at := if crc == [] then 0 else 16;
    FieldsAre(h, crc, begin, extra, rs, payload);
    RecordsAre(body, at + LeadBits(h), rs, h);
    SameParts(Granules(body, 8 * |body|, at + LeadBits(h), h, |rs|), rs, mpeg1);
  }

  /** Where the pointer and the records of a written frame are found. */
  lemma FieldsAre(h: Header, crc: seq<Entry>, begin: nat, extra: nat, rs: seq<Record>, payload: seq<byte>)
    requires if h.b1 % 2 == 0 then |crc| == 1 && crc[0].width == 16 else crc == []
    requires |rs| == (if h.b3 / 64 == 3 then 1 else 2) * (if (h.b1 / 8) % 2 == 1 then 2 else 1)
    requires Fitting(crc, (h.b1 / 8) % 2 == 1, h.b3 / 64 == 3, begin, extra, rs)
    ensures var mpeg1 := (h.b1 / 8) % 2 == 1;
            var body := Written(crc, mpeg1, h.b3 / 64 == 3, begin, extra, rs, payload);
            var at := if crc == [] then 0 else 16;
            && |body| == (at / 8) + SideBytes(h) + |payload|
            && MainDataBegin(body, 8 * |body|, at, h) == begin
            && Has(body, at + LeadBits(h), AllEntries(rs, mpeg1))
  {
    hide Has, Emit, Pack, AllEntries, Width, MainDataBegin;
    var mpeg1, mono := (h.b1 / 8) % 2 == 1, h.b3 / 64 == 3;
    var body := Written(crc, mpeg1, mono, begin, extra, rs, payload);
    var bits := SideBits(crc, mpeg1, mono, begin, extra, rs);
    var es := FrameEntries(crc, mpeg1, mono, begin, extra, rs);
    FrameWidth(crc, mpeg1, mono, begin, extra, rs);
    assert bits[0..0 + Width(es)] == bits;
    EmittedIsThere(bits, payload, 0, es);
    var at := if crc == [] then 0 else 16;
    CrcWidth(crc);
    var w, v := if mpeg1 then 9 else 8, if mpeg1 then if mono then 9 else 11 else if mono then 1 else 2;
    var rest := [Entry(extra, v)] + AllEntries(rs, mpeg1);
    assert es == crc + ([Entry(begin, w)] + rest);
    HasSplits(body, 0, crc, [Entry(begin, w)] + rest);
    FirstField(body, at, Entry(begin, w), rest);
    FirstField(body, at + w, Entry(extra, v), AllEntries(rs, mpeg1));
    assert extra < Pow2(v) by { assert es[|crc| + 1] == Entry(extra, v); }
    PointerIs(body, at, h, begin, extra);
  }

  /** The pointer stands in the leading bits; at the lower rates the private bits are read with it. */
  lemma PointerIs(body: seq<byte>, pos: nat, h: Header, begin: nat, extra: nat)
    requires var w := if (h.b1 / 8) % 2 == 1 then 9 else 8;
             var v := if h.b3 / 64 == 3 then 1 else 2;
             && pos + w + v <= 8 * |body| && Value(body, pos, w) == begin
             && ((h.b1 / 8) % 2 != 1 ==> Value(body, pos + w, v) == extra < Pow2(v))
    ensures MainDataBegin(body, 8 * |body|, pos, h) == begin
  {
    hide Value;
    if (h.b1 / 8) % 2 != 1 {
      var v := if h.b3 / 64 == 3 then 1 else 2;
      ValueSplit(body, pos, 8, v);
      assert Shl(begin, 1) == 2 * begin && Shl(begin, 2) == 4 * begin;
    }
  }

  lemma CrcWidth(crc: seq<Entry>)
    ensures crc == [] ==> Width(crc) == 0
    ensures |crc| == 1 ==> Width(crc) == crc[0].width
  {
  }
}
