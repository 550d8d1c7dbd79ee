/** Layer III side information: a fixed bit layout read sequentially. */
module SideInfo {
  import opened Words
  import opened BitStream
  import opened FrameHeader

  /** The 22 bits whose meaning the window switching flag decides. */
  datatype Window = Window(
    blockType: nat, mixedBlock: nat, tables: nat, subblockGain: seq<nat>, regionCount: seq<nat>)

  /** One granule of one channel. */
  datatype Granule = Granule(
    part23Length: nat, bigValues: nat, globalGain: nat, scalefacCompress: nat,
    window: Window, preflag: nat, scalefacScale: nat, count1Table: nat)

  /** Number of granule-channel records in the frame. */
  function GranuleCount(h: Header): (n: nat)
    ensures n <= 4
  {
    Channels(h) * (if IsMpeg1(h) then 2 else 1)
  }

  /** Bits before the first record: the reservoir pointer, private bits and scfsi. */
  function LeadBits(h: Header): (n: nat) {
    if IsMpeg1(h) then 9 + 7 + GranuleCount(h) else 8 + Channels(h)
  }

  function GranuleBits(h: Header): (n: nat) {
    if IsMpeg1(h) then 59 else 63
  }

  /** The side information always fills whole bytes: 32 or 17 in MPEG-1, 17 or 9 otherwise. */
  function SideBytes(h: Header): (n: nat) {
    if IsMpeg1(h) then if IsMono(h) then 17 else 32
    else if IsMono(h) then 9 else 17
  }

  /** Where record k starts when record 0 starts at `first`. */
  function RecordPos(first: nat, h: Header, k: nat): (pos: nat) {
    if k == 0 then first else RecordPos(first, h, k - 1) + GranuleBits(h)
  }

  lemma SideInfoFillsBytes(start: nat, h: Header)
    ensures RecordPos(start + LeadBits(h), h, GranuleCount(h)) == start + 8 * SideBytes(h)
  {
    var first := start + LeadBits(h);
    assert RecordPos(first, h, 1) == first + GranuleBits(h);
    assert RecordPos(first, h, 2) == first + 2 * GranuleBits(h);
    assert RecordPos(first, h, 3) == first + 3 * GranuleBits(h);
    assert RecordPos(first, h, 4) == first + 4 * GranuleBits(h);
  }

  /** The window fields from position `win` on. */
  function WindowAt(buf: seq<byte>, limit: int, win: nat, switched: bool): (w: Window)
    requires limit <= 8 * |buf|
  {
    if switched then
      var blockType := Field(buf, limit, win, 2);
      var mixed := Field(buf, limit, win + 2, 1);
      Window(blockType, mixed, 32 * Field(buf, limit, win + 3, 10),
             [Field(buf, limit, win + 13, 3), Field(buf, limit, win + 16, 3), Field(buf, limit, win + 19, 3)],
             [if blockType == 2 && mixed == 0 then 8 else 7, 255])
    else
      Window(0, 0, Field(buf, limit, win, 15), [],
             [Field(buf, limit, win + 15, 4), Field(buf, limit, win + 19, 3), 255])
  }

  /** Width of scalefac_compress. */
  function ScalefacBits(h: Header): (n: nat) {
    if IsMpeg1(h) then 4 else 9
  }

  /** The record whose first bit is at `base`, by the fixed offsets of its fields. */
  function GranuleAt(buf: seq<byte>, limit: int, base: nat, h: Header): (g: Granule)
    requires limit <= 8 * |buf|
  {
    var win := base + 30 + ScalefacBits(h);
    var tail := win + 22;
    var scalefac := Field(buf, limit, base + 29, ScalefacBits(h));
    var preflagBits := if IsMpeg1(h) then 1 else 0;
    Granule(
      Field(buf, limit, base, 12), Field(buf, limit, base + 12, 9), Field(buf, limit, base + 21, 8), scalefac,
      WindowAt(buf, limit, win, Field(buf, limit, win - 1, 1) != 0),
      if IsMpeg1(h) then Field(buf, limit, tail, 1) else if 500 <= scalefac then 1 else 0,
      Field(buf, limit, tail + preflagBits, 1),
      Field(buf, limit, tail + preflagBits + 1, 1))
  }

  /** A record the decoder refuses: too many big values, or a window switch to type 0. */
  predicate Refused(buf: seq<byte>, limit: int, base: nat, h: Header)
    requires limit <= 8 * |buf|
  {
    var win := base + 30 + ScalefacBits(h);
    || 288 < Field(buf, limit, base + 12, 9)
    || (Field(buf, limit, win - 1, 1) != 0 && Field(buf, limit, win, 2) == 0)
  }

  method ReadWindow(bs: Reader, switched: bool) returns (ok: bool, w: Window)
    requires bs.Valid()
    modifies bs`pos
    ensures !ok <==> switched && Field(bs.buf, bs.limit, old(bs.pos), 2) == 0
    ensures ok ==> bs.pos == old(bs.pos) + 22
    ensures ok ==> w == WindowAt(bs.buf, bs.limit, old(bs.pos), switched)
  {
    hide Field;
    if switched {
      var blockType := bs.GetBits(2);
      if blockType == 0 {
        return false, Window(0, 0, 0, [], []);
      }
      var mixed := bs.GetBits(1);
      var tables := bs.GetBits(10);
      var gain0 := bs.GetBits(3);
      var gain1 := bs.GetBits(3);
      var gain2 := bs.GetBits(3);
      w := Window(blockType, mixed, 32 * tables, [gain0, gain1, gain2],
                  [if blockType == 2 && mixed == 0 then 8 else 7, 255]);
    } else {
      var tables := bs.GetBits(15);
      var region0 := bs.GetBits(4);
      var region1 := bs.GetBits(3);
      w := Window(0, 0, tables, [], [region0, region1, 255]);
    }
    ok := true;
  }

  /** Read one record; not ok if it is refused. */
  method ReadGranule(bs: Reader, h: Header) returns (ok: bool, g: Granule)
    requires bs.Valid()
    modifies bs`pos
    ensures ok == !Refused(bs.buf, bs.limit, old(bs.pos), h)
    ensures ok ==> bs.pos == old(bs.pos) + GranuleBits(h)
    ensures ok ==> g == GranuleAt(bs.buf, bs.limit, old(bs.pos), h)
  {
    hide Field, IsMpeg1, WindowAt;
    var window := Window(0, 0, 0, [], []);
    var part23 := bs.GetBits(12);
    var bigValues := bs.GetBits(9);
    if bigValues > 288 {
      return false, Granule(part23, bigValues, 0, 0, window, 0, 0, 0);
    }
    var gain := bs.GetBits(8);
    var scalefac := bs.GetBits(ScalefacBits(h));
    var switched := bs.GetBits(1);
    ok, window := ReadWindow(bs, switched != 0);
    if !ok {
      return false, Granule(part23, bigValues, gain, scalefac, window, 0, 0, 0);
    }
    var preflag := if scalefac >= 500 then 1 else 0;
    if IsMpeg1(h) {
      preflag := bs.GetBits(1);
    }
    var scale := bs.GetBits(1);
    var count1 := bs.GetBits(1);
    g := Granule(part23, bigValues, gain, scalefac, window, preflag, scale, count1);
  }

  /** Total length of the coded data the records announce, in bits. */
  function PartSum(grs: seq<Granule>): (n: nat) {
    if grs == [] then 0 else PartSum(grs[..|grs| - 1]) + grs[|grs| - 1].part23Length
  }

  /** The reservoir pointer: 9 bits in MPEG-1, 8 otherwise. */
  function MainDataBegin(buf: seq<byte>, limit: int, pos: nat, h: Header): (n: nat)
    requires limit <= 8 * |buf|
  {
    if IsMpeg1(h) then Field(buf, limit, pos, 9)
    else Field(buf, limit, pos, 8 + Channels(h)) / (if IsMono(h) then 2 else 4)
  }

  /** The records of the frame, at consecutive fixed-size places after the lead bits. */
  function Granules(buf: seq<byte>, limit: int, pos: nat, h: Header, n: nat): (grs: seq<Granule>)
    requires limit <= 8 * |buf|
  {
    if n == 0 then []
    else Granules(buf, limit, pos, h, n - 1) + [GranuleAt(buf, limit, RecordPos(pos, h, n - 1), h)]
  }

  /** Some of the first n records is refused. */
  ghost predicate SomeRefused(buf: seq<byte>, limit: int, pos: nat, h: Header, n: nat)
    requires limit <= 8 * |buf|
  {
    exists k: nat :: k < n && Refused(buf, limit, RecordPos(pos, h, k), h)
  }

  datatype SideResult = Bad | Good(mainDataBegin: nat, granules: seq<Granule>)

  /** The record loop of drmp3_L3_read_side_info. */
  method ReadRecords(bs: Reader, h: Header) returns (ok: bool, grs: seq<Granule>, partSum: nat)
    requires bs.Valid()
    modifies bs`pos
    ensures ok == !SomeRefused(bs.buf, bs.limit, old(bs.pos), h, GranuleCount(h))
    ensures ok ==> grs == Granules(bs.buf, bs.limit, old(bs.pos), h, GranuleCount(h))
    ensures ok ==> partSum == PartSum(grs) && bs.pos == RecordPos(old(bs.pos), h, GranuleCount(h))
  {
    hide GranuleAt, Refused, GranuleBits;
    ghost var first := bs.pos;
    grs, partSum := [], 0;
    for i := 0 to GranuleCount(h)
      invariant bs.pos == RecordPos(first, h, i)
      invariant grs == Granules(bs.buf, bs.limit, first, h, i) && partSum == PartSum(grs)
      invariant !SomeRefused(bs.buf, bs.limit, first, h, i)
    {
      var more, g := ReadGranule(bs, h);
      if !more {
        return false, grs, partSum;
      }
      assert (grs + [g])[..|grs|] == grs;
      partSum := partSum + g.part23Length;
      grs := grs + [g];
    }
    ok := true;
  }

  /** What the side information at a position says. */
  ghost function SideInfoAt(buf: seq<byte>, limit: int, pos: nat, h: Header): (r: SideResult)
    requires limit <= 8 * |buf|
  {
    var begin := MainDataBegin(buf, limit, pos, h);
    var first := pos + LeadBits(h);
    var grs := Granules(buf, limit, first, h, GranuleCount(h));
    if SomeRefused(buf, limit, first, h, GranuleCount(h))
       || limit + 8 * begin < PartSum(grs) + pos + 8 * SideBytes(h)
    then Bad else Good(begin, grs)
  }

  lemma {:induction false} GranulesCount(buf: seq<byte>, limit: int, pos: nat, h: Header, n: nat)
    requires limit <= 8 * |buf|
    ensures |Granules(buf, limit, pos, h, n)| == n
  {
    if n > 0 {
      GranulesCount(buf, limit, pos, h, n - 1);
    }
  }

  /** Accepted side information announces no more data than the frame and the reservoir hold. */
  lemma AcceptedSideInfo(buf: seq<byte>, limit: int, pos: nat, h: Header)
    requires limit <= 8 * |buf| && SideInfoAt(buf, limit, pos, h).Good?
    ensures var r := SideInfoAt(buf, limit, pos, h);
            && |r.granules| == GranuleCount(h)
            && PartSum(r.granules) + pos + 8 * SideBytes(h) <= limit + 8 * r.mainDataBegin
  {
    GranulesCount(buf, limit, pos + LeadBits(h), h, GranuleCount(h));
  }

  /**
   * drmp3_L3_read_side_info. It succeeds exactly when no record is refused and the announced
   * data fits what is left of the frame plus the reservoir bytes it points back to; then it
   * has used SideBytes bytes.
   */
  method ReadSideInfo(bs: Reader, h: Header) returns (r: SideResult)
    requires bs.Valid()
    modifies bs`pos
    ensures r == SideInfoAt(bs.buf, bs.limit, old(bs.pos), h)
    ensures r.Good? ==> bs.pos == old(bs.pos) + 8 * SideBytes(h)
  {
    hide Granules, SomeRefused, Field, PartSum, RecordPos;
    var begin;
    SideInfoFillsBytes(bs.pos, h);
    if IsMpeg1(h) {
      begin := bs.GetBits(9);
      var _ := bs.GetBits(7 + GranuleCount(h));
    } else {
      begin := bs.GetBits(8 + GranuleCount(h));
      begin := begin / (if IsMono(h) then 2 else 4);
    }
    var ok, grs, partSum := ReadRecords(bs, h);
    if !ok || partSum + bs.pos > bs.limit + 8 * begin {
      return Bad;
    }
    return Good(begin, grs);
  }
}
