/** The four-byte MPEG audio frame header and the search for frame boundaries. */
module FrameHeader {
  import opened Words

  datatype Header = Header(b0: byte, b1: byte, b2: byte, b3: byte)

  const HDR_SIZE: nat := 4
  const MAX_FREE_FORMAT: nat := 2304

  function HeaderAt(data: seq<byte>, i: nat): (h: Header)
    requires i + 4 <= |data|
  {
    Header(data[i], data[i + 1], data[i + 2], data[i + 3])
  }

  predicate IsMono(h: Header) { h.b3 / 64 == 3 }
  predicate IsFreeFormat(h: Header) { h.b2 / 16 == 0 }
  predicate HasCrc(h: Header) { h.b1 % 2 == 0 }
  predicate IsMpeg1(h: Header) { (h.b1 / 8) % 2 == 1 }
  predicate IsNotMpeg25(h: Header) { (h.b1 / 16) % 2 == 1 }
  predicate IsLayer1(h: Header) { LayerBits(h) == 3 }
  predicate IsFrame576(h: Header) { (h.b1 / 2) % 8 == 1 }
  function LayerBits(h: Header): (n: nat) { (h.b1 / 2) % 4 }
  function SampleRateIndex(h: Header): (n: nat) { (h.b2 / 4) % 4 }
  function Channels(h: Header): (n: nat) { if IsMono(h) then 1 else 2 }

  predicate IsValid(h: Header) {
    && h.b0 == 0xff
    && (h.b1 / 16 == 0xf || h.b1 / 2 == 0x71)
    && LayerBits(h) != 0
    && h.b2 / 16 != 15
    && SampleRateIndex(h) != 3
  }

  /** drmp3_hdr_compare: a valid header of the same stream as h1. */
  predicate Matches(h1: Header, h2: Header) {
    && IsValid(h2)
    && h1.b1 / 2 == h2.b1 / 2
    && SampleRateIndex(h1) == SampleRateIndex(h2)
    && IsFreeFormat(h1) == IsFreeFormat(h2)
  }

  const HALF_RATES: seq<seq<seq<nat>>> := [
    [ [0, 4, 8, 12, 16, 20, 24, 28, 32, 40, 48, 56, 64, 72, 80],
      [0, 4, 8, 12, 16, 20, 24, 28, 32, 40, 48, 56, 64, 72, 80],
      [0, 16, 24, 28, 32, 40, 48, 56, 64, 72, 80, 88, 96, 112, 128] ],
    [ [0, 16, 20, 24, 28, 32, 40, 48, 56, 64, 80, 96, 112, 128, 160],
      [0, 16, 24, 28, 32, 40, 48, 56, 64, 80, 96, 112, 128, 160, 192],
      [0, 16, 32, 48, 64, 80, 96, 112, 128, 144, 160, 176, 192, 208, 224] ] ]

  function BitrateKbps(h: Header): (kbps: nat)
    requires IsValid(h)
  {
    2 * HALF_RATES[if IsMpeg1(h) then 1 else 0][LayerBits(h) - 1][h.b2 / 16]
  }

  function SampleRateHz(h: Header): (hz: nat)
    requires IsValid(h)
    ensures hz >= 8000
  {
    var base := match SampleRateIndex(h) case 0 => 44100 case 1 => 48000 case _ => 32000;
    base / (if IsMpeg1(h) then 1 else 2) / (if IsNotMpeg25(h) then 1 else 2)
  }

  function FrameSamples(h: Header): (n: nat) {
    if IsLayer1(h) then 384 else if IsFrame576(h) then 576 else 1152
  }

  /** Whole bytes that so many samples take at a bit rate and a sample rate. */
  function BytesFor(samples: nat, kbps: nat, hz: nat): (n: nat)
    requires 0 < hz
  {
    samples * kbps * 125 / hz
  }

  function FrameBytes(h: Header, freeFormatSize: nat): (n: nat)
    requires IsValid(h)
  {
    var bytes := BytesFor(FrameSamples(h), BitrateKbps(h), SampleRateHz(h));
    var aligned := if IsLayer1(h) then bytes - bytes % 4 else bytes;
    if aligned != 0 then aligned else freeFormatSize
  }

  function Padding(h: Header): (n: nat) {
    if (h.b2 / 2) % 2 == 1 then if IsLayer1(h) then 4 else 1 else 0
  }

  /**
   * A Layer III frame with a tabulated bit rate is at most 1440 bytes long, so its payload
   * fits the decoder's buffer; only a free-format frame takes the remembered size.
   */
  lemma Layer3FrameBytes(h: Header, freeFormatSize: nat)
    requires IsValid(h) && LayerBits(h) == 1
    ensures FrameBytes(h, freeFormatSize) <= 1440 || FrameBytes(h, freeFormatSize) == freeFormatSize
  {
  }

  /** Distance from a frame to the next one. */
  function FrameStep(h: Header, frameBytes: nat): (n: nat)
    requires IsValid(h)
  {
    FrameBytes(h, frameBytes) + Padding(h)
  }

  /** From offset i, up to `left` further headers that match h follow at the frame distance. */
  ghost predicate SyncRun(data: seq<byte>, h: Header, i: nat, frameBytes: nat, left: nat)
    requires i + 4 <= |data| && IsValid(HeaderAt(data, i))
    decreases left
  {
    var next := i + FrameStep(HeaderAt(data, i), frameBytes);
    left == 0 || |data| < next + 4 ||
    (Matches(h, HeaderAt(data, next)) && SyncRun(data, h, next, frameBytes, left - 1))
  }

  /** A second header follows the one at offset i inside the data. */
  predicate HasNext(data: seq<byte>, i: nat, frameBytes: nat)
    requires i + 4 <= |data| && IsValid(HeaderAt(data, i))
  {
    i + FrameStep(HeaderAt(data, i), frameBytes) + 4 <= |data|
  }

  /** drmp3d_match_frame: do up to ten further headers, and at least one, follow? */
  method MatchFrame(data: seq<byte>, start: nat, frameBytes: nat) returns (ok: bool)
    requires start + 4 <= |data| && IsValid(HeaderAt(data, start))
    ensures ok <==> HasNext(data, start, frameBytes)
                    && SyncRun(data, HeaderAt(data, start), start, frameBytes, 10)
  {
    hide FrameBytes, Padding;
    var hdr := HeaderAt(data, start);
    var i: nat, matches: nat := start, 0;
    while matches < 10
      invariant matches <= 10 && i + 4 <= |data| && IsValid(HeaderAt(data, i))
      invariant SyncRun(data, hdr, start, frameBytes, 10) <==> SyncRun(data, hdr, i, frameBytes, 10 - matches)
      invariant if matches == 0 then i == start else HasNext(data, start, frameBytes)
    {
      i := i + FrameStep(HeaderAt(data, i), frameBytes);
      if |data| < i + HDR_SIZE {
        return matches > 0;
      }
      if !Matches(hdr, HeaderAt(data, i)) {
        return false;
      }
      matches := matches + 1;
    }
    return true;
  }

  /** Free-format search: two matching headers at distance k and at the distance they imply. */
  predicate FreeFormatAt(data: seq<byte>, i: nat, k: nat)
    requires i + 2 * k + HDR_SIZE < |data| && HDR_SIZE <= k && IsValid(HeaderAt(data, i))
  {
    var h, h2 := HeaderAt(data, i), HeaderAt(data, i + k);
    var next := i + k + k - Padding(h) + Padding(h2);
    Matches(h, h2) && next + HDR_SIZE <= |data| && Matches(h, HeaderAt(data, next))
  }

  /** No distance below k gives a free-format frame of at least one byte. */
  ghost predicate NoFreeFormatBelow(data: seq<byte>, i: nat, k: nat)
    requires i + HDR_SIZE < |data| && IsValid(HeaderAt(data, i))
  {
    forall j: nat :: HDR_SIZE <= j < k && i + 2 * j + HDR_SIZE < |data| && j != Padding(HeaderAt(data, i)) ==>
      !FreeFormatAt(data, i, j)
  }

  /** The inner search loop of drmp3d_find_frame: the least distance, or none. */
  method FindFreeFormat(data: seq<byte>, i: nat) returns (framed: nat, frameBytes: nat)
    requires i + HDR_SIZE < |data| && IsValid(HeaderAt(data, i))
    ensures frameBytes < MAX_FREE_FORMAT && framed < MAX_FREE_FORMAT
    ensures frameBytes != 0 ==>
        && HDR_SIZE <= framed && i + 2 * framed + HDR_SIZE < |data|
        && FreeFormatAt(data, i, framed) && frameBytes == framed - Padding(HeaderAt(data, i))
    ensures frameBytes == 0 ==> framed <= HDR_SIZE
    ensures NoFreeFormatBelow(data, i, if frameBytes == 0 then MAX_FREE_FORMAT else framed)
  {
    hide Matches;
    framed, frameBytes := Padding(HeaderAt(data, i)), 0;
    var k := HDR_SIZE;
    while frameBytes == 0 && k < MAX_FREE_FORMAT && i + 2 * k + HDR_SIZE < |data|
      invariant HDR_SIZE <= k <= MAX_FREE_FORMAT && framed < MAX_FREE_FORMAT && frameBytes < MAX_FREE_FORMAT
      invariant frameBytes != 0 ==>
        && HDR_SIZE <= framed && i + 2 * framed + HDR_SIZE < |data|
        && FreeFormatAt(data, i, framed) && frameBytes == framed - Padding(HeaderAt(data, i))
      invariant frameBytes == 0 ==> framed <= HDR_SIZE
      invariant NoFreeFormatBelow(data, i, if frameBytes == 0 then k else framed)
      decreases MAX_FREE_FORMAT - k
    {
      if FreeFormatAt(data, i, k) {
        framed := k;
        frameBytes := k - Padding(HeaderAt(data, i));
      }
      k := k + 1;
    }
  }

  /** At least one further header follows the one at `at`, and up to ten are in step. */
  ghost predicate Synced(data: seq<byte>, at: nat, frameBytes: nat)
    requires at + HDR_SIZE <= |data| && IsValid(HeaderAt(data, at))
  {
    1 <= frameBytes && HasNext(data, at, frameBytes) && SyncRun(data, HeaderAt(data, at), at, frameBytes, 10)
  }

  /** The size of a frame: from its header, or from the free-format search. */
  ghost predicate SizedAt(data: seq<byte>, at: nat, size: nat, freeFormat: nat)
    requires at + HDR_SIZE <= |data| && IsValid(HeaderAt(data, at))
  {
    var h := HeaderAt(data, at);
    if FrameBytes(h, 0) != 0 then freeFormat == 0 && size == FrameStep(h, 0)
    else
      && HDR_SIZE <= size < MAX_FREE_FORMAT && freeFormat == size - Padding(h) && freeFormat != 0
      && at + 2 * size + HDR_SIZE < |data| && FreeFormatAt(data, at, size) && NoFreeFormatBelow(data, at, size)
  }

  /** What the search reports: a frame inside the data, sized and in step, or filling the data alone. */
  ghost predicate FrameFound(data: seq<byte>, at: nat, size: nat, freeFormat: nat) {
    && at + HDR_SIZE < |data| && 1 <= size && at + size <= |data|
    && IsValid(HeaderAt(data, at)) && freeFormat < MAX_FREE_FORMAT
    && SizedAt(data, at, size, freeFormat)
    && ((at == 0 && size == |data|) || Synced(data, at, FrameBytes(HeaderAt(data, at), freeFormat)))
  }

  /** A tabulated frame size does not depend on the free-format size. */
  lemma TabulatedStep(h: Header, freeFormat: nat)
    requires IsValid(h) && FrameBytes(h, 0) != 0
    ensures FrameStep(h, freeFormat) == FrameStep(h, 0) && FrameBytes(h, freeFormat) == FrameBytes(h, 0)
  {
  }

  lemma FreeFormatBytes(h: Header, freeFormat: nat)
    requires IsValid(h) && FrameBytes(h, 0) == 0
    ensures FrameBytes(h, freeFormat) == freeFormat
  {
  }

  /** The first frame in the data, of whatever kind; size 0 and the end of the data if there is none. */
  ghost predicate FirstFound(data: seq<byte>, at: nat, size: nat, freeFormat: nat) {
    && (if size == 0 then at == |data| && freeFormat == 0 else FrameFound(data, at, size, freeFormat))
    && forall j: nat, s: nat, f: nat :: j < at ==> !FrameFound(data, j, s, f)
  }

  /** The size that the search computes is the only one a frame at this offset can have. */
  lemma SizeIs(data: seq<byte>, i: nat, s: nat, f: nat, framed: nat, freeFormat: nat)
    requires i + HDR_SIZE < |data| && IsValid(HeaderAt(data, i)) && SizedAt(data, i, s, f)
    requires if FrameBytes(HeaderAt(data, i), 0) != 0 then framed == FrameStep(HeaderAt(data, i), 0) && freeFormat == 0
             else
               && (freeFormat == 0 ||
                   (&& HDR_SIZE <= framed && i + 2 * framed + HDR_SIZE < |data| && FreeFormatAt(data, i, framed)
                    && freeFormat == framed - Padding(HeaderAt(data, i))))
               && NoFreeFormatBelow(data, i, if freeFormat == 0 then MAX_FREE_FORMAT else framed)
    ensures s == framed && f == freeFormat
  {
    hide FreeFormatAt, IsValid, FrameBytes, Padding;
    if FrameBytes(HeaderAt(data, i), 0) == 0 {
      assert FreeFormatAt(data, i, s);
    }
  }

  /** What the search finds is determined by the offset. */
  lemma FoundOnce(data: seq<byte>, at: nat, size: nat, ff: nat, size2: nat, ff2: nat)
    requires FrameFound(data, at, size, ff) && FrameFound(data, at, size2, ff2)
    ensures size == size2 && ff == ff2
  {
    hide FreeFormatAt, Synced, IsValid, FrameBytes, Padding;
    SizeIs(data, at, size, ff, size2, ff2);
  }

  /** There is at most one first frame. */
  lemma FirstFoundOnce(data: seq<byte>, at: nat, size: nat, ff: nat, at2: nat, size2: nat, ff2: nat)
    requires FirstFound(data, at, size, ff) && FirstFound(data, at2, size2, ff2)
    ensures at == at2 && size == size2 && ff == ff2
  {
    hide FrameFound;
    if size != 0 {
      FoundBounds(data, at, size, ff);
    }
    if size2 != 0 {
      FoundBounds(data, at2, size2, ff2);
    }
    if size != 0 && size2 != 0 && at == at2 {
      FoundOnce(data, at, size, ff, size2, ff2);
    }
  }

  /** One round of the search at offset i: the frame there, or proof that there is none. */
  method TryFrame(data: seq<byte>, i: nat) returns (found: bool, size: nat, freeFormat: nat)
    requires i + HDR_SIZE < |data|
    ensures found ==> FrameFound(data, i, size, freeFormat) && 1 <= size
    ensures !found ==> forall s: nat, f: nat :: !FrameFound(data, i, s, f)
  {
    hide IsValid, FrameBytes, Padding, FreeFormatAt, HasNext, SyncRun;
    var h := HeaderAt(data, i);
    size, freeFormat := 0, 0;
    if !IsValid(h) {
      return false, size, freeFormat;
    }
    var frameBytes := FrameBytes(h, 0);
    var framed := FrameStep(h, 0);
    if frameBytes == 0 {
      framed, frameBytes := FindFreeFormat(data, i);
      freeFormat := frameBytes;
      FreeFormatBytes(h, frameBytes);
    } else {
      TabulatedStep(h, frameBytes);
    }
    var synced := false;
    if frameBytes != 0 && i + framed <= |data| {
      synced := MatchFrame(data, i, frameBytes);
    }
    found, size := synced || (i == 0 && framed == |data|), framed;
    if !found {
      forall s: nat, f: nat ensures !FrameFound(data, i, s, f) {
        if FrameFound(data, i, s, f) {
          SizeIs(data, i, s, f, framed, freeFormat);
        }
      }
    }
  }

  /**
   * drmp3d_find_frame: the offset and size of the first frame in the data and its free-format
   * size, or the data length and size 0. A frame it returns never reaches past the data.
   */
  method FindFrame(data: seq<byte>) returns (at: nat, size: nat, freeFormat: nat)
    ensures FirstFound(data, at, size, freeFormat) && freeFormat < MAX_FREE_FORMAT
  {
    hide FrameFound;
    var i: nat := 0;
    while i + HDR_SIZE < |data|
      invariant forall j: nat, s: nat, f: nat :: j < i ==> !FrameFound(data, j, s, f)
    {
      var found;
      found, size, freeFormat := TryFrame(data, i);
      if found {
        FoundBounds(data, i, size, freeFormat);
        return i, size, freeFormat;
      }
      i := i + 1;
    }
    forall j: nat, s: nat, f: nat ensures !FrameFound(data, j, s, f) {
      if FrameFound(data, j, s, f) {
        FoundBounds(data, j, s, f);
      }
    }
    return |data|, 0, 0;
  }

  lemma FoundBounds(data: seq<byte>, at: nat, size: nat, ff: nat)
    requires FrameFound(data, at, size, ff)
    ensures at + HDR_SIZE < |data| && 1 <= size && at + size <= |data| && ff < MAX_FREE_FORMAT
  {
    hide SizedAt, Synced, IsValid;
  }

  // ----- Streams of frames -----

  /** The stream is cut at `pos` into frames of one kind with tabulated sizes. */
  ghost predicate Framed(stream: seq<byte>, pos: seq<nat>) {
    && 1 <= |pos| && pos[|pos| - 1] == |stream|
    && (forall i :: 0 <= i < |pos| - 1 ==> FramedAt(stream, pos[i], pos[i + 1]))
    && forall i, j :: 0 <= i < |pos| - 1 && 0 <= j < |pos| - 1 ==>
         pos[i] + HDR_SIZE <= |stream| && pos[j] + HDR_SIZE <= |stream|
         && Matches(HeaderAt(stream, pos[i]), HeaderAt(stream, pos[j]))
  }

  /** A frame with a tabulated size takes the bytes from p to q. */
  ghost predicate FramedAt(stream: seq<byte>, p: nat, q: nat) {
    && p + HDR_SIZE < q <= |stream|
    && IsValid(HeaderAt(stream, p)) && FrameBytes(HeaderAt(stream, p), 0) != 0 && q == p + FrameStep(HeaderAt(stream, p), 0)
  }

  lemma {:induction false} PositionsGrow(stream: seq<byte>, pos: seq<nat>, k: nat, m: nat)
    requires Framed(stream, pos) && k <= m < |pos|
    ensures pos[k] <= pos[m] && (k < m ==> pos[k] < pos[m]) && pos[m] <= |stream|
    decreases m - k
  {
    hide Matches, IsValid, FrameBytes, FrameStep;
    if k < m {
      PositionsGrow(stream, pos, k, m - 1);
      assert FramedAt(stream, pos[m - 1], pos[m]);
    } else if k < |pos| - 1 {
      assert FramedAt(stream, pos[k], pos[k + 1]);
    }
  }

  /** Inside a window that starts at frame k the headers are in step from frame m on. */
  lemma {:induction false} FramedRun(stream: seq<byte>, pos: seq<nat>, k: nat, m: nat, end: nat, frameBytes: nat, left: nat)
    requires Framed(stream, pos) && k <= m < |pos| - 1 && pos[m] + HDR_SIZE <= end <= |stream|
    ensures pos[k] <= pos[m] && pos[k] + HDR_SIZE <= |stream|
    ensures var w, i := stream[pos[k]..end], pos[m] - pos[k];
            && i + HDR_SIZE <= |w| && HeaderAt(w, i) == HeaderAt(stream, pos[m]) && IsValid(HeaderAt(w, i))
            && SyncRun(w, HeaderAt(stream, pos[k]), i, frameBytes, left)
    decreases left
  {
    hide Matches, IsValid, FrameBytes, FrameStep;
    PositionsGrow(stream, pos, k, m);
    assert FramedAt(stream, pos[m], pos[m + 1]);
    TabulatedStep(HeaderAt(stream, pos[m]), frameBytes);
    if 0 < left && pos[m + 1] + HDR_SIZE <= end {
      FramedRun(stream, pos, k, m + 1, end, frameBytes, left - 1);
    }
  }

  /**
   * A search that starts at frame k of such a stream finds that frame and nothing before it, if
   * the data shows the next header too or ends with the frame. It needs no more than that.
   */
  lemma FramedIsFound(stream: seq<byte>, pos: seq<nat>, k: nat, end: nat)
    requires Framed(stream, pos) && k + 1 < |pos| && pos[k + 1] <= end <= |stream|
    requires end == pos[k + 1] || pos[k + 1] + HDR_SIZE <= end
    ensures pos[k] < pos[k + 1]
    ensures FirstFound(stream[pos[k]..end], 0, pos[k + 1] - pos[k], 0)
  {
    hide Matches, IsValid, FrameBytes, Padding;
    PositionsGrow(stream, pos, k, |pos| - 1);
    assert FramedAt(stream, pos[k], pos[k + 1]);
    var h := HeaderAt(stream, pos[k]);
    TabulatedStep(h, FrameBytes(h, 0));
    FramedRun(stream, pos, k, k, end, FrameBytes(h, 0), 10);
  }
}
