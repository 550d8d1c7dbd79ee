/** The framing part of the MP3 frame decoder: frame sync, side information and reservoir. */
module Decoder {
  import opened Words
  import opened BitStream
  import opened FrameHeader
  import opened SideInfo
  import opened Reservoir
  import opened Wrappers

  const NO_HEADER := Header(0, 0, 0, 0)

  /** Layer III frame content: the bytes between the frame header and the end of the frame. */
  ghost function Parse(body: seq<byte>, limit: int, h: Header): (f: Option<Frame>)
    requires limit <= 8 * |body|
  {
    var sideAt := if HasCrc(h) then 16 else 0;
    var dataAt := sideAt + 8 * SideBytes(h);
    match SideInfoAt(body, limit, sideAt, h)
    case Bad => None
    case Good(begin, grs) =>
      if limit < dataAt then None else Some(Frame(begin, body[dataAt / 8..limit / 8], PartSum(grs)))
  }

  class FrameDecoder {
    var header: Header
    var freeFormat: nat
    var reserv: int
    const reservBuf: array<byte>
    const mainData: array<byte>
    var mainPos: nat
    var mainLimit: nat
    ghost var run: seq<Event>   // what happened to the reservoir so far

    ghost predicate Valid()
      reads this, reservBuf, mainData
    {
      && reservBuf.Length == CAPACITY && mainData.Length == CAPACITY + MAX_FREE_FORMAT
      && reservBuf != mainData
      && freeFormat < MAX_FREE_FORMAT
      && Checked(run)
      && 0 <= reserv <= CAPACITY
      && reservBuf[..reserv] == After(run)
    }

    constructor ()
      ensures Valid() && fresh(reservBuf) && fresh(mainData) && run == [] && header == NO_HEADER
    {
      header := NO_HEADER;
      freeFormat, reserv := 0, 0;
      reservBuf := new byte[CAPACITY](_ => 0);
      mainData := new byte[CAPACITY + MAX_FREE_FORMAT](_ => 0);
      mainPos, mainLimit := 0, 0;
      run := [];
    }

    /** drmp3_L3_restore_reservoir. */
    method RestoreReservoir(payload: seq<byte>, begin: nat, ghost f: Frame) returns (enough: bool)
      requires f.payload == payload && f.begin == begin
      requires Valid() && |payload| <= MAX_FREE_FORMAT
      modifies mainData, this`mainPos, this`mainLimit
      ensures Valid() && mainPos == 0
      ensures mainLimit == 8 * |MainData(After(run), f)| <= 8 * mainData.Length
      ensures mainData[..mainLimit / 8] == MainData(After(run), f)
      ensures enough == Accepts(After(run), f)
    {
      hide Reservoir.After, Checked;
      var have := if begin < reserv then begin else reserv;
      var from := if begin < reserv then reserv - begin else 0;
      forall k | 0 <= k < have {
        mainData[k] := reservBuf[from + k];
      }
      forall k | 0 <= k < |payload| {
        mainData[have + k] := payload[k];
      }
      mainPos, mainLimit := 0, 8 * (have + |payload|);
      enough := reserv >= begin;
      ghost var r := After(run);
      assert r == reservBuf[..reserv];
      assert mainData[..have + |payload|] == r[from..] + payload;
    }

    /** drmp3_L3_save_reservoir. */
    method SaveReservoir()
      requires reservBuf.Length == CAPACITY && reservBuf != mainData
      requires mainPos <= mainLimit <= 8 * mainData.Length && mainLimit % 8 == 0
      modifies reservBuf, this`reserv
      ensures 0 <= reserv <= CAPACITY
      ensures reservBuf[..reserv] == Leftover(mainData[..mainLimit / 8], mainPos)
    {
      var pos := (mainPos + 7) / 8;
      var remains := mainLimit / 8 - pos;
      if remains > CAPACITY {
        pos := pos + remains - CAPACITY;
        remains := CAPACITY;
      }
      if remains > 0 {
        forall k | 0 <= k < remains {
          reservBuf[k] := mainData[pos + k];
        }
      }
      reserv := remains;
    }

    /**
     * The granule loops of one frame. A record's scale factors take `scalefactorBits` of its
     * bits; the Huffman decoder then always leaves the position at the record's end, whatever
     * it read in between.
     */
    method DecodeGranules(h: Header, grs: seq<Granule>, scalefactorBits: seq<nat>)
      requires |grs| == GranuleCount(h) <= |scalefactorBits|
      modifies this`mainPos
      ensures mainPos == old(mainPos) + PartSum(grs)
    {
      hide IsMpeg1, IsMono;
      ghost var start := mainPos;
      var i := 0;
      for granule := 0 to if IsMpeg1(h) then 2 else 1
        invariant i == granule * Channels(h) && mainPos == start + PartSum(grs[..i])
      {
        for channel := 0 to Channels(h)
          invariant i == granule * Channels(h) + channel <= |grs|
          invariant mainPos == start + PartSum(grs[..i])
        {
          var granuleLimit := mainPos + grs[i].part23Length;
          mainPos := mainPos + scalefactorBits[i];
          mainPos := granuleLimit;
          assert grs[..i + 1][..i] == grs[..i];
          i := i + 1;
        }
      }
      assert grs[..i] == grs;
    }

    /** Restore the reservoir, decode the granules if they are wanted and complete, save it. */
    method FeedFrame(h: Header, side: SideResult, payload: seq<byte>, pcm: bool, scalefactorBits: seq<nat>)
      returns (enough: bool)
      requires Valid() && |payload| <= MAX_FREE_FORMAT
      requires side.Good? && |side.granules| == GranuleCount(h) <= |scalefactorBits|
      requires Frame(side.mainDataBegin, payload, PartSum(side.granules)).Checked()
      modifies `run, `reserv, `mainPos, `mainLimit, reservBuf, mainData
      ensures Valid()
      ensures var f := Frame(side.mainDataBegin, payload, PartSum(side.granules));
              run == old(run) + [Feed(f, pcm)] && enough == Accepts(After(old(run)), f)
    {
      hide Reservoir.After, PartSum, GranuleCount, MainData, Leftover;
      ghost var f := Frame(side.mainDataBegin, payload, PartSum(side.granules));
      ghost var before := run;
      enough := RestoreReservoir(payload, side.mainDataBegin, f);
      if enough && pcm {
        DecodeGranules(h, side.granules, scalefactorBits);
      }
      ConsumedFits(After(before), Feed(f, pcm));
      SaveReservoir();
      run := run + [Feed(f, pcm)];
      AppendEvent(before, Feed(f, pcm));
    }

    /**
     * The Layer III branch of drmp3dec_decode_frame. A frame with bad side information makes
     * the next call start over; any other frame feeds the reservoir, and yields samples
     * exactly if the reservoir reaches back far enough.
     */
    method DecodeLayer3(h: Header, body: seq<byte>, limit: int, pcm: bool, scalefactorBits: seq<nat>)
      returns (samples: nat)
      requires Valid() && header == h
      requires limit <= 8 * |body| <= 8 * MAX_FREE_FORMAT && limit % 8 == 0
      requires |scalefactorBits| == 4
      modifies `header, `run, `reserv, `mainPos, `mainLimit, reservBuf, mainData
      ensures Valid() && Layer3Outcome(Parse(body, limit, h), h, pcm, old(run), run, header, samples)
    {
      hide SideInfoAt, PartSum, SideBytes, GranuleCount, FrameSamples, Reservoir.After;
      var bs := new Reader(body, limit / 8);
      if HasCrc(h) {
        var _ := bs.GetBits(16);
      }
      ghost var sideAt := bs.pos;
      var side := ReadSideInfo(bs, h);
      if side.Bad? || bs.pos > bs.limit {
        header := h.(b0 := 0);
        return 0;
      }
      AcceptedSideInfo(body, limit, sideAt, h);
      var payload := body[bs.pos / 8..bs.pos / 8 + (bs.limit - bs.pos) / 8];
      var enough := FeedFrame(h, side, payload, pcm, scalefactorBits);
      return if enough then FrameSamples(h) else 0;
    }

    /**
     * The first half of drmp3dec_decode_frame: stay in step with the remembered stream, or
     * start over and search for a frame. Size 0 means there is none.
     */
    method Sync(mp3: seq<byte>) returns (at: nat, size: nat)
      requires Valid()
      modifies `header, `freeFormat, `reserv, `run
      ensures Valid() && at + size <= |mp3|
      ensures SyncResult(old(header), old(freeFormat), mp3, at, size, freeFormat)
      ensures if Continues(old(header), old(freeFormat), mp3) then run == old(run) && header == old(header)
              else run == old(run) + [Reset] && header == NO_HEADER
      ensures if size == 0 then at == |mp3| && header == NO_HEADER else at + HDR_SIZE < |mp3|
      ensures size != 0 && LayerBits(HeaderAt(mp3, at)) == 1 ==> size <= MAX_FREE_FORMAT
    {
      hide IsValid, FrameStep, Reservoir.After;
      at, size := 0, 0;
      if |mp3| > HDR_SIZE && header.b0 == 0xff && Matches(header, HeaderAt(mp3, 0)) {
        ValidIfMatches(header, HeaderAt(mp3, 0));
        Layer3Step(HeaderAt(mp3, 0), freeFormat);
        size := FrameStep(HeaderAt(mp3, 0), freeFormat);
        if size != |mp3| && (|mp3| < size + HDR_SIZE || !Matches(HeaderAt(mp3, 0), HeaderAt(mp3, size))) {
          size := 0;
        }
      }
      if size == 0 {
        AppendEvent(run, Reset);
        reserv, header, run := 0, NO_HEADER, run + [Reset];
        at, size, freeFormat := FindFrame(mp3);
        if size != 0 {
          FoundBounds(mp3, at, size, freeFormat);
          Layer3Step(HeaderAt(mp3, at), 0);
        }
      }
    }

    /**
     * drmp3dec_decode_frame. `pcm` says whether samples are wanted; the two oracles stand for
     * the sample decoding that is left out. Returns the number of samples, how many bytes the
     * call used up, where the frame it looked at began, and the run before that frame.
     */
    method DecodeFrame(mp3: seq<byte>, pcm: bool, scalefactorBits: seq<nat>, layer12Overrun: bool)
      returns (samples: nat, used: nat, ghost at: nat, ghost before: seq<Event>)
      requires Valid() && |scalefactorBits| == 4
      modifies this, reservBuf, mainData
      ensures Valid()
      ensures used <= |mp3| && (used == 0 <==> mp3 == [])
      ensures before == Resynced(Memory(old(header), old(freeFormat), old(run)), mp3)
      ensures FrameOutcome(mp3, at, used, pcm, before, run, header, samples)
      ensures CallOutcome(Memory(old(header), old(freeFormat), old(run)), mp3, pcm,
                          Call(at, used, samples, Memory(header, freeFormat, run)))
    {
      hide Continues, FirstFound, FrameStep, Reservoir.After, Parse, FrameSamples, GranuleCount, SyncResult;
      var i, frameSize := Sync(mp3);
      at, before := i, run;
      if frameSize == 0 {
        return 0, i, at, before;
      }
      var hdr := HeaderAt(mp3, i);
      header := hdr;
      used := i + frameSize;
      if LayerBits(hdr) == 1 {
        var body := FrameBody(mp3, i, frameSize);
        samples := DecodeLayer3(hdr, body, 8 * (frameSize - HDR_SIZE), pcm, scalefactorBits);
      } else if !pcm {
        samples := FrameSamples(hdr);
      } else if layer12Overrun {
        header := hdr.(b0 := 0);
        samples := 0;
      } else {
        samples := FrameSamples(hdr);
      }
    }
  }

  /** The data goes on with a frame of the remembered stream, which ends the data or is followed by another. */
  ghost predicate Continues(header: Header, freeFormat: nat, mp3: seq<byte>) {
    && |mp3| > HDR_SIZE && header.b0 == 0xff && Matches(header, HeaderAt(mp3, 0))
    && var size := FrameStep(HeaderAt(mp3, 0), freeFormat);
       && size != 0
       && (size == |mp3| || (size + HDR_SIZE <= |mp3| && Matches(HeaderAt(mp3, 0), HeaderAt(mp3, size))))
  }

  /** The frame a call looks at: the next one of the remembered stream, or the first that a search finds. */
  ghost predicate SyncResult(header: Header, freeFormat: nat, mp3: seq<byte>, at: nat, size: nat, newFreeFormat: nat) {
    if Continues(header, freeFormat, mp3)
    then at == 0 && size == FrameStep(HeaderAt(mp3, 0), freeFormat) && newFreeFormat == freeFormat
    else FirstFound(mp3, at, size, newFreeFormat)
  }

  /**
   * In a stream cut into frames of one kind every call looks at the frame it stands before,
   * whatever the decoder remembers: after a jump, when up to ten further headers have to match,
   * just as in continuous decoding, when one is enough.
   */
  lemma FramedIsCut(stream: seq<byte>, pos: seq<nat>, k: nat, end: nat,
                    header: Header, freeFormat: nat, at: nat, size: nat, newFreeFormat: nat)
    requires Framed(stream, pos) && k + 1 < |pos| && pos[k] <= pos[k + 1] <= end <= |stream|
    requires end == pos[k + 1] || pos[k + 1] + HDR_SIZE <= end
    requires SyncResult(header, freeFormat, stream[pos[k]..end], at, size, newFreeFormat)
    ensures at == 0 && size == pos[k + 1] - pos[k]
  {
    hide FirstFound, Matches, IsValid, FrameBytes, Padding;
    var w := stream[pos[k]..end];
    FramedIsFound(stream, pos, k, end);
    if Continues(header, freeFormat, w) {
      assert FramedAt(stream, pos[k], pos[k + 1]);
      TabulatedStep(HeaderAt(stream, pos[k]), freeFormat);
    } else {
      FirstFoundOnce(w, at, size, newFreeFormat, 0, pos[k + 1] - pos[k], 0);
    }
  }

  /** What a Layer III frame does to the run, the remembered header and the sample count. */
  ghost predicate Layer3Outcome(parsed: Option<Frame>, h: Header, pcm: bool, before: seq<Event>,
                                after: seq<Event>, header: Header, samples: nat)
    requires Checked(before)
  {
    match parsed
    case None => samples == 0 && after == before && header == h.(b0 := 0)
    case Some(f) =>
      && f.Checked()
      && after == before + [Feed(f, pcm)]
      && samples == (if Accepts(After(before), f) then FrameSamples(h) else 0)
      && header == h
  }

  /** The bytes of a frame after its header. */
  function FrameBody(mp3: seq<byte>, at: nat, size: nat): (body: seq<byte>)
    requires at + size <= |mp3|
  {
    if HDR_SIZE <= size then mp3[at + HDR_SIZE..at + size] else []
  }

  /** What one decoder call does when it looks at the frame mp3[at..end]. */
  ghost predicate FrameOutcome(mp3: seq<byte>, at: nat, end: nat, pcm: bool, before: seq<Event>,
                               after: seq<Event>, header: Header, samples: nat) {
    && Checked(before)
    && if at == end then samples == 0 && after == before && header == NO_HEADER else
      && at < end <= |mp3| && at + HDR_SIZE < |mp3|
      && var h := HeaderAt(mp3, at);
         if LayerBits(h) == 1 then
           Layer3Outcome(Parse(FrameBody(mp3, at, end - at), 8 * (end - at - HDR_SIZE), h), h, pcm, before, after, header, samples)
         else
           && after == before
           && ((samples == FrameSamples(h) && header == h) || (pcm && samples == 0 && header == h.(b0 := 0)))
  }

  // ----- Decoding and counting side by side -----

  /** What a decoder remembers from call to call. */
  datatype Memory = Memory(header: Header, freeFormat: nat, run: seq<Event>)

  /** One call: the frame it looked at, its end, the samples, and what it leaves in memory. */
  datatype Call = Call(at: nat, used: nat, samples: nat, after: Memory)

  ghost function Resynced(m: Memory, mp3: seq<byte>): (run: seq<Event>) {
    if Continues(m.header, m.freeFormat, mp3) then m.run else m.run + [Reset]
  }

  /** A call on the given data, with or without output. */
  ghost predicate CallOutcome(m: Memory, mp3: seq<byte>, pcm: bool, c: Call) {
    && c.at <= c.used && SyncResult(m.header, m.freeFormat, mp3, c.at, c.used - c.at, c.after.freeFormat)
    && FrameOutcome(mp3, c.at, c.used, pcm, Resynced(m, mp3), c.after.run, c.after.header, c.samples)
  }

  /** The calls on one piece of data after the other. */
  ghost predicate History(m: Memory, inputs: seq<seq<byte>>, pcm: bool, calls: seq<Call>)
    decreases |inputs|
  {
    && |calls| == |inputs|
    && (inputs != [] ==> CallOutcome(m, inputs[0], pcm, calls[0]) && History(calls[0].after, inputs[1..], pcm, calls[1..]))
  }

  /** The call looked at a Layer III frame, or found none. */
  predicate LooksAtLayer3(mp3: seq<byte>, c: Call) {
    c.at < c.used && c.at + HDR_SIZE <= |mp3| ==> LayerBits(HeaderAt(mp3, c.at)) == 1
  }

  /** A decoder that only counts remembers what the decoding one does, but has skipped all frames. */
  ghost predicate Alongside(decoding: Memory, counting: Memory) {
    && decoding.header == counting.header && decoding.freeFormat == counting.freeFormat
    && counting.run == Skipping(decoding.run)
  }

  lemma SkippingAppends(run: seq<Event>, e: Event)
    ensures Skipping(run + [e]) == Skipping(run) + [if e.Feed? then Feed(e.frame, false) else Reset]
  {
  }

  /** Two decoders side by side look at the same frame, and the counting one accepts it if the other does. */
  lemma StayAlongside(d: Memory, c: Memory, mp3: seq<byte>, dc: Call, cc: Call)
    requires Alongside(d, c) && CallOutcome(d, mp3, true, dc) && CallOutcome(c, mp3, false, cc) && LooksAtLayer3(mp3, dc)
    ensures Alongside(dc.after, cc.after) && cc.at == dc.at && cc.used == dc.used
    ensures dc.samples != 0 ==> cc.samples == dc.samples
  {
    hide FirstFound, Parse, Continues, Layer3Outcome, LayerBits, Skipping, FrameStep;
    if !Continues(d.header, d.freeFormat, mp3) {
      FirstFoundOnce(mp3, dc.at, dc.used - dc.at, dc.after.freeFormat, cc.at, cc.used - cc.at, cc.after.freeFormat);
    }
    SkippingAppends(d.run, Reset);
    if dc.at < dc.used {
      var h := HeaderAt(mp3, dc.at);
      var parsed := Parse(FrameBody(mp3, dc.at, dc.used - dc.at), 8 * (dc.used - dc.at - HDR_SIZE), h);
      Layer3Alongside(parsed, h, Resynced(d, mp3), dc, cc);
    }
  }

  lemma Layer3Alongside(parsed: Option<Frame>, h: Header, before: seq<Event>, dc: Call, cc: Call)
    requires Checked(before) && Checked(Skipping(before))
    requires Layer3Outcome(parsed, h, true, before, dc.after.run, dc.after.header, dc.samples)
    requires Layer3Outcome(parsed, h, false, Skipping(before), cc.after.run, cc.after.header, cc.samples)
    ensures dc.after.header == cc.after.header && cc.after.run == Skipping(dc.after.run)
    ensures dc.samples != 0 ==> cc.samples == dc.samples
  {
    hide Reservoir.After, FrameSamples, Accepts, Skipping;
    if parsed.Some? {
      SkippingAppends(before, Feed(parsed.value, true));
      if Accepts(After(before), parsed.value) {
        AcceptedWhenSkipped(before, parsed.value);
      }
    }
  }

  /**
   * A decoder that decodes and one that only counts, fed the same Layer III data, look at the
   * same frames with the same headers over any number of calls; their reservoir runs differ
   * only in that the counting one skips every frame, and it counts every frame that decodes.
   */
  lemma {:induction false} CountingFollowsDecoding(d: Memory, c: Memory, inputs: seq<seq<byte>>, dcs: seq<Call>, ccs: seq<Call>)
    requires Alongside(d, c) && History(d, inputs, true, dcs) && History(c, inputs, false, ccs)
    requires forall i :: 0 <= i < |inputs| ==> LooksAtLayer3(inputs[i], dcs[i])
    ensures forall i :: 0 <= i < |inputs| ==>
              && Alongside(dcs[i].after, ccs[i].after) && ccs[i].at == dcs[i].at && ccs[i].used == dcs[i].used
              && (dcs[i].samples != 0 ==> ccs[i].samples == dcs[i].samples)
    decreases |inputs|
  {
    hide CallOutcome, Alongside, LooksAtLayer3;
    if inputs != [] {
      StayAlongside(d, c, inputs[0], dcs[0], ccs[0]);
      CountingFollowsDecoding(dcs[0].after, ccs[0].after, inputs[1..], dcs[1..], ccs[1..]);
    }
  }

  lemma ValidIfMatches(h1: Header, h2: Header)
    requires Matches(h1, h2)
    ensures IsValid(h2)
  {
  }

  /** A Layer III frame always fits the payload buffer. */
  lemma Layer3Step(h: Header, freeFormat: nat)
    requires IsValid(h) && freeFormat < MAX_FREE_FORMAT
    ensures LayerBits(h) == 1 ==> FrameStep(h, freeFormat) <= MAX_FREE_FORMAT
  {
  }
}
