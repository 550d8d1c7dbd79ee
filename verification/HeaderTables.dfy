/**
 * What the bits of a frame header stand for in the standards (ISO/IEC 11172-3, section 2.4.2.3,
 * and ISO/IEC 13818-3): rates, samples and the length of a frame.
 */
module HeaderTables {
  import opened FrameHeader
  import opened Words

  /** Layer I, II and III of MPEG-1, then Layer I and Layers II and III at the lower sampling rates. */
  const MPEG1_LAYER1: seq<nat> := [0, 32, 64, 96, 128, 160, 192, 224, 256, 288, 320, 352, 384, 416, 448]
  const MPEG1_LAYER2: seq<nat> := [0, 32, 48, 56, 64, 80, 96, 112, 128, 160, 192, 224, 256, 320, 384]
  const MPEG1_LAYER3: seq<nat> := [0, 32, 40, 48, 56, 64, 80, 96, 112, 128, 160, 192, 224, 256, 320]
  const MPEG2_LAYER1: seq<nat> := [0, 32, 48, 56, 64, 80, 96, 112, 128, 144, 160, 176, 192, 224, 256]
  const MPEG2_LAYER23: seq<nat> := [0, 8, 16, 24, 32, 40, 48, 56, 64, 80, 96, 112, 128, 144, 160]

  /** The second byte of a header: sync bits, version, layer and protection bit. */
  lemma ValidExactly(h: Header)
    ensures IsValid(h) <==>
              && h.b0 == 255
              && (h.b1 == 0xE2 || h.b1 == 0xE3 || 0xF2 <= h.b1 <= 0xF7 || 0xFA <= h.b1 <= 0xFF)
              && h.b2 < 0xF0 && (h.b2 / 4) % 4 < 3
  {
  }

  lemma BitratesAreStandard(h: Header)
    requires IsValid(h)
    ensures var i := h.b2 / 16;
            var layer1, layer2 := 6 <= h.b1 % 8, 4 <= h.b1 % 8 < 6;
            BitrateKbps(h) == (if (h.b1 / 8) % 2 == 1 then
                                 if layer1 then MPEG1_LAYER1 else if layer2 then MPEG1_LAYER2 else MPEG1_LAYER3
                               else if layer1 then MPEG2_LAYER1 else MPEG2_LAYER23)[i]
  {
  }

  lemma SampleRatesAreStandard(h: Header)
    requires IsValid(h)
    ensures SampleRateHz(h) == (if 0xF8 <= h.b1 then [44100, 48000, 32000]
                                else if 0xF0 <= h.b1 then [22050, 24000, 16000]
                                else [11025, 12000, 8000])[(h.b2 / 4) % 4]
  {
  }

  lemma SamplesAreStandard(h: Header)
    requires IsValid(h)
    ensures FrameSamples(h) == if 6 <= h.b1 % 8 then 384 else if 4 <= h.b1 % 8 || 0xF8 <= h.b1 then 1152 else 576
  {
  }

  /** The stream a header belongs to is told by layer, sample rate and whether the bit rate is free. */
  lemma MatchesExactly(g: Header, h: Header)
    requires IsValid(g) && IsValid(h)
    ensures Matches(g, h) <==>
              && (g.b1 / 2) % 4 == (h.b1 / 2) % 4 && SampleRateHz(g) == SampleRateHz(h)
              && (g.b2 < 16 <==> h.b2 < 16)
  {
  }

  /** A frame without padding is as long as its samples last at its bit rate, in whole slots. */
  lemma FrameLength(h: Header, freeFormat: nat)
    requires IsValid(h) && 16 <= h.b2 && (h.b2 / 2) % 2 == 0
    ensures var kbps, hz := BitrateKbps(h), SampleRateHz(h);
            FrameStep(h, freeFormat) == if 6 <= h.b1 % 8 then 4 * (12000 * kbps / hz)
                                        else if 4 <= h.b1 % 8 || 0xF8 <= h.b1 then 144000 * kbps / hz
                                        else 72000 * kbps / hz
  {
    hide BitrateKbps, SampleRateHz, FrameSamples, FrameBytes, IsValid;
    SamplesAreStandard(h);
    TabulatedBytes(h, freeFormat);
    if 6 <= h.b1 % 8 {
      NineRates(h);
      SlotsOfFour(12000 * BitrateKbps(h), SampleRateHz(h));
    }
  }

  lemma TabulatedBytes(h: Header, freeFormat: nat)
    requires IsValid(h) && 16 <= h.b2
    ensures var n := BytesFor(FrameSamples(h), BitrateKbps(h), SampleRateHz(h));
            FrameBytes(h, freeFormat) == if 6 <= h.b1 % 8 then n - n % 4 else n
  {
    hide BitrateKbps, SampleRateHz, FrameSamples, BytesFor, IsValid;
    PositiveRate(h);
  }

  lemma NineRates(h: Header)
    requires IsValid(h)
    ensures SampleRateHz(h) in [44100, 48000, 32000, 22050, 24000, 16000, 11025, 12000, 8000]
  {
    SampleRatesAreStandard(h);
  }

  /** A frame with a tabulated bit rate holds at least four bytes, so its size is not a free-format one. */
  lemma PositiveRate(h: Header)
    requires IsValid(h) && 16 <= h.b2
    ensures 4 <= BytesFor(FrameSamples(h), BitrateKbps(h), SampleRateHz(h))
  {
    hide FrameSamples, BitrateKbps, SampleRateHz, IsValid;
    var samples, kbps, hz := FrameSamples(h), BitrateKbps(h), SampleRateHz(h);
    RateBounds(h);
    Product(384, samples, 8, kbps);
    Quotient(samples * kbps * 125, hz);
  }

  lemma RateBounds(h: Header)
    requires IsValid(h) && 16 <= h.b2
    ensures 384 <= FrameSamples(h) && 8 <= BitrateKbps(h) && 0 < SampleRateHz(h) <= 48000
  {
  }

  lemma Product(a: nat, b: nat, c: nat, d: nat)
    requires a <= b && c <= d
    ensures a * c <= b * d
  {
    assert a * c <= b * c <= b * d;
  }

  lemma Quotient(x: nat, y: nat)
    requires 0 < y && 4 * y <= x
    ensures 4 <= x / y
  {
    AtLeast(x, 4, y);
  }

  lemma AtLeast(x: nat, q: nat, y: nat)
    requires 0 < y && q * y <= x
    ensures q <= x / y
  {
    var e := x / y;
    assert q * y < (e + 1) * y;
    Ordered(q, e + 1, y);
  }

  lemma Ordered(a: int, b: int, y: nat)
    requires a * y < b * y
    ensures a < b
  {
  }

  /** In slots of four bytes; there are nine sample rates. */
  lemma SlotsOfFour(a: nat, hz: nat)
    requires hz in [44100, 48000, 32000, 22050, 24000, 16000, 11025, 12000, 8000]
    ensures 4 * a / hz - (4 * a / hz) % 4 == 4 * (a / hz)
  {
    if hz == 44100 {
    } else if hz == 48000 {
    } else if hz == 32000 {
    } else if hz == 22050 {
    } else if hz == 24000 {
    } else if hz == 16000 {
    } else if hz == 11025 {
    } else if hz == 12000 {
    }
  }

  /** The padding bit makes a frame longer by one slot: four bytes in Layer I, one in the others. */
  lemma PaddingLengthens(g: Header, h: Header, freeFormat: nat)
    requires IsValid(g) && h == g.(b2 := g.b2 + 2) && (g.b2 / 2) % 2 == 0
    ensures IsValid(h) && FrameStep(h, freeFormat) == FrameStep(g, freeFormat) + if 6 <= g.b1 % 8 then 4 else 1
  {
    hide FrameBytes;
    assert h.b2 / 16 == g.b2 / 16 && (h.b2 / 4) % 4 == (g.b2 / 4) % 4;
    SameBytes(g, h, freeFormat);
  }

  lemma SameBytes(g: Header, h: Header, freeFormat: nat)
    requires IsValid(g) && IsValid(h) && g.b1 == h.b1 && h.b2 / 16 == g.b2 / 16 && (h.b2 / 4) % 4 == (g.b2 / 4) % 4
    ensures FrameBytes(h, freeFormat) == FrameBytes(g, freeFormat)
  {
  }

  /** A free-format frame has the size found for its stream. */
  lemma FreeFormatLength(h: Header, freeFormat: nat)
    requires IsValid(h) && h.b2 < 16 && (h.b2 / 2) % 2 == 0
    ensures FrameStep(h, freeFormat) == freeFormat
  {
  }

  // ----- An ordinary stream -----

  /** MPEG-1 Layer III at 128 kbit/s and 44.1 kHz, joint stereo: 417 bytes, 418 with padding. */
  const SHORT_FRAME := Header(0xFF, 0xFB, 0x90, 0x40)
  const LONG_FRAME := Header(0xFF, 0xFB, 0x92, 0x40)

  lemma OrdinaryFrames()
    ensures IsValid(SHORT_FRAME) && FrameBytes(SHORT_FRAME, 0) == 417 == FrameStep(SHORT_FRAME, 0)
    ensures IsValid(LONG_FRAME) && FrameBytes(LONG_FRAME, 0) == 417 && FrameStep(LONG_FRAME, 0) == 418
    ensures FrameSamples(SHORT_FRAME) == FrameSamples(LONG_FRAME) == 1152 && Channels(SHORT_FRAME) == 2
    ensures LayerBits(SHORT_FRAME) == LayerBits(LONG_FRAME) == 1 && !HasCrc(SHORT_FRAME) && IsMpeg1(SHORT_FRAME)
    ensures Matches(SHORT_FRAME, LONG_FRAME) && Matches(LONG_FRAME, SHORT_FRAME)
    ensures Matches(SHORT_FRAME, SHORT_FRAME) && Matches(LONG_FRAME, LONG_FRAME)
  {
  }

  /** Frames of both lengths, whatever they carry, make a stream that is cut where the frames meet. */
  lemma MixedStreamIsFramed(a: seq<byte>, b: seq<byte>, c: seq<byte>)
    requires |a| == 413 && |b| == |c| == 414
    ensures Framed([0xFF, 0xFB, 0x90, 0x40] + a + [0xFF, 0xFB, 0x92, 0x40] + b + [0xFF, 0xFB, 0x92, 0x40] + c,
                   [0, 417, 835, 1253])
  {
    hide IsValid, FrameBytes, Padding, Matches;
    OrdinaryFrames();
    var stream := [0xFF, 0xFB, 0x90, 0x40] + a + [0xFF, 0xFB, 0x92, 0x40] + b + [0xFF, 0xFB, 0x92, 0x40] + c;
    assert HeaderAt(stream, 0) == SHORT_FRAME;
    assert HeaderAt(stream, 417) == LONG_FRAME;
    assert HeaderAt(stream, 835) == LONG_FRAME;
  }
}
