/**
 * A byte stream cut into Layer III frames: what a decoder call makes of the frame it stands
 * before, told by the reservoir level alone.
 */
module FramedBytes {
  import opened AcceptedFrames
  import opened Decoder
  import opened FrameHeader
  import opened Reservoir
  import opened Words
  import opened Wrappers

  /** Byte positions of the frames and of the end, and what the frames ask of the reservoir. */
  datatype Layout = Layout(pos: seq<nat>, frames: seq<SoundFrame>)

  /** The bytes from p to q are a Layer III frame with the side information and main data of f. */
  ghost predicate Carries(stream: seq<byte>, p: nat, q: nat, f: SoundFrame) {
    && p + HDR_SIZE <= q <= |stream| && LayerBits(HeaderAt(stream, p)) == 1
    && Parse(stream[p + HDR_SIZE..q], 8 * (q - p - HDR_SIZE), HeaderAt(stream, p)) == Some(f)
  }

  /** The stream consists of the frames of the layout. */
  ghost predicate LaidOut(stream: seq<byte>, l: Layout) {
    && Framed(stream, l.pos) && |l.pos| == |l.frames| + 1
    && forall k :: 0 <= k < |l.frames| ==> Carries(stream, l.pos[k], l.pos[k + 1], l.frames[k])
  }

  /** The decoder is before frame s.at with s.fill bytes in its reservoir; with no header it will start over. */
  ghost predicate Remembers(m: Memory, stream: seq<byte>, l: Layout, s: Spot)
    requires LaidOut(stream, l)
  {
    && s.at <= |l.frames| && Checked(m.run)
    && if m.header.b0 != 0xff then s.fill == 0
       else
         && |After(m.run)| == s.fill
         && (s.at < |l.frames| ==>
               l.pos[s.at] + HDR_SIZE <= |stream| && Matches(m.header, HeaderAt(stream, l.pos[s.at])))
  }

  /** The window shows the frame and the next header, or ends with the frame. */
  predicate Shows(l: Layout, k: nat, end: nat)
    requires k + 1 < |l.pos|
  {
    end == l.pos[k + 1] || l.pos[k + 1] + HDR_SIZE <= end
  }

  /** A decoder that remembers a header of the stream goes on without starting over. */
  lemma FramedContinues(stream: seq<byte>, l: Layout, k: nat, end: nat, header: Header, freeFormat: nat)
    requires LaidOut(stream, l) && k < |l.frames| && l.pos[k] + HDR_SIZE <= l.pos[k + 1] <= end <= |stream| && Shows(l, k, end)
    requires header.b0 == 0xff && Matches(header, HeaderAt(stream, l.pos[k]))
    ensures Continues(header, freeFormat, stream[l.pos[k]..end])
  {
    hide Matches, IsValid, FrameBytes, Padding, Parse;
    assert FramedAt(stream, l.pos[k], l.pos[k + 1]);
    TabulatedStep(HeaderAt(stream, l.pos[k]), freeFormat);
    var w, size := stream[l.pos[k]..end], l.pos[k + 1] - l.pos[k];
    assert HeaderAt(w, 0) == HeaderAt(stream, l.pos[k]);
    if size != |w| {
      PositionsGrow(stream, l.pos, k + 1, |l.pos| - 1);
      assert k + 2 < |l.pos|;
      assert HeaderAt(w, size) == HeaderAt(stream, l.pos[k + 1]);
    }
  }

  /**
   * A decoder call before a frame uses exactly the bytes of that frame, yields samples if and
   * only if the level reaches the pointer, and leaves the level that the frame leaves.
   */
  lemma CallTakesFrame(stream: seq<byte>, l: Layout, s: Spot, end: nat, m: Memory, pcm: bool, c: Call)
    requires LaidOut(stream, l) && s.at < |l.frames| && Remembers(m, stream, l, s)
    requires l.pos[s.at] <= l.pos[s.at + 1] <= end <= |stream| && Shows(l, s.at, end)
    requires CallOutcome(m, stream[l.pos[s.at]..end], pcm, c)
    ensures c.at == 0 && c.used == l.pos[s.at + 1] - l.pos[s.at] && l.pos[s.at] + HDR_SIZE <= |stream|
    ensures c.samples == if Takes(l.frames, s) then FrameSamples(HeaderAt(stream, l.pos[s.at])) else 0
    ensures Remembers(c.after, stream, l, Past(l.frames, s, pcm))
  {
    hide Framed, Matches, Continues, SyncResult, Parse, Step, Fill, FrameSamples, LayerBits, After, Resynced, FrameBody;
    var k, w := s.at, stream[l.pos[s.at]..end];
    var h, f := HeaderAt(stream, l.pos[k]), l.frames[k];
    assert Carries(stream, l.pos[k], l.pos[k + 1], f);
    FrameAtSpot(stream, l, k);
    FramedIsCut(stream, l.pos, k, end, m.header, m.freeFormat, c.at, c.used - c.at, c.after.freeFormat);
    assert HeaderAt(w, 0) == h;
    BodyInWindow(stream, l.pos[k], l.pos[k + 1], end);
    ResyncedLevel(stream, l, s, end, m);
    FillIsReservoir(After(Resynced(m, w)), f, pcm);
    AppendEvent(Resynced(m, w), Feed(f, pcm));
  }

  lemma BodyInWindow(stream: seq<byte>, p: nat, q: nat, end: nat)
    requires p + HDR_SIZE <= q <= end <= |stream|
    ensures FrameBody(stream[p..end], 0, q - p) == stream[p + HDR_SIZE..q]
  {
    SliceOfSlice(stream, p, end, HDR_SIZE, q - p);
  }

  lemma SliceOfSlice<T>(s: seq<T>, a: nat, b: nat, c: nat, d: nat)
    requires a <= b <= |s| && c <= d <= b - a
    ensures s[a..b][c..d] == s[a + c..a + d]
  {
    var t, u, v := s[a..b], s[a..b][c..d], s[a + c..a + d];
    assert |u| == |v|;
    forall i | 0 <= i < |u| ensures u[i] == v[i] {
      assert u[i] == t[c + i] == s[a + c + i];
    }
  }

  /** The reservoir a call starts with has the level of the spot. */
  lemma ResyncedLevel(stream: seq<byte>, l: Layout, s: Spot, end: nat, m: Memory)
    requires LaidOut(stream, l) && s.at < |l.frames| && Remembers(m, stream, l, s)
    requires l.pos[s.at] + HDR_SIZE <= l.pos[s.at + 1] <= end <= |stream| && Shows(l, s.at, end)
    ensures var run := Resynced(m, stream[l.pos[s.at]..end]); Checked(run) && |After(run)| == s.fill
  {
    hide Framed, Carries, Matches, Continues, After, Step;
    var w := stream[l.pos[s.at]..end];
    if Continues(m.header, m.freeFormat, w) {
      ContinuesNeedsHeader(m.header, m.freeFormat, w);
    } else {
      JumpEmpties(m.run);
      if m.header.b0 == 0xff {
        FramedContinues(stream, l, s.at, end, m.header, m.freeFormat);
      }
    }
  }

  lemma ContinuesNeedsHeader(header: Header, freeFormat: nat, w: seq<byte>)
    requires Continues(header, freeFormat, w)
    ensures header.b0 == 0xff
  {
  }

  /** A frame of the stream: a header to remember, which the next frame's matches. */
  lemma FrameAtSpot(stream: seq<byte>, l: Layout, k: nat)
    requires LaidOut(stream, l) && k < |l.frames|
    ensures l.pos[k] + HDR_SIZE < l.pos[k + 1] <= |stream|
    ensures HeaderAt(stream, l.pos[k]).b0 == 0xff
    ensures k + 1 < |l.frames| ==>
              l.pos[k + 1] + HDR_SIZE <= |stream| && Matches(HeaderAt(stream, l.pos[k]), HeaderAt(stream, l.pos[k + 1]))
  {
    hide Matches, Parse, FrameBytes, Padding;
    assert FramedAt(stream, l.pos[k], l.pos[k + 1]);
  }

  /** A Layer III frame with a tabulated size is at most 1441 bytes long. */
  lemma FrameIsShort(stream: seq<byte>, l: Layout, k: nat)
    requires LaidOut(stream, l) && k < |l.frames|
    ensures l.pos[k] < l.pos[k + 1] <= l.pos[k] + 1441 && l.pos[k + 1] <= |stream|
  {
    hide Matches, Parse, FrameBytes, IsValid;
    assert FramedAt(stream, l.pos[k], l.pos[k + 1]);
    assert Carries(stream, l.pos[k], l.pos[k + 1], l.frames[k]);
    ShortStep(HeaderAt(stream, l.pos[k]));
  }

  lemma ShortStep(h: Header)
    requires IsValid(h) && LayerBits(h) == 1 && FrameBytes(h, 0) != 0
    ensures FrameStep(h, 0) <= 1441
  {
    hide FrameBytes;
    Layer3FrameBytes(h, 0);
  }

  /** A window of 16K, or one that reaches the end of the stream, shows enough. */
  lemma WindowShows(stream: seq<byte>, l: Layout, k: nat, end: nat)
    requires LaidOut(stream, l) && k < |l.frames| && end <= |stream|
    requires end == |stream| || l.pos[k] + 16384 <= end
    ensures l.pos[k] < l.pos[k + 1] <= end && Shows(l, k, end)
  {
    hide Matches, Parse, FrameBytes, IsValid, Padding;
    FrameIsShort(stream, l, k);
    if k + 1 < |l.frames| {
      FrameIsShort(stream, l, k + 1);
      assert FramedAt(stream, l.pos[k + 1], l.pos[k + 2]);
    }
  }
}
