/** Runs of frame headers: what the look ahead, the free-format search and the continuation test see. */
module HeaderRuns {
  import opened Words
  import opened FrameHeader
  import opened HeaderTables
  import opened Reservoir
  import opened Decoder
  import opened Wrappers

  /** Headers that lie one frame apart each, the last one perhaps of no frame. */
  ghost predicate Chain(data: seq<byte>, ps: seq<nat>, frameBytes: nat) {
    && ps != []
    && (forall k :: 0 <= k < |ps| ==> ps[k] + 4 <= |data|)
    && (forall k :: 0 <= k < |ps| - 1 ==> Follows(data, ps[k], ps[k + 1], frameBytes))
  }

  ghost predicate Follows(data: seq<byte>, p: nat, q: nat, frameBytes: nat)
    requires p + 4 <= |data|
  {
    IsValid(HeaderAt(data, p)) && q == p + FrameStep(HeaderAt(data, p), frameBytes)
  }

  ghost predicate AllMatch(data: seq<byte>, h: Header, ps: seq<nat>)
    requires forall k :: 0 <= k < |ps| ==> ps[k] + 4 <= |data|
  {
    forall k :: 1 <= k < |ps| ==> Matches(h, HeaderAt(data, ps[k]))
  }

  lemma {:induction false} RunMatches(data: seq<byte>, h: Header, i: nat, frameBytes: nat, left: nat, ps: seq<nat>)
    requires i + 4 <= |data| && IsValid(HeaderAt(data, i)) && SyncRun(data, h, i, frameBytes, left)
    requires Chain(data, ps, frameBytes) && ps[0] == i && |ps| <= left + 1
    ensures AllMatch(data, h, ps)
    decreases left
  {
    hide IsValid, FrameStep, Matches;
    if 2 <= |ps| {
      assert Follows(data, ps[0], ps[1], frameBytes);
      var rest := ps[1..];
      assert rest[0] == ps[1];
      assert Chain(data, rest, frameBytes) by {
        forall k | 0 <= k < |rest| - 1 ensures Follows(data, rest[k], rest[k + 1], frameBytes) {
          assert Follows(data, ps[k + 1], ps[k + 2], frameBytes);
        }
      }
      MatchIsValid(h, HeaderAt(data, ps[1]));
      RunMatches(data, h, ps[1], frameBytes, left - 1, rest);
      forall k | 1 <= k < |ps| ensures Matches(h, HeaderAt(data, ps[k])) {
        assert k == 1 || ps[k] == rest[k - 1];
      }
    }
  }

  lemma MatchIsValid(g: Header, h: Header)
    ensures Matches(g, h) ==> IsValid(h)
  {
  }

  lemma {:induction false} RunBreaks(data: seq<byte>, h: Header, i: nat, frameBytes: nat, left: nat) returns (ps: seq<nat>)
    requires i + 4 <= |data| && IsValid(HeaderAt(data, i)) && !SyncRun(data, h, i, frameBytes, left)
    ensures Chain(data, ps, frameBytes) && ps[0] == i && |ps| <= left + 1 && !AllMatch(data, h, ps)
    decreases left
  {
    hide IsValid, FrameStep, Matches;
    var next := i + FrameStep(HeaderAt(data, i), frameBytes);
    if Matches(h, HeaderAt(data, next)) {
      MatchIsValid(h, HeaderAt(data, next));
      var rest := RunBreaks(data, h, next, frameBytes, left - 1);
      ps := [i] + rest;
      assert Follows(data, i, rest[0], frameBytes);
      forall k | 0 <= k < |ps| - 1 ensures Follows(data, ps[k], ps[k + 1], frameBytes) {
        assert k == 0 || Follows(data, rest[k - 1], rest[k], frameBytes);
      }
      var k :| 1 <= k < |rest| && !Matches(h, HeaderAt(data, rest[k]));
      assert ps[k + 1] == rest[k];
    } else {
      ps := [i, next];
      assert Follows(data, ps[0], ps[1], frameBytes);
      assert !Matches(h, HeaderAt(data, ps[1]));
    }
  }

  /** A frame is in step exactly if one header follows in the data and up to ten that follow all match. */
  lemma SyncedExactly(data: seq<byte>, at: nat, frameBytes: nat)
    requires at + 4 <= |data| && IsValid(HeaderAt(data, at))
    ensures Synced(data, at, frameBytes) <==>
              && 0 < frameBytes && at + FrameStep(HeaderAt(data, at), frameBytes) + 4 <= |data|
              && forall ps :: Chain(data, ps, frameBytes) ==>
                   ps[0] == at && |ps| <= 11 ==> AllMatch(data, HeaderAt(data, at), ps)
  {
    hide IsValid, FrameStep, Matches, SyncRun, AllMatch;
    var h := HeaderAt(data, at);
    if SyncRun(data, h, at, frameBytes, 10) {
      forall ps | Chain(data, ps, frameBytes) && ps[0] == at && |ps| <= 11 ensures AllMatch(data, h, ps) {
        RunMatches(data, h, at, frameBytes, 10, ps);
      }
    } else {
      var ps := RunBreaks(data, h, at, frameBytes, 10);
    }
  }

  /** The padding of a header: one slot if its padding bit is set. */
  function Slot(h: Header): (n: nat) {
    if (h.b2 / 2) % 2 == 0 then 0 else if 6 <= h.b1 % 8 then 4 else 1
  }

  /**
   * A distance k is that of a free-format stream exactly if a matching header lies k bytes on, and
   * another one behind a second frame, whose length differs from k only by the padding of the two.
   */
  lemma FreeFormatExactly(data: seq<byte>, i: nat, k: nat)
    requires i + 2 * k + 4 < |data| && 4 <= k && IsValid(HeaderAt(data, i))
    ensures var h, g := HeaderAt(data, i), HeaderAt(data, i + k);
            var second := k - Slot(h) + Slot(g);
            FreeFormatAt(data, i, k) <==>
              && Matches(h, g) && i + k + second + 4 <= |data| && Matches(h, HeaderAt(data, i + k + second))
  {
    hide IsValid, Matches;
  }

  /**
   * A frame with a tabulated bit rate is found where its header lies exactly if the data is that
   * frame and nothing else, or it is in step: a frame at the end of longer data is not.
   */
  lemma FoundExactly(data: seq<byte>, at: nat, size: nat, freeFormat: nat)
    requires at + 4 < |data| && IsValid(HeaderAt(data, at)) && 16 <= HeaderAt(data, at).b2
    ensures var h := HeaderAt(data, at);
            FrameFound(data, at, size, freeFormat) <==>
              && freeFormat == 0 && size == FrameStep(h, 0)
              && ((at == 0 && size == |data|)
                  || (&& at + size + 4 <= |data|
                      && forall ps :: Chain(data, ps, FrameBytes(h, 0)) ==>
                           ps[0] == at && |ps| <= 11 ==> AllMatch(data, h, ps)))
  {
    hide IsValid, FrameBytes, Padding, Matches, SyncRun, AllMatch, Chain, BytesFor;
    var h := HeaderAt(data, at);
    TabulatedSize(h);
    SyncedExactly(data, at, FrameBytes(h, 0));
  }

  lemma TabulatedSize(h: Header)
    requires IsValid(h) && 16 <= h.b2
    ensures 4 <= FrameBytes(h, 0) && FrameStep(h, FrameBytes(h, 0)) == FrameStep(h, 0)
  {
    hide BytesFor, IsValid;
    TabulatedBytes(h, 0);
    TabulatedBytes(h, FrameBytes(h, 0));
    PositiveRate(h);
  }

  /** Both headers are valid and agree in layer, sample rate and whether the bit rate is free. */
  predicate SameStream(g: Header, h: Header) {
    && IsValid(g) && IsValid(h)
    && (g.b1 / 2) % 4 == (h.b1 / 2) % 4 && SampleRateHz(g) == SampleRateHz(h) && (g.b2 < 16 <==> h.b2 < 16)
  }

  /**
   * A call goes on from the frame before, with the reservoir it left, exactly if the data starts
   * with a frame of the remembered stream that ends with the data or at another such frame.
   */
  lemma GoesOnExactly(m: Memory, mp3: seq<byte>)
    requires m.header.b0 == 0xff ==> IsValid(m.header)
    ensures Resynced(m, mp3) == m.run <==>
              && 4 < |mp3| && SameStream(m.header, HeaderAt(mp3, 0))
              && var size := FrameStep(HeaderAt(mp3, 0), m.freeFormat);
                 && 0 < size
                 && (size == |mp3| || (size + 4 <= |mp3| && SameStream(HeaderAt(mp3, 0), HeaderAt(mp3, size))))
    ensures Resynced(m, mp3) != m.run ==> Resynced(m, mp3) == m.run + [Reset]
  {
    hide FrameStep, IsValid, Matches, SampleRateHz;
    ValidExactly(m.header);
    if 4 < |mp3| {
      MatchIsSameStream(m.header, HeaderAt(mp3, 0));
      if Matches(m.header, HeaderAt(mp3, 0)) && IsValid(m.header) {
        MatchIsValid(m.header, HeaderAt(mp3, 0));
        var size := FrameStep(HeaderAt(mp3, 0), m.freeFormat);
        if size + 4 <= |mp3| {
          MatchIsSameStream(HeaderAt(mp3, 0), HeaderAt(mp3, size));
        }
      }
    }
    assert |m.run + [Reset]| == |m.run| + 1;
  }

  lemma MatchIsSameStream(g: Header, h: Header)
    ensures IsValid(g) ==> (Matches(g, h) <==> SameStream(g, h))
  {
    hide SampleRateHz;
    if IsValid(g) && IsValid(h) {
      MatchesExactly(g, h);
    }
  }

  /** Without a frame, or after one with bad side information, the next call starts over. */
  lemma StartsOver(m: Memory, mp3: seq<byte>, pcm: bool, c: Call, next: seq<byte>)
    requires CallOutcome(m, mp3, pcm, c)
    requires c.at < c.used ==>
               && c.at + 4 <= |mp3| && c.used <= |mp3| && LayerBits(HeaderAt(mp3, c.at)) == 1
               && 4 <= c.used - c.at
               && Parse(mp3[c.at + 4..c.used], 8 * (c.used - c.at - 4), HeaderAt(mp3, c.at)) == None
    ensures c.samples == 0 && Resynced(c.after, next) == c.after.run + [Reset]
  {
    hide Parse, FirstFound, Continues;
    assert c.after.header.b0 == 0;
    NoHeader(c.after, next);
  }

  lemma NoHeader(m: Memory, mp3: seq<byte>)
    requires m.header.b0 == 0
    ensures !Continues(m.header, m.freeFormat, mp3)
  {
  }
}
