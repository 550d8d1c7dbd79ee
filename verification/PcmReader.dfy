/**
 * The pull reader of the MP3 decoder over a stream cut into frames: reading PCM frames,
 * seeking by brute force, and building and using a seek table.
 */
module PcmReader {
  import opened AcceptedFrames
  import opened FramedStream
  import opened PcmStream
  import opened SeekTable
  import opened Wrappers

  /** Unsigned 64-bit wrap-around. */
  function Wrap64(x: int): (r: nat) {
    x % 0x1_0000_0000_0000_0000
  }

  /** The counter has 64 bits. */
  lemma WrapAround(x: int)
    ensures 0 <= x <= 18446744073709551615 ==> Wrap64(x) == x
    ensures Wrap64(x + 18446744073709551616) == Wrap64(x)
  {
  }

  /** Where reading x - from PCM frames from PCM frame `from` on leads: the delay is not counted. */
  function Lands(from: nat, x: nat, delay: nat): (r: nat)
    requires from <= x
  {
    if x == from then x else Max(from, delay) + (x - from)
  }

  /** Reading forward lands on the frame that is wanted exactly if nothing of the delay is still ahead. */
  lemma LandsOnTargetExactly(from: nat, x: nat, delay: nat)
    requires from <= x
    ensures Lands(from, x, delay) == x <==> x == from || delay <= from
  {
  }

  /** Two ways to frame x that start at different frames meet exactly if both are on target. */
  lemma LandingsAgreeExactly(f: nat, g: nat, x: nat, delay: nat)
    requires f <= x && g <= x
    ensures Lands(f, x, delay) == Lands(g, x, delay)
       <==> f == g || ((x == f || delay <= f) && (x == g || delay <= g))
  {
  }

  class Mp3<T> {
    const packets: seq<Packet<T>>  // the stream, frame by frame
    const framePos: seq<nat>       // byte position of each frame and of the end
    const delay: nat
    const padding: nat
    const total: Limit             // PCM frames in the whole stream, if a tag says so
    ghost const fs: seq<SoundFrame>
    ghost const counted: seq<nat>   // the frames a scan without output finds
    ghost const blocks: seq<seq<T>> // their samples
    ghost const bytePos: seq<nat>   // where the scan looks for them
    var at: nat                    // the frame the stream stands before
    var fill: nat                  // bytes in the decoder's reservoir
    var cache: seq<T>
    var consumed: nat
    var remaining: nat
    var currentPcm: nat
    var seekPoints: seq<SeekPoint>
    ghost var session: seq<nat>    // the frames that decode since the last jump
    ghost var nextBlock: nat       // how many of them are decoded

    /** Where the padding starts. A total that does not exceed the padding is ignored. */
    function PaddingStart(): (end: Limit) {
      if total.UpTo? && padding < total.n then UpTo(total.n - padding) else Unlimited
    }

    ghost function AsTrack(): (t: Track<T>)
      reads this`session
    {
      Track(BlocksOf(packets, session), delay, PaddingStart())
    }

    ghost function View(): (c: Cursor)
      reads this`nextBlock, this`consumed, this`remaining, this`currentPcm
    {
      Cursor(nextBlock, consumed, remaining, currentPcm)
    }

    ghost predicate ValidStream() {
      && WellFramed(packets, framePos) && |framePos| == |packets| + 1 && fs == Frames(packets)
      && counted == Accepted(fs, START, false) && blocks == BlocksOf(packets, counted) && SmallBlocks(blocks)
      && bytePos == CallPositions(framePos, counted)
      && (forall i, j :: 0 <= i < j < |bytePos| ==> bytePos[i] < bytePos[j])
    }

    /** The stream and the decoder yield what is left of the session. */
    ghost predicate Follows()
      reads this`at, this`fill, this`session, this`nextBlock
    {
      && ValidStream() && at <= |packets| && nextBlock <= |session| && ValidTrack(AsTrack())
      && session[nextBlock..] == Accepted(fs, Spot(at, fill), true)
    }

    ghost predicate Valid()
      reads this
    {
      && Follows() && ValidCursor(AsTrack(), View())
      && (0 < remaining ==> cache == AsTrack().blocks[nextBlock - 1])
    }

    /** The reader of an opened stream: the first MP3 frame is decoded, nothing is consumed. */
    constructor (packets: seq<Packet<T>>, framePos: seq<nat>, delay: nat, padding: nat, total: Limit)
      requires WellFramed(packets, framePos) && Accepted(Frames(packets), START, true) != []
      ensures Valid() && InStep() && nextBlock == 1 && currentPcm == 0 && seekPoints == []
      ensures this.packets == packets && this.framePos == framePos
      ensures this.delay == delay && this.padding == padding && this.total == total
    {
      hide Accepted, BlocksOf, CallPositions, SmallBlocks, ValidTrack, From;
      this.packets, this.framePos := packets, framePos;
      this.delay, this.padding, this.total := delay, padding, total;
      at, fill, cache, consumed, remaining, currentPcm, seekPoints := 0, 0, [], 0, 0, 0, [];
      fs := Frames(packets);
      counted := Accepted(Frames(packets), START, false);
      blocks := BlocksOf(packets, Accepted(Frames(packets), START, false));
      bytePos := CallPositions(framePos, Accepted(Frames(packets), START, false));
      session, nextBlock := Accepted(Frames(packets), START, true), 0;
      new;
      BlocksAreSmall(packets, framePos, START, false);
      BlocksAreSmall(packets, framePos, START, true);
      CallsAdvance(fs, framePos, false);
      assert session[0..] == session;
      var n := DecodeNext();
      SessionStarts(packets, session);
    }

    /**
     * drmp3_decode_next_frame_ex: go on to the next frame that yields samples; 0 at the end of
     * the stream. Without a destination the frame is only counted and its samples are not stored.
     */
    method NextFrame(store: bool) returns (n: nat)
      requires ValidStream() && at <= |packets|
      modifies this`at, this`fill, this`cache, this`consumed, this`remaining
      ensures at <= |packets|
      ensures var a := Arrive(fs, Spot(old(at), old(fill)));
              if a.at == |packets|
              then n == 0 && at == |packets| && cache == old(cache) && consumed == old(consumed) && remaining == old(remaining)
              else && Spot(at, fill) == Past(fs, a, store) && n == |packets[a.at].samples| && 0 < n
                   && consumed == 0 && remaining == n
                   && cache == if store then packets[a.at].samples else old(cache)
    {
      hide Fill;
      while at < |packets|
        invariant at <= |packets|
        invariant Arrive(fs, Spot(at, fill)) == Arrive(fs, Spot(old(at), old(fill)))
        invariant cache == old(cache) && consumed == old(consumed) && remaining == old(remaining)
      {
        var p := packets[at];
        var takes := p.frame.begin <= fill;
        assert p.frame == fs[at] && takes == Takes(fs, Spot(at, fill));
        if !takes {
          RefusedFillsTheSame(p.frame, fill, store);
        }
        at, fill := at + 1, Fill(p.frame, fill, store);
        if takes {
          n := |p.samples|;
          assert BlockSize(n);
          if store {
            cache := p.samples;
          }
          consumed, remaining := 0, n;
          return;
        }
      }
      n := 0;
    }

    /** drmp3_decode_next_frame: the next block of the session goes into the cache. */
    method DecodeNext() returns (n: nat)
      requires Follows()
      modifies this`at, this`fill, this`cache, this`consumed, this`remaining, this`nextBlock
      ensures Follows()
      ensures n == 0 <==> old(nextBlock) == |session|
      ensures if old(nextBlock) == |session|
              then n == 0 && View() == old(View()) && cache == old(cache)
              else n == |AsTrack().blocks[old(nextBlock)]| && View() == Load(AsTrack(), old(View()))
                   && cache == AsTrack().blocks[old(nextBlock)]
    {
      hide Accepted, Arrive, Past, WellFramed, SmallBlocks;
      n := NextFrame(true);
      NextInSession(fs, session, nextBlock, Spot(old(at), old(fill)));
      if n == 0 {
        NothingAtEnd(fs, Spot(at, fill));
      } else {
        nextBlock := nextBlock + 1;
      }
    }

    /**
     * drmp3_read_pcm_frames_raw: read up to n PCM frames into the buffer, if there is one. In
     * step with the stream these are the next frames between the delay and the padding.
     */
    method ReadPcmFrames(n: nat, buffer: array?<T>) returns (framesRead: nat)
      requires Valid() && (buffer != null ==> n <= buffer.Length)
      modifies this`at, this`fill, this`cache, this`consumed, this`remaining, this`currentPcm, this`nextBlock, buffer
      ensures Valid()
      ensures View() == Read(AsTrack(), old(View()), n).0
      ensures framesRead == |Read(AsTrack(), old(View()), n).1| <= n
      ensures buffer != null ==>
                && buffer[..framesRead] == Read(AsTrack(), old(View()), n).1
                && forall i :: framesRead <= i < buffer.Length ==> buffer[i] == old(buffer[i])
      ensures old(InStep()) ==>
                var from := Max(old(currentPcm), delay);
                var end := if total.UpTo? && padding < total.n then Min(|All()|, total.n - padding) else |All()|;
                && framesRead == (if from < end then Min(n, end - from) else 0)
                && (0 < framesRead ==>
                      currentPcm == from + framesRead && (buffer != null ==> buffer[..framesRead] == All()[from..from + framesRead]))
    {
      hide Read, OneTurn, Joins, Mp3.Valid, Mp3.InStep, Decoded;
      ghost var t, start := AsTrack(), View();
      ghost var inStep := InStep();
      if inStep {
        ReadSounds(this, n);
      }
      ghost var out: seq<T> := [];
      framesRead := 0;
      JoinsStart(this, n);
      var more := framesRead < n;
      while more
        invariant Valid() && framesRead == |out| <= n
        invariant more ==> framesRead < n && Joins(t, start, n, View(), out)
        invariant !more ==> Read(t, start, n) == (View(), out)
        invariant buffer != null ==> buffer[..framesRead] == out
        invariant buffer != null ==> forall i :: framesRead <= i < buffer.Length ==> buffer[i] == old(buffer[i])
        decreases |session| - nextBlock, more
      {
        JoinsTurn(t, start, n, View(), out);
        ghost var chunk := OneTurn(t, View(), n - framesRead).1;
        var k;
        k, more := ReadTurn(n - framesRead, buffer, framesRead);
        framesRead := framesRead + k;
        out := out + chunk;
      }
    }

    /** One turn of the loop: skip delay, deliver from the cached block, load the next one. */
    method ReadTurn(left: nat, buffer: array?<T>, offset: nat) returns (k: nat, more: bool)
      requires Valid() && 0 < left && (buffer != null ==> offset + left <= buffer.Length)
      modifies this`at, this`fill, this`cache, this`consumed, this`remaining, this`currentPcm, this`nextBlock, buffer
      ensures Valid() && k <= left
      ensures old(nextBlock) <= nextBlock && (more ==> old(nextBlock) < nextBlock)
      ensures View() == OneTurn(AsTrack(), old(View()), left).0
      ensures k == |OneTurn(AsTrack(), old(View()), left).1|
      ensures more == OneTurn(AsTrack(), old(View()), left).2
      ensures buffer != null ==>
                && buffer[..offset + k] == old(buffer[..offset]) + OneTurn(AsTrack(), old(View()), left).1
                && forall i :: offset + k <= i < buffer.Length ==> buffer[i] == old(buffer[i])
    {
      hide Cached, SkipDelay, Portion, AtEnd, BlocksOf, Mp3.Valid, Load;
      var ended;
      k, ended := SkipAndClamp(left);
      if ended {
        return 0, false;
      }
      if buffer != null {
        CopyOut(buffer, offset, k);
      }
      more := Consume(k, left);
    }

    /** Skip what the cached block holds of the delay, then see how many frames it can deliver. */
    method SkipAndClamp(left: nat) returns (k: nat, ended: bool)
      requires Valid()
      modifies this`consumed, this`remaining, this`currentPcm
      ensures Valid() && View() == SkipDelay(old(View()), delay)
      ensures ended == AtEnd(View(), PaddingStart())
      ensures !ended ==> k == Portion(View(), PaddingStart(), left) <= remaining && k <= left
      ensures !ended && k < left ==> k == remaining || AtEnd(Advance(View(), k), PaddingStart())
    {
      hide Portion, AtEnd, Mp3.Follows, BlocksOf;
      if currentPcm < delay {
        SkipFrames(Min(remaining, delay - currentPcm));
      }
      k, ended := ClampToPadding(left);
    }

    /** Pass the frames delivered; if more are wanted and there may be more, load the next block. */
    method Consume(k: nat, left: nat) returns (more: bool)
      requires Valid() && k <= remaining && k <= left
      requires k < left ==> k == remaining || AtEnd(Advance(View(), k), PaddingStart())
      modifies this`at, this`fill, this`cache, this`consumed, this`remaining, this`currentPcm, this`nextBlock
      ensures Valid() && old(nextBlock) <= nextBlock && (more ==> old(nextBlock) < nextBlock)
      ensures var c := Advance(old(View()), k);
              && more == !(k == left || AtEnd(c, PaddingStart()) || c.next == |session|)
              && View() == if more then Load(AsTrack(), c) else c
    {
      hide AtEnd, BlocksOf, ValidTrack, Accepted, Mp3.ValidStream;
      SkipFrames(k);
      if k == left || InPadding() {
        return false;
      }
      assert remaining == 0;
      var decoded := DecodeNext();
      more := decoded != 0;
    }

    predicate InPadding()
      reads this
      ensures InPadding() == AtEnd(View(), PaddingStart())
    {
      PaddingStart().UpTo? && PaddingStart().n <= currentPcm
    }

    /** How many frames the cached block gives before the padding; ended inside the padding. */
    method ClampToPadding(left: nat) returns (k: nat, ended: bool)
      ensures ended == AtEnd(View(), PaddingStart())
      ensures !ended ==> k == Portion(View(), PaddingStart(), left) <= remaining && k <= left
      ensures !ended && k < left ==> k == remaining || AtEnd(Advance(View(), k), PaddingStart())
    {
      k := Min(remaining, left);
      if PaddingStart().UpTo? {
        if currentPcm < PaddingStart().n {
          k := Min(k, PaddingStart().n - currentPcm);
        } else {
          return 0, true;
        }
      }
      ended := false;
    }

    /** Move past k frames of the cached block. */
    method SkipFrames(k: nat)
      requires Valid() && k <= remaining
      modifies this`consumed, this`remaining, this`currentPcm
      ensures Valid() && View() == Advance(old(View()), k)
    {
      hide Mp3.Follows, BlocksOf;
      currentPcm, consumed, remaining := currentPcm + k, consumed + k, remaining - k;
    }

    /** Copy from the cached block to the output. */
    method CopyOut(buffer: array<T>, offset: nat, k: nat)
      requires Valid() && k <= remaining && offset + k <= buffer.Length
      modifies buffer
      ensures buffer[..offset + k] == old(buffer[..offset]) + Cached(AsTrack(), View())[..k]
      ensures forall i :: offset + k <= i < buffer.Length ==> buffer[i] == old(buffer[i])
    {
      hide Mp3.Follows, BlocksOf;
      forall i | offset <= i < offset + k {
        buffer[i] := cache[consumed + i - offset];
      }
    }

    /** The whole stream as decoding from its start gives it. */
    ghost function All(): (s: seq<T>) {
      Decoded(packets)
    }

    /** The position counter and what comes next agree with the whole stream. */
    ghost predicate InStep()
      requires Valid()
      reads this
    {
      currentPcm <= |All()| && Rest(AsTrack(), View()) == All()[currentPcm..]
    }

    /** drmp3__on_seek_64 to the position of a frame, then drmp3_reset. */
    method SeekBytes(pos: nat, ghost frame: nat)
      requires ValidStream() && frame < |framePos| && framePos[frame] == pos
      modifies this`at, this`fill, this`consumed, this`remaining, this`currentPcm, this`session, this`nextBlock
      ensures Valid() && at == frame && fill == 0 && View() == Cursor(0, 0, 0, 0)
      ensures session == Accepted(fs, Spot(frame, 0), true)
    {
      hide Accepted, BlocksOf, CallPositions, SmallBlocks, ValidTrack;
      var k :| 0 <= k < |framePos| && framePos[k] == pos;
      at, fill, consumed, remaining, currentPcm := k, 0, 0, 0, 0;
      session, nextBlock := Accepted(fs, Spot(k, 0), true), 0;
      BlocksAreSmall(packets, framePos, Spot(k, 0), true);
      assert session[0..] == session;
    }

    /** drmp3_seek_to_start_of_stream. */
    method SeekToStart()
      requires ValidStream()
      modifies this`at, this`fill, this`consumed, this`remaining, this`currentPcm, this`session, this`nextBlock
      ensures Valid() && InStep() && at == 0 && fill == 0 && View() == Cursor(0, 0, 0, 0)
    {
      SeekBytes(framePos[0], 0);
      assert Rest(AsTrack(), View()) == From(BlocksOf(packets, session), 0);
    }

    /** drmp3_seek_forward_by_pcm_frames__brute_force: read and discard. */
    method ReadAndDiscard(n: nat) returns (ok: bool)
      requires Valid()
      modifies this`at, this`fill, this`cache, this`consumed, this`remaining, this`currentPcm, this`nextBlock
      ensures Valid() && Passed(AsTrack(), old(View()), View())
      ensures ok <==> n <= |Wanted(AsTrack(), old(View()))|
      ensures ok ==> currentPcm == if n == 0 then old(currentPcm) else Max(old(currentPcm), delay) + n
    {
      hide Read, Wanted, Passed, BlocksOf, Mp3.Follows;
      ghost var t, start := AsTrack(), View();
      assert ValidTrack(t) by { ValidGivesTrack(this); }
      var framesRead := ReadPcmFrames(n, null);
      ReadDelivers(t, start, n);
      ReadPasses(t, start, n);
      ReadUnfolds(t, start, n);
      if 0 < n {
        ReadMoves(t, start, n);
      }
      ok := framesRead == n;
    }

    /** What reading from the start can deliver. */
    ghost function Audible(): (s: seq<T>) {
      Clip(All(), 0, delay, PaddingStart())
    }

    /** How far reading from the start can get when there is no delay. */
    ghost function PlayLength(): (n: nat) {
      if PaddingStart().UpTo? then Min(|All()|, PaddingStart().n) else |All()|
    }

    /**
     * drmp3_seek_to_pcm_frame__brute_force: read on from where the reader is, or from the
     * start for an earlier frame.
     */
    method SeekBruteForce(x: nat) returns (ok: bool)
      requires Valid()
      modifies this`at, this`fill, this`cache, this`consumed, this`remaining, this`currentPcm, this`session, this`nextBlock
      ensures Valid() && (old(currentPcm) <= x ==> AsTrack() == old(AsTrack()) && Passed(AsTrack(), old(View()), View()))
      ensures var from := if x < old(currentPcm) then 0 else old(currentPcm);
              && (ok <==> x - from <= if x < old(currentPcm) then |Audible()| else |Wanted(old(AsTrack()), old(View()))|)
              && (ok ==> currentPcm == Lands(from, x, delay))
              && (old(InStep()) || x < old(currentPcm) ==>
                    InStep() && (ok <==> x == from || Lands(from, x, delay) <= PlayLength()))
    {
      hide Rest, Clip, Passed, Mp3.Follows, Mp3.All, Mp3.PlayLength, Mp3.ValidStream, BlocksOf, Mp3.Audible;
      ValidGivesTrack(this);
      if x == currentPcm {
        PassedNothing(AsTrack(), View());
        return true;
      }
      if x < currentPcm {
        SeekToStart();
        StartIsAudible(this);
      }
      ghost var start := View();
      ghost var inStep := InStep();
      if inStep {
        WantedInStep(this, x);
      }
      ok := ReadAndDiscard(x - currentPcm);
      if inStep {
        StaysInStep(this, start);
      }
    }

    // ----- The seek table -----

    /** drmp3_find_closest_seek_point: the last point at or before frame x, if there is one. */
    method FindClosestPoint(x: nat) returns (found: bool, index: nat)
      requires seekPoints != [] && Increasing(seekPoints)
      ensures found ==> index < |seekPoints|
      ensures Closest(seekPoints, x) == if found then seekPoints[index] else SeekPoint(0, 0, 0, 0)
    {
      index := 0;
      if x < seekPoints[0].pcmIndex {
        ClosestIs(seekPoints, x, 0);
        return false, index;
      }
      var i := 0;
      while i < |seekPoints|
        invariant i <= |seekPoints| && index < |seekPoints| && seekPoints[index].pcmIndex <= x
        invariant index == if i == 0 then 0 else i - 1
      {
        if x < seekPoints[i].pcmIndex {
          break;
        }
        index := i;
        i := i + 1;
      }
      ClosestIs(seekPoints, x, index + 1);
      found := true;
    }

    /** A bound table has increasing points at frames, and 16-bit discards. A tag before the first frame would shift byte 0. */
    ghost predicate TablePlaced()
      reads this`seekPoints
    {
      && |framePos| == |packets| + 1 && framePos[0] == 0 && Increasing(seekPoints)
      && forall i :: 0 <= i < |seekPoints| ==>
           Placed(framePos, seekPoints[i]) && seekPoints[i].pcmDiscard < 0x1_0000
    }

    /** No discard of the table that a seek to x uses runs below zero. */
    ghost predicate Plain(x: nat)
      reads this`seekPoints
    {
      x == 0 || seekPoints == [] || Closest(seekPoints, x).pcmDiscard <= Closest(seekPoints, x).pcmIndex
    }

    /** The PCM frame from which a seek to x reads on when the counter stands at `current`. */
    ghost function Base(x: nat, current: nat): (base: nat)
      requires Plain(x)
      reads this`seekPoints
      ensures base <= x
    {
      ClosestBefore(seekPoints, x);
      if x == 0 then 0
      else if seekPoints != [] then Closest(seekPoints, x).pcmIndex - Closest(seekPoints, x).pcmDiscard
      else if x < current then 0 else current
    }

    /** The point to start from: the start of the stream if there is none before x. */
    method ChoosePoint(x: nat) returns (point: SeekPoint)
      requires seekPoints != [] && TablePlaced()
      ensures point == Closest(seekPoints, x) && Placed(framePos, point)
      ensures point.pcmIndex <= x && point.pcmDiscard < 0x1_0000
    {
      var found, index := FindClosestPoint(x);
      ClosestIsPlaced(this, x);
      point := if found then seekPoints[index] else SeekPoint(0, 0, 0, 0);
    }

    /** Decode and drop n MP3 frames, those that yield samples; only the last one is stored. */
    method DropFrames(n: nat) returns (ok: bool)
      requires Valid() && View() == Cursor(0, 0, 0, 0) && fill == 0 && session == Accepted(fs, Spot(at, 0), true)
      modifies this`at, this`fill, this`cache, this`consumed, this`remaining, this`session, this`nextBlock
      ensures ok == Landing(fs, old(at), n).Some?
      ensures ok ==>
                && Valid() && session == Accepted(fs, Landing(fs, old(at), n).value, true)
                && Rest(AsTrack(), View()) == From(BlocksOf(packets, session), 0)
    {
      hide Accepted, Arrive, Past, Fill, WellFramed, SmallBlocks, CallPositions, BlocksOf, From;
      ghost var start := Spot(at, 0);
      ok := true;
      for i := 0 to n
        invariant at <= |packets| && ok && session == old(session) && nextBlock == 0
        invariant i < n ==> DropTo(fs, Spot(at, fill), n - i) == DropTo(fs, start, n)
        invariant i == 0 ==> Spot(at, fill) == start && remaining == 0 && consumed == 0
        invariant i == n && 0 < n ==> Loaded(DropTo(fs, start, n))
      {
        var read := NextFrame(i == n - 1);
        if read == 0 {
          return false;
        }
      }
      if 0 < n {
        StartSession(DropTo(fs, start, n).value);
      }
    }

    /** The MP3 frame at a spot has just been decoded. */
    ghost predicate Loaded(s: Option<Spot>)
      reads this`at, this`fill, this`cache, this`consumed, this`remaining
    {
      && s.Some? && s.value.at < |packets| == |fs| && Takes(fs, s.value)
      && Spot(at, fill) == Past(fs, s.value, true)
      && cache == packets[s.value.at].samples && consumed == 0 && remaining == |cache|
    }

    /** From here on the reader goes through the frames that decode after the one just loaded. */
    ghost method StartSession(s: Spot)
      requires ValidStream() && Loaded(Some(s))
      modifies this`session, this`nextBlock
      ensures Valid() && session == Accepted(fs, s, true)
      ensures Rest(AsTrack(), View()) == From(BlocksOf(packets, session), 0)
    {
      hide Past, WellFramed, SmallBlocks, CallPositions;
      assert s.at < |fs| && Takes(fs, s);
      session, nextBlock := Accepted(fs, s, true), 1;
      assert session[1..] == Accepted(fs, Past(fs, s, true), true);
      BlocksAreSmall(packets, framePos, s, true);
      SessionStarts(packets, session);
    }

    /**
     * What a seek to PCM frame x has done that has come to a spot with the counter at base:
     * it has read on from there.
     */
    ghost predicate ReadOn(s: Spot, base: nat, x: nat, ok: bool)
      requires s.at <= |fs| && Valid()
      reads this
    {
      var rest := From(BlocksOf(packets, Accepted(fs, s, true)), 0);
      && base <= x && (ok <==> x - base <= |Clip(rest, base, delay, PaddingStart())|)
      && (ok ==> currentPcm == Lands(base, x, delay))
      && base <= currentPcm <= base + |rest| && Rest(AsTrack(), View()) == rest[currentPcm - base..]
    }

    /**
     * The same for a point whose discard exceeds it by `excess`: the counter wraps around below
     * zero, and the read asks for that many frames too many.
     */
    ghost predicate OverRead(s: Spot, excess: nat, x: nat, ok: bool)
      requires s.at <= |fs| && Valid()
      reads this
    {
      var rest := From(BlocksOf(packets, Accepted(fs, s, true)), 0);
      var n := Wrap64(x + excess);
      && (|rest| < n ==> !ok)
      && (PaddingStart().UpTo? && PaddingStart().n <= Wrap64(0 - excess) ==> (ok <==> n == 0))
      && (PaddingStart().Unlimited? && delay == 0 ==>
            (ok <==> n <= |rest|) && (ok ==> currentPcm == x && Rest(AsTrack(), View()) == rest[n..]))
    }

    /** Go to the bytes of a point, drop its MP3 frames and set the counter. */
    method JumpTo(point: SeekPoint) returns (ok: bool)
      requires ValidStream() && Placed(framePos, point)
      modifies this`at, this`fill, this`cache, this`consumed, this`remaining, this`currentPcm, this`session, this`nextBlock
      ensures ok == LandingOf(packets, framePos, point).Some?
      ensures ok ==>
                && Valid() && currentPcm == Wrap64(point.pcmIndex - point.pcmDiscard)
                && Rest(AsTrack(), View())
                   == From(BlocksOf(packets, Accepted(fs, LandingOf(packets, framePos, point).value, true)), 0)
    {
      hide Accepted, Landing, From, Cached, Mp3.Follows, WellFramed, SmallBlocks, CallPositions, BlocksOf;
      SeekBytes(point.bytePos, FrameAt(framePos, point));
      ok := DropFrames(point.mp3Discard);
      if ok {
        ghost var c := View();
        currentPcm := Wrap64(point.pcmIndex - point.pcmDiscard);
        CounterAside(AsTrack(), c, View());
      }
    }

    /**
     * drmp3_seek_to_pcm_frame__seek_table: jump to the closest earlier point, drop its MP3
     * frames, then read and discard. If the point is right, this is where reading forward is.
     */
    method SeekByTable(x: nat) returns (ok: bool)
      requires ValidStream() && seekPoints != [] && TablePlaced() && x == Wrap64(x)
      modifies this`at, this`fill, this`cache, this`consumed, this`remaining, this`currentPcm, this`session, this`nextBlock
      ensures Placed(framePos, Closest(seekPoints, x))
      ensures var p := Closest(seekPoints, x);
              var landing := LandingOf(packets, framePos, p);
              && (landing.None? ==> !ok)
              && (landing.Some? ==> Valid())
              && (landing.Some? && p.pcmDiscard <= p.pcmIndex ==> ReadOn(landing.value, p.pcmIndex - p.pcmDiscard, x, ok))
              && (landing.Some? && p.pcmIndex < p.pcmDiscard ==> OverRead(landing.value, p.pcmDiscard - p.pcmIndex, x, ok))
              && (Right(packets, framePos, p) ==>
                    var base := p.pcmIndex - p.pcmDiscard;
                    Valid() && InStep() && (ok <==> x == base || Lands(base, x, delay) <= PlayLength()))
    {
      hide Landing, Clip, Rest, Passed, Mp3.Valid, Mp3.ReadOn, Mp3.OverRead, Mp3.InStep, BlocksOf, Accepted, OnTrack, WellFramed, SmallBlocks, CallPositions;
      var point := ChoosePoint(x);
      ok := JumpTo(point);
      if !ok {
        return false;
      }
      ghost var landing := LandingOf(packets, framePos, point);
      ghost var start := View();
      ValidGivesTrack(this);
      ok := ReadAndDiscard(Wrap64(x - currentPcm));
      if point.pcmIndex < point.pcmDiscard {
        ghost var end := View();
        ValidGivesTrack(this);
        WrapCounter();
        PassedOverReads(this, start, end, landing.value, point, x, ok);
      } else {
        PassedReadsOn(this, start, landing.value, x, ok);
      }
      if Right(packets, framePos, point) {
        RightReadsOn(this, point, x, ok);
      }
    }

    /** The counter has 64 bits. */
    method WrapCounter()
      requires Valid()
      modifies this`currentPcm
      ensures Valid() && View() == old(View()).(current := Wrap64(old(currentPcm))) && Rest(AsTrack(), View()) == old(Rest(AsTrack(), View()))
    {
      hide Rest, Mp3.Follows;
      ghost var c := View();
      currentPcm := Wrap64(currentPcm);
      CounterAside(AsTrack(), c, View());
    }

    /** A bound table leads to the right places. */
    ghost predicate TableOk()
      requires |framePos| == |packets| + 1
      reads this`seekPoints
    {
      seekPoints == [] || TableRight(packets, framePos, seekPoints)
    }

    /** A seek to x that starts over, from the table or the start of the stream, has enough to read. */
    ghost predicate InReach(x: nat)
      requires ValidStream() && Plain(x) && (seekPoints != [] ==> TablePlaced())
      reads this`seekPoints
    {
      x == 0 ||
      if seekPoints == [] then x <= |Audible()|
      else
        ClosestIsPlaced(this, x);
        var landing := LandingOf(packets, framePos, Closest(seekPoints, x));
        && landing.Some?
        && var rest := From(BlocksOf(packets, Accepted(fs, landing.value, true)), 0);
           x - Base(x, 0) <= |Clip(rest, Base(x, 0), delay, PaddingStart())|
    }

    /** The same for a seek that may read on from where the reader is. */
    ghost predicate Reachable(x: nat)
      requires Valid() && Plain(x) && (seekPoints != [] ==> TablePlaced())
      reads this
    {
      if x != 0 && seekPoints == [] && currentPcm <= x then x - currentPcm <= |Wanted(AsTrack(), View())| else InReach(x)
    }

    /**
     * drmp3_seek_to_pcm_frame. With or without a seek table that is right, what the reader
     * reads next is the stream from its counter on.
     */
    method SeekToPcmFrame(x: nat) returns (ok: bool)
      requires Valid() && x == Wrap64(x) && (seekPoints != [] ==> TablePlaced())
      modifies this`at, this`fill, this`cache, this`consumed, this`remaining, this`currentPcm, this`session, this`nextBlock
      ensures ok || seekPoints == [] ==> Valid()
      ensures Plain(x) ==>
                && (ok <==> old(Reachable(x)))
                && (ok ==> currentPcm == Lands(Base(x, old(currentPcm)), x, delay))
      ensures old(InStep()) && TableOk() ==>
                && Valid() && InStep() && Plain(x)
                && (ok <==> x == Base(x, old(currentPcm)) || Lands(Base(x, old(currentPcm)), x, delay) <= PlayLength())
    {
      hide Accepted, Right, Mp3.Follows, Mp3.All, Rest, Clip, Landing, BlocksOf, Mp3.ValidStream;
      ValidGivesTrack(this);
      if x == 0 {
        SeekToStart();
        return true;
      }
      if seekPoints != [] {
        if TableOk() {
          ClosestIsRight(this, x);
        }
        ok := SeekByTable(x);
      } else {
        ok := SeekBruteForce(x);
      }
    }

    /** What going back to position `was` by way of the start of the stream does. */
    ghost predicate WentBack(was: nat, ok: bool)
      requires ValidStream() && Plain(was) && (seekPoints != [] ==> TablePlaced())
      reads this`seekPoints, this`currentPcm
    {
      var base := Base(was, 0);
      && (ok <==> InReach(was)) && (ok ==> currentPcm == Lands(base, was, delay))
      && (ok ==> (currentPcm == was <==> was == base || delay <= base))
      && (TableOk() ==> (ok <==> was == base || Lands(base, was, delay) <= PlayLength()))
    }

    /** Back to the start of the stream, then to a position noted before. */
    method GoBackTo(was: nat) returns (ok: bool)
      requires ValidStream() && was == Wrap64(was) && (seekPoints != [] ==> TablePlaced())
      modifies this`at, this`fill, this`cache, this`consumed, this`remaining, this`currentPcm, this`session, this`nextBlock
      ensures ok || seekPoints == [] ==> Valid()
      ensures Plain(was) ==> WentBack(was, ok)
      ensures TableOk() ==> Valid() && InStep() && Plain(was)
    {
      hide Rest, Right, Clip, Mp3.PlayLength, Mp3.All, Mp3.Follows, WellFramed, SmallBlocks, CallPositions, Mp3.Audible;
      SeekToStart();
      StartIsAudible(this);
      ok := SeekToPcmFrame(was);
    }

    // ----- Counting and building the table -----

    /** A scan without output stands before the call that finds the k-th frame of its list. */
    ghost predicate Counting(k: nat)
      reads this`at, this`fill
    {
      && ValidStream() && k <= |counted| && at <= |packets| && at == CallFrame(counted, k)
      && Accepted(fs, Spot(at, fill), false) == counted[k..] && framePos[at] == bytePos[k]
    }

    /** One step of a scan: drmp3_decode_next_frame_ex without a destination. */
    method CountNext(ghost k: nat) returns (n: nat)
      requires Counting(k)
      modifies this`at, this`fill, this`cache, this`consumed, this`remaining
      ensures k == |counted| ==> n == 0
      ensures k < |counted| ==> 0 < n == |blocks[k]| && Counting(k + 1)
    {
      hide Accepted, Arrive, Fill, SmallBlocks;
      ArriveAccepts(fs, Spot(at, fill), false);
      ghost var a := Arrive(fs, Spot(at, fill));
      n := NextFrame(false);
      if n != 0 {
        assert counted[k..][0] == counted[k] && counted[k..][1..] == counted[k + 1..];
        CallsAdvance(fs, framePos, false);
      }
    }

    /** Go to the start of the stream to scan it. */
    method StartCounting()
      requires ValidStream()
      modifies this`at, this`fill, this`cache, this`consumed, this`remaining, this`currentPcm, this`session, this`nextBlock
      ensures Counting(0)
    {
      hide Accepted, SmallBlocks, From, BlocksOf;
      SeekToStart();
      CallsAdvance(fs, framePos, false);
      assert counted[0..] == counted;
    }

    /** drmp3_get_mp3_and_pcm_frame_count: scan the whole stream, then go back. */
    method CountFrames() returns (ok: bool, mp3Frames: nat, pcmFrames: nat)
      requires Valid() && currentPcm == Wrap64(currentPcm) && (seekPoints != [] ==> TablePlaced())
      modifies this`at, this`fill, this`cache, this`consumed, this`remaining, this`currentPcm, this`session, this`nextBlock
      ensures mp3Frames == |counted| && pcmFrames == Start(blocks, |blocks|)
      ensures ok || seekPoints == [] ==> Valid()
      ensures Plain(old(currentPcm)) ==> WentBack(old(currentPcm), ok)
      ensures TableOk() ==> Valid() && InStep() && Plain(old(currentPcm))
    {
      hide Mp3.ValidStream, Mp3.Valid, Mp3.InStep, Mp3.TableOk, Mp3.TablePlaced, Mp3.WentBack, Mp3.Plain;
      StreamIsValid(this);
      var was := currentPcm;
      mp3Frames, pcmFrames := ScanAll();
      ok := GoBackTo(was);
    }

    /** Count the MP3 frames that a scan finds, and their PCM frames. */
    method ScanAll() returns (mp3Frames: nat, pcmFrames: nat)
      requires ValidStream()
      modifies this`at, this`fill, this`cache, this`consumed, this`remaining, this`currentPcm, this`session, this`nextBlock
      ensures mp3Frames == |counted| && pcmFrames == Start(blocks, |blocks|)
    {
      hide Accepted, SmallBlocks, WellFramed, CallPositions, BlocksOf;
      StartCounting();
      mp3Frames, pcmFrames := 0, 0;
      while true
        invariant Counting(mp3Frames) && pcmFrames == Start(blocks, mp3Frames)
        decreases |counted| - mp3Frames
      {
        var n := CountNext(mp3Frames);
        if n == 0 {
          break;
        }
        mp3Frames, pcmFrames := mp3Frames + 1, pcmFrames + n;
      }
    }

    /** Where the call for block k starts, in bytes and in PCM frames. */
    ghost function InfoOf(k: nat): (r: (nat, nat))
      requires k < |bytePos| == |blocks| + 1
    {
      (bytePos[k], Start(blocks, k))
    }

    /** The last three calls of a scan that has counted k blocks. */
    ghost predicate Windowed(k: nat, window: seq<(nat, nat)>, running: nat) {
      && 3 <= k <= |blocks| == |bytePos| - 1 && running == Start(blocks, k)
      && window == [InfoOf(k - 3), InfoOf(k - 2), InfoOf(k - 1)]
    }

    /**
     * The scan of drmp3_calculate_seek_points for one target: slide the window of the last
     * three blocks along until the target lies in its last block. A scan that starts inside
     * the stream never runs out of blocks.
     */
    method ScanToTarget(target: nat, window: seq<(nat, nat)>, running: nat, ghost k: nat)
      returns (window': seq<(nat, nat)>, running': nat)
      requires Counting(k) && Windowed(k, window, running) && target < Start(blocks, |blocks|)
      modifies this`at, this`fill, this`cache, this`consumed, this`remaining
      ensures Counting(Reach(blocks, target, k)) && Windowed(Reach(blocks, target, k), window', running')
    {
      hide Accepted, SmallBlocks, WellFramed, CallPositions, BlocksOf, CallFrame;
      ghost var m := k;
      window', running' := window, running;
      while running' <= target
        invariant Counting(m) && Windowed(m, window', running') && Reach(blocks, target, m) == Reach(blocks, target, k)
        decreases |blocks| - m
      {
        window' := [window'[1], window'[2], (framePos[at], running')];
        var n := CountNext(m);
        if n == 0 {
          assert false;
        }
        running' := running' + n;
        m := m + 1;
      }
    }

    /** Go to the start and note where the first three blocks are. */
    method ReadLeading() returns (window: seq<(nat, nat)>, running: nat)
      requires ValidStream() && 3 <= |blocks|
      modifies this`at, this`fill, this`cache, this`consumed, this`remaining, this`currentPcm, this`session, this`nextBlock
      ensures Counting(3) && Windowed(3, window, running)
    {
      hide Accepted, SmallBlocks, WellFramed, CallPositions, BlocksOf, CallFrame;
      StartCounting();
      window, running := [], 0;
      for i := 0 to 3
        invariant Counting(i) && running == Start(blocks, i) && |window| == i
        invariant forall k :: 0 <= k < i ==> window[k] == InfoOf(k)
      {
        window := window + [(framePos[at], running)];
        var n := CountNext(i);
        running := running + n;
      }
    }

    /** The table for `count` targets, from the start of the stream. */
    method ScanStream(count: nat, step: nat) returns (points: seq<SeekPoint>)
      requires Scannable(blocks, bytePos, step, count) && ValidStream()
      modifies this`at, this`fill, this`cache, this`consumed, this`remaining, this`currentPcm, this`session, this`nextBlock
      ensures points == Points(blocks, bytePos, step, count)
    {
      hide Scannable, Start, Mp3.ValidStream, Mp3.Counting, Reach;
      ScannableSizes(blocks, bytePos, step, count);
      var window, running := ReadLeading();
      ghost var k: nat := 3;
      points := [];
      var target := 0;
      for s := 0 to count
        invariant target == Target(step, s) && points == Points(blocks, bytePos, step, s)
        invariant Counting(k) && Windowed(k, window, running) && k <= Reach(blocks, target, 3)
      {
        NextTarget(blocks, bytePos, step, count, s);
        target := target + step;
        ReachContinues(blocks, target, 3, k);
        window, running := ScanToTarget(target, window, running, k);
        k := Reach(blocks, target, 3);
        points := points + [SeekPoint(window[0].0, target, LEADING, Low16(target - window[LEADING - 1].1))];
      }
    }

    /** The table for a stream of at least three MP3 frames divides it evenly. */
    ghost function TableFor(wanted: nat): (ps: seq<SeekPoint>)
      requires |bytePos| == |blocks| + 1
    {
      if |blocks| < 3 then [SeekPoint(0, 0, 0, 0)]
      else
        var count := Min(wanted, |blocks| - 1);
        Points(blocks, bytePos, Start(blocks, |blocks|) / (count + 1), count)
    }

    /** Divide the stream evenly and scan it. */
    method BuildTable(count: nat, total: nat) returns (points: seq<SeekPoint>)
      requires ValidStream() && 3 <= |blocks| && 1 <= count < |blocks| && total == Start(blocks, |blocks|)
      modifies this`at, this`fill, this`cache, this`consumed, this`remaining, this`currentPcm, this`session, this`nextBlock
      ensures points == Points(blocks, bytePos, Start(blocks, |blocks|) / (count + 1), count)
    {
      hide Points, Start, SmallBlocks, BlocksOf, Accepted, WellFramed;
      points := ScanStream(count, total / (count + 1));
    }

    /**
     * drmp3_calculate_seek_points. A stream of fewer than three MP3 frames gets the single
     * point at its start; the reader ends where it was.
     */
    method CalculateSeekPoints(wanted: nat) returns (ok: bool, points: seq<SeekPoint>)
      requires Valid() && currentPcm == Wrap64(currentPcm) && (seekPoints != [] ==> TablePlaced())
      modifies this`at, this`fill, this`cache, this`consumed, this`remaining, this`currentPcm, this`session, this`nextBlock
      ensures ok || seekPoints == [] ==> Valid()
      ensures ok ==> 0 < wanted && points == TableFor(wanted)
      ensures if wanted == 0 then !ok && currentPcm == old(currentPcm)
              else Plain(old(currentPcm)) ==> WentBack(old(currentPcm), ok)
      ensures 0 < wanted && TableOk() ==> Valid() && InStep() && Plain(old(currentPcm))
    {
      hide Points, Start, Mp3.ValidStream, Mp3.Valid, Mp3.InStep, Mp3.TableOk, Mp3.TablePlaced, Mp3.WentBack, Mp3.Plain;
      StreamIsValid(this);
      if wanted == 0 {
        return false, [];
      }
      var was := currentPcm;
      var mp3Frames, pcmFrames;
      ok, mp3Frames, pcmFrames := CountFrames();
      if !ok {
        return false, [];
      }
      if mp3Frames < LEADING + 1 {
        return true, [SeekPoint(0, 0, 0, 0)];
      }
      points := BuildTable(Min(wanted, mp3Frames - 1), pcmFrames);
      ok := GoBackTo(was);
    }
  }

  /** The read in progress: what is delivered so far, and what reading on from here gives. */
  ghost predicate Joins<T>(t: Track<T>, start: Cursor, n: nat, c: Cursor, out: seq<T>) {
    && ValidTrack(t) && ValidCursor(t, start) && ValidCursor(t, c) && |out| <= n
    && Read(t, start, n) == (Read(t, c, n - |out|).0, out + Read(t, c, n - |out|).1)
  }

  /** One turn of the read loop: the new cursor, what it delivers, and whether it goes on. */
  function OneTurn<T>(t: Track<T>, c: Cursor, left: nat): (r: (Cursor, seq<T>, bool))
    requires ValidCursor(t, c)
  {
    var c1 := SkipDelay(c, t.delay);
    if AtEnd(c1, t.end) then (c1, [], false) else
    var k := Portion(c1, t.end, left);
    var c2 := Advance(c1, k);
    var chunk := Cached(t, c1)[..k];
    if k == left || AtEnd(c2, t.end) || c2.next == |t.blocks| then (c2, chunk, false)
    else (Load(t, c2), chunk, true)
  }

  lemma JoinsStart<T>(m: Mp3<T>, n: nat)
    requires m.Valid()
    ensures Joins(m.AsTrack(), m.View(), n, m.View(), [])
    ensures n == 0 ==> Read(m.AsTrack(), m.View(), n) == (m.View(), [])
  {
    var out := Read(m.AsTrack(), m.View(), n).1;
    assert [] + out == out;
  }

  /** A turn ends the read, or the read goes on from the next block. */
  lemma JoinsTurn<T>(t: Track<T>, start: Cursor, n: nat, c: Cursor, out: seq<T>)
    requires Joins(t, start, n, c, out) && |out| < n
    ensures ValidCursor(t, c)
    ensures var (d, chunk, more) := OneTurn(t, c, n - |out|);
            && |out + chunk| <= n
            && (more ==> |out + chunk| < n && Joins(t, start, n, d, out + chunk))
            && (!more ==> Read(t, start, n) == (d, out + chunk))
  {
    hide Read, Continue, SkipDelay, Cached, ValidTrack;
    SkipKeepsValid(t, c);
    ReadUnfolds(t, c, n - |out|);
    var c1 := SkipDelay(c, t.delay);
    if AtEnd(c1, t.end) {
      assert out + [] == out;
    } else {
      PortionBounds(t, c1, n - |out|);
      var k := Portion(c1, t.end, n - |out|);
      var c2 := Advance(c1, k);
      var chunk := Cached(t, c1)[..k];
      if k < n - |out| && !AtEnd(c2, t.end) && c2.next != |t.blocks| {
        var more := Read(t, Load(t, c2), n - |out| - k).1;
        assert out + (chunk + more) == out + chunk + more;
      }
    }
  }

  lemma ValidGivesTrack<T>(m: Mp3<T>)
    requires m.Valid()
    ensures m.ValidStream() && ValidTrack(m.AsTrack()) && ValidCursor(m.AsTrack(), m.View())
  {
  }

  /** Reading in step with the stream delivers its next frames behind the delay and before the padding. */
  lemma ReadSounds<T>(m: Mp3<T>, n: nat)
    requires m.Valid() && m.InStep()
    ensures var (c, out) := Read(m.AsTrack(), m.View(), n);
            var from := Max(m.currentPcm, m.delay);
            var end := if m.total.UpTo? && m.padding < m.total.n then Min(|m.All()|, m.total.n - m.padding) else |m.All()|;
            && out == (if from < end then m.All()[from..from + Min(n, end - from)] else [])
            && (out != [] ==> c.current == from + |out|)
  {
    hide Read, Rest, Clip, Decoded, Mp3.Follows, BlocksOf;
    var t, c := m.AsTrack(), m.View();
    ValidGivesTrack(m);
    ReadDelivers(t, c, n);
    if 0 < n {
      ReadMoves(t, c, n);
    }
    ClipIs(m.All(), c.current, m.delay, m.PaddingStart());
  }

  lemma ClipIs<T>(all: seq<T>, current: nat, delay: nat, end: Limit)
    requires current <= |all|
    ensures var a := Max(current, delay);
            var b := if end.UpTo? then Min(|all|, end.n) else |all|;
            Clip(all[current..], current, delay, end) == if a < b then all[a..b] else []
  {
  }

  /**
   * All reads from the start of the stream together deliver a prefix of its sound: the frames
   * from the delay on, up to the padding if the total reaches beyond it, else to the end.
   */
  lemma SoundOfStream<T>(m: Mp3<T>, sizes: seq<nat>)
    requires m.Valid() && m.InStep() && m.currentPcm == 0
    ensures var end := if m.total.UpTo? && m.padding < m.total.n then Min(|m.All()|, m.total.n - m.padding) else |m.All()|;
            var sound := if m.delay < end then m.All()[m.delay..end] else [];
            ReadAll(m.AsTrack(), m.View(), sizes).1 == sound[..Min(Sum(sizes), |sound|)]
  {
    hide Read, ReadAll, Rest, Decoded, Mp3.Follows, BlocksOf;
    ValidGivesTrack(m);
    ChunkSizesDoNotMatter(m.AsTrack(), m.View(), sizes);
    ReadSounds(m, Sum(sizes));
  }

  lemma PassedNothing<T>(t: Track<T>, c: Cursor)
    requires ValidCursor(t, c)
    ensures Passed(t, c, c)
  {
    assert Rest(t, c)[0..] == Rest(t, c);
  }

  /** At the start of the stream what is wanted is all that is audible. */
  lemma StartIsAudible<T>(m: Mp3<T>)
    requires m.Valid() && m.InStep() && m.currentPcm == 0
    ensures Wanted(m.AsTrack(), m.View()) == m.Audible()
  {
    hide Rest, Clip, Decoded, Mp3.Follows, BlocksOf;
    assert m.All()[0..] == m.All();
  }

  /** A reader in step can go on to frame x exactly if the frame it then lands on is audible. */
  lemma WantedInStep<T>(m: Mp3<T>, x: nat)
    requires m.Valid() && m.InStep() && m.currentPcm <= x
    ensures x - m.currentPcm <= |Wanted(m.AsTrack(), m.View())|
       <==> x == m.currentPcm || Lands(m.currentPcm, x, m.delay) <= m.PlayLength()
  {
    hide Rest, Clip, Decoded, Mp3.Follows, BlocksOf, Mp3.PlayLength;
    AudibleFrom(m, m.currentPcm, x);
  }

  /** Passing over PCM frames keeps the counter in step with the stream. */
  lemma StaysInStep<T>(m: Mp3<T>, start: Cursor)
    requires m.Valid() && Passed(m.AsTrack(), start, m.View())
    requires start.current <= |m.All()| && Rest(m.AsTrack(), start) == m.All()[start.current..]
    ensures m.InStep()
  {
    hide Rest, Decoded, Mp3.Follows, BlocksOf;
    var moved := m.currentPcm - start.current;
    assert m.All()[start.current..][moved..] == m.All()[start.current + moved..];
  }

  /** What comes next does not depend on the position counter. */
  lemma CounterAside<T>(t: Track<T>, c: Cursor, d: Cursor)
    requires ValidCursor(t, c) && d == c.(current := d.current)
    ensures ValidCursor(t, d) && Rest(t, d) == Rest(t, c)
  {
  }

  lemma ClosestIsPlaced<T>(m: Mp3<T>, x: nat)
    requires m.TablePlaced()
    ensures var p := Closest(m.seekPoints, x); Placed(m.framePos, p) && p.pcmDiscard < 0x1_0000 && p.pcmIndex <= x
  {
    ClosestBefore(m.seekPoints, x);
    assert m.framePos[0] == SeekPoint(0, 0, 0, 0).bytePos;
  }

  lemma ClosestIsRight<T>(m: Mp3<T>, x: nat)
    requires m.ValidStream() && m.seekPoints != [] && m.TablePlaced() && m.TableOk()
    ensures Right(m.packets, m.framePos, Closest(m.seekPoints, x)) && m.Plain(x)
  {
    hide Accepted, OnTrack, Landing;
    StartIsRight(m.packets, m.framePos);
    ClosestBefore(m.seekPoints, x);
  }

  /** The reader passed from the landing place to where it is. */
  lemma PassedReadsOn<T>(m: Mp3<T>, start: Cursor, s: Spot, x: nat, ok: bool)
    requires m.Valid() && Passed(m.AsTrack(), start, m.View()) && s.at <= |m.fs| && start.current <= x
    requires Rest(m.AsTrack(), start) == From(BlocksOf(m.packets, Accepted(m.fs, s, true)), 0)
    requires ok <==> x - start.current <= |Wanted(m.AsTrack(), start)|
    requires ok ==> m.currentPcm == if x == start.current then start.current else Max(start.current, m.delay) + (x - start.current)
    ensures m.ReadOn(s, start.current, x, ok)
  {
    hide Accepted, From, Rest, Clip, BlocksOf, Mp3.Follows;
  }

  lemma RightReadsOn<T>(m: Mp3<T>, p: SeekPoint, x: nat, ok: bool)
    requires m.Valid() && Right(m.packets, m.framePos, p)
    requires var s := LandingOf(m.packets, m.framePos, p).value;
             s.at <= |m.fs| && m.ReadOn(s, p.pcmIndex - p.pcmDiscard, x, ok)
    ensures m.InStep()
    ensures var base := p.pcmIndex - p.pcmDiscard; ok <==> x == base || Lands(base, x, m.delay) <= m.PlayLength()
  {
    hide Accepted, From, Rest, OnTrack, BlocksOf, Landing, Decoded, Mp3.PaddingStart, Clip, Mp3.PlayLength, Lands, Frames, Sizes, FrameAt;
    var s, base := LandingOf(m.packets, m.framePos, p).value, p.pcmIndex - p.pcmDiscard;
    OnTrackGoesOn(m.packets, Accepted(m.fs, s, true), base);
    assert m.All()[base..][m.currentPcm - base..] == m.All()[m.currentPcm..];
    AudibleFrom(m, base, x);
  }

  /** With the stream from PCM frame base on ahead, frame x can be reached exactly if the landing frame is audible. */
  lemma AudibleFrom<T>(m: Mp3<T>, base: nat, x: nat)
    requires base <= |m.All()| && base <= x
    ensures x - base <= |Clip(m.All()[base..], base, m.delay, m.PaddingStart())|
       <==> x == base || Lands(base, x, m.delay) <= m.PlayLength()
  {
    hide Decoded;
  }

  /** The reader passed on from a landing place to `end`, with a counter that then wraps around. */
  lemma PassedOverReads<T>(m: Mp3<T>, start: Cursor, end: Cursor, s: Spot, p: SeekPoint, x: nat, ok: bool)
    requires m.Valid() && s.at <= |m.fs| && x == Wrap64(x) && p.pcmIndex < p.pcmDiscard < 0x1_0000
    requires ValidCursor(m.AsTrack(), start) && ValidCursor(m.AsTrack(), end)
    requires Passed(m.AsTrack(), start, end) && start.current == Wrap64(p.pcmIndex - p.pcmDiscard)
    requires Rest(m.AsTrack(), start) == From(BlocksOf(m.packets, Accepted(m.fs, s, true)), 0)
    requires m.currentPcm == Wrap64(end.current) && Rest(m.AsTrack(), m.View()) == Rest(m.AsTrack(), end)
    requires var n := Wrap64(x - start.current);
             && (ok <==> n <= |Wanted(m.AsTrack(), start)|)
             && (ok ==> end.current == if n == 0 then start.current else Max(start.current, m.delay) + n)
    ensures m.OverRead(s, p.pcmDiscard - p.pcmIndex, x, ok)
  {
    hide Accepted, From, Rest, BlocksOf, Mp3.Valid, Mp3.PaddingStart, Wrap64, Clip, Passed;
    var excess := p.pcmDiscard - p.pcmIndex;
    CounterWraps(x, excess);
    assert p.pcmIndex - p.pcmDiscard == 0 - excess;
    ClipAhead(Rest(m.AsTrack(), start), start.current, m.delay, m.PaddingStart());
    if ok && m.PaddingStart().Unlimited? && m.delay == 0 {
      PassedBy(m.AsTrack(), start, end, Wrap64(x + excess));
    }
  }

  lemma PassedBy<T>(t: Track<T>, start: Cursor, end: Cursor, n: nat)
    requires Passed(t, start, end) && end.current == start.current + n
    ensures n <= |Rest(t, start)| && Rest(t, end) == Rest(t, start)[n..]
  {
    hide Rest;
  }

  /** A counter that starts `excess` below zero gets to x after x + excess steps. */
  lemma CounterWraps(x: nat, excess: nat)
    requires x == Wrap64(x) && 0 < excess < 0x1_0000
    ensures var base := Wrap64(0 - excess);
            Wrap64(x - base) == Wrap64(x + excess) && Wrap64(base + Wrap64(x + excess)) == x
  {
    assert Wrap64(0 - excess) == 0x1_0000_0000_0000_0000 - excess;
  }

  lemma ClipAhead<T>(rest: seq<T>, current: nat, delay: nat, end: Limit)
    ensures |Clip(rest, current, delay, end)| <= |rest|
    ensures end.UpTo? && end.n <= current ==> Clip(rest, current, delay, end) == []
    ensures end.Unlimited? && delay == 0 ==> Clip(rest, current, delay, end) == rest
  {
  }

  /**
   * With the delay of an ordinary encoder tag, counting or building a table at PCM frame 2105 of
   * a stream of three MP3 frames leaves the reader at 3210, and at frame 2400 it fails.
   */
  lemma DelayMovesPosition<T>(m: Mp3<T>)
    requires m.ValidStream() && m.seekPoints == [] && m.PaddingStart().Unlimited?
    requires m.delay == 1105 && |m.All()| == 3 * 1152
    ensures m.InReach(2105) && Lands(m.Base(2105, 0), 2105, m.delay) == 3210
    ensures !m.InReach(2400)
  {
    hide Decoded, Mp3.ValidStream;
  }

  lemma StreamIsValid<T>(m: Mp3<T>)
    requires m.Valid()
    ensures m.ValidStream() && |m.framePos| == |m.packets| + 1
    ensures |m.counted| == |m.blocks| == |m.bytePos| - 1
  {
  }

  /**
   * The table of any stream has increasing points at frames, and no discard runs below zero
   * unless the first block is longer than the distance between the points.
   */
  lemma ComputedTableIsPlaced<T>(m: Mp3<T>, wanted: nat)
    requires m.ValidStream() && m.framePos[0] == 0 && 0 < wanted
    ensures |m.counted| == |m.blocks| == |m.bytePos| - 1
    ensures var ps := m.TableFor(wanted);
            && Increasing(ps) && (forall i :: 0 <= i < |ps| ==> Placed(m.framePos, ps[i]))
            && (3 <= |m.blocks| ==>
                  (TableLeads(m.blocks, m.bytePos, ps) <==>
                   |m.blocks[0]| <= Start(m.blocks, |m.blocks|) / (Min(wanted, |m.blocks| - 1) + 1)))
            && (|m.blocks| < 3 ==> TableLeads(m.blocks, m.bytePos, ps))
  {
    hide Points, TableLeads, SmallBlocks, Accepted, BlocksOf;
    CallsAdvance(m.fs, m.framePos, false);
    if 3 <= |m.blocks| {
      var count := Min(wanted, |m.blocks| - 1);
      var step := Start(m.blocks, |m.blocks|) / (count + 1);
      PointAt(m.blocks, m.bytePos, step, count, 0);
      assert Start(m.blocks, 1) == |m.blocks[0]|;
      TableIsSound(m.blocks, m.bytePos, step, count);
      forall i | 0 <= i < |m.TableFor(wanted)| ensures Placed(m.framePos, m.TableFor(wanted)[i]) {
        PointIsPlaced(m, step, count, i);
      }
    } else {
      StartPointLeads(m.blocks, m.bytePos);
      assert m.framePos[0] == SeekPoint(0, 0, 0, 0).bytePos;
    }
  }

  lemma CallIsPlaced<T>(m: Mp3<T>, k: nat)
    requires m.ValidStream() && k <= |m.counted|
    ensures |m.bytePos| == |m.counted| + 1
    ensures exists f :: 0 <= f < |m.framePos| && m.framePos[f] == m.bytePos[k]
  {
    hide SmallBlocks, BlocksOf;
    CallsAdvance(m.fs, m.framePos, false);
    var f := CallFrame(m.counted, k);
    assert m.counted == Accepted(m.fs, START, false);
    assert f <= |m.fs| && m.framePos[f] == m.bytePos[k];
  }

  /**
   * The table has a point less than there are MP3 frames, or as many as wanted, at even distances
   * of whole PCM frames, with one such distance to spare at the end; without three MP3 frames it is
   * the start of the stream alone.
   */
  lemma TableIsSpread<T>(m: Mp3<T>, wanted: nat, s: nat)
    requires |m.bytePos| == |m.blocks| + 1
    ensures var ps, frames := m.TableFor(wanted), |m.blocks|;
            if frames < 3 then ps == [SeekPoint(0, 0, 0, 0)]
            else
              && |ps| == (if wanted < frames then wanted else frames - 1)
              && (s < |ps| ==> ps[s].pcmIndex == |From(m.blocks, 0)| / (|ps| + 1) * (s + 1))
  {
    hide Points, From, Start, Target;
    if 3 <= |m.blocks| {
      var count := Min(wanted, |m.blocks| - 1);
      var step := Start(m.blocks, |m.blocks|) / (count + 1);
      TotalLength(m.blocks);
      if s < count {
        PointAt(m.blocks, m.bytePos, step, count, s);
        PointTarget(m.blocks, m.bytePos, Target(step, s + 1));
        TargetIsProduct(step, s + 1);
      } else if 0 < count {
        PointAt(m.blocks, m.bytePos, step, count, 0);
      } else {
        assert Points(m.blocks, m.bytePos, step, 0) == [] by { NoPoints(m.blocks, m.bytePos, step); }
      }
    }
  }

  lemma NoPoints<T>(blocks: seq<seq<T>>, bytePos: seq<nat>, step: nat)
    requires 3 <= |blocks| < |bytePos|
    ensures Points(blocks, bytePos, step, 0) == []
  {
  }

  lemma PointIsPlaced<T>(m: Mp3<T>, step: nat, count: nat, i: nat)
    requires m.ValidStream() && 3 <= |m.blocks| && |m.bytePos| == |m.blocks| + 1 && i < count
    ensures |Points(m.blocks, m.bytePos, step, count)| == count
    ensures Placed(m.framePos, Points(m.blocks, m.bytePos, step, count)[i])
  {
    hide Points, SmallBlocks, Accepted, BlocksOf;
    PointAt(m.blocks, m.bytePos, step, count, i);
    CallIsPlaced(m, Reach(m.blocks, Target(step, i + 1), 3) - 3);
  }

  lemma StartPointLeads<T>(blocks: seq<seq<T>>, bytePos: seq<nat>)
    requires |bytePos| == |blocks| + 1 && bytePos[0] == 0
    ensures TableLeads(blocks, bytePos, [SeekPoint(0, 0, 0, 0)])
  {
    assert Leads(blocks, bytePos, SeekPoint(0, 0, 0, 0), 0);
  }

  /**
   * The table of a stream that decodes completely leads to the right places if and only if
   * its first block is not longer than the distance between the points and the frames at the
   * points need no main data of earlier frames.
   */
  lemma ComputedTableIsRight<T>(m: Mp3<T>, wanted: nat)
    requires m.ValidStream() && m.framePos[0] == 0 && 0 < wanted && Complete(m.fs)
    ensures |m.blocks| == |m.packets| == |m.bytePos| - 1
    ensures 3 <= |m.packets| ==>
              var count := Min(wanted, |m.packets| - 1);
              var step := Start(m.blocks, |m.blocks|) / (count + 1);
              TableRight(m.packets, m.framePos, m.TableFor(wanted))
              <==> |m.packets[0].samples| <= step && AllSelfContained(m.packets, m.blocks, step, count)
    ensures |m.packets| < 3 ==> TableRight(m.packets, m.framePos, m.TableFor(wanted))
  {
    hide Points, SmallBlocks, Accepted, BlocksOf, AllSelfContained, Right, WellFramed, Complete;
    CompleteBlocks(m.packets, m.framePos);
    if 3 <= |m.packets| {
      var count := Min(wanted, |m.packets| - 1);
      assert Start(m.blocks, 1) == |m.blocks[0]|;
      ComputedTableIsRightExactly(m.packets, m.framePos, Start(m.blocks, |m.blocks|) / (count + 1), count);
    } else {
      StartIsRight(m.packets, m.framePos);
    }
  }

  /**
   * Counting finds no fewer MP3 and PCM frames than there are to read, and either number is
   * right if and only if no reservoir pointer falls into the gap between counting and decoding.
   */
  lemma CountIsRightExactly<T>(m: Mp3<T>)
    requires m.ValidStream()
    ensures |m.counted| == |m.blocks|
    ensures var decoded, frames := |Accepted(m.fs, START, true)|, Start(m.blocks, |m.blocks|);
            && decoded <= |m.counted| && (decoded == |m.counted| <==> NoneInGap(m.fs, 0, 0, 0))
            && |m.All()| <= frames && (|m.All()| == frames <==> NoneInGap(m.fs, 0, 0, 0))
  {
    hide Accepted, Start, From, Total, NoneInGap, BlocksOf, Sizes;
    var d, sizes := Accepted(m.fs, START, true), Sizes(m.packets);
    SizesPositive(m.packets, m.framePos);
    SameFramesExactly(m.fs, 0, 0, 0);
    CountsAgreeExactly(m.fs, sizes, 0, 0, 0);
    TotalLength(BlocksOf(m.packets, d));
    StartIsTotal(m.packets, d, |d|);
    StartIsTotal(m.packets, m.counted, |m.counted|);
    assert d[..|d|] == d && m.counted[..|m.counted|] == m.counted;
  }

  /** Before and after the first block is loaded the rest of the session is all of it. */
  lemma SessionStarts<T>(packets: seq<Packet<T>>, session: seq<nat>)
    requires session != []
    ensures var blocks := BlocksOf(packets, session);
            From(blocks, 0) == From(blocks, 0)[0..] == blocks[0][0..] + From(blocks, 1)
  {
    var blocks := BlocksOf(packets, session);
    assert blocks[0][0..] == blocks[0];
  }

  lemma NothingAtEnd(fs: seq<SoundFrame>, s: Spot)
    requires s.at == |fs|
    ensures Accepted(fs, s, true) == []
  {
  }

  lemma NextInSession(fs: seq<SoundFrame>, session: seq<nat>, k: nat, s: Spot)
    requires s.at <= |fs| && k <= |session| && session[k..] == Accepted(fs, s, true)
    ensures var a := Arrive(fs, s);
            && (a.at == |fs| <==> k == |session|)
            && (a.at < |fs| ==> session[k] == a.at && session[k + 1..] == Accepted(fs, Past(fs, a, true), true))
  {
    hide Accepted, Past;
    ArriveAccepts(fs, s, true);
    var a := Arrive(fs, s);
    if a.at < |fs| {
      assert session[k..][1..] == session[k + 1..];
      assert session[k..][0] == session[k];
    }
  }
}
