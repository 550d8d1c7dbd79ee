/** The sliding refill buffer between the byte stream and the frame decoder. */
module FrameSource {
  import opened Words
  import opened FrameHeader
  import opened Decoder
  import opened FramedBytes
  import A = AcceptedFrames
  import Reservoir
  import opened Wrappers

  const MIN_CHUNK: nat := 16384
  const CHUNK: nat := 65536
  const INT_MAX: nat := 0x7fff_ffff

  /** Before each decoder call: bytes are buffered, no memory, or the stream is used up. */
  datatype Refilled = Ready | OutOfMemory | NoData

  class Source {
    const stream: seq<byte>           // what the read callback delivers
    const streamLength: Option<nat>   // where a trailing tag starts, if there is one
    const decoder: FrameDecoder
    var data: array?<byte>
    var dataCapacity: nat
    var dataSize: nat
    var dataConsumed: nat
    var streamCursor: nat
    var atEnd: bool
    ghost var origin: nat             // stream position after the last seek
    ghost var handed: seq<byte>       // the buffer bytes used up by decoder calls since then

    /** The first stream byte that is never read. */
    function End(): (n: nat)
      ensures n <= |stream| && (streamLength.Some? ==> n <= streamLength.value)
      ensures n == |stream| || streamLength == Some(n)
    {
      match streamLength
      case None => |stream|
      case Some(n) => Min(n, |stream|)
    }

    /** The stream position of the first byte not yet used up. */
    function Position(): (p: int)
      reads this`streamCursor, this`dataSize
    {
      streamCursor - dataSize
    }

    /** The bytes of the stream up to a trailing tag. */
    function Content(): (s: seq<byte>) {
      stream[..End()]
    }

    /** What the decoder remembers. */
    ghost function Remembered(): (m: Memory)
      reads this, decoder
    {
      Memory(decoder.header, decoder.freeFormat, decoder.run)
    }

    /** The stream is laid out in frames, and the reader stands before frame s.at of it. */
    ghost predicate Stands(l: Layout, s: A.Spot)
      reads this, decoder
    {
      && LaidOut(Content(), l) && s.at <= |l.frames| && Position() == l.pos[s.at]
      && Remembers(Remembered(), Content(), l, s)
    }

    /** Shape of the buffer and the decoder behind it. */
    ghost predicate Shape()
      reads this
    {
      && dataCapacity == (if data == null then 0 else CHUNK)
      && (data != null ==> data.Length == CHUNK && data != decoder.reservBuf && data != decoder.mainData)
      && dataConsumed + dataSize <= dataCapacity
      && origin <= Position() && streamCursor <= End()
    }

    /** The buffered bytes are exactly the stream slice that ends at the cursor. */
    ghost predicate Window()
      requires Shape()
      reads this, data
    {
      data != null ==> data[dataConsumed..dataConsumed + dataSize] == stream[Position()..streamCursor]
    }

    ghost predicate Valid()
      reads this, data, decoder, decoder.reservBuf, decoder.mainData
    {
      && Shape() && Window() && decoder.Valid()
      && handed == stream[origin..Position()]
    }

    constructor (bytes: seq<byte>, length: Option<nat>)
      ensures Valid() && stream == bytes && streamLength == length && Position() == 0 && !atEnd
      ensures fresh(decoder) && fresh(decoder.reservBuf) && fresh(decoder.mainData) && data == null
    {
      stream, streamLength := bytes, length;
      decoder := new FrameDecoder();
      data, dataCapacity, dataSize, dataConsumed := null, 0, 0, 0;
      streamCursor, atEnd, origin, handed := 0, false, 0, [];
    }

    /** drmp3__on_seek_64: seeks in steps that fit a signed 32-bit offset. */
    method OnSeek64(offset: nat)
      modifies this`streamCursor
      ensures streamCursor == offset
    {
      if offset <= 0x7FFF_FFFF {
        streamCursor := offset;
        return;
      }
      streamCursor := 0x7FFF_FFFF;
      var left := offset - 0x7FFF_FFFF;
      while 0 < left
        invariant 0 <= left && streamCursor + left == offset
      {
        var step := if left <= 0x7FFF_FFFF then left else 0x7FFF_FFFF;
        streamCursor := streamCursor + step;
        left := left - step;
      }
    }

    /** drmp3__on_seek_64 followed by drmp3_reset. */
    method SeekTo(offset: nat)
      requires Valid() && offset <= End()
      modifies this, decoder
      ensures Valid() && Position() == offset && origin == offset && handed == [] && !atEnd
      ensures data == old(data)
      ensures forall l: Layout, k: nat :: LaidOut(Content(), l) && k <= |l.frames| && l.pos[k] == offset ==> Stands(l, A.Spot(k, 0))
    {
      OnSeek64(offset);
      dataSize := 0;
      atEnd := false;
      decoder.header := decoder.header.(b0 := 0);
      origin, handed := offset, [];
    }

    /** Make room: move the unused bytes to the front of the buffer. */
    method MoveDown()
      requires Shape() && Window()
      modifies this`dataConsumed, data
      ensures Shape() && Window() && dataConsumed == 0
    {
      if data != null {
        ghost var was := data[dataConsumed..dataConsumed + dataSize];
        forall k | 0 <= k < dataSize {
          data[k] := data[dataConsumed + k];
        }
        assert data[..dataSize] == was;
      }
      dataConsumed := 0;
    }

    /** drmp3__on_read_clamped: append what the stream delivers, never past its end. */
    method Fill() returns (bytesRead: nat)
      requires Shape() && Window() && data != null && dataConsumed == 0
      modifies this`streamCursor, this`dataSize, data
      ensures Shape() && Window() && Position() == old(Position())
      ensures bytesRead == Min(dataCapacity - old(dataSize), End() - old(streamCursor))
      ensures dataSize == old(dataSize) + bytesRead
    {
      bytesRead := Min(dataCapacity - dataSize, End() - streamCursor);
      ghost var was := data[..dataSize];
      forall i | dataSize <= i < dataSize + bytesRead {
        data[i] := stream[streamCursor - dataSize + i];
      }
      assert data[..dataSize] == was;
      JoinSlices(data[..], dataSize, stream, Position(), bytesRead);
      streamCursor := streamCursor + bytesRead;
      dataSize := dataSize + bytesRead;
    }

    /** drmp3__realloc_from_callbacks: a larger buffer with the old contents. */
    method Reallocate()
      requires Shape() && Window() && dataCapacity < CHUNK
      modifies this`data, this`dataCapacity
      ensures Shape() && Window() && data != null && fresh(data)
    {
      data := new byte[CHUNK](_ => 0);
      dataCapacity := CHUNK;
      assert stream[Position()..streamCursor] == [];
    }

    /** The top of the decoding loop: keep at least 16K buffered while the stream lasts. */
    method Refill(canAllocate: bool) returns (r: Refilled)
      requires Valid()
      modifies this`data, this`dataCapacity, this`dataConsumed, this`dataSize, this`streamCursor, data
      ensures Valid() && Position() == old(Position())
      ensures data == old(data) || fresh(data)
      ensures r.Ready? ==> data != null && 0 < dataSize && (MIN_CHUNK <= dataSize || streamCursor == End())
      ensures r.NoData? ==> Position() == End()
      ensures r.OutOfMemory? ==> !canAllocate
      ensures forall l: Layout, s: A.Spot :: old(Stands(l, s)) ==> Stands(l, s)
    {
      if dataSize < MIN_CHUNK {
        MoveDown();
        if dataCapacity < CHUNK {
          if !canAllocate {
            return OutOfMemory;
          }
          Reallocate();
        }
        var bytesRead := Fill();
        if bytesRead == 0 && dataSize == 0 {
          return NoData;
        }
      }
      return Ready;
    }

    /** The last decoder call found a frame, and these were the bytes it used. */
    ghost predicate Found(samples: nat, frameData: seq<byte>, window: seq<byte>, at: nat,
                          before: seq<Reservoir.Event>, pcm: bool)
      reads this, decoder
    {
      && 1 <= |frameData| <= |handed| && frameData == handed[|handed| - |frameData|..]
      && frameData <= window
      && FrameOutcome(window, at, |frameData|, pcm, before, decoder.run, decoder.header, samples)
    }

    /** One decoder call on the buffered bytes, and consuming what it used. */
    method CallDecoder(pcm: bool, scalefactorBits: seq<nat>, layer12Overrun: bool)
      returns (samples: nat, used: nat, ghost window: seq<byte>, ghost at: nat, ghost before: seq<Reservoir.Event>)
      requires Valid() && data != null && 0 < dataSize && |scalefactorBits| == 4
      modifies this`dataConsumed, this`dataSize, this`handed, decoder, decoder.reservBuf, decoder.mainData
      ensures Valid() && 1 <= used <= old(dataSize)
      ensures dataConsumed == old(dataConsumed) + used && Position() == old(Position()) + used
      ensures handed == old(handed) + data[dataConsumed - used..dataConsumed]
      ensures window == old(data[dataConsumed..dataConsumed + dataSize])
      ensures Found(samples, data[dataConsumed - used..dataConsumed], window, at, before, pcm)
      ensures CallOutcome(old(Remembered()), window, pcm, Call(at, used, samples, Remembered()))
    {
      hide FrameOutcome, CallOutcome, Resynced, FrameStep, FrameDecoder.Valid;
      var buffered := data[dataConsumed..dataConsumed + dataSize];
      window := buffered;
      samples, used, at, before := decoder.DecodeFrame(buffered, pcm, scalefactorBits, layer12Overrun);
      Consume(used);
    }

    /**
     * A decoder call in a stream laid out in frames: it uses up the frame that the reader
     * stands before, and yields its samples exactly if the reservoir reaches back far enough.
     */
    method CallInLayout(pcm: bool, scalefactorBits: seq<nat>, layer12Overrun: bool, ghost l: Layout, ghost s: A.Spot)
      returns (samples: nat, used: nat, ghost window: seq<byte>, ghost at: nat, ghost before: seq<Reservoir.Event>)
      requires Valid() && data != null && 0 < dataSize && |scalefactorBits| == 4
      requires MIN_CHUNK <= dataSize || streamCursor == End()
      modifies this`dataConsumed, this`dataSize, this`handed, decoder, decoder.reservBuf, decoder.mainData
      ensures Valid() && 1 <= used <= old(dataSize)
      ensures dataConsumed == old(dataConsumed) + used && Position() == old(Position()) + used
      ensures handed == old(handed) + data[dataConsumed - used..dataConsumed]
      ensures Found(samples, data[dataConsumed - used..dataConsumed], window, at, before, pcm)
      ensures old(Stands(l, s)) ==> TookFrame(l, s, pcm, samples, data[dataConsumed - used..dataConsumed])
    {
      hide FrameOutcome, CallOutcome, LaidOut, Remembers, Shows, Found, FrameDecoder.Valid;
      ghost var m := Remembered();
      ghost var from, end := Position(), streamCursor;
      ghost var stands := Stands(l, s);
      samples, used, window, at, before := CallDecoder(pcm, scalefactorBits, layer12Overrun);
      if stands {
        LayoutCall(this, l, s, from, end, m, pcm, window, Call(at, used, samples, Remembered()),
                   data[dataConsumed - used..dataConsumed]);
      }
    }

    /** The call took frame s.at of the layout, and the reader stands behind it. */
    ghost predicate TookFrame(l: Layout, s: A.Spot, pcm: bool, samples: nat, frameData: seq<byte>)
      requires LaidOut(Content(), l)
      reads this, decoder
    {
      && s.at < |l.frames| && l.pos[s.at] <= l.pos[s.at + 1] <= End() && l.pos[s.at] + HDR_SIZE <= End()
      && frameData == Content()[l.pos[s.at]..l.pos[s.at + 1]]
      && samples == (if A.Takes(l.frames, s) then FrameSamples(HeaderAt(Content(), l.pos[s.at])) else 0)
      && Stands(l, A.Past(l.frames, s, pcm))
    }

    /** Move past the bytes that the decoder has used. */
    method Consume(used: nat)
      requires Shape() && Window() && handed == stream[origin..Position()] && data != null && used <= dataSize
      modifies this`dataConsumed, this`dataSize, this`handed
      ensures Shape() && Window() && handed == stream[origin..Position()]
      ensures dataConsumed == old(dataConsumed) + used && Position() == old(Position()) + used
      ensures handed == old(handed) + data[dataConsumed - used..dataConsumed]
    {
      ghost var window := data[dataConsumed..dataConsumed + dataSize];
      handed := handed + window[..used];
      SplitSlice(data[..], dataConsumed, used, dataConsumed + dataSize);
      SplitSlice(stream, Position(), used, streamCursor);
      dataConsumed := dataConsumed + used;
      dataSize := dataSize - used;
    }

    method SetAtEnd(ended: bool)
      requires Valid()
      modifies this`atEnd
      ensures Valid() && atEnd == ended
    {
      atEnd := ended;
    }

    /** One round of the decoding loop: refill the buffer, then call the decoder. */
    method Round(pcm: bool, canAllocate: bool, scalefactorBits: seq<nat>, layer12Overrun: bool, ghost l: Layout, ghost s: A.Spot)
      returns (r: Refilled, samples: nat, frameData: seq<byte>,
               ghost window: seq<byte>, ghost at: nat, ghost before: seq<Reservoir.Event>)
      requires Valid() && |scalefactorBits| == 4
      modifies this`data, this`dataCapacity, this`dataConsumed, this`dataSize, this`streamCursor, this`handed, data
      modifies decoder, decoder.reservBuf, decoder.mainData
      ensures Valid() && (data == old(data) || fresh(data)) && old(handed) <= handed
      ensures Position() <= End()
      ensures r.Ready? ==> old(Position()) < Position() && Found(samples, frameData, window, at, before, pcm)
      ensures !r.Ready? ==> samples == 0 && Position() == old(Position())
      ensures r.NoData? ==> Position() == End()
      ensures r.OutOfMemory? ==> !canAllocate
      ensures old(Stands(l, s)) ==> if r.Ready? then TookFrame(l, s, pcm, samples, frameData) else Stands(l, s)
    {
      hide FrameOutcome, Found, Source.Stands, Source.TookFrame, FrameDecoder.Valid;
      samples, frameData, window, at, before := 0, [], [], 0, [];
      r := Refill(canAllocate);
      if !r.Ready? {
        return;
      }
      assert 0 < dataSize <= INT_MAX;
      var used;
      samples, used, window, at, before := CallInLayout(pcm, scalefactorBits, layer12Overrun, l, s);
      frameData := data[dataConsumed - used..dataConsumed];
    }

    /**
     * drmp3_decode_next_frame_ex__callbacks: the samples and the bytes of the next frame.
     *
     * Every byte between the old and the new position was handed to the decoder exactly
     * once, in order. Each decoder call uses at least one byte, so the loop ends, and the
     * branches for a call that uses none and for an oversized buffer are never taken. In a
     * stream laid out in frames the call passes over those the reservoir does not reach for,
     * to the one that the levels say: the loop on frames and the loop on bytes agree.
     */
    method DecodeNextFrame(pcm: bool, canAllocate: bool, scalefactorBits: seq<nat>, layer12Overrun: bool,
                           ghost l: Layout, ghost s: A.Spot)
      returns (samples: nat, frameData: seq<byte>, ghost window: seq<byte>, ghost at: nat, ghost before: seq<Reservoir.Event>)
      requires Valid() && |scalefactorBits| == 4
      modifies this, data, decoder, decoder.reservBuf, decoder.mainData
      ensures Valid() && origin == old(origin)
      ensures old(Position()) <= Position() && old(handed) <= handed
      ensures samples != 0 ==> old(Position()) < Position() && Found(samples, frameData, window, at, before, pcm)
      ensures samples == 0 && canAllocate && !old(atEnd) ==> atEnd && Position() == End()
      ensures old(atEnd) ==> samples == 0 && Position() == old(Position())
      ensures old(Stands(l, s)) && canAllocate && !old(atEnd) ==> Arrived(l, A.Arrive(l.frames, s), pcm, samples, frameData)
    {
      hide Found, Source.Valid, Source.Stands, Source.TookFrame, SameArrival, A.Arrive, A.Past, LaidOut;
      InsideStream(this);
      samples, frameData, window, at, before := 0, [], [], 0, [];
      ghost var stands, spot := Stands(l, s), s;
      if stands {
        StandsInside(this, l, s);
      }
      if atEnd {
        return;
      }
      while samples == 0
        invariant Valid() && Position() <= End() && origin == old(origin) && !atEnd
        invariant data == old(data) || fresh(data)
        invariant old(Position()) <= Position() && old(handed) <= handed
        invariant samples != 0 ==> old(Position()) < Position() && Found(samples, frameData, window, at, before, pcm)
        invariant stands ==> s.at <= |l.frames|
        invariant stands && samples == 0 ==> Stands(l, spot) && SameArrival(l, s, spot)
        invariant stands && samples != 0 ==> Arrived(l, A.Arrive(l.frames, s), pcm, samples, frameData)
        decreases End() - Position()
      {
        var r;
        r, samples, frameData, window, at, before := Round(pcm, canAllocate, scalefactorBits, layer12Overrun, l, spot);
        if !r.Ready? {
          if stands && r.NoData? {
            NothingLeft(this, l, s, spot);
          }
          SetAtEnd(r.NoData?);
          return;
        }
        if stands {
          spot := ArriveStep(this, l, s, spot, pcm, samples, frameData);
        }
      }
    }

    /** The next frame that yields samples was decoded, or there is none. */
    ghost predicate Arrived(l: Layout, a: A.Spot, pcm: bool, samples: nat, frameData: seq<byte>)
      requires a.at <= |l.frames|
      reads this, decoder
    {
      if a.at == |l.frames| then samples == 0 && Position() == End()
      else LaidOut(Content(), l) && TookFrame(l, a, pcm, samples, frameData)
    }
  }

  /** The frames passed over so far do not change which one comes next. */
  ghost predicate SameArrival(l: Layout, s: A.Spot, spot: A.Spot) {
    s.at <= |l.frames| && spot.at <= |l.frames| && A.Arrive(l.frames, spot) == A.Arrive(l.frames, s)
  }

  lemma InsideStream(src: Source)
    requires src.Valid()
    ensures src.Position() <= src.End()
  {
  }

  lemma StandsInside(src: Source, l: Layout, s: A.Spot)
    requires src.Stands(l, s)
    ensures LaidOut(src.Content(), l) && s.at <= |l.frames| && SameArrival(l, s, s)
  {
    hide LaidOut;
  }

  /** At the end of the stream no frame is left. */
  lemma NothingLeft(src: Source, l: Layout, s: A.Spot, spot: A.Spot)
    requires src.Stands(l, spot) && SameArrival(l, s, spot) && src.Position() == src.End()
    ensures A.Arrive(l.frames, s).at == |l.frames|
  {
    hide Carries, Remembers;
    if spot.at < |l.frames| {
      FrameIsShort(src.Content(), l, spot.at);
    }
  }

  /** A call that took a frame either yields what comes next, or leaves the reader before a later frame. */
  lemma ArriveStep(src: Source, l: Layout, s: A.Spot, spot: A.Spot, pcm: bool, samples: nat, frameData: seq<byte>)
    returns (next: A.Spot)
    requires SameArrival(l, s, spot) && LaidOut(src.Content(), l) && src.TookFrame(l, spot, pcm, samples, frameData)
    ensures samples == 0 ==> src.Stands(l, next) && SameArrival(l, s, next)
    ensures samples != 0 ==> src.Arrived(l, A.Arrive(l.frames, s), pcm, samples, frameData)
  {
    hide LaidOut, Remembers, A.Fill;
    if A.Takes(l.frames, spot) {
      next := spot;
    } else {
      next := A.Past(l.frames, spot, pcm);
      A.RefusedFillsTheSame(l.frames[spot.at], spot.fill, pcm);
    }
  }

  /** What one call on the window of a laid out stream does to the reader. */
  lemma LayoutCall(src: Source, l: Layout, s: A.Spot, from: nat, end: nat, m: Memory, pcm: bool, window: seq<byte>,
                   c: Call, frameData: seq<byte>)
    requires LaidOut(src.Content(), l) && s.at <= |l.frames| && from == l.pos[s.at] && Remembers(m, src.Content(), l, s)
    requires from < end <= src.End() && (from + MIN_CHUNK <= end || end == src.End())
    requires window == src.stream[from..end] && CallOutcome(m, window, pcm, c)
    requires src.Position() == from + c.used && src.Remembered() == c.after
    requires c.used <= |window| && frameData == window[..c.used]
    ensures src.TookFrame(l, s, pcm, c.samples, frameData)
  {
    hide Carries, Remembers, CallOutcome, Shows, Framed;
    var content := src.Content();
    assert window == content[from..end];
    if s.at == |l.frames| {
      EndOfLayout(content, l);
    }
    WindowShows(content, l, s.at, end);
    CallTakesFrame(content, l, s, end, m, pcm, c);
  }

  lemma EndOfLayout(stream: seq<byte>, l: Layout)
    requires LaidOut(stream, l)
    ensures l.pos[|l.frames|] == |stream|
  {
    hide Carries;
  }

  /** A window that matches the stream still does after the next k bytes are appended to both. */
  lemma JoinSlices<T>(d: seq<T>, m: nat, s: seq<T>, from: nat, k: nat)
    requires m + k <= |d| && from + m + k <= |s|
    requires d[..m] == s[from..from + m]
    requires forall i :: m <= i < m + k ==> d[i] == s[from + i]
    ensures d[..m + k] == s[from..from + m + k]
  {
  }

  lemma SplitSlice<T>(s: seq<T>, from: nat, n: nat, to: nat)
    requires from + n <= to <= |s|
    ensures s[from..to][..n] == s[from..from + n]
    ensures s[from..to][n..] == s[from + n..to]
    ensures s[from..to] == s[from..from + n] + s[from + n..to]
    ensures forall a: nat :: a <= from ==> s[a..from + n] == s[a..from] + s[from..from + n]
  {
  }
}
