# Verified model of the Amiberry libretro core's stateful parts

A Dafny model, with proofs, of the parts of the libretro port of Amiberry whose correctness
rests on arguments that span several functions. `dafny verify dfyconfig.toml` checks all of it.

- **MP3 framing, reservoir and pull reader** (`libretro/dr_mp3.h`): the plain and the cached bit
  reader (`BitStream`, `CachedReader`), frame headers and frame search (`FrameHeader`), side
  information (`SideInfo`), the bit reservoir (`Reservoir`, `Decoder`), which frames it lets
  through in decoding, in counting and after a jump (`AcceptedFrames`), the refill buffer
  (`FrameSource`) and its agreement with the model of frames (`FramedBytes`), the PCM reader with
  encoder delay and padding (`PcmStream`, `PcmReader`), the seek table as arithmetic (`SeekTable`)
  and where its points lead (`FramedStream`).
- **Am7990 network card** (`src/a2065.cpp`): control register 0 as a state machine (`Csr`), board
  memory and descriptors (`BoardRam`), reception and transmission over descriptor rings
  (`RxRing`, `TxRing`), MAC translation with UDP checksum repair (`MacMunge`), the receive queue
  and its two threads (`PacketQueue`, `ReceiveDrain`), and the card that joins them (`Lance`).
- **Overscan crop** (`libretro/libretro_crop_helpers.h`, `libretro/libretro.cpp`): rectangles over
  pixels (`CropRects`), the trim, expand and minimum-frame pipeline (`AutoCrop`) and the
  stabiliser behind it (`CropStabiliser`).
- **Audio pacing and input ownership** (`libretro/libretro.cpp`): `AudioPacing`, `InputOwner`.

Code that works in place is modelled as classes and methods over arrays; each such method is
proved equal to a function, and the results about runs, round trips and conservation are lemmas
about those functions. What those functions mean is pinned down a second time, in the terms of
the formats and of the host: header bits against the tables of the MPEG standards
(`HeaderTables`), runs of headers (`HeaderRuns`), side information against a writer of its own
(`SideInfoWriter`), descriptors and control register bit by bit (`RxMarks`, `TxMarks`,
`CardMarks`, `CsrFlags`), translated frames byte by byte (`MungedFields`) and trimmed crops by
their pixels (`CropStops`). `Words` holds the machine-word arithmetic they share, `Wrappers` the
optional value.

Samples are opaque: one MP3 frame that the reservoir lets through yields one block of them.
Scale factor lengths, the frame check sequence, the frontend's appetite for audio, pixel
contents, keyboard animation and the keys that hide the keyboard are inputs. The host's part in
the descriptor rings is a precondition where a result needs it: the buffers it hands over lie
outside the ring and do not overlap, and a transmit chain fits the transmit buffer.

Where the code does not do what its comments or its design intend, the code is modelled and the
exact condition is proved:

- The all-ones substitution in the UDP checksum tests a 32-bit complement and never fires, so a
  repaired checksum can be zero, which UDP reads as absent: exactly when the sum folds to all
  ones (`MacMunge.StoredChecksumIsZeroExactly`, `MacMunge.RequestLosesItsChecksum`).
- A seek point for a target inside the very first MP3 frame has a discard count that wraps to 16
  bits and leads nowhere. This happens exactly if the first frame is longer than the distance
  between points (`SeekTable.TableIsSound`); frames differ that much only across a change of
  layer (`SeekTable.LongFirstBlockMisleads`). Seeking from such a point asks for too many frames
  (`FramedStream.TruncatedDiscard`, `PcmReader.Mp3.SeekByTable`).
- A seek by table starts over with an empty reservoir, and a frame that points back to earlier
  main data is then passed over without being counted. Seeking to a point is reading forward
  exactly if decoding accepts the landing frame and has the stated PCM frames before it
  (`FramedStream.RightExactly`); in a stream that decodes completely, exactly if the frame at the
  point needs no earlier data (`FramedStream.ComputedTableIsRightExactly`), which an ordinary
  stream need not meet (`FramedStream.PointersMislead`).
- A seek counts discarded frames on top of skipped encoder delay, so one that reads on from PCM
  frame f is exact exactly if f is the target or not before the end of the delay
  (`PcmReader.LandsOnTargetExactly`); seeking by table and by force agree exactly if they start
  at the same frame or both are exact (`PcmReader.LandingsAgreeExactly`).
- Counting frames and building a table go back to where the reader was by the same kind of seek.
  With a delay they can leave it beyond the old position, or fail near the end of the stream: they
  succeed exactly if the landing frame is audible, and return exactly if the old position is the
  frame started at or nothing of the delay is ahead of it (`PcmReader.Mp3.CountFrames`,
  `PcmReader.Mp3.CalculateSeekPoints`, `PcmReader.DelayMovesPosition`).
- Automatic padding is applied to every buffer of a transmit chain, not to the frame, so it is
  harmless exactly without short buffers
  (`TxRing.PaddingHarmlessExactlyWithoutShortBuffers`).
- Expanding the crop over stray content needs a black top left pixel; otherwise lit pixels stay
  outside, however many (`AutoCrop.ExpandCrop`, `AutoCrop.LitCornerBlocksExpansion`).
- A frame that counting accepts may be one that decoding refuses
  (`Reservoir.SkippedFrameMayBeRefused`); the other direction always holds. Both accept the same
  frames, and the counts are right, exactly if no reservoir pointer falls between the two fill
  levels (`AcceptedFrames.SameFramesExactly`, `PcmReader.CountIsRightExactly`).
- A queue clear between the two looks at the queue head would misjudge a packet
  (`ReceiveDrain.ClearInDrainMisjudges`). It cannot happen, since both run on the emulation
  thread; `ReceiveDrain.OrderlyRunIsSound` assumes just that.

## Model

| member | source | states |
|---|---|---|
| BitStream.ValueSplit | libretro/dr_mp3.h:827-841 | the bits of a stream, read as one big-endian number, concatenate: the value of m + n bits is the value of the first m shifted left plus the value of the rest |
| BitStream.Reader.GetBits | libretro/dr_mp3.h:827-841 | returns the value of the next n stream bits for every n from 1 to 32 and every alignment, zero for a read past the limit, and advances by n in both cases |
| CachedReader.PeekReads | libretro/dr_mp3.h:1355 | a peek of n held bits is what the plain reader returns at the same position |
| CachedReader.FlushKeeps | libretro/dr_mp3.h:1356 | a flush keeps the top 24 - sh bits equal to the stream bits from the current position and the rest zero |
| CachedReader.FetchKeeps | libretro/dr_mp3.h:1357 | fetching a byte keeps the same invariant and does not move the position |
| CachedReader.CachedRefinesPlain | libretro/dr_mp3.h:1355-1408 | under every interleaving of peeks, flushes and refills within the cached bits, both readers see the same bits |
| CachedReader.BitCache.constructor | libretro/dr_mp3.h:1363-1366 | the initial load of four bytes and a partial shift establishes the cache invariant at any bit position |
| CachedReader.BitCache.CheckBits | libretro/dr_mp3.h:1357 | a refill leaves at least 25 bits available without moving the position |
| CachedReader.BitCache.DecodeLeaf | libretro/dr_mp3.h:1383-1391 | the table walk on the cached reader ends at the leaf and position of the same walk on the plain bit string |
| FrameHeader.Layer3FrameBytes | libretro/dr_mp3.h:860-888 | a Layer III frame with a tabulated bit rate has at most 1440 bytes, so only free-format frames use the remembered size |
| FrameHeader.MatchFrame | libretro/dr_mp3.h:2254-2266 | true exactly if one further header follows at the frame distance and up to ten that follow all match the first |
| FrameHeader.FindFreeFormat | libretro/dr_mp3.h:2278-2290 | finds the least distance at which two further matching headers follow, or reports none |
| FrameHeader.FindFrame | libretro/dr_mp3.h:2268-2304 | the frame reported is the first one in the data, tabulated or free-format: it lies inside the data, has the size its header or the least matching free-format distance gives, and is in step with what follows or fills the data alone; size 0 means there is none anywhere |
| FrameHeader.TryFrame | libretro/dr_mp3.h:2274-2300 | one round of the search returns the frame at its offset, or there is none there of any size |
| FrameHeader.FirstFoundOnce | libretro/dr_mp3.h:2268-2304 | the offset, size and free-format size of the first frame are determined by the data |
| FrameHeader.FramedIsFound | libretro/dr_mp3.h:2254-2304 | in a stream of frames of one kind the search that starts at a frame finds just that frame, as soon as the data shows one more header or ends with the frame, however many of the ten it compares |
| HeaderTables.ValidExactly | libretro/dr_mp3.h:843-850 | the headers that are taken for one, by the values of their bytes |
| HeaderTables.BitratesAreStandard | libretro/dr_mp3.h:860-867 | the bit rate of every header is that of the five tables of the MPEG standards |
| HeaderTables.SampleRatesAreStandard | libretro/dr_mp3.h:869-873 | so are the nine sample rates |
| HeaderTables.SamplesAreStandard | libretro/dr_mp3.h:875-878 | and the samples of a frame |
| HeaderTables.MatchesExactly | libretro/dr_mp3.h:852-858 | two headers match exactly if they agree in layer, sample rate and whether the bit rate is free |
| HeaderTables.FrameLength | libretro/dr_mp3.h:880-893 | an unpadded frame is as long as 144 or 72 samples a byte at its bit rate last, in Layer I four times twelve a slot, rounded down |
| HeaderTables.PaddingLengthens | libretro/dr_mp3.h:890-893 | the padding bit makes a frame longer by exactly four bytes in Layer I and one in the others |
| HeaderTables.FreeFormatLength | libretro/dr_mp3.h:880-888 | and a free-format frame as the size found for its stream |
| HeaderTables.MixedStreamIsFramed | libretro/dr_mp3.h:2254-2266 | three frames of 417, 418 and 418 bytes, whatever they carry, are cut where they meet |
| HeaderRuns.SyncedExactly | libretro/dr_mp3.h:2254-2266 | a frame is in step exactly if one header follows in the data and each of up to ten that follow, one frame apart, matches |
| HeaderRuns.FreeFormatExactly | libretro/dr_mp3.h:2278-2288 | a distance is that of a free-format stream exactly if a matching header lies there and another behind a second frame, which differs by the padding of the two alone |
| HeaderRuns.FoundExactly | libretro/dr_mp3.h:2268-2304 | a frame is found at its header exactly if the data is that frame and nothing else, or it is in step |
| SideInfo.SideInfoFillsBytes | libretro/dr_mp3.h:1096-1178 | the lead bits and records of side information always end on a byte: 32 or 17 bytes in MPEG-1, 17 or 9 otherwise |
| SideInfo.ReadGranule | libretro/dr_mp3.h:1111-1178 | reads one record at fixed offsets, 59 or 63 bits, whichever window branch is taken; refuses too many big values and a window switch to type 0 |
| SideInfo.ReadWindow | libretro/dr_mp3.h:1129-1168 | either branch of the window switching flag reads 22 bits at fixed offsets; a switch to type 0 is refused |
| SideInfo.ReadRecords | libretro/dr_mp3.h:1111-1178 | reads all records at consecutive fixed places and sums their lengths, or stops at a refused one |
| SideInfo.ReadSideInfo | libretro/dr_mp3.h:1063-1186 | succeeds exactly when no record is refused and the announced data fits the frame plus the reservoir bytes pointed back to; then it has used exactly the side information bytes |
| SideInfo.AcceptedSideInfo | libretro/dr_mp3.h:1180-1183 | accepted side information announces no more bits than the rest of the frame and the reservoir bytes hold |
| SideInfoWriter.WrittenFrameParses | libretro/dr_mp3.h:2344-2357 | parsing undoes an independent writer: for every header, pointer, records that fit their fields, check word and payload, a written frame gives back its pointer, payload and total part length exactly if its records are allowed and the parts fit, and is refused otherwise |
| SideInfoWriter.WrittenSideInfo | libretro/dr_mp3.h:1063-1186 | and granule by granule, every field that was written |
| Reservoir.ReservoirIsSuffix | libretro/dr_mp3.h:1802-1826 | after every run of frames and resets the reservoir holds at most 511 bytes and is a suffix of the main data fed since the last reset |
| Reservoir.StepKeepsLongest | libretro/dr_mp3.h:1802-1830 | a frame leaves the longest end of its main data, up to 511 bytes, of which no bit is consumed; a skipped or refused one consumes none |
| Reservoir.AcceptedFrameSeesPointedData | libretro/dr_mp3.h:1818-1826 | an accepted frame decodes exactly the last main_data_begin bytes fed before it, followed by its own payload |
| Reservoir.SkippingKeepsMore | libretro/dr_mp3.h:1802-1826 | after every run the reservoir of the decoder is a suffix of the one that counting the same frames leaves |
| Reservoir.AcceptedWhenSkipped | libretro/dr_mp3.h:2344-2368 | every frame that decoding accepts is also accepted by a run that only counts frames |
| Reservoir.SkippedFrameMayBeRefused | libretro/dr_mp3.h:1802-1826 | the converse is false: a concrete run in which counting accepts a frame that decoding refuses |
| AcceptedFrames.AcceptedIsReservoirs | libretro/dr_mp3.h:1802-1826 | which frames yield samples is decided by pointers and lengths alone: the frames listed are exactly those that the byte reservoir accepts after any run |
| AcceptedFrames.SameFramesExactly | libretro/dr_mp3.h:2358-2368 | counting and decoding accept the same frames if and only if no reservoir pointer falls between the two fill levels |
| AcceptedFrames.CountsAgreeExactly | libretro/dr_mp3.h:2358-2368 | counting never finds fewer MP3 or PCM frames than decoding, and either number agrees if and only if the frames do |
| AcceptedFrames.CompleteExactly | libretro/dr_mp3.h:1818-1826 | decoding accepts every frame if and only if the first points nowhere and no pointer reaches back further than the whole bytes the frame before leaves, at most 511; counting then accepts every frame too |
| AcceptedFrames.LandsExactly | libretro/dr_mp3.h:4432-4451 | a decoder that goes on from a frame it accepts is where reading forward would be if and only if decoding from the start accepts that frame and has decoded the stated number of PCM frames before it |
| AcceptedFrames.CompleteLandsExactly | libretro/dr_mp3.h:4432-4451 | in a stream that decodes completely, jumping to a frame and dropping two is right if and only if that frame needs no earlier main data |
| AcceptedFrames.PointerShiftsLanding | libretro/dr_mp3.h:4432-4451 | a concrete stream of 96-byte frames that decodes completely, where a jump to its second frame lands on the fourth instead of the third |
| Decoder.FrameDecoder.RestoreReservoir | libretro/dr_mp3.h:1818-1826 | the scratch buffer holds the tail of the reservoir and the payload, and the result says whether the reservoir reached back far enough |
| Decoder.FrameDecoder.SaveReservoir | libretro/dr_mp3.h:1802-1816 | keeps the last unread whole bytes, at most 511 |
| Decoder.FrameDecoder.DecodeGranules | libretro/dr_mp3.h:1828-1837 | the position ends at the sum of the record lengths, since Huffman decoding forces it to the granule limit |
| Decoder.FrameDecoder.FeedFrame | libretro/dr_mp3.h:2358-2368 | restore, decode and save together are one step of the reservoir run, whether or not samples are wanted |
| Decoder.FrameDecoder.Sync | libretro/dr_mp3.h:2317-2337 | stays in step with the remembered stream exactly under the continuation test, and else starts a new run at the first frame in the data |
| HeaderRuns.GoesOnExactly | libretro/dr_mp3.h:2317-2328 | a call goes on with the reservoir left to it exactly if the data starts with a frame of the remembered stream that ends with the data or at another such frame |
| HeaderRuns.StartsOver | libretro/dr_mp3.h:2329-2357 | after a call that finds no frame, or one with bad side information, the next call starts over |
| Decoder.FramedIsCut | libretro/dr_mp3.h:2317-2337 | in a stream of frames of one kind every call looks at exactly the frame it stands before, whatever the decoder remembers: after a jump as in continuous decoding |
| Decoder.CountingFollowsDecoding | libretro/dr_mp3.h:2311-2368 | a decoder that decodes and one that only counts, fed the same Layer III data, look at the same frames with the same headers over any number of calls; their runs differ only in skipping, and every frame that decodes is counted |
| Decoder.FrameDecoder.DecodeLayer3 | libretro/dr_mp3.h:2344-2368 | a frame with bad side information forces a resync; any other frame feeds the reservoir and yields samples exactly if the reservoir reaches back far enough |
| Decoder.FrameDecoder.DecodeFrame | libretro/dr_mp3.h:2311-2403 | framing of one call: the bytes used, the frame looked at and the event added to the run; uses nothing only on empty input and never more than it is given |
| FrameSource.Source.MoveDown | libretro/dr_mp3.h:2751-2756 | moving the unused bytes to the front keeps the buffer an exact window of the stream |
| FrameSource.Source.Fill | libretro/dr_mp3.h:2652-2669 | appends exactly what the stream still has, up to the free room; no byte is lost or repeated |
| FrameSource.Source.Refill | libretro/dr_mp3.h:2747-2790 | after a refill there is data to decode, at least 16384 bytes of it or all that the stream has left, or the stream is at its end, or allocation failed; the position does not move |
| FrameSource.Source.CallDecoder | libretro/dr_mp3.h:2797-2801 | every decoder call consumes between 1 and dataSize bytes, and hands over exactly that slice of the stream |
| FrameSource.Source.OnSeek64 | libretro/dr_mp3.h:2689-2716 | seeking in 31-bit steps ends at the 64-bit offset |
| FrameSource.Source.SeekTo | libretro/dr_mp3.h:4310-4335 | a seek empties the buffer, clears the end mark and moves the position to the byte asked for; at the position of a frame the reader stands before that frame with an empty reservoir |
| FramedBytes.CallTakesFrame | libretro/dr_mp3.h:2311-2368 | in a byte stream made of Layer III frames of one kind a decoder call uses exactly the bytes of the frame it stands before, yields samples if and only if the reservoir level reaches its pointer, and leaves the level that the model of frames says |
| FrameSource.Source.CallInLayout | libretro/dr_mp3.h:2797-2853 | the same for a call on the buffered bytes, whichever part of the stream they show |
| FrameSource.Source.DecodeNextFrame | libretro/dr_mp3.h:2733-2856 | the loop terminates; the bytes from the old to the new position went to the decoder once and in order; no samples means the end of the stream; in a stream made of Layer III frames the call decodes just the frame, at just the position, that the loop over frames of the pull reader arrives at |
| PcmStream.CacheEmptyBeforeLoad | libretro/dr_mp3.h:4219-4229 | the frame cache is empty whenever the next frame is decoded, as the internal assertion says |
| PcmStream.ReadSplits | libretro/dr_mp3.h:4157-4233 | reading n and then m frames equals reading n + m, in output and in state |
| PcmStream.ChunkSizesDoNotMatter | libretro/dr_mp3.h:4157-4233 | the same for every sequence of read sizes |
| PcmStream.ReadDelivers | libretro/dr_mp3.h:4157-4233 | a read delivers the first n frames of what lies between the delay and the padding, or all there is |
| PcmStream.ReadsGivePrefix | libretro/dr_mp3.h:4157-4233 | from the start of the stream any reads together give a prefix of the audible PCM |
| PcmStream.ReadMoves | libretro/dr_mp3.h:4168-4206 | after a delivery the frame counter stands behind the delay by the number of frames delivered |
| PcmReader.Mp3.ReadPcmFrames | libretro/dr_mp3.h:4157-4233 | the loop over delay, padding, cache and frames computes the read of the stream model, writes exactly the delivered frames to the buffer, and in step delivers the sound between delay and total less padding |
| PcmReader.ReadSounds | libretro/dr_mp3.h:4157-4233 | what one read in step delivers and where it leaves the counter, from total, padding and delay alone: it never ends between total less padding and total |
| PcmReader.SoundOfStream | libretro/dr_mp3.h:4157-4233 | with a total n above the padding, all reads from the start together give a prefix of the PCM frames from the delay to n less the padding; with any other total nothing is cut off |
| PcmReader.Mp3.NextFrame | libretro/dr_mp3.h:2742-2856 | goes on over frames without enough reservoir to the next one that yields samples; 0 exactly at the end of the stream; without a destination the samples are counted but not stored, and the reservoir keeps more |
| PcmReader.Mp3.DecodeNext | libretro/dr_mp3.h:2914-2918 | the next frame that decodes becomes the cached block; 0 exactly when none is left |
| PcmReader.Mp3.ClampToPadding | libretro/dr_mp3.h:4178-4189 | limits a portion to what is left before the padding, or ends the read inside it |
| PcmReader.Mp3.SkipFrames | libretro/dr_mp3.h:4168-4174 | moves over the part of the delay that lies in the cached block |
| SeekTable.ReachClosedForm | libretro/dr_mp3.h:4667-4715 | the number of MP3 frames decoded to reach a target in block j is max(3, j + 1), capped by the stream |
| SeekTable.PointIsSound | libretro/dr_mp3.h:4648-4733 | the point for a target in block j starts at block max(2, j) - 2; its 16-bit discard is untruncated exactly if the target is not in the very first block, and then less than the second and third block there together |
| SeekTable.TableIsSound | libretro/dr_mp3.h:4648-4733 | for MP3 frames of any sizes a computed table is strictly increasing, and every point of it counts to the right PCM frame if and only if the first target is not inside the first block |
| SeekTable.EqualBlocksAreSound | libretro/dr_mp3.h:4640-4733 | with blocks of one size the first target is never inside the first block |
| SeekTable.FirstPointMisleads | libretro/dr_mp3.h:4694-4700 | a first target inside the first block gives a first point that leads to no block |
| SeekTable.LongFirstBlockMisleads | libretro/dr_mp3.h:4694-4700 | ten MP3 frames of 1152 PCM frames and two of 384: eleven points are 1024 apart, and the discard of the first is truncated to 65408 |
| SeekTable.ClosestIs | libretro/dr_mp3.h:4382-4404 | the closest point of an increasing table is the one before the first point beyond the frame |
| FramedStream.RightExactly | libretro/dr_mp3.h:4406-4462 | a seek point is right, so that seeking there is reading forward, if and only if decoding from the start accepts the frame it lands on and has decoded pcmFrameIndex - pcmFramesToDiscard PCM frames before it |
| FramedStream.ComputedPointIsRightExactly | libretro/dr_mp3.h:4608-4746 | in a stream that decodes completely the point for a target in block j is right if and only if j is not the first block and the frame at block max(2, j) - 2 needs no earlier main data |
| FramedStream.ComputedTableIsRightExactly | libretro/dr_mp3.h:4608-4746 | the same for the whole table: right if and only if the first target lies beyond the first MP3 frame and the frames at all points are self-contained |
| FramedStream.PointersMislead | libretro/dr_mp3.h:4406-4462 | a concrete stream of five equal MP3 frames that decodes completely, where seeking to the third point of its table lands one MP3 frame late |
| PcmReader.Mp3.ScanToTarget | libretro/dr_mp3.h:4693-4732 | the scan stops at the frame that reaches the target, with the last three frame positions kept |
| PcmReader.Mp3.CalculateSeekPoints | libretro/dr_mp3.h:4608-4746 | computes the table of the stream model and never takes the branch for running out of frames; then goes back as counting does: exact success condition and final counter for every delay, the old position if and only if it is the frame started at or nothing of the delay is ahead of that |
| PcmReader.ComputedTableIsPlaced | libretro/dr_mp3.h:4608-4746 | the computed table of any stream is increasing and its points lie at frames; no discard is truncated exactly if the first block is no longer than the distance between points |
| PcmReader.TableIsSpread | libretro/dr_mp3.h:4634-4651 | how many points the table has and that they lie at even distances with one to spare at the end; without three MP3 frames it is the start of the stream |
| PcmReader.ComputedTableIsRight | libretro/dr_mp3.h:4608-4746 | the table that the reader computes for a stream that decodes completely leads to the right places exactly under the two conditions above |
| PcmReader.Mp3.FindClosestPoint | libretro/dr_mp3.h:4382-4404 | finds the last point at or before the wanted frame, if there is one |
| PcmReader.Mp3.SeekToStart | libretro/dr_mp3.h:4322-4335 | rewinds to the first frame with nothing cached, an empty reservoir and the counter at 0 |
| PcmReader.Mp3.ReadAndDiscard | libretro/dr_mp3.h:4338-4357 | succeeds exactly if as many frames are left; passes over PCM frames in step with the counter, which stands behind the delay by the frames discarded |
| PcmReader.Mp3.ChoosePoint | libretro/dr_mp3.h:4417-4425 | the closest point at or before the wanted frame, the start of the stream if there is none |
| PcmReader.Mp3.JumpTo | libretro/dr_mp3.h:4427-4455 | an empty reservoir at the bytes of the point, its MP3 frames dropped: fails exactly if the stream ends first, else what comes next is what decodes from the landing place |
| PcmReader.Mp3.DropFrames | libretro/dr_mp3.h:4435-4451 | drops n MP3 frames that yield samples, passing silently over those that do not; fails exactly if there are fewer; the last one stays in the cache |
| PcmReader.Mp3.SeekBruteForce | libretro/dr_mp3.h:4338-4380 | reads on from the old position, or from the start for an earlier frame; for every delay the exact success condition, where the counter ends, and that what is read next is the stream from there; in step with the stream it succeeds exactly if the landing frame is audible |
| PcmReader.WrapAround | libretro/dr_mp3.h:4454-4460 | the 64-bit counter arithmetic of a seek, in plain numbers |
| PcmReader.Mp3.SeekByTable | libretro/dr_mp3.h:4406-4462 | for any table, right or wrong: fails or reads on from the landing place of the closest point, with the exact counter, success condition and remaining samples; if the point is right, that is the stream from the counter on; a point whose discard exceeds it makes the counter wrap and the read ask for that many frames too many |
| FramedStream.TruncatedDiscard | libretro/dr_mp3.h:4694-4700 | the truncated discard of a target in the first MP3 frame exceeds the target by 65536 less the length of that frame |
| PcmReader.Mp3.SeekToPcmFrame | libretro/dr_mp3.h:4464-4480 | for every delay the exact success condition, and that the counter ends where reading on from the frame started at leads; without a table or with a right one the remaining stream is the whole stream from the counter on, and the seek succeeds exactly if the landing frame is audible |
| PcmReader.Mp3.CountFrames | libretro/dr_mp3.h:4482-4541 | counts the frames that a scan without output accepts and their PCM frames, then goes back by way of the start or the table: the exact success condition and final counter for every delay; back at the old position if and only if that is the frame started at or nothing of the delay is ahead of it |
| PcmReader.Mp3.GoBackTo | libretro/dr_mp3.h:4526-4533 | the way back on its own, with the same conditions |
| PcmReader.DelayMovesPosition | libretro/dr_mp3.h:4526-4533 | a concrete stream with the delay of an encoder tag: counting at frame 2105 leaves the reader at 3210, and at frame 2400 it fails |
| PcmReader.CountIsRightExactly | libretro/dr_mp3.h:4509-4524 | the counts are never below what there is to read, and right if and only if no reservoir pointer falls between the levels of counting and decoding |
| PcmReader.LandsOnTargetExactly | libretro/dr_mp3.h:4168-4174 | a seek that reads on from PCM frame f lands on frame x if and only if f is x or f is not before the end of the delay |
| PcmReader.LandingsAgreeExactly | libretro/dr_mp3.h:4338-4462 | two ways of seeking to x, such as by table and by force, end at the same counter if and only if they start at the same frame or both land on x |
| Csr.RunKeepsInvariant | src/a2065.cpp:258-284 | after every run of resets, register writes, receives and transmits: STOP excludes RXON, TXON, STRT and INIT, and INTR is the OR of the six cause bits |
| Csr.CauseClearsOnlyOnPurpose | src/a2065.cpp:957-1003 | a cause bit goes away exactly by write-one, a new stop or a reset; only IDON may survive its own write-one, when the write initializes the chip again |
| Csr.AddressLockedWhileRunning | src/a2065.cpp:1014-1025 | the initialization address cannot change while STOP is clear |
| Csr.LineComesOnOnlyByStart | src/a2065.cpp:975-991 | receiver and transmitter come on only by a start out of STOP or INIT |
| CsrFlags.LineEvents | src/a2065.cpp:487-534 | each transmission and reception flag by flag: TINT or RINT or MISS and INTR raised, TXON off exactly on an error, TDMD off exactly on one of ownership, and no other flag changed |
| CsrFlags.TransmitFlags | src/a2065.cpp:727-798 | the same of a transmit attempt on its own |
| CsrFlags.ReceiveFlags | src/a2065.cpp:487-503 | the same of a reception on its own |
| CsrFlags.WordOfFlags | src/a2065.cpp:957-966 | a word on the bus is its flags, in their places from bit 15 down |
| CsrFlags.StopWrite | src/a2065.cpp:968-975 | a one written to STOP of a running chip leaves STOP alone, clears CSR3 and the byte order |
| CsrFlags.Csr0Write | src/a2065.cpp:957-1003 | every flag after any other write: INEA copied, commands set, causes cleared by ones, INTR recomputed, STOP given up by a start or an initialization, each line by its own mode bit, and IDON, mode word and nothing else by an initialization |
| CsrFlags.AddressWrites | src/a2065.cpp:1014-1037 | CSR1 to CSR3 take a write only while stopped: all but the lowest bit, the low byte, and the low three bits, of which the third is the byte order |
| BoardRam.PutInRing | src/a2065.cpp:321-331 | a byte written into a descriptor changes that byte and no other of the ring |
| BoardRam.PutStatus | src/a2065.cpp:321-331 | writing a status word changes that word of one descriptor only |
| BoardRam.OwnedIsVisible | src/a2065.cpp:289-316 | a descriptor that the chip sees as its own lies in memory the chip can write |
| BoardRam.DescriptorLayout | src/a2065.cpp:480-490 | where ownership, address, negated size and message lie in the eight bytes of a descriptor, and that it is not the chip's without address line A15 |
| RxRing.FillDescriptors | src/a2065.cpp:506-526 | handing a buffer back changes one descriptor as documented (OWN cleared, STP on the first, ENP and length on the last) and no other |
| RxRing.GuardSuffices | src/a2065.cpp:480-534 | if the space check holds the delivery never meets a host-owned descriptor: it hands back one contiguous run, also across the ring end, marked as one frame, and moves past it |
| RxMarks.DeliveredMarks | src/a2065.cpp:480-534 | bit by bit: OWN off all of the run, STP on exactly the first and ENP on exactly the last where the host left them clear, the frame's length in the last, every other bit and descriptor as the host left it |
| RxMarks.OverrunMarks | src/a2065.cpp:487-503 | a frame the run does not hold fills all of it: no ENP, the last marked with ERR, BUFF and OFLO; without a chip-owned descriptor it is missed and memory unchanged |
| RxMarks.CheckIsCapacity | src/a2065.cpp:597-615 | the space check passes exactly if the run of chip-owned buffers from the ring position on holds the bytes asked for |
| RxRing.DeliveredExactlyIfItFits | src/a2065.cpp:480-534 | a frame is delivered if and only if the chip-owned buffers from the ring position on hold it |
| RxRing.ReceiveElsewhere | src/a2065.cpp:480-530 | a delivery changes no cell outside the ring and the chip-owned buffers |
| RxRing.ReceiveStores | src/a2065.cpp:514-518 | after a delivery the buffers of the run, read in order, start with exactly the frame, for both byte orders |
| RxRing.HostPartCanBeMet | src/a2065.cpp:597-615 | a concrete memory in which the preconditions on the host and the space check hold |
| TxRing.GiveBackDescriptors | src/a2065.cpp:735-753 | handing a transmit descriptor back clears OWN on it alone and lowers the number of owned descriptors, so the gather loop ends |
| TxRing.ChainIsSent | src/a2065.cpp:718-756 | a chain with an end is sent whole: its buffers joined in ring order, OWN cleared on exactly its descriptors, the position behind it |
| TxRing.SentExactlyIfItEnds | src/a2065.cpp:718-756 | the loop raises no ownership error if and only if the chip-owned descriptors reach an end of packet |
| TxMarks.SentMarks | src/a2065.cpp:718-756 | bit by bit: a packet comes back with OWN off its descriptors and nothing else changed, the position moves behind it, and the frame is what its buffers held |
| TxMarks.UnendedMarks | src/a2065.cpp:718-756 | a chain without an end comes back whole, and the descriptor that stopped it is marked with ERR, BUFF and UFLO if the chip can see it |
| TxMarks.SegmentBytes | src/a2065.cpp:738-751 | byte by byte what a buffer puts on the line: at most 4000 bytes from their places in memory, then zeros up to 60 if padding is asked for |
| TxRing.PaddingHarmlessExactlyWithoutShortBuffers | src/a2065.cpp:743-748 | automatic padding works per buffer: it leaves the frame alone exactly if no buffer of the chain is shorter than 60 bytes |
| TxRing.DeliveredThenSent | src/a2065.cpp:514-518 | a frame delivered over receive buffers and sent from the same buffers is the frame itself, for both byte orders |
| MacMunge.ExchangeTwice | src/a2065.cpp:165-179 | exchanging an address twice restores the field |
| MacMunge.LoopSumIsPaddedSum | src/a2065.cpp:230-233 | the summing loop over a zero-terminated datagram computes the RFC 1071 sum, for every length and parity |
| MacMunge.ComplementVerifies | src/a2065.cpp:240-246 | adding the complement of the folded sum makes every sum fold to all ones |
| MacMunge.SumFitsWord | src/a2065.cpp:228-239 | the 32-bit accumulator of the checksum never wraps |
| MacMunge.MungedVerifies | src/a2065.cpp:218-248 | after a DHCP address rewrite the datagram, pseudo-header included, folds to 0xFFFF |
| MacMunge.StoredChecksumIsZeroExactly | src/a2065.cpp:242-246 | the stored checksum is zero if and only if the sum folds to all ones; the substitution meant to prevent that never fires |
| MacMunge.RequestLosesItsChecksum | src/a2065.cpp:242-246 | a concrete DHCP request that leaves with checksum zero |
| MacMunge.MungeTwice | src/a2065.cpp:185-255 | translating twice restores the frame through the end of the datagram exactly unless a checksum is repaired, and then exactly if it was canonical and the one in between is not zero; only a repaired datagram has to fit its frame |
| MungedFields.MungedByte | src/a2065.cpp:185-255 | every byte of the translated frame by its place: destination and source always, sender and target of an ARP message, the client of a DHCP message exchanged for the other address, and no other byte changed but a repaired checksum and the byte after the datagram |
| MungedFields.VerifiesExactly | src/a2065.cpp:228-246 | a checksum verifies exactly if the bytes of the datagram, the two IPv4 addresses, the protocol and the length, weighed as words, add up to a multiple of 65535 |
| MacMunge.ExchangeInPlace | src/a2065.cpp:165-179 | exchanges the two addresses in six bytes of the packet and says whether one of them was there |
| MacMunge.RepairInPlace | src/a2065.cpp:225-248 | clears, sums, folds, complements and stores as the repair of the model does |
| MacMunge.MungeInPlace | src/a2065.cpp:185-255 | the branches of the program over a packet buffer compute that translation, and do nothing when switched off, on short frames and on equal addresses |
| PacketQueue.Queue.Push | src/a2065.cpp:640-662 | appends to the FIFO unless 255 packets are waiting; the slots of waiting packets stay untouched |
| PacketQueue.Queue.PeekSize | src/a2065.cpp:536-547 | the size of the head, or zero |
| PacketQueue.Queue.Pop | src/a2065.cpp:549-566 | takes the head of the FIFO across the end of the ring |
| PacketQueue.Queue.Clear | src/a2065.cpp:156-163 | empties the FIFO |
| ReceiveDrain.RunConserves | src/a2065.cpp:617-662 | under every interleaving of the two threads each accepted packet is, in order, settled or still queued, and at most 255 are queued |
| ReceiveDrain.OrderlyRunIsSound | src/a2065.cpp:617-638 | unless the queue is cleared inside a drain, the packet popped is the packet peeked: delivered only with room for it, dropped only if the whole ring could not hold it |
| ReceiveDrain.ClearInDrainMisjudges | src/a2065.cpp:617-638 | a concrete interleaving with a clear inside a drain that drops a packet which fits |
| ReceiveDrain.DrainIsBounded | src/a2065.cpp:621 | a drain settles at most 16 packets |
| Lance.Card.ChipInit | src/a2065.cpp:850-903 | mode, promiscuity, multicast, card address and both rings are those of the initialization block in board memory; whatever it holds, the rings come out well formed |
| Lance.RingFrom | src/a2065.cpp:888-891 | a ring length is two to the power of the top three bits and its base the 24-bit address rounded down to eight |
| Lance.Card.ChipWrite | src/a2065.cpp:937-1036 | a register write is one step of the register state machine with the mode word in memory, keeps its invariant, and reads the initialization block exactly when it initializes |
| Lance.Card.PutRamWord | src/a2065.cpp:321-331 | a word write goes to two bytes of board memory, and nowhere without the address line that selects it |
| Lance.Card.ReceiveSpaceAvailable | src/a2065.cpp:597-615 | true exactly if the chip-owned buffers from the ring position on hold the packet with padding and frame check sequence |
| Lance.Card.ReceivePacketCanFit | src/a2065.cpp:580-595 | true exactly if the whole ring, whoever owns it, could hold the packet |
| Lance.Card.Deliver | src/a2065.cpp:480-534 | the delivery loop over board memory computes the delivery of the ring model |
| Lance.Card.GotFrame | src/a2065.cpp:351-534 | filters, translates, appends the frame check sequence, delivers, and records the outcome in CSR0 |
| Lance.Card.GotCheckedFrame | src/a2065.cpp:597-637 | a frame taken after the space check is never missed and never cut short |
| Lance.Card.DrainTurn | src/a2065.cpp:621-637 | the head of the queue waits, is dropped or is delivered, each exactly under its condition |
| Lance.Card.Drain | src/a2065.cpp:617-638 | takes at most 16 packets off the front of the queue and never raises MISS |
| Lance.Card.GatherChain | src/a2065.cpp:718-756 | the gather loop over board memory computes the transmission of the ring model |
| Lance.Card.GatherSegment | src/a2065.cpp:735-748 | one buffer, at most 4000 bytes and padded to 60 on request, is appended to the transmit buffer |
| Lance.Card.DoTransmit | src/a2065.cpp:684-799 | sends, marks or skips the current chain; states the new memory, ring position, transmit buffer, frame length and CSR0 for every outcome |
| Lance.Card.CheckTransmit | src/a2065.cpp:801-818 | drops a pending demand without TXON and waits while a frame is unsent, leaving memory, ring and length alone; else transmits with the same full outcome, one step of the register state machine |
| CardMarks.AttemptEnds | src/a2065.cpp:702-798 | an attempt is idle without OWN and STP, an ownership error on a chain without an end, an underflow on a packet below 60 bytes, and sent otherwise |
| CardMarks.LineCut | src/a2065.cpp:769-770 | four bytes stay off the line exactly with DTCR in the mode word and no ADD_FCS on the descriptor |
| CardMarks.ShortMarks | src/a2065.cpp:757-765 | a short packet gets ERR, BUFF and UFLO on its last descriptor and no other change |
| CardMarks.SpaceExactly | src/a2065.cpp:568-615 | when a packet has space now, and when the ring could ever hold it, by its length, the frame check sequence and the capacity of the buffers |
| CardMarks.TakenExactly | src/a2065.cpp:371-475 | a frame is taken with the receiver on, from 20 bytes, past the filter and up to 4000 bytes with its frame check sequence, which goes behind it in the order computed |
| CardMarks.FilterCases | src/a2065.cpp:376-411 | which frames pass, for every kind of destination: broadcast, group, own and other, and that the station never hears itself |
| CardMarks.BlockIsRead | src/a2065.cpp:875-900 | the initialization block lies at the address in registers 1 and 2; its words come high byte first, the station address in it low byte first |
| CropRects.ClampFits | libretro/libretro_crop_helpers.h:117-129 | clamping gives a rectangle on the surface, keeps exactly those already on it, and is idempotent |
| CropRects.FindVisibleContentBounds | libretro/libretro_crop_helpers.h:131-159 | finds the bounding box of the visible pixels exactly if there is one |
| CropRects.BoundsAreUnique | libretro/libretro_crop_helpers.h:131-159 | that bounding box is unique |
| CropRects.ExpandToVisibleContent | libretro/libretro_crop_helpers.h:161-200 | grows the crop to the hull of itself and the visible pixels exactly if at least max(1, n) of them lie outside |
| CropRects.HullIsLeast | libretro/libretro_crop_helpers.h:161-200 | the hull is the least rectangle that covers the crop and contains the visible pixels |
| CropRects.FitAxisBest | libretro/libretro_crop_helpers.h:219-237 | one axis of the fit: on the surface, showing all the content where it fits, and moved no farther than any other position that shows it |
| CropRects.FitShowsContent | libretro/libretro_crop_helpers.h:202-244 | the fitted crop keeps the clamped size, lies on the surface and shows as much of the content as its size allows |
| CropRects.FitSeesSurface | libretro/libretro_crop_helpers.h:202-239 | the fit sees the content as far as it lies on the surface, and leaves the crop alone if there is nothing to fit |
| AutoCrop.TrimSideKeeps | libretro/libretro.cpp:2906-2927 | trimming one side removes only black lines, within the line limit and the least extent |
| AutoCrop.TrimSideIsMaximal | libretro/libretro.cpp:2906-2927 | trimming one side stops only at a lit line, the least extent or the line limit |
| AutoCrop.LineIsBlack | libretro/libretro.cpp:2846-2863 | true exactly if every pixel on that side of the rectangle is black |
| AutoCrop.FindContent | libretro/libretro.cpp:2865-2876 | true exactly if some pixel of the rectangle is lit |
| AutoCrop.TrimmedKeeps | libretro/libretro.cpp:2878-2949 | trimming loses no lit pixel; a trim is at least 8 and at most a quarter wide, never below 320, vertical only with a horizontal one |
| CropStops.TrimAllStops | libretro/libretro.cpp:2894-2927 | all four sides of the trim by pixels: each stands still at a lit line of the final crop, at an eighth of the extent or at the least extent |
| CropStops.StopIsUnique | libretro/libretro.cpp:2894-2927 | there is exactly one such rectangle |
| CropStops.TrimmedExactly | libretro/libretro.cpp:2878-2949 | the trim happens exactly on a surface with colours, from a black first pixel and with content; the columns are taken exactly if they are at least eight, and then the rows likewise |
| AutoCrop.TrimBlackCropEdges | libretro/libretro.cpp:2878-2949 | the four loops, the thresholds and the early returns compute that trim |
| AutoCrop.ExpandToMinimumFrame | libretro/libretro.cpp:2726-2763 | the crop keeps its place, grows around itself to 480 by 360 where the surface allows it, and stays on the surface |
| AutoCrop.ExpandCrop | libretro/libretro.cpp:2685-2706 | the crop ends up with every lit pixel of the surface exactly if it had them all, or the top left pixel is black and at least 16 lie outside |
| AutoCrop.LitCornerBlocksExpansion | libretro/libretro.cpp:2694-2696 | with a lit top left pixel any number of lit pixels stays outside |
| AutoCrop.AutomaticCrop | libretro/libretro.cpp:3106-3108 | the whole pipeline maps a crop on the surface to one on the surface that keeps its lit pixels, and under the condition above shows all of the surface |
| CropStabiliser.ChangeNeedsSteadyRequests | libretro/libretro.cpp:2517-2564 | while it fits the surface the shown crop changes only to one asked for in each of the last 6 frames if it takes in the current one, and 18 otherwise |
| CropStabiliser.AdoptedExactly | libretro/libretro.cpp:2536-2561 | a steady request is adopted at exactly the frame that completes its streak |
| CropStabiliser.NewRequestIsShown | libretro/libretro.cpp:2536-2561 | a new request is shown with its sixth frame in a row if it takes in all of the shown crop and with its eighteenth otherwise, and nothing changes before |
| CropStabiliser.SteadyRequestIsGranted | libretro/libretro.cpp:2517-2564 | from any reachable state, whatever the surface does, 18 equal requests in a row are granted |
| CropStabiliser.ShownFits | libretro/libretro.cpp:2517-2564 | a crop that is shown fits the surface of its frame if the one asked for does |
| CropStabiliser.Stabiliser.Reset | libretro/libretro.cpp:2508-2515 | forgets the shown and the pending crop |
| CropStabiliser.Stabiliser.Stabilize | libretro/libretro.cpp:2517-2564 | the branches over the static variables compute that state machine |
| AudioPacing.FractionStaysProper | libretro/libretro.cpp:3449-3474 | the carried fraction stays in [0, 1), nothing is rounded away, and the negative branch is never taken |
| AudioPacing.BoostIsAsked | libretro/libretro.cpp:3457-3465 | the boost is 15 to 50 percent of a frame, falling evenly with the occupancy up to one half, at most what lies above one frame, and nothing unless asked for |
| AudioPacing.FrameIsPaced | libretro/libretro.cpp:3449-3503 | one video frame in whole: what is sent, kept and carried over, from the queue, the rate and what the report asks for |
| AudioPacing.RunConserves | libretro/libretro.cpp:3405-3503 | whatever the frontend takes, what was sent followed by the queue is what was produced, in order |
| AudioPacing.DepthIsBounded | libretro/libretro.cpp:3449-3474 | if every frame produces at most F + D samples and all that is sent is taken, the depth at a drain never exceeds 1.5 F + 20 (D + 1) |
| AudioPacing.ExcessDecays | libretro/libretro.cpp:3449-3474 | from any queue the excess over its band shrinks by five percent a frame |
| AudioPacing.ShortageDecays | libretro/libretro.cpp:3449-3474 | so does a shortage while no boost is asked for |
| AudioPacing.GapHalves | libretro/libretro.cpp:3455-3456 | fourteen frames halve either deviation |
| AudioPacing.AudioQueue.Enqueue | libretro/libretro.cpp:3405-3411 | appends the samples |
| AudioPacing.AudioQueue.SendBatches | libretro/libretro.cpp:3479-3494 | batches of 2048 send everything, or stop at the first one the frontend cuts short |
| AudioPacing.AudioQueue.DrainFrame | libretro/libretro.cpp:3437-3503 | exactly the frames that the pacing wants and the sink takes leave the front of the queue; without a callback the queue is dropped, without a rate kept |
| AudioPacing.AudioQueue.VideoFrame | libretro/libretro.cpp:3405-3503 | enqueue and drain are one step of the run that the bounds are about |
| InputOwner.GuestSeesFreePresses | libretro/libretro.cpp:3995-4030 | over every sequence of polls the guest has a button down if and only if it is down and was pressed with the keyboard off the screen |
| InputOwner.PollFirstIsLocal | libretro/libretro.cpp:4221-4269 | within a poll the keyboard may be hidden, by the east button or by a key, but never leaves the screen, and a button leaves the others alone |
| InputOwner.ToggleIsConsumed | libretro/libretro.cpp:4234-4246 | the toggle button never reaches the guest |
| InputOwner.TogglesOncePerPress | libretro/libretro.cpp:4234-4246 | the keyboard is toggled once per press, however long the button is held |
| InputOwner.EntryActs | libretro/libretro.cpp:4221-4269 | which entry toggles and which hides the keyboard: the east button of either port hides a visible one by a press it takes, any other by what its key does, and the toggle does nothing else |
| InputOwner.PortsApart | libretro/libretro.cpp:4199-4269 | fourteen buttons to a port, and those of a port that is not connected rest |
| InputOwner.GuestSeesFreeMoves | libretro/libretro.cpp:4032-4071 | the guest sees an axis deflected if and only if the movement began off the keyboard and the keyboard is not closing |
| InputOwner.Router.RouteButton | libretro/libretro.cpp:3995-4030 | routes one edge or level by its owner and touches no other button; only a button handed to the visible keyboard can hide it |
| InputOwner.Router.PollButton | libretro/libretro.cpp:4221-4269 | the button loop body over the owner tables computes that state machine |
| InputOwner.Router.PollInput | libretro/libretro.cpp:4199-4269 | both ports, all fourteen entries, in order |

## Left out

- Floating-point signal processing of the MP3 decoder (dequantisation, IMDCT, synthesis, stereo) and the literal Huffman and scale factor band tables: no exact specification over the reals.
- Huffman decoding beyond a table walk: which codes the tables hold, and that they stay within the cached bits, is a precondition.
- Scale factor selection bits and band tables of the side information: they are read and steer sample decoding only.
- Layer I and II sample decoding: its effect on framing is one input that says whether it overran.
- Sample values that depend on the decoder's overlap and filter memory: the samples of a frame are opaque, so the values of the first frames after a jump may differ from continuous decoding even where the right frames are delivered.
- Sample rate or channel changes inside a stream, and the fractional frame count they cause; a change of layer or version inside a Layer III stream, which resynchronizes and loses the frame before it (`SeekTable.LongFirstBlockMisleads` is about the frames that remain).
- Frames with bad side information in the pull reader: the frame decoder models them, the streams of `FramedStream` have none.
- ID3, APE, Xing and LAME tags; the stream starts at byte 0, which is also where the seek fallback of `drmp3_seek_to_pcm_frame__seek_table` goes.
- The memory variant of the frame reader, allocation callbacks, files and error codes; an allocation may fail, a read delivers all that is there, and a stream seek does not fail.
- 32-bit overflow of int counters in dr_mp3, the crop code and the packet lengths; buffer sizes keep them small. Where wrap-around matters (bit caches, checksum, seek discards, 64-bit seek positions) it is modelled.
- `a2065.cpp` on the Am79C960: registers from CSR4 on, its interrupt mask and demand polling. ASTRP_RCV and APAD_XMT are plain flags; the ring models cover both bus variants.
- The host Ethernet driver, autoconfig, card savestates, logging, the multicast hash (the source admits every group when it is set at all) and `getfunc`, which only copies the transmit buffer out.
- The reopening of the host adapter and the receive queue clear of `chip_init2`: the host's address is kept, and the clear is an event of `ReceiveDrain`.
- `PcmReader.Mp3.SeekByTable`: a bound table is taken to have increasing points that lie at frames. For a point whose discard exceeds it, nothing about success and the remaining samples when there is a delay, no known end, and enough stream for the counter to pass zero again. After a failed landing nothing is promised about the cache, which then holds an older frame.
- The return value of `mungepacket`, which only controls logging.
- Guest-made overlaps of descriptors and buffers, over-long transmit chains and datagrams whose length field points past the packet buffer: preconditions.
- `ReceiveDrain.OrderlyRunIsSound`: the card's side of the two checks enters as one observation per turn; `Lance.Card.DrainTurn` ties it to memory for a host that does not write in between.
- Pixel addressing (pitch, bytes per pixel), crop aspect ratios, renderer, manual and fixed crop selection, and the per-frame crop cache.
- Double rounding in the audio pacing: rates and fractions are reals, and the rate is fixed during a run.
- Audio traces and the starvation guard that pads a short frame: they do not touch the queue.
- Joystick-as-mouse, keyboard navigation and the animation clock of the on-screen keyboard: between polls the keyboard may change in any way.
- libretro environment calls, options, VFS, disk control, keyboard mapping, MIDI and the savestate protocol.
