# ZeroRadio toolkit: verified model

This project models the parts of the radio toolkit where a mistake would be hard to spot,
and proves what each of them keeps over every input, every run and every
interleaving. `dafny verify dfyconfig.toml` checks all of it.

- **AIS receive pipeline** (`AisDecoder`, `AisReassembler`, `AisCodec`, `AisLaws`,
  `AisFields`, `NmeaNetSource`, `VesselStore`, `AisPipeline`): bytes from the network become lines,
  sentences, fragments, messages and table entries. Numbers are the raw integers of the messages. A reference encoder, which
  the repository does not have, gives the round trips. The message layouts are those of
  sections 3.1 and 3.3 of Annex 8 of ITU-R M.1371-5, as the decoder reads them.
- **Shared memories** (`MemoriesStore`, `MemoriesLaws`, `MemoriesSteps`, `MemoriesProgress`,
  `MemoriesFile`): several processes lock, load, change, write and rename one file. Every
  system call is a step; a process may be killed between any two steps and the power may fail
  at any point.
- **Map builder and renderer** (`Reals`, `Geometry`, `EvenOdd`, `ClipPolyline`, `ClipPolygon`,
  `Simplify`, `Rmap`, `RmapFormat`, `Ints`, `Canvas`, `Line`, `Ring`, `Triangle`, `Fill`,
  `Renderer`, `BaseMapCache`): clipping and simplification over the reals, the map file from writer to
  loader, and the pixel kernels over integers, up to the pixels of a whole base map and of
  its cache.
- **Memories list** (`MemoriesRows`, `MemoriesScan`, `MemoriesShown`, `MemoriesDelete`,
  `MemoriesViewModel`): grouped and sorted rows, the cursor, scan marks that follow identities
  across reloads, the scan list, and the two-press delete.
- **Key routing** (`KeyRouting`, `KeyPresses`): dispatched presses, taps, holds, the ESC hold
  and auto-repeat, as sessions sampled by timers that run whenever they happen to.
- `Options` and `Sequences` hold what several of these use.

Code that works step by step is modelled by methods and classes, each proved against a
function; the results below are about those functions, over whole runs. `AisLaws`, `AisFields`,
`MemoriesLaws`, `RmapFormat`, `MemoriesShown` and `KeyPresses` say what those functions are in
plain terms: the numbers of the formats, places in lists, raw key reports.

## What the proofs found

- Cutting the stream differently delivers the same text for every cut exactly when every
  newline-terminated line fits in 64 KiB (`NmeaNetSource.ChunkInvariance`); a longer line is
  lost by some cut (`NmeaNetSource.LongLineLost`) and delivered by another
  (`NmeaNetSource.HandedAtOnce`).
- A reload of the Memories list can take the number of scan marks past the limit of 64 exactly
  when the loaded file holds more than 64 memories and one identity twice
  (`MemoriesRows.ReloadKeepsLimitIff`, which builds the marks that pass it). The toggle compares
  with the limit by equality, so past it the toggle marks without limit; the scan itself is
  still cut at 64 (`MemoriesScan.Prepare`).
- The loader drops empty tags, so an update is what is saved and loaded again, not only what
  was asked for (`MemoriesStore.DocumentBack`).
- The renamed file is flushed, its directory is not: a power cut may take back updates that
  were already answered, any number of the last ones (`MemoriesSteps.PowerCutMayKeep`), but
  always leaves the first so many of them (`MemoriesSteps.PowerCutKeepsPrefix`).
- The fill also colours every pixel whose centre lies exactly on a crossing
  (`Fill.SpansAreOdd`); away from crossings it is the even-odd rule (`Fill.FilledIsOdd`).
- `move_selection` has a branch for a list with rows and no cursor. It cannot run: rows that are
  not empty hold an entry, and then the cursor is on one.

## Model

| member | source | states |
|---|---|---|
| `AisDecoder.BitReader.constructor` | apps/ais/src/decoder/ais_decoder.cpp:27-43 | the reader is valid exactly when every character is an armour character, and then holds six bits of each, most significant first |
| `AisDecoder.BitReader.PushSix` | apps/ais/src/decoder/ais_decoder.cpp:39-41 | appends the six bits of a value |
| `AisDecoder.BitReader.Ubits` | apps/ais/src/decoder/ais_decoder.cpp:48-54 | the unsigned value of a bit range that lies inside the message |
| `AisDecoder.BitReader.Sbits` | apps/ais/src/decoder/ais_decoder.cpp:56-62 | the two's complement value of a bit range |
| `AisDecoder.BitReader.Text` | apps/ais/src/decoder/ais_decoder.cpp:65-76 | the six-bit text of a range, trailing @ and spaces trimmed |
| `AisDecoder.DecodePositionBits` | apps/ais/src/decoder/ais_decoder.cpp:123-144 | the raw fields of a position report, each absent when it holds its not-available value; every bit read is inside the payload |
| `AisDecoder.DecodeStaticBits` | apps/ais/src/decoder/ais_decoder.cpp:146-152 | the raw fields of a static report; every bit read is inside the payload |
| `AisDecoder.Decode` | apps/ais/src/decoder/ais_decoder.cpp:156-186 | the vessel of a payload, or nothing for a bad character, a wrong length or another type |
| `AisLaws.DecodedIff` | apps/ais/src/decoder/ais_decoder.cpp:156-186 | over every payload and fill: a message is decoded exactly when every character is an armour character, there are 38 bits or more, and the first six bits spell 1, 2 or 3 with exactly 168 bits or 5 with at least 424 |
| `AisFields.PayloadSpells` | apps/ais/src/decoder/ais_decoder.cpp:27-43 | bits 6 i to 6 i + 5 of a payload are those of its character i, most significant first |
| `AisFields.PositionStands` | apps/ais/src/decoder/ais_decoder.cpp:123-144 | every 168 bits: the numbers of a position report stand at bits 0, 8, 38, 50, 61, 89, 116 and 128, most significant first, the two coordinates in the complement of two, each absent where it is its not-available number |
| `AisFields.StaticStands` | apps/ais/src/decoder/ais_decoder.cpp:146-152 | every 424 bits or more: the numbers of a static report stand at bits 8 and 232, its texts at 70, 112 and 302, six bits a character, less what trails |
| `AisLaws.ReportIs` | apps/ais/src/decoder/ais_decoder.cpp:123-152 | what a decoded message reports, field by field, absent where it holds its not-available number |
| `AisLaws.TrimIs` | apps/ais/src/decoder/ais_decoder.cpp:65-76 | trimming removes exactly the trailing @ and spaces |
| `AisDecoder.CheckSum` | apps/ais/src/decoder/ais_decoder.cpp:98-121 | accepts exactly the sentences whose XOR between ! and * is the two hex digits after * |
| `AisLaws.ChecksumIff` | apps/ais/src/decoder/ais_decoder.cpp:98-121 | the checksum is right exactly for !, a text without *, * and two hex digits of either case whose value is the XOR of the text |
| `AisLaws.CorruptedRefused` | apps/ais/src/decoder/ais_decoder.cpp:98-121 | a sentence with a right checksum is refused once any one summed character is changed to a byte other than the star |
| `AisDecoder.SplitFields` | apps/ais/src/decoder/ais_decoder.cpp:83-96 | the fields between separators |
| `AisLaws.SplitIs` | apps/ais/src/decoder/ais_decoder.cpp:83-96 | the fields hold no separator, and joined by it they are the text |
| `AisDecoder.Parse` | apps/ais/src/decoder/ais_decoder.cpp:190-221 | the fragment a sentence carries, or nothing for a bad envelope |
| `AisDecoder.ParseEnvelope` | apps/ais/src/decoder/ais_decoder.cpp:207-220 | an accepted fragment has 1 <= number <= count <= 9 and at most five fill bits |
| `AisLaws.EnvelopeIff` | apps/ais/src/decoder/ais_decoder.cpp:190-221 | a sentence carries a fragment exactly when its checksum is right and its fields are those of the fragment, with the numbers of the format |
| `AisReassembler.AivdmReassembler.Feed` | apps/ais/src/decoder/ais_decoder.cpp:242-281 | new table and answer of one sentence, with opening, continuing, completing, dropping and the flood clear |
| `AisReassembler.TableIsPerKey` | apps/ais/src/decoder/ais_decoder.cpp:253-280 | after any run the entry of a key is what that key's own fragments since the last flood clear make of it, whatever is interleaved |
| `AisReassembler.TableBounded` | apps/ais/src/decoder/ais_decoder.cpp:255-272 | after any run at most 32 partial messages are open and each waits for a fragment 2 <= next <= total |
| `AisLaws.FloodIff` | apps/ais/src/decoder/ais_decoder.cpp:255-262 | the table is cleared exactly when the first fragment of a new key finds 32 other partial messages open |
| `AisLaws.FewKeysNeverFlood` | apps/ais/src/decoder/ais_decoder.cpp:255-262 | a run that has heard at most 32 keys has never cleared the table |
| `AisReassembler.KeyStateIs` | apps/ais/src/decoder/ais_decoder.cpp:264-279 | a key holds a partial message exactly when its last fragments are 1..m of n with m < n, with exactly their payloads |
| `AisReassembler.ReassembledExactly` | apps/ais/src/decoder/ais_decoder.cpp:264-279 | sound and complete: a fragment completes a message if and only if its key's last fragments since the last flood clear are 1..n of n, and on exactly their concatenated payloads |
| `AisReassembler.CompleteWithoutFlood` | apps/ais/src/decoder/ais_decoder.cpp:255-279 | a message that starts after the last flood clear always completes, whatever other keys came before or between |
| `AisReassembler.OtherKeysDoNotMatter` | apps/ais/src/decoder/ais_decoder.cpp:253-280 | without a flood clear a fragment completes what it would complete had the other keys never been heard |
| `AisReassembler.TableOfSentences` | apps/ais/src/decoder/ais_decoder.cpp:242-281 | feeding sentences builds the table of their multi-fragment envelopes; bad and single-fragment sentences leave it alone |
| `AisReassembler.FeedAnswers` | apps/ais/src/decoder/ais_decoder.cpp:242-281 | the vessel a sentence gives after any run: its own message, or the message its fragment completes |
| `AisCodec.ReadBack` | apps/ais/src/decoder/ais_decoder.cpp:48-54 | a number written at any place reads back |
| `AisCodec.ReadSignedBack` | apps/ais/src/decoder/ais_decoder.cpp:56-62 | a signed number that fits its field reads back, negative ones included |
| `AisCodec.TextSurvives` | apps/ais/src/decoder/ais_decoder.cpp:65-76 | six-bit text survives padding and trimming if and only if it does not end in @ or a space |
| `AisCodec.DearmourBack` | apps/ais/src/decoder/ais_decoder.cpp:27-43 | armoured bits read back |
| `AisCodec.PositionBack` | apps/ais/src/decoder/ais_decoder.cpp:123-144 | every position report reads back field by field from its bits |
| `AisCodec.StaticBack` | apps/ais/src/decoder/ais_decoder.cpp:146-152 | every static report reads back field by field from its bits |
| `AisCodec.PayloadBack` | apps/ais/src/decoder/ais_decoder.cpp:156-186 | an armoured message with its fill bits decodes to the fields that were encoded |
| `AisCodec.SplitJoin` | apps/ais/src/decoder/ais_decoder.cpp:83-96 | splitting joined fields gives them back |
| `AisCodec.EnvelopeBack` | apps/ais/src/decoder/ais_decoder.cpp:190-221 | a built sentence with its checksum parses back to the fragment it carries |
| `AisCodec.EveryMessageSends` | apps/ais/src/decoder/ais_decoder.cpp:242-281 | every encodable message has transmissions, whole and cut in two anywhere |
| `AisCodec.TransmissionBack` | apps/ais/src/decoder/ais_decoder.cpp:242-281 | round trip: a message cut into 1 to 9 fragments at any points, fed in order into any table, reports nothing until the last line and then exactly its fields |
| `AisCodec.InterleavedBack` | apps/ais/src/decoder/ais_decoder.cpp:242-281 | the same through any interleaving with other messages and garbage, if no flood clear falls inside the transmission |
| `NmeaNetSource.NmeaNetSource.constructor` | toolkit/src/net/nmea_net_source.cpp:68-78 | an empty buffer and nothing handed over |
| `NmeaNetSource.NmeaNetSource.Ingest` | toolkit/src/net/nmea_net_source.cpp:68-78 | hands over everything up to the last newline, keeps the rest, drops it past the cap; the buffer never exceeds the cap after a call |
| `NmeaNetSource.ChunkInvariance` | toolkit/src/net/nmea_net_source.cpp:68-78 | every way of cutting the stream hands over the same text, all its whole lines, if and only if every newline-terminated line fits the cap |
| `NmeaNetSource.LongLineLost` | toolkit/src/net/nmea_net_source.cpp:75-77 | a stream with a line past the cap has a cut that loses text |
| `NmeaNetSource.HandedAtOnce` | toolkit/src/net/nmea_net_source.cpp:68-78 | in one piece every stream hands over all its whole lines, however long |
| `NmeaNetSource.BufferBounded` | toolkit/src/net/nmea_net_source.cpp:75-77 | after any calls the buffer is within its cap |
| `NmeaNetSource.HandedEndInNewline` | toolkit/src/net/nmea_net_source.cpp:70-74 | every text handed over ends in a newline |
| `VesselStore.LinesConcat` | apps/ais/src/model/vessel_store.cpp:58-65 | texts that end in a newline can be split into lines apart or joined |
| `VesselStore.OneLine` | apps/ais/src/model/vessel_store.cpp:46-66 | a text without CR and LF is one line, or none when it is empty |
| `VesselStore.LinesAtEnd` | apps/ais/src/model/vessel_store.cpp:58-61 | a CR or LF ends a line wherever it stands: the lines are those before it and those after it |
| `VesselStore.SentencesInvariant` | apps/ais/src/model/vessel_store.cpp:46-66 | however a stream whose lines fit is cut, the sentences fed are the lines of its whole-line part |
| `VesselStore.TableIsLatest` | apps/ais/src/model/vessel_store.cpp:22-44 | after any messages every field of a vessel holds the latest value any of them carried; a vessel is listed exactly when it was heard |
| `VesselStore.EntityStore.constructor` | apps/ais/src/model/vessel_store.cpp:22-44 | an empty table |
| `VesselStore.EntityStore.ApplyToStore` | apps/ais/src/model/vessel_store.cpp:22-44 | the sparse merge of one message into its vessel |
| `VesselStore.Flush` | apps/ais/src/model/vessel_store.cpp:48-57 | feeds the collected line, if any, and applies the vessel it gives |
| `VesselStore.ApplyNmea` | apps/ais/src/model/vessel_store.cpp:46-66 | feeds the lines of the text in order, split at CR and LF |
| `VesselStore.PipelineInvariant` | apps/ais/src/model/vessel_store.cpp:46-66 | chunk invariance of the whole pipeline: any cut of a stream whose lines fit leaves the same reassembler and the same vessels |
| `AisPipeline.Listen` | apps/ais/src/model/vessel_store.cpp:46-66 | the chunks of a stream through the network source, the reassembler and the table, as the callback runs them |
| `AisPipeline.WireLines` | apps/ais/src/model/vessel_store.cpp:58-65 | the lines of a transmission on the wire are its sentences |
| `AisPipeline.MessageArrives` | apps/ais/src/model/vessel_store.cpp:22-66 | end to end: a message, sent in any way, one sentence to a line, and cut into chunks anywhere, leaves any table heard before with exactly that message merged in |
| `AisPipeline.ReportShows` | apps/ais/src/model/vessel_store.cpp:22-44 | the table after a message: each field it carries is shown, each it does not is as before, and no other vessel changes |
| `MemoriesStore.DocumentBack` | toolkit/src/app/memories_store.cpp:30-67 | loading a written document gives the valid memories back, with empty tags dropped |
| `MemoriesStore.ParsedAreValid` | toolkit/src/app/memories_store.cpp:30-55 | whatever the document, a loaded memory has a name and a positive frequency |
| `MemoriesLaws.EntryIs` | toolkit/src/app/memories_store.cpp:30-55 | an entry is loaded exactly when it has a name and a positive whole frequency; its other fields are empty where missing or of another type |
| `MemoriesLaws.TagsAre` | toolkit/src/app/memories_store.cpp:43-48 | the tags are the non-empty strings of the list, each once, in order |
| `MemoriesLaws.LoadedAre` | toolkit/src/app/memories_store.cpp:99-123 | a document loads as its entries that are memories, each once, in order; as nothing when it is no object or has no list |
| `MemoriesLaws.DocumentIs` | toolkit/src/app/memories_store.cpp:57-136 | the written document: version 1 and one entry for every memory in order, with all its tags, and a note only if there is one |
| `MemoriesStore.AddTo` | toolkit/src/app/memories_store.cpp:167-176 | the new list, or the refusal of an invalid or duplicate memory |
| `MemoriesStore.ModifyIn` | toolkit/src/app/memories_store.cpp:236-252 | the list with its first such memory changed, or not found, invalid or duplicate |
| `MemoriesStore.RemoveFrom` | toolkit/src/app/memories_store.cpp:259-271 | the list without every memory of the identity, or not found |
| `MemoriesLaws.AddIs` | toolkit/src/app/memories_store.cpp:167-176 | an add puts the memory last, exactly when it is valid and no memory has its identity |
| `MemoriesLaws.ModifyIs` | toolkit/src/app/memories_store.cpp:236-252 | a change happens in the place of the first memory of the identity, exactly when the result is valid and no other memory has its identity |
| `MemoriesLaws.WithoutIs` | toolkit/src/app/memories_store.cpp:259-271 | what a removal leaves: every memory of another identity, once, in order |
| `MemoriesLaws.RemoveIs` | toolkit/src/app/memories_store.cpp:259-271 | a removal is refused exactly when no memory has the identity |
| `MemoriesStore.ApplyKeeps` | toolkit/src/app/memories_store.cpp:167-271 | every update keeps every memory valid and every identity unique |
| `MemoriesStore.ApplyEffect` | toolkit/src/app/memories_store.cpp:167-271 | an added memory is in the list, a removed identity is not, and every other memory stays |
| `MemoriesFile.Disk.constructor` | toolkit/src/app/memories_store.cpp:126-127 | a directory with the given file and no temporary files |
| `MemoriesFile.Disk.SaveMemories` | toolkit/src/app/memories_store.cpp:126-165 | it succeeds if and only if opening, flushing, closing and renaming do and some number of first writes are all positive and sum to the text or more; then the main file is the whole flushed text, else it is untouched; the temporary file is gone either way |
| `MemoriesFile.Disk.Update` | toolkit/src/app/memories_store.cpp:167-271 | one locked update: saved exactly when its list accepts it and every call goes well, and then the file is the updated list; refused as its list refuses it; else not written and unchanged |
| `MemoriesSteps.InvNext` | toolkit/src/app/memories_store.cpp:76-271 | every step of every process, every kill and every power cut keeps the invariant |
| `MemoriesSteps.RunInv` | toolkit/src/app/memories_store.cpp:76-271 | so it holds in every state of every run |
| `MemoriesSteps.FileIsReplay` | toolkit/src/app/memories_store.cpp:126-165 | no lost update, no torn file: in every state the main file is whole and loads as the committed updates applied one after the other in commit order, and so does every version a reader may have open |
| `MemoriesSteps.IdentitiesStayDistinct` | toolkit/src/app/memories_store.cpp:172-174 | identities distinct at the start are distinct in every list a reader can see |
| `MemoriesSteps.OneWriterAtATime` | toolkit/src/app/memories_store.cpp:73-92 | no two processes are inside an update, and no update is committed twice |
| `MemoriesSteps.AnswersAreTrue` | toolkit/src/app/memories_store.cpp:167-271 | saved means committed, refused means the list at that point of the commit order refuses it, failed means never committed |
| `MemoriesSteps.CommitsLast` | toolkit/src/app/memories_store.cpp:159-164 | without a power cut a committed update stays committed and an open version never changes |
| `MemoriesSteps.PowerCutKeepsPrefix` | toolkit/src/app/memories_store.cpp:138-141 | a power cut keeps a prefix of the committed updates and whole versions |
| `MemoriesSteps.PowerCutMayKeep` | toolkit/src/app/memories_store.cpp:138-164 | at any moment of any run a power cut may leave any prefix of the committed updates, answered or not, and then the file loads as exactly that prefix |
| `MemoriesProgress.FailureHasCause` | toolkit/src/app/memories_store.cpp:138-164 | an update that answers that it could not write had a system call of its own that failed |
| `MemoriesProgress.EveryStepIsCloser` | toolkit/src/app/memories_store.cpp:76-271 | every step of an update brings it closer to its end |
| `MemoriesProgress.SomeoneCanMove` | toolkit/src/app/memories_store.cpp:73-92 | no deadlock: in every state of every run with an update under way, some update can take a step, and it brings that update closer to its end |
| `MemoriesProgress.UndisturbedIsSaved` | toolkit/src/app/memories_store.cpp:126-271 | from any state with a free lock, an update that its list accepts and whose calls go well is saved: it is in the log and the file loads as its result |
| `Geometry.ClipSegment` | toolkit/src/geo/geo.cpp:135-164 | fails exactly when no point of the segment lies in the box, and otherwise returns the two ends of precisely the part inside |
| `ClipPolyline.ClipPolyline` | tools/mapdata/build_mapdata.py:193-217 | the runs draw exactly the visible parts of the edges in order, each run has two points or more and goes on for as long as the parts join up, and a polyline inside the box comes back as one unchanged run |
| `ClipPolyline.PartsCover` | tools/mapdata/build_mapdata.py:168-190 | the visible parts cover exactly the points of the polyline that lie in the box |
| `ClipPolyline.RunsCover` | tools/mapdata/build_mapdata.py:208-214 | the runs cover exactly what the parts cover |
| `ClipPolyline.ClipCovers` | tools/mapdata/build_mapdata.py:168-190 | a point lies on the clipped segment exactly when it lies on the segment and in the box |
| `ClipPolygon.ClipEdge` | tools/mapdata/build_mapdata.py:132-147 | one pass of the clip, as a walk along the ring |
| `ClipPolygon.MeetOnEdge` | tools/mapdata/build_mapdata.py:149-157 | the point where an edge crosses the border lies on both |
| `ClipPolygon.WalkFrom` | tools/mapdata/build_mapdata.py:138-146 | every vertex a pass puts out is a vertex of its input or lies on an edge of it, and is inside |
| `ClipPolygon.WalkSize` | tools/mapdata/build_mapdata.py:138-146 | a pass puts out one vertex for every vertex inside and one for every edge that changes sides, nothing twice |
| `ClipPolygon.WalkKeeps` | tools/mapdata/build_mapdata.py:138-146 | a pass keeps every half-plane its input already lies in |
| `ClipPolygon.ClipPolygon` | tools/mapdata/build_mapdata.py:127-164 | every vertex of the result lies in the box, and a ring already inside comes back unchanged |
| `ClipPolygon.PassEncloses` | tools/mapdata/build_mapdata.py:132-147 | a point strictly inside the half-plane is enclosed by the clipped ring exactly when the ring encloses it |
| `ClipPolygon.ClipKeepsInterior` | tools/mapdata/build_mapdata.py:127-164 | the four passes do not change which points strictly inside the box the ring encloses |
| `ClipPolygon.ClipEnclosesInBox` | tools/mapdata/build_mapdata.py:127-164 | the clipped ring encloses nothing outside the box |
| `EvenOdd.PathEnds` | tools/mapdata/build_mapdata.py:127-164 | a path crosses a scanline an odd number of times exactly when its ends lie on different sides, so crossings may be counted on either side of a point |
| `Simplify.PerpDistIsLeast` | tools/mapdata/build_mapdata.py:221-228 | the distance used is at most the distance to any point of the segment |
| `Simplify.PerpDistAttained` | tools/mapdata/build_mapdata.py:221-228 | and some point of the segment is exactly that far |
| `Simplify.FindFarthest` | tools/mapdata/build_mapdata.py:239-243 | the first farthest inner point of a chord, with its distance |
| `Simplify.Simplify` | tools/mapdata/build_mapdata.py:231-248 | the stack loop ends; the result is the points at some rising places of the input, first and last included; every point between two of them is within the tolerance of the segment between them, and no point kept between was within it; short inputs and tolerances of zero or less come back unchanged |
| `Simplify.Turn` | tools/mapdata/build_mapdata.py:237-247 | one turn of the loop keeps flags plus pending work equal to the result and shrinks the sum of 2(hi - lo) - 1 |
| `Simplify.DroppedIsNear` | tools/mapdata/build_mapdata.py:231-248 | every dropped point is within the tolerance of the chord between the kept points around it |
| `Simplify.KeptIsFar` | tools/mapdata/build_mapdata.py:244-247 | every kept inner point was the farthest from a chord between kept points and beyond the tolerance |
| `Simplify.SimplifiedWithinTolerance` | tools/mapdata/build_mapdata.py:231-248 | both end points stay, and every dropped point is within the tolerance of a point of the result's segment around it |
| `Rmap.WritePoly` | tools/mapdata/build_mapdata.py:290-294 | the bytes of one polyline, or failure when a number does not fit its field |
| `Rmap.WriteLayer` | tools/mapdata/build_mapdata.py:287-294 | the bytes of one layer, or failure |
| `Rmap.WriteRmap` | tools/mapdata/build_mapdata.py:278-298 | the whole file, or failure exactly when a count or coordinate does not fit its field |
| `RmapFormat.WritableIff` | tools/mapdata/build_mapdata.py:278-298 | a map can be written exactly when counts and coordinates are at most 65535, layer ids 255 and counts of polylines 4294967295 |
| `RmapFormat.WrittenHolds` | tools/mapdata/build_mapdata.py:278-298 | every number of the map is at its place of the written file, low byte first, and the file ends with the last one |
| `Rmap.Reader.Check` | toolkit/src/map/vector_map.cpp:26-32 | a read past the end turns the reader bad for good |
| `Rmap.Reader.ReadU8` | toolkit/src/map/vector_map.cpp:33-33 | one byte, or zero on a bad reader |
| `Rmap.Reader.ReadU16` | toolkit/src/map/vector_map.cpp:34-39 | two bytes, low first |
| `Rmap.Reader.ReadU32` | toolkit/src/map/vector_map.cpp:40-47 | four bytes, low first |
| `Rmap.Reader.ReadF64` | toolkit/src/map/vector_map.cpp:48-54 | eight bytes, as they are |
| `Rmap.Reader.ReadPolyline` | toolkit/src/map/vector_map.cpp:112-124 | the points of a polyline and the box around them |
| `Rmap.Reader.ReadLayer` | toolkit/src/map/vector_map.cpp:105-129 | a layer with its polylines of two points or more |
| `Rmap.Reader.ReadLayers` | toolkit/src/map/vector_map.cpp:104-130 | the layers, as long as the reader is good |
| `Rmap.Load` | toolkit/src/map/vector_map.cpp:68-134 | the map of a file: empty when it cannot be opened or is not a version 1 map file; not valid, with what was read, when it is cut short |
| `RmapFormat.HeldIsLoaded` | toolkit/src/map/vector_map.cpp:68-134 | a file that holds a map, byte for byte, loads as that map, whatever follows and whatever its flags and reserved bytes are |
| `RmapFormat.LoadedIsHeld` | toolkit/src/map/vector_map.cpp:68-134 | a file that loads as a valid map holds one |
| `RmapFormat.LoadedIff` | toolkit/src/map/vector_map.cpp:68-134 | over every sequence of bytes: the loader takes exactly the files in the format |
| `Rmap.RoundTrip` | toolkit/src/map/vector_map.cpp:68-134 | loading what the writer wrote, with anything appended, gives the map of the source |
| `Rmap.MapOfSource` | toolkit/src/map/vector_map.cpp:97-132 | that map is valid, has the box and the layer ids of the source, and every layer holds, in order and point by point, exactly its polylines of two points or more, each with a tight box |
| `Rmap.AppendedIgnored` | toolkit/src/map/vector_map.cpp:85-132 | bytes appended to any valid file change nothing |
| `Rmap.PrefixRejected` | toolkit/src/map/vector_map.cpp:26-32 | every strict prefix of a written file is rejected |
| `Canvas.PaintAt` | toolkit/src/view/raster.cpp:34-36 | after any list of writes a canvas pixel has the colour exactly when it is in the list |
| `Canvas.PaintElsewhere` | toolkit/src/view/raster.cpp:34-36 | no cell outside the canvas is ever written |
| `Canvas.PutPixel` | toolkit/src/view/raster.cpp:34-36 | the bounds-checked write |
| `Canvas.SetPixel` | toolkit/src/view/raster.cpp:67-67 | the write without a test, allowed only on the canvas |
| `Line.StopsAt` | toolkit/src/view/raster.cpp:79-85 | the walk is at its end point exactly after max(/dx/, /dy/) steps, so the endless loop ends there |
| `Line.Moves` | toolkit/src/view/raster.cpp:82-84 | one turn of the error term moves to the next pixel of the closed form, in all eight octants |
| `Line.WithinHalfPixel` | toolkit/src/view/raster.cpp:73-86 | every pixel is within half a pixel of the ideal line on the minor axis |
| `Line.TiesGoOn` | toolkit/src/view/raster.cpp:82-84 | of two pixels as near it takes the one a step further on the minor axis; this and the half pixel leave one pixel for every step |
| `Line.LineShows` | toolkit/src/view/raster.cpp:73-86 | a canvas pixel has the colour exactly when it is a pixel of the line, both ends included, and else what it had |
| `Line.Connected` | toolkit/src/view/raster.cpp:82-84 | consecutive pixels touch, one step on the major axis |
| `Line.PlotLine` | toolkit/src/view/raster.cpp:73-86 | the loop ends and writes exactly the pixels of the line that lie on the canvas |
| `Line.DrawnExactly` | toolkit/src/map/map_renderer.cpp:47-55 | a base-map line draws exactly the pixels of the line that its dash and circle let through |
| `Line.PutMasked` | toolkit/src/map/map_renderer.cpp:47-55 | one pixel of a base-map line |
| `Line.PlotMapLine` | toolkit/src/map/map_renderer.cpp:39-62 | the base-map line: the same pixels, less what the dash, the circle and the canvas leave out |
| `Line.MapLineShows` | toolkit/src/map/map_renderer.cpp:39-62 | a canvas pixel has the colour exactly when it is a pixel of the line at a step k with k / 2 even, if dashed, and no further than the radius from the centre, if cut to the circle |
| `Ring.StateNext` | toolkit/src/view/raster.cpp:42-48 | the loop keeps err = (y+1)^2 + x^2 - x - r^2 and the nearest-root bounds |
| `Ring.NearestRoot` | toolkit/src/view/raster.cpp:30-50 | a circle pixel is within half a pixel of the root of its row and /x^2 + y^2 - r^2/ <= r |
| `Ring.RingExactly` | toolkit/src/view/raster.cpp:37-49 | the loop writes exactly the circle pixels, in all eight octants |
| `Ring.PlotRing` | toolkit/src/view/raster.cpp:30-50 | the loop ends and colours exactly the circle pixels on the canvas |
| `Triangle.PlotRow` | toolkit/src/view/raster.cpp:62-69 | the covered pixels of a range of one row; every write is on the canvas, with no test |
| `Triangle.PlotTriangle` | toolkit/src/view/raster.cpp:52-71 | colours exactly the covered pixels of the bounding box that lie on the canvas, and writes nowhere else |
| `Triangle.RegionIsTriangle` | toolkit/src/view/raster.cpp:58-67 | for any three corners, on one line or not and whichever way they turn, those are exactly the pixels of the closed triangle |
| `Fill.RingCrossingsEven` | toolkit/src/map/map_renderer.cpp:155-160 | every scanline crosses a closed ring an even number of times |
| `Fill.RowCrossings` | toolkit/src/map/map_renderer.cpp:153-160 | the crossings of one scanline, edge by edge |
| `Fill.Sort` | toolkit/src/map/map_renderer.cpp:161-161 | the same crossings in ascending order |
| `Fill.SpansAreOdd` | toolkit/src/map/map_renderer.cpp:163-167 | the spans between paired sorted crossings cover a point exactly when an odd number of crossings lie to its left or it is itself a crossing |
| `Fill.FillSpan` | toolkit/src/map/map_renderer.cpp:164-166 | one span: the pixels whose centre lies in it; every write is on the canvas, with no test |
| `Fill.FillRow` | toolkit/src/map/map_renderer.cpp:162-167 | the spans of one row |
| `Fill.FillPolygon` | toolkit/src/map/map_renderer.cpp:136-169 | the fill colours exactly the region of the ring, on every row of the canvas, rows outside the computed range included |
| `Fill.FilledIsOdd` | toolkit/src/map/map_renderer.cpp:136-169 | for every ring, those of fewer than three points included, a canvas pixel whose centre is on no crossing is coloured if and only if an odd number of crossings lie to its left |
| `Fill.FilledExactly` | toolkit/src/map/map_renderer.cpp:136-169 | every canvas pixel: coloured if and only if the ring has three points or more and an odd number of crossings of its row lie left of its centre or one is at it |
| `Fill.CrossingsAre` | toolkit/src/map/map_renderer.cpp:155-160 | the crossings of a row are those of the edges with one end on or below it and one above, each on the line of its edge, each once and in the order of the ring |
| `Renderer.FindLayer` | toolkit/src/map/vector_map.cpp:59-66 | the first layer with an id |
| `Renderer.LayerOfIs` | toolkit/src/map/vector_map.cpp:59-66 | the layer at the first place with the id, none if there is no such place |
| `Renderer.RoundIs` | toolkit/src/map/map_renderer.cpp:123-126 | the nearest pixel, halves away from zero |
| `Renderer.RingIs` | toolkit/src/map/map_renderer.cpp:115-118 | a vertex stands at the pixel its map point falls on |
| `Renderer.DrawSegment` | toolkit/src/map/map_renderer.cpp:115-127 | one segment clipped to the canvas, rounded and drawn; the clip has only one answer |
| `Renderer.DrawPolyline` | toolkit/src/map/map_renderer.cpp:114-130 | exactly the pixels of its segments |
| `Renderer.DrawLayer` | toolkit/src/map/map_renderer.cpp:104-132 | exactly the pixels of the polylines that are in view |
| `Renderer.FillLand` | toolkit/src/map/map_renderer.cpp:185-187 | exactly the regions of the rings in view |
| `Renderer.DrawLand` | toolkit/src/map/map_renderer.cpp:182-189 | land over sea, in a map view of a map with land; otherwise the background |
| `Renderer.DrawBase` | toolkit/src/map/map_renderer.cpp:173-197 | every canvas pixel: border over coast over land over sea over the background; nothing for an invalid map or an empty view; no cell past the canvas |
| `Renderer.PixelShows` | toolkit/src/map/map_renderer.cpp:173-197 | a pixel shows the border (layer 1) that runs through it, else the coast (layer 0), else land (layer 4) or sea in a map view with land, else what was there |
| `Renderer.BaseIsDetermined` | toolkit/src/map/map_renderer.cpp:173-197 | a drawing is determined by the view, map, style and background |
| `Renderer.LoadedMapIsOk` | toolkit/src/map/vector_map.cpp:125-127 | every loaded map meets what drawing asks of it |
| `BaseMapCache.Copy` | toolkit/src/map/map_renderer.cpp:215-215 | copies the saved pixels |
| `BaseMapCache.Cache.constructor` | toolkit/src/map/map_renderer.cpp:209-224 | an empty cache |
| `BaseMapCache.Cache.Draw` | toolkit/src/map/map_renderer.cpp:209-224 | after every draw, across any changes of view, style, size or map, the canvas shows what drawing the base map on the prepared background shows |
| `MemoriesRows.InOrderTransitive` | apps/memories/src/viewmodel/memories_viewmodel.cpp:80-86 | the sort order is transitive |
| `MemoriesRows.BeforeIsStrict` | apps/memories/src/viewmodel/memories_viewmodel.cpp:80-86 | and total: one of two memories may stand first, both only when their frequency and name are equal |
| `MemoriesShown.OrderIs` | apps/memories/src/viewmodel/memories_viewmodel.cpp:80-86 | which of two memories stands first: the one of lower frequency if so sorted, and of lower name; the order of names is that of a dictionary |
| `MemoriesShown.MatchesIff` | apps/memories/src/viewmodel/memories_viewmodel.cpp:70-75 | a memory matches exactly when the text stands somewhere in its name, letter case aside |
| `MemoriesShown.EntryShows` | apps/memories/src/viewmodel/memories_viewmodel.cpp:78-93 | a row shows the name, mode and mark of a memory that matches, under the header of its first tag, or other |
| `MemoriesShown.MatchIsShown` | apps/memories/src/viewmodel/memories_viewmodel.cpp:70-93 | every memory that matches is shown, in exactly one row |
| `MemoriesRows.AddBlock` | apps/memories/src/viewmodel/memories_viewmodel.cpp:79-93 | one more group keeps the rows right |
| `MemoriesRows.MarksAfterReload` | apps/memories/src/viewmodel/memories_viewmodel.cpp:177-198 | after a reload a memory is marked exactly when a marked one had its identity or was renamed to it |
| `MemoriesRows.DistinctAddsNoMarks` | apps/memories/src/viewmodel/memories_viewmodel.cpp:177-198 | a reload of a list of distinct identities never adds marks |
| `MemoriesRows.ReloadAddsNoMarksIff` | apps/memories/src/viewmodel/memories_viewmodel.cpp:177-198 | no reload of a list can add marks, whatever was marked, if and only if its identities are distinct |
| `MemoriesRows.ReloadKeepsLimitIff` | apps/memories/src/viewmodel/memories_viewmodel.cpp:177-198 | no state within the limit of 64 marks passes it by the reload of a list if and only if the list has at most 64 memories or its identities are distinct |
| `MemoriesViewModel.SortIndices` | apps/memories/src/viewmodel/memories_viewmodel.cpp:80-86 | a permutation in sort order |
| `MemoriesViewModel.Layout` | apps/memories/src/viewmodel/memories_viewmodel.cpp:70-93 | every memory that matches the query exactly once, under the header of its group, in sort order; headers ascend and none is empty |
| `MemoriesViewModel.MemoriesViewModel.constructor` | apps/memories/src/viewmodel/memories_viewmodel.cpp:44-50 | the rows of the loaded list, nothing marked, the cursor on the first entry |
| `MemoriesViewModel.MemoriesViewModel.RebuildRows` | apps/memories/src/viewmodel/memories_viewmodel.cpp:62-108 | the rows are those of the view; the cursor stays on its memory if that is shown, else goes to the first entry, or -1 exactly when there is none |
| `MemoriesViewModel.MemoriesViewModel.SetQuery` | apps/memories/src/viewmodel/memories_viewmodel.cpp:129-132 | keeps everything but the query, the rows and the cursor |
| `MemoriesViewModel.MemoriesViewModel.ToggleSort` | apps/memories/src/viewmodel/memories_viewmodel.cpp:338-342 | re-sorts, keeps the cursor on its memory, disarms the delete |
| `MemoriesViewModel.NextEntry` | apps/memories/src/viewmodel/memories_viewmodel.cpp:142-148 | the first entry reached by whole steps of the direction before the rows end, or no move; never a header |
| `MemoriesViewModel.MemoriesViewModel.MoveSelection` | apps/memories/src/viewmodel/memories_viewmodel.cpp:134-149 | the cursor moves to that entry or stays, for any direction; a pending delete is disarmed |
| `MemoriesViewModel.Land` | apps/memories/src/viewmodel/memories_viewmodel.cpp:201-216 | the first row of an identity, else the last entry at or before a row, else the first entry |
| `MemoriesViewModel.MemoriesViewModel.ToggleMark` | apps/memories/src/viewmodel/memories_viewmodel.cpp:349-366 | flips the mark of the selected memory unless that passes the limit; the rows and the count agree |
| `MemoriesViewModel.MemoriesViewModel.ClearMarks` | apps/memories/src/viewmodel/memories_viewmodel.cpp:368-376 | no marks left, in the rows and the count |
| `MemoriesViewModel.MemoriesViewModel.Reload` | apps/memories/src/viewmodel/memories_viewmodel.cpp:175-219 | marks follow identities and stay within the limit for every list that keeps it; the cursor lands on the first row of the named memory, else on the entry at or before the given row, else on the first |
| `MemoriesViewModel.MemoriesViewModel.DisarmDelete` | apps/memories/src/viewmodel/memories_viewmodel.cpp:157-161 | not armed any more |
| `MemoriesViewModel.MemoriesViewModel.Tick` | apps/memories/src/viewmodel/memories_viewmodel.cpp:163-165 | disarms once the confirmation time is over |
| `MemoriesViewModel.MemoriesViewModel.RequestDelete` | apps/memories/src/viewmodel/memories_viewmodel.cpp:294-322 | removes exactly when the run of actions so far says so, and only the selected identity; else arms; the marks stay within the limit as in a reload |
| `MemoriesViewModel.MemoriesViewModel.CycleMode` | apps/memories/src/viewmodel/memories_viewmodel.cpp:265-292 | disarms; a saved or vanished memory reloads the list, else nothing changes |
| `MemoriesViewModel.MemoriesViewModel.ApplyEdit` | apps/memories/src/viewmodel/memories_viewmodel.cpp:229-263 | a rename takes its mark along and the cursor follows it; the marks stay within the limit as in a reload |
| `MemoriesViewModel.MemoriesViewModel.PrepareScan` | apps/memories/src/viewmodel/memories_viewmodel.cpp:378-404 | the marked memories, or those of the selected group; never empty |
| `MemoriesViewModel.MemoriesViewModel.RequestEdit` | apps/memories/src/viewmodel/memories_viewmodel.cpp:221-227 | disarms; the dialog starts from the selected memory, if there is one |
| `MemoriesViewModel.MemoriesViewModel.RequestSearch` | apps/memories/src/viewmodel/memories_viewmodel.cpp:344-347 | disarms and asks for the search |
| `MemoriesViewModel.MemoriesViewModel.NavPageChanged` | apps/memories/src/viewmodel/memories_viewmodel.h:83-83 | disarms |
| `MemoriesViewModel.MemoriesViewModel.OpenSelectedInSdr` | apps/memories/src/viewmodel/memories_viewmodel.cpp:324-336 | hands over the selected memory when there is one and the program is there |
| `MemoriesViewModel.MemoriesViewModel.NavMem` | apps/memories/src/viewmodel/memories_viewmodel.cpp:458-462 | the MEM keys: move, open, search; the memory handed over is exactly the selected one, exactly when it is opened |
| `MemoriesViewModel.MemoriesViewModel.NavScan` | apps/memories/src/viewmodel/memories_viewmodel.cpp:463-468 | the SCAN keys: mark, scan the marks, scan the group, clear; the other keys leave the prepared scan alone |
| `MemoriesViewModel.MemoriesViewModel.NavEdit` | apps/memories/src/viewmodel/memories_viewmodel.cpp:449-456 | the EDIT keys: edit with its draft, next mode, delete; only delete can remove |
| `MemoriesViewModel.MemoriesViewModel.NavActivate` | apps/memories/src/viewmodel/memories_viewmodel.cpp:448-469 | the actions of the key in order, a disarm before any key off the EDIT page; what the key does to rows, marks, cursor, scan and file; no other key removes |
| `MemoriesScan.Prepare` | apps/memories/src/viewmodel/memories_viewmodel.cpp:388-402 | the wanted memories by frequency and place, cut at 64, none left out that stands before one taken, and how many were wanted |
| `MemoriesShown.ScanShows` | apps/memories/src/viewmodel/memories_viewmodel.cpp:388-402 | a scan lists wanted memories by rising frequency and then place, 64 at most |
| `MemoriesScan.ScanIsCompleteIff` | apps/memories/src/viewmodel/memories_viewmodel.cpp:401-402 | a scan leaves nothing out if and only if no more than 64 are wanted |
| `MemoriesScan.MarksFitTheScan` | apps/memories/src/viewmodel/memories_viewmodel.cpp:389-402 | while there are at most 64 marks, a scan of them is exactly the marked memories |
| `MemoriesDelete.RemovalIff` | apps/memories/src/viewmodel/memories_viewmodel.cpp:294-322 | over arming, disarming and ticking actions: an action removes a memory if and only if it is a press on it within 4000 ms of an arming press on the same identity, with no disarming action, expiry or other press between |
| `MemoriesDelete.ActsDo` | apps/memories/src/viewmodel/memories_viewmodel.cpp:448-469 | the actions a user event performs add up to its effect on the armed delete |
| `MemoriesDelete.UserRemovalIff` | apps/memories/src/viewmodel/memories_viewmodel.cpp:294-469 | over user events: an event removes a memory if and only if it is the delete key on it within 4000 ms of an arming delete key on the same identity, and between them there is no other acting NavBar key, page switch, move, TAB, edit or search request and no tick past the time |
| `MemoriesDelete.OneRemovalPerArming` | apps/memories/src/viewmodel/memories_viewmodel.cpp:297-308 | one arming press allows at most one removal |
| `MemoriesDelete.RemovalsNeedArmings` | apps/memories/src/viewmodel/memories_viewmodel.cpp:157-322 | over a whole run there are never more removals than arming presses, and at least one fewer while a delete is armed |
| `KeyRouting.HoldEndsOnce` | toolkit/src/platform/linux_input.cpp:202-228 | each NavBar hold session does exactly one thing: the hold action of its key if some timer run found it down at 400 ms or later, else one tap of that key when it ends |
| `KeyRouting.EscEndsOnce` | toolkit/src/platform/linux_input.cpp:174-200 | each ESC session ends as exactly one of home, cancel and back, decided by what the timer runs saw, with hint shown and hidden in pairs |
| `KeyRouting.RepeatsAreExact` | toolkit/src/platform/linux_input.cpp:242-263 | after a timer run with the key still down and no capture, the session has sent its key exactly (e - 400) / 100 + 1 times, or not at all before 400 ms, however late the timer ran; a repeat that opens a capture is the last of its run |
| `KeyRouting.RepAlways` | toolkit/src/platform/linux_input.cpp:242-263 | at any time a session has sent only its own key and no more often than is due |
| `KeyRouting.OthersKeepTrace` | toolkit/src/platform/linux_input.cpp:286-317 | events of one kind never add to the sessions of another |
| `KeyPresses.PressesAreDispatched` | toolkit/src/platform/linux_input.cpp:286-317 | over every run of raw key reports: the presses of keys other than ESC and without a hold action, or with a capture open, are dispatched one for one and in order, each with its key and capture |
| `KeyPresses.HoldSessionsIff` | toolkit/src/platform/linux_input.cpp:202-304 | a press opens a hold session exactly when its NavBar key has a hold action, no capture is open and its own session is not running; it runs until a timer finds the key up |
| `KeyPresses.EscSessionsIff` | toolkit/src/platform/linux_input.cpp:174-302 | ESC opens its session exactly when no capture is open and none is running; it runs until a timer finds ESC up |
| `KeyPresses.RepeatSessionsIff` | toolkit/src/platform/linux_input.cpp:242-311 | a dispatched press of a repeating key opens a repeat session exactly when it left no capture open; it runs until a timer finds the key up, a capture open or the key not repeating any more |
| `KeyPresses.CaptureAlways` | toolkit/src/platform/linux_input.cpp:242-317 | a capture is open exactly as the last handler called left it |
| `KeyPresses.HandlersAreTold` | toolkit/src/platform/linux_input.cpp:174-317 | every dispatch and tap goes to the capture open just then; ESC held long quits exactly without a home handler; a repeat is sent only while its key is down and repeats and no capture is open |
| `KeyRouting.KeyRouter.constructor` | toolkit/src/platform/linux_input.cpp:60-82 | nothing held, nothing sent |
| `KeyRouting.KeyRouter.SettleHold` | toolkit/src/platform/linux_input.cpp:305-306 | ends the running hold as a tap unless its action ran |
| `KeyRouting.KeyRouter.Pressed` | toolkit/src/platform/linux_input.cpp:298-312 | a press: a new ESC, hold or repeat session, or a dispatch |
| `KeyRouting.KeyRouter.KeyEventCb` | toolkit/src/platform/linux_input.cpp:286-317 | acts on edges only and remembers the last key |
| `KeyRouting.KeyRouter.HoldTimerCb` | toolkit/src/platform/linux_input.cpp:202-217 | one run of the hold timer |
| `KeyRouting.KeyRouter.EscTimerCb` | toolkit/src/platform/linux_input.cpp:174-200 | one run of the ESC timer |
| `KeyRouting.KeyRouter.RepeatTimerCb` | toolkit/src/platform/linux_input.cpp:242-263 | the catch-up loop sends what is due, or stops at the repeat that opens a capture |

## Left out

- Trigonometric projection (`range_nm`, `bearing_deg`, `project_mercator`) and the culling box: where a map point falls and which polylines are in view are parameters of the renderer.
- IEEE rounding and integer overflow: geometry is over the reals (distances squared, so that no root is needed), pixels and counters are mathematical integers, a double of the map file is its eight bytes.
- NmeaNetSource.NmeaNetSource.Ingest: the callback is the list of texts handed over; sockets and threads are not part of this model.
- AisDecoder.Decode: raw integers only; scaling to degrees and knots and the formatted table strings are not part of this model, nor is `parse_aivdm`.
- VesselStore.EntityStore.ApplyToStore: the time stamp and the ageing sweep of the table.
- JSON text: writing and parsing are parameters whose composition gives the document back; integers outside 64 bits and text that is not valid UTF-8 are therefore not covered.
- MemoriesSteps.FileIsReplay: assumes that the lock file opens, as the code runs unlocked otherwise, and that parent directories exist.
- MemoriesSteps.PowerCutKeepsPrefix: after a power cut an unflushed temporary file may hold anything; leftovers of killed processes stay and are never read.
- MemoriesFile.Disk.SaveMemories: partial writes are one outcome of the write loop here; their steps are in `MemoriesSteps`.
- Frequency, status, label and NavBar texts of the Memories list, the screens and dialogs that show it, and the scan text sent to the SDR program.
- MemoriesViewModel.SortIndices: the order of two memories with the same name and frequency, which `std::sort` leaves open.
- MemoriesViewModel.MemoriesViewModel.Reload: what the file holds at that moment is a parameter, since other programs write it too.
- MemoriesViewModel.MemoriesViewModel.PrepareScan: the scan is prepared and confirmed in one uninterrupted dialog; a reload in between is not modelled.
- KeyRouting.KeyRouter.KeyEventCb: which input device is polled, the wrap-around of the 32-bit tick, the activity handler that every press calls first, and what a handler does beyond opening or closing a capture.
- KeyRouting.KeyRouter.EscTimerCb: an unset quit, hint or hold handler is a call that does nothing; only an unset home handler changes what happens.
- BaseMapCache.Cache.Draw: assumes what the scope does, a background that depends on the style and the size only, and maps that do not change.
- Simplify.Simplify: over the reals, with an unlimited stack.
- RmapFormat.LoadedIff: the memory the loader reserves for the counts of a file.
- `quantize`, `build_layer`, holes of polygons, downloads and command lines of the map builder.
- `plot_disc`, colour maps, waterfalls, ADS-B, ISM and Meshtastic view models, the remote framebuffer, serial ports: they would only add easy members.
