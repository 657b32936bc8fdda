# MiBee NVR: verified core

Dafny models of the algorithms and protocols at the core of the recorder, with proofs of what they
promise. `dafny verify dfyconfig.toml` checks the whole project.

| file | what it models |
|---|---|
| `Bytes.dfy`, `Arithmetic.dfy`, `Ordering.dfy`, `Decimal.dfy` | byte strings and fixed-width numbers, quotients, sorting by strings, decimal text |
| `Words.dfy`, `OggCrc.dfy` | machine words as digits, and the table-driven page checksum, against long division of polynomials over two elements |
| `OggPages.dfy` | the live Ogg Opus stream, against the page and packet reader of sections 5 and 6 of RFC 3533 and the granules of section 4 of RFC 7845 |
| `Adts.dfy` | the live AAC stream, against the frame reader of section 6.2 of ISO/IEC 13818-7 |
| `Wav.dfy` | PCM WAV headers and decoded samples |
| `LiveSession.dfy` | the live listening session over any of the three formats, from the hub's callback to the bytes a player parses |
| `Mp4Boxes.dfy` | the reader of audio-only recordings, against a serializer of box trees (section 4.2 of ISO/IEC 14496-12) |
| `Polygon.dfy` | the point-in-polygon test and the zone filter |
| `Rename.dfy`, `MergeSaga.dfy` | renaming camera IDs in paths and back, and the camera merge with its rollback |
| `Download.dfy` | the resumable model download as a list of writes that a crash can cut anywhere |
| `TierMerge.dfy` | folding short segments: windows, runs, replacement of rows and files, totals |
| `TierMedia.dfy`, `TierSteps.dfy`, `TierWindows.dfy` | what such a fold does to every row, file and product, run by run and as the list of the command's steps; which windows are folded and which rows never are |
| `ChunkDelete.dfy` | chunked deletion with the in-place fallback |
| `Containerize.dfy` | turning frame directories into containers, safe at every step |
| `Decimate.dfy` | extremes-preserving decimation of thermal readings |
| `RangeHeader.dfy` | single byte ranges, against section 14.1.2 of RFC 9110, and the partial responses |
| `ViewerRegistry.dfy` | the bounded viewer registry and the event ring |
| `Admission.dfy` | the per-address admission counter under any interleaving |

The outside world (servers, disks, the database, clocks, cancellation, other processes) enters as
parameters that answer each step arbitrarily; a theorem holds for every such answer unless it names a
condition. Values that the program updates in place are fields of classes, and each method is tied to a
specification function or relation about which the properties are then proved.

## Where the code is narrower than its comments

Each of these is proved, with the exact condition where there is one.

- A live Opus packet whose length is a multiple of 255 never reaches the player, because the segment table
  lacks the terminating zero (`OggPages.StreamDemux`, `OggPages.StreamRoundTripExact`).
- An Opus source with three to eight channels gets an identification header that section 5.1.1.1 of RFC 7845
  does not allow with mapping family 0 (`OggPages.OpusHeadExact`).
- ADTS: object type 5 is accepted but reads back as type 1, and a unit of more than 8184 bytes breaks its
  frame (`Adts.ObjectTypeExact`, `Adts.StreamRoundTripExact`). The comment lists AAC Main as accepted; the
  code accepts types 2 to 5.
- A camera merge whose disk move fails partway does not move the files back that it had moved
  (`MergeSaga.DiskFailureExact`), and merging `cam-1` into `cam-12` rewrites the paths of `cam-12`'s own
  recordings (`MergeSaga.TargetRowExact`, `MergeSaga.TargetRowBroken`). If the storage root spells the
  source ID, as `/mnt/cam-1/nvr` does, the database rewrites the root as well, and every merged row names a
  path that no file was moved to (`MergeSaga.RowFollowsExact`).
- The disk move of a camera merge overwrites whatever lies at a destination. A file that both cameras have
  under one name, as products of the tier merge can be, replaces the target's, and two source files that
  are renamed to one path replace each other (`MergeSaga.ArrivalExact`, `MergeSaga.MergeKeepsRecordings`).
- A downloaded part file that fails its size check is kept, and only its sidecar is removed; two answers
  without a total can then install a truncated file (`Download.Rejected`, `Download.TruncatedInstall`). A
  complete part file is deleted if the server refuses the empty rest (`Download.CompletePartRefused`).
- The tier merge never reaches its branch for windows whose files are all missing; such windows count as
  failed and keep their rows (`TierMerge.UnusableKept`).
- Folding an earlier product again as the first source of a run: the output path is the product's own. If
  the merger then fails, the program removes that file and leaves the row
  (`TierMedia.FailedRefoldLosesProduct`); if it succeeds, the new product is deleted with the sources, and
  its row names no file (`TierMedia.RefoldLosesProduct`, `TierSteps.OwnSweep`, `TierSteps.RefoldedWindow`).
- The output path is the first row's local time to the second, while windows are cut on absolute time. In
  the hour that is repeated when summer time ends, two runs of one command can have one output path: the
  second replaces the first's product or, if its merge fails, removes it. The first's sources are deleted
  by then, and its row stays (`TierSteps.RepeatedHour`, `TierSteps.RepeatedHourHappens`).
- Exactly when every row, found or made, has its media at the end of a tier merge, these losses included, is
  `TierSteps.AllMediaExact`, for any paths, and `TierSteps.AllMediaSettled`, from the files at the start.
- Segments that the merger leaves out of a product for having no keyframe are deleted with the others
  (`TierSteps.LostExact`).
- Segments with different parameter sets can share a run key (`TierMerge.KeyExact`,
  `TierMerge.KeysCanAgree`). The merger, which is not part of this model, compares the sets once more and
  refuses such a run.
- A conversion reported as "row untouched" has flipped the row if the update's reply was lost or the
  directory could not be removed (`Containerize.Converter.ContainerizeOne`).
- A full viewer registry evicts nobody if no entry is older than now (`ViewerRegistry.CapExact`), which
  nine reports at one instant bring about (`ViewerRegistry.CapCanBePassed`); past eight it shrinks only as
  viewers go stale (`ViewerRegistry.SizeExact`).
- Byte ranges with numbers beyond 64 bits are refused although the standard can satisfy them
  (`RangeHeader.AgreesExactly`), and backward ranges are refused although the standard calls them malformed
  (`RangeHeader.BackwardsRefused`).

## Model

| member | source | states |
|---|---|---|
| OggCrc.BuildTable | internal/api/handlers_camera_audio_live.go:414-428 | entry i of the table is the byte i moved to the top of the register and divided eight digits further |
| OggCrc.FirstEntry | internal/api/handlers_camera_audio_live.go:412-428 | entry 1 of the table is the polynomial 0x04c11db7 |
| OggCrc.Checksum | internal/api/handlers_camera_audio_live.go:430-436 | the table-driven loop returns, for every byte string, the remainder of the message times x^32 on long division by 0x04c11db7 |
| OggCrc.DirectIsRemainder | internal/api/handlers_camera_audio_live.go:412-436 | the register form that takes in one digit at a time and appends no zeros has the same remainder as long division |
| OggCrc.TableStep | internal/api/handlers_camera_audio_live.go:432-434 | one byte through the table is eight digits through the register |
| OggCrc.BurstDetected | internal/api/handlers_camera_audio_live.go:412-436 | any change confined to four consecutive bytes of any message changes the checksum |
| OggPages.PageReadsBack | internal/api/handlers_camera_audio_live.go:445-466 | every page with a payload up to 65025 bytes is read back with all its fields and its checksum confirmed, whatever follows it |
| OggPages.PayloadSegments | internal/api/handlers_camera_audio_live.go:446-453 | a payload ends its packet in the segment table exactly when its length is not a multiple of 255 |
| OggPages.PagesReadBackExact | internal/api/handlers_camera_audio_live.go:445-466 | the concatenation of any pages whose numbers fit their fields reads back as those pages if and only if every payload is at most 65025 bytes |
| OggPages.StreamPagesExact | internal/api/handlers_camera_audio_live.go:487-511 | the pages of a live stream are readable, numbered consecutively under one serial number, the first marked as such, with granule 960 k and the k-th packet on the k-th audio page, if and only if every packet fits a page |
| OggPages.StreamDemux | internal/api/handlers_camera_audio_live.go:445-512 | where every packet fits a page, a reader gets the two headers and, in order, exactly the packets whose length is not a multiple of 255 |
| OggPages.StreamRoundTripExact | internal/api/handlers_camera_audio_live.go:445-512 | for any packets: the stream reads back to its pages and packets as they were meant if and only if no length is a multiple of 255 or exceeds a page |
| OggPages.OversizeUnreadable | internal/api/handlers_camera_audio_live.go:446-461 | a payload whose segment count wraps in its byte field so far that the reader is left inside the segment table makes a stream that cannot be read past it |
| OggPages.OpusHeadExact | internal/api/handlers_camera_audio_live.go:474-495 | the identification header is a valid one that carries the channels and rate it was written for if and only if there are at most two channels |
| OggPages.OpusTagsReadBack | internal/api/handlers_camera_audio_live.go:497-501 | the comment header names the vendor MiBeeNvr and no comments |
| OggPages.ChannelsExact | internal/api/handlers_camera_audio_live.go:474-482 | the channels announced are the armed ones from one to eight, without armed ones the configured ones from one to eight, and else one |
| OggPages.SegmentTable | internal/api/handlers_camera_audio_live.go:446-453 | the table filled in place is the lacing of the payload's length |
| OggPages.OggOpusBuilder.EmitPage | internal/api/handlers_camera_audio_live.go:445-466 | the page built in place is the specified one, sealed with the checksum of itself with the field blank, and the page number advances |
| OggPages.OggOpusBuilder.Frame | internal/api/handlers_camera_audio_live.go:508-511 | everything sent so far remains the specified stream of the packets framed so far |
| OggPages.NewLiveOggOpus | internal/api/handlers_camera_audio_live.go:473-512 | a fresh stream starts with its two header pages for the channel count and rate that are known |
| Adts.ConfigRoundTrip | internal/api/handlers_camera_audio_live.go:352-363 | parsing a written AudioSpecificConfig gives its fields back exactly for types 2 to 5, frequency indices to 12 and one to six channels, and nothing otherwise |
| Adts.ConfigIsWritten | internal/api/handlers_camera_audio_live.go:352-363 | whatever the parser returns is what the first two bytes say |
| Adts.RatesHalve | internal/api/handlers_camera_audio_live.go:336 | the frequency table is that of the standard: three rates, halved three times, and 7350 |
| Adts.SessionParams | internal/api/handlers_camera_audio_live.go:371-390 | header parameters come from the configuration if it parses, else from the armed rate if that is a standard one |
| Adts.EmitFrame | internal/api/handlers_camera_audio_live.go:395-406 | the buffer filled byte by byte is the specified header and the unit |
| Adts.FrameReadsBack | internal/api/handlers_camera_audio_live.go:395-406 | a frame of at most 8191 bytes reads back to its unit and parameters, whatever follows it |
| Adts.StreamRoundTripExact | internal/api/handlers_camera_audio_live.go:395-406 | a session's frames read back to exactly its units if and only if every length fits 13 bits |
| Adts.ObjectTypeExact | internal/api/handlers_camera_audio_live.go:359-375 | the object type a reader recovers is the configured one exactly up to type 4 |
| Wav.FillHeader | internal/api/handlers_camera_audio_live.go:301-317 | the header filled field by field is the specified one |
| Wav.WriteWav | internal/api/handlers_recording_audio.go:123-145 | the file written is the specified one |
| Wav.HeaderReadsBack | internal/api/handlers_recording_audio.go:123-145 | every header reads back with its numbers cut to their fields, and the rest as samples |
| Wav.Marks | internal/api/handlers_recording_audio.go:123-145 | the marks, the length of the format and the PCM tag lie where every player looks for them |
| Wav.FileRoundTripExact | internal/api/handlers_recording_audio.go:123-145 | a file reads back to its samples, with its sizes, channels, rates and 16 bits, if and only if all its numbers fit |
| Wav.G711ToPCM | internal/api/handlers_recording_audio.go:108-120 | the samples are those of the bytes in order |
| Wav.SampleAt | internal/api/handlers_recording_audio.go:108-120 | each sample is read back in two's complement from where it belongs |
| LiveSession.SessionSound | internal/api/handlers_camera_audio_live.go:188-283 | over any arrivals, deliveries, write failures, flushes and hang-ups: accepted frames are delivered, queued (at most 64) or dropped with order kept; what is written is a prefix of header and framed frames within the declared length |
| LiveSession.CompleteBody | internal/api/handlers_camera_audio_live.go:260-275 | a session that ends on the length test has sent exactly the declared number of bytes of the stream |
| LiveSession.BeginExact | internal/api/handlers_camera_audio_live.go:217-231 | a session begins with the whole header, or ends with a part of it |
| LiveSession.ArrivalExact | internal/api/handlers_camera_audio_live.go:199-209 | in any session still running a frame of another codec changes nothing, and any other waits behind the rest unless 64 wait already: only then it is lost |
| LiveSession.EndExact | internal/api/handlers_camera_audio_live.go:254-283 | what each turn of the loop does, and which end the session: a failed write, the declared length reached, a flush more than 30 seconds after the last frame taken, a hang-up |
| LiveSession.EndIsFinal | internal/api/handlers_camera_audio_live.go:254-283 | nothing happens in a session that has ended |
| LiveSession.Drains | internal/api/handlers_camera_audio_live.go:260-275 | a queue that is served without failures is delivered whole and in order, or the declared length is reached before |
| LiveSession.AdtsListener | internal/api/handlers_camera_audio_live.go:188-283 | from hub to player: an AAC session whose writes succeed parses to exactly the delivered units, if and only if their lengths fit |
| LiveSession.OpusListener | internal/api/handlers_camera_audio_live.go:188-283 | from hub to player: the delivered packets of an Opus session whose writes succeed arrive as they were meant if and only if no length is a multiple of 255 or exceeds a page; where all fit, exactly those with other lengths arrive |
| LiveSession.WavConsistentExact | internal/api/handlers_camera_audio_live.go:319-330 | the declared length leaves room for the header, or is none, except exactly where the wrapped product is negative by one to 44 seconds; without overflow it is the length of the window's samples behind the header |
| LiveSession.WavListener | internal/api/handlers_camera_audio_live.go:287-330 | a G.711 session ended by its length parses to a WAV header with the endless sizes and 16 bits, and exactly the first samples that fill the declared length |
| LiveSession.Session.OnAudio | internal/api/handlers_camera_audio_live.go:199-209 | the callback queues or drops one frame and keeps the session sound |
| LiveSession.Session.DeliverOne | internal/api/handlers_camera_audio_live.go:260-275 | one frame is framed, cut at the declared length and written, and the session stays sound |
| LiveSession.Session.Serve | internal/api/handlers_camera_audio_live.go:254-283 | the session loop is the specified run of steps |
| Mp4Boxes.FindBox | internal/api/handlers_recording_audio.go:277-290 | the loop over an offset stays in bounds, ends, and returns what the walk over the remaining bytes finds |
| Mp4Boxes.FindsFirst | internal/api/handlers_recording_audio.go:277-290 | in the bytes of any boxes the first one of the wanted kind is found, or none if there is none |
| Mp4Boxes.DescendsTree | internal/api/handlers_recording_audio.go:239-264 | descending the bytes of a tree is descending the tree |
| Mp4Boxes.ProbeRecovers | internal/api/handlers_recording_audio.go:239-275 | along the boxes trak, mdia, minf, stbl and stsd: probing any movie box recovers the kind, channels and rate its first sample entry was written with |
| Mp4Boxes.ProbeShort | internal/api/handlers_recording_audio.go:265-273 | a description too short for the numbers tells the kind only, and one of less than 16 bytes is refused |
| Mp4Boxes.ProbeMissing | internal/api/handlers_recording_audio.go:239-262 | a movie box in which any box of the path to the sample description is missing is refused |
| Mp4Boxes.ReadAudioOnlyMP4 | internal/api/handlers_recording_audio.go:160-235 | the reading loop over a position in the file is the walk over the remaining bytes |
| Mp4Boxes.HeaderOf | internal/api/handlers_recording_audio.go:170-200 | a box header is understood in each of its three forms of size |
| Mp4Boxes.WalksFile | internal/api/handlers_recording_audio.go:167-227 | whatever the order of the boxes and the form of their sizes, the walk collects their contents, as long as sizes fit their fields and the caps on long sizes and media |
| Mp4Boxes.RecordingReadsBack | internal/api/handlers_recording_audio.go:160-235 | a recording with one media and one movie box reads back, in either order, among any other boxes |
| Mp4Boxes.PartMissing | internal/api/handlers_recording_audio.go:229-234 | a recording without media or without a movie box is refused |
| Mp4Boxes.StopsAtRefused | internal/api/handlers_recording_audio.go:167-221 | a long size or media beyond the caps, or a movie box that cannot be probed, stops the reader wherever it comes |
| Polygon.PointInPolygon | internal/ai/zones.go:180-199 | the loop computes the crossing parity of the closed boundary and never divides by zero |
| Polygon.RotationInvariant | internal/ai/zones.go:180-199 | the starting vertex does not matter |
| Polygon.ReversalInvariant | internal/ai/zones.go:180-199 | the direction of the boundary does not matter |
| Polygon.ChordSplit | internal/ai/zones.go:180-199 | cut along any chord, a point is inside the whole exactly when it is inside one piece and not the other |
| Polygon.FanTriangulation | internal/ai/zones.go:180-199 | the test on any polygon is the parity over its fan of triangles |
| Polygon.CrossesBySide | internal/ai/zones.go:192 | an edge is crossed exactly when the point lies to the left of it, looking upwards |
| Polygon.TriangleExact | internal/ai/zones.go:180-199 | for any point and any triangle the test is membership in the triangle with its left and lower boundary and without the right and upper one |
| Polygon.InteriorAgrees | internal/ai/zones.go:180-199 | off the lines through its edges, that half-open triangle is the interior |
| Polygon.InsideMeansCovered | internal/ai/zones.go:180-199 | for any point and any polygon, inside means being in an odd number of the half-open fan triangles |
| Polygon.OutsideBoxIsOut | internal/ai/zones.go:180-199 | no point left, right, above or below all vertices is inside |
| Polygon.RectangleExact | internal/ai/zones.go:180-199 | on an axis-aligned rectangle the test is the half-open box |
| Polygon.KeptCounts | internal/ai/zones.go:207-226 | the filter keeps exactly the detections whose centre is in some zone, each as often as it occurs |
| Polygon.KeptExact | internal/ai/zones.go:207-226 | a detection is kept if and only if it was listed and the point in the middle of its box is inside some zone |
| Polygon.FilterDetectionsByZone | internal/ai/zones.go:207-226 | the loop returns the kept detections in order, and all of them when there are no zones |
| Rename.UndoExact | cmd/mibee-nvr/merge_cameras.go:344-352 | replacing back undoes a replacement if and only if the new string spells the target ID nowhere it was not put |
| Rename.NoCycles | cmd/mibee-nvr/merge_cameras.go:344-352 | if every path of a finite set is another one renamed forth and back, renaming forth and back restores every path |
| Rename.SplitAtSlash | internal/storage/db_camera.go:616-625 | an ID without a slash is replaced in each part of a path by itself |
| Rename.UnchangedExact | internal/storage/db_camera.go:589-645 | a replacement leaves a path alone exactly when the source ID is not in it |
| MergeSaga.MoveOutAll | cmd/mibee-nvr/merge_cameras.go:472-524 | where every move succeeds, what each directory holds afterwards and where it came from, collisions included |
| MergeSaga.RollbackRestores | cmd/mibee-nvr/merge_cameras.go:334-374 | a reversible move whose moves back are all done leaves both directories as they were |
| MergeSaga.RoundTripTarget | cmd/mibee-nvr/merge_cameras.go:334-374 | whatever each move back ends as, also when one path is tried twice: the target holds what it had and what came, less the destinations of which some move back was done |
| MergeSaga.RoundTripSource | cmd/mibee-nvr/merge_cameras.go:334-374 | whatever the moves back end as: a file is under its restored name if its move back brought anything, and whatever is in the source was brought back from where some file went |
| MergeSaga.RollbackExact | cmd/mibee-nvr/merge_cameras.go:334-374 | moving back, whatever its moves end as, restores both directories if and only if every path is clean, every file with a free destination is moved back, and every other one overwrote its equal and is copied back truly |
| MergeSaga.RowFollowsExact | internal/storage/db_camera.go:589-645 | the rewritten path of a row is the path its file is moved to if and only if the storage root does not spell the source ID |
| MergeSaga.TargetRowExact | internal/storage/db_camera.go:589-645 | a row of the target camera keeps its path exactly when the source ID is not in it |
| MergeSaga.TargetRowBroken | internal/storage/db_camera.go:589-645 | merging cam-1 into cam-12 changes the path of a row of cam-12 |
| MergeSaga.ArrivalExact | cmd/mibee-nvr/merge_cameras.go:472-535 | a complete move leaves every source file at its destination and every target file as it was if and only if files with one destination are equal, and whatever lay at a destination equals what comes |
| MergeSaga.MergeKeepsRecordings | cmd/mibee-nvr/merge_cameras.go:376-425 | after a complete merge every row of a source recording, and every row of a target recording that does not spell the source ID, points at the recording it had, if and only if none of these is overwritten by a different one |
| MergeSaga.SaveFailureExact | cmd/mibee-nvr/merge_cameras.go:398-425 | when the configuration cannot be saved, rollback, whatever its own steps end as, restores everything if and only if the database copy comes back and the files are restorable as above |
| MergeSaga.DiskFailureExact | cmd/mibee-nvr/merge_cameras.go:398-406 | when the disk move fails, everything is restored if and only if the database copy comes back, and there was nothing to move, or the very first move was refused or copied what already lay at its destination |
| MergeSaga.SourceShrinks | cmd/mibee-nvr/merge_cameras.go:472-524 | the move removes as many files from the source as it reports moved |
| MergeSaga.StopsAtFailure | cmd/mibee-nvr/merge_cameras.go:472-524 | a move that fails at some file has moved exactly the files before it, and lists them |
| MergeSaga.RunExit | cmd/mibee-nvr/merge_cameras.go:376-425 | a run is complete if and only if backup, re-tagging, every move, the walk and the saving work, and which of them fails decides how it ends; one that is refused changes nothing, and after the other failures the configuration is as it was and the database what the restore leaves |
| MergeSaga.CompleteRows | cmd/mibee-nvr/merge_cameras.go:387-425 | after a complete run the source directory is empty, no row has the source camera, its rows and the target's are the target's with rewritten paths, and the others are as they were |
| MergeSaga.CompleteExact | cmd/mibee-nvr/merge_cameras.go:376-425 | after a complete run every row of a recording points at that recording in the resulting directories if no recording is overwritten by a different one, and only then if every recording has its row |
| MergeSaga.CompleteConfig | cmd/mibee-nvr/merge_cameras.go:408-417 | after a complete run the configuration has every entry but the source's, once and in order, and only the target's are changed, as the flags say |
| MergeSaga.WithoutCounts | cmd/mibee-nvr/merge_cameras.go:620-629 | the filter drops the source camera everywhere and keeps every other entry as often as it occurs |
| MergeSaga.RemoveCamera | cmd/mibee-nvr/merge_cameras.go:620-629 | the loop that copies the configuration is that filter, in order |
| MergeSaga.Merge.MergeDiskDirectories | cmd/mibee-nvr/merge_cameras.go:472-524 | the walk moves file after file, stops at the first failure, and reports where files went |
| MergeSaga.Merge.Rollback | cmd/mibee-nvr/merge_cameras.go:334-374 | only what is flagged as done is undone |
| MergeSaga.Merge.Execute | cmd/mibee-nvr/merge_cameras.go:376-425 | the program's steps are the specified run, in every case of failure |
| Download.AttemptSound | cmd/mibee-nvr/download_model.go:178-255 | after every single write of an attempt the part file is a prefix of the remote and a readable sidecar is true; a successful attempt with a known total has the whole remote |
| Download.AttemptLeaves | cmd/mibee-nvr/download_model.go:178-255 | the disk after an attempt with any answer: unchanged without an open part file, else the part file continued or restarted with all that was received, unless the size was to be noted and was not |
| Download.AttemptExact | cmd/mibee-nvr/download_model.go:178-255 | a faithfully answered attempt ends well if and only if the part file opens, the copy ends cleanly and, with a known total, the size is noted and the part file then is the whole remote |
| Download.SizeFirst | cmd/mibee-nvr/download_model.go:235-241 | a known total is on the disk before the first byte is: an attempt cut anywhere leaves it with what it added |
| Download.RunSound | cmd/mibee-nvr/download_model.go:119-165 | after every single write of a run, so after every crash, part file and sidecar are sound, and the installed file is the old one or a prefix of at least 5 MB; what is installed beside a readable sidecar is exactly the remote |
| Download.HistorySound | cmd/mibee-nvr/download_model.go:119-165 | the same after any history of runs and crashes |
| Download.RunEndsAs | cmd/mibee-nvr/download_model.go:119-165 | whatever the answers, an uncut run leaves no part file and no sidecar, and installed the part file of the first attempt that is accepted, or else what was there |
| Download.InstalledVerified | cmd/mibee-nvr/download_model.go:119-165 | whatever the answers, anything new that a run installs has at least 5 MB |
| Download.RunEnds | cmd/mibee-nvr/download_model.go:119-165 | with totals given, an uncut run installs the whole remote if it has 5 MB and some attempt gets the whole file and its rename through, and else leaves the installed file |
| Download.RunFirst | cmd/mibee-nvr/download_model.go:119-165 | any run, attempt by attempt: one that ends badly leaves the rest of the run to what it left; one that ends well installs a part file of 5 MB with the size that is told, and otherwise costs the sidecar |
| Download.VerifiedExact | cmd/mibee-nvr/download_model.go:288-313 | a verified part file is the whole of whatever remote it can belong to if and only if its sidecar is readable |
| Download.Rejected | cmd/mibee-nvr/download_model.go:288-313 | a rejected part file stays and loses its sidecar |
| Download.Accepted | cmd/mibee-nvr/download_model.go:288-313 | a part file that passes is installed and nothing else remains |
| Download.TruncatedInstall | cmd/mibee-nvr/download_model.go:288-313 | for every true prefix of at least 5 MB there is a run of answers without totals that installs it |
| Download.CompletePartRefused | cmd/mibee-nvr/download_model.go:178-255 | a server that refuses the empty rest of a complete part file costs that file |
| Download.ContentRangeTotals | cmd/mibee-nvr/download_model.go:337-349 | a printed total is recovered, an unknown one counts as absent |
| Download.ParseContentRangeTotal | cmd/mibee-nvr/download_model.go:337-349 | the number after the last slash is scanned, else 0 |
| Download.Downloader.StreamCopy | cmd/mibee-nvr/download_model.go:259-284 | the copy appends exactly the chunks it read and counts them |
| Download.Downloader.DownloadOnceWithResume | cmd/mibee-nvr/download_model.go:178-255 | the writes of an attempt, in order, and whether it succeeds |
| Download.Downloader.VerifyAndInstall | cmd/mibee-nvr/download_model.go:288-313 | the writes of the check, in order, and whether it passes |
| Download.Downloader.DownloadModelFile | cmd/mibee-nvr/download_model.go:119-165 | the retry loop's writes are those of the specified run |
| TierMerge.WindowOf | cmd/mibee-nvr/tier_merge.go:239 | a row's key is the multiple of the window with key <= start < key + window |
| TierMerge.InWindowCounts | cmd/mibee-nvr/tier_merge.go:235-244 | a row is in the bucket of its own window as often as it is listed, and in no other |
| TierMerge.GroupByWindow | cmd/mibee-nvr/tier_merge.go:235-245 | one nonempty bucket per window that has rows, in order of time, each with exactly its window's rows in their order |
| TierMerge.KeyExact | cmd/mibee-nvr/tier_merge.go:404-411 | two segments with one key are alike if and only if their codecs, SPS and PPS are of one length each |
| TierMerge.KeysCanAgree | cmd/mibee-nvr/tier_merge.go:404-411 | for any H.264 parameter sets, moving a byte from the end of the SPS to the front of the PPS keeps the key |
| TierMerge.RunAlikeExact | cmd/mibee-nvr/tier_merge.go:403-422 | a run holds one parameter set if and only if those lengths agree throughout it |
| TierMerge.SplitConcat | cmd/mibee-nvr/tier_merge.go:403-422 | the runs concatenate back to the probed segments and rows |
| TierMerge.SplitUnique | cmd/mibee-nvr/tier_merge.go:403-422 | any cutting into uniform runs of which no two neighbours agree is the program's |
| TierMerge.SplitTierRuns | cmd/mibee-nvr/tier_merge.go:403-422 | the loop that extends the last run in place computes that cutting |
| TierMerge.ProbeSplits | cmd/mibee-nvr/tier_merge.go:271-292 | probing divides a window's rows, in order, into those with a file to be seen and those without |
| TierMerge.UsableExact | cmd/mibee-nvr/tier_merge.go:271-292 | a window is probed through exactly when every file that can be seen probes |
| TierMerge.UnusableKept | cmd/mibee-nvr/tier_merge.go:257-304 | a window whose last row is too new, or with too few rows, is skipped; any other with a visible file that does not probe, or with no visible file, counts as failed; all these keep every row and file |
| TierMerge.FoldRunsProgress | cmd/mibee-nvr/tier_merge.go:306-378 | the folds of a window are its runs that were long enough and merged, in order; no row of another run goes; a dry run changes nothing |
| TierMerge.RunFailureExact | cmd/mibee-nvr/tier_merge.go:310-342 | a run that is too short or only planned changes nothing; one that cannot be merged keeps its rows, counts as failed, and costs whatever lies at its output path |
| TierMerge.FoldWindowProgress | cmd/mibee-nvr/tier_merge.go:257-384 | a window's rows leave the table only by being folded, or for having no file in a window that has some |
| TierMerge.RunConserves | cmd/mibee-nvr/tier_merge.go:235-384 | over the whole command a row leaves the table only because its run merged or its file was missing; a dry run changes nothing |
| TierMedia.RunKeepsMediaExact | cmd/mibee-nvr/tier_merge.go:315-378 | one run, in any state and with any answers: every row still there has the media it had if and only if the run removes or replaces the file of no row that stays, as its output or as a source that shares the path |
| TierMedia.FailedRefoldLosesProduct | cmd/mibee-nvr/tier_merge.go:335-341 | if folding an earlier product again fails in the merger, that product's file is gone and its row stays |
| TierMedia.GroupedListing | cmd/mibee-nvr/tier_merge.go:235-245 | grouping into windows keeps the listing that those results ask for |
| TierMedia.RefoldLosesProduct | cmd/mibee-nvr/tier_merge.go:315-378 | folding with an earlier product of the same path first, and successfully, leaves the new row without a file |
| TierSteps.CommandExact | cmd/mibee-nvr/tier_merge.go:235-384 | the whole command, whatever the paths and answers: every table entry and every file at its end is what its steps make of it, one after the other; a file is what the last step that touches it leaves |
| TierSteps.FoldsExact | cmd/mibee-nvr/tier_merge.go:306-378 | the command folds exactly the long enough, merged runs among its steps, in order, each with the size and the segments its merge gave |
| TierSteps.OldRowsExact | cmd/mibee-nvr/tier_merge.go:235-384 | a row the command found is there at the end if and only if no step takes it, and then has the media it had if and only if the last step that touches its file, if any, leaves that there |
| TierSteps.ProductExact | cmd/mibee-nvr/tier_merge.go:346-378 | every product has its row at the end, and under its path what its run left if and only if the last later step that touches that path, if any, leaves the same |
| TierSteps.LostExact | cmd/mibee-nvr/tier_merge.go:348-375 | the rows deleted without their segment being in any product are exactly those of merged runs that the merger left out, and those dropped for having no file |
| TierSteps.StepsSettled | cmd/mibee-nvr/tier_merge.go:271-305 | where products land on no other row's path than their first source's own, the steps are those of the files at the start |
| TierSteps.OnlyOutputs | cmd/mibee-nvr/tier_merge.go:315-341 | there, only a later run with the same output path touches a product |
| TierSteps.ListedRowExact | cmd/mibee-nvr/tier_merge.go:257-384 | there, a row the command found is left without its media if and only if the run that starts with it harms it |
| TierSteps.MediaKeptExact | cmd/mibee-nvr/tier_merge.go:235-384 | there, every row found and still in the table has the media it had if and only if no run harms the row it starts with |
| TierSteps.ProductHasExact | cmd/mibee-nvr/tier_merge.go:315-378 | every product's row is there with what was merged under its path if and only if the last step that touches that path, from its own run on, leaves that there |
| TierSteps.OwnSweep | cmd/mibee-nvr/tier_merge.go:346-378 | a product that its own run removes with the sources, and no later step touches, has a row and no file, against that condition |
| TierSteps.RefoldedWindow | cmd/mibee-nvr/tier_merge.go:315-378 | so does every window folded successfully from a source at its own output path |
| TierSteps.AllMediaExact | cmd/mibee-nvr/tier_merge.go:235-384 | whatever the paths: every row, found or made, has its media if and only if the last step that touches the file of a found row that stays leaves it, and the last that touches a product's path, its own run included, leaves the product |
| TierSteps.AllMediaSettled | cmd/mibee-nvr/tier_merge.go:235-384 | where the steps are settled by the files at the start: the same if and only if no run harms the row it starts with, and every product's path ends with the product |
| TierSteps.RepeatedHour | cmd/mibee-nvr/tier_merge.go:315-341 | two windows with one output path leave all found rows well, and the first product's row with the second's media, or with none if the second merge fails |
| TierSteps.RepeatedHourHappens | cmd/mibee-nvr/tier_merge.go:315-341 | there is such an input |
| TierWindows.NewestKept | cmd/mibee-nvr/tier_merge.go:257-264 | over the whole command on a listing in order of time: no listed row that ended less than the time to keep ago leaves the table, and no fold has one |
| TierWindows.OldWindowFolded | cmd/mibee-nvr/tier_merge.go:257-384 | every window that is old enough, with enough rows, whose visible files all probe at its turn: each run of it that is long enough and merges is among the folds, its rows are gone if they can be deleted, and its product has its row; rows without a file go too |
| TierWindows.OldWindowSettled | cmd/mibee-nvr/tier_merge.go:257-384 | where products land apart, the files at the start tell which windows those are |
| TierMerge.ProductSpansRun | cmd/mibee-nvr/tier_merge.go:349-358 | the product's row starts with the first and ends with the last row of its run, and spans them all |
| TierMerge.DeletionExact | cmd/mibee-nvr/tier_merge.go:426-444 | rows leave the table unless the delete fails outright, and their files the disk only after a delete that reports success; nothing else goes |
| TierMerge.Folder.DeleteTierRows | cmd/mibee-nvr/tier_merge.go:426-444 | rows go first, files only after their rows were reported deleted |
| TierMerge.Folder.FoldOneWindow | cmd/mibee-nvr/tier_merge.go:257-384 | one window's loop has the specified effect, and the totals stay the sums over the folds |
| TierMerge.Folder.RunTierMerge | cmd/mibee-nvr/tier_merge.go:235-384 | the command folds the windows in order as specified, and its row and byte totals are those of its folds |
| ChunkDelete.SortByDir | cmd/mibee-nvr/repair_delete_batch.go:66-73 | the sorted copy is a permutation ordered by directory |
| Ordering.KeysTogether | cmd/mibee-nvr/repair_delete_batch.go:66-73 | rows of one directory stand back to back |
| ChunkDelete.AllCounted | cmd/mibee-nvr/repair_delete_batch.go:77-141 | deleted and failed rows never exceed the candidates and make them up if and only if no poll sees the run cancelled |
| ChunkDelete.RunExact | cmd/mibee-nvr/repair_delete_batch.go:77-125 | exactly which rows a run takes up: those whose deletion is reported a success by their batch of 300 or, where that failed, by their own delete, before any cancellation; which are counted as failed, which leave the table, and which files go |
| ChunkDelete.AllDeleted | cmd/mibee-nvr/repair_delete_batch.go:77-125 | where every batch works and nothing is cancelled all rows are deleted, none failed, all sizes are freed, and the media that can be removed are gone with all below them |
| ChunkDelete.AllByRow | cmd/mibee-nvr/repair_delete_batch.go:88-105 | where every batch fails exactly the rows whose own delete succeeds are taken up, and the others counted as failed |
| ChunkDelete.CancelledBefore | cmd/mibee-nvr/repair_delete_batch.go:77-80 | rows from a chunk on before which the run is seen cancelled make no difference |
| ChunkDelete.CancelledInChunk | cmd/mibee-nvr/repair_delete_batch.go:92-102 | in a last chunk that is done row by row, rows make no difference from one on before which the run is seen cancelled |
| ChunkDelete.CoversExact | cmd/mibee-nvr/repair_delete_batch.go:117-124 | the media of a row are its path and its merge path, where it has them, and all below these |
| ChunkDelete.RunSound | cmd/mibee-nvr/repair_delete_batch.go:77-141 | under any failures: rows counted as deleted are gone from the table, freed bytes are their sizes, and a file is gone exactly if it is their media and its removal works |
| ChunkDelete.DoneAreCandidates | cmd/mibee-nvr/repair_delete_batch.go:77-141 | no row is taken up more often than it was listed |
| ChunkDelete.NoDanglingRow | cmd/mibee-nvr/repair_delete_batch.go:105-125 | a row still in the table keeps its media, unless another candidate's media covers it |
| ChunkDelete.RowByRowKeeps | cmd/mibee-nvr/repair_delete_batch.go:88-103 | the fallback keeps each row at most once, and only rows that left the table |
| ChunkDelete.Deleter.DeleteRowByRow | cmd/mibee-nvr/repair_delete_batch.go:88-103 | compacting the chunk over itself while reading it gives the rows that were deleted, in order, and touches no later chunk |
| ChunkDelete.Deleter.Reclaim | cmd/mibee-nvr/repair_delete_batch.go:105-125 | counts, bytes and files removed for a stretch of rows |
| ChunkDelete.Deleter.DeleteCandidatesInChunks | cmd/mibee-nvr/repair_delete_batch.go:62-141 | the chunk loop over the sorted array is the specified run over some order of the candidates |
| Containerize.FlipSafe | cmd/mibee-nvr/repair_mjpeg_containerize.go:179-190 | pointing the row at the container is safe if and only if it shows what the directory shows |
| Containerize.WorkspaceUnnamed | cmd/mibee-nvr/repair_mjpeg_containerize.go:100-197 | no row names the temporary file, nor the container before the flip, nor the directory after it |
| Containerize.RenameExact | cmd/mibee-nvr/repair_mjpeg_containerize.go:170-173 | whatever the rows' paths, the rename changes nothing that a row shows if and only if no row shows the temporary file, or a different file that it overwrites |
| Containerize.RemoveExact | cmd/mibee-nvr/repair_mjpeg_containerize.go:191-195 | whatever the rows' paths, removing a directory, wholly or in part, changes what a row shows if and only if the row still names it and nothing equal is left there |
| Containerize.RenameSafe | cmd/mibee-nvr/repair_mjpeg_containerize.go:170-173 | where rows' paths are apart, the rename changes nothing that a row shows |
| Containerize.NothingLost | cmd/mibee-nvr/repair_mjpeg_containerize.go:146-168 | a container with as many frames as were written has lost none |
| Containerize.ReadyExact | cmd/mibee-nvr/repair_mjpeg_containerize.go:100-177 | a row is ready for its update if and only if every step works, every frame is stored and no directory lies in the way |
| Containerize.FlipsExact | cmd/mibee-nvr/retry_busy.go:15-29 | the row flips if and only if the first answer that is not busy, within the attempts allowed, lets the update take effect |
| Containerize.SucceedsExact | cmd/mibee-nvr/repair_mjpeg_containerize.go:184-196 | and the conversion then is a success if and only if that answer is no error and the directory is kept or removed |
| Containerize.ListDirFrames | cmd/mibee-nvr/repair_mjpeg_containerize.go:202-218 | the JPEG files of a directory, each once, in lexical order |
| Containerize.FrameNamesExact | cmd/mibee-nvr/repair_mjpeg_containerize.go:202-218 | the files listed are those that are no directories and end as a JPEG's name does, none twice |
| Containerize.Converter.WriteFrames | cmd/mibee-nvr/repair_mjpeg_containerize.go:116-130 | the container gets the frames that are stored; all of them, in order, if the count is right |
| Containerize.Converter.RetryOnBusy | cmd/mibee-nvr/retry_busy.go:15-29 | the update is repeated only while the table is busy, and the row flips exactly if the last answer says so |
| Containerize.Converter.ContainerizeOne | cmd/mibee-nvr/repair_mjpeg_containerize.go:100-197 | at every step every row shows what it showed at the start; when exactly the cycle succeeds, when the row flips, what becomes of the directory, and that no other file is touched |
| Containerize.Converter.VisitRow | cmd/mibee-nvr/repair_mjpeg_containerize.go:58-95 | one row is passed over, skipped, planned or converted, and the report counts it so |
| Containerize.VisitedRow | cmd/mibee-nvr/repair_mjpeg_containerize.go:53-97 | after a run that is not dry: a visited row asked for, whose path is an ordinary directory with frames listed and where every step works, points at a container with all its frames; any other keeps its entry and its directory |
| Containerize.ReportExact | cmd/mibee-nvr/repair_mjpeg_containerize.go:53-97 | the numbers reported are those of the visited rows of other cameras, of those that are no directory, dark, not listed or without frames, of the others, and of those converted |
| Containerize.Converter.ContainerizeMJPEGDirs | cmd/mibee-nvr/repair_mjpeg_containerize.go:53-97 | the same over all rows, in order, up to a cancellation or the limit: each visited row is settled, the report is true, a dry run changes nothing, and rows and directories not visited are as they were |
| Decimate.CutsIncrease | internal/api/handlers_thermal.go:135-144 | for every rounding of the step's products within half an n-th, no bucket is empty and the buckets end with the rows |
| Decimate.BucketsCover | internal/api/handlers_thermal.go:135-146 | the buckets together are the rows, once each, in order |
| Decimate.ExactIsNear | internal/api/handlers_thermal.go:135-138 | the unrounded products are within the rounding that everything else allows |
| Decimate.ExactBucketSize | internal/api/handlers_thermal.go:135-141 | without rounding every bucket has rows / n readings, rounded down or up |
| Decimate.DecimateThermalPoints | internal/api/handlers_thermal.go:127-159 | empty and short inputs are returned as they are, else n points, each with its bucket's first minute and both extremes |
| Decimate.ChartPoint | internal/api/handlers_thermal.go:139-158 | each point has the first minute and the highest and lowest values of the readings from where its product of the step falls up to where the next one does |
| Decimate.ExtremesSurvive | internal/api/handlers_thermal.go:127-159 | a value is the maximum or minimum of the chart if and only if it is that of the readings |
| Decimate.MinutesIncrease | internal/api/handlers_thermal.go:127-159 | the chart runs forward in time if the readings do |
| RangeHeader.ParsedInside | internal/api/handlers_offload.go:174-216 | any header whatsoever is ignored, refused, or names a range inside the object, and exactly which are ignored |
| RangeHeader.EveryHeader | internal/api/handlers_offload.go:174-216 | every header there is: ignored, refused, or, blanks and signs and all, asking for exactly the range that is the answer |
| RangeHeader.ParsesSpelling | internal/api/handlers_offload.go:182-187 | however a range is spelled with blanks, the parser takes the two ends around the first dash |
| RangeHeader.AgreesExactly | internal/api/handlers_offload.go:174-216 | on every well formed range of every object the parser selects the positions the standard selects, if and only if the deciding number fits 64 bits |
| RangeHeader.BackwardsRefused | internal/api/handlers_offload.go:205-215 | a range that ends before it starts is refused |
| RangeHeader.HandleOffloadObject | internal/api/handlers_offload.go:105-164 | status, Content-Range, Content-Length and body agree with each other and with the parsed range |
| RangeHeader.RangeTextReadsBack | internal/api/handlers_offload.go:146 | the Content-Range field reads back to the range and the size of the object |
| RangeHeader.Resumes | internal/api/handlers_offload.go:197-203 | an open-ended request gets the rest of the object |
| RangeHeader.Reassembles | internal/api/handlers_offload.go:134-164 | consecutive ranges of any sizes reassemble the object |
| ViewerRegistry.SamplesAreLatest | internal/api/handlers_p2p_viewer.go:161-201 | in every run a viewer's samples are the last 240 of its reports since it joined, in order |
| ViewerRegistry.EntryIsLatest | internal/api/handlers_p2p_viewer.go:170-201 | in every run an entry shows its viewer's last report and the time of it |
| ViewerRegistry.ReportExact | internal/api/handlers_p2p_viewer.go:161-208 | what one report does to any registry: the viewer goes by its ID or else its address, its entry, who is evicted from eight or more, and who else stays |
| ViewerRegistry.NoneStale | internal/api/handlers_p2p_viewer.go:202-208 | nobody survives a report that comes more than 30 minutes after their last one |
| ViewerRegistry.LeastRecentlyUpdated | internal/api/handlers_p2p_viewer.go:161-208 | under an increasing clock the registry is exactly the viewers heard of within 30 minutes with fewer than eight heard of since |
| ViewerRegistry.EvictedRank | internal/api/handlers_p2p_viewer.go:181-190 | an evicted viewer has eight others more recent than it |
| ViewerRegistry.SizeExact | internal/api/handlers_p2p_viewer.go:161-208 | how many viewers there are after any report on any registry: only stale ones reduce the number, and a full registry that is stuck grows |
| ViewerRegistry.CapExact | internal/api/handlers_p2p_viewer.go:181-190 | a registry of at most eight passes eight if and only if it is full, the viewer is new, no entry is older than now and none has the empty key |
| ViewerRegistry.CapAlways | internal/api/handlers_p2p_viewer.go:181-190 | a whole run never holds more than eight if and only if no new viewer finds the registry full in that way |
| ViewerRegistry.NeverShrinks | internal/api/handlers_p2p_viewer.go:181-190 | while nobody is stale a report never leaves fewer viewers, so a registry past eight stays past eight |
| ViewerRegistry.CapCanBePassed | internal/api/handlers_p2p_viewer.go:181-190 | there is a run, nine reports at one instant, that leaves nine viewers |
| ViewerRegistry.RingHoldsLatest | internal/api/handlers_p2p_viewer.go:136-143 | the ring is the last 200 events in order |
| ViewerRegistry.Handler.RecordP2pViewerReport | internal/api/handlers_p2p_viewer.go:161-208 | one report takes the registry to a state the specification allows, whatever the order of visits |
| ViewerRegistry.Handler.RecordP2pLinkEvent | internal/api/handlers_p2p_viewer.go:136-143 | one event takes the ring to the ring with that event |
| Admission.AlwaysBalanced | internal/api/events_handler.go:31-36 | in every interleaving the counter of an address is its admitted and tentative requests, and at most six are admitted |
| Admission.ReturnsToZero | internal/api/events_handler.go:31-36 | the counter is zero once every request is over |
| Admission.TurnedAwayExactly | internal/api/events_handler.go:31-36 | a request is turned away exactly if admitted and tentative requests of its address number six or more |
| Admission.StepExact | internal/api/events_handler.go:31-36 | in any reachable state a step moves its own request on, and its address's counter by one, and nothing else |
| Admission.AllCanEnd | internal/api/events_handler.go:31-36 | from any reachable state all requests can come to their end |
| Admission.EventStreams.EnterRequest | internal/api/events_handler.go:31 | raising the counter and testing it is the specified atomic step |
| Admission.EventStreams.TurnRequestAway | internal/api/events_handler.go:32 | taking a refused request off the counter again is the specified atomic step |
| Admission.EventStreams.LeaveRequest | internal/api/events_handler.go:36 | so is taking a finished one off |

## Left out

- Floating-point rounding in polygons: coordinates are real numbers. In the decimation the rounded products are parameters, and everything holds for all of them near the exact ones.
- OggPages.StreamDemux: covers packets of at most 65025 bytes, the most one page can carry; with longer ones pages are lost (`OggPages.PagesReadBackExact`), and what a reader makes of the rest depends on the payload's bytes.
- OggPages.OversizeUnreadable: covers the lengths where the reader stops inside the segment table.
- LiveSession.EndExact: the listener's leaving and the cap of six hours are one step, a hang-up, that may come at any time; in which order the loop takes events that are ready together is left open.
- LiveSession.WavListener: assumes a declared length with room for the header; the lengths without are in `LiveSession.WavConsistentExact`.
- MergeSaga.RowFollowsExact: assumes a source ID without a slash; such an ID is not one directory.
- MergeSaga.MergeKeepsRecordings: assumes a source ID without a slash and a storage root that does not spell it (`MergeSaga.RowFollowsExact` says what happens otherwise); it is silent on rows of the target that spell the source ID, which `MergeSaga.TargetRowExact` covers.
- MergeSaga.CompleteExact: assumes the same, and that the walk visits every file of the source directory once; rows of the target that spell the source ID are in `MergeSaga.CompleteRows` and `MergeSaga.TargetRowExact`.
- MergeSaga.ArrivalExact: assumes that every move is done; a move that stops partway is in `MergeSaga.DiskFailureExact`.
- MergeSaga.Merge.Execute: a row has one path column (the merge path is rewritten in the same way), the other re-tagged tables and the final deletion of the source camera's row are left out, because they only repeat the re-tagging; the database copy for the rollback is a value; that the program restores the file while the database is open is not modelled.
- Download.RunSound: a sidecar is written whole or left emptied, because a write of a few digits that is torn in between is not modelled; removing files always works.
- Download.AttemptExact: assumes a server of one fixed file whose answers are true as far as they go; `Download.AttemptLeaves` and `Download.RunFirst` assume nothing.
- TierMerge.SplitUnique: runs are compared by what is hashed, not by its SHA-1 digest, because collisions of the digest are not the point.
- TierSteps.LostExact: which segments the merger includes is an answer of the outside; how it picks frames, and the frames it cuts from the head of a segment, are not modelled.
- TierSteps.MediaKeptExact: assumes distinct paths, new IDs for products, and products that land on no other row's path than their first source's own; `TierSteps.OldRowsExact` and `TierSteps.ProductExact` say without assumptions on paths what becomes of each row.
- TierSteps.ProductExact: assumes that the IDs given to products are new and differ.
- TierSteps.AllMediaExact: assumes rows filed under their IDs and new, different IDs for products; a found row counts as well kept if it had no file to begin with.
- TierWindows.NewestKept: assumes a listing of rows of the table, each once and in the order of their ends, and new, different IDs for products; the listing is asked for in the order of the starts, which is the same for the segments of one camera.
- TierWindows.OldWindowFolded: assumes new, different IDs for products; `TierWindows.OldWindowSettled` also that products land on no other row's path than their first source's own.
- Containerize.Converter.ContainerizeOne: a container is the list of frames in it and reading it back counts them truly, because the muxer and demuxer are not part of this model; frames that are altered without being lost are not noticed. A crash is the end of the process; writes reordered by a power failure are not modelled.
- Containerize.WorkspaceUnnamed: assumes that no row's path is another row's, or where another row's container goes (`Containerize.RenameExact`, `Containerize.FlipSafe` and `Containerize.RemoveExact` say for any paths which rows each step harms); directories nested in one another are not modelled.
- ChunkDelete.Deleter.DeleteCandidatesInChunks: the I/O budget, the pauses and the progress reports change nothing in the table or the files and are left out; removal of a tree takes any part of it.
- Wav.G711ToPCM: the decoding tables are a parameter, because they are not part of this model.
- Admission.AlwaysBalanced: assumes fewer than two thousand million requests of one address being turned away at once, beyond which the 32-bit counter wraps.
- ViewerRegistry.LeastRecentlyUpdated: assumes a strictly increasing clock; `ViewerRegistry.CapExact` says what holds without.
- The zone store (adding, removing and updating zones), audit ring, HTTP handlers, routing, JSON, flags, usage texts, logging, authentication and the web interface: easy members only.
- Sleeping, back-off times and timers: their outcomes are among the answers of the outside.
