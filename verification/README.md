# Verification models of the mower's codecs, protocols and rewriters

This project models the parts of the mower software whose correctness depends on whole runs rather than on one
function body, and proves what each of them promises:

* the occupancy-grid delta protocol between the web server and the browser (`GridDelta`, `GridBrowser`,
  `GridProtocol`): a server that numbers full frames and sparse patches, a browser that applies them in place, and
  a network that loses, reorders and duplicates;
* the serialize/deserialize code that the rosserial header generator emits (`RosCodec`, `RosReading`), as methods over one byte
  array, with the string decoder that shifts text left inside the receive buffer;
* the incremental byte parsers: UBX frames (`UbxChecksum`, `UbxScanner`, `ProbeClock`), ITM packets and their text
  streams (`ItmParser`, `ItmStream`, `ItmPackets`), and container log lines (`LogLines`);
* the correction tracker of the GNSS bridge (`Corrections`) and the statuses it publishes (`CorrectionStatus`);
* the blackbox subscription loop and its configuration writers (`Reconcile`);
* the line-splicing rewriters: the migration of a YAML file (`LinePatch` for lists of lines, `YamlLine` for single
  ones, `Migration` and `MigrationText` for the whole, `YamlComment` for the comments it keeps) and the controller-block splice (`Splice`), over a few string
  operations (`Strings`);
* searches and geometry: nested-map lookups (`YamlTree`), the distance to a path (`Polyline`), the derived
  navigation limits (`NavParams`), and the wire-version guard (`VersionGuard`).

Objects whose methods update fields are classes, loops are methods with invariants, and each method is tied to a
specification function; the lemmas then prove what is promised about that function or about all runs of the
state machine.

## What does not hold as written

* **Resubscribing to a grid.** A new subscription starts numbering from 1 again (`gui/pkg/api/mowglinext.go:545-549`).
  Unsubscribing the last listener and disconnecting forget the grid
  (`gui/web/src/hooks/multiplexedSocket.ts:208`, `:308-309`), but hiding and showing the tab resubscribes without
  forgetting it (`:132-141`), and nothing cuts off frames of the old subscription that are still under way. So the
  claim that a wrong picture can never persist (`gui/pkg/api/grid_delta.go:24-27`) holds within one subscription
  (`GridProtocol.NeverAWrongPicture`), and over runs that mix kinds of resubscription exactly when each kind forgets
  the old grid and cuts off the old frames (`GridProtocol.SafeExactlyWhenForgottenAndFenced`);
  `KeepingTheGridIsUnsafe` and `KeepingTheFramesIsUnsafe` give the runs that break it. A wrong picture is still
  repaired by the next full frame.
* **Damaged UBX lengths.** Any other damaged byte behind a frame's preamble, and any swap of two different neighbours
  that touches neither preamble nor length, makes the scan skip the frame. One damaged length byte need not: the scan
  can accept a message nobody sent (`UbxScanner.CorruptedLengthCanBeAccepted`: class 1, id 2, payload 3, 10, its length read as 0). It does
  so exactly when the announced bytes are there and the checksum over them is the two bytes behind them
  (`UbxScanner.CorruptedLengthIsAcceptedExactly`), which for a shorter length depends on the message alone
  (`UbxScanner.ShorterLengthDependsOnTheMessage`).
* **Time of week.** `itow_to_unix` counts weeks from the Unix epoch, a Thursday, while GPS weeks start on Sunday. It
  never answers the measured moment, whatever the reference (`ProbeClock.NeverTheMeasuredMoment`). With a reference
  less than half a day after the measured moment and less than six and a half days before it, as when the receive
  time is passed, the answer is exactly three days early, and but for the ends of that window only then
  (`ProbeClock.AlwaysThreeDaysEarly`); elsewhere it is off by three days and a number of whole weeks, the nearest
  such moment to the reference (`ProbeClock.NearestToThreeDaysEarly`).
* **ITM payload size.** In `2**(header & 0x03 - 1)` the subtraction binds first, so the sizes are 1, 4, 4 where the
  ARMv7-M Architecture Reference Manual, Appendix D4, has 1, 2, 4 (`ItmParser.SizesAgreeExceptTwo`).
* **Healthy beside stale.** A `rtcm.stream_stale` entry makes the flow stale while the semantic status can still be
  healthy (`CorrectionStatus.HealthyBesideStaleFlow`); beside a healthy status the flow is stale exactly with such an
  entry (`CorrectionStatus.StatusesAgree`).
* **YAML values.** Migrating twice equals migrating once exactly for values that read as set, or are non-empty, end
  in no blank and hold no `#` (`Migration.IdempotentExactlyWhenStable`). Rewriting keeps the comment a
  comment, to a YAML reader, exactly when in the old line a blank precedes the first `#` and something other than
  blanks stands between the colon and it (`YamlComment.CommentStandsApartExactly`). It is glued to the new value when
  the key had no value (`YamlComment.CommentGluedToValue`: `key: # c`) and when the `#` stood directly behind an unset
  value (`YamlComment.HashGluedToValue`: `key: 0#x`); an ordinary migration rewrites both.
* **Version guard.** `--check` does not compare the baseline's version, so after a bump that was not followed by a
  refresh it can pass two different wires under one version; requiring the baseline to be of the current version is
  exactly what is missing (`VersionGuard.CheckedWiresAgreeExactlyWhenStrict`).
* **Plain number lookup.** `extractYAMLFloat` reads an `int64` or `uint64` as 0, where `dockPoseValue` reads the
  number (`YamlTree.Compare`).
* **Disks.** The inscribed disk lies inside the footprint exactly when the chassis centre is off the axis by at most
  half the chassis length and the margin (`NavParams.FootprintDisksNestExactly`).

## Model

| member | source | states |
|---|---|---|
| `GridDelta.GridDelta.Next` | gui/pkg/api/grid_delta.go:86-119 | The fields and the frame move by the server step that the next two rows describe |
| `GridDelta.PatchExactlyWhenSmallAndDue` | gui/pkg/api/grid_delta.go:94-118 | A grid with cells goes out as a patch if and only if the last grid has its size, resolution and origin, fewer than 30 patches went before and at most a quarter of the cells differ, whatever header and load time say; else whole; always under the next number |
| `GridDelta.NothingWithoutCells` | gui/pkg/api/grid_delta.go:88-90 | An undecodable message or an empty grid changes nothing and sends nothing |
| `GridDelta.ResyncSendsTheLastGrid` | gui/pkg/api/grid_delta.go:122-131 | The last grid, whole, under the next number, and a fresh patch budget; nothing before the first grid |
| `GridDelta.GridDelta.Remember` | gui/pkg/api/grid_delta.go:77-82 | The server's picture becomes the new grid and its numbering stays |
| `GridDelta.GridDelta.AnswerResync` | gui/pkg/api/grid_delta.go:122-131 | The last grid goes out in full under the next number and the patch budget starts anew; nothing before the first grid |
| `GridDelta.CollectChanges` | gui/pkg/api/grid_delta.go:98-106 | The loop with its moving previous index yields the gaps and values of exactly the changed indices |
| `GridDelta.ChangedIsExact` | gui/pkg/api/grid_delta.go:100-105 | The listed indices are strictly increasing, in range, and include an index if and only if its cell differs |
| `GridDelta.ChangedCount` | gui/pkg/api/grid_delta.go:107 | Their number is the number of differing cells, so the quarter test counts cells |
| `GridDelta.PatchListsExactlyTheChanges` | gui/pkg/api/grid_delta.go:97-113 | A patch's gaps decode to exactly the differing cells, with the new values, and touch at most a quarter of the grid |
| `GridDelta.PatchBudget` | gui/pkg/api/grid_delta.go:32-37 | From any server state the leading patches and those already sent since the last full frame are at most 30 together |
| `GridDelta.AtMost30PatchesInARow` | gui/pkg/api/grid_delta.go:97-118 | In every run, whatever arrives, no 31 consecutive frames are all patches |
| `GridBrowser.Browser.ApplyGridPatch` | gui/web/src/hooks/multiplexedSocket.ts:401-422 | Walking the gaps in place leaves the state of the specified client: the patched grid, or no grid and at most one request |
| `GridBrowser.Browser.RememberGrid` | gui/web/src/hooks/multiplexedSocket.ts:391-398 | The full grid is held under its number and the wait for it ends |
| `GridBrowser.Browser.RequestFullGrid` | gui/web/src/hooks/multiplexedSocket.ts:424-429 | The held grid goes, and a resync is asked for only if none is outstanding |
| `GridBrowser.Browser.OnFrame` | gui/web/src/hooks/multiplexedSocket.ts:391-429 | Each received frame moves the browser exactly one step of the specified client |
| `GridBrowser.WalkFollowsIndices` | gui/web/src/hooks/multiplexedSocket.ts:409-417 | Walking the differences of an increasing list of indices writes the new values at exactly those indices and never leaves the grid |
| `GridBrowser.PatchReachesTheNewGrid` | gui/web/src/hooks/multiplexedSocket.ts:401-422 | A server patch between two grids, applied to a picture of the first, gives a picture of the second under the new number |
| `GridBrowser.UnfitPatchIsDropped` | gui/web/src/hooks/multiplexedSocket.ts:402-416 | A patch for another number, of unequal lists, or whose gaps ever lead outside the grid drops the grid and asks for a full one unless that was done |
| `GridBrowser.WalkReaches` | gui/web/src/hooks/multiplexedSocket.ts:409-416 | The cursor stands at the sum of the gaps so far, inside the grid at every step |
| `GridBrowser.OneRequestPerGap` | gui/web/src/hooks/multiplexedSocket.ts:424-429 | Until a full frame comes a waiting browser asks for nothing, and any other asks once exactly when it ends up waiting |
| `GridBrowser.RequestsAreAnswered` | gui/web/src/hooks/multiplexedSocket.ts:391-429 | Over any frames at all, requests exceed full frames by at most the one outstanding |
| `GridBrowser.FullFrameEndsTheWait` | gui/web/src/hooks/multiplexedSocket.ts:391-398 | After any history a full frame leaves the browser holding that grid with no request outstanding |
| `GridProtocol.RunKeepsInv` | gui/pkg/api/grid_delta.go:86-131 | Every run keeps: each packet in flight describes the server's own history, and the held picture is the one the server had under that number |
| `GridProtocol.NeverAWrongPicture` | gui/pkg/api/grid_delta.go:24-27 | Under any loss, reordering and duplication, the grid held under a number is the grid the server had under it |
| `GridProtocol.MatchingPatchAlwaysFits` | gui/web/src/hooks/multiplexedSocket.ts:401-422 | In every such run a patch in flight can be applied if and only if its base is the number held; the range check never fires |
| `GridProtocol.SafeExactlyWhenForgottenAndFenced` | gui/pkg/api/mowglinext.go:534-579 | All runs that mix the given kinds of resubscription at any time are safe if and only if every kind forgets the old grid and cuts off the old frames |
| `GridProtocol.KeepingTheGridIsUnsafe` | gui/web/src/hooks/multiplexedSocket.ts:132-144 | A run that shows a wrong picture when resubscribing keeps the old grid |
| `GridProtocol.KeepingTheFramesIsUnsafe` | gui/pkg/api/mowglinext.go:571-579 | A run that shows a wrong picture when frames of the old subscription still arrive |
| `GridProtocol.StaysInStep` | gui/pkg/api/grid_delta.go:86-131 | Once the browser holds the current grid, in-order delivery keeps it current |
| `GridProtocol.LosslessDeliveryRecovers` | gui/pkg/api/grid_delta.go:86-131 | From any browser state, in-order delivery of frames that include a full one ends with the server's current grid |
| `GridProtocol.RecoversWithin31Frames` | gui/pkg/api/grid_delta.go:32-37 | After any run whatever, 31 frames in order bring the browser to the current grid |
| `GridProtocol.AnsweredRequestRecovers` | gui/pkg/api/mowglinext.go:621-630 | After any run, a waiting browser has a request under way; once the server with a grid handles it and that one answer arrives, both ends are in step |
| `GridProtocol.WaitingIsAnswered` | gui/pkg/api/grid_delta.go:122-131 | Where resubscriptions forget and cut off, a waiting browser's server always has a grid to answer with |
| `RosCodec.Serialize` | firmware/scripts/sync_ros_lib.py:108-166 | Byte by byte: number bytes are the shifted and masked ones, a text stands bare behind its four length bytes, an array behind its count; the offset behind is returned and the rest of the buffer left alone |
| `RosCodec.EncodedLayout` | firmware/scripts/sync_ros_lib.py:306-314 | Every part of an encoding, at any depth, lies behind the parts before it, and every byte where the layout says |
| `RosCodec.SerializeMany` | firmware/scripts/sync_ros_lib.py:306-314 | The same for the fields of a message, or the elements of an array, one after the other |
| `RosCodec.WriteNumber` | firmware/scripts/sync_ros_lib.py:152-162 | The shifted and masked bytes are the number's little-endian form, written nowhere else |
| `RosCodec.Deserialize` | firmware/scripts/sync_ros_lib.py:169-228 | The in-place decoder's buffer, pointers and offset are those of the decoding function |
| `RosCodec.DeserializeMany` | firmware/scripts/sync_ros_lib.py:316-324 | The same for fields or elements in sequence |
| `RosCodec.OrShiftedAdds` | firmware/stm32/ros_usbnode/src/ros/ros_lib/ros/msg.h:199-200 | Or-ing in a number shifted past all bits of another adds it |
| `RosCodec.ReadNumber` | firmware/stm32/ros_usbnode/src/ros/ros_lib/ros/msg.h:194-201 | Or-ing in byte after byte, each shifted to its place, gives the little-endian number |
| `RosCodec.ShiftText` | firmware/scripts/sync_ros_lib.py:192-195 | The text moves one byte down over the last length byte, gets its terminator, and nothing else changes |
| `RosCodec.LittleEndianRoundTrip` | firmware/stm32/ros_usbnode/src/ros/ros_lib/ros/msg.h:186-201 | Reading back the written bytes gives the number, for every number that fits the width |
| `RosCodec.ByteOf` | firmware/scripts/sync_ros_lib.py:160-161 | Byte i of the little-endian form is the number shifted right by 8i and masked |
| `RosCodec.MirrorsSurvive` | firmware/scripts/sync_ros_lib.py:188-197 | A decoded value still reads the same after any change outside its own bytes |
| `RosCodec.MirrorsAreShown` | firmware/scripts/sync_ros_lib.py:196 | Following the kept pointers to their terminators shows the value that was sent |
| `RosCodec.DecodeInvertsEncode` | firmware/scripts/sync_ros_lib.py:108-228 | For every supported schema and value, decoding an encoding in place consumes just its bytes, changes no others, and leaves every string readable |
| `RosCodec.DecodeInvertsEncodeMany` | firmware/scripts/sync_ros_lib.py:306-324 | The same for runs of fields or elements: later ones never clobber earlier strings |
| `RosCodec.EncodingIsUniquelyDecodable` | firmware/scripts/sync_ros_lib.py:306-324 | Equal bytes, whatever follows them, mean equal values: no encoding is a prefix of another of its type |
| `RosReading.AcceptedIsEncoded` | firmware/scripts/sync_ros_lib.py:169-228 | What the decoder accepts with texts free of NULs is exactly the encoding of the value it shows: nothing else decodes |
| `RosReading.DecodeReads` | firmware/scripts/sync_ros_lib.py:169-228 | Decoding in place succeeds exactly when the untouched buffer can be read, ends where that ends, and touches nothing outside |
| `RosReading.ReadIsEncoding` | firmware/scripts/sync_ros_lib.py:169-228 | Whatever can be read without a NUL in its texts is the encoding of what is read |
| `RosCodec.Relay` | firmware/scripts/sync_ros_lib.py:306-324 | Sent, decoded in place and read back from the mutated buffer, every value arrives, and both sides advance alike |
| `UbxChecksum.Checksum` | ros2/scripts/serial_latency_probe.py:51-57 | The loop of running sums computes the two sums modulo 256 |
| `UbxChecksum.PrefixSumsAreWeighted` | ros2/scripts/f9p_set_nav_prio.py:20-26 | The second sum weights each byte by its distance from the end |
| `UbxChecksum.ChecksumByteByByte` | ros2/scripts/f9p_set_nav_prio.py:20-26 | Both sums start at 0; each byte adds to the first, and the first to the second, modulo 256 |
| `UbxChecksum.SingleByteChangeIsDetected` | ros2/scripts/f9p_set_nav_prio.py:20-26 | Changing any single byte changes the first checksum byte |
| `UbxChecksum.SwapDetectionIsExact` | ros2/scripts/f9p_set_nav_prio.py:20-26 | Swapping two bytes keeps the checksum if and only if distance times difference is a multiple of 256 |
| `UbxChecksum.AdjacentSwapIsDetected` | ros2/scripts/f9p_set_nav_prio.py:20-26 | Swapping two different neighbours is always detected |
| `UbxChecksum.BuildUbx` | ros2/scripts/f9p_set_nav_prio.py:29-31 | Builds preamble, header, payload and checksum; a payload over 65535 bytes is refused, as packing its length is |
| `UbxChecksum.FrameLooks` | ros2/scripts/f9p_set_nav_prio.py:29-31 | 0xB5, 0x62, class, id, length with its low byte first, payload, and the checksum of all but preamble |
| `UbxScanner.JudgeFirst` | ros2/scripts/serial_latency_probe.py:80-121 | One turn of the scan on the real offsets: wait and trim, accept a frame, or skip a preamble |
| `UbxScanner.Drain` | ros2/scripts/serial_latency_probe.py:79-121 | The inner loop, each continuing turn shortening the buffer, computes one pass over it |
| `UbxScanner.TurnIsStable` | ros2/scripts/serial_latency_probe.py:86-121 | A frame that could be judged is judged the same when more bytes follow |
| `UbxScanner.OnlyLiveMatters` | ros2/scripts/serial_latency_probe.py:80-85 | Bytes before the first preamble, but for a final half preamble, never matter; the trim to 4096 loses nothing |
| `UbxScanner.NoPreambleKeepsTheTail` | ros2/scripts/serial_latency_probe.py:80-85 | Without 0xB5 0x62 anywhere nothing is accepted and the last 4096 bytes are kept |
| `UbxScanner.ScanSplits` | ros2/scripts/serial_latency_probe.py:71-121 | Scanning in two reads accepts the frames of one scan and leaves bytes that will go on alike |
| `UbxScanner.Probe` | ros2/scripts/serial_latency_probe.py:71-121 | However the stream is cut into reads, the frames accepted are those of one pass over all of it |
| `UbxScanner.FrameAfterGarbage` | ros2/scripts/serial_latency_probe.py:100-118 | A built frame behind preamble-free garbage is accepted and the scan goes on right behind it |
| `UbxScanner.ScanInvertsBuild` | ros2/scripts/f9p_set_nav_prio.py:29-31 | Any built frames with preamble-free garbage around them come back as exactly those frames, in order |
| `UbxScanner.JudgedExactly` | ros2/scripts/serial_latency_probe.py:86-121 | What any four header bytes and any bytes behind them are taken for: awaited, accepted or skipped, by the announced length and the checksum over it |
| `UbxScanner.KeptLengthIsJudged` | ros2/scripts/serial_latency_probe.py:100-121 | Damaged bytes whose preamble and length survived are judged by themselves, whatever follows |
| `UbxScanner.CorruptedFrameIsRejected` | ros2/scripts/serial_latency_probe.py:106-121 | Changing one byte outside preamble and length makes the scan skip that frame's preamble |
| `UbxScanner.AdjacentSwapInFrameIsRejected` | ros2/scripts/serial_latency_probe.py:106-121 | So does swapping two different neighbours outside preamble and length, the checksum bytes and the last payload byte included |
| `UbxScanner.CorruptedLengthIsAcceptedExactly` | ros2/scripts/serial_latency_probe.py:93-121 | A changed length byte: accepted if and only if the announced bytes are there and the checksum over them is the two bytes behind; what is then accepted, and what is skipped or awaited otherwise |
| `UbxScanner.ShorterLengthDependsOnTheMessage` | ros2/scripts/serial_latency_probe.py:93-106 | Whether a shortened length passes depends on the message alone, not on what follows |
| `UbxScanner.CorruptedLengthCanBeAccepted` | ros2/scripts/serial_latency_probe.py:93-118 | A frame and one wrong length byte for which a message nobody sent is accepted, whatever follows |
| `UbxScanner.LengthSwapIsAcceptedExactly` | ros2/scripts/serial_latency_probe.py:93-121 | A swap that touches the length is accepted if and only if the header it makes passes on the bytes behind it |
| `ProbeClock.NearestMatchingTime` | ros2/scripts/serial_latency_probe.py:41-48 | The result has the wanted time of week in the script's week count, within half a week of the reference, and is the only such time |
| `ProbeClock.NearestToThreeDaysEarly` | ros2/scripts/serial_latency_probe.py:41-48 | Fed the true time of week of any millisecond, with any reference, the answer is, of the moments whole weeks from three days early, the one less than half a week from the reference |
| `ProbeClock.NeverTheMeasuredMoment` | ros2/scripts/serial_latency_probe.py:41-48 | It is never the measured moment, whatever the reference |
| `ProbeClock.AlwaysThreeDaysEarly` | ros2/scripts/serial_latency_probe.py:109-112 | With a receive time up to half a day after the measured moment, or six and a half days before it, the answer is exactly three days early, and outside that window it is not |
| `ItmStream.Stream.Add` | firmware/stm32/ros_usbnode/swo_parser.py:43-57 | One character's effect on buffer and output, overflow at 1024 included |
| `ItmStream.Stream.AddAll` | firmware/stm32/ros_usbnode/swo_parser.py:59-61 | The loop is the fold of the single-character step |
| `ItmStream.AddCharsAppend` | firmware/stm32/ros_usbnode/swo_parser.py:59-61 | Feeding a text in two parts is feeding it at once |
| `ItmStream.NothingIsLost` | firmware/stm32/ros_usbnode/swo_parser.py:43-57 | Printed lines and buffer give back the input exactly; buffers hold at most 1024 characters and no newline; overflows print 1025 |
| `ItmStream.ShortLineIsPrinted` | firmware/stm32/ros_usbnode/swo_parser.py:52-55 | A line of fewer than 1024 characters is printed whole, under the stream's id and header |
| `ItmStream.LongLineIsBroken` | firmware/stm32/ros_usbnode/swo_parser.py:43-50 | After 1024 characters the next one, a newline too, is printed with them, behind a warning |
| `ItmStream.PrintedUnderItsName` | firmware/stm32/ros_usbnode/swo_parser.py:45-53 | Whatever a stream prints carries its id and header |
| `ItmParser.SizesAgreeExceptTwo` | firmware/stm32/ros_usbnode/swo_parser.py:118-124 | The parser's payload size is the protocol's if and only if the packet is not a two-byte one |
| `ItmParser.ParseSplits` | firmware/stm32/ros_usbnode/swo_parser.py:106-135 | Parsing in two chunks gives the same buffers, leftover bytes and lines, or the same failure, as parsing at once |
| `ItmParser.StreamsAreSeparate` | firmware/stm32/ros_usbnode/swo_parser.py:125-135 | Each stream ends as if it alone had been fed the characters addressed to it |
| `ItmParser.NoCharacterIsLost` | firmware/stm32/ros_usbnode/swo_parser.py:43-135 | What a stream printed and buffers accounts for every character addressed to it |
| `ItmPackets.PacketsReachTheirStreams` | firmware/stm32/ros_usbnode/swo_parser.py:106-135 | Packets written as header 8 * id + 1 and one character, or 8 * id + 2 or 3 and four, with noise between them: every registered stream is fed exactly the characters sent to it, and nothing is left over |
| `ItmPackets.CutPacketWaits` | firmware/stm32/ros_usbnode/swo_parser.py:127-129 | A packet cut short stays in the buffer untouched |
| `ItmPackets.ForeignByteFails` | firmware/stm32/ros_usbnode/swo_parser.py:131-132 | A byte from 128 on, sent to a registered stream, ends the program |
| `ItmParser.StreamManager.AddStream` | firmware/stm32/ros_usbnode/swo_parser.py:84-85 | Registers the stream under its id and touches nothing else |
| `ItmParser.StreamManager.Forward` | firmware/stm32/ros_usbnode/swo_parser.py:131-133 | A payload reaches only the stream it names; other bytes than ASCII are a failure |
| `ItmParser.JudgeFirst` | firmware/stm32/ros_usbnode/swo_parser.py:117-128 | The header test, the payload size and the slices decide between dropping a byte, waiting and a packet |
| `ItmParser.StreamManager.TakePacket` | firmware/stm32/ros_usbnode/swo_parser.py:131-135 | One packet taken leaves the rest of the same parse to do, or ends it in failure |
| `ItmParser.StreamManager.ConsumeAll` | firmware/stm32/ros_usbnode/swo_parser.py:116-135 | The loop leaves the buffers, leftover bytes and lines of one parse of the bytes at hand |
| `ItmParser.StreamManager.ParseItmBytes` | firmware/stm32/ros_usbnode/swo_parser.py:106-135 | Leftover bytes, stream buffers and printed lines are those of one pass over the old leftover and the new bytes |
| `ItmParser.StreamManager.ParseAll` | firmware/stm32/ros_usbnode/swo_parser.py:106-135 | Any chunking of a stream ends in the state of one pass over the whole |
| `LogLines.StreamLogLines` | gui/pkg/api/containers.go:208-233 | Hands on the finished lines up to the first refusal and returns the error that stopped it; an unfinished line is never handed on |
| `LogLines.Collect` | gui/pkg/api/containers.go:217-229 | The pending bytes are always the first 256 KiB of the open line |
| `LogLines.FinishedIsCutExactly` | gui/pkg/api/containers.go:217-230 | A line is cut to 256 KiB if and only if it was reassembled or short enough |
| `LogLines.OutputIsTheLinesCut` | gui/pkg/api/containers.go:208-233 | One line out per line in, in order, each its first 256 KiB |
| `LogLines.FragmentationDoesNotMatter` | gui/pkg/api/containers.go:176-182 | Two fragmentations of the same lines give the same output |
| `LogLines.EveryLineComesOut` | gui/pkg/api/containers.go:182-233 | Lines cut into any fragments come out one by one, in order, each as its first 262144 bytes |
| `Corrections.Tracker.ReplaceOwner` | sensors/gps/universal_gnss_topic_bridge.py:204-244 | Untouched without a status under the prefix or with a stamp older than the watermark; else a snapshot received now that shows the array, and the later stamp |
| `Corrections.Tracker.Update` | sensors/gps/universal_gnss_topic_bridge.py:246-261 | Both owners move by one array, each under its own prefix, to snapshots that show it status by status and pair by pair |
| `Corrections.ValueMapShowsPairs` | sensors/gps/universal_gnss_topic_bridge.py:143-150 | The map holds exactly the non-blank keys, each with the stripped value of its last pair |
| `Corrections.GatherShowsStatuses` | sensors/gps/universal_gnss_topic_bridge.py:215-222 | The entries are exactly the names under the prefix, each with message and values of the last status of that name |
| `Corrections.GatherShowsSources` | sensors/gps/universal_gnss_topic_bridge.py:219-221 | The sources are exactly the non-blank hardware ids under the prefix |
| `Corrections.StampOrder` | sensors/gps/universal_gnss_topic_bridge.py:198-202 | Stamps compare as seconds, then nanoseconds, and only the zero stamp counts as none |
| `Corrections.ContentsAreUnique` | sensors/gps/universal_gnss_topic_bridge.py:234-243 | An array determines the snapshot: one source means its entries, otherwise an invalid empty one |
| `Corrections.RepresentsExactly` | sensors/gps/universal_gnss_topic_bridge.py:215-225 | An array concerns an owner if and only if some status name starts with the prefix |
| `Corrections.PrefixesAreDisjoint` | sensors/gps/universal_gnss_topic_bridge.py:184-185 | No status belongs to both owners |
| `Corrections.MaxStampIsMax` | sensors/gps/universal_gnss_topic_bridge.py:227-232 | The maximum stamp bounds every stamp of the owner's arrays and is one of them |
| `Corrections.SnapshotIsLastThatCounts` | sensors/gps/universal_gnss_topic_bridge.py:204-244 | After any run the watermark is the maximum stamp and the snapshot is that of the last array that is unstamped or not below all earlier stamps |
| `Corrections.NoSnapshotWithoutOne` | sensors/gps/universal_gnss_topic_bridge.py:224-225 | There is no snapshot if and only if no array counted |
| `Corrections.UnrelatedArraysAreOmitted` | sensors/gps/universal_gnss_topic_bridge.py:176-182 | Arrays without an owner's prefix leave that owner untouched |
| `Corrections.NewestArrayWins` | sensors/gps/universal_gnss_topic_bridge.py:227-232 | With identifying stamps the contents are those of the newest array, whenever it came |
| `Corrections.OrderDoesNotMatter` | sensors/gps/universal_gnss_topic_bridge.py:179-182 | Two deliveries of the same arrays in any order end with the same contents and watermark |
| `CorrectionStatus.StatusesAgree` | sensors/gps/universal_gnss_topic_bridge.py:268-391 | Idle, not streaming and unavailable coincide; invalid flow means invalid semantic; healthy needs sound, fresh observations of one present station |
| `CorrectionStatus.HealthyBesideStaleFlow` | sensors/gps/universal_gnss_topic_bridge.py:320-324 | For any number parsers that read "7" as 7 and "0" as 0, a snapshot whose semantic status is healthy while its flow is stale |
| `CorrectionStatus.PublicMessage.Apply` | sensors/gps/universal_gnss_topic_bridge.py:417-481 | Every status and field is the one the current snapshots' entries tell, flags agree with them, and a healthy message carries a valid, non-empty summary of its own source |
| `CorrectionStatus.PublishedExactly` | sensors/gps/universal_gnss_topic_bridge.py:417-481 | For any current snapshots: transport, flow, semantic and forwarding status and every summary field, told from entry names and keys alone |
| `CorrectionStatus.TransportIsShown` | sensors/gps/universal_gnss_topic_bridge.py:269-283 | Failed, reconnecting, streaming, connected, connecting, disconnected: each exactly when its entry is there and none of those before it |
| `CorrectionStatus.FlowIsShown` | sensors/gps/universal_gnss_topic_bridge.py:313-327 | Each flow status exactly under its own condition on the entries |
| `CorrectionStatus.SemanticIsShown` | sensors/gps/universal_gnss_topic_bridge.py:330-391 | Each semantic status exactly under its own condition on the entries' keys |
| `CorrectionStatus.ForwardingIsShown` | sensors/gps/universal_gnss_topic_bridge.py:153-165 | Each forwarding status exactly for the messages that hold its words and none of those before |
| `CorrectionStatus.ObservationReads` | sensors/gps/universal_gnss_topic_bridge.py:286-304 | Every field of an observation is read from its own key |
| `CorrectionStatus.DiagnosticBoolExactly` | sensors/gps/universal_gnss_topic_bridge.py:113-121 | True and false are read in any mixture of cases, blanks aside, and nothing else is |
| `CorrectionStatus.CurrentExactly` | sensors/gps/universal_gnss_topic_bridge.py:263-266 | A snapshot of one source is used from its receipt until the timeout, and no other |
| `Strings.BlanksExactly` | sensors/gps/universal_gnss_topic_bridge.py:116 | Stripping takes tab to carriage return, the four separators and the space for blank |
| `Strings.StripExactly` | sensors/gps/universal_gnss_topic_bridge.py:143-150 | Stripping leaves the text without its blank ends and takes nothing else |
| `Strings.ContainsExactly` | sensors/gps/universal_gnss_topic_bridge.py:155-163 | A text holds a word if and only if something can stand before and behind it |
| `Strings.EndsWithExactly` | sensors/gps/universal_gnss_topic_bridge.py:155 | A text ends with a word if and only if something can stand before it |
| `CorrectionStatus.PublicMessage.ApplyForwarding` | sensors/gps/universal_gnss_topic_bridge.py:439-450 | Only forwarding changes, only with a current owner, the receiver before the caster, whose source is published; the flag is raised exactly for a known status |
| `CorrectionStatus.PublicMessage.ApplyNtrip` | sensors/gps/universal_gnss_topic_bridge.py:452-464 | The three statuses are those the snapshot's entries tell and cannot contradict each other or the acceptance; forwarding and summary stay |
| `CorrectionStatus.PublicMessage.ApplyMsm` | sensors/gps/universal_gnss_topic_bridge.py:394-415 | Nothing changes without an entry; with one only the summary and its source do, it looks sound exactly when the observation is, and its flag joins when it has a value |
| `CorrectionStatus.ExpiredContributesNothing` | sensors/gps/universal_gnss_topic_bridge.py:263-266 | Expired or invalid snapshots publish the same message as none |
| `CorrectionStatus.ExpiryIsForGood` | sensors/gps/universal_gnss_topic_bridge.py:263-266 | A snapshot that has expired is not current at any later time |
| `CorrectionStatus.PublishedIsConsistent` | sensors/gps/universal_gnss_topic_bridge.py:417-481 | In every published message flags, statuses and acceptance say the same thing, and other flags are kept |
| `CorrectionStatus.HealthyCarriesItsEvidence` | sensors/gps/universal_gnss_topic_bridge.py:466-475 | A healthy message carries a valid, non-empty summary from the same source |
| `Reconcile.StepKeepsInv` | gui/pkg/api/blackbox.go:83-129 | Every step keeps: a wake-up is due or the loop heads for the configured value, and subscriptions match its progress |
| `Reconcile.RunKeepsInv` | gui/pkg/api/blackbox.go:83-129 | So does every interleaving of writers and loop |
| `Reconcile.NoLostWakeUp` | gui/pkg/api/blackbox.go:200-219 | Whenever the loop is idle and no signal is due, it is attached exactly when recording is enabled, with just the accepted topics subscribed |
| `Reconcile.EnabledIsLastSaved` | gui/pkg/api/blackbox.go:200-214 | The configuration is what the last successful save wrote; a failed one leaves it alone |
| `Reconcile.AllTopicsAreServed` | gui/pkg/api/blackbox.go:90-127 | While every subscription is accepted, an idle loop with no wake-up due serves all topics when the last save enabled recording, and none otherwise |
| `Reconcile.RunsAreBounded` | gui/pkg/api/blackbox.go:83-129 | Without new writers no run exceeds a fixed bound, waits for the mutex included |
| `Reconcile.SettlesInAgreement` | gui/pkg/api/blackbox.go:76-129 | A run that can go no further has reached agreement: neither the blocking start-up send nor the mutex the loop shares with the writers deadlocks short of it |
| `Reconcile.Subscriber.OnWakeUp` | gui/pkg/api/blackbox.go:85-128 | One wake-up leaves the subscriptions alone or passes over all topics, and ends attached as configured |
| `Reconcile.AttachExactly` | gui/pkg/api/blackbox.go:90-126 | Switching on adds exactly the accepted topics and notes exactly the declined ones; switching off drops every topic |
| `Reconcile.TopicStepsAreAttach` | gui/pkg/api/blackbox.go:90-126 | With no writer in the way, the machine's topic steps in sequence do what the loop body does |
| `YamlLine.MatchInverts` | install/scripts/migrate_openmower.py:236-239 | The pattern takes a line put together from indent, key and tail apart into the same pieces |
| `YamlLine.MatchesExactly` | install/scripts/migrate_openmower.py:236-239 | A line matches if and only if blanks or tabs, a key of letters, digits and underscores, and a colon begin it, and is taken apart there |
| `YamlLine.BareCountsExactly` | install/scripts/migrate_openmower.py:274-275 | Of the values with nothing to strip exactly "", 0, 0.0, 0.000000, false and False count as unset |
| `YamlLine.QuotesDoNotCount` | install/scripts/migrate_openmower.py:274 | Quotes of either kind around a value make no difference to that |
| `YamlLine.SolidTail` | install/scripts/migrate_openmower.py:236-239 | A value that ends in no blank and holds no `#` is read back whole and leaves its comment as it was |
| `YamlLine.TailValue` | install/scripts/migrate_openmower.py:236-239 | Up to blanks, the value read is what stands before the first `#` |
| `YamlLine.WrittenValueReads` | install/scripts/migrate_openmower.py:269-276 | Whether a written value reads as set depends on the value alone, whatever comment follows |
| `YamlLine.RewrittenReadsBack` | install/scripts/migrate_openmower.py:247-254 | A rewritten line reads back the new value with its old indent and comment |
| `Migration.YamlPatch` | install/scripts/migrate_openmower.py:242-266 | Rewrites the first line with the key, or adds one under the first section header, and changes no other line |
| `LinePatch.InsertUnderHeader` | install/scripts/migrate_openmower.py:256-266 | The copying loop adds one line, behind the first header only |
| `Migration.YamlValueIsSet` | install/scripts/migrate_openmower.py:269-276 | Judges the first line with the key; no such line means unset |
| `Migration.MigrateOne` | install/scripts/migrate_openmower.py:346-352 | One setting: kept exactly when it is set and force is off, else patched |
| `Migration.RunMigration` | install/scripts/migrate_openmower.py:337-373 | The loop's file and its report of kept settings are those of applying the settings in order |
| `Migration.KeptIsReported` | install/scripts/migrate_openmower.py:347-350 | Reported as kept are exactly the settings whose key was set in the original file, and with force none |
| `Migration.OtherLinesStay` | install/scripts/migrate_openmower.py:335-373 | No migration loses, changes, moves or adds a line of another key |
| `Migration.SectionAlone` | install/scripts/migrate_openmower.py:256-266 | A file with only an indented section gets the key in its second line, four columns further in |
| `LinePatch.PatchedLine` | install/scripts/migrate_openmower.py:242-266 | After a patch the key's first line is the old one rewritten, a new one, or still missing without a section |
| `LinePatch.KeepsOtherKeys` | install/scripts/migrate_openmower.py:346-351 | Applying a setting leaves the line of every other key alone |
| `LinePatch.KeepsHeader` | install/scripts/migrate_openmower.py:256-266 | Applying a setting leaves the first section header alone |
| `LinePatch.SettledExactly` | install/scripts/migrate_openmower.py:346-351 | Applying a setting changes nothing if and only if its key's line reads as set or is already as written, or there is neither line nor section |
| `LinePatch.TwiceIsOnce` | install/scripts/migrate_openmower.py:335-373 | For any line format whose written lines carry their key, spare the headers and are settled, a second migration changes nothing |
| `LinePatch.KeysGetTheirLine` | install/scripts/migrate_openmower.py:335-373 | After a whole migration an unset key's line, and with force any key's, is the one patching the original file alone would give it |
| `LinePatch.ForeignLinesStay` | install/scripts/migrate_openmower.py:242-266 | Lines that carry none of the keys are all there afterwards, unchanged and in order, and none is added |
| `Migration.YamlIsLawful` | install/scripts/migrate_openmower.py:236-266 | Written YAML lines carry their key, and no line with it is a section header |
| `Migration.StableValueIsStable` | install/scripts/migrate_openmower.py:250-276 | For values that read as set or are written back as they were, every line written is settled |
| `Migration.MigratingTwiceIsOnce` | install/scripts/migrate_openmower.py:335-373 | For different keys and stable values, a second migration changes nothing |
| `Migration.SetKeysKeepTheirLine` | install/scripts/migrate_openmower.py:347-350 | A key the operator has set keeps its line through any migration |
| `Migration.PatchedKeysReadBack` | install/scripts/migrate_openmower.py:346-352 | After a whole migration every unset key, and with force every key, reads its new value: with its old indent and comment where it had a line, else four columns further in than the first section header; without a section it has none |
| `Migration.IdempotentExactlyWhenStable` | install/scripts/migrate_openmower.py:242-276 | Over all files, applying a setting twice is applying it once if and only if its value is stable |
| `YamlComment.CommentStandsApartExactly` | install/scripts/migrate_openmower.py:247-254 | For every matching line and solid value, the rewritten line's first `#` stands behind a blank if and only if the pattern took one along, and that if and only if the old line had a blank before its first `#` and text between the colon and it |
| `YamlComment.OldLineExactly` | install/scripts/migrate_openmower.py:236-239 | Whether the comment group begins with a blank, read off the old line |
| `YamlComment.CommentGluedToValue` | install/scripts/migrate_openmower.py:250-253 | An ordinary migration of a key with a comment and no value leaves value and comment without a blank between them |
| `YamlComment.HashGluedToValue` | install/scripts/migrate_openmower.py:250-253 | So does one of a key whose unset value has a `#` directly behind it |
| `MigrationText.LinesOfText` | install/scripts/migrate_openmower.py:246 | Joined lines split back into the same lines |
| `MigrationText.TextOfLines` | install/scripts/migrate_openmower.py:246-254 | A newline-terminated text is the join of its lines |
| `MigrationText.MigratingTheFileTwiceIsOnce` | install/scripts/migrate_openmower.py:319-373 | Migrating a newline-terminated file twice writes the same file as once, still terminated |
| `Polyline.DistanceToSegment` | ros2/src/e2e_test_no_lidar.py:251-261 | For a segment shorter than 1e-6 the squared distance to its start; for any other the least over its points, attained |
| `Polyline.LeastSegment` | docker/logs/mow_sessions/xtrack.py:69-82 | The loop keeps the least segment distance, or the start value |
| `Polyline.MinDist2` | docker/logs/mow_sessions/xtrack.py:67-82 | The start value for fewer than two points; else at most that, attained, and not above the distance of any point of an ordinary segment |
| `Polyline.ClampedVertexIsLeast` | docker/logs/mow_sessions/xtrack.py:78-79 | The clamped quotient minimises the distance parabola over the whole segment |
| `Polyline.FootIsNearest` | ros2/src/e2e_test_no_lidar.py:258-261 | No point of the segment is nearer than its clamped foot |
| `Polyline.ShortSegmentError` | ros2/src/e2e_test_no_lidar.py:255-256 | Taking a short segment for its start errs by at most the segment's length |
| `Polyline.NearestIsTheDistance` | ros2/src/e2e_test_no_lidar.py:245-264 | The answer is the distance of a path point or the start value; no ordinary segment has a nearer point, no short one a point nearer by more than its length |
| `Splice.SpliceLines` | docker/logs/mow_sessions/splice_dwb_source.py:75-91 | The new lines, or the failure when header or entry is missing |
| `Splice.EndOfBlock` | docker/logs/mow_sessions/splice_dwb_source.py:80-89 | The scan stops at the first non-blank line indented at most 4 |
| `Splice.WrittenBlockIsFound` | docker/logs/mow_sessions/splice_dwb_source.py:77-89 | After a splice the block found is exactly the one written |
| `Splice.SplicingTwiceIsOnce` | docker/logs/mow_sessions/splice_dwb_source.py:75-91 | Splicing any block of the right shape again writes the same lines |
| `Splice.ScriptBlockHasTheShape` | docker/logs/mow_sessions/splice_dwb_source.py:7-72 | The script's 65 lines, by how they begin, have that shape |
| `Splice.ScriptSplicesOnce` | docker/logs/mow_sessions/splice_dwb_source.py:7-91 | Splicing the script's own block again writes the same lines |
| `Splice.OnlyTheBlockIsReplaced` | docker/logs/mow_sessions/splice_dwb_source.py:77-90 | Everything before the first header and from the first later line that is neither blank nor indented by five is kept |
| `Splice.SucceedsExactly` | docker/logs/mow_sessions/splice_dwb_source.py:77-79 | It succeeds if and only if an entry stands at or behind a header |
| `YamlTree.OccurrencesArePaths` | gui/pkg/api/calibration_status.go:186-212 | The occurrences counted are exactly the paths in the tree that end in the key |
| `YamlTree.VisitEntry` | gui/pkg/api/calibration_status.go:188-210 | One entry adds its own occurrence and those below it |
| `YamlTree.Visit` | gui/pkg/api/calibration_status.go:186-212 | In any order of the maps the closure counts every occurrence once and keeps a finite number found, if any |
| `YamlTree.DockPoseValue` | gui/pkg/api/calibration_status.go:182-218 | In every order of the maps, a number is found if and only if the key occurs exactly once, with a finite number, and it is that number |
| `YamlTree.ExtractEntry` | gui/pkg/api/diagnostics.go:313-327 | An entry answers with its number or a non-zero one below it; otherwise it holds none to find |
| `YamlTree.ExtractFloat` | gui/pkg/api/diagnostics.go:312-329 | With at most one occurrence of the key the answer is its plain number, or 0, in every order |
| `YamlTree.Compare` | gui/pkg/api/diagnostics.go:315-320 | For a single int or float64 both searches give the same number; an int64 or uint64 reads as 0 in one of them |
| `VersionGuard.FingerprintIsTheTokens` | firmware/scripts/protocol_version_guard.py:69-76 | Fingerprints are equal if and only if the multisets of wire tokens are, whatever their order |
| `VersionGuard.SortedIsUnique` | firmware/scripts/protocol_version_guard.py:74 | Sorting leaves no choice: equal multisets sort alike |
| `VersionGuard.JoinIsInjective` | firmware/scripts/protocol_version_guard.py:75 | The joined text determines the tokens |
| `VersionGuard.RunKeepsInv` | firmware/scripts/protocol_version_guard.py:118-132 | Over every history of edits and refreshes the recorded versions never pass the firmware's and each has one wire |
| `VersionGuard.BaselinesAgree` | firmware/scripts/protocol_version_guard.py:119-132 | Over every history in which the version never decreases, baselines of one version have one fingerprint, each recorded with both versions equal |
| `VersionGuard.RefreshRecordsExactly` | firmware/scripts/protocol_version_guard.py:119-132 | A refresh with equal versions records the present version and wire unless a changed wire keeps the recorded version; any other changes nothing |
| `VersionGuard.RefreshThenCheck` | firmware/scripts/protocol_version_guard.py:90-132 | Right after a refresh the check passes if and only if the refresh was let through or the check passed before |
| `VersionGuard.ChecksExactly` | firmware/scripts/protocol_version_guard.py:90-116 | The check asks for equal versions, a baseline and its wire, and nothing else |
| `VersionGuard.UnrefreshedBumpHidesAChange` | firmware/scripts/protocol_version_guard.py:90-116 | A history in which the check passes two wires under one version |
| `VersionGuard.CheckedWiresAgreeExactlyWhenStrict` | firmware/scripts/protocol_version_guard.py:90-116 | Passing means one wire per version, over all histories, if and only if the baseline's version is compared too |
| `NavParams.WheelsStayWithinLimit` | ros2/scripts/compute_nav2_params.py:400-458 | Every twist within the derived limits keeps both wheels within the clipped firmware limit and the turn within the rate loop's |
| `NavParams.TurnRateIsSafeExactly` | ros2/scripts/compute_nav2_params.py:453-458 | A bound on the turn rate keeps both wheels in limit at every admitted speed if and only if it is at most the saturation rate |
| `NavParams.TurnRateIsLargest` | ros2/scripts/compute_nav2_params.py:400-458 | The derived turn rate is the largest that keeps the clipped limit at every admitted speed, the limit itself when pivoting, and 1.5 rad/s |
| `NavParams.InscribedDiskFitsExactly` | ros2/scripts/compute_nav2_params.py:359 | For any such rectangle, the disk of the inscribed radius lies inside if and only if the origin does |
| `NavParams.InscribedIsLargest` | ros2/scripts/compute_nav2_params.py:359 | Of the disks around an origin inside, exactly those up to the inscribed radius fit |
| `NavParams.CircumscribedDiskCovers` | ros2/scripts/compute_nav2_params.py:360-361 | Every point of the rectangle lies in the circumscribed disk, whose radius a corner attains |
| `NavParams.FootprintDisksNestExactly` | ros2/scripts/compute_nav2_params.py:349-361 | The derived footprint holds its inscribed disk if and only if the chassis centre is off the axis by at most half its length and the margin, and always lies in its circumscribed disk |
| `NavParams.WithinExactly` | ros2/scripts/compute_nav2_params.py:592-593 | Comparing the four bounds decides whether one rectangle holds every point of the other |
| `NavParams.ZonesNestExactly` | ros2/scripts/compute_nav2_params.py:576-590 | Around any rectangle, stop and slow zone nest exactly under the stated signs and order of margins |
| `NavParams.FootprintZonesNestExactly` | ros2/scripts/compute_nav2_params.py:349-353 | Derived footprint, stop zone and slow zone nest if and only if the reaction way is not negative and 0 <= stop margin <= slow margin |
| `NavParams.RectanglesExactly` | ros2/scripts/compute_nav2_params.py:349-353 | Footprint, stop zone and slow zone point by point, from chassis, margins and ways |
| `NavParams.StoppingDistanceIsBraking` | ros2/scripts/compute_nav2_params.py:582 | The derived distance is that of reacting at full speed and then slowing down evenly to a stop |

## Left out

- Memory of array fields in the receiver (`realloc`, initial lengths) and arrays of elements other than single bytes
  and nested messages: for the latter the generator pastes an indexed name into local declarations, so the emitted
  text has no meaning to model.
- Bool, signed and floating-point fields are modelled as their raw bytes; time and duration fields are not modelled.
- The message generator's other output (types, constants, constructor, includes, hash) and the parsing of `.msg` files.
- JSON coding of grid messages; a message that is not a decodable, non-empty grid leaves the delta state unchanged.
- GridProtocol.NeverAWrongPicture: speaks of pictures (cells, size, resolution, origin), because the map load time is
  deliberately not compared by the server and a missing header keeps the old one.
- Wrap-around of sequence numbers.
- `wait_ack`: it checks no checksums and drops a trailing half preamble, so it promises nothing about cutting.
- The contents of a NAV-PVT payload and the lag statistics.
- `parse_tcl` and the socket loop of the ITM parser; a payload that does not decode ends the program and is modelled
  as a failure after which nothing happens.
- The stream demultiplexer and the buffered reader below the log reader: its fragments are the model's input.
- LogLines.OutputIsTheLinesCut: takes every fragment to be at most 256 KiB long, which the reader's 4 KiB buffer gives;
  `LogLines.FinishedIsCutExactly` says what happens otherwise.
- Conversion of text to integers and floats in the correction tracker: a parameter of the model.
- The bridge's other fields and its ROS node.
- The recorder, HTTP handling and the callbacks' edge detection around the reconcile loop; a failed persist leaves the
  configuration unchanged, and the recorder's own mutex appears only as the atomicity of persisting and reading.
- A damaged UBX preamble: the frame is then not found at its place, and what the scan finds further on may be anything.
- Retrying refused topics: the loop does not, so neither does the model; they are tracked as refused.
- MigrationText.LinesOfText: only a newline separates lines; the other separators the script's line splitting knows
  (form feed and its like) are taken for ordinary characters, and a last line without a newline is not modelled.
- MigrationText.TextOfLines: the same restriction.
- Parsing `mower_config.sh`, the
  value transforms, `map.json` and its point de-duplication, and the areas file, which would only add easy members.
- Text other than ASCII in blank stripping and lower-casing.
- Square roots and rounding: distances are compared squared, over the reals, and derived parameters before output
  rounding.
- Other derivations of the navigation parameters, and comment stripping, token extraction and SHA-256 itself in the
  version guard; the hash is any function free of collisions.
