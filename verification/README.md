# Neutrino OS packages: verified model

A Dafny model of the state machines inside a set of operating-system packages, with proofs of what they promise over
whole runs. Each module follows one component; code that changes state in place is a class whose methods are proved
against functions on values, and the results about whole runs are lemmas about those functions.

| module | component |
|---|---|
| `Basics` | bytes, options and ring arithmetic that several modules share |
| `Geometry`, `Compositor` | rectangles, damage region and window stack (`userspace-support/ui.hpp`, `userspace-support/compositor.hpp`) |
| `Streams` | cutting a byte stream into protocol messages, on the server and in a client (`desktop/src/desktop.cpp`, `userspace-support/window.hpp`) |
| `Desktop`, `DesktopSessions` | message handling, coalesced damage and damage scaling of the display server, and what its screen shows over whole sessions (`desktop/src/desktop.cpp`) |
| `CodecRouting` | route search through the widget graph of an audio codec (`intel-hda/src/hda.cpp`) |
| `PcmRing` | the playback ring shared with a free-running DMA engine (`intel-hda/src/hda.cpp`) |
| `EthernetRings` | the receive and transmit descriptor rings (`e1000e/src/e1000e.cpp`) |
| `Services` | the service manager of PID 1 and its service logs (`base-system/src/init.cpp`) |
| `Authorization` | the authorization events of PID 1 (`base-system/src/init.cpp`) |
| `Wrapping`, `Document`, `TextView`, `Editor` | word wrapping, the document, the text it stands for and the buffers of the word processor (`editor-tools/src/write.cpp`) |
| `Memory` | `memcpy`, `memmove` and `memset` (`editor-tools/lib/string.cpp`) |
| `Crc` | the checksum of a debug token (`intel-uhd-gemini-lake/decode_rcs_debug.py`) |
| `Mus` | the score player and its clock (`doom/src/neutrino_sound.cpp`) |

What the world does is a parameter or a step of its own. Reads from pipes, files and event queues are sequences cut
anywhere; process spawning is a function from service to process id or failure, different for every call; the DMA
engine, the network controller and the wire move by any amount between any two driver steps that the code allows them
to. Assumptions about them: the link position of the audio engine is a multiple of 4, below the ring size, advances by
less than the ring between two polls, stands still when stopped, and a running engine moves eventually; the network
controller obeys the tail registers (section 7.1 and section 7.2 of the Intel 82574 datasheet) and reads a transmit
buffer only between the tail write and the done bit; the kernel gives out process ids that are not zero and not in use.
Ring sizes, capacities, widths and screen sizes are symbolic wherever the code does not depend on the number.

Where the code does not do what one would expect of it, the model keeps the code, the exact condition is proved as an
if-and-only-if, and an input that fails is given:

* when the engine overruns the queue between a poll and the copy of a write, the bytes copied into slots it has left
  behind count as played although it never reads them; it has read exactly what was kept if and only if it missed none,
  and all but the missed ones in order otherwise (`PcmRing.Stream.Serve`, with the run `PcmRing.Overrun`);
* erasing after typing or after a line break restores the document exactly off full lines, and deleting forward is
  moving right and erasing exactly where there is something to delete or nothing to erase (`Document.TypeThenErase`,
  `Document.EnterThenErase`, `Document.DeleteIsRightThenErase`, with the inputs `Document.TypedOnFullLine`,
  `Document.BrokenFullLine`, `Document.DeletedAtTheEnd`);
* a save does not notice a lost line feed, and the file is right exactly if none was lost (`Document.WrittenIsSaved`,
  with `Document.LostFeed`);
* placing the cursor where it is shown moves it exactly if it stood just past a full row that is the last of its line or
  drops a space (`Wrapping.PlaceIsInside`, with `Wrapping.PlacedPastFullRow`);
* a score is cut short exactly if a group with an effect comes after 1024 groups in a row without delay
  (`Mus.WholeIfNoLongBurst`, with scores of any length that lose effects in `Mus.LongBurstLoses`);
* mixing never returns exactly if a looping score comes to its end without any delay (`Mus.Player.MixMusicFrame`, with
  the run `Mus.EmptyScoreSpins`).

Two conditions that the code relies on are exact as well, and are always met: products in damage scaling must fit 32
bits (`Desktop.ScalingIsExact`), and on any display up to 2,236,961 pixels wide they do
(`DesktopSessions.ReachableDamageReachesScreen`); and the receive path delivers whole frames exactly if none spread over
several descriptors ends in a good one (`EthernetRings.SinglesAreDelivered`), which cannot arise because the buffers
hold 2048 bytes and reception of longer packets is never enabled (`e1000e/src/e1000e.cpp:838-841`).

## Model

The first 54 rows are the main results; the others, module by module, are what they rest on.

| member | source | states |
|---|---|---|
| `PcmRing.Stream.Serve` | intel-hda/src/hda.cpp:561-740 | over any calls in any order, with the engine moving anywhere in between: what is accepted is what the writes took, what is kept is that without what flushes discarded, and the slots hold what is kept and not passed; of the bytes kept up to where it stands the engine has read all but the missed ones, each once and in order, and exactly them if and only if it missed none; all else it read within the silent slots was zero |
| `PcmRing.Stream.AllHeard` | intel-hda/src/hda.cpp:655-679 | with an empty queue, as after a drain, the engine has read all that was kept but the missed bytes, in order, and exactly what was kept if and only if it missed nothing |
| `PcmRing.Stream.WritePcm` | intel-hda/src/hda.cpp:603-653 | exactly the accepted prefix joins the queue, in whole frames; it is short only if less than a page is free, and its last piece found a page free or the ring empty |
| `EthernetRings.Receiver.ServiceDevice` | e1000e/src/e1000e.cpp:1202-1243 | everything that had arrived is taken, each good frame delivered once and in order, at most one ring's worth, with arrivals between any two steps |
| `EthernetRings.Transmitter.Transmit` | e1000e/src/e1000e.cpp:1366-1416 | a legal frame is refused only if all but one slot hold frames not yet sent when the call began; the done-bit check never rejects; an accepted frame joins the end of what is sent |
| `EthernetRings.SinglesAreDelivered` | e1000e/src/e1000e.cpp:1211-1240 | of frames spread over descriptors, exactly the good single-descriptor ones are delivered, if and only if no longer frame ends in a good descriptor |
| `Services.StartIsExact` | base-system/src/init.cpp:851-907 | a start succeeds if and only if the chain reaches a running or dependency-free service and spawning succeeds on all of it: the depth bound never rejects |
| `Services.StartedChain` | base-system/src/init.cpp:851-907 | after a start, a running member of the chain is wanted, a stopped one is spawned once, with the state of a fresh start, if it and all it depends on can be spawned, and otherwise left alone |
| `Services.DependenciesRun` | base-system/src/init.cpp:851-907 | when a start succeeds, the service and all it depends on run and are wanted |
| `Services.StartsExactlyGrounded` | base-system/src/init.cpp:851-907 | in every reachable table, a start succeeds if and only if the chain ends at a root, whatever is running, and spawning succeeds on it |
| `Services.BootIsExact` | base-system/src/init.cpp:1164-1166 | when every spawn succeeds, a boot runs exactly the enabled services whose chains end well and all they depend on |
| `Services.StoppedStaysDown` | base-system/src/init.cpp:909-960 | a running service that is stopped is down and not wanted after its exit, whatever its policy, and no other service changes |
| `Services.RestartedComesBack` | base-system/src/init.cpp:909-960 | a running service that is restarted comes back after its exit if and only if its chain can be spawned, whatever its policy and however often it was started |
| `Services.OnlyGroundedRun` | base-system/src/init.cpp:851-1062 | whatever happens after boot, no service with a dangling or cyclic chain ever runs, and process ids are never shared |
| `Services.ReapRestartsExactly` | base-system/src/init.cpp:919-960 | a service that exits is up again if and only if a restart was asked for, or it was wanted, started fewer than 8 times and its policy is always, or on-failure with a nonzero code; and spawning succeeds on its chain |
| `Services.FiniteExits` | base-system/src/init.cpp:919-960 | without further commands at most 250 exits per service are ever processed |
| `Authorization.RunsBalance` | base-system/src/init.cpp:1097-1132 | over any run, received = spent + pending + evicted, and pending is short and in order of arrival |
| `Authorization.AskIsExact` | base-system/src/init.cpp:1097-1132 | after any run, a request is accepted if and only if the event it needs was received and neither spent nor evicted, or is queued; it spends exactly that event |
| `Authorization.EvictsOnlyWhenFull` | base-system/src/init.cpp:1097-1132 | nothing is evicted over a run if and only if at no point more events were received and unspent than there is room for |
| `Compositor.DamageSound` | userspace-support/compositor.hpp:47-126 | over any run, a pixel whose appearance changes at any step lies in a stored rectangle at the end |
| `Streams.ServerDelivers` | desktop/src/desktop.cpp:1131-1165 | a stream of legal messages, cut anywhere, is delivered once, in order and whole, with nothing left |
| `Streams.ClientDeliversAll` | userspace-support/window.hpp:161-188 | calls that may read and have room for any message deliver the whole stream, each message once, in order and whole, in no more calls than there are messages and unread bytes |
| `Streams.FedIsParse` | desktop/src/desktop.cpp:1131-1165 | however arbitrary bytes are cut into reads, the server sees what one parse of the whole stream sees |
| `Desktop.CreateOpens` | desktop/src/desktop.cpp:948-1023 | a create request that is valid, while there is room and its pipe and surface open, puts a window of the requested owner and size on top, in the middle of the screen; any other changes no window and renders nothing |
| `DesktopSessions.MessagesReachTheirWindow` | desktop/src/desktop.cpp:1025-1129 | until 2^32 requests have asked for a window, window ids are distinct, and a message reaches exactly the window whose id it names and whose token it holds |
| `DesktopSessions.SessionRefines` | desktop/src/desktop.cpp:1131-1165 | over any number of reads cut anywhere, a server that coalesces damage ends with the same windows as one that handles and renders each message by itself; every pixel shows the same on both screens, and none was last drawn any earlier |
| `DesktopSessions.SessionShows` | desktop/src/desktop.cpp:1131-1165 | over any session cut into reads anywhere, a pixel that was right at first shows the windows as they are after the last read, and was drawn after every message that called for it, by damage or by changing its back-to-front list of windows and focus flags |
| `Desktop.ScalingIsExact` | desktop/src/desktop.cpp:1048-1071 | in wrapping 32-bit arithmetic, every window pixel whose sample lies in a damaged range is inside the scaled range, for all pixels and ranges, if and only if surface × window + surface fits 32 bits |
| `DesktopSessions.ReachableDamageReachesScreen` | desktop/src/desktop.cpp:1045-1071 | whatever messages, focus changes, drags and resizes came before, the products of every reachable window fit 32 bits on both axes, and its damage reaches every pixel that shows a damaged one |
| `CodecRouting.Codec.Search` | intel-hda/src/hda.cpp:346-349 | a search succeeds exactly when a converter is reachable from the pin through present widgets |
| `CodecRouting.Codec.ChoosePin` | intel-hda/src/hda.cpp:341-357 | the chosen pin is routable, no routable pin of the group scores more, and none before it scores as much |
| `CodecRouting.Codec.EnablePath` | intel-hda/src/hda.cpp:238-262 | the power and gain verbs sent are those of the selected chain, each widget once, in order |
| `Memory.Ram.Memmove` | editor-tools/lib/string.cpp:86-102 | for every overlap, alignment and length the destination holds the old source and all else is unchanged |
| `Crc.BurstDetected` | intel-uhd-gemini-lake/decode_rcs_debug.py:62-69 | two accepted tokens never differ in at most 16 consecutive bits, at any alignment |
| `Crc.OddChangeDetected` | intel-uhd-gemini-lake/decode_rcs_debug.py:62-69 | two accepted tokens never differ in an odd number of bits |
| `Crc.SealedIsAccepted` | intel-uhd-gemini-lake/decode_rcs_debug.py:62-69 | appending the big-endian checksum makes any payload acceptable |
| `Wrapping.CursorIsThere` | editor-tools/src/write.cpp:245-272 | for every document, width, row and column on screen: placing there and asking back gives that row, and that column or the end of a shorter row |
| `Wrapping.PlaceIsInside` | editor-tools/src/write.cpp:206-272 | the cursor is always on a row of the document; placing it where it is shown moves it if and only if it stood just past a full row that is the last or drops a space |
| `TextView.InsertIsTyping` | editor-tools/src/write.cpp:522-535 | typing puts the characters before the cursor of the text, if and only if the line has room |
| `TextView.SplitIsFeed` | editor-tools/src/write.cpp:537-571 | breaking a line puts a line feed before the cursor, if and only if there is room for a line |
| `TextView.BackspaceIsErasure` | editor-tools/src/write.cpp:573-605 | erasing takes the last character before the cursor, line feeds included, unless there is none or it would join lines too long together |
| `TextView.DeleteIsErasure` | editor-tools/src/write.cpp:607-634 | deleting forward takes the first character after the cursor, on the same terms |
| `TextView.PartsTellApart` | editor-tools/src/write.cpp:278-634 | the text before the cursor and the text after it determine the document |
| `Document.VerticalLands` | editor-tools/src/write.cpp:299-320 | a vertical or page move goes up or down by its distance, or to the first or last row if that is nearer, and lands there at the wanted column or the end of a shorter row |
| `Document.SaveThenLoad` | editor-tools/src/write.cpp:358-423 | whatever was loaded and however it was edited, saving and loading gives the lines back |
| `Document.TypeThenErase` | editor-tools/src/write.cpp:522-605 | typing then erasing restores the document exactly if the line is not full or the cursor is in the first column |
| `Document.EnterThenErase` | editor-tools/src/write.cpp:537-605 | breaking then erasing restores the document exactly for lines of up to 190 characters; a full document is its own case |
| `Document.DeleteIsRightThenErase` | editor-tools/src/write.cpp:607-634 | deleting forward is moving right and erasing, exactly if there is something to delete or nothing to erase |
| `Document.WrittenIsSaved` | editor-tools/src/write.cpp:364-374 | the bytes that reach the file are the document exactly if no line feed is lost |
| `Mus.DoneAreTheEarlier` | doom/src/neutrino_sound.cpp:316-460 | when some frames have been mixed, exactly the effects of earlier frames have been applied |
| `Mus.PlaysAsWritten` | doom/src/neutrino_sound.cpp:316-403 | a score written from chords plays every effect of every chord, in order, each at the frame of the ticks before it |
| `Mus.WholeIfNoLongBurst` | doom/src/neutrino_sound.cpp:316-403 | a score plays whole if and only if no group with an effect comes anywhere after 1024 groups in a row without delay |
| `Mus.Player.ProcessMusicEvents` | doom/src/neutrino_sound.cpp:316-403 | terminates on arbitrary bytes; every effect is applied at its frame; it restarts exactly when looping and the end is reached without a delay, and stops only with the whole timeline applied |
| `Mus.Player.MixMusicFrame` | doom/src/neutrino_sound.cpp:430-460 | the clock moves by one frame, not at all when paused; a song that stops has played everything; the code never returns if and only if a looping score comes to its end without any delay from here and from its start |
| `Geometry.IntersectIsCommonPixels` | userspace-support/ui.hpp:38-45 | the intersection holds exactly the pixels common to both rectangles |
| `Geometry.UniteIsHull` | userspace-support/compositor.hpp:35-45 | the union covers both rectangles and stays inside every rectangle that contains both |
| `Compositor.Chrome` | userspace-support/compositor.hpp:19-33 | title bar and content tile the frame, the damage bounds contain frame and shadow, the close button lies in the title bar and the resize handle in the frame |
| `Compositor.InvalidatedCovers` | userspace-support/compositor.hpp:50-60 | no stored or new pixel is lost, through overlap and overflow merging |
| `Compositor.InvalidatedStaysInHull` | userspace-support/compositor.hpp:50-60 | merging adds nothing outside a rectangle that contains everything invalidated |
| `Compositor.InvalidatedApart` | userspace-support/compositor.hpp:50-60 | a rectangle apart from all stored ones is stored by itself while there is room; otherwise it is united with the first it overlaps, or with the last |
| `Compositor.DamageRegion.Invalidate` | userspace-support/compositor.hpp:50-60 | the array loop stores what `Invalidated` says, for any capacity of at least one |
| `Compositor.DamageRegion.Clear` | userspace-support/compositor.hpp:64 | the region is empty afterwards |
| `Compositor.RaiseKeepsWindows` | userspace-support/compositor.hpp:97-109 | raising neither loses nor doubles a window |
| `Compositor.PushedIsOnTop` | userspace-support/compositor.hpp:87-95 | a new window goes on top of the others, if and only if there is room |
| `Compositor.RestackedAt` | userspace-support/compositor.hpp:97-121 | raising moves a window to the top and erasing takes it away; the others keep their order |
| `Compositor.DirtiedIsTight` | userspace-support/compositor.hpp:87-121 | an operation invalidates only the bounds of its window and of those that lose or gain the focus |
| `Compositor.ChangeIsDirtied` | userspace-support/compositor.hpp:87-121 | a pixel whose back-to-front list of windows and focus flags changes in one operation lies in a rectangle that operation invalidates |
| `Compositor.DamagePersists` | userspace-support/compositor.hpp:47-121 | a damaged pixel stays damaged through any further operations |
| `Compositor.WindowStack.Push` | userspace-support/compositor.hpp:87-95 | the stack and the shared damage region become what the specification of a run says; refused exactly when full |
| `Compositor.WindowStack.Raise` | userspace-support/compositor.hpp:97-109 | the same as for `Push` when raising, by shifting in place |
| `Compositor.WindowStack.Erase` | userspace-support/compositor.hpp:111-121 | the same as for `Push` when erasing |
| `Streams.ParseResumes` | desktop/src/desktop.cpp:1131-1165 | parsing a buffer and later the rest with new bytes equals parsing all of it at once |
| `Streams.ParseLeavesRoom` | desktop/src/desktop.cpp:1138-1164 | a full buffer always gives up at least a byte, so the buffer-full reset is never reached |
| `Streams.ParseDelivers` | desktop/src/desktop.cpp:1138-1153 | a concatenation of legal messages is delivered as those messages |
| `Streams.SizeIsThirdWord` | desktop/src/desktop.cpp:1138-1146 | the length of a message is the little-endian word at offset 8 of its header |
| `Streams.ParsedAreLegal` | desktop/src/desktop.cpp:1138-1153 | whatever the bytes, only legal messages are parsed |
| `Streams.ParseLosesOnlyImpossible` | desktop/src/desktop.cpp:1138-1153 | unless an impossible size is met, messages and remainder are all the bytes there were |
| `Streams.ParseSkipsByte` | desktop/src/desktop.cpp:1141-1144 | at an impossible size exactly one byte is skipped |
| `Streams.RestIsStuck` | desktop/src/desktop.cpp:1138-1153 | what is left over is an incomplete message: parsing it again yields nothing |
| `Streams.NextEventTakesNext` | userspace-support/window.hpp:161-188 | one call hands over the next message of the stream and no other, or leaves the stream as it was: then the message is not all there yet, or the output too small for it |
| `Streams.NextEventAdvances` | userspace-support/window.hpp:161-188 | while messages are left, a call that may read and has room delivers one or takes bytes off the pipe |
| `Streams.MalformedIsDropped` | userspace-support/window.hpp:161-188 | whatever the bytes, a call reports a malformed stream if and only if it finds a header of an impossible size, and then drops what was buffered |
| `Streams.ClientDelivers` | userspace-support/window.hpp:161-188 | any calls, with any read sizes and any room, hand over a prefix of the messages, in order, and lose nothing |
| `Streams.EventStream.Fill` | userspace-support/window.hpp:163-180 | the read appends a prefix of the pipe to the buffer, at most what fits |
| `Streams.EventStream.Discard` | userspace-support/window.hpp:184-186 | the overlapping move drops exactly the first bytes |
| `Streams.EventStream.Deliver` | userspace-support/window.hpp:175-187 | buffer, pipe and result after the header is known |
| `Streams.EventStream.Next` | userspace-support/window.hpp:161-188 | the method on the byte array does what `NextEvent` says |
| `Desktop.ScalingIsConservative` | desktop/src/desktop.cpp:1048-1071 | one direction, for one pixel and range |
| `Desktop.DamageReachesScreen` | desktop/src/desktop.cpp:1045-1071 | both coordinates together: a shown pixel with a damaged sample is in the rectangle that is rendered |
| `Desktop.ScalingIsTight` | desktop/src/desktop.cpp:1048-1071 | beyond its first pixel, a scaled range holds only pixels that sample the damaged range |
| `Desktop.DamageIsTight` | desktop/src/desktop.cpp:1048-1071 | beyond its first row and column, the rectangle of a message holds only pixels that show a damaged one |
| `Desktop.ValidNameIsNamed` | desktop/src/desktop.cpp:932-947 | a surface name is valid if and only if a NUL follows at least one character, all of them safe |
| `Desktop.NewWindowIsUnscaled` | desktop/src/desktop.cpp:982-1003 | a new window shows its surface pixel by pixel |
| `Desktop.TargetIsOwned` | desktop/src/desktop.cpp:1100-1103 | among windows of distinct ids, a message acts on a window if and only if it names it and holds its token |
| `Desktop.StrangersChangeNothing` | desktop/src/desktop.cpp:1092-1103 | a message that owns no window and asks for none changes and renders nothing |
| `Desktop.OwnersAct` | desktop/src/desktop.cpp:1104-1128 | a destroy message of its owner takes away that window and no other, a damage message changes none |
| `Desktop.CreateKeepsDistinct` | desktop/src/desktop.cpp:984-985 | a create request keeps window ids distinct if and only if no window has the next id |
| `Desktop.ClippedIsOnScreen` | desktop/src/desktop.cpp:479-495 | clipping keeps exactly the pixels on screen |
| `Desktop.FindWindowIsFirst` | desktop/src/desktop.cpp:1025-1030 | the search finds the first window of an id |
| `Desktop.Server.Find` | desktop/src/desktop.cpp:1025-1030 | the loop is that search |
| `Desktop.Server.AccumulateDamage` | desktop/src/desktop.cpp:1032-1074 | the pending rectangles after one message; other messages are left alone |
| `Desktop.Server.FlushDamage` | desktop/src/desktop.cpp:1076-1090 | one render of the union of the pending rectangles, with the windows as they are; all of them are cleared |
| `Desktop.Server.HandleMessage` | desktop/src/desktop.cpp:1092-1129 | windows and ids after one message, and then the renders, which draw the changed windows |
| `Desktop.Server.CreateWindow` | desktop/src/desktop.cpp:948-1023 | windows and ids after a create request, every failure included, and then the renders, which draw the new window |
| `Desktop.Server.ConsumeServerPipe` | desktop/src/desktop.cpp:1131-1165 | one read on arbitrary bytes terminates and does what the session specification says, never losing buffered bytes |
| `Desktop.Server.HandleBuffer` | desktop/src/desktop.cpp:1136-1157 | the message loop handles exactly the complete messages of the buffer |
| `Desktop.Server.Compact` | desktop/src/desktop.cpp:1158-1164 | the in-place shift keeps exactly the bytes not consumed |
| `Desktop.ScalingFails` | desktop/src/desktop.cpp:1048-1071 | past the limit, damage to the whole surface misses the last window pixel |
| `CodecRouting.Codec.FindDacPath` | intel-hda/src/hda.cpp:208-225 | terminates on any cyclic graph; success selects a simple path to the converter, failure proves every visited widget a dead end and selects nothing |
| `CodecRouting.FinishedBlocks` | intel-hda/src/hda.cpp:208-225 | no walk from a finished widget ends at a converter |
| `CodecRouting.NotRoutable` | intel-hda/src/hda.cpp:208-225 | a failed search leaves a closed set that holds the pin and no converter |
| `CodecRouting.CapsAreRead` | intel-hda/src/hda.cpp:212-255 | type and amplifiers of a widget are the bits of its capabilities |
| `CodecRouting.PinScoreRanks` | intel-hda/src/hda.cpp:305-315 | a pin without output or attachment is no candidate; others rank speaker, headphone, line out, rest |
| `CodecRouting.VerbsOfChain` | intel-hda/src/hda.cpp:238-262 | enabling sends every widget of the chain its power, its output gain if it has one, and but for the converter its input gain at the selected connection if it has one; and nothing else |
| `CodecRouting.SelectsBackwards` | intel-hda/src/hda.cpp:216-222 | connections are selected from the converter's end of the chain back to the pin |
| `CodecRouting.SelectedIsRoute` | intel-hda/src/hda.cpp:216-222 | the selected connections are a walk through present widgets, which proves the pin routable |
| `CodecRouting.PowersChain` | intel-hda/src/hda.cpp:238-262 | exactly the widgets of the chain are powered up, in order |
| `CodecRouting.Codec.SelectVolumeNode` | intel-hda/src/hda.cpp:264-286 | the walk over the selected chain ends with its best output amplifier |
| `CodecRouting.BestAmpIsBest` | intel-hda/src/hda.cpp:271-278 | that node has the greatest gain offset of the chain and is the first with it |
| `CodecRouting.Codec.TryScore` | intel-hda/src/hda.cpp:343-356 | the first routable pin of one score, or none has it |
| `PcmRing.Stream.Poll` | intel-hda/src/hda.cpp:561-586 | exactly the bytes the engine passed leave the queue, and the stream goes on exactly if some are left |
| `PcmRing.Stream.Consume` | intel-hda/src/hda.cpp:562-574 | the modular distance to the link position is how far the engine moved |
| `PcmRing.Stream.ClearSilenceGuard` | intel-hda/src/hda.cpp:588-601 | the free slots behind the queue, up to the guard, are zero and no queued byte is altered, with the engine moving after each piece |
| `PcmRing.Stream.WriteSome` | intel-hda/src/hda.cpp:612-650 | one round of the write loop: a page is free or the ring empty when it takes a piece, and it takes none exactly if less than a page is free |
| `PcmRing.Stream.AcceptChunk` | intel-hda/src/hda.cpp:632-649 | a chunk is copied, the slots behind it cleared and the idle engine started, with the engine moving between any two of these; exactly the bytes whose slots it had passed before the copy are missed |
| `PcmRing.Stream.Append` | intel-hda/src/hda.cpp:632-636 | the queue grows by the chunk; exactly the bytes whose slots the engine had passed before the copy are missed; the silent slots shrink by the chunk |
| `PcmRing.Stream.Drain` | intel-hda/src/hda.cpp:655-679 | every queued byte is passed before the stream stops, paused or not |
| `PcmRing.Stream.Flush` | intel-hda/src/hda.cpp:681-698 | every queued byte is either passed or discarded, and what is kept ends with what was passed |
| `PcmRing.Stream.SetPaused` | intel-hda/src/hda.cpp:700-721 | pausing keeps exactly the bytes not passed; resuming changes no byte |
| `PcmRing.Stream.GetStatus` | intel-hda/src/hda.cpp:731-740 | the count reported is the length of the queue, and running means bytes queued and not paused |
| `PcmRing.Stream.Rebase` | intel-hda/src/hda.cpp:580-585 | an empty queue starts over at the live position |
| `PcmRing.Stream.Settle` | intel-hda/src/hda.cpp:580-585 | with everything accounted for, the idle stream keeps the invariants |
| `PcmRing.Stream.Reset` | intel-hda/src/hda.cpp:670-677 | an idle, unpaused stream whose remaining bytes are counted as discarded |
| `PcmRing.Stream.TakeOff` | intel-hda/src/hda.cpp:569-572 | what leaves the queue is its front, and the rest is still in its slots |
| `PcmRing.Stream.PlayOut` | intel-hda/src/hda.cpp:665-668 | the drain loop ends, with every queued byte passed |
| `PcmRing.Stream.QueueInSlots` | intel-hda/src/hda.cpp:561-740 | of any state between calls: the slots hold what is kept and not passed, and the engine has read all but the missed bytes before it, in order, and exactly these if and only if it missed none |
| `PcmRing.ReadsQueue` | intel-hda/src/hda.cpp:561-740 | reading on from inside the queue reads the queued bytes there, across the end of the ring |
| `PcmRing.HeardAppended` | intel-hda/src/hda.cpp:632-635 | bytes copied into slots the engine has already passed are missed, and only those; what it has read stays a subsequence of what is kept |
| `PcmRing.Stream.Sounds` | intel-hda/src/hda.cpp:561-650 | what the engine would read next from a state between calls: the queue in order, then zeros for min(free at the last write, guard) slots |
| `PcmRing.TravelledIsAhead` | intel-hda/src/hda.cpp:566-568 | the wrapped difference of two link positions is the distance moved |
| `PcmRing.HoldsMore` | intel-hda/src/hda.cpp:628-636 | copying behind the queue extends what the ring holds |
| `PcmRing.HoldsLess` | intel-hda/src/hda.cpp:570-572 | the ring still holds what follows the consumed bytes |
| `PcmRing.HoldsKept` | intel-hda/src/hda.cpp:594-600 | clearing behind the queue leaves it as it was |
| `PcmRing.HeardExactly` | intel-hda/src/hda.cpp:561-740 | what the engine has read of the bytes before it is exactly these if and only if none was missed |
| `PcmRing.OverrunExample` | intel-hda/src/hda.cpp:612-641 | a queue of four bytes, overrun by four slots before four more are queued: these are passed and were never read |
| `PcmRing.Overrun` | intel-hda/src/hda.cpp:612-641 | a run of the driver in which this happens |
| `PcmRing.BeyondIsSilent` | intel-hda/src/hda.cpp:588-601 | a read past the queue and within the silent slots is zero |
| `PcmRing.ListenedIsKept` | intel-hda/src/hda.cpp:588-601 | over any movement of the engine every read is accounted for and the silent ones are zero |
| `PcmRing.Stream.CopyIn` | intel-hda/src/hda.cpp:632-633 | the chunk is in its slots behind the queue, whatever the engine did before the copy; the engine does not see the count, so what it reads is settled by the copy |
| `PcmRing.Stream.Advance` | intel-hda/src/hda.cpp:561-586 | every slot the engine moves over is read: queued bytes and others apart |
| `EthernetRings.Receiver.constructor` | e1000e/src/e1000e.cpp:780-844 | the ring starts with every slot but the last owned by the controller |
| `EthernetRings.Receiver.Recycle` | e1000e/src/e1000e.cpp:1190-1200 | the slot is blanked before the tail hands it over, with arrivals in between |
| `EthernetRings.Receiver.Take` | e1000e/src/e1000e.cpp:1211-1240 | one finished descriptor becomes one delivered frame exactly if it is good |
| `EthernetRings.BitsAreRead` | e1000e/src/e1000e.cpp:1211-1223 | done and end of packet are the lowest status bits, and error bits 0, 1, 2, 4 and 7 reject a frame |
| `EthernetRings.FramesInOrder` | e1000e/src/e1000e.cpp:1220-1227 | a good arrival hands over its buffer up to its length, any other nothing |
| `EthernetRings.Receiver.Arrive` | e1000e/src/e1000e.cpp:780-844 | the controller never overwrites an unread slot |
| `EthernetRings.UnreadGrows` | e1000e/src/e1000e.cpp:780-844 | done slots stay the cyclic range from `rx_index` to the controller's head when it fills one |
| `EthernetRings.UnreadShrinks` | e1000e/src/e1000e.cpp:1190-1200 | done slots stay the cyclic range from rx_index when the driver recycles one |
| `EthernetRings.FrontIsOldest` | e1000e/src/e1000e.cpp:1211-1216 | the slot at `rx_index` is done exactly if something is unread, and then holds the oldest arrival |
| `EthernetRings.Transmitter.constructor` | e1000e/src/e1000e.cpp:846-883 | every slot starts idle and marked done |
| `EthernetRings.Transmitter.Stage` | e1000e/src/e1000e.cpp:1399-1414 | the accepted frame, padded, is what the slot at the tail carries; no slot in flight is rewritten |
| `EthernetRings.Transmitter.Reap` | e1000e/src/e1000e.cpp:1171-1183 | counts off at least every frame sent when the call began and none that was not |
| `EthernetRings.Transmitter.ReapOne` | e1000e/src/e1000e.cpp:1176-1181 | one completed slot leaves the flight at its front |
| `EthernetRings.Transmitter.Send` | e1000e/src/e1000e.cpp:846-883 | the controller sends a prefix of the accepted frames, in order, and writes no other slot |
| `EthernetRings.Padded` | e1000e/src/e1000e.cpp:1378-1404 | the wire frame starts with the data, has at least 60 bytes (section 4.2.3.3 of IEEE 802.3) and is zero after the data |
| `EthernetRings.FlightSends` | e1000e/src/e1000e.cpp:846-883 | the slot at the controller's head carries the next accepted frame |
| `EthernetRings.FlightGrows` | e1000e/src/e1000e.cpp:1399-1414 | a staged slot joins the flight at its end |
| `EthernetRings.FlightReaps` | e1000e/src/e1000e.cpp:1171-1183 | the slot at the driver's head is done exactly if its frame was sent |
| `EthernetRings.TailIsDelivered` | e1000e/src/e1000e.cpp:1219-1227 | a frame in two descriptors whose last part is delivered as a frame |
| `Services.LoadServices` | base-system/src/init.cpp:791-821 | the loop keeps what `Loaded` keeps, stopping when full |
| `Services.LoadedIsUnique` | base-system/src/init.cpp:791-821 | no two services share a name |
| `Services.LoadedHasName` | base-system/src/init.cpp:798-819 | while there is room, every valid definition has its name loaded |
| `Services.LoadedIsFirst` | base-system/src/init.cpp:798-819 | while there is room, of several definitions of one name the first is loaded |
| `Services.LoadedInOrder` | base-system/src/init.cpp:798-819 | the loaded services are definitions of the directory, in its order |
| `Services.ChainIsShort` | base-system/src/init.cpp:851-861 | a chain that ends well visits no service twice, so it has fewer hops than there are services |
| `Services.UnstartableChangesNothing` | base-system/src/init.cpp:851-861 | a start through a dangling or cyclic chain fails and changes nothing |
| `Services.StartStaysOnChain` | base-system/src/init.cpp:851-907 | a start touches only services on the chain |
| `Services.StartLeavesOthers` | base-system/src/init.cpp:851-907 | a start changes nothing off the chain |
| `Services.StartTouches` | base-system/src/init.cpp:851-907 | what a start does to one service: nothing, want it, or spawn it once if it was stopped |
| `Services.StartKeepsSound` | base-system/src/init.cpp:851-907 | a start keeps process ids distinct, running services grounded and completion flags true, even if it fails half way |
| `Services.RespondKeepsSound` | base-system/src/init.cpp:1035-1062 | every command keeps the invariants of the table |
| `Services.RunKeepsSound` | base-system/src/init.cpp:851-1062 | every run of launches, exits and commands keeps the invariants of the table |
| `Services.ReapLowersRank` | base-system/src/init.cpp:919-960 | every exit of a running service lowers a rank made of pending restarts, starts left, running services with starts left and running services |
| `Services.ExitsLowerRank` | base-system/src/init.cpp:919-960 | over any run of exits their number and the final rank stay within the first rank |
| `Services.RunConcat` | base-system/src/init.cpp:1164-1172 | a run of two parts is the run of the first and then of the second |
| `Services.Manager.constructor` | base-system/src/init.cpp:791-821 | the loaded services, none running |
| `Services.Manager.FindService` | base-system/src/init.cpp:698-704 | the first service of a name |
| `Services.Manager.StartService` | base-system/src/init.cpp:851-907 | the recursive method, which sets the fields of a service in the order of the code, does what `Start` says to the table |
| `Services.Manager.StopService` | base-system/src/init.cpp:909-917 | the method does what `Stop` says |
| `Services.Manager.ReapOne` | base-system/src/init.cpp:921-958 | one exit, the field updates in the order of the code, is `Reap` |
| `Services.Manager.ReapAll` | base-system/src/init.cpp:919-960 | the loop is a run of exits |
| `Services.Manager.HandleRequest` | base-system/src/init.cpp:1035-1075 | table and status of every command |
| `Services.Manager.Boot` | base-system/src/init.cpp:1164-1166 | the enabled services are launched in order, as a run |
| `Services.Log.AppendByte` | base-system/src/init.cpp:823-834 | the circular log gains a byte and forgets the oldest only if full |
| `Services.Log.Append` | base-system/src/init.cpp:823-834 | the log always holds the last bytes ever written, in order |
| `Services.ChainStarts` | base-system/src/init.cpp:851-907 | the same for one chain that fits the depth left |
| `Services.FailedStaysStopped` | base-system/src/init.cpp:851-907 | a failed start leaves its service stopped |
| `Services.ExitIsNoted` | base-system/src/init.cpp:919-960 | an exit without a restart leaves the service down, not wanted, with its code, and completed exactly if it is a oneshot that was wanted and succeeded |
| `Services.ExitRoundTrip` | base-system/src/init.cpp:921-925 | process id and exit code are read back from the word that reports them |
| `Services.StartCommand` | base-system/src/init.cpp:1057-1060 | a start command succeeds if and only if the chain ends well and can be spawned; the service then runs and is wanted, and one that was stopped has its automatic starts before it again |
| `Services.CommandsWhenStopped` | base-system/src/init.cpp:909-917 | stopping a stopped service makes it unwanted, restarting one is starting it |
| `Services.RespondIsSelective` | base-system/src/init.cpp:1035-1075 | only a start, stop or restart of a loaded service changes anything; unknown services and commands are refused as such |
| `Services.ChainsAgree` | base-system/src/init.cpp:851-860 | the chain over stopped services is the beginning of the whole chain and breaks off only at a running service |
| `Services.LaunchRunsNeeded` | base-system/src/init.cpp:1164-1166 | launching the next enabled service starts what it needs |
| `Authorization.FirstMatchFinds` | base-system/src/init.cpp:1099-1103 | the scan finds a match exactly if there is one |
| `Authorization.AuthorizeIsExact` | base-system/src/init.cpp:1097-1132 | a request is accepted exactly if a matching event is pending or queued, and spends one |
| `Authorization.ReceiveIsFifo` | base-system/src/init.cpp:1111-1131 | evicted, then pending, then spent are what was pending and then what was received, in order |
| `Authorization.ReceiveEvictsLast` | base-system/src/init.cpp:1111-1131 | a request that receives drops as many events as are held beyond the room for them, and passes over no match |
| `Authorization.AuthorizeEvictsLast` | base-system/src/init.cpp:1097-1132 | the same of a request as a whole |
| `Authorization.StepEvicts` | base-system/src/init.cpp:1097-1132 | a step of a run evicts something if and only if more is held afterwards than there is room for |
| `Authorization.AuthorizeBalances` | base-system/src/init.cpp:1097-1132 | one request accounts for every event and keeps the order of arrival |
| `Authorization.Authorizer.Remove` | base-system/src/init.cpp:1104-1107 | the in-place shift removes exactly one pending event |
| `Authorization.Authorizer.Keep` | base-system/src/init.cpp:1121-1130 | the newest is kept, the oldest evicted if there is no room |
| `Authorization.Authorizer.ReceiveEvents` | base-system/src/init.cpp:1111-1131 | the receive loop is `Receive` |
| `Authorization.Authorizer.AuthorizeRequest` | base-system/src/init.cpp:1097-1132 | the method on the array is `Authorize` |
| `Wrapping.WrapSegment` | editor-tools/src/write.cpp:147-183 | the backwards scan finds the break that `Wrap` defines |
| `Wrapping.WrapIsGreedy` | editor-tools/src/write.cpp:147-183 | a row fits the width and makes progress; the rest of the line is one row if it fits, else the row is cut at the last space that fits, which is dropped, or at the width if there is none |
| `Wrapping.RowsRejoin` | editor-tools/src/write.cpp:185-204 | the rows with the dropped single spaces put back are the line |
| `Wrapping.VisualRowsForLine` | editor-tools/src/write.cpp:185-204 | counts the rows of a line |
| `Wrapping.ColumnIsThere` | editor-tools/src/write.cpp:206-272 | within a line: placing at a row and column and asking back gives them |
| `Wrapping.PlaceIsThere` | editor-tools/src/write.cpp:206-272 | within a line: asking for a column's place and placing there gives it back if and only if the column is not just past a full row that is the last or drops a space |
| `Wrapping.PlacesAreInOrder` | editor-tools/src/write.cpp:206-272 | the text is shown in reading order from the top left: a cursor further on is never shown earlier |
| `Wrapping.PlacedPastFullRow` | editor-tools/src/write.cpp:206-272 | behind a line that fills its row, the cursor is shown in the last cell, and placing it there moves it back by one |
| `Document.ApplyKeepsGood` | editor-tools/src/write.cpp:278-634 | every operation keeps line count, line length, printable text and a valid cursor |
| `Document.EditedIsGood` | editor-tools/src/write.cpp:278-634 | every sequence of operations keeps line count, line length, printable text and a valid cursor |
| `Document.LoadConcat` | editor-tools/src/write.cpp:382-423 | loading does not depend on where reads are cut |
| `Document.LoadIsGood` | editor-tools/src/write.cpp:382-423 | any file loads as a document |
| `Document.LoadSkips` | editor-tools/src/write.cpp:382-423 | what is neither printable nor a line feed leaves no trace, wherever it is in the file |
| `Document.LoadTruncates` | editor-tools/src/write.cpp:382-423 | printable text goes to the end of the last line as far as there is room |
| `TextView.PartsAreSaved` | editor-tools/src/write.cpp:358-374 | the text before the cursor and the text after it are the file form of the document |
| `TextView.LeftIsBack` | editor-tools/src/write.cpp:278-287 | moving left takes the cursor back over one character, line feeds included |
| `TextView.RightIsForth` | editor-tools/src/write.cpp:289-297 | moving right takes it over the next one |
| `TextView.HomeIsStart` | editor-tools/src/write.cpp:322-328 | home goes to the start of the text, or back to the line feed before |
| `TextView.EndIsEnd` | editor-tools/src/write.cpp:330-335 | end goes to the end of the text, or on to the line feed after |
| `TextView.VerticalKeepsText` | editor-tools/src/write.cpp:299-320 | moving by rows changes no text |
| `Document.TypedOnFullLine` | editor-tools/src/write.cpp:522-605 | on a line of 191 characters, typing then erasing loses a character |
| `Document.BrokenFullLine` | editor-tools/src/write.cpp:537-605 | such a line, once broken, is not merged again |
| `Document.DeletedAtTheEnd` | editor-tools/src/write.cpp:607-634 | at the end of a text, deleting forward does nothing, moving right and erasing takes a character |
| `Document.LostFeed` | editor-tools/src/write.cpp:364-374 | two lines whose line feed is lost are saved as one |
| `Editor.OpenedText` | editor-tools/src/write.cpp:522-535 | moving the tail with its terminator and writing into the gap is insertion into the text |
| `Editor.ClosedText` | editor-tools/src/write.cpp:573-584 | moving the tail down is removal from the text |
| `Editor.CopiedText` | editor-tools/src/write.cpp:537-605 | the bounded copy behind a text is concatenation when it fits |
| `Editor.Editor.constructor` | editor-tools/src/write.cpp:31-40 | zeroed buffers are the document of one empty line |
| `Editor.Editor.InsertChar` | editor-tools/src/write.cpp:522-535 | the buffers stand for the document with the character typed; the dirty flag is set exactly on change |
| `Editor.Editor.InsertIndent` | editor-tools/src/write.cpp:556-571 | the same for an indent |
| `Editor.Editor.SplitLine` | editor-tools/src/write.cpp:537-554 | the same for a line break |
| `Editor.Editor.SplitRow` | editor-tools/src/write.cpp:543-548 | shifting, copying and cutting the buffers holds the split lines |
| `Editor.Editor.Erase` | editor-tools/src/write.cpp:573-605 | the same for erasing |
| `Editor.Editor.MergeRows` | editor-tools/src/write.cpp:594-599 | appending the next buffer and shifting the rest holds the merged lines |
| `Editor.Editor.Delete` | editor-tools/src/write.cpp:607-634 | the same for deleting forward |
| `Editor.Editor.MoveCursorLeft` | editor-tools/src/write.cpp:278-286 | the cursor moves as on the document |
| `Editor.Editor.MoveCursorRight` | editor-tools/src/write.cpp:288-297 | the same to the right |
| `Editor.Editor.MoveCursorHome` | editor-tools/src/write.cpp:322-328 | the same to the start |
| `Editor.Editor.MoveCursorEnd` | editor-tools/src/write.cpp:330-336 | the same to the end |
| `Editor.Editor.CursorVisualPosition` | editor-tools/src/write.cpp:206-235 | the nested loops compute the place of the cursor |
| `Editor.Editor.VisualRowCount` | editor-tools/src/write.cpp:237-243 | the number of rows of the document |
| `Editor.Editor.SetCursorFromVisualPosition` | editor-tools/src/write.cpp:245-272 | finds the row exactly if there is one, and leaves the cursor alone otherwise |
| `Editor.Editor.MoveCursorVertical` | editor-tools/src/write.cpp:299-320 | the move of `VerticalLands`, with the wanted column kept from the first move |
| `Editor.Editor.SaveDocument` | editor-tools/src/write.cpp:358-380 | succeeds exactly if every line is written; then the file is what `Written` says |
| `Editor.Editor.LoadDocument` | editor-tools/src/write.cpp:382-423 | a fresh editor holds what `Load` gives, for reads cut anywhere |
| `Editor.Editor.LoadOne` | editor-tools/src/write.cpp:402-419 | one byte of a file, buffers and terminators included |
| `Memory.Ram.Memcpy` | editor-tools/lib/string.cpp:32-73 | the same wherever a forward copy is safe, through the aligned and unrolled word copies |
| `Memory.Ram.CopyForwardAlign` | editor-tools/lib/string.cpp:20-28 | copies up to the next aligned address and no further |
| `Memory.Ram.CopyFourWords` | editor-tools/lib/string.cpp:47-57 | four word copies in a row, each read after the one before is written |
| `Memory.Ram.CopyWord` | editor-tools/lib/string.cpp:59-65 | eight bytes are read before any is written |
| `Memory.Ram.CopyBytes` | editor-tools/lib/string.cpp:11-18 | the byte loop on a forward-safe range |
| `Memory.Ram.Memset` | editor-tools/lib/string.cpp:75-84 | exactly the range is filled |
| `Memory.CopiedExtends` | editor-tools/lib/string.cpp:32-73 | a forward copy can go on after any part of it, however the ranges overlap |
| `Crc.Crc16` | intel-uhd-gemini-lake/decode_rcs_debug.py:17-23 | the shift-and-mask loops compute the register that the lemmas below speak of |
| `Crc.CheckToken` | intel-uhd-gemini-lake/decode_rcs_debug.py:62-69 | too short, mismatch or payload, exactly as `Accepts` says |
| `Crc.CrcIsBitCrc` | intel-uhd-gemini-lake/decode_rcs_debug.py:17-23 | the byte register is a bit-serial division by the polynomial of section 2 of ITU-T V.41 |
| `Crc.AcceptsIsZero` | intel-uhd-gemini-lake/decode_rcs_debug.py:62-69 | a token is accepted exactly if the register over all of it is zero |
| `Crc.KnownRegisters` | intel-uhd-gemini-lake/decode_rcs_debug.py:17-23 | the register starts at FFFF, so an empty payload is sealed by FF FF, and a single one leaves the polynomial 1021 |
| `Crc.BurstChangesRegister` | intel-uhd-gemini-lake/decode_rcs_debug.py:17-23 | changing at most 16 consecutive bits changes the register, whatever surrounds them |
| `Crc.AdjacentBytesDetected` | intel-uhd-gemini-lake/decode_rcs_debug.py:62-69 | two accepted tokens never differ in one byte or two adjacent bytes |
| `Crc.ShiftKeepsParity` | intel-uhd-gemini-lake/decode_rcs_debug.py:21-22 | a shift of the register keeps its parity |
| `Mus.ShortBurstsAreWhole` | doom/src/neutrino_sound.cpp:316-403 | a sufficient check: never more than 1024 groups on a tick before the next delay |
| `Mus.TimelineNotBefore` | doom/src/neutrino_sound.cpp:316-403 | nothing still to come is due before the current tick |
| `Mus.DelayKeepsTime` | doom/src/neutrino_sound.cpp:392-397 | 140 × frames scheduled + remainder = 48000 × ticks is kept, and only a zero delay schedules no frame |
| `Mus.OnTimeIsFrame` | doom/src/neutrino_sound.cpp:392-397 | the frame reached is floor(48000 × ticks / 140) |
| `Mus.GroupInStep` | doom/src/neutrino_sound.cpp:316-398 | playing one group keeps what is done plus what is to come equal to the whole timeline |
| `Mus.Player.RestartSong` | doom/src/neutrino_sound.cpp:303-314 | the clock and the timeline start over |
| `Mus.Player.PlayEvent` | doom/src/neutrino_sound.cpp:322-382 | the byte reads and the switch apply what `ReadEvent` says |
| `Mus.Player.ReadTicks` | doom/src/neutrino_sound.cpp:385-390 | the loop is `ReadDelay` |
| `Mus.Player.PlayGroup` | doom/src/neutrino_sound.cpp:320-390 | one group of events and the delay after it |
| `Mus.LostIsTheRest` | doom/src/neutrino_sound.cpp:316-403 | what is played and what the bound cuts off are together the unbounded timeline |
| `Mus.WholeIfNothingLost` | doom/src/neutrino_sound.cpp:316-403 | the bound on groups shows if and only if the part it cuts off is not empty |
| `Mus.LostIfCutShort` | doom/src/neutrino_sound.cpp:316-403 | with any room left on the tick, that part is not empty if and only if a group with an effect comes after the groups that fill the tick |
| `Mus.EmptyScoreEnds` | doom/src/neutrino_sound.cpp:375-381 | a score of one end marker comes to its end without a delay |
| `Mus.EmptyScoreSpins` | doom/src/neutrino_sound.cpp:430-435 | a looping player never returns from the first frame of that score |
| `Mus.LongBurstLoses` | doom/src/neutrino_sound.cpp:316-403 | of n groups on one tick, each with one effect, exactly those after the first 1024 are lost |
| `Mus.EventRoundTrip` | doom/src/neutrino_sound.cpp:322-382 | every event is read as what was written |
| `Mus.SystemEventIsRead` | doom/src/neutrino_sound.cpp:352-360 | system events 10 and 11 silence the channel, 14 resets it too, others do nothing |
| `Mus.ControllerIsRead` | doom/src/neutrino_sound.cpp:362-372 | controllers 0, 3 and 4 set program, volume and pan, others do nothing |
| `Mus.MalformedIsBad` | doom/src/neutrino_sound.cpp:322-382 | an event is malformed if and only if it is of kind 5 or 7 or cut off; the score ends exactly at kind 6 |
| `Mus.ChordIsRead` | doom/src/neutrino_sound.cpp:316-403 | events written at one time are read as one group with their delay |
| `Mus.SecondsAreExact` | doom/src/neutrino_sound.cpp:392-397 | 140 ticks are 48,000 frames |
| `Mus.DelayRoundTrip` | doom/src/neutrino_sound.cpp:385-390 | every 32-bit delay is read as what was written |
| `DesktopSessions.ActsScale` | desktop/src/desktop.cpp:948-1362 | messages and the mouse keep surfaces within 1920 × 1080 and windows, on displays up to 2,236,961 pixels wide, no wider or higher than that |
| `DesktopSessions.MouseIsFollowed` | desktop/src/desktop.cpp:1326-1362 | within the limits, a drag puts the window where it is asked for and a resize its corner under the cursor |
| `DesktopSessions.ActScales` | desktop/src/desktop.cpp:1326-1362 | one drag, resize, focus change or message |
| `DesktopSessions.HandleScales` | desktop/src/desktop.cpp:948-1129 | one message |
| `DesktopSessions.HandleShows` | desktop/src/desktop.cpp:909-1023 | a create or destroy message renders every pixel it changes |
| `DesktopSessions.RepaintCoversTaskbar` | desktop/src/desktop.cpp:909-923 | a change of the stack repaints the whole task bar |
| `DesktopSessions.ActsKeepNumbered` | desktop/src/desktop.cpp:982-1129 | until 2^32 requests, window ids are distinct, not zero and below the next one |
| `DesktopSessions.OneByOneConcat` | desktop/src/desktop.cpp:1092-1129 | one-at-a-time handling of two batches is that of their concatenation |
| `DesktopSessions.BatchRefines` | desktop/src/desktop.cpp:1032-1158 | after a coalesced batch there are the same windows as after one-at-a-time handling, every pixel shows them on both screens, and none was last drawn any earlier |
| `DesktopSessions.BatchStaysInHull` | desktop/src/desktop.cpp:1032-1158 | a coalesced batch renders nothing outside a box around the one-at-a-time renders |
| `DesktopSessions.FlushShows` | desktop/src/desktop.cpp:1076-1090 | rendering what is pending brings every damaged pixel up to date |
| `DesktopSessions.DamageInStep` | desktop/src/desktop.cpp:1032-1074 | after a damage message that is only noted, a pixel is as recent as on the reference screen, or pending |
| `DesktopSessions.OtherInStep` | desktop/src/desktop.cpp:1146-1152 | flushing before any other message keeps the two screens in step |
| `DesktopSessions.OneShows` | desktop/src/desktop.cpp:1092-1129 | one message, rendered after it has changed the windows: a pixel that was right stays right, and is drawn exactly if the message calls for it |
| `DesktopSessions.CallIsPainted` | desktop/src/desktop.cpp:1092-1129 | handled one at a time, a pixel that a message calls for is drawn after that message, whatever comes later |
| `Desktop.PaintedFrames` | desktop/src/desktop.cpp:889-891 | rendering some rectangles draws the stack of the moment on exactly the pixels they cover |
| `Desktop.Server.Render` | desktop/src/desktop.cpp:781-887 | one render draws the windows as they are now |
| `Desktop.Server.RenderAll` | desktop/src/desktop.cpp:889-891 | the loop renders each rectangle, in order |

## Left out

- Pixel drawing, fonts, themes, cursor, taskbar and keyboard maps in the desktop; the mouse appears only as the moves and sizes it gives to a window.
- `DesktopSessions.SessionShows`: what a client draws into its surface is not modelled, so a damaged pixel is up to date when it was drawn after the damage message; renders caused by the mouse are not part of a session.
- `Desktop.Server.HandleMessage`: the window stack is the value that `Compositor.WindowStack` is proved to hold; dragging state is not adjusted.
- `Desktop.Server.CreateWindow`: the reply messages and the closing of handles are not modelled; which handles open is a parameter.
- `Compositor.Chrome`: coordinates are unbounded integers; overflow of 32-bit screen coordinates is not modelled.
- Device bring-up, PCI access, reset waits, verbs beyond the route, and locking in the audio and network drivers.
- `PcmRing.Stream.Poll`: a link position outside the ring, at which the code returns early, is excluded by assumption, and stopping the stream is taken to succeed.
- `EthernetRings.Receiver.ServiceDevice`: the reap of transmit slots and the statistics counters at its start are not part of the receive model.
- Interrupt causes, link state and debug counters of the network driver.
- Service file syntax, login, users, sandboxes and the pipes given to a service.
- `Services.Manager.HandleRequest`: the text of the reply is not modelled, nor is the authorization in front of it, which is the module `Authorization`.
- `Services.Manager.ReapOne`: the log lines it appends are not tied to the table; the counter of starts does not wrap at 32 bits.
- The digest in an authorization request is an uninterpreted number.
- `Editor.Editor`: a line buffer is a value that is replaced as a whole; only the array of buffers is updated in place. The status line is not modelled.
- `Editor.Editor.SaveDocument`: which writes succeed is a parameter; a write that stores fewer bytes than asked is not modelled.
- Rendering in the word processor, and scrolling.
- `Memory.Ram.CopyWord`: a word is eight bytes of the array; the machine's byte order cancels out.
- The base-32 text form and the field list of a debug token.
- `Mus.Player.MixMusicFrame`: voices and samples are not modelled, the effects applied stand for them; where the code never returns, the model says so and returns.
- Song registration, volume, and sound effects.
