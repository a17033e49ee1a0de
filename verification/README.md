# Proofs about the SUR40 driver and its TUIO server

The SUR40 is a tabletop touch screen. Its kernel driver reads touch blobs and infrared frames from USB; a user-space
program tracks the blobs as TUIO cursors and tagged objects and streams them as Open Sound Control (OSC) packets over
UDP, TCP and WebSockets. This project models the parts of that path that are hard to get right and proves what they
are relied on for:

- **OSC packets** (`Bytes`, `OscFormat`, `OscDocument`, `OscWriter`, `OscReceived`, `OscRoundTrip`). The format is a
  recursive function from trees of bundles and messages to bytes. The outbound stream is a class over one array, with
  its type tags growing down from the end and its open elements linked through their own size slots; every operation
  is tied to a document of closed elements, open bundles and a pending message. The parser is the library's: string
  scanner, message and bundle constructors, iterators. The main law is the round trip: a written tree is read back
  exactly when the array brackets of each of its messages are equal in number and no address begins with `#`.
- **The TUIO packetiser** (`TuioServer`), built on that stream: which frames can be sent, how they are split, and that
  a receiver gets the same contacts.
- **The kernel video pipeline** (`VideoPipeline`, `VideoSafety`, `VideoSync`). The class `Sur40` has the completion
  handlers and streaming calls; their specifications are the steps of a system with an abstract packet stream, URB
  errors, buffers queued at any time, start, stop and unplug. Safety and progress hold over every run;
  synchronisation over every run without URB errors.
- **The kernel touch pipeline** (`TouchPipeline`): reassembly of frames of blobs, and the use count of its URBs.
- **Contacts** (`Motion`, `CursorIds`, `Lifecycle`, `FrameLoop`): motion over real numbers, the cursor ID allocator,
  and the frame loop that decides when a contact that is no longer reported goes away. `Lifecycle` gives the effect of
  a frame as functions on values; `FrameLoop` ties the imperative loops over the manager's lists to them.
- **Codecs** (`StreamSenders`, `Base64`, `Sha1`): framing on sockets that take part of what they are given (RFC 6455,
  section 5.2, for WebSockets), base64 (RFC 4648, section 4) and SHA-1 (FIPS 180-4).

`dafny verify dfyconfig.toml` checks everything.

## What turned out not to hold

- A blob's length is never enforced: both bound checks in the message constructor build an exception and drop it
  (`tuio/oscpack/osc/OscReceivedElements.cpp:693,699`). `OscReceived.OverrunAccepted` gives a message that is accepted
  although its blob ends four bytes behind it; `OscReceived.InsideUnlessBlobOverruns` says that all arguments of an
  accepted message lie inside it exactly when no blob overruns.
- The bundle constructor never returns on an element of size 0xFFFFFFFC, because `4 + elementSize` is then zero in 32
  bits. `OscReceived.StuckBundle` is such a bundle of 20 bytes; `OscReceived.DivergesOnlyOnStuckSize` says that no
  other size has that effect.
- The message constructor counts brackets without looking at their order: `OscRoundTrip.ReversedBracketsAccepted` is a
  message with `]` before `[` that is accepted and comes back as written. The round trip therefore asks for equal
  numbers only (`OscRoundTrip.MessageReadBack`), and `OscReceived.AcceptedBalances` says that it must.
- The stream takes arguments while no message is open. They count in Size() but belong to no element, and the next
  element drops them. The law that an operation runs out of memory exactly if the packet would become too large holds
  exactly as long as there are none (`OscDocument.NeededIsSize`); `OscDocument.LooseArgument` is one that is refused
  although it would fit.
- A tagged object that moves and is no longer reported is removed by the first frame that finds it standing still. That
  takes up to two frames that come a whole millisecond after the one before; other frames do not count
  (`Lifecycle.TagGoesExactly`, `Lifecycle.TagStaysWhile`). With every frame apart it goes in its first, second or third
  frame (`Lifecycle.TagGoesInTime`), with none apart never (`Lifecycle.TagLingers`), and `Lifecycle.MovedTagStays` is
  a run from an empty list in which that happens.
- Cursor identifiers stay contiguous under external additions, and under an external removal exactly if the cursor was
  not listed (`CursorIds.TuioManager.RemoveExternalTuioCursor`). `CursorIds.ExternalRemovalLosesDensity` then reaches
  the allocator branch that is otherwise dead.
- Removing a cursor that is not listed puts it among the free ones all the same, which keeps identifiers distinct
  exactly if nobody has the cursor or its identifier (`CursorIds.TuioManager.RemoveTuioCursor`).
- Wherever in a frame the driver starts to read, it is in step with the very next frame if and only if the last packet
  of this one does not look like a header: a header's size, the magic and a permitted frame size
  (`VideoSync.ConvergesIff`, and `VideoSync.ResyncConverges` for a hunt). Otherwise the next header is missed;
  `VideoSync.FalseHeaderLosesFrame` says what is lost when that packet announces an image, and `VideoSync.SyncIsLost` is
  a stream and an error-free run on which it is.
- A frame that has the same time as the one before leaves the cursors it does not report where they are
  (`Lifecycle.MissingCursorsGo`); `Lifecycle.CursorsListedExactly` is the law over all runs, and with advancing times
  the cursors listed are those of the last frame (`Lifecycle.CursorsAreTheReported`).
- Starting the URBs does not look at whether the device is gone, and stopping them does: a first user, or a stream, that
  starts after the unplug takes back one poisoning for good. `TouchPipeline.Pipeline.PipelineGet` and
  `VideoSafety.StartAfterUnplug` say when the URBs stay idle all the same.
- A packet inside a video frame has a header's size exactly when the frame leaves 20 bytes over
  (`VideoSafety.HeaderInsideIff`); with USB packet sizes an image does not.

## Model

| member | source | states |
|---|---|---|
| OscWriter.OutboundPacketStream.BeginBundle | tuio/oscpack/osc/OscOutboundPacketStream.cpp:320-336 | refuses inside a message, and for memory exactly if size, slot and head exceed the capacity; a refusal changes no field or byte; otherwise the buffer holds the layout of the document with one more open bundle |
| OscWriter.OutboundPacketStream.EndBundle | tuio/oscpack/osc/OscOutboundPacketStream.cpp:339-351 | fills the innermost open slot with the bundle's length, restores the enclosing slot from the link kept in it, and leaves the size as it was |
| OscWriter.OutboundPacketStream.BeginMessage | tuio/oscpack/osc/OscOutboundPacketStream.cpp:354-380 | opens a message with its padded address under the same rules, and keeps four bytes for its tag string |
| OscWriter.OutboundPacketStream.EndMessage | tuio/oscpack/osc/OscOutboundPacketStream.cpp:383-433 | moves the arguments up and puts the reversed tags before them, so that the bytes are the message's encoding; the size does not change |
| OscWriter.OutboundPacketStream.BeginElement | tuio/oscpack/osc/OscOutboundPacketStream.cpp:179-197 | opens a size slot that holds the offset of the slot around it, or none for the outermost element |
| OscWriter.OutboundPacketStream.EndElement | tuio/oscpack/osc/OscOutboundPacketStream.cpp:200-227 | writes the length over the link and makes the linked slot the open one |
| OscWriter.ElementClosed | tuio/oscpack/osc/OscOutboundPacketStream.cpp:200-227 | after any element is closed, the closed bytes are those of the document with that element added, and the link found in its slot is the offset of the slot around it |
| OscWriter.MessageClosed | tuio/oscpack/osc/OscOutboundPacketStream.cpp:383-433 | splicing in the tags and filling the slot turns the layout of an open message into that of the closed one |
| OscWriter.ArgumentLaid | tuio/oscpack/osc/OscOutboundPacketStream.cpp:256-264 | whenever the space check passes, inside a message or not, the new argument ends below the new tag, and both keep the layout |
| OscWriter.OutboundPacketStream.CheckForAvailableArgumentSpace | tuio/oscpack/osc/OscOutboundPacketStream.cpp:256-264 | inside a message, passes exactly if the packet with that argument, closed, fits the capacity |
| OscWriter.OutboundPacketStream.Size | tuio/oscpack/osc/OscOutboundPacketStream.cpp:283-293 | is the document's size, at most the capacity; the arguments and tags of an open message never overlap |
| OscWriter.OutboundPacketStream.AppendFlag | tuio/oscpack/osc/OscOutboundPacketStream.cpp:436-465 | appends an argument without data, or refuses and changes nothing |
| OscWriter.OutboundPacketStream.AppendWord | tuio/oscpack/osc/OscOutboundPacketStream.cpp:468-541 | appends a 32-bit argument in network order, or refuses and changes nothing |
| OscWriter.OutboundPacketStream.AppendLong | tuio/oscpack/osc/OscOutboundPacketStream.cpp:544-597 | appends a 64-bit argument in network order, or refuses and changes nothing |
| OscWriter.OutboundPacketStream.AppendText | tuio/oscpack/osc/OscOutboundPacketStream.cpp:600-637 | appends a string or symbol padded to four bytes, or refuses and changes nothing |
| OscWriter.OutboundPacketStream.AppendBlob | tuio/oscpack/osc/OscOutboundPacketStream.cpp:640-659 | appends a length, the data and padding, or refuses and changes nothing |
| OscWriter.OutboundPacketStream.Stream | tuio/oscpack/osc/OscOutboundPacketStream.cpp:320-659 | any sequence of operations ends with the document and the exception of running it on documents |
| OscDocument.RunTree | tuio/oscpack/osc/OscOutboundPacketStream.cpp:236-293 | for every tree, the operations that stream it succeed exactly if its encoding and its slot still fit, wherever in a document without stray arguments they start, and then add that tree |
| OscDocument.OnlyTreesSucceed | tuio/oscpack/osc/OscOutboundPacketStream.cpp:320-433 | with every argument inside a message, a run that succeeds and leaves nothing open consists of exactly the operations that stream the elements of its document: only well-nested runs do |
| OscDocument.RunRecorded | tuio/oscpack/osc/OscOutboundPacketStream.cpp:320-433 | a run that succeeds has written exactly its operations, whatever is still open: none is lost, added or reordered |
| OscDocument.NeededIsSize | tuio/oscpack/osc/OscOutboundPacketStream.cpp:236-264 | the space that each check asks for is never less than the size afterwards, and equals it if and only if no argument is streamed, or was left, outside a message |
| OscDocument.LooseArgument | tuio/oscpack/osc/OscOutboundPacketStream.cpp:468-477 | a number streamed into an empty packet is taken, counts in its size and belongs to nothing; it is refused where it would fit |
| OscDocument.EndKeepsSize | tuio/oscpack/osc/OscOutboundPacketStream.cpp:283-293 | ending a message or a bundle never changes the size, whatever is open |
| OscDocument.SizeNeverShrinks | tuio/oscpack/osc/OscOutboundPacketStream.cpp:283-293 | no operation shrinks the packet by more than the bytes of arguments outside a message, which a new element drops |
| OscWriter.OutboundPacketStream.WriteAlone | tuio/oscpack/osc/OscOutboundPacketStream.cpp:179-433 | streaming any tree into a cleared buffer leaves exactly its encoding in the first Size() bytes, or runs out of memory exactly if the encoding is longer than the capacity |
| OscWriter.OutboundPacketStream.Packet | tuio/oscpack/osc/OscOutboundPacketStream.cpp:283-299 | the bytes a sender transmits are the encoding of all closed elements, and behind it only arguments streamed outside a message |
| OscReceived.FindStr4End | tuio/oscpack/osc/OscReceivedElements.cpp:65-84 | the bounded scan finds the end of the four-byte group with the first terminator, or nothing |
| OscReceived.FindStr4EndUnchecked | tuio/oscpack/osc/OscReceivedElements.cpp:49-62 | the scan without a bound agrees with the bounded one wherever that one succeeds |
| OscReceived.InitMessage | tuio/oscpack/osc/OscReceivedElements.cpp:585-722 | accepts, and finds tags and arguments, exactly as the recursive scan over the tags says |
| OscReceived.CounterZero | tuio/oscpack/osc/OscReceivedElements.cpp:646-654 | the unsigned nesting counter is zero if and only if the tags hold as many opening as closing brackets |
| OscReceived.AcceptedBalances | tuio/oscpack/osc/OscReceivedElements.cpp:707-711 | every accepted message has as many opening as closing brackets |
| OscReceived.ArgumentIterator.Advance | tuio/oscpack/osc/OscReceivedElements.cpp:487-555 | stays where it is without type tags; otherwise moves to the next tag and past the argument, or stays on the terminator and on an unknown tag |
| OscReceived.IterationFollowsInit | tuio/oscpack/osc/OscReceivedElements.cpp:487-555 | for every accepted message, k steps of the iterator reach the offset the constructor computed after k tags, aligned, and the end after as many steps as there are tags |
| OscReceived.InsideUnlessBlobOverruns | tuio/oscpack/osc/OscReceivedElements.cpp:690-701 | the arguments of an accepted message all stay inside it if and only if no blob overruns |
| OscReceived.OverrunAccepted | tuio/oscpack/osc/OscReceivedElements.cpp:690-701 | there is an accepted message whose blob overruns |
| OscReceived.InitBundle | tuio/oscpack/osc/OscReceivedElements.cpp:740-786 | accepts, refuses or loops exactly as the recursive scan over the elements says |
| OscReceived.DivergesOnlyOnStuckSize | tuio/oscpack/osc/OscReceivedElements.cpp:768-782 | the element loop fails to terminate if and only if it reaches an element of size 0xFFFFFFFC |
| OscReceived.StuckBundle | tuio/oscpack/osc/OscReceivedElements.cpp:768-782 | there is a 20-byte bundle on which it does |
| OscReceived.ElementsTile | tuio/oscpack/osc/OscReceivedElements.h:160-194 | over an accepted bundle the iterator steps from element to element without gap and meets the end after ElementCount steps |
| OscRoundTrip.MessageReadBack | tuio/oscpack/osc/OscReceivedElements.cpp:585-722 | a written message yields its address, tags and argument values if and only if its brackets are equal in number, and is refused otherwise |
| OscRoundTrip.ReversedBracketsAccepted | tuio/oscpack/osc/OscReceivedElements.cpp:646-654 | a message with a closing before an opening bracket is accepted and read back |
| OscRoundTrip.ArgumentReadBack | tuio/oscpack/osc/OscReceivedElements.cpp:202-450 | constructor, iterator and accessor agree on every written argument |
| OscRoundTrip.BundleAccepted | tuio/oscpack/osc/OscReceivedElements.cpp:740-786 | every written bundle is accepted, with its element count |
| OscRoundTrip.ReadBack | tuio/oscpack/osc/OscReceivedElements.cpp:559-786 | reading an encoded tree returns the same tree if and only if the tree is readable: no address begins with the bundle mark and brackets are equal in number |
| OscRoundTrip.EncodeInjective | tuio/oscpack/osc/OscReceivedElements.cpp:559-786 | two different readable trees never share a packet |
| OscRoundTrip.Int32ReadBack | tuio/oscpack/osc/OscReceivedElements.cpp:93-110 | every 32-bit signed value survives the unsigned wire word |
| OscFormat.ExampleFrequency | tuio/oscpack/osc/OscOutboundPacketStream.cpp:354-433 | the first example message of the Open Sound Control 1.0 specification, byte by byte |
| OscFormat.ExampleFoo | tuio/oscpack/osc/OscOutboundPacketStream.cpp:354-433 | its second example, with numbers of either sign and a padded string |
| OscFormat.ExampleBundle | tuio/oscpack/osc/OscOutboundPacketStream.cpp:320-351 | a bundle for now around the first example: mark, time tag, and the element behind its big-endian size |
| OscFormat.TagCodes | tuio/oscpack/osc/OscReceivedElements.cpp:628-712 | which tags carry no data, 32 bits, 64 bits, text and blobs |
| OscFormat.ExampleBlob | tuio/oscpack/osc/OscOutboundPacketStream.cpp:640-659 | a blob of three bytes behind its length, padded |
| TuioServer.MessageSizesExact | tuio/TUIO/TuioManager.h:28-30 | 108, 88 and 116 are exactly the bytes of one set message and one fseq message of each profile, size slots included |
| TuioServer.SplitCovers | tuio/TUIO/TuioServer.cpp:181-194 | over all packets of a frame the set messages are the selected contacts, each once and in list order |
| TuioServer.SplitFits | tuio/TUIO/TuioServer.cpp:181-194 | if the header leaves room for one set and one fseq message, no packet exceeds the buffer |
| TuioServer.PacketReadBack | tuio/TUIO/TuioServer.cpp:345-387 | a receiver decodes every packet to a closed bundle of source, alive list, its set messages and fseq |
| TuioServer.FrameReceived | tuio/TUIO/TuioServer.cpp:178-283 | a frame that fits arrives: packets within the buffer; a receiver reads from each the source, the session of every live contact in list order, set messages with session, symbol and values of its contacts, and the frame number; together they are the selected contacts |
| TuioServer.AliveSays | tuio/TUIO/TuioServer.cpp:345-354 | the alive message lists the session identifiers of all live contacts, in list order |
| TuioServer.NamesSpelled | tuio/TUIO/TuioServer.cpp:285-387 | the addresses and message names are those of the protocol |
| TuioServer.SetSays | tuio/TUIO/TuioServer.cpp:356-382 | a set message gives the session, for objects the symbol, and then the values in order |
| TuioServer.SelectedPlaces | tuio/TUIO/TuioServer.cpp:190-191 | the contacts sent are those at the places of the selected ones, in increasing order |
| TuioServer.SendsWhenDue | tuio/TUIO/TuioServer.cpp:195-199 | a profile without changes is sent exactly if it is enabled, reminders are on, and the interval has passed in microseconds |
| TuioServer.ProfileReceived | tuio/TUIO/TuioServer.cpp:178-283 | a commit sends nothing for a profile exactly if nothing changed and nothing is due; else a receiver gets all live sessions, and the state of just the contacts touched, of all on full updates, of none on a reminder |
| TuioServer.SilentUntilDue | tuio/TUIO/TuioServer.cpp:194-216 | after a commit nothing is pending, and the profile is silent until the interval has passed since it was last sent |
| TuioServer.Server.AddOscSender | tuio/TUIO/TuioServer.cpp:108-128 | the packet capacity is always the smallest buffer size of all senders |
| TuioServer.Server.StartBundle | tuio/TUIO/TuioServer.cpp:345-354 | runs out of memory exactly if source and alive messages do not fit |
| TuioServer.Server.VisitContact | tuio/TUIO/TuioServer.cpp:183-192 | one turn of the loop: sends and restarts exactly if fewer bytes are left than one set and one fseq message, then adds a selected contact |
| TuioServer.Server.SendFrame | tuio/TUIO/TuioServer.cpp:181-194 | the loop never runs out of memory if and only if the empty bundle leaves enough bytes, and then delivers exactly the packets of the split; else some first ones of them |
| TuioServer.Server.CommitFrame | tuio/TUIO/TuioServer.cpp:178-283 | sends objects, cursors and blobs in this order, each if updated or due by its clock; fails exactly if one of them does not fit, and then has delivered some first ones of the packets due and nothing else; otherwise delivers exactly the packets of the splits, clears the update flags and sets the clocks of what was sent |
| VideoPipeline.CompleteSound | kernel/sur40.c:767-873 | no completion handler starts a second transfer, loses a buffer, or leaves a frame transfer without one |
| VideoPipeline.Sur40.VideoHandleHeader | kernel/sur40.c:709-765 | on a header: hunt on a wrong magic, drain the announced count on a wrong size or without a buffer, else start the frame transfer; a failed submission returns the buffer as failed |
| VideoPipeline.Sur40.VideoHdrComplete | kernel/sur40.c:767-791 | retries after an error, hunts after a packet of another size, else handles the header |
| VideoPipeline.Sur40.VideoFrameComplete | kernel/sur40.c:793-824 | returns the current buffer, numbered and done only if the transfer is complete, and asks for the next header |
| VideoPipeline.Sur40.VideoDrainComplete | kernel/sur40.c:826-873 | hunting: takes a header at the end of whole packets; counted: goes on until the count is used up, and hunts after a short packet |
| VideoPipeline.Sur40.Start | kernel/sur40.c:1341-1365 | resets the session and starts the header transfer; any failure returns every buffer as queued |
| VideoPipeline.Sur40.ReleaseAll | kernel/sur40.c:1378-1385 | returns the current and all waiting buffers as failed: then every buffer ever queued has been returned |
| VideoSafety.RunKeeps | kernel/sur40.c:673-903 | whatever completions, errors, queueing, start, stop and unplug interleave, a stop and an unplug within each other too, the driver's invariant holds |
| VideoSafety.StopIsFinal | kernel/sur40.c:876-884 | at most one video transfer is ever in flight; none is once streaming has stopped or the device is gone, and none can be submitted then |
| VideoSafety.PoisonBalanced | kernel/sur40.c:876-903 | each URB's poison count is what the stop has put on it, 0 while streaming and 1 once stopped, plus what the unplug has; across failed starts and overlapping stops and unplugs; it stays positive after the unplug |
| VideoSafety.StartAfterUnplug | kernel/sur40.c:886-903 | after any run that ends stopped and unplugged, a start leaves every URB idle if and only if the touch pipeline cannot be had, or the header URB is refused or was poisoned twice |
| VideoSafety.BuffersConserved | kernel/sur40.c:1312-1392 | every queued buffer is returned once, current, or waiting, and they are returned in queue order |
| VideoSafety.StopReturnsAll | kernel/sur40.c:1372-1392 | the end of stop_streaming leaves the driver without a buffer, also while an unplug is under way or after it: all that were queued have been returned |
| VideoSafety.GoesOn | kernel/sur40.c:767-873 | over every run from the start, with any errors, short packets and false headers: while streaming and plugged in, a transfer is in flight if and only if since the start no completion was cancelled and the USB core refused no submission |
| VideoSafety.GoesOnAfterError | kernel/sur40.c:774-779 | after an error of a header or frame transfer the header is asked for again, with a frame given up as failed; after one of a drain the driver hunts; the waiting buffers stay |
| VideoSafety.SessionStarts | kernel/sur40.c:1341-1365 | after any run, a start while plugged in succeeds exactly if the touch pipeline and the USB core accept it; it begins counting anew with the waiting buffers, and a failed one leaves none waiting and every URB poisoned once |
| VideoSafety.RunDrains | kernel/sur40.c:858-873 | over every run, no bytes are left to drain while a header or frame transfer is in flight |
| VideoSafety.StepReturns | kernel/sur40.c:793-824 | a step returns a buffer as done exactly if it completes a whole frame; buffers as queued only at a start that fails, which returns all that waited; all others as failed |
| VideoSafety.DoneIsWholeFrame | kernel/sur40.c:793-824 | a buffer returned as done holds exactly one error-free transfer of sizeimage bytes that directly followed a 20-byte packet with the right magic and size |
| VideoSafety.DoneIsNumbered | kernel/sur40.c:813-818 | completed frames of a session are numbered 0, 1, 2, ... in 32 bits, errors not counted |
| VideoSafety.DoneInOrder | kernel/sur40.c:793-824 | the contents of the completed frames lie in the stream one behind the other, in the order of return: no part of it is delivered twice |
| VideoSafety.NoHeaderInside | kernel/sur40.c:841-856 | no packet inside a delivered frame has a header's size unless the packet size leaves 20 bytes over |
| VideoSafety.HeaderInsideIff | kernel/sur40.c:841-856 | one has if and only if the packet size leaves 20 bytes over, which USB packet sizes do not |
| VideoSync.StaysInSync | kernel/sur40.c:709-873 | without errors the driver stays at frame boundaries over every run; of the frames whose header it took, whatever their sizes, it counts exactly the images as delivered, under way or dropped |
| VideoSync.DrainTakesChunks | kernel/sur40.c:698-706 | a frame is drained by exactly its announced byte count, in as many transfers as its 64K chunks, and a count never reaches 0 on the way |
| VideoSync.ChunksIsCeiling | kernel/sur40.c:698-706 | that number is count / 64K rounded up |
| VideoSync.FrameArrives | kernel/sur40.c:793-824 | a frame transfer started at its boundary is complete and ends at the next header |
| VideoSync.LostHeader | kernel/sur40.c:781-790 | started in the middle of a frame, the driver hunts for its end if and only if that does not look like a header |
| VideoSync.HuntArrives | kernel/sur40.c:841-856 | a hunting transfer skips 64K of the old frame, or its rest, and takes the next header when that ends the transfer; it never overflows, and the hunt goes on past a short end if and only if that does not look like a header |
| VideoSync.ShortEnd | kernel/sur40.c:841-856 | at a short last packet the hunt goes on if and only if that packet does not look like a header |
| VideoSync.ResyncConverges | kernel/sur40.c:841-856 | after a fixed number of transfers a hunt has caught the very next frame, whatever its size, having skipped the rest of the old one only, if the end of that does not look like a header; otherwise it has missed the next header |
| VideoSync.ConvergesIff | kernel/sur40.c:767-873 | from a header transfer at any packet of a frame or at its header, the very next frame is caught after a fixed number of transfers if and only if the end of this one does not look like a header; for an image this is the same as being in step with one image more counted |
| VideoSync.FalseHeaderLosesFrame | kernel/sur40.c:709-765 | where the end of the old frame does announce an image, the buffer comes back as failed and the next frame is neither delivered nor counted as dropped |
| VideoSync.SyncIsLost | kernel/sur40.c:709-765 | a stream and a run without errors from the driver's start on which that happens |
| VideoSync.AnywhereRun | kernel/sur40.c:767-873 | from every such position in a frame whose end does not look like a header there is an error-free run of the length that convergence needs |
| VideoSync.SyncRun | kernel/sur40.c:709-873 | in step, there is an error-free run that takes any number of the headers to come |
| VideoSync.InSyncEnabled | kernel/sur40.c:689-706 | in step, the transfer in flight can complete without overflow |
| TouchPipeline.Touch.TouchComplete | kernel/sur40.c:519-577 | the handler follows the assembly step, and between completions no blob or at least one is missing |
| TouchPipeline.FrameAssembled | kernel/sur40.c:551-573 | a frame of n blobs in any packets, padded behind, reports its first n blobs in order and then one sync |
| TouchPipeline.FramesAssembled | kernel/sur40.c:551-573 | the same for any number of frames one after the other |
| TouchPipeline.ErrorRealigns | kernel/sur40.c:530-550 | whatever came before an error or a packet of a wrong length, the frames after it are reported in full, and of the interrupted one nothing more |
| TouchPipeline.CancelledIsNothing | kernel/sur40.c:527-528 | a cancelled completion leaves the frame under way as it was |
| TouchPipeline.Pipeline.TouchStart | kernel/sur40.c:591-611 | all URBs run, or a submission is refused: then all are poisoned again and none runs, or after an unplug those before the refused one run |
| TouchPipeline.Pipeline.PipelineGet | kernel/sur40.c:618-633 | the first user starts the URBs, later ones only count; a failure leaves no trace; after an unplug idle URBs stay idle if and only if there is a user, the device does not answer, or the first URB is poisoned more than once or refused |
| TouchPipeline.Pipeline.PipelinePut | kernel/sur40.c:635-641 | the last user poisons the URBs; without users nothing changes; poison counts are 0 with users and 1 without |
| TouchPipeline.Pipeline.TouchCompleted | kernel/sur40.c:461-470 | a touch URB runs on after every completion, errors included, unless it is cancelled, poisoned or refused |
| TouchPipeline.Pipeline.Disconnect | kernel/sur40.c:1244-1247 | the unplug leaves every touch URB idle, poisoned once if it was in use and twice if not |
| CursorIds.TuioManager.ClosestFree | tuio/TUIO/TuioManager.cpp:136-140 | finds the first of the nearest free cursors |
| CursorIds.NearestByDistance | tuio/TUIO/TuioPoint.cpp:124-128 | comparing squares chooses the same cursor as comparing the distances: one with the least distance of all free ones, the first of them |
| CursorIds.DistanceSquaredIs | tuio/TUIO/TuioPoint.cpp:124-128 | the square that is compared is that of the distance |
| CursorIds.TuioManager.AddTuioCursor | tuio/TUIO/TuioManager.cpp:130-163 | gives out the nearest free identifier or the next one; identifiers stay distinct; without external cursors live and free ones stay exactly 0..maxCursorID and the new one is below the peak number of live cursors |
| CursorIds.TuioManager.TakeId | tuio/TUIO/TuioManager.cpp:133-149 | the identifier is nobody's; without external cursors the branch that invents one is never taken |
| CursorIds.TuioManager.AddExternalTuioCursor | tuio/TUIO/TuioManager.cpp:165-197 | the same choice for a cursor of the caller; identifiers stay distinct, and stay exactly 0..maxCursorID if they were |
| CursorIds.TuioManager.RemoveTuioCursor | tuio/TUIO/TuioManager.cpp:229-272 | frees the cursor, or with the largest identifier shrinks the maximum to the largest live one and deletes the free cursors above it, the others kept in order; every listed cursor becomes free or deleted; with a cursor that is not listed, identifiers stay valid exactly if it has the maximum or more, or nobody has it or its identifier; no free identifier ever is the maximum |
| CursorIds.TuioManager.Shrink | tuio/TUIO/TuioManager.cpp:242-268 | the cursor with the largest identifier is deleted; no live or free identifier exceeds the new maximum, and none up to it is lost |
| CursorIds.TuioManager.DropFreeAbove | tuio/TUIO/TuioManager.cpp:253-260 | exactly the free cursors above the maximum are deleted |
| CursorIds.KeptPlaces | tuio/TUIO/TuioManager.cpp:253-260 | the free cursors that are kept are those at the places of all up to the maximum, in order |
| CursorIds.TuioManager.RemoveExternalTuioCursor | tuio/TUIO/TuioManager.cpp:274-285 | only unlists the cursor; one that is not listed changes nothing; contiguous identifiers stay so if and only if it was not listed |
| CursorIds.Counted | tuio/TUIO/TuioManager.cpp:130-163 | distinct identifiers below n are n in number exactly if they are all of them |
| CursorIds.ShrunkRange | tuio/TUIO/TuioManager.cpp:242-268 | cutting a complete range of identifiers leaves a complete range |
| CursorIds.ExternalRemovalLosesDensity | tuio/TUIO/TuioManager.cpp:274-285 | after an external removal an identifier is lost and the inventing branch is taken |
| Motion.ElapsedIsFloor | tuio/TUIO/TuioTime.cpp:61-71 | subtraction with its borrow is exact, and the elapsed time is the whole milliseconds in it |
| Motion.SpeedIsLength | tuio/TUIO/TuioContainer.cpp:149-178 | after an update speed is the length of the velocity, velocity times time is the displacement, and acceleration times time is the change of speed |
| Motion.AxesAccelerate | tuio/TUIO/TuioContainer.cpp:161-167 | the acceleration along each axis times time is the change of the speed along it |
| Motion.StateFollowsSpeed | tuio/TUIO/TuioContainer.cpp:175-177 | a contact accelerates exactly if it became faster and decelerates exactly if it became slower |
| Motion.NoTimeNoMotion | tuio/TUIO/TuioContainer.cpp:149-178 | without a millisecond in between, speeds and accelerations stay, and only place, path and angle change |
| Motion.AngleFollows | tuio/TUIO/TuioObject.cpp:96-127 | the angle is the reported one up to whole turns and the rotation speed the turn it took; reported within one turn, it stays there and takes the shorter way round |
| Motion.RotationFollows | tuio/TUIO/TuioObject.cpp:119-127 | rotation acceleration times time is the change of the rotation speed; the object rotates exactly if that changed and its speed did not |
| Motion.PathIsLastPoints | tuio/TUIO/TuioContainer.cpp:171-173 | after any number of updates the path is the last 128 points |
| Motion.StopStandsStill | tuio/TUIO/TuioObject.cpp:129-131 | stopping keeps the place, clears both speeds, and leaves the object moving exactly if one of them was not zero; without a millisecond in between a moving object stays moving |
| Motion.CursorStops | tuio/TUIO/TuioContainer.cpp:180-183 | a stopped cursor keeps its place and path and no longer moves |
| Motion.RemovedKeepsPlace | tuio/TUIO/TuioContainer.cpp:242-245 | a removed contact keeps its place and path and does not move |
| Motion.ReportedElsewhereMoves | tuio/TUIO/TuioContainer.cpp:149-178 | an object that stood still and is reported elsewhere a millisecond later or more is moving |
| Lifecycle.MissingCursorsGo | tuio/TUIO/TuioManager.cpp:574-600 | a frame leaves exactly the cursors it reports, each changed by its own reports alone, and unchanged those that already had its time |
| Lifecycle.CursorsListedExactly | tuio/Sur40_TUIO.cpp:49-118 | over every run, a cursor is listed if and only if some frame reported it and no later one had another time, or it was listed before and every frame had its time |
| Lifecycle.CursorsAreTheReported | tuio/Sur40_TUIO.cpp:49-118 | while no frame repeats the time before it, the cursors listed after a run are those the last frame reported |
| Lifecycle.ReportsActAlone | tuio/Sur40_TUIO.cpp:65-102 | sessions stay distinct, and reports of other contacts do not affect one |
| Lifecycle.CursorPlaced | tuio/Sur40_TUIO.cpp:78-88 | after a frame a cursor is where the last report of it says, at the frame's time; a new one is at rest there |
| Lifecycle.CursorsInOrder | tuio/TUIO/TuioManager.cpp:152-153 | a frame keeps the order of the cursors that stay and enters new ones behind them |
| Lifecycle.TagPlaced | tuio/Sur40_TUIO.cpp:90-100 | after a frame with a new time an object is where the first report of it says, with that angle up to whole turns; a new one has just that angle and is at rest |
| Lifecycle.TagsInOrder | tuio/TUIO/TuioManager.cpp:72-86 | the same order for objects |
| Lifecycle.TagGoesExactly | tuio/TUIO/TuioManager.cpp:527-553 | over every run of frames, an unreported object is gone if and only if one of them, with a new time, came after as many frames a millisecond apart as its motion asks for: none, one or two |
| Lifecycle.TagStaysWhile | tuio/TUIO/TuioManager.cpp:527-553 | while no frame repeats a time, it is listed if and only if it has more lives than stops before the last frame |
| Lifecycle.TagGoesInTime | tuio/TUIO/TuioManager.cpp:527-553 | with every frame a millisecond apart it goes in its first, second or third frame, which of them decided by whether it moved and whether both speeds are zero |
| Lifecycle.TagLingers | tuio/TUIO/TuioObject.cpp:119-124 | with no frame a millisecond apart a moving object is never removed |
| Lifecycle.MovedTagStays | tuio/TUIO/TuioObject.cpp:119-124 | a run from an empty list, of any length, in which that happens |
| FrameLoop.Sur40Tuio.GetTuioCursor | tuio/TUIO/TuioDispatcher.cpp:126-136 | finds the first cursor of a session, or none |
| FrameLoop.Sur40Tuio.ReportTouch | tuio/Sur40_TUIO.cpp:78-88 | updates the session's cursor or enters a new one at the end, and keeps the identifiers dense |
| FrameLoop.Sur40Tuio.ReportTag | tuio/TUIO/TuioManager.cpp:72-86 | updates the session's object once a frame, or enters a new one |
| FrameLoop.Sur40Tuio.StopUntouchedMovingCursors | tuio/TUIO/TuioManager.cpp:574-587 | stops exactly the moving cursors the frame did not touch |
| FrameLoop.Sur40Tuio.RemoveUntouchedStoppedCursors | tuio/TUIO/TuioManager.cpp:589-600 | the loop that restarts at every removal ends and leaves the order-preserving filter of the list |
| FrameLoop.Sur40Tuio.StopUntouchedMovingObjects | tuio/TUIO/TuioManager.cpp:527-541 | stops exactly the moving objects the frame did not touch |
| FrameLoop.Sur40Tuio.RemoveUntouchedStoppedObjects | tuio/TUIO/TuioManager.cpp:543-553 | ends and leaves the order-preserving filter of the list |
| FrameLoop.Sur40Tuio.RunFrame | tuio/Sur40_TUIO.cpp:49-118 | one turn of the loop does to both lists what the frame functions say, in the order report, stop, remove |
| FrameLoop.Sur40Tuio.Run | tuio/Sur40_TUIO.cpp:49-118 | so does any number of turns, which puts the list theorems to work on the program's lists |
| StreamSenders.HeaderReadBack | tuio/TUIO/WebSockSender.cpp:61-81 | a receiver reads every payload length and header size back, for the length prefix and for all three WebSocket forms |
| StreamSenders.WebSocketShortest | tuio/TUIO/WebSockSender.cpp:61-81 | no WebSocket header for the same length is shorter |
| StreamSenders.ExampleHeaders | tuio/TUIO/WebSockSender.cpp:61-81 | the headers of the binary examples in section 5.7 of RFC 6455 |
| StreamSenders.WebSocketHeader | tuio/TUIO/WebSockSender.cpp:61-81 | the header array is that header |
| StreamSenders.Client.SendAll | tuio/TUIO/WebSockSender.cpp:32-41 | whatever parts the socket takes, the client gets a prefix, and all of it exactly if the call succeeds |
| StreamSenders.Client.SendParts | tuio/TUIO/WebSockSender.cpp:91-98 | header and payload are one frame to the client, cut short at most where its stream ends |
| StreamSenders.TcpSender.SendOscPacket | tuio/TUIO/TcpSender.cpp:418-466 | refuses unconnected, empty and oversized packets; otherwise every listed client's stream goes on by the length-prefixed packet, or ends inside one |
| StreamSenders.TcpSender.SendWebSocketPacket | tuio/TUIO/WebSockSender.cpp:55-107 | the same with WebSocket frames |
| StreamSenders.Unframes | tuio/TUIO/TcpSender.cpp:418-466 | whole frames with an incomplete tail are cut apart where they were put together |
| StreamSenders.CutGivesNothing | tuio/TUIO/TcpSender.cpp:443-457 | a truncated frame gives the receiver nothing |
| StreamSenders.ClientReads | tuio/TUIO/TcpSender.cpp:418-466 | a client reads the packets sent since it joined: all of them while it is up, a prefix and one truncated frame once it is down |
| Base64.Base64 | tuio/TUIO/WebSockSender.cpp:274-311 | the loop and its two endings produce the encoding |
| Base64.DecodesEncoded | tuio/TUIO/WebSockSender.cpp:274-311 | the standard's decoder gives every byte sequence back |
| Base64.EncodesDecoded | tuio/TUIO/WebSockSender.cpp:274-311 | nothing else is accepted by the strict decoder: encoding undoes decoding |
| Base64.EncodedLength | tuio/TUIO/WebSockSender.cpp:279 | the output has 4 * ceil(n / 3) characters |
| Base64.TestVectors | tuio/TUIO/WebSockSender.cpp:274-311 | the test vectors of section 10 of RFC 4648 |
| Base64.SymbolHasValue | tuio/TUIO/WebSockSender.cpp:271 | the lookup string is the standard's table |
| Sha1.Sha1 | tuio/TUIO/WebSockSender.cpp:179-264 | for every message shorter than 2^29 bytes the digest is the one of section 6.1.2 of FIPS 180-4 |
| Sha1.BlockIsPadded | tuio/TUIO/WebSockSender.cpp:201-214 | in every residue case the block put together at offset i is that part of the padded message of section 5.1.1 |
| Sha1.LoopCoversPadded | tuio/TUIO/WebSockSender.cpp:199 | the loop's range is exactly the padded message |
| Sha1.PaddingIsLeast | tuio/TUIO/WebSockSender.cpp:194-199 | the padding is the least that fills a block |
| Sha1.BuildSchedule | tuio/TUIO/WebSockSender.cpp:216-221 | fills the array with the message schedule |
| Sha1.OrFormOfCh | tuio/TUIO/WebSockSender.cpp:232-233 | the OR form of Ch is the standard's |
| Sha1.OrFormOfMaj | tuio/TUIO/WebSockSender.cpp:236-237 | the OR form of Maj is the standard's |
| Sha1.RunRounds | tuio/TUIO/WebSockSender.cpp:223-248 | eighty rounds give the standard's working variables |
| Sha1.WordsRotate | tuio/TUIO/WebSockSender.h:60-61 | rotation by 1, 5 and 30 is rotation to the left by 1 and 5 and to the right by 2 |
| Sha1.SumsWrap | tuio/TUIO/WebSockSender.cpp:251-255 | sums of words are the 64-bit sums modulo 2^32; FiveWrap says so of the five terms of a round |
| Sha1.BlockIsReadBack | tuio/TUIO/WebSockSender.cpp:216-218 | the words of a block, written out most significant octet first, are the block |
| Sha1.OctetsAreDigits | tuio/TUIO/WebSockSender.cpp:258-263 | the octets of a word are its digits to the base 256 |
| Sha1.ConstantsAreRoots | tuio/TUIO/WebSockSender.cpp:231-238 | the four constants are 2^30 times the square roots of 2, 3, 5 and 10, rounded down |
| Sha1.ExampleSchedule | tuio/TUIO/WebSockSender.cpp:201-221 | padding and schedule of the message abc, as in the published example of the standard |
| Sha1.ExampleRounds | tuio/TUIO/WebSockSender.cpp:223-248 | rounds of all four kinds on that message, as in that example |

## Left out

- OscWriter.OutboundPacketStream.constructor: the capacity is at most 0x7FFFFFFF, the bound the comment in EndElement assumes.
- OscDocument.RunTree: it starts with no argument outside a message; one top-level element per Clear() is what a reader expects; the document may hold several, as the stream allows.
- OscRoundTrip.ArgumentReadBack: float, double, char, colour, MIDI and time tag values are raw 32- and 64-bit words; the overloads that share a layout share a method. Strings hold no NUL, as C strings.
- OscRoundTrip.ReadBack: encodings up to 0x7FFFFFFC bytes, the library's own bound on sizes.
- OscReceived.InitMessage: pointers do not overflow, and reads behind the message that stay inside the buffer are allowed, as in the source.
- OscReceived.ArgumentIterator.Advance: ComputeArrayItemCount is not modelled.
- TuioServer.Server.CommitFrame: how positions and angles are inverted is left out: values are words; so are sendFullMessages and the empty closing bundles, which use the same steps on another stream. Which profiles are marked as sent when a commit fails is not stated.
- VideoSafety.RunKeeps: the driver's spin lock and URB calls are atomic steps, and so is a start, which may fall into an unplug; runs hold no start after the unplug, which takes the video node away. VideoSafety.StartAfterUnplug says what one would do.
- VideoSync.ConvergesIff: frames announce at least one byte, because a size of 0 starts a hunt.
- TouchPipeline.Touch.TouchComplete: the contents of a blob and what is reported of it are opaque.
- TouchPipeline.Pipeline.PipelineGet: the locked section is one step, so no completion falls between its submissions.
- CursorIds.TuioManager.AddTuioCursor: distances are compared by their squares, over reals. The blob allocator is the same code and is left out.
- CursorIds.TuioManager.RemoveTuioCursor: listeners and printing are left out; deleting a cursor moves it to a ghost set, and a pointer to a deleted cursor is not passed.
- Motion.SpeedIsLength: numbers are reals, the library's square root is a parameter with its defining property, and filters and thresholds are off. The base class that cursors and objects share is a value inside them, so its update is a function; aliasing does not arise.
- Motion.PathIsLastPoints: the other update overloads, which take speeds from outside, are left out; so is TuioBlob.
- FrameLoop.Sur40Tuio.ReportTag: the symbol identifier is constant and left out; blob reports are ignored, as the program disables that profile.
- FrameLoop.Sur40Tuio.Run: turns in which the panel reports nothing and nothing is tracked only continue the loop and are left out; so is the commit, which TuioServer models.
- StreamSenders.TcpSender.SendOscPacket: sockets are objects that take any part of the data or fail, and fail for ever once shut down; threads and the mutex are left out: a client joins or leaves between packets.
- StreamSenders.TcpSender.SendWebSocketPacket: the handshake's order against data frames is left out.
- Base64.Base64: masks and shifts are written as remainders and quotients.
- Sha1.SumsWrap: sums are compared in 64-bit words, which no sum here overflows, not in unbounded numbers.
- Sha1.Sha1: longer messages are left out, because the code keeps the bit length in 32 bits and the byte length in an int.
- USB control messages, probing, V4L2 format calls, sockets, host lookup, shared memory and the viewers are not part of this model.
