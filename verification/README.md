# DMX/RDM stack and output engine: a verified model

This project models, in Dafny, the parts of the vizzz.di lighting node where a
mistake is hardest to see: the RDM controller and responder of its DMX driver,
the interrupt handlers under them, and the engine that computes what the lamps
are sent. `dafny verify dfyconfig.toml` checks the whole project.

| file | what it models |
|---|---|
| `Uids.dfy`, `Bus.dfy`, `Discovery.dfy` | RDM discovery (section 7 of ANSI E1.20): the binary search on a stack of 49 ranges, against a bus of any responders whose every exchange may be lost, garbled, answered by noise or not sent at all |
| `Bytes.dfy`, `Formats.dfy`, `Packets.dfy`, `PacketBuffer.dfy` | the wire codec (section 6.2 of ANSI E1.20): the format-string interpreter, header and checksum, and the redundant encoding of discovery responses |
| `Layout.dfy` | the same packets as numbers: which digit of which field is at which byte, and exactly which bytes are read as a packet |
| `Receive.dfy`, `Recognition.dfy` | the receive interrupt, and what it promises over whole packets and whole runs |
| `Transmit.dfy` | starting a packet, the timer interrupt and the transmit interrupt |
| `Link.dfy` | a packet from one driver to another: written, sent, received, read |
| `Queue.dfy`, `Parameters.dfy` | the responder's message queue and its staged parameter table |
| `Responder.dfy`, `Refusals.dfy`, `Definedness.dfy` | dispatch of requests and the handlers behind it; what is refused and with which reason; exactly which requests lead outside defined behaviour |
| `Controller.dfy`, `Exchange.dfy`, `Labels.dfy`, `BusLink.dfy` | what the controller makes of a reply, SET then GET of numbers and of text, and the proof that a device behaves as the bus model of discovery says |
| `EndToEnd.dfy` | any exchange over the wire, through both drivers' interrupts, and SET and GET with it |
| `Options.dfy`, `Arithmetic.dfy` | a value that may be missing; facts about remainders |
| `Output.dfy`, `Fade.dfy`, `ArtNet.dfy` | merge, master, ceiling, effect and slew per frame; fades on a wrapping clock; mirroring one node on another |

The environment is explicit. A bus gives every attempt at every request a fate
drawn from a function, so that a statement for all functions is one for all
runs. Interrupts come in any order that the hardware allows: the timer fires
only while it runs, TX_DONE comes only after everything was fed and has
drained, and nothing is received in write mode. The effect level is any byte
per channel and frame. Loops of the source are methods with invariants, proved
equal to functions, and what the source promises is proved of the functions.

Where the code departs from its intent, the model follows the code, and the
departure is stated exactly:

- `Formats.ValidFormatDefined`, `Formats.UpperCaseTokenUndefined`: the validity
  test accepts upper-case tokens, the interpreter's case conversion
  (`lib/esp_dmx/src/rdm/driver.c:37-39`) does not yield lower-case ones, so a
  valid format is understood exactly when it is in lower case.
- `Formats.DividesByZeroExactly`: the validity test divides by zero exactly on
  formats of nothing but spaces.
- `Layout.ChangedByteUnread`, `Layout.LengthUnprotected`,
  `Layout.StartCodeUnprotected`: any other byte of a message in the buffer, when
  changed, makes it unreadable; but the length byte says where the checksum is
  (`lib/esp_dmx/src/rdm/driver.c:122-126`), and a changed start code can make
  the bytes those of a discovery response, so a message in which one of these
  was changed can still be read.
- `Exchange.SilentWithoutMute`: a device that has no mute parameter takes itself
  for muted and never answers discovery
  (`lib/esp_dmx/src/rdm/responder/discovery.c:21-26`).
- `Queue.PushRefinesFifo`, `Queue.PushMisses`: with the head at slot 0 and the
  tail elsewhere the duplicate scan never meets the head. A push then hangs, or
  takes a PID left in a free slot for a queued one; in every other state the
  queue is the specified one. `Queue.WrappedQueueHangs` shows the state is
  reached in ordinary use.
- `Exchange.LargestValueNotRead`: a parameter of 230 bytes can be set, but a
  GET of it is refused, because the reply of 256 bytes exceeds the limit of 255
  in `lib/esp_dmx/src/rdm/responder.c:92`.
- `Labels.TextComesBackExactly`, `Labels.OldTailComesBack`: a SET of text stores
  the characters without a terminator (`lib/esp_dmx/src/rdm/driver.c:216`,
  `lib/esp_dmx/src/rdm/responder/utils.c:123-124`), so a shorter label keeps the
  tail of a longer one: "Z" set over "ABC" reads "ZBC". The text set comes back
  exactly if it has 32 bytes, fills the parameter, or is followed by a null that
  was there before. Setting an empty text stores nothing.
- `Exchange.CarriedIsHandedOut`: `rdm_send_request` reads the parameter data only
  where it fills in the ack (`lib/esp_dmx/src/rdm/controller/utils.c:133`, `:157`),
  so a caller without an ack is told the length and handed nothing.
- `Controller.DeliveredExactly`, `Labels.TextIsHandedOut`: a reply can overrun the
  caller's destination. A text no shorter than the destination is written with
  its terminator one byte behind it (`lib/esp_dmx/src/rdm/driver.c:74-78`,
  `:210-213`), a fixed value is cut at the destination's size and read past if
  the format cannot be cut there, and a refusal or a timer of one byte is read
  as a word.
- `Definedness.UnpredictableExactly`: data that is too short for its format is
  read past its end (`lib/esp_dmx/src/rdm/driver.c:45-49`). For devices whose
  parameters are served by the simple and the discovery handler, with memory to
  store into and values their formats can send, this happens exactly on a SET
  whose length does not fit the format, and on a branch request of 1 to 11 bytes
  to an unmuted device. Besides, a SET of 231 bytes under a format of 199 fixed
  bytes and a string, with no null in the string, writes byte 232 of the handler's
  231 (`Formats.OverrunsExactly`, `Formats.OverrunExists`;
  `lib/esp_dmx/src/rdm/responder/utils.c:121-123`).
- `Definedness.LeftoversStoredExactly`, `Labels.TextLeftoversExactly`: a SET stores
  as many bytes as were announced (`lib/esp_dmx/src/rdm/driver.c:216`), filled in
  or not. What is stored depends on what the stack held before exactly if reading
  filled in fewer bytes than are stored: for text, if more is stored than the text
  and its terminator. `Labels.LeftoverIsStored` sets "A", a null and "B".
- `Parameters.StaysInSyncExactly`: a set through a static parameter that shares
  the memory of a non-volatile one is not staged, so storage goes stale; it stays
  up to date exactly for parameters whose memory no other can write.
- `ArtNet.PollArtNet`: an empty datagram ends a poll (`src/main.cpp:1138`) even
  if more are waiting.
- `Recognition.BreakLeavesFifoEmpty`: a break leaves bytes of the old packet in
  the FIFO exactly when the buffer was not full and the FIFO held more than the
  room left.
- `Fade.MonotoneExactly`: a fade moves monotonically exactly up to 2^24 ms (or
  within 255 ms of 2^32, where it only jumps at its end); longer ones start over
  when the shifted time wraps.
- `Output.HoldIsFixedPoint`: "hold last" feeds the output back through master
  and effect, so it holds a lit channel exactly at full master and effect.
- `Discovery.Discover`: a device whose own UID is a broadcast address is muted
  but never reported, because the controller does not listen after a broadcast.
  A device that was muted before and misses the single un-mute broadcast does
  not answer for its ranges, but it still acknowledges a mute. On a fair bus
  without noise it is reported exactly if the last range split above its UID
  holds a device that does answer.
- `Discovery.MuteWithRetries`, `Discovery.VisitLeaf`: a request that is not sent
  because the driver stays busy leaves the ack as it was
  (`lib/esp_dmx/src/rdm/controller/utils.c:35-38`), and discovery reuses one ack.
  An acknowledgement of another device that is still standing at a mute is taken
  for this one's, reporting that device again and muting nobody, exactly if the
  first attempt at the mute is not sent.

## Model

| member | source | states |
|---|---|---|
| `Uids.ComparisonsAgree` | lib/esp_dmx/src/rdm/include/uid.h:24-80 | the field-wise comparisons order UIDs as 48-bit numbers |
| `Uids.TargetsAreNotAbove` | lib/esp_dmx/src/rdm/include/uid.h:114-119 | a UID up to the maximum, manufacturer broadcasts included, addresses no device above itself |
| `Uids.TargetsExactly` | lib/esp_dmx/src/rdm/include/uid.h:89-119 | which numbers address a device: its own, that of everybody, and the last one of its manufacturer |
| `Discovery.MuteWithRetries` | lib/esp_dmx/src/rdm/controller/discovery.c:93-99 | for every bus: an ack stands after three attempts exactly if one of them was acknowledged, by the device or by noise, or if an earlier ack stands because the first was not sent; if only responders answer and first attempts are sent, exactly if the device is there and one of its own three attempts got through, and the addressed devices are muted exactly if one was heard; an earlier ack of another device is taken for an answer exactly if the first attempt is not sent |
| `Discovery.BranchWithRetries` | lib/esp_dmx/src/rdm/controller/discovery.c:109-113 | without noise, and with first attempts sent, there is an answer exactly if there is an unmuted device in range and an answer to one of the three attempts came back; if one attempt gets through, such a device means an answer whatever else happens |
| `Discovery.AckedExactly` | lib/esp_dmx/src/rdm/controller/discovery.c:93-99 | on every bus, noise and busy drivers included, exactly when the attempts end with an acknowledgement |
| `Discovery.TriesGenuine` | lib/esp_dmx/src/rdm/controller/discovery.c:93-99 | without noise the ack is the device's own, exactly if an attempt was delivered, and the targets are muted exactly if one was heard |
| `Discovery.BranchGenuine` | lib/esp_dmx/src/rdm/controller/discovery.c:109-113 | without noise something answered exactly if there was somebody to answer and an answer came back |
| `Discovery.SplitTiles` | lib/esp_dmx/src/rdm/controller/discovery.c:151-172 | splitting the popped range partitions it exactly, keeps the pending ranges adjacent and ordered, and lowers their height |
| `Discovery.SplitNodes` | lib/esp_dmx/src/rdm/controller/discovery.c:151-172 | pending ranges are nodes of the tree of halvings, and a one-UID range is pending only if the range split last above it holds an answering device |
| `Discovery.PendingDisjoint` | lib/esp_dmx/src/rdm/controller/discovery.c:89-175 | pending ranges are pairwise disjoint, and a higher stack slot lies below every lower one |
| `Discovery.SplitDebt` | lib/esp_dmx/src/rdm/controller/discovery.c:113-172 | splitting a range that holds a device lowers the bound on the visits still to come by at least one |
| `Discovery.PushHalves` | lib/esp_dmx/src/rdm/controller/discovery.c:153-171 | the in-place split, reusing the slot's upper bound, leaves exactly the two halves on the stack, lower half on top |
| `Discovery.InvStart` | lib/esp_dmx/src/rdm/controller/discovery.c:72-87 | the whole UID space and the un-mute broadcast establish the invariant of the search |
| `Discovery.InvBounds` | lib/esp_dmx/src/rdm/controller/discovery.c:63-75 | the stack never holds more than 49 ranges, and there is room for both halves whenever a range can be split |
| `Discovery.InvLeaf` | lib/esp_dmx/src/rdm/controller/discovery.c:94-107 | muting a one-UID range, even one that addresses a whole manufacturer, keeps the invariant |
| `Discovery.InvSilent` | lib/esp_dmx/src/rdm/controller/discovery.c:108-113 | dropping a range nobody answered for keeps the invariant |
| `Discovery.InvBranch` | lib/esp_dmx/src/rdm/controller/discovery.c:113-173 | splitting a range somebody answered for keeps the invariant |
| `Discovery.ChartedLeaf` | lib/esp_dmx/src/rdm/controller/discovery.c:94-107 | after the mute of a one-UID range the devices reported are still exactly those the search came down to |
| `Discovery.SilentExact` | lib/esp_dmx/src/rdm/controller/discovery.c:108-113 | nothing in a range dropped without an answer would have been come down to |
| `Discovery.InvDone` | lib/esp_dmx/src/rdm/controller/discovery.c:89-183 | a finished search has met all its promises |
| `Discovery.AheadOfRange` | lib/esp_dmx/src/rdm/controller/discovery.c:108-174 | splitting an answered range on the stack, or dropping another, leaves the outcome of the recursion as it was |
| `Discovery.TracedGenuine` | lib/esp_dmx/src/rdm/controller/discovery.c:89-175 | without noise and with first attempts sent, the recursive search with its reused ack reports and mutes as the recursion that asks of every range only who is in it and what got through |
| `Discovery.VisitLeaf` | lib/esp_dmx/src/rdm/controller/discovery.c:94-107 | a visit to one UID keeps the invariant of the run, is the visit of the recursive search on every bus, and exactly when it reports an earlier device again |
| `Discovery.VisitRange` | lib/esp_dmx/src/rdm/controller/discovery.c:108-174 | a visit to a larger range keeps the invariant, on the stack in place, makes progress, and leaves the outcome of the recursive search as it was |
| `Discovery.Visit` | lib/esp_dmx/src/rdm/controller/discovery.c:89-175 | so does the visit to whichever range is popped |
| `Discovery.Search` | lib/esp_dmx/src/rdm/controller/discovery.c:63-175 | for every bus the loop ends with nothing pending and the invariant kept, with the reports, the wire and the visits of the recursive search; no access to the 49 slots is out of bounds |
| `Discovery.Discover` | lib/esp_dmx/src/rdm/controller/discovery.c:57-184 | for every set of responders and every behaviour of the bus: the search ends and is the recursive search, report for report; if only responders answer and first attempts are sent, every one-UID range it comes to is reported exactly if its device is there and one of its own three attempts got through; if only responders acknowledge mutes and first attempts are sent, reports are of present devices, once, in ascending order; if besides one attempt in three gets through, every device that heard the un-mute or was not muted is reported and everything ends muted; if besides the same holds of queries, a device, deaf to the un-mute or not, is reported exactly if its UID is no broadcast and the last range split above it holds an audible device; if it holds of queries at most 1 + 96k ranges are visited for k audible devices |
| `Discovery.StoreReported` | lib/esp_dmx/src/rdm/controller/discovery.c:191-197 | the storing callback keeps the first `num` UIDs in order and nothing else changes |
| `Discovery.DiscoverDevicesSimple` | lib/esp_dmx/src/rdm/controller/discovery.c:199-208 | the count is that of the devices found, the array holds the first of them, and on a fair bus they are the roll call of all devices |
| `Bytes.MaskedPair` | lib/esp_dmx/src/rdm/driver.c:260-264 | for complementary masks of any width, x is the AND of its two ORs, and the ORs add up to x plus all ones |
| `Bytes.EuidPair` | lib/esp_dmx/src/rdm/driver.c:260-271 | (x\|0xaa)&(x\|0x55) = x and (x\|0xaa)+(x\|0x55) = x+0xff |
| `Bytes.UidMemoryRoundTrip` | lib/esp_dmx/src/rdm/include/types.h:670-678 | a UID is recovered from its packed little-endian struct |
| `Formats.EncodeDefined` | lib/esp_dmx/src/rdm/driver.c:13-108 | the interpreter stays within its data exactly when the data is long enough for a format that ends, or whole records of one that does not, and every token is known |
| `Formats.EncodeRoundTrip` | lib/esp_dmx/src/rdm/driver.c:13-108 | encoding what was encoded, nulls filled in, restores the data: swaps undone, literals in place, an absent optional UID as null, a string terminated |
| `Formats.PlainRecordRestores` | lib/esp_dmx/src/rdm/driver.c:22-105 | under fixed tokens and a `$`, one record is restored unchanged |
| `Formats.PlainDataRestores` | lib/esp_dmx/src/rdm/driver.c:22-105 | under fixed tokens without a `$`, all records are restored unchanged |
| `Formats.PlainForRoundTrip` | lib/esp_dmx/src/rdm/driver.c:13-108 | data a plain format takes is encoded to as many bytes and restored unchanged |
| `Formats.FormatEncode` | lib/esp_dmx/src/rdm/driver.c:13-108 | the loop over format and data computes the interpreter's function for every format string and every data |
| `Formats.FormatIsValid` | lib/esp_dmx/src/rdm/driver.c:311-395 | the scan computes the validity of every format string |
| `Formats.ValidExactly` | lib/esp_dmx/src/rdm/driver.c:311-395 | which formats are valid, symbol by symbol: known symbols up to 231 bytes, and nothing but a dollar sign behind one that ends the format |
| `Formats.ValidFormatsKnown` | lib/esp_dmx/src/rdm/driver.c:35-39 | the interpreter knows all tokens of a valid format exactly when it is in lower case, and its fixed part fits 231 bytes |
| `Formats.ValidFormatDefined` | lib/esp_dmx/src/rdm/driver.c:13-108 | for valid formats, exactly when the interpreter is defined |
| `Formats.EncodedLength` | lib/esp_dmx/src/rdm/driver.c:22-107 | how many bytes the interpreter writes with nulls filled in, under every format |
| `Formats.PlainPrefix` | lib/esp_dmx/src/rdm/driver.c:22-105 | under fixed tokens the first bytes of the data are encoded to the first bytes |
| `Formats.OverrunsExactly` | lib/esp_dmx/src/rdm/driver.c:73-82 | exactly which data that fits a valid format is read into more than 231 bytes |
| `Formats.OverrunExists` | lib/esp_dmx/src/rdm/driver.c:311-395 | a valid format under which that happens |
| `Formats.DividesByZeroExactly` | lib/esp_dmx/src/rdm/driver.c:384-392 | the validity test divides by zero exactly on formats of nothing but spaces |
| `Formats.UpperCaseTokenUndefined` | lib/esp_dmx/src/rdm/driver.c:37-39 | a valid upper-case format the interpreter does not know |
| `Packets.HeaderTokens` | lib/esp_dmx/src/rdm/driver.c:277 | the header's format string means its twelve tokens |
| `Packets.SymbolsRead` | lib/esp_dmx/src/rdm/driver.c:35-98 | which symbol is read as which token |
| `Packets.HeaderEncodes` | lib/esp_dmx/src/rdm/driver.c:276-279 | that format turns the packed header struct, whatever its unnamed bytes hold, into the header on the wire |
| `Packets.FieldsOfHeader` | lib/esp_dmx/src/rdm/driver.c:130-141 | reading the fields of a header on the wire gives the header |
| `Packets.FramedReads` | lib/esp_dmx/src/rdm/driver.c:119-143 | a message with its checksum is read back with the checksum accepted, whatever follows it in the buffer |
| `Packets.EuidEncodeMasks` | lib/esp_dmx/src/rdm/driver.c:255-264 | every masked pair gives back its byte, and the pairs add up to the bytes plus 255 each |
| `Packets.EuidDecodes` | lib/esp_dmx/src/rdm/driver.c:155-169 | the checksum of a discovery response is accepted and its UID recovered |
| `Packets.DiscoveryResponseReads` | lib/esp_dmx/src/rdm/driver.c:144-188 | a discovery response that lost any of its seven preamble bytes is read as its sender's UID, and the length reported is that of the bytes present |
| `Packets.EncodeShrinks` | lib/esp_dmx/src/rdm/driver.c:282-292 | without nulls the interpreter writes no more bytes than it reads |
| `Packets.WriteThenReadHeader` | lib/esp_dmx/src/rdm/driver.c:219-309 | the header written is read back, with message length and PDL both those of the bytes really sent |
| `Packets.WriteThenReadPd` | lib/esp_dmx/src/rdm/driver.c:194-217 | the parameter data written is read back restored |
| `Layout.NumberOfDigits` | lib/esp_dmx/src/rdm/driver.c:45-72 | a number is recovered from its big-endian digits |
| `Layout.DigitsOfNumber` | lib/esp_dmx/src/rdm/driver.c:45-72 | and digits from their number |
| `Layout.IntegerSent` | lib/esp_dmx/src/rdm/driver.c:40-54 | under every format an integer that lies little-endian in memory goes out as its big-endian digits |
| `Layout.UidSent` | lib/esp_dmx/src/rdm/driver.c:55-72 | a UID goes out as the six digits of its 48-bit number |
| `Layout.OptionalUidSent` | lib/esp_dmx/src/rdm/driver.c:55-72 | so does an optional one, and as nothing if it is null |
| `Layout.HeaderInDigits` | lib/esp_dmx/src/rdm/driver.c:276-279 | every byte of a header on the wire, as a digit of its field |
| `Layout.PacketInDigits` | lib/esp_dmx/src/rdm/driver.c:275-306 | a packet written is its header in digits, the data, and the two digits of the sum of all these bytes |
| `Layout.ResponseInDigits` | lib/esp_dmx/src/rdm/driver.c:247-274 | a discovery response is seven preamble bytes, the delimiter, and the pairs of the digits of UID and sum |
| `Layout.WriteRefusedExactly` | lib/esp_dmx/src/rdm/driver.c:219-245 | exactly which headers, formats and data are refused |
| `Layout.ReadExactly` | lib/esp_dmx/src/rdm/driver.c:110-192 | bytes are read as a packet exactly if they are a standard message, or a discovery response, whose sum is the number it carries; the header read is the one these bytes spell |
| `Layout.ChangedByteUnread` | lib/esp_dmx/src/rdm/driver.c:122-128 | a message in which any byte but start code and length was changed is not read |
| `Layout.ChangedPairUnread` | lib/esp_dmx/src/rdm/driver.c:155-160 | nor is a discovery response in which any one byte of its UID's pairs was changed |
| `Layout.LengthUnprotected` | lib/esp_dmx/src/rdm/driver.c:122-128 | a message that is still read with its length byte changed |
| `Layout.StartCodeUnprotected` | lib/esp_dmx/src/rdm/driver.c:119-160 | a message that is still read with its start code changed |
| `PacketBuffer.Store` | lib/esp_dmx/src/rdm/driver.c:303 | copying changes exactly the bytes copied to |
| `PacketBuffer.AddUp` | lib/esp_dmx/src/rdm/driver.c:122-125 | the loop computes the sum modulo 2^16 |
| `PacketBuffer.MaskPairs` | lib/esp_dmx/src/rdm/driver.c:256-264 | the loop computes the masked pairs and their checksum |
| `PacketBuffer.BuildDiscoveryResponse` | lib/esp_dmx/src/rdm/driver.c:249-274 | the discovery response is preamble, delimiter, pairs and checksum pairs |
| `PacketBuffer.PatchInPlace` | lib/esp_dmx/src/rdm/driver.c:285-288 | patching two bytes gives the header of the shorter message |
| `PacketBuffer.WriteMessage` | lib/esp_dmx/src/rdm/driver.c:276-295 | header and data are serialized in place with consistent lengths |
| `PacketBuffer.FinishPacket` | lib/esp_dmx/src/rdm/driver.c:297-305 | the checksum is appended and nothing else changes |
| `PacketBuffer.WriteStandard` | lib/esp_dmx/src/rdm/driver.c:275-306 | the standard branch leaves the framed message in the buffer |
| `PacketBuffer.Write` | lib/esp_dmx/src/rdm/driver.c:219-309 | `rdm_write` refuses, writes or is undefined exactly as specified, and touches no byte behind the packet |
| `PacketBuffer.FindDelimiter` | lib/esp_dmx/src/rdm/driver.c:146-152 | the first delimiter among eight bytes |
| `PacketBuffer.ReadHeaderOf` | lib/esp_dmx/src/rdm/driver.c:110-192 | `rdm_read_header` on the buffer in place |
| `Receive.Port.constructor` | lib/esp_dmx/src/dmx/driver.c:164-169 | a new driver waits for a break |
| `Receive.Port.ReadFifo` | lib/esp_dmx/src/dmx/hal/uart.c:58-80 | what fits moves from FIFO to buffer; what does not is counted and discarded |
| `Receive.Port.FindDelimiterIndex` | lib/esp_dmx/src/dmx/hal/uart.c:157-167 | the delimiter after at most seven preamble bytes, or a mark that it is not one |
| `Receive.Port.Recognise` | lib/esp_dmx/src/dmx/hal/uart.c:126-246 | the classification loop decides whether the packet is complete, falling back to DMX |
| `Receive.Port.OnReceive` | lib/esp_dmx/src/dmx/hal/uart.c:57-261 | one pass of the interrupt is one step of the state machine, notification included |
| `Recognition.RdmRecognised` | lib/esp_dmx/src/dmx/hal/uart.c:186-235 | a valid RDM packet is complete exactly when its last byte is in |
| `Recognition.DiscoveryRecognised` | lib/esp_dmx/src/dmx/hal/uart.c:150-185 | so is a discovery response with 0 to 7 preamble bytes |
| `Recognition.RecognisedExactly` | lib/esp_dmx/src/dmx/hal/uart.c:126-246 | so is every recognisable packet, whatever stale bytes lie beyond the head |
| `Recognition.StandardCompletesExactly` | lib/esp_dmx/src/dmx/hal/uart.c:186-246 | for all bytes behind a standard start code, exactly when the packet is complete: at its own length if its bytes add up, and otherwise when taken for DMX |
| `Recognition.ResponseCompletesExactly` | lib/esp_dmx/src/dmx/hal/uart.c:150-185 | the same for a discovery response |
| `Recognition.BrokenResponseCompletesExactly` | lib/esp_dmx/src/dmx/hal/uart.c:157-185 | and for bytes that start like one and are none |
| `Recognition.CorruptedTakenForDmx` | lib/esp_dmx/src/dmx/hal/uart.c:216-246 | a packet with a changed byte is complete at the expected size, and not at its own length |
| `Recognition.ChunkArrives` | lib/esp_dmx/src/dmx/hal/uart.c:57-261 | one more chunk either leaves the packet arriving or completes it with one notification |
| `Recognition.ArrivedStays` | lib/esp_dmx/src/dmx/hal/uart.c:110-113 | a complete packet stays complete, unchanged, and is not told of again |
| `Recognition.ChunkingIrrelevant` | lib/esp_dmx/src/dmx/hal/uart.c:57-261 | for every split of the bytes over interrupts the packet becomes complete at the chunk that reaches its full length and never before |
| `Recognition.EventNote` | lib/esp_dmx/src/dmx/hal/uart.c:82-113 | only an open packet is told of, and nothing opens one but a break and the end of a branch request, whose answers come without a break |
| `Recognition.NotesPerStart` | lib/esp_dmx/src/dmx/hal/uart.c:82-320 | in every run of interrupts, reading tasks and sending, a waiting task is told of no more packets than were started, and not of one still open |
| `Recognition.OneNotePerPacket` | lib/esp_dmx/src/dmx/hal/uart.c:82-113 | from one start to the next a task is told at most once: completion and the short-packet error at a closing break exclude each other |
| `Recognition.BranchRequestOpens` | lib/esp_dmx/src/dmx/hal/uart.c:298-320 | the end of a branch request leaves the driver ready for an answer without a break |
| `Recognition.ErrorsTold` | lib/esp_dmx/src/dmx/hal/uart.c:102-125 | a framing error or an overflow ends an open packet at once, and a waiting task is told which, an overflow first |
| `Recognition.ShortPacketTold` | lib/esp_dmx/src/dmx/hal/uart.c:82-101 | a break during a packet tells the task that it was short and sets the expected size from the bytes that came |
| `Recognition.DeafUntilStart` | lib/esp_dmx/src/dmx/hal/uart.c:57-113 | while a break is awaited no byte is kept and no task told |
| `Recognition.ResizeAgrees` | lib/esp_dmx/src/dmx/io.c:159-172 | a task that asks for another size completes a DMX packet exactly if the next interrupt would |
| `Recognition.BufferHoldsStream` | lib/esp_dmx/src/dmx/hal/uart.c:57-81 | in every run from a start the buffer holds exactly the first min(head, 513) bytes since then, and head and FIFO account for every byte |
| `Recognition.BreakLeavesFifoEmpty` | lib/esp_dmx/src/dmx/hal/uart.c:82-101 | exactly when a break leaves bytes of the old packet behind |
| `Transmit.StartInv` | lib/esp_dmx/src/dmx/io.c:429-455 | starting a packet, with or without a break, establishes the invariant |
| `Transmit.StepInv` | lib/esp_dmx/src/dmx/hal/timer.c:29-47 | every interrupt that can happen keeps the invariant and only appends to what was sent |
| `Transmit.SentIsPrefix` | lib/esp_dmx/src/dmx/hal/uart.c:264-296 | in every run, for every amount of FIFO space, what was sent is the first `head` bytes, each once and in order, and head never exceeds size |
| `Transmit.FinishedSentAll` | lib/esp_dmx/src/dmx/hal/uart.c:276-296 | a run that went idle sent the whole packet, and no interrupt can follow |
| `Transmit.BreakFirst` | lib/esp_dmx/src/dmx/io.c:440-455 | in every run a packet that is not a discovery response starts with a break and a mark: nothing is sent before the second timer interrupt, which finds the mark and sends the first bytes, and no third follows |
| `Transmit.ResponseWithoutBreak` | lib/esp_dmx/src/dmx/io.c:429-439 | a discovery response is fed at once, and no timer interrupt occurs |
| `Transmit.SizeSent` | lib/esp_dmx/src/dmx/io.c:394-404 | what a finished run sent: an RDM packet by its own length, anything else by the size asked for, clamped to 513 |
| `Transmit.NeverStuck` | lib/esp_dmx/src/dmx/hal/timer.c:29-47 | until then some interrupt can always follow |
| `Transmit.RemainingFalls` | lib/esp_dmx/src/dmx/hal/uart.c:264-296 | every interrupt that finds space in the FIFO lowers a bound on the interrupts still to come |
| `Transmit.EveryRunFinishes` | lib/esp_dmx/src/dmx/hal/timer.c:29-47 | every run in which the FIFO frees space when it says so takes at most n + 4 interrupts for n bytes, and can stop only, and does stop, when all of them are sent |
| `Transmit.SomeRunFinishes` | lib/esp_dmx/src/dmx/hal/timer.c:29-47 | every packet has a run of interrupts that sends it to the end |
| `Transmit.Sender.WriteFifo` | lib/esp_dmx/src/dmx/hal/uart.c:485-491 | as many bytes as fit, in order |
| `Transmit.Sender.StartSending` | lib/esp_dmx/src/dmx/io.c:394-455 | the start of a packet is the start state of the machine |
| `Transmit.Sender.OnTimer` | lib/esp_dmx/src/dmx/hal/timer.c:19-59 | the timer interrupt is its step |
| `Transmit.Sender.OnTxData` | lib/esp_dmx/src/dmx/hal/uart.c:264-275 | the transmit interrupt is its step |
| `Transmit.Sender.OnTxDone` | lib/esp_dmx/src/dmx/hal/uart.c:276-296 | the end of transmission is its step |
| `Link.SendsWhatWasWritten` | lib/esp_dmx/src/dmx/io.c:394-404 | the size chosen for a written packet is its size, checksum included |
| `Link.AnswerAwaited` | lib/esp_dmx/src/dmx/hal/uart.c:298-320 | what the driver is ready for after each packet it can write: bytes at once after a branch request, a break after any other request that is not broadcast, nothing otherwise |
| `Link.FramedIsRecognisable` | lib/esp_dmx/src/rdm/driver.c:275-306 | what is written is a packet the receiver recognises |
| `Link.ResponseIsRecognisable` | lib/esp_dmx/src/rdm/driver.c:247-274 | so is a discovery response that lost some preamble |
| `Link.PacketArrives` | lib/esp_dmx/src/dmx/io.c:394-455 | a packet written by one driver and sent through any run of interrupts reads back, at a driver that got it in any chunks, as the header and data written |
| `Link.ResponseArrives` | lib/esp_dmx/src/dmx/hal/uart.c:150-185 | a discovery response, cut and shortened in any way, tells the controller its sender |
| `Queue.ScanRunsForever` | lib/esp_dmx/src/rdm/responder/queue_status.c:118-128 | with the head at slot 0, the tail elsewhere and the PID nowhere, the scan is still going after any number of rounds |
| `Queue.PushRefinesFifo` | lib/esp_dmx/src/rdm/responder/queue_status.c:105-142 | a push is that of a bounded duplicate-free queue of one less than the buffer exactly when the scan can stop or the PID is queued |
| `Queue.PushMisses` | lib/esp_dmx/src/rdm/responder/queue_status.c:118-128 | what becomes of a push in the remaining case |
| `Queue.PushKeepsDistinct` | lib/esp_dmx/src/rdm/responder/queue_status.c:130-138 | no push queues a PID twice |
| `Queue.PopRefinesFifo` | lib/esp_dmx/src/rdm/responder/queue_status.c:144-165 | a pop takes the oldest PID and remembers it |
| `Queue.SafeRunIsFifo` | lib/esp_dmx/src/rdm/responder/queue_status.c:105-165 | every run of such pushes and of pops is a run of the specified queue |
| `Queue.WrappedQueueHangs` | lib/esp_dmx/src/rdm/responder/queue_status.c:118-128 | four pushes and a pop on four slots make the next push hang |
| `Queue.MessageQueue.constructor` | lib/esp_dmx/src/rdm/responder/queue_status.c:76-84 | a new queue is empty |
| `Queue.MessageQueue.Scan` | lib/esp_dmx/src/rdm/responder/queue_status.c:118-128 | where the scan can stop it decides membership; elsewhere it ends only by meeting the PID |
| `Queue.MessageQueue.Push` | lib/esp_dmx/src/rdm/responder/queue_status.c:105-142 | the push on the ring in place |
| `Queue.MessageQueue.Size` | lib/esp_dmx/src/rdm/responder/queue_status.c:167-194 | the count, clamped to 255 |
| `Queue.MessageQueue.Pop` | lib/esp_dmx/src/rdm/responder/queue_status.c:144-165 | the pop on the ring in place |
| `Parameters.SetValid` | lib/esp_dmx/src/dmx/parameter.c:131-163 | setting keeps the staged count equal to the number of staged entries, and the table well formed |
| `Parameters.CommitValid` | lib/esp_dmx/src/dmx/parameter.c:165-204 | so does committing, which while anything is staged returns a PID and unstages exactly one entry |
| `Parameters.AddValid` | lib/esp_dmx/src/dmx/service.c:23-82 | so does adding, which never repeats a PID and changes nothing if the PID is there already |
| `Parameters.SetSynced` | lib/esp_dmx/src/dmx/parameter.c:154-160 | after a set, storage still agrees with every written non-volatile parameter that is not staged and whose memory no other can write |
| `Parameters.CommitSynced` | lib/esp_dmx/src/dmx/parameter.c:180-201 | and after a commit |
| `Parameters.AddSynced` | lib/esp_dmx/src/dmx/service.c:43-79 | and after an add, of a new parameter or of one that was set before |
| `Parameters.SharedGoesStale` | lib/esp_dmx/src/dmx/parameter.c:153-158 | through any parameter that shares its memory a non-volatile one can be changed without being staged |
| `Parameters.StaysInSyncExactly` | lib/esp_dmx/src/dmx/parameter.c:131-163 | storage goes on agreeing with a parameter whatever is set through others exactly if no other shares its memory |
| `Parameters.ApplyKeeps` | lib/esp_dmx/src/dmx/parameter.c:131-204 | every operation keeps the table well formed, storage in step and every written PID in a slot |
| `Parameters.RunKeeps` | lib/esp_dmx/src/dmx/parameter.c:131-204 | in every run of adds, sets and commits from a table as allocated, with the PIDs cleared and everything else in its slots and in storage as it was, the staged count is right and storage lags behind what was set only where it is staged or shares its memory |
| `Parameters.CommitsCatchUp` | lib/esp_dmx/src/dmx/parameter.c:165-204 | as many commits as are staged leave nothing staged, bring storage up to date with memory for every non-volatile parameter ever set that shares its memory with no other, and the next returns 0 |
| `Parameters.SetThenCopy` | lib/esp_dmx/src/dmx/parameter.c:105-163 | a value of the parameter's size is read back as it was set |
| `Parameters.CopyAfterSet` | lib/esp_dmx/src/dmx/parameter.c:105-163 | after a set of any length, a copy of any length has the bytes set, then the old ones, and no more than the parameter; the clamped length is returned |
| `Parameters.OthersAfterSet` | lib/esp_dmx/src/dmx/parameter.c:105-163 | parameters in other memory are copied as before |
| `Parameters.AddedHolds` | lib/esp_dmx/src/dmx/service.c:23-82 | exactly when a new parameter is added, and what it holds then: shared memory, the bytes given, or zeroes |
| `Parameters.FirstStagedIsUsed` | lib/esp_dmx/src/dmx/parameter.c:181-196 | while anything is staged, the commit loop stops at a parameter, never at a free slot whose memory looks staged |
| `Parameters.ParameterTable.constructor` | lib/esp_dmx/src/dmx/driver.c:112-157 | a new table has its PIDs cleared and holds what its memory held otherwise; storage may hold values already |
| `Parameters.ParameterTable.Lookup` | lib/esp_dmx/src/dmx/service.c:84-111 | the search finds the first slot with the PID |
| `Parameters.ParameterTable.AddTo` | lib/esp_dmx/src/dmx/service.c:23-82 | the loop adds to the first free slot, shares memory of static parameters and allocates for the others |
| `Parameters.ParameterTable.SetTo` | lib/esp_dmx/src/dmx/parameter.c:131-163 | setting writes the clamped bytes and stages a non-volatile parameter |
| `Parameters.ParameterTable.CommitFirst` | lib/esp_dmx/src/dmx/parameter.c:165-204 | the loop commits the first staged parameter |
| `Exchange.AcknowledgeIsReply` | lib/esp_dmx/src/rdm/responder/utils.c:9-34 | an acknowledgement, read in any buffer, mirrors the request |
| `Exchange.RefuseIsReply` | lib/esp_dmx/src/rdm/responder/utils.c:36-60 | so does a refusal |
| `Exchange.RepliesMirror` | lib/esp_dmx/src/rdm/responder.c:12-111 | whatever a device replies mirrors transaction number, source UID, sub-device and PID with the response command class and the number of queued messages, and it replies only to requests addressed to it and not broadcast |
| `Exchange.IgnoredUnlessTarget` | lib/esp_dmx/src/rdm/responder.c:43-47 | a packet for somebody else changes nothing |
| `Exchange.HandlerAnswers` | lib/esp_dmx/src/rdm/responder.c:52-107 | a GET or SET that its definition allows takes effect, and is answered with what its handler wrote unless broadcast |
| `Exchange.SetIsStored` | lib/esp_dmx/src/rdm/responder/utils.c:119-126 | a SET stores the decoded value, broadcast or not, and is acknowledged unless broadcast |
| `Exchange.GetIsAnswered` | lib/esp_dmx/src/rdm/responder/utils.c:111-118 | a GET is answered with the stored value in its format |
| `Exchange.CarriedIsHandedOut` | lib/esp_dmx/src/rdm/controller/utils.c:130-176 | of a reply that carries a value, complete or to be continued, the value is handed out exactly if the destination is long enough and an ack was supplied or the value was there already; a shorter destination gets the start of the value or is overrun, exactly if the format cannot be cut there; the length is returned of a complete one |
| `Controller.AckExactly` | lib/esp_dmx/src/rdm/controller/utils.c:117-162 | an ack names a device exactly if a readable acknowledgement came from it; a refusal, a timer or an overflow is told as such, anything else as invalid |
| `Controller.DeliveredExactly` | lib/esp_dmx/src/rdm/controller/utils.c:130-162 | under every format, for every reply and every destination, exactly when reading the reply stays within its data and the destination |
| `Controller.TakeReply` | lib/esp_dmx/src/rdm/controller/utils.c:117-176 | the end of a request, on the caller's destination: value returned, ack, and data read only where the ack is filled in |
| `Exchange.SetThenGet` | lib/esp_dmx/src/rdm/controller/utils.c:40-176 | a unicast SET followed by a GET returns the value set, for every value of 1 to 229 bytes under every plain format, through both codecs, dispatch and the table; both replies mirror their requests; what a destination of any length holds then, and exactly when that is the value |
| `Exchange.RefusalWritten` | lib/esp_dmx/src/rdm/responder/utils.c:36-60 | a refusal of a root request is always written |
| `Exchange.LargestValueNotRead` | lib/esp_dmx/src/rdm/responder.c:92-99 | a value of 230 bytes is refused as a hardware fault |
| `Refusals.RefusalSays` | lib/esp_dmx/src/rdm/responder/utils.c:36-60 | a refusal reads as a NACK that mirrors the request and carries its reason, and never as an acknowledgement |
| `Refusals.RefusedWhen` | lib/esp_dmx/src/rdm/responder.c:52-80 | an unknown PID, too much data and a command class the parameter does not have are refused with these reasons, and another class for a discovery parameter is ignored; nothing changes |
| `Refusals.UnregisteredRefused` | lib/esp_dmx/src/rdm/responder/utils.c:97-109 | a parameter that is defined but not in the table is refused as out of range |
| `Refusals.ValuelessAnswered` | lib/esp_dmx/src/rdm/responder/utils.c:111-118 | a GET of a parameter without a value is acknowledged without data |
| `Refusals.FaultWhen` | lib/esp_dmx/src/rdm/responder.c:86-107 | a handler that writes nothing to a unicast request, or too much, makes a hardware fault and raises the boot loader flag |
| `Refusals.CorruptedIgnored` | lib/esp_dmx/src/rdm/responder.c:22-47 | a request with any byte but start code and length changed is ignored |
| `Exchange.MuteSeenThroughBoth` | lib/esp_dmx/src/rdm/responder/discovery.c:43-47 | setting either of the mute parameters is seen through both |
| `Exchange.BranchAnswered` | lib/esp_dmx/src/rdm/responder/discovery.c:19-43 | a device answers a branch request with its discovery response exactly if it is in the audience of the bus model |
| `Exchange.SilentWithoutMute` | lib/esp_dmx/src/rdm/responder/discovery.c:21-26 | a device without a mute parameter answers no branch request |
| `Exchange.MuteObeyed` | lib/esp_dmx/src/rdm/responder/discovery.c:43-77 | a mute or un-mute takes effect exactly if addressed to the device, and is acknowledged exactly if addressed to it alone |
| `Exchange.RegistrationShares` | lib/esp_dmx/src/rdm/responder/discovery.c:111-177 | registered in either order, mute and un-mute share one byte |
| `Definedness.ReadPdUndefined` | lib/esp_dmx/src/rdm/driver.c:194-217 | reading parameter data is undefined exactly if there is data and it does not fit the format |
| `Definedness.BranchUndefined` | lib/esp_dmx/src/rdm/responder/discovery.c:29-43 | a branch request is read past its data exactly if it has 1 to 11 bytes |
| `Definedness.SimpleUndefined` | lib/esp_dmx/src/rdm/responder/utils.c:94-126 | under sound definitions the simple handler leaves defined behaviour exactly on data that does not fit its format or, read, its buffer of 231 bytes |
| `Definedness.UnpredictableExactly` | lib/esp_dmx/src/rdm/responder.c:12-111 | for a device whose parameters the simple and the discovery handler serve, exactly which packets make it do something undefined |
| `Definedness.LeftoversStoredExactly` | lib/esp_dmx/src/rdm/responder/utils.c:119-126 | under every format, what a SET stores is independent of the handler's stack exactly if reading fills in all that is stored |
| `Labels.TextPacket` | lib/esp_dmx/src/rdm/driver.c:73-82 | text goes out without its terminator, and both lengths of the header say so |
| `Labels.TextIsRead` | lib/esp_dmx/src/rdm/driver.c:194-217 | of any data the text at its head is read, with a terminator, and the length of the data returned |
| `Labels.TextIsStored` | lib/esp_dmx/src/rdm/responder/utils.c:119-126 | a SET of any data stores its text, a null and what the handler's buffer held behind it, up to its length, over the old bytes, and is acknowledged |
| `Labels.TextGetResponse` | lib/esp_dmx/src/rdm/responder/utils.c:111-118 | a GET is answered with the stored bytes in the text format of the parameter |
| `Labels.TextIsHandedOut` | lib/esp_dmx/src/rdm/controller/utils.c:130-176 | of any data a caller with an ack is handed the text, terminated; it is overrun exactly if its destination, not empty, is no longer than the text |
| `Labels.TextSetThenGet` | lib/esp_dmx/src/rdm/responder/product_info.c:151-166 | for all bytes set, a GET returns the text of the bytes laid over those stored before |
| `Labels.TextComesBackExactly` | lib/esp_dmx/src/rdm/responder/utils.c:119-126 | exactly when that is what was set |
| `Labels.EmptyTextStoresNothing` | lib/esp_dmx/src/dmx/parameter.c:138-141 | setting an empty text changes nothing |
| `Labels.TextLeftoversExactly` | lib/esp_dmx/src/rdm/responder/utils.c:119-126 | for any data received, what is stored is independent of the handler's stack exactly if it is no more than the text and its terminator |
| `Labels.LeftoverIsStored` | lib/esp_dmx/src/rdm/responder/utils.c:121-124 | "A", a null and "B" set a byte that was never received |
| `Labels.OldTailComesBack` | lib/esp_dmx/src/rdm/responder/product_info.c:151-166 | "Z" set over "ABC" reads "ZBC" |
| `EndToEnd.JourneyFills` | lib/esp_dmx/src/dmx/hal/uart.c:57-261 | a written packet, sent and received under any schedules, lies at the head of the receiver's buffer and reads as its header |
| `EndToEnd.ExchangeOverWire` | lib/esp_dmx/src/rdm/controller/utils.c:72-128 | for every device and every request but a branch request, an exchange over the wire leaves the device and the controller's buffer as the exchange of bytes does |
| `EndToEnd.SetThenGetOverWire` | lib/esp_dmx/src/rdm/controller/utils.c:40-176 | SET then GET returns the value set whatever the interrupt schedules, the cuts between interrupts and the stale contents of all four buffers; what a destination of any length holds then, and exactly when that is the value |
| `EndToEnd.TextSetThenGetOverWire` | lib/esp_dmx/src/rdm/controller/utils.c:40-176 | the same for text: what comes back, what the caller is handed, and exactly when it is what was set |
| `BusLink.BranchHeardByAll` | lib/esp_dmx/src/rdm/responder/discovery.c:19-43 | of any devices with distinct UIDs, those that reply to a branch request are exactly the audience of the bus model |
| `BusLink.BranchRequestIsAwaited` | lib/esp_dmx/src/dmx/hal/uart.c:298-320 | a controller that sent a branch request is ready for the response |
| `BusLink.SoleResponderHeard` | lib/esp_dmx/src/rdm/controller/utils.c:94-162 | if at most one of them replies, the ack of the controller that sent the request, with the reply received in any chunks and any preamble lost, is that of the bus model |
| `BusLink.MuteObeyedByAll` | lib/esp_dmx/src/rdm/responder/discovery.c:43-77 | a mute that reaches all devices leaves them as the bus model says, and at most the one it is addressed to replies |
| `BusLink.MuteReplyRead` | lib/esp_dmx/src/rdm/controller/utils.c:117-162 | the acknowledgement of a mute reads as an ack from the device |
| `BusLink.MuteReplyInDigits` | lib/esp_dmx/src/rdm/responder/discovery.c:49-77 | the acknowledgement of a mute byte for byte: control field and, unless null, binding UID |
| `BusLink.MuteHeard` | lib/esp_dmx/src/rdm/controller/utils.c:76-162 | the controller's ack for a delivered mute is that of the bus model, replied to or not |
| `Output.SlewIsClamp` | include/vizzz_core.h:19-27 | slewing is clamping the target to one step around the current level, and a step of 0 is no limit |
| `Output.MasterMonotone` | include/vizzz_core.h:11-13 | scaling is monotone in level and master, the jump at full included |
| `Output.TargetBelowCeiling` | src/main.cpp:1093-1096 | the target of a channel never exceeds the ceiling |
| `Output.ChannelMonotone` | src/main.cpp:1074-1097 | one frame of one channel is monotone in all levels, the master and the last output |
| `Output.RunsMonotone` | src/main.cpp:1069-1100 | of two runs with equal settings the one with lower levels and master at every frame has no higher output at any frame |
| `Output.FrameIsSafe` | src/main.cpp:1069-1100 | no frame moves a channel by more than the effective step or lifts it above 245 |
| `Output.RunIsSafe` | src/main.cpp:31-34 | in no run from boot does a channel exceed 245 |
| `Output.SlewTimesIsClamp` | include/vizzz_core.h:19-27 | n frames toward one target are one clamp to n steps around the start |
| `Output.BurnSafeDescends` | src/main.cpp:354-360 | n burn-safe frames lower a channel by 8n, or to 96 |
| `Output.BurnSafeWithinNineteen` | src/main.cpp:354-360 | in every run from boot, after nineteen consecutive burn-safe frames every channel is at most 96 |
| `Output.HoldIsFixedPoint` | src/main.cpp:1085-1097 | exactly when holding the last output holds it |
| `Output.Settles` | src/main.cpp:1069-1100 | n equal frames bring a channel, 18 levels a frame or 8 when burn-safe, to exactly the web level, the highest active network source or the highest of all by mode, scaled by 256ths under master and effect and limited; within 32 frames from anywhere |
| `Output.Engine.ComputeOutput` | src/main.cpp:1069-1100 | the loop updates every channel in place and copies all of them behind the start code |
| `Fade.FractionBelowOne` | src/main.cpp:742 | while a fade runs its fraction is below one, with or without bits lost in the shift |
| `Fade.FadedIsBetween` | src/main.cpp:734-747 | for every clock reading and length a level is between start and target, starts at one and lands exactly on the other |
| `Fade.FadeIsLinear` | src/main.cpp:734-747 | up to 2^24 ms a level is less than two steps from the straight line, upward and downward |
| `Fade.MonotoneWhenShort` | src/main.cpp:742-746 | fades up to 2^24 ms move monotonically |
| `Fade.LongFadeStartsOver` | src/main.cpp:742-746 | every longer one does not |
| `Fade.MonotoneExactly` | src/main.cpp:742-746 | exactly which lengths fade monotonically |
| `Fade.FadeStaysBetween` | src/main.cpp:734-747 | the same for every channel and every 32-bit clock reading, wrap-around included |
| `Fade.FadeAtClock` | src/main.cpp:734-747 | the same on the wrapping clock, so many milliseconds after the start |
| `Fade.Fader.StartFade` | src/main.cpp:726-732 | a fade starts from the current levels, at least 1 ms long |
| `Fade.Fader.UpdateFade` | src/main.cpp:734-747 | the loop sets every channel to its faded level and ends the fade at its length |
| `ArtNet.PackedInRange` | include/vizzz_core.h:7-9 | the packed universe has net, subnet and universe as its digits |
| `ArtNet.UniversesDistinct` | include/vizzz_core.h:7-9 | different universes in range pack to different numbers |
| `ArtNet.UniverseSurvives` | src/main.cpp:1121-1144 | the universe read from a packet is the sender's |
| `ArtNet.SentIsParsed` | src/main.cpp:1109-1155 | a node of the same universe takes exactly the 512 levels sent, any other in range ignores them |
| `ArtNet.ParsedExactly` | src/main.cpp:1132-1155 | exactly the ArtDmx packets for the universe are taken, short ones too, with zero for the channels they do not have |
| `ArtNet.SentLayout` | src/main.cpp:1109-1128 | what is sent, byte by byte |
| `ArtNet.PolledIsLast` | src/main.cpp:1135-1155 | of the datagrams handled the last one taken decides every level, and without one the levels stay |
| `ArtNet.PollArtNet` | src/main.cpp:1132-1155 | at most ten datagrams are handled, in order, up to the first empty one, which is consumed; the last one taken determines all levels |
| `ArtNet.ShownFrames` | src/main.cpp:1069-1100 | a receiver that shows the network slews every channel to the level received |
| `ArtNet.MirrorsWithinFourteen` | src/main.cpp:1069-1155 | what one node outputs, after any run, a mirroring node outputs within fourteen frames, whatever it showed before |

## Left out

- What the controller stores of a mute acknowledgement's data: it passes the address of its pointer (`lib/esp_dmx/src/rdm/controller/discovery.c:39`), so nothing is claimed of it.
- The disabled early-mute branch of discovery (`lib/esp_dmx/src/rdm/controller/discovery.c:116-149`): it is compiled out.
- Mutexes, critical sections and task timeouts, but for a request of discovery that is not sent because the driver stays busy; argument checks of ports and installed drivers.
- Timestamps and gaps between packets: their bookkeeping is reset when a collided response is taken for DMX, so no clean statement holds.
- Sub-devices: none can be added, and requests to all of them are rejected by an assertion; so are numbers above 512 and PID 0.
- Parameters.ParameterTable.SetTo: setting an entry without memory runs into an assertion in the C code and is a no-op here; the simple handler calls it undefined before it comes to that.
- What the bytes read past short parameter data are: `Responder.Respond` says only that the outcome is unpredictable.
- Restoring the controller's buffer after a request: only the request's length is restored.
- A response packet addressed to a device: the C code runs into an assertion when it builds a reply; the model stays silent.
- The notifications that are not of a packet received: at the end of sending, and by a timer while nothing is sent.
- The after-response callback and the counter of repeated PIDs.
- Handlers other than the simple and the discovery one: queued messages, the reset handler, which also clears the mute flag (`lib/esp_dmx/src/rdm/responder/device_control.c:7-29`), and those of sensors, lamps, personalities and product information.
- A null pointer as the caller's destination: nothing is read into it, whatever the format.
- Asynchronous writes to the buffer while a DMX packet is being sent: the transmit model sends a buffer that does not change.
- Whether a node counts as active (a packet within the last 3000 ms) is an input of each frame.
- Effect levels are arbitrary bytes: the effect generators, one of them in floating point, are not modelled.
- Other inputs of the node: OSC and sACN packets, tap tempo, the cue list, the web server and its status pages, discovery beacons, stored preferences.
