# iValuable firmware: protocols and storage, verified in Dafny

The repository holds the firmware of three boards — a controller (STM32F4), shelf units
(LPC11xx) and a CAN-ISP bridge (LPC11xx) — and the host tool that loads unit firmware into the
controller. This project models the places where bytes have to survive a journey: over CAN, over
TCP, over three serial links, through interrupt-driven buffers and through flash. Where both ends
of a link are in the repository, both are modelled and proved to undo each other.

Each step-by-step piece of code is a class method or a loop proved against a specification
function; what the code is for is then proved about that function, over all inputs, all runs and
all interleavings. Many of the machines share one shape, `Bytes.Run`: a step function folded over
its inputs, together with the events it puts out.

`dafny verify dfyconfig.toml` checks the whole project.

## Files

| area | files |
|---|---|
| shared | `Bytes`, `TagWords`, `FlashMemory` |
| CAN entries, controller and unit | `CanFrames`, `CanReassembly`, `CanRoundTrip`, `CanEx`, `UnitCan` |
| flash rewriters | `UserSector`, `SuppliesStore` |
| firmware upload and replay | `FirmwareBank`, `FirmwareManager`, `FirmwareHost`, `FirmwareReplay`, `Crc`, `CrcPadding`, `FirmwareCrc` |
| TCP | `TcpFraming`, `TcpClient`, `TcpSlots` |
| configuration link | `ConfigProtocol`, `ConfigComm`, `ConfigHost`, `UartRing` |
| CAN-ISP bridge | `IspProtocol`, `IspLink`, `SdoProtocol`, `SdoClient`, `SdoWaiting` |
| rings and filters | `EmacRing`, `EmacDriver`, `SensorFilter` |

## What turned out not to hold as expected

Each of these is a lemma or a method's contract; the code is modelled as it is.

- A unit's `CANTransmit` called with a source other than its own node id sends a long entry that
  the controller never delivers: only the head carries that source (`CanRoundTrip.SplitSourceNeverArrives`).
  Its four callers in the repository all pass the node's own id.
- A unit computes the position of a segment in eight bits, so that one of index 36, which no sender
  produces, is written over the head's bytes of an entry (`UnitCan.Index36Wraps`).
- `PrepareWriteFlash` leaves its two sectors exactly when the window starts inside the user sector
  and ends at or behind its end (`UserSector.PrepareWriteFlash`, `LeftSectors` and `Strays`).
- An upload by the host tool completes exactly when the image is not empty and its last 256-byte
  portion is not of one or two bytes, which the controller refuses (`FirmwareBank.HostUpload`).
- A reply of the controller that is lost on its way makes the host send an accepted portion again,
  and it is stored again if it still fits.  The host gets an image through exactly when it can be
  uploaded and, for each portion, the first try that reaches the controller is heard
  (`FirmwareHost.UploadExact`).  When it gives up, the bank can still be tagged complete, with a
  wrong image that units are then sent (`FirmwareHost.WrongImageServed`).
- A lost acknowledgement of the bridge makes the controller send a page again, which the bridge
  programs at its next number: the update is reported well with all later pages misplaced
  (`FirmwareReplay.LostAckShifts`); every page is in place exactly when, for each, the first try that
  does anything is acknowledged (`FirmwareReplay.PagesInPlace`).
- A portion written to an opened bank before its header is burnt over the header's place, and
  answered like any other, once it is as long as a header (`FirmwareBank.WithoutHeader`).
- The host compares the reported CRC before it has padded its own: "CRC Validation" passes exactly
  for images of whole words, and for those that leave its register at 0x03BF0B6D
  (`FirmwareCrc.UploadValidates`; `FirmwareCrc.FiveBytesFail` has an image that is stored in full
  and reported as failed).
- The host would show an empty reply with the payload of an earlier one, or as null; it reads back
  exactly what was sent if and only if no reply is empty (`ConfigHost.RepliesArrive`), which holds of
  every reply to a write (`FirmwareHost.SessionReadBack`).
- Three of the bridge's ready-made error replies carry a wrong checksum, so the controller never
  hears them (`IspProtocol.UnheardReplies`).
- A receive ring with exactly one buffer of unread bytes looks empty to the thread, which stalls
  (`UartRing.FullStalls`); with one byte more it hands over that byte in place of the oldest unread
  one, wherever it stood (`UartRing.OneMoreLoses`).  Up to one buffer nothing is lost (`UartRing.RunHandsPrefix`).
- On independent units the ordinal in front of the tenth text reads "01"
  (`SuppliesStore.OrdinalSpelled`).
- The bridge announces 256 bytes in its SDO initiate request and then sends 260 or 42, so that a
  server that checks the size aborts both downloads (`SdoClient.PageDownloadAborts`,
  `SdoClient.GoDownloadAborts`), while the bridge calls them a success
  (`SdoClient.SdoClient.SegmentLoop`).

## Model

| member | source | states |
|---|---|---|
| CanFrames.IdFields | iValuableController/CanEx.cpp:138-145 | the receiver's masks recover command, source, target and the extended flag that the sender put into an identifier |
| CanFrames.TopBitIgnored | iValuableController/CanEx.cpp:138-145 | flag and command are read alike whatever the topmost identifier bit is |
| CanFrames.SegmentOfByte | iValuableController/CanEx.cpp:105-126 | the segments cut the bytes behind the head exactly: each byte lies in one segment and no other |
| CanFrames.ArrivedMeansCovered | iValuableController/CanEx.cpp:117-133 | among frames taken from a transmission, all segments have arrived iff their indices cover the entry |
| CanFrames.FillHead | iValuableController/CanEx.cpp:80-92 | the head frame: index, subindex, length and the first four bytes at most, with the right frame length |
| CanFrames.FillSegment | iValuableController/CanEx.cpp:119-125 | a segment frame: its index and its up to seven bytes of the entry |
| TagWords.TickOff | iValuableController/CanEx.cpp:33 | setting one tag bit removes exactly that segment from the missing ones |
| TagWords.MarkMissing | iValuableController/CanEx.cpp:22-23 | clearing one tag bit adds exactly that segment |
| TagWords.NothingMissing | iValuableController/CanEx.cpp:36-42 | both words read 0xffffffff iff no segment is missing |
| CanReassembly.TagRefinement | iValuableController/CanEx.cpp:13-34 | after any calls of SetSegment with any indices and lengths, a segment is ticked off iff it lies behind the entry or an in-range call named it, and the value keeps its length |
| CanReassembly.OneFrame | iValuableController/CanEx.cpp:136-240 | a frame reads and changes only its own source's slot, and raises events of that source only |
| CanReassembly.NonInterference | iValuableController/CanEx.cpp:154-239 | in any interleaving of sources, each source's events and slot are those of a receiver that heard it alone |
| CanReassembly.RaisedExactly | iValuableController/CanEx.cpp:243-259 | a registered device's response is raised as a response, its broadcast as process data, and nothing else is raised |
| CanReassembly.HeartbeatsRaised | iValuableController/CanEx.cpp:234-237 | a heartbeat is raised, with the frame's own source and bytes, by exactly the heartbeat frames addressed to the node while a handler is bound |
| CanReassembly.NothingForUs | iValuableController/CanEx.cpp:138-140 | frames for other nodes, syncs, unknown commands and too short heads do nothing |
| CanReassembly.PendingStays | iValuableController/CanEx.cpp:189-198 | while an entry is pending, a new long head of its source and a segment that would end behind it change nothing |
| CanRoundTrip.SegmentsComplete | iValuableController/CanEx.cpp:201-228 | any run of segments raises the entry once iff it names all that were missing, duplicates before or after changing nothing |
| CanRoundTrip.LateSegments | iValuableController/CanEx.cpp:203-205 | segments after delivery raise nothing |
| CanRoundTrip.OnlyHeardMatters | iValuableController/CanEx.cpp:136-239 | short entries, syncs, heartbeats and other sources' frames do not change which long entries a source delivers |
| CanRoundTrip.RoundTrip | iValuableController/CanEx.cpp:136-239 | amid any traffic, head plus segments in any order and multiplicity raise the entry of a registered source unchanged, exactly once, and only from the last missing segment on: a response as a response, a broadcast as process data, a request or an unregistered source not at all |
| CanRoundTrip.EntriesInOrder | iValuableController/CanEx.cpp:189-228 | successive long entries of one source, amid any traffic and with duplicates, are raised as exactly those entries in order, responses and broadcasts each as what they are, and leave its slot free |
| CanRoundTrip.ResponsesOneByOne | iValuableController/CanEx.cpp:215-228 | what `EntriesInOrder` raises, for responses of a registered source: one event per entry, the k-th with the k-th entry |
| CanRoundTrip.SentIsReceived | iValuableUnit/canonchip.c:324-376 | the frames a unit sends, reordered and duplicated amid other traffic, give the controller the unit's entry, as response or process data by its command, iff all have arrived and the unit is registered |
| CanRoundTrip.SplitSourceNeverArrives | iValuableUnit/canonchip.c:332-369 | with a foreign source id in the head, a long entry is never raised under either id |
| CanRoundTrip.ShortEntry | iValuableController/CanEx.cpp:171-188 | an entry of up to four bytes is raised by its one frame, whatever is pending: as response or process data by its command, and only for a registered source |
| CanEx.RxStruct.constructor | iValuableController/CanEx.cpp:13-24 | all segments announced by the length, and no others, start out missing |
| CanEx.RxStruct.SetSegment | iValuableController/CanEx.cpp:26-34 | a segment that would end behind the entry is ignored; any other is copied in place and ticked off |
| CanEx.RxStruct.IsComplete | iValuableController/CanEx.cpp:36-42 | true iff no segment is missing |
| CanEx.CanEx.MessageReceiver | iValuableController/CanEx.cpp:136-241 | the new table and the events are those of the receiver function, for every frame |
| CanEx.CanEx.HeadReceiver | iValuableController/CanEx.cpp:161-200 | a short entry is delivered at once; a long one opens a slot unless the source already has one |
| CanEx.CanEx.SegmentReceiver | iValuableController/CanEx.cpp:201-228 | a segment is stored, and the slot is delivered and erased iff it is complete |
| CanEx.CanEx.Deliver | iValuableController/CanEx.cpp:243-259 | only responses and broadcasts of registered devices are handed on, each to its own handler |
| CanEx.CanEx.Transmit | iValuableController/CanEx.cpp:71-134 | what goes on the bus is exactly the head and every segment of the entry, in order |
| UnitCan.SegmentTracks | iValuableUnit/canonchip.c:155-167 | a segment lands where it belongs, and raises the entry iff nothing is missing after it |
| UnitCan.SegmentInside | iValuableUnit/canonchip.c:155-167 | a segment starting inside the entry is copied to its 8-bit position and nowhere else, and raises the entry iff no other segment was missing |
| UnitCan.SegmentBehind | iValuableUnit/canonchip.c:155-159 | one starting behind the entry is ticked off and has no other effect |
| UnitCan.Index36Wraps | iValuableUnit/canonchip.c:157-160 | a segment of index 36 is written over the head's bytes |
| UnitCan.SyncsTriggered | iValuableUnit/canonchip.c:168-173 | a sync is raised, with its index and mode, iff it asks for a trigger |
| UnitCan.NothingForUs | iValuableUnit/canonchip.c:122-125 | other commands, and requests too short for a head, do nothing |
| UnitCan.OnlyRequestsMatter | iValuableUnit/canonchip.c:124-176 | syncs, heartbeats, responses and broadcasts change neither the receive entry nor the entries raised |
| UnitCan.RoundTrip | iValuableUnit/canonchip.c:107-178 | amid any other traffic, head and then segments in any order raise the entry unchanged, for the first time with the one that completes it |
| UnitCan.RequestArrives | iValuableController/CanEx.cpp:71-134 | a request sent by the controller is first raised at the unit by the frame that completes it, as it was sent |
| UnitCan.ShortEntry | iValuableUnit/canonchip.c:132-140 | a short request is raised by its one frame |
| UnitCan.RequestIds | iValuableUnit/canonchip.c:122-123 | the identifiers of the controller's requests are the two commands the callback listens to |
| UnitCan.Unit.CAN_rx | iValuableUnit/canonchip.c:107-178 | the receive entry and the events after a frame are those of the receiver function |
| UnitCan.Unit.OpenEntry | iValuableUnit/canonchip.c:126-154 | a head overwrites the one receive entry, marks its segments missing and raises it at once when short |
| UnitCan.Unit.ContinueEntry | iValuableUnit/canonchip.c:155-167 | a segment is ticked off, stored if its 8-bit position lies inside the entry, and completes it iff nothing is missing |
| UnitCan.Unit.CANTransmit | iValuableUnit/canonchip.c:324-376 | head under the caller's source, every segment under the node's own |
| UserSector.PrepareWriteFlash | iValuableController/System.c:533-592 | the window is blank and the rest of the user sector as before; at every step each byte outside the window is intact in one sector and only blank cells are programmed; the call leaves the two sectors iff it strays |
| UserSector.LeftByPowerCut | iValuableController/System.c:533-592 | whatever step is the last one taken, one of the two sectors has every byte outside the window |
| UserSector.FillBackup | iValuableController/System.c:541-583 | the copy loop with its backward jump ends, with the backup holding all bytes outside the window |
| UserSector.Restore | iValuableController/System.c:585-591 | the user sector is rebuilt word by word from the backup |
| FlashMemory.Flash.ProgramBytes | iValuableController/System.c:548 | programming a cell can only clear bits |
| FlashMemory.AndBits | iValuableController/System.c:548 | every bit of a programmed cell is set iff it was set and is to stay set |
| FlashMemory.ProgrammedBlank | iValuableController/System.c:548 | programming blank cells stores the bytes as given |
| SuppliesStore.SuppliesDisplay.ModifyString | iValuableUnit/SuppliesDisplay.cpp:55-92 | on success exactly the text at this index changes, to the prefix and the new bytes; both sectors are equal again; at every step one sector holds the whole store as before or as after the edit |
| SuppliesStore.SuppliesDisplay.DeleteString | iValuableUnit/SuppliesDisplay.cpp:94-106 | exactly the text at this index disappears, in both sectors; at every step one sector holds the whole store as before or as after |
| SuppliesStore.LeftByPowerCut | iValuableUnit/SuppliesDisplay.cpp:65-104 | whatever step of an edit is the last one taken, one sector has every other text, and this one as it was or as it was to become |
| SuppliesStore.SuppliesDisplay.GetString | iValuableUnit/SuppliesDisplay.cpp:108-118 | the text the page holds, or none for a blank or deleted page |
| SuppliesStore.SuppliesDisplay.CopyFromSource | iValuableUnit/SuppliesDisplay.cpp:16-53 | the page buffer holds length, prefix and text, for both kinds of unit |
| SuppliesStore.SuppliesDisplay.RebuildMain | iValuableUnit/SuppliesDisplay.cpp:69-82 | the erased main sector is filled from the backup and the new text, deleted pages becoming blank |
| SuppliesStore.SuppliesDisplay.RebuildBackup | iValuableUnit/SuppliesDisplay.cpp:84-90 | the backup sector mirrors the main one again |
| SuppliesStore.Replay | iValuableUnit/SuppliesDisplay.cpp:55-106 | any sequence of edits leaves the store as the map from index to text does |
| SuppliesStore.LastEditWins | iValuableUnit/SuppliesDisplay.cpp:55-118 | an index reads as its last accepted edit left it, untouched by all edits of other indices |
| SuppliesStore.OrdinalSpelled | iValuableUnit/SuppliesDisplay.cpp:18-41 | the prefix spells the ordinal iff the unit is not independent or the ordinal is below ten; the tenth reads "01." |
| SuppliesStore.Cleared | iValuableUnit/SuppliesDisplay.cpp:101-104 | a used page can be marked deleted in place, without an erase |
| SuppliesStore.RebuiltTexts | iValuableUnit/SuppliesDisplay.cpp:69-82 | a rebuild changes the text at one index only |
| FirmwareBank.WriteKeeps | iValuableController/UnitManager.cpp:280-326 | a portion that fits is appended to the bank's image, a refused one changes nothing, with the reply each gets |
| FirmwareBank.OpenedHolds | iValuableController/UnitManager.cpp:264-360 | access followed by a valid header gives an empty, incomplete upload, whatever the bank held |
| FirmwareBank.MalformedInfo | iValuableController/UnitManager.cpp:334-359 | a header that is too short or lacks the tags changes nothing and is answered with an error |
| FirmwareBank.WithoutHeader | iValuableController/UnitManager.cpp:286-315 | a portion written before any header is refused as too long if shorter than a header, and burnt over the header's place otherwise |
| FirmwareBank.SessionKeeps | iValuableController/UnitManager.cpp:280-326 | after any writes the bank holds exactly the accepted bytes, and is tagged complete with its CRC exactly when they reach the declared size |
| FirmwareBank.SessionPushes | iValuableController/UnitManager.cpp:299-315 | the CRC unit has seen exactly the accepted image, filled up with 0xff to whole words |
| FirmwareBank.HostUpload | FWUpdater/FWUpdater/Program.cs:194-232 | the host's upload of an image completes the bank iff the image is not empty and does not leave one or two bytes for the last portion |
| FirmwareHost.UploadExact | FWUpdater/FWUpdater/Program.cs:194-232 | for every plan of losses the host gets through iff the image can be uploaded and for each portion the first try to reach the controller is heard; then the controller is as after a session without losses |
| FirmwareHost.UploadOutcome | FWUpdater/FWUpdater/Program.cs:194-232 | for every plan of losses, which bytes the bank holds and whether the host gives up |
| FirmwareHost.WrongImageServed | FWUpdater/FWUpdater/Program.cs:213-230 | one lost reply leaves the first of two portions doubled, tagged complete and served to units, while the host gives up |
| FirmwareHost.SendFile | FWUpdater/FWUpdater/Program.cs:194-232 | the upload loop with its three tries leaves the controller and reports as the portion-wise specification does |
| FirmwareHost.PortionReplies | FWUpdater/FWUpdater/Program.cs:53-62 | an image that is taken is answered with a zero for every portion but the last, and with the CRC for the last |
| FirmwareHost.SessionReadBack | FWUpdater/FWUpdater/SerialComm.cs:71-143 | whatever the host writes, it reads back every reply of the controller as sent |
| FirmwareBank.FlashedBlank | iValuableController/UnitManager.cpp:297-315 | on blank cells the word loop and its padded last word write exactly the portion |
| FirmwareManager.UnitManager.CommandAccess | iValuableController/UnitManager.cpp:264-279 | the chosen bank is erased and the offset reset; an invalid number changes nothing |
| FirmwareManager.UnitManager.CommandWrite | iValuableController/UnitManager.cpp:280-326 | bank, offset, CRC input and reply after a write, as the upload function has them |
| FirmwareManager.UnitManager.CommandWriteInfo | iValuableController/UnitManager.cpp:327-360 | the header is written as incomplete and the offset set behind it, or the error is reported |
| FirmwareManager.UnitManager.FindBank | iValuableController/UnitManager.cpp:83-97 | the first bank that holds a completed image for the unit type, or none |
| FirmwareManager.UnitManager.SendPages | iValuableController/UnitManager.cpp:117-136 | consecutive pages of 256 bytes, a shorter last one, whose concatenation is the stored image, or a prefix ending at the first page that fails |
| FirmwareManager.CompleteMeansServed | iValuableController/UnitManager.cpp:83-95 | a completed upload is the image a later update finds and sends |
| Crc.WordIsBytes | iValuableController/System.c:604-607 | feeding the CRC register one word equals feeding it the word's four bytes |
| Crc.DeviceAgreesWithHost | FWUpdater/FWUpdater/Crc32.cs:78-82 | the word-wise register of the controller and the host's table agree on every padded image |
| Crc.ComputeEntry | FWUpdater/FWUpdater/Crc32.cs:43-60 | the table entry the host computes is eight shifts of the register |
| FirmwareReplay.PagesInPlace | iValuableController/ISPProgram.cpp:88-100 | for every plan of losses the update is reported well with every page at its own number iff for each page the first try that does anything is acknowledged |
| FirmwareReplay.LostAckShifts | iValuableISP/main.c:328-336 | one lost acknowledgement doubles a page and moves all later ones by one number, with the update reported well |
| FirmwareReplay.Bridge.ProgramData | iValuableController/ISPProgram.cpp:88-100 | the pages programmed and the answer after at most three tries |
| FirmwareCrc.SameRegister | FWUpdater/FWUpdater/Program.cs:234-237 | the controller's CRC is the register the host has after its padding loop |
| CrcPadding.BlanksStay | FWUpdater/FWUpdater/Program.cs:234-237 | one to three padding bytes leave the register alone at one fixed point and nowhere else |
| CrcPadding.PaddingShows | FWUpdater/FWUpdater/Program.cs:234-237 | padding leaves the CRC of an image alone iff there is nothing to pad or the register is the fixed point |
| FirmwareCrc.CrcValidates | FWUpdater/FWUpdater/Program.cs:57-60 | the reported CRC equals the host's register at that moment iff the image is of whole words or the register is the fixed point |
| FirmwareCrc.UploadValidates | FWUpdater/FWUpdater/Program.cs:57-60 | the reply that completes an upload passes the host's validation iff the image is of whole words or its register is the fixed point |
| FirmwareCrc.FiveBytesFail | FWUpdater/FWUpdater/Program.cs:57-60 | the image 0, 1, 2, 3, 4 is stored in full and reported as failed |
| TcpFraming.FramedRun | iValuableController/TcpClient.cpp:78-122 | a framed body is delivered iff its last byte is its checksum; either way the parser is back at its start |
| TcpFraming.StreamDelivered | iValuableController/TcpClient.cpp:68-123 | any concatenation of frames is delivered, each once and in order |
| TcpFraming.JunkSkipped | iValuableController/TcpClient.cpp:82-89 | a prefix without 0xAA changes nothing |
| TcpFraming.BrokenHeader | iValuableController/TcpClient.cpp:90-93 | 0xAA not followed by 0x44 is dropped together with the byte after it |
| TcpFraming.ChecksumIsSum | iValuableController/TcpClient.cpp:387-391 | the checksum is the sum of all bytes before it modulo 256, header and length included |
| TcpFraming.WireExample | iValuableController/TcpClient.cpp:377-391 | the bytes of one frame |
| TcpFraming.AlteredFrame | iValuableController/TcpClient.cpp:104-119 | an altered body of the same length is delivered iff its byte sum agrees modulo 256; the frames behind it are delivered in every case |
| TcpFraming.SingleErrorDetected | iValuableController/TcpClient.cpp:104-119 | one wrong payload byte costs exactly that frame, for every length and position |
| TcpFraming.FeedIsRun | iValuableController/TcpClient.cpp:68-123 | where the stream is cut into receive buffers makes no difference |
| TcpFraming.RoundTrip | iValuableController/TcpClient.cpp:372-443 | the pieces queued for any messages, after junk and cut anew anywhere, are delivered as exactly those messages |
| TcpClient.TcpClient.DataReciever | iValuableController/TcpClient.cpp:68-123 | parser state and deliveries after a buffer |
| TcpClient.TcpClient.BuildFrame | iValuableController/TcpClient.cpp:377-391 | header, length, command, payload and checksum as the parser expects them |
| TcpClient.TcpClient.SendData | iValuableController/TcpClient.cpp:372-443 | the frame's 1024-byte pieces are queued in order; when tokens run out the queue is emptied and the call fails |
| TcpClient.TcpClient.AbortConnection | iValuableController/TcpClient.cpp:344-370 | the transmit queue is emptied, all its tokens are given back, and a socket is released and no longer connected |
| TcpClient.TcpClient.TxProcessor | iValuableController/TcpClient.cpp:225-249 | once acknowledged or clear to send, the oldest queued piece is taken, its token given back, and the piece sent if the socket carries it, which awaits the next acknowledgement |
| TcpClient.TcpClient.DataArrived | iValuableController/TcpClient.cpp:178-202 | a buffer is queued iff a token is left |
| TcpClient.TcpClient.DataReceiver | iValuableController/TcpClient.cpp:209-223 | the oldest received buffer goes through the parser and its token is given back |
| TcpClient.PieceAt | iValuableController/TcpClient.cpp:393-439 | piece i is the frame from 1024 i on |
| TcpSlots.SlotsConserved | iValuableController/TcpClient.cpp:178-237 | from any accounted state, over all interleavings of single kernel calls, tokens plus slots in use stay TCP_BUFFER_NUM per side, no mail allocation fails, and at rest rxCount equals the receive tokens |
| TcpSlots.TokensReturn | iValuableController/TcpClient.cpp:209-232 | from any accounted state, while no new token is taken the calls under way go on in any order, never stuck and each leaving one less to do, until all tokens are back |
| TcpSlots.PowerUpConserved | iValuableController/TcpClient.cpp:35-42 | the state after power-up, all tokens free, is accounted for |
| TcpSlots.StepConserves | iValuableController/TcpClient.cpp:398-441 | every single kernel call keeps the accounting |
| ConfigProtocol.FileRun | iValuableController/ConfigComm.cpp:98-132 | a file frame of any length up to 65535, with any last byte, is dispatched iff that byte is the sum of the bytes before it modulo 256; either way the parser is back at its start |
| ConfigProtocol.ChecksumIsSum | iValuableController/ConfigComm.cpp:174-184 | the checksum is the sum of all bytes before it modulo 256, delimiters included |
| ConfigProtocol.AlteredFile | iValuableController/ConfigComm.cpp:123-132 | an altered payload of the same length is dispatched iff its byte sum agrees modulo 256; the messages behind it are dispatched in every case |
| ConfigProtocol.OneWrongByte | iValuableController/ConfigComm.cpp:123-132 | one wrong payload byte costs exactly that frame, for every length and position |
| ConfigProtocol.BrokenDelimiter | iValuableController/ConfigComm.cpp:58-68 | a first delimiter not followed by a second one is dropped together with the byte after it |
| ConfigProtocol.JunkSkipped | iValuableController/ConfigComm.cpp:54-57 | a prefix without the first delimiter changes nothing |
| ConfigProtocol.WireExamples | iValuableController/ConfigComm.cpp:50-137 | the bytes of a short and of a file command |
| ConfigProtocol.StreamDispatched | iValuableController/ConfigComm.cpp:50-137 | short and file frames in any mixture are dispatched as sent, in order |
| ConfigComm.ConfigComm.DataProcess | iValuableController/ConfigComm.cpp:50-137 | parser fields and dispatches after one byte |
| ConfigComm.ConfigComm.SendFileData | iValuableController/ConfigComm.cpp:164-186 | exactly one checksummed reply frame, or none when the data is longer than its length field |
| ConfigHost.RepliesArrive | FWUpdater/FWUpdater/SerialComm.cs:71-143 | the host reads back exactly the controller's replies iff none of them is empty |
| ConfigHost.ReplyEnding | FWUpdater/FWUpdater/SerialComm.cs:122-140 | a reply frame with any last byte is raised iff that byte is the sum of the bytes before it; its payload is kept either way |
| ConfigHost.BrokenDelimiter | FWUpdater/FWUpdater/SerialComm.cs:83-91 | a delimiter not followed by that of a reply is dropped together with the byte after it |
| ConfigHost.StreamPerceived | FWUpdater/FWUpdater/SerialComm.cs:71-143 | what the host makes of any run of replies, with null before the first payload, whether or not a command waits |
| UartRing.RunHandsPrefix | iValuableController/UartComm.cpp:67-82 | in every interleaving of arrival, restart, overflow and single accesses with a backlog of at most the buffer size, the parser has been given a gap-free prefix of what arrived |
| UartRing.StartsFaithful | iValuableController/UartComm.cpp:40-53 | a started ring holds nothing unread, with both positions at the start of the buffer |
| UartRing.RunAnswers | iValuableController/UartComm.cpp:76-81 | between overflows the parser answers as the parser alone answers the bytes handed over |
| UartRing.DrainExact | iValuableController/UartComm.cpp:76-81 | below a whole buffer the drain loop stops exactly when all bytes counted by the last write of tail are handed over |
| UartRing.CatchesUp | iValuableController/UartComm.cpp:67-82 | wherever the thread stands, without arrivals it hands everything over within 3 steps per unread byte and 7 more |
| UartRing.StreamThroughRing | iValuableController/ConfigComm.cpp:18-38 | from any state at rest, well-formed messages arriving through the ring are dispatched in order, a prefix at all times and all of them once the thread has caught up |
| UartRing.StreamDispatchedWhole | iValuableController/UartComm.cpp:67-82 | once a stream has arrived whole, with less than a buffer unread, all its messages are dispatched within 3 thread steps per unread byte and 7 more |
| UartRing.OverflowRecovers | iValuableController/ConfigComm.cpp:32-34 | an overflow with nothing unread resets the parser, and the messages that arrive after it are dispatched as from a fresh start |
| UartRing.FullStalls | iValuableController/UartComm.cpp:72-76 | with exactly one buffer unread a pass hands nothing over |
| UartRing.OneMoreLoses | iValuableController/UartComm.cpp:72-81 | with one buffer unread, wherever the thread stands, one arrival more makes the next byte handed over the new one in place of the oldest unread one |
| UartRing.UnreadIsBacklog | iValuableController/UartComm.cpp:76-81 | the bytes between head and the driver's count are exactly those not yet handed over |
| UartRing.UartComm.DataReceiver | iValuableController/UartComm.cpp:67-82 | a pass without interruption feeds exactly the unread bytes to the parser, or does nothing |
| IspProtocol.StreamAccepted | iValuableISP/main.c:493-572 | any concatenation of frames is accepted by the other side frame by frame, with command and payload as printed, and nothing is refused or overflows |
| IspProtocol.NothingPassedOver | iValuableISP/main.c:527-538 | messages with a payload are all heard, in order |
| IspProtocol.AnyFrame | iValuableController/ISPComm.cpp:101-110 | a frame is accepted iff its checksum field is the 16-bit sum; the parser starts over behind it |
| IspProtocol.BrokenDelimiter | iValuableController/ISPComm.cpp:60-65 | on either side, a first delimiter not followed by the second is dropped together with the byte after it |
| IspProtocol.JunkSkipped | iValuableController/ISPComm.cpp:56-59 | a prefix without the first delimiter changes nothing |
| IspProtocol.OverlongAnnounced | iValuableISP/main.c:520-536 | an announced length reaches the end of the bridge's buffers iff it is above 299 |
| IspProtocol.AlteredFrame | iValuableController/ISPComm.cpp:87-107 | an altered payload is accepted iff the byte sums agree modulo 65536 |
| IspProtocol.OneWrongByte | iValuableISP/main.c:538-565 | one wrong payload byte is never accepted; the bridge reports it |
| IspProtocol.EmptyFrame | iValuableController/ISPComm.cpp:72-85 | a frame without payload is dispatched by the controller and passed over by the bridge, its checksum bytes disturbing neither |
| IspProtocol.CodeReplyHeard | iValuableISP/main.c:108-119 | a ready-made reply is heard iff its written checksum is command plus code plus one |
| IspProtocol.ReadyMadeReplies | iValuableISP/main.c:108-119 | the six ready-made replies that arrive as written |
| IspProtocol.UnheardReplies | iValuableISP/main.c:111-113 | the three that never arrive |
| IspProtocol.ReadyMadeRequests | iValuableController/ISPProgram.cpp:60-80 | the controller's constant requests are what its printer would send |
| IspLink.ISPComm.DataProcess | iValuableController/ISPComm.cpp:52-113 | the controller's parser fields and dispatches after one byte |
| IspLink.ISPComm.SendData | iValuableController/ISPComm.cpp:123-144 | the printed bytes are exactly the frame for the bridge |
| IspLink.calcCheckSum | iValuableISP/main.c:145-159 | the 16-bit sum of the bytes behind the two delimiters |
| IspLink.Answer | iValuableISP/main.c:199-207 | a template patched with its payload and its sum is a frame the controller accepts |
| IspLink.BridgeReceiver.Analyse | iValuableISP/main.c:500-572 | the bridge's parser fields, buffer and waiting command after one byte |
| IspLink.BridgeReceiver.UartReceDataAnalysis | iValuableISP/main.c:493-572 | all buffered bytes are parsed; of several commands finished in one pass the last one waits, followed by a zero byte |
| SdoProtocol.SegmentServed | iValuableISP/canonchip.c:180-212 | a conforming server acknowledges each segment with its toggle and appends its bytes; at the last one it completes iff the announced size was right, and aborts otherwise |
| SdoProtocol.InitiateTaken | iValuableISP/main.c:244-254 | the server takes exactly the segmented requests that announce a size, with that size |
| SdoProtocol.SegmentTaken | iValuableISP/canonchip.c:194-212 | the server takes a segment iff its toggle is due and, being the last, it brings the data to the announced size |
| SdoProtocol.TransferCompletes | iValuableISP/main.c:256-273 | for every buffer and announced size the transfer completes iff they agree, and then the server holds exactly the buffer |
| SdoProtocol.SegmentShape | iValuableISP/canonchip.c:194-212 | toggles alternate from 0, the last flag is on the final segment only, the unused count is right, and the data bytes are those of the buffer, filled up with zeros |
| SdoClient.FrameIsSegment | iValuableISP/canonchip.c:194-212 | the frame the client builds is the segment the standard asks for |
| SdoClient.RequestFields | iValuableISP/canonchip.c:572-589 | whoever reads a request as the standard lays it out gets back command byte, index, subindex and value |
| SdoClient.RepliesThatGoOn | iValuableISP/canonchip.c:177-179 | the replies that let the next segment go, among them never an abort |
| SdoClient.SdoClient.IspSegmentDown | iValuableISP/canonchip.c:172-223 | frame, buffer position, timeout and state after an acknowledgement; nothing changes without one |
| SdoClient.SdoClient.SegmentLoop | iValuableISP/main.c:256-273 | with every segment answered the loop ends in success after ceil(n/7) frames, which are the buffer's segments; the server completes with the buffer iff its length was announced |
| SdoClient.SdoClient.Download | iValuableISP/main.c:244-273 | a download of n bytes is a success for the client, and completes at the server iff n is 256 |
| SdoClient.PageDownloadAborts | iValuableISP/main.c:226-228 | the 260 bytes of a page are aborted by a server that checks the announced size |
| SdoClient.GoDownloadAborts | iValuableISP/main.c:395-398 | so are the 42 bytes of the go command |
| SdoClient.SdoClient.CAN_ISR_HANDLE | iValuableISP/canonchip.c:145-170 | the state and the last received frame after a reply |
| SdoClient.SdoClient.Tick10ms | iValuableISP/canonchip.c:549-557 | a tick counts down and fails the request at zero, unless it is over |
| SdoClient.SdoClient.CANopen_SDOC_Exp_ReadWrite | iValuableISP/canonchip.c:559-594 | the request frame, the busy state of a read or a write and its timeout, or failure of an open request; what the states answer to is `AnswerTaken` |
| SdoWaiting.BoundedWaiting | iValuableISP/main.c:185-190 | for every interleaving, at most 63 ticks are waited for and nine moves made; a loop not done can move or waits for an answer; it ends in success or after the third failure |
| SdoWaiting.NoReply | iValuableISP/canonchip.c:549-557 | the bound is tight: without any reply it takes exactly 63 ticks |
| SdoWaiting.SuccessConfirmed | iValuableISP/canonchip.c:145-160 | success means that a reply was received: any reply for a read, the reply 0x60 for a write |
| SdoWaiting.AnswerTaken | iValuableISP/canonchip.c:145-160 | whenever the loop waits, any reply to a read, and 0x60 to a write, ends it in success with its next step; any other reply to a write changes nothing |
| EmacRing.NothingLost | Includes/EMAC_STM32F4xx.c:638-706 | in every interleaving, frames on the wire followed by frames the DMA owns are the committed frames in order, each the concatenation of its fragments |
| EmacRing.DmaBuffersUntouched | Includes/EMAC_STM32F4xx.c:638-706 | no step of the CPU changes a descriptor or buffer the DMA owns |
| EmacRing.BusyExact | Includes/EMAC_STM32F4xx.c:646-651 | the driver reports busy exactly when all descriptors are in flight |
| EmacRing.TakenExactly | Includes/EMAC_STM32F4xx.c:642-658 | a call with something to send is taken iff a fragment is due or fewer frames are in flight than there are descriptors; otherwise nothing changes |
| EmacRing.Drains | Includes/EMAC_STM32F4xx.c:690-706 | left alone, the DMA puts every committed frame on the wire with one completion each, and is never stuck |
| EmacRing.InitiallyFaithful | Includes/EMAC_STM32F4xx.c:247-259 | the initialised ring is empty and owned by the CPU |
| EmacDriver.SendInSteps | Includes/EMAC_STM32F4xx.c:659-675 | the copy steps of one call, taken without a break, do what the call does |
| EmacDriver.Emac.SendFrame | Includes/EMAC_STM32F4xx.c:638-706 | descriptors, buffers and indices after a call; busy iff no fragment is due and its own descriptor is owned by the DMA, a parameter error iff the frame is null or empty, and nothing changed in both cases |
| EmacDriver.Emac.CopyInto | Includes/EMAC_STM32F4xx.c:659-675 | the three copy loops place the fragment and nothing else |
| SensorFilter.StableExact | iValuableUnit/SensorArray.cpp:71-112 | for every history, stable iff each of the last six averages lies within plus or minus the limit of the one before; the counter stays within 0 to 6 |
| SensorFilter.DistanceWithin | iValuableUnit/SensorArray.cpp:95 | two averages are close iff their difference lies between minus and plus the limit |
| SensorFilter.FoldReflects | iValuableUnit/SensorArray.cpp:71-112 | every field of a channel as a function of its history of readings |
| SensorFilter.ChannelsIndependent | iValuableUnit/SensorArray.cpp:114-130 | interleaved channels each follow their own readings alone |
| SensorFilter.StepBounded | iValuableUnit/SensorArray.cpp:73-78 | sums and counters stay in their integer types |
| SensorFilter.SensorArray.Update | iValuableUnit/SensorArray.cpp:71-112 | the channel's new state; all other channels keep theirs |

## Left out

- CanEx.RxStruct.SetSegment: value buffer and tag words are sequence fields reassigned on each change, so aliasing of the entry's buffer is not captured
- CanEx.CanEx.Transmit: the frames handed to the driver; mutexes, send timeouts and bus errors are not modelled, nor is the ordering inside `CAN_push`
- CanRoundTrip.RoundTrip: stated from a free slot on; an unfinished entry is never replaced by a new head, so a lost segment blocks its source, and no recovery is claimed
- UnitCan.Unit.CAN_rx: requires `Defined`: segment index below 64 and bytes inside the 256-byte buffer; behaviour beyond, the interval settings of `SystemEvent`, and `tx_count` are not modelled
- UnitCan.RoundTrip: stated for segments between the head and completion; after completion each further duplicate raises the entry again (`UnitCan.SegmentsDelivered`)
- UserSector.PrepareWriteFlash: unaligned word accesses and flash error codes are not modelled; cells behind the sectors are assumed to exist
- SuppliesStore.SuppliesDisplay.GetString: indices up to the 16 pages of the sector; the source reads whatever lies behind it for higher ones
- SuppliesStore.SuppliesDisplay.ModifyString: crash safety is per program or erase operation, not inside one; negative indices are not modelled
- FirmwareBank.SessionKeeps: for declared sizes up to 65523, above which the 16-bit offset wraps; portions behind one whose length is not a multiple of four are programmed at unaligned addresses, which is modelled like any other program operation; flash error codes are not modelled
- FirmwareHost.SendFile: an attempt is heard, loses its reply for good, or does not reach the controller; late replies left in the host's queue are not modelled, and the image is the file after the host has patched its checksum word
- FirmwareManager.UnitManager.CommandWrite: the hardware CRC unit is a function of the words pushed; `FirmwareCrc` supplies it for the device
- FirmwareReplay.PagesInPlace: messages left in the controller's queue by an earlier page, and a page programmed although its last request to the target failed, are not modelled
- FirmwareManager.UnitManager.SendPages: whether the unit's programmer takes a page is a parameter; entering and leaving ISP mode and progress messages are not modelled
- TcpFraming.RoundTrip: for bodies of at least one byte, which is all the printer sends; a declared length of zero writes past its buffer and is not modelled
- TcpClient.TcpClient.TxProcessor: hands one piece to the stack, which the source waits for; a send that fails, and reconnecting, are not modelled
- TcpSlots.SlotsConserved: `txCount` is left out, it drifts and decides nothing
- TcpSlots.TokensReturn: says which calls can go on, not when a task makes its next one; the transmit task waits for its peer
- ConfigHost.RepliesArrive: whether a command waits is fixed over a run of replies; the queue that hands a reply to `SendCommand` is not modelled
- UartRing.OverflowRecovers: stated for an overflow with nothing unread; otherwise the bytes still unread are parsed from the reset state on, and what they dispatch is not stated
- IspLink.BridgeReceiver.Analyse: for payloads up to 299 bytes, the size of its buffers; the ring over the UART buffer and the transmission of replies are not modelled
- SdoProtocol.TransferCompletes: the server compares sizes at the last segment only; one that aborts as soon as too much has come is not modelled
- SdoClient.SdoClient.SegmentLoop: every segment is acknowledged before the next; the retry after a timeout works on a stale acknowledgement and is not modelled, and the last received frame stands for the uninitialised receive pointer
- SdoWaiting.BoundedWaiting: expedited requests only; the delays after a request are not counted
- EmacDriver.Emac.SendFrame: frames within the 1536-byte buffer; checksum offload, time stamps and interrupt flags are not modelled
- SensorFilter.SensorArray.Update: overload and damage states depend on floating-point ranges and are not modelled
- `NetworkEngine`, `CanDevice`, lock groups, display and RFID code, BSON, hardware registers, the RTX kernel and the TCP stack are not modelled
