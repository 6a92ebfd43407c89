# A verified model of a USB/IP stack

The repository serves virtual USB devices over USB/IP and drives them from the host side: an endpoint
and URB engine, device classes (mass storage, MTP, UVC, HID, DFU, Bluetooth), their host drivers, and the
codecs between them. This project models the state machines and codecs at its centre in Dafny and proves
what they promise, for every input, every run and every interleaving of the steps named below.

Run `dafny verify dfyconfig.toml` in this directory.

## How the files fit together

- `Bytes.dfy`: bytes, integer encodings, Python slices, joined sequences.
- `UrbPipe.dfy`, `Endpoints.dfy`: one IN endpoint as a specification over event runs, and the endpoint object
  whose trace ties it to that specification. `UrbLengths.dfy`: how much each URB gets. `UrbHalt.dfy`: the halt test
  apart from the park.
- `UrbBooks.dfy`, `UrbReset.dfy`, `UrbSessions.dfy`, `UrbDevice.dfy`: all endpoints, the pacer's queue and the wire of
  one device, what a reset leaves of them, several connections to it, and the device object with its URB dispatch. A
  completion popped under a lock reaches the wire in a later step of its own, as in the source.
- `IsoPacing.dfy`: the deadline clock and queue of the isochronous pacer, in whole microseconds; the device object
  holds one.
- `BulkOnly.dfy`, `BulkOnlyHost.dfy`, `BlockStack.dfy`, `MscObjects.dfy`: the Bulk-Only Transport device over an
  endpoint, the host driver over that device, what both mean on plain arrays of blocks, and the objects.
  `ScsiLaws.dfy`: the wrappers byte by byte, the opcodes by number, capacity and sense data through the whole stack.
- `BlockDev.dfy`, `FatFiles.dfy`: byte reads over blocks, and FAT files over those.
- `FatVolume.dfy`, `FatLayout.dfy`, `FatCutChain.dfy`, `FatStack.dfy`: opening a volume and the sizes it can record,
  where it keeps things by the bytes of its boot sector, a volume whose chain is as long as wanted, and whole file
  reads sent command by command through the mass-storage stack.
- `Huffman.dfy`, `BitReading.dfy`, `JpegBlock.dfy`, `SampleTable.dfy`: baseline JPEG entropy decoding (ITU-T T.81
  Annex C, sections B.1.1.5 and F.2.2) and the MP4 sample table.
- `VideoStream.dfy`: the UVC payload packetizer.
- `WireFormat.dfy`, `WireLayout.dfy`, `IsoTransfers.dfy`, `UsbIpObjects.dfy`: the USB/IP URB phase, its headers at
  their byte offsets, isochronous transfers over it, and the sockets and loops.
- `HidReports.dfy`: HID 1.11 report descriptors, built and parsed.
- `Composition.dfy`: endpoint relocation, the configuration blob and its checks.
- `Reassembly.dfy`: Bluetooth ACL PDUs and MTP data containers put back together.
- `Dfu.dfy`: the DFU 1.1 interface over file-backed targets.
- `MtpTree.dfy`, `MtpHandles.dfy`, `MtpCopy.dfy`, `MtpObjects.dfy`: directory trees, the handle table, copying, and
  the MTP storage object.
- `PropertyList.dfy`, `MtpListing.dfy`: MTP strings and object property lists, device encoder against host parser, and
  the handles a request selects.

Where the source keeps state in an object or a loop there is a class or a method, proved equal to a function; the
laws are proved about the function.

## Atomic steps

Each section under the endpoint's condition variable is one step. Two things that are not atomic in the source
are made explicit. The halt test in `handle_urb` and the park that follows it are one step everywhere but in
`UrbHalt`, which takes them apart and says what falls between them. The callbacks of `write`, `stall` and the pacer
run after the lock is released: `UrbBooks` keeps them as separate steps, says exactly when a reply can follow the
acknowledgement of its unlink, and proves that it cannot when the two are one step.

## What the proofs found

- A reply can follow its RET_UNLINK when the unlink falls between pop and callback
  (`UrbBooks.LateReplyHappens`); comments at usbip/device.py:148-151 and usbip/protocol.py:231-233 say it must not.
- `reset_io` flushes the endpoints but neither the pacer's queue nor the completions already popped whose callbacks
  have still to run (usbip/device.py:747-756). After an attach that is harmless to the new host, because a completion
  goes to the connection its request came from (`UrbSessions.AttachIsClean`). After SET_CONFIGURATION
  (usbip/device.py:898-901) the connection is the same, and its host can be answered for a URB from before exactly
  when one of the two held it (`UrbSessions.ResetExactly`); `UrbSessions.ConfigureLeavesReply` is a run where it is.
- An unlink compares seqnums alone, so it also takes out other connections' paced URBs of the same number
  (`UrbSessions.CancelCrosses`; usbip/device.py:651-656).
- A URB can be parked on a halted endpoint, and answered with data during the halt, when a stall falls between its
  halt test and its park (`UrbHalt.StrandedHappens`; `UrbHalt.StrandedExactly` says just which URBs are).
- The FAT chain guard cuts a chain of more than 2^24+1 clusters silently (usbip/classes/host/extras/fatfs.py:105-107).
  Since a directory records sizes below 2^32, this shows only where clusters have fewer than 256 bytes
  (`FatVolume.CutWithinReach`), so never on a volume with sectors of 256 bytes or more (`FatVolume.FilesAreWhole`).
  With 128-byte sectors, which the reader accepts, it does (`FatCutChain.FileComesBackShort`).
- A DFU download of an empty image keeps the old image, because only block 0 discards it; a download that runs past
  the capacity still ends with status OK, so only a host that polls sees the error; an image of exactly 65536 whole
  blocks can be downloaded but its upload never meets a short block (usbip/classes/device/dfu.py:176-204).
- `logical_min` and `logical_max` lose values outside -32768..32767; `report_size`, `report_id`, `report_count`,
  `usage_min` and `usage_max` lose values above 255 (usbip/classes/device/hid.py:94-123).
- `ptp_str` counts characters but writes UTF-16 units, so a character outside the Basic Multilingual Plane makes the
  parser stop short (usbip/classes/device/mtp.py:182-194).
- An isochronous transfer of no packets is not recognised as isochronous by the device (usbip/protocol.py:143-148).
- A copy onto an existing directory merges with it, so the result need not look like the source
  (`MtpTree.CopyIsIsomorphic` gives the exact condition).

## Model

| member | source | states |
|---|---|---|
| UrbPipe.RunConservesStream | usbip/device.py:103-196 | over every run of writes, IN submits, unlinks, stalls, halt clears and resets, the chunks delivered and then the queue are a cut of the blobs written since the last reset: same bytes in order, each chunk from one blob |
| UrbPipe.CutKeepsBytes | usbip/device.py:103-196 | pieces cut from blobs concatenate to the same bytes as the blobs |
| UrbPipe.RunSettles | usbip/device.py:103-157 | after every run, halt test and park being one step, at most one of queue and parked list is non-empty, and a halted endpoint has nothing parked |
| UrbPipe.RunAccountsForEveryUrb | usbip/device.py:103-196 | with unique seqnums, the replies in order and then the parked URBs are exactly the submitted URBs that were not withdrawn, in submission order: FIFO and exactly once |
| UrbPipe.RunRespectsLengths | usbip/device.py:130-146 | no reply carries more bytes than its URB asked for (a length of 0 asks without limit) |
| UrbLengths.ShortRepliesEndBlobs | usbip/device.py:103-146 | over every run with unique seqnums, on what was asked, written and replied alone: each successful reply carries the next delivered piece, is no longer than its URB asked for, and when it is shorter, or its URB asked for 0, whole blobs have been delivered up to it; a reply is cut short of its URB nowhere else |
| UrbLengths.FullPacket | usbip/device.py:116-135 | a URB of 512 bytes parked before a blob of 1024 is written gets the first 512 |
| UrbPipe.HaltKeepsQueue | usbip/device.py:171-188 | a stall answers every parked URB in order with the stall status and no data, parks nothing, and leaves the queued data; clearing the halt gives the queue back; while halted a submit stalls |
| UrbPipe.DrainAnswersInOrder | usbip/device.py:103-122 | a write completes parked URBs from the front, and the answered and the still parked ones together are the parked list |
| UrbHalt.TogetherIsSubmit | usbip/device.py:772-818 | the halt test and the park with nothing between them are the single submit step |
| UrbHalt.StrandedExactly | usbip/device.py:772-818 | over every run of tests, parks and the other locked sections: a URB is parked on a halted endpoint if and only if a stall came between its halt test and its park and nothing has taken it out since |
| UrbHalt.NoneStranded | usbip/device.py:772-818 | if no stall falls between a test and its park, a halted endpoint never has anything parked |
| UrbHalt.StrandedHappens | usbip/device.py:772-818 | a concrete run that parks a URB on a halted endpoint, where data written during the halt then answers it |
| Endpoints.Endpoint.constructor | usbip/device.py:82-101 | a new endpoint is the empty, un-halted pipe with an empty trace |
| Endpoints.Endpoint.PopLocked | usbip/device.py:130-135 | takes at most the asked length from the front blob and leaves the unread tail in front |
| Endpoints.Endpoint.Write | usbip/device.py:103-122 | the loop queues the blob and completes parked URBs exactly as the pipe's drain does; the object stays the state its trace leads to |
| Endpoints.Endpoint.TakeOrPark | usbip/device.py:138-146 | answers from the queue, parks, or stalls when halted, as one step |
| Endpoints.Endpoint.Cancel | usbip/device.py:148-157 | removes the first parked URB with the seqnum and says whether there was one |
| Endpoints.Endpoint.Stall | usbip/device.py:171-183 | halts, answers every parked URB with a stall, keeps the queue |
| Endpoints.Endpoint.ClearHalt | usbip/device.py:185-188 | clears the halt and nothing else |
| Endpoints.Endpoint.Reset | usbip/device.py:190-196 | drops queue and parked URBs and clears the halt |
| UrbBooks.EveryUrbHasOneFate | usbip/device.py:747-839 | over every interleaving of submits, writes, halts, pacer deliveries, callbacks, unlinks and resets, each submitted URB is in exactly one of answered, parked, pacing, in flight, unlinked, dropped; no seqnum is answered twice |
| UrbBooks.LateExactlyWhenRaced | usbip/device.py:113-122 | a URB is answered after its unlink if and only if it had been popped but not called back when the unlink was handled and its callback has run since |
| UrbBooks.NoReplyAfterUnlink | usbip/protocol.py:226-255 | with pop and callback taken as one step no RET_SUBMIT follows the RET_UNLINK of its URB |
| UrbBooks.LateReplyHappens | usbip/device.py:113-122 | a run of four actions in which a reply does follow its unlink: the two are not one step in the source |
| UrbDevice.Device.constructor | usbip/device.py:276-328 | a device over fresh endpoints and a fresh pacer starts the books empty, each endpoint's clock at its interval for the link speed |
| UrbDevice.Device.HandleUrb | usbip/device.py:758-839 | the endpoint looked up, then the halt test, then isochronous, IN and OUT in the source's order: each branch's status, length and data, or no answer yet; a URB with an answer is on the wire, one without is parked or scheduled in the pacer, and the run grows by that one action; on a halted endpoint, in either direction, the answer is the stall and endpoints and pacer are as before; an accepted OUT URB is answered with its buffer's whole length |
| UrbDevice.Device.AnswersFit | usbip/device.py:803-825 | an IN answer carries at most the length asked for, or the packet size when that is 0; only a paced isochronous URB or an IN URB on an empty queue goes without one |
| UrbDevice.Device.HaltedStalls | usbip/device.py:772-775 | while the routed endpoint is halted every URB for it, either direction, isochronous or not, is answered status -32, no data, actual 0 |
| UrbDevice.Device.OutIsAnswered | usbip/device.py:826-838 | an OUT URB on a running endpoint is answered status 0 and the whole length of its buffer, or the stall the class asks for |
| UrbDevice.Device.InIsAnswered | usbip/device.py:805-825 | an IN URB takes the front blob up to the length asked for, the packet size for a length of 0, or is parked for as much |
| UrbDevice.Device.IsoIsAnswered | usbip/device.py:776-804 | an isochronous URB waits for the pacer, or without one is answered at once with what the class gave |
| UrbDevice.Device.UnroutedIsRefused | usbip/device.py:765-771 | a URB for an endpoint the device does not have is answered status -19 and no data |
| UrbDevice.Device.TakeIn | usbip/device.py:803-825 | a routed IN URB takes at most its length from the front of the queue or is parked: the books' submit step |
| UrbDevice.Device.AnswerNow | usbip/protocol.py:253-254 | a URB answered on the spot is the books' immediate step |
| UrbDevice.Device.PaceLater | usbip/device.py:786-789 | a paced URB enters the pacer's queue with the deadline of its endpoint's clock |
| UrbDevice.Device.CancelParked | usbip/device.py:664-666 | the loop cancels at the first endpoint that had the URB parked and leaves the others alone |
| UrbDevice.Device.CancelUrb | usbip/protocol.py:230-239 | an unlink cancels in pacer and endpoints and is acknowledged: the books' unlink step |
| UrbDevice.Device.WriteData | usbip/device.py:103-122 | data queued by a class pops completions that are then in flight |
| UrbDevice.Device.HaltEndpoint | usbip/device.py:171-183 | a halt pops every parked URB into flight |
| UrbDevice.Device.ClearEndpointHalt | usbip/device.py:185-188 | a cleared halt is the books' step |
| UrbDevice.Device.PaceRun | usbip/device.py:635-646 | the pacer takes off the least entry, by deadline and then by order of submission, exactly when its deadline has passed |
| UrbDevice.Device.PacedInOrder | usbip/device.py:611-646 | whatever the device has been through, paced completions left in deadline order, none early, and per endpoint in the order submitted |
| UrbDevice.Device.Tick | usbip/device.py:622-625 | time passing moves the clock and nothing else |
| UrbDevice.Device.RunCallback | usbip/protocol.py:197-202 | a callback puts its reply on the wire |
| UrbDevice.Device.ResetIo | usbip/device.py:747-756 | every endpoint is flushed; the pacer's queue is not |
| UrbReset.StaleReplies | usbip/device.py:747-756 | for one `reset_io`, over every run: a URB submitted before it is answered after it if and only if the pacer's queue or a callback held it then, no unlink has taken it out since, and its callback has run; this says when, UrbSessions.ResetExactly says on which connection |
| UrbReset.ResetIsClean | usbip/device.py:747-756 | no continuation answers a URB from before a `reset_io` if and only if neither the pacer nor a callback held it then |
| UrbReset.StaleReplyReachable | usbip/device.py:635-646 | a continuation that does answer it, for every URB held there |
| UrbReset.StaleReplyHappens | usbip/device.py:747-756 | a concrete run in which a paced URB is answered after `reset_io` |
| UrbSessions.BooksFollow | usbip/protocol.py:185-259 | any run of attaches, configurations, requests and unlinks on any number of connections is a run of the books, so every theorem about those holds of it |
| UrbSessions.RepliesGoHome | usbip/protocol.py:195-202 | over every such run, overlapping connections and equal seqnums included, a connection is sent the replies to its own answered URBs, in the order of the answers, once each, and never another connection's |
| UrbSessions.ResetExactly | usbip/device.py:898-901 | for either reset, at attach or by SET_CONFIGURATION: a URB from before is answered after it, and then on its own connection only, if and only if the pacer or a callback held it, no unlink has taken it out since, and its callback has run |
| UrbSessions.AttachIsClean | usbip/protocol.py:221-225 | whatever earlier connections left behind and go on to do, a new connection is sent the replies to URBs submitted on it after its attach and no others |
| UrbSessions.ConfigureLeavesReply | usbip/device.py:898-901 | a concrete run in which SET_CONFIGURATION is answered and then, on the same connection, a paced URB from before it |
| UrbSessions.AttachKeepsReplyAway | usbip/protocol.py:221-225 | the same completion after an attach goes to the old connection and the new one is sent nothing |
| UrbSessions.CancelCrosses | usbip/device.py:651-666 | an unlink takes the URBs of that seqnum out of the pacer for every connection, and no others |
| UrbSessions.CancelTakesOneParked | usbip/device.py:658-666 | of the URBs parked under that seqnum, whosever they are, an unlink takes exactly one: the one waiting longest at the first endpoint that has any; where there is none the endpoints stay as they are |
| IsoPacing.DeliveriesAreOrdered | usbip/device.py:611-656 | over any run of schedules and cancels, completions come out in non-decreasing deadline order, never before their deadline, and in submission order per endpoint |
| IsoPacing.ClockCountsIntervals | usbip/device.py:621-625 | after k packets an endpoint's deadline is at least k service intervals past its first submission, and exactly that if and only if the host never fell behind |
| IsoPacing.RunKeepsClocks | usbip/device.py:611-633 | in every run each endpoint's deadline is the clock of the transfers scheduled on it, and no other event moves it |
| IsoPacing.IntervalsAre | usbip/device.py:616-620 | a service interval is bInterval milliseconds below high speed; from there on 125 us for 1, doubling with each step; 0 counts as 1 |
| IsoPacing.PaceQueue.constructor | usbip/device.py:616-620 | each endpoint starts with an empty clock and its service interval: whole milliseconds below high speed, 125 us times a power of two from there on |
| IsoPacing.PaceQueue.PaceSchedule | usbip/device.py:611-633 | pushes the entry with the advanced deadline and the next sequence number |
| IsoPacing.PaceQueue.PaceOnce | usbip/device.py:635-650 | takes the least entry exactly when it is due, and otherwise changes nothing |
| IsoPacing.PaceQueue.PaceCancel | usbip/device.py:651-656 | keeps exactly the entries of other seqnums |
| BulkOnly.OnOutKeepsValid | usbip/classes/device/msc.py:252-421 | every OUT packet of any bytes keeps each unit's store in size and the pending write within its writable unit, and leaves settled pipes settled: no data queued beside a parked URB, nothing parked on a halted pipe |
| BulkOnly.OnOutProtects | usbip/classes/device/msc.py:342-421 | one packet changes a unit's blocks only by completing a write pending on that unit, never on a read-only one, and never changes its size or geometry |
| BulkOnly.AwaitMeansWritable | usbip/classes/device/msc.py:347-365 | a data phase is opened only for a range inside a writable unit |
| BulkOnly.WritePacketsAnySplit | usbip/classes/device/msc.py:411-421 | write data cut into any packets has the effect of the same data in one packet: one store write, one CSW |
| MscObjects.Msc.constructor | usbip/classes/device/msc.py:182-229 | a new function has no pending write and empty pipes |
| MscObjects.Msc.OnOut | usbip/classes/device/msc.py:252-256 | a packet goes to the pending write if there is one, else it is a CBW |
| MscObjects.Msc.HandleCbw | usbip/classes/device/msc.py:258-273 | wrapper checks, the bad-unit case on unit 0, and dispatch, as the specification says |
| MscObjects.Msc.Dispatch | usbip/classes/device/msc.py:307-401 | every opcode's outcome on units, pipes and pending write |
| MscObjects.Msc.Transfer | usbip/classes/device/msc.py:342-365 | the range and write-protect checks of READ and WRITE and what each does |
| MscObjects.Msc.RecvWrite | usbip/classes/device/msc.py:411-421 | collects data until enough, stores it once and answers once |
| MscObjects.Msc.DataIn | usbip/classes/device/msc.py:293-299 | sends the data cut to the host's length, or halts the phase when there is none, then the CSW with the residue |
| MscObjects.Msc.StallDataPhase | usbip/classes/device/msc.py:278-291 | halts the pipe of the data phase's direction if a phase was promised |
| MscObjects.Msc.Fail | usbip/classes/device/msc.py:301-305 | records the sense on the unit, abandons the data phase and sends a failed CSW |
| MscObjects.Msc.SendCsw | usbip/classes/device/msc.py:275-276 | queues a thirteen-byte status wrapper with the command's tag |
| MscObjects.Msc.RequestSense | usbip/classes/device/msc.py:476-485 | reports the unit's sense and clears it |
| BulkOnlyHost.CbwParses | usbip/classes/host/msc.py:57-67 | the wrapper the driver packs is the one the device unpacks: tag, length, direction, unit, command block |
| BulkOnlyHost.CommandInRefines | usbip/classes/host/msc.py:57-95 | from a quiescent system an IN command is answered by one CSW of its own tag, leaves the system quiescent and the units as plain units would be, if and only if it fits them (not a write, no length declared for a no-data opcode, a command block the device can take); an unfitting one never completes |
| BulkOnlyHost.CommandOutRefines | usbip/classes/host/msc.py:57-101 | the same for OUT commands whose data cannot be mistaken for a wrapper: answered and quiescent with the units as plain units would be if and only if the command fits (a write carries all its data, an opcode that returns data declares none) |
| BlockStack.RunRefines | usbip/classes/host/msc.py:88-101 | every run of fitting commands behaves as the run of their meanings on plain units, and ends quiescent |
| BlockStack.MeaningIsLocal | usbip/classes/device/msc.py:258-273 | a command changes blocks and sense of its own unit only (an absent unit's sense goes to unit 0) |
| BlockStack.MeaningKeepsValid | usbip/classes/device/msc.py:252-421 | every command keeps all units but for sense data and blocks, the blocks of read-only units too, and the units stay valid |
| BlockStack.Cdb10Parses | usbip/classes/host/msc.py:116-125 | the ten-byte command block is read back as the same block address and count |
| BlockStack.LbaCountBytes | usbip/classes/device/msc.py:403-409 | the address is bytes 2 to 5 of any command block, most significant first; the count is bytes 6 to 9 for the twelve-byte read and write and bytes 7 and 8 for the rest |
| BlockStack.Cdb12Parses | usbip/classes/device/msc.py:403-409 | for every address and count below 2^32 a twelve-byte block is read as them |
| BlockStack.ReadIsSlice | usbip/classes/device/msc.py:342-365 | any read command, of ten bytes or twelve, ends quiescent and returns the slice of the unit's image it addresses, or fails on that unit alone |
| BlockStack.Read12IsSlice | usbip/classes/device/msc.py:342-365 | so does READ(12), for every address and count |
| BlockStack.WriteUpdates | usbip/classes/device/msc.py:342-365 | any write command with its data replaces exactly the whole blocks given, or fails on that unit alone |
| BlockStack.Write12Updates | usbip/classes/device/msc.py:342-365 | so does WRITE(12), for every address and count |
| BlockStack.ReadBlocksIsSlice | usbip/classes/host/msc.py:127-132 | a ten-byte read ends quiescent and returns the slice of the unit's image when the range lies in the unit, and otherwise fails on that unit alone |
| BlockStack.WriteBlocksUpdates | usbip/classes/host/msc.py:134-140 | a ten-byte write ends quiescent and replaces exactly the whole blocks given, or fails on that unit alone |
| BlockStack.StoredBlocks | usbip/classes/device/msc.py:411-421 | each byte read back is the one written if it was addressed and the old one if not |
| BlockStack.WholeWrite | usbip/classes/host/msc.py:134-140 | a whole number of blocks is written entirely |
| BlockStack.MeaningReadAfterWrite | usbip/classes/host/msc.py:116-140 | reading any range of any unit after a write gives the updated array |
| BlockStack.StackReadAfterWrite | usbip/classes/host/msc.py:116-140 | the same through both driver and device, packets and wrappers included |
| BlockStack.TooBigExactly | usbip/classes/host/msc.py:116-140 | an address or count is refused before anything is sent exactly when it does not fit its field |
| MscObjects.MscDriver.BulkOut | usbip/classes/host/msc.py:75-86 | an OUT transfer reaches the device object or stalls |
| MscObjects.MscDriver.BulkIn | usbip/classes/host/msc.py:75-86 | an IN transfer takes the queued data, stalls, or waits for ever |
| MscObjects.MscDriver.SendCbw | usbip/classes/host/msc.py:57-67 | numbers the command and sends its wrapper |
| MscObjects.MscDriver.ReadCsw | usbip/classes/host/msc.py:69-73 | reads thirteen bytes and gives the status byte |
| MscObjects.MscDriver.CommandIn | usbip/classes/host/msc.py:88-95 | wrapper, data phase with halt recovery, and status, as the specification |
| MscObjects.MscDriver.CommandOut | usbip/classes/host/msc.py:97-101 | the same with data sent |
| MscObjects.MscDriver.ReadBlocks | usbip/classes/host/msc.py:127-132 | the read command and its error |
| MscObjects.MscDriver.WriteBlocks | usbip/classes/host/msc.py:134-140 | the write command and its error |
| BlockDev.ReadIsSlice | usbip/classes/host/extras/blockdev.py:22-30 | for any offset, length, block size and view, the bytes of the image at that place, exactly when the blocks that hold them exist and fit one command |
| BlockDev.ViewsNest | usbip/classes/host/extras/blockdev.py:32-34 | a view of a view is the view at the summed base |
| BlockDev.StackReadsBlocks | usbip/classes/host/extras/blockdev.py:22-39 | over the mass storage stack the blocks fetched are the unit's |
| ScsiLaws.CbwLayout | usbip/classes/host/msc.py:57-67 | the command wrapper byte by byte: signature, tag, length, direction, unit, command block padded with zeros |
| ScsiLaws.CswLayout | usbip/classes/device/msc.py:275-276 | the status wrapper byte by byte: signature, tag, residue, status |
| ScsiLaws.OpcodeTable | usbip/classes/device/msc.py:307-401 | which opcodes pass, which are refused and why, and which payload the others send, by their numbers |
| ScsiLaws.SentIsReceived | usbip/classes/device/msc.py:293-299 | through the whole stack: what the unit sends arrives cut to the room asked for, with status 0, the command's tag, and a residue that makes up the difference |
| ScsiLaws.RefusalIsReceived | usbip/classes/device/msc.py:278-305 | through the whole stack: a refused command brings no data, status 1, all the room as residue, and leaves the reason on the unit |
| ScsiLaws.MissingUnit | usbip/classes/device/msc.py:267-272 | a command for a unit that is not there fails with the reason kept on unit 0 |
| ScsiLaws.Unsendable | usbip/classes/host/msc.py:57-67 | a command that does not fit the wrapper counts the tag up and sends nothing |
| ScsiLaws.WrapperStalls | usbip/classes/host/msc.py:57-101 | a stalled wrapper ends the command, with no data phase and no status read |
| ScsiLaws.ClosedForGood | usbip/classes/host/msc.py:57-101 | once the device's handler has raised every command finds the connection closed and the device stays as it was |
| ScsiLaws.OneUrbEach | usbip/classes/host/msc.py:75-86 | every transfer, whatever becomes of it, and every cleared halt take one URB number |
| ScsiLaws.DoneIsSigned | usbip/classes/host/msc.py:69-73 | no command is taken for done without thirteen bytes of status that start with the signature |
| ScsiLaws.CapacityDecided | usbip/classes/device/msc.py:331-337 | READ CAPACITY(10) sends the last block's address and the block size, most significant byte first |
| ScsiLaws.LongCapacityDecided | usbip/classes/device/msc.py:338-341 | the sixteen-byte form sends the same in eight and four bytes of thirty-two |
| ScsiLaws.CapacityIsRead | usbip/classes/host/msc.py:110-114 | the host reads back any unit's number of blocks and block size, with nothing changed |
| ScsiLaws.SenseDecided | usbip/classes/device/msc.py:476-485 | sense data in the fixed format, byte by byte, and cleared once reported |
| ScsiLaws.SenseIsReported | usbip/classes/device/msc.py:476-485 | the same through the whole stack |
| ScsiLaws.FailureIsExplained | usbip/classes/device/msc.py:301-305 | after any refused command the host's REQUEST SENSE tells the reason and a second one that there is none |
| ScsiLaws.Reasons | usbip/classes/device/msc.py:342-365 | a range past the end is refused as out of range, a write to a protected unit as protected, an unknown opcode as invalid |
| FatFiles.EntryDecodes | usbip/classes/host/extras/fatfs.py:77-98 | an entry can be read exactly when its sector, or its own bytes when it crosses sectors, lies on the unit and fits one command, and it is then the direct decoding of the table: packed 12-bit nibbles, 16-bit and 28-bit entries |
| FatFiles.Fat12Decodes | usbip/classes/host/extras/fatfs.py:79-96 | an odd or even 12-bit entry is the three nibbles at three times its number |
| FatFiles.WalkFindsChain | usbip/classes/host/extras/fatfs.py:100-108 | following the table's decoded links finds the chain up to the limit exactly when those entries can be read, and fails otherwise; a longer chain is cut silently |
| FatFiles.ChainUnique | usbip/classes/host/extras/fatfs.py:100-108 | a cluster heads at most one chain |
| FatFiles.ChainsAreAcyclic | usbip/classes/host/extras/fatfs.py:100-108 | a chain that ends visits no cluster twice |
| FatFiles.ChainIsBounded | usbip/classes/host/extras/fatfs.py:72-75 | a chain has no more clusters than the table format has cluster numbers |
| FatFiles.WalkStaysInRange | usbip/classes/host/extras/fatfs.py:100-108 | every cluster the walk visits is at least 2 and below the end-of-chain mark |
| FatFiles.ClusterIsSlice | usbip/classes/host/extras/fatfs.py:110-112 | a cluster can be read exactly when it lies on the unit and fits one command, and it is then its slice of the partition |
| FatFiles.EarlyExitIsPrefix | usbip/classes/host/extras/fatfs.py:187-196 | reading with the early exit succeeds exactly when the clusters needed for `size` bytes can be read, and gives the first `size` bytes of those laid end to end |
| FatFiles.NeededIsCeiling | usbip/classes/host/extras/fatfs.py:191-195 | the clusters read are the size in clusters rounded up, at least one, or all there are |
| FatFiles.FileIsSlices | usbip/classes/host/extras/fatfs.py:187-196 | for any chain of the table and any number as the size: the file can be read exactly when its entries up to the limit and the clusters its size needs can be, is then the first `size` bytes of those clusters' slices of the partition, and lacks some exactly when the chain is longer than the limit and the size reaches past the cut (which recordable sizes do is FatVolume.CutWithinReach) |
| FatFiles.SmallTablesReadWhole | usbip/classes/host/extras/fatfs.py:100-108 | on FAT12 and FAT16 no chain is cut, so a file that can be read is never short of what its chain holds |
| FatVolume.OpenedIsValid | usbip/classes/host/extras/fatfs.py:23-74 | a volume the reader opens, bare or as the first FAT partition of a disk, has a geometry every file theorem accepts: non-zero sector and cluster sizes that fit their fields, over the same unit |
| FatLayout.ParsedIsLaidOut | usbip/classes/host/extras/fatfs.py:46-74 | from the boot sector's bytes: reserved sectors, tables, root directory of 32-byte entries rounded up to sectors, and data area lie one after another, and the format goes by the limits 4085 and 65525 on the clusters that remain; refused exactly without a sector or cluster size |
| FatLayout.BaseIsFirstPartition | usbip/classes/host/extras/fatfs.py:23-44 | a bare volume starts at 0, one behind a partition table at its first FAT partition of any size, and without one the disk is refused |
| FatLayout.ClusterPlaces | usbip/classes/host/extras/fatfs.py:110-112 | cluster 2 is the start of the data area and each next cluster follows the one before |
| FatLayout.ChainGoesOn | usbip/classes/host/extras/fatfs.py:74-108 | which entries go on to another cluster, by format |
| FatLayout.OpenedIsLaidOut | usbip/classes/host/extras/fatfs.py:23-74 | every volume the reader opens is laid out as its own boot sector says, from its own start on the disk |
| FatLayout.FloppyOpens | usbip/classes/host/extras/fatfs.py:23-74 | a 1.44 MB floppy is opened as FAT12 with its data area at sector 33, cluster 2 at byte 16896 |
| FatVolume.RecordedIsRecordable | usbip/classes/host/extras/fatfs.py:144 | a directory entry's size is its bytes 28 to 31, least significant first, and so below 2^32 |
| FatVolume.CutWithinReach | usbip/classes/host/extras/fatfs.py:105-107 | a size that reaches past the cut can be recorded if and only if clusters have fewer than 256 bytes |
| FatVolume.RecordedFile | usbip/classes/host/extras/fatfs.py:187-196 | a file of a recordable size through any chain: its first `size` bytes are read, and none is missing exactly when the chain is within the limit, clusters have at least 256 bytes, or the file ends before the cut |
| FatVolume.FilesAreWhole | usbip/classes/host/extras/fatfs.py:187-196 | on a volume with sectors of 256 bytes or more no file that can be read is ever short, whatever its chain |
| FatCutChain.VolumeOpens | usbip/classes/host/extras/fatfs.py:23-74 | the example volume of 128-byte sectors is one the reader opens, with the geometry its boot sector records |
| FatCutChain.LongFileIsCut | usbip/classes/host/extras/fatfs.py:100-108 | on it, for every recordable number of whole clusters FAT32 can have, the file comes back whole up to the limit and as its first 2^24+1 clusters beyond it |
| FatCutChain.FileComesBackShort | usbip/classes/host/extras/fatfs.py:105-107 | a file of 2^31+256 bytes, a size a directory entry can record, is read there without an error and 128 bytes short |
| FatStack.FetchIsRead | usbip/classes/host/extras/blockdev.py:22-30 | a byte read through driver and device equals the one on the unit's image, in success and failure, leaves the units as they were and uses at most one command |
| FatStack.FetchEntryIsEntry | usbip/classes/host/extras/fatfs.py:77-98 | a table entry through the stack and the one-sector cache equals the entry, the cache staying what a fresh read would give |
| FatStack.SameSectorIsFree | usbip/classes/host/extras/fatfs.py:85-91 | entries in one sector cost one read of it: the second sends no command |
| FatStack.FileThroughStack | usbip/classes/host/extras/fatfs.py:187-196 | a whole file read through the stack equals the read on the unit's image; on success the system is idle again with every unit unchanged and at most one command spent on each entry and each cluster |
| FatStack.FileComesFromImage | usbip/classes/host/extras/fatfs.py:187-196 | so a file over the wire is the first `size` bytes of its clusters in the image, short only where a cut chain makes it so |
| FatFiles.FatFs.FatEntry | usbip/classes/host/extras/fatfs.py:77-98 | the one-sector cache never changes the entry read |
| FatFiles.FatFs.Chain | usbip/classes/host/extras/fatfs.py:100-108 | the loop terminates and returns the walk |
| FatFiles.FatFs.ReadFile | usbip/classes/host/extras/fatfs.py:187-196 | the accumulating loop over the chain returns the file as specified, or fails where that fails |
| Huffman.BuildHuffman | examples/uvc_device.py:248-259 | the table holds, for each length, exactly the canonical consecutive codes and their symbols in order |
| Huffman.PrefixFree | examples/uvc_device.py:248-259 | no code of the table is a proper prefix of another |
| Huffman.PrefixLiesPast | examples/uvc_device.py:248-259 | the prefix of a longer code lies past all codes of the shorter length |
| Huffman.KraftIffCodesFit | examples/uvc_device.py:248-259 | every code fits its length if and only if the counts satisfy the Kraft bound |
| Huffman.LuminanceCodes | examples/uvc_device.py:248-259 | the counts of T.81 table K.3 give the codes printed there |
| Huffman.GetBitsInverts | examples/uvc_device.py:307-311 | reading n bits gives back the value written most significant bit first |
| Huffman.SymbolIsRead | examples/uvc_device.py:313-321 | growing the code a bit at a time reads each symbol back from its own code and consumes exactly those bits |
| BitReading.UnstuffInvertsStuff | examples/uvc_device.py:278-295 | removing stuffed zeros gives back the raw bytes and stops at the marker |
| BitReading.PackKeepsBits | examples/uvc_device.py:297-305 | bits packed into bytes with one-padding are read back in order |
| BitReading.BitReader.constructor | examples/uvc_device.py:272-276 | a reader starts at its position with an empty buffer |
| BitReading.BitReader.NextByte | examples/uvc_device.py:278-295 | takes the next unstuffed byte, or none at a marker or the end |
| BitReading.BitReader.ReadBit | examples/uvc_device.py:297-305 | takes the next bit of the unstuffed stream, zero past its end |
| BitReading.BitReader.Get | examples/uvc_device.py:307-311 | takes n bits as a number |
| BitReading.BitReader.Huff | examples/uvc_device.py:313-321 | takes one symbol |
| JpegBlock.ZigzagIsPermutation | examples/uvc_device.py:220-224 | the zig-zag order visits every coefficient once |
| JpegBlock.ZigzagWalks | examples/uvc_device.py:220-224 | the table starts at the corner and walks the diagonals of the 8 by 8 block |
| JpegBlock.ExtendInvertsMagnitude | examples/uvc_device.py:262-266 | a coefficient is recovered from its size and magnitude bits |
| JpegBlock.MagnitudeInvertsExtend | examples/uvc_device.py:262-266 | every magnitude of a size is the encoding of the coefficient it extends to |
| JpegBlock.RunRoundTrip | examples/uvc_device.py:548-560 | one run-length code is read back as its zeros and its coefficient, for any table with the symbols that run needs |
| JpegBlock.AcRoundTrip | examples/uvc_device.py:546-560 | the AC part, with its sixteen-zero codes and end of block, is read back whole, for any table with the symbols the block needs |
| JpegBlock.BlockRoundTrip | examples/uvc_device.py:536-561 | any block of 64 coefficients that the two tables can code is read back from its code, which is consumed exactly |
| JpegBlock.BaselineTableCodes | examples/uvc_device.py:546-560 | a table with the 162 symbols of a baseline AC table, sizes 1 to 10 only, can code every block whose AC coefficients have at most ten bits |
| JpegBlock.StuffedStream | examples/uvc_device.py:269-305 | a reader placed on packed and stuffed bits has exactly those bits and the padding |
| JpegBlock.BytesRoundTrip | examples/uvc_device.py:269-321 | from bytes to block: unstuffing, unpacking and decoding a coded block give it back, with less than a byte of padding left |
| JpegBlock.BlockFromBytes | examples/uvc_device.py:536-561 | the decoder's loop, run by a fresh reader on those bytes, returns the block and leaves the reader with the padding alone |
| JpegBlock.Block | examples/uvc_device.py:536-561 | the decoder's loop on a reader is the block specification on the reader's bits |
| SampleTable.ReadSamplesPerChunk | examples/uvc_device.py:694-720 | each chunk gets the count of the latest run that covers it, none if no run does |
| SampleTable.IncreasingRuns | examples/uvc_device.py:694-720 | in an increasing table a chunk belongs to the last run starting at or before it |
| SampleTable.UncoveredIsEmpty | examples/uvc_device.py:694-720 | a chunk no run covers has no samples |
| SampleTable.FillChunk | examples/uvc_device.py:659-666 | a chunk's samples are appended contiguously from its offset until the sizes run out |
| SampleTable.BuildSampleTable | examples/uvc_device.py:644-667 | as many samples as have a size and a chunk, in order, each at its chunk's offset plus the earlier sizes in the chunk, with its key flag |
| VideoStream.Reassembles | usbip/classes/device/uvc.py:289-310 | whatever the slot sizes, splitting at the EOF bit and dropping the headers gives the source's frames in order and a prefix of the current one, and every packet of frame k carries k mod 2 |
| VideoStream.PacketsFillSlots | usbip/classes/device/uvc.py:293-304 | no packet exceeds its slot, a slot below two bytes gets none, and a packet that does not end its frame fills its slot |
| VideoStream.PacketBytes | usbip/classes/device/uvc.py:288-310 | each packet byte by byte: header length, parity and end-of-frame bits, then the frame's next bytes, as many as fit |
| VideoStream.FinishesWhenItFits | usbip/classes/device/uvc.py:293-309 | the frame in progress is finished exactly when some slot takes a header and the slots have room for the rest |
| VideoStream.FrameTakes | usbip/classes/device/uvc.py:293-309 | at a constant slot size c > 2 a frame of n bytes takes exactly max(1, ceil(n / (c - 2))) packets |
| VideoStream.NeededIsCeiling | usbip/classes/device/uvc.py:293-309 | that number is the rounded-up quotient, one for an empty frame |
| VideoStream.VideoStreaming.constructor | usbip/classes/device/uvc.py:130-160 | a new interface is not streaming |
| VideoStream.VideoStreaming.SetAlt | usbip/classes/device/uvc.py:266-275 | alternate setting 1 starts a stream from frame 0 once, 0 stops it, others change nothing |
| VideoStream.VideoStreaming.Produce | usbip/classes/device/uvc.py:278-286 | takes the source's frame of the current index |
| VideoStream.VideoStreaming.NextPacket | usbip/classes/device/uvc.py:293-309 | one slot's packet and the advanced cursor |
| VideoStream.VideoStreaming.OnIso | usbip/classes/device/uvc.py:289-310 | the loop sends the specified packets; all that was sent so far always reassembles |
| WireFormat.HeaderRoundTrip | usbip/protocol.py:133-138 | the forty-eight header bytes of a command are read back field by field, signed fields included |
| WireLayout.CommandFields | usbip/protocol.py:132-142 | which bytes of a command header each field is read from, signed where the source reads signed |
| WireLayout.PacketFields | usbip/protocol.py:143-149 | the same for a packet descriptor |
| WireLayout.CutOffCommands | usbip/protocol.py:132-149 | what the device makes of any stream that ends early: no header, no command; no payload, an empty one; no packet descriptors, an error; otherwise exactly the command's bytes are taken |
| WireLayout.ReplyStarts | usbip/protocol.py:152-166 | every reply, ordinary or isochronous, starts with the words 3, seqnum, devid, direction, endpoint, then status, lengths and packet count |
| WireLayout.AckStarts | usbip/protocol.py:169-172 | every acknowledgement of an unlink starts with the words 4, seqnum, devid, direction, endpoint, 0 |
| WireLayout.StreamHeads | usbip/protocol.py:152-172 | any stream of replies and acknowledgements, cut by its headers alone, gives exactly their commands and seqnums in order |
| WireLayout.CutOffReplies | usbip/protocol.py:376-378 | the host reports a disconnect exactly when it has no whole header |
| WireFormat.CommandRoundTrip | usbip/protocol.py:132-149 | one command with its data and isochronous descriptors is read back whole and nothing after it is touched |
| WireFormat.StreamRoundTrip | usbip/protocol.py:132-149 | repeated reads of any list of well-formed commands return exactly that list with nothing left over |
| WireFormat.DecodeIsoInvertsEncode | usbip/protocol.py:146-148 | packet descriptors are read back in order |
| WireFormat.ReadConsumes | usbip/protocol.py:132-149 | every successful read consumes bytes, so the serve loop ends |
| WireFormat.ReplyRoundTrip | usbip/protocol.py:376-384 | an ordinary reply is consumed exactly and gives its status, length and data |
| WireFormat.IsoReplyRoundTrip | usbip/protocol.py:424-440 | an isochronous reply is consumed exactly and gives its descriptors and scattered data |
| WireFormat.AnyIsoReply | usbip/protocol.py:424-440 | an isochronous reply is consumed exactly with any number of packets: those asked for that it lacks stay as they were, those too many are passed over |
| IsoTransfers.ScatterFills | usbip/protocol.py:431-438 | de-padded chunks that fit their slots fill exactly their own slots |
| IsoTransfers.SlotPlaces | usbip/host.py:71-74 | each slot starts where the lengths before it add up to |
| IsoTransfers.RequestStarts | usbip/protocol.py:411-422 | the host's request byte by byte: the words 1, seqnum, devid, direction, endpoint, 0, the sum of the lengths, 0, packets and interval, an empty SETUP, then the data and the slots |
| IsoTransfers.CutInvertsJoin | usbip/device.py:791-792 | packets laid end to end are cut back out by their slots |
| IsoTransfers.IsoInReturnsChunks | usbip/host.py:122-128 | an isochronous IN transfer over the wire returns exactly the chunks produced, missing ones empty, both streams otherwise untouched |
| IsoTransfers.IsoInBuffer | usbip/protocol.py:424-440 | the host's buffer is those chunks in their slots with zeros between, to the last byte |
| IsoTransfers.ScatterIsSlots | usbip/protocol.py:431-438 | scattering into zeroed slots gives each its chunk and zeros up to its length, and leaves what is around them |
| IsoTransfers.PacketResults | usbip/device.py:779-797 | a packet answered keeps its place and length, with its chunk's size and status 0; one accepted, its own length |
| IsoTransfers.IsoAnswersItsUrb | usbip/device.py:776-804 | the reply's header bytes name the URB answered and tell status 0, the bytes and the packets |
| IsoTransfers.IsoOutDelivers | usbip/host.py:130-137 | an isochronous OUT transfer over the wire hands the device exactly the packets given and reports each as accepted whole |
| IsoTransfers.NoPacketsIsNotIso | usbip/protocol.py:143-148 | a transfer of no packets reaches the device as an ordinary one |
| UsbIpObjects.Socket.constructor | usbip/protocol.py:36-43 | a socket over the segments to come |
| UsbIpObjects.Socket.Recv | usbip/protocol.py:36-43 | a receive takes some bytes of the front segment, none only at the end |
| UsbIpObjects.Socket.RecvAll | usbip/protocol.py:36-43 | the loop gives exactly the bytes wanted, however the stream is segmented, or none and an exhausted stream |
| UsbIpObjects.DeviceEnd.Read | usbip/protocol.py:132-149 | reading a command through the socket is the specification on the byte stream |
| UsbIpObjects.DeviceEnd.Respond | usbip/protocol.py:152-166 | sends exactly the reply's bytes, which start with the words 3, seqnum, devid, direction and endpoint |
| UsbIpObjects.DeviceEnd.Acknowledge | usbip/protocol.py:169-172 | sends exactly the acknowledgement's bytes |
| UsbIpObjects.DeviceEnd.HandleIsoIn | usbip/device.py:776-784 | the loop builds the de-padded buffer and the actual lengths from the chunks |
| UsbIpObjects.BuildSlots | usbip/host.py:71-74 | consecutive slots for the requested lengths |
| UsbIpObjects.ScatterPackets | usbip/protocol.py:431-438 | the scatter loop |
| UsbIpObjects.HostEnd.SendIso | usbip/protocol.py:396-422 | numbers the transfer and sends exactly its request |
| UsbIpObjects.HostEnd.ReceiveIso | usbip/protocol.py:424-440 | reading the reply through the socket is the specification on the byte stream |
| HidReports.ParseInvertsEmit | usbip/classes/host/hid.py:86-159 | parsing the bytes of any short items folds the items' meanings of HID 1.11 section 6.2.2 |
| HidReports.InterpretIsApply | usbip/classes/host/hid.py:111-158 | the parser's masked prefixes are the tags and types of the specification |
| HidReports.LongPrefixIsReserved | usbip/classes/host/hid.py:108-110 | the only short item not read back has the reserved type, tag 15 and two data bytes: its prefix starts a long item |
| HidReports.ParseReportDescriptor | usbip/classes/host/hid.py:86-159 | the index loop, truncated data and long items included, is the parse |
| HidReports.LimitsAreRecovered | usbip/classes/device/hid.py:94-99 | a logical limit is read back as given if and only if it lies in -32768..32767; nothing else changes |
| HidReports.GlobalsAreRecovered | usbip/classes/device/hid.py:90-111 | usage page, report size, count and ID are read back as given if and only if the emitter does not cut them |
| HidReports.LocalsAreRecovered | usbip/classes/device/hid.py:113-123 | a usage is read back exactly up to 65535, usage limits exactly up to 255 |
| HidReports.NestedKeepsStack | usbip/classes/host/hid.py:149-152 | properly nested Push and Pop leave the stack as it was |
| HidReports.PushPopRestores | usbip/classes/host/hid.py:149-152 | Push, any nested items, Pop restores every global item |
| HidReports.VendorDescriptorParses | usbip/classes/device/hid.py:210-224 | the vendor descriptor parses to an Input report and, if asked for, an Output report, of the sizes given if and only if these are at most 255 |
| HidReports.VendorBytes | usbip/classes/device/hid.py:210-224 | the vendor descriptor byte by byte, for all sizes and usage pages |
| HidReports.MainItemBytes | usbip/classes/device/hid.py:124-130 | the bytes of every main item the builders make |
| HidReports.GlobalItemBytes | usbip/classes/device/hid.py:90-111 | the bytes of usage page and logical limits for every value, one data byte or two |
| HidReports.ShortGlobalItemBytes | usbip/classes/device/hid.py:102-111 | the bytes of sizes, counts and IDs for every value, cut to eight bits |
| HidReports.LocalItemBytes | usbip/classes/device/hid.py:113-123 | the bytes of every local item |
| HidReports.DataSizes | usbip/classes/host/hid.py:111-113 | an item has 0, 1, 2 or 4 bytes of data |
| HidReports.LongItemIsSkipped | usbip/classes/host/hid.py:108-110 | a long item is passed over whole |
| HidReports.MainItemAddsField | usbip/classes/host/hid.py:115-133 | an Input, Output or Feature item adds one field to the report of its kind and ID and then clears usages and usage limits, and nothing else |
| HidReports.CollectionClearsLocals | usbip/classes/host/hid.py:134-135 | so do the start and the end of a collection, without a field |
| HidReports.SizeIsCeiling | usbip/classes/host/hid.py:70-77 | a report takes its fields' bits, rounded up to bytes |
| Composition.PlacedAreDistinct | usbip/device.py:383-396 | relocation gives every endpoint a number and direction of its own in 1..15 and changes nothing but the number |
| Composition.FreeAddressesAreKept | usbip/device.py:376-383 | endpoints that do not clash keep the addresses they declare |
| Composition.PlacedIffRoom | usbip/device.py:383-393 | routing succeeds if and only if each direction has a free number for each of its endpoints |
| Composition.AttachedIffFifteen | usbip/device.py:383-393 | a composition is routed if and only if neither direction has more than fifteen endpoints |
| Composition.AttachIsPlaceAll | usbip/function.py:240-249 | attaching interface by interface routes all endpoints as one list |
| Composition.AttachKeepsFields | usbip/function.py:240-249 | every interface keeps its own fields and endpoints, renumbered |
| Composition.RekeyedHolds | usbip/function.py:109-121 | rebuilding an interface's dictionary loses no endpoint whose addresses are distinct: the assertion never fires |
| Composition.EpMapFinds | usbip/device.py:394-396 | the endpoint map holds each routed endpoint under its key |
| Composition.AddressRoutesBack | usbip/device.py:932-934 | each advertised address leads back to its own endpoint |
| Composition.DescriptorsParseBack | usbip/core.py:188-232 | packed interface and endpoint descriptors parse back to their fields |
| Composition.EndpointBytes | usbip/core.py:218-227 | an endpoint descriptor byte by byte |
| Composition.InterfaceBytes | usbip/core.py:188-200 | interface and association descriptors byte by byte |
| Composition.HeaderTells | usbip/device.py:684-692 | the configuration header gives the blob's length and number of interfaces |
| Composition.InterfaceIsWhole | usbip/device.py:684-692 | the descriptors of interface number i stand together after those of the ones before: association, interface, class descriptors, endpoints, each in order |
| Composition.WalkInvertsJoin | usbip/core.py:38-49 | walking concatenated self-delimiting descriptors returns exactly those |
| Composition.ConfigWalksBack | usbip/device.py:684-692 | walking the configuration past its header returns exactly the descriptors emitted, whatever the type of the class descriptors as long as they delimit themselves |
| Composition.PassesIffOneOwner | usbip/device.py:949-960 | the conflict check passes if and only if no address is claimed by two interfaces |
| Composition.ClaimsOfAll | usbip/device.py:949-955 | the walk meets each routed endpoint once, under its own interface |
| Composition.RoutedComposition | usbip/device.py:373-396 | for any routed composition: distinct addresses, no endpoint lost, every address routes back |
| Composition.RoutedConfiguration | usbip/device.py:936-960 | for any routed composition whose class descriptors delimit themselves the blob walks back to its descriptors; where the check can read those it passes if and only if they claim no address for two interfaces; if no class descriptor poses as an interface or endpoint it passes |
| Composition.UsbDevice.RouteEndpoint | usbip/device.py:373-396 | the search loop gives the lowest free number in the direction, or fails with nothing changed |
| Composition.UsbDevice.AttachInterface | usbip/function.py:240-249 | routes an interface's endpoints in order and keeps them all |
| Composition.UsbDevice.ByAddr | usbip/device.py:932-934 | looks an address up in the map |
| Composition.IterDescriptors | usbip/core.py:38-49 | the index loop yields the walk, stopping at a malformed length |
| Composition.CheckEndpointConflicts | usbip/device.py:937-960 | the scan with its owner dictionary is the check |
| AclReassembly.AnySplit | usbip/classes/device/bluetooth.py:76-86 | PDUs delivered and bytes held depend only on the bytes received, not on the packet boundaries |
| AclReassembly.CutInvertsJoin | usbip/classes/device/bluetooth.py:76-86 | a stream of whole PDUs and an unfinished tail is cut into exactly those |
| AclReassembly.PdusAreFramed | usbip/classes/device/bluetooth.py:76-86 | every PDU handed up is four bytes longer than its bytes 2 and 3 say, and what is held back is shorter than that |
| AclReassembly.CutConserves | usbip/classes/device/bluetooth.py:76-86 | PDUs and remainder together are the stream, and the remainder holds no whole PDU |
| AclReassembly.CutAppend | usbip/classes/device/bluetooth.py:76-86 | cutting can stop and resume at any byte |
| AclReassembly.BluetoothInterface.OnOut | usbip/classes/device/bluetooth.py:76-86 | the loop hands up every whole PDU and keeps the rest |
| AclReassembly.BluetoothInterface.OnReset | usbip/classes/device/bluetooth.py:88-91 | a reset drops the half-assembled PDU and nothing already handed up |
| MtpDataPhase.CompletesOnce | usbip/classes/device/mtp.py:550-561 | a data container of its declared length, however split, completes exactly once, at its last byte, with everything after the header |
| MtpDataPhase.CommandsAreTaken | usbip/classes/device/mtp.py:550-565 | outside a data phase every transfer with a whole header is a command, in order, and shorter ones are ignored |
| MtpDataPhase.CompletesItsRequest | usbip/classes/device/mtp.py:550-561 | what completes carries the operation, transaction and parameters the phase was begun for |
| MtpDataPhase.Receiver.BeginRx | usbip/classes/device/mtp.py:732-733 | a data phase starts empty, its length unknown |
| MtpDataPhase.Receiver.Receive | usbip/classes/device/mtp.py:550-561 | one transfer of the state machine |
| Dfu.StatusFollowsState | usbip/classes/device/dfu.py:146-204 | over every run the status differs from OK exactly while the state is dfuERROR |
| Dfu.StateCodes | usbip/classes/device/dfu.py:43-45 | the state codes of DFU 1.1 |
| Dfu.PollsSettle | usbip/classes/device/dfu.py:161-174 | a poll ends the synchronising states; CLRSTATUS and ABORT give an idle interface with status OK; GETSTATE changes nothing |
| Dfu.PollsOnlyLook | usbip/classes/device/dfu.py:161-168 | GETSTATUS and GETSTATE change no target |
| Dfu.AfterBlocks | usbip/classes/device/dfu.py:176-195 | after any number of blocks, with any polls between, the target holds the part of them it has room for |
| Dfu.DownloadStores | usbip/classes/device/dfu.py:176-195 | a download leaves exactly the image in the selected target if and only if it fits (for an empty image: if the target was empty); other targets are untouched and the status ends OK either way |
| Dfu.WriteIsMade | examples/dfu_device.py:58-66 | byte by byte: a write within the capacity is made at its offset, a gap filled with zeros; one past it is a bad address; one the target cannot make has its own status |
| Dfu.BlockNumbersFit | usbip/classes/device/dfu.py:176-186 | an image of at most 65536 blocks needs no block number beyond sixteen bits |
| Dfu.UploadReads | usbip/classes/device/dfu.py:197-204 | reading from block 0 until a short block gives the image if and only if it is shorter than 65536 whole blocks |
| Dfu.UploadTakes | usbip/classes/device/dfu.py:197-204 | an upload sends the image from the block's offset on, as much as there is, up to what the host asks for and a transfer holds |
| Dfu.DownloadUploadRoundTrip | usbip/classes/device/dfu.py:146-204 | download then upload gives the image back exactly when it was stored and is shorter than 65536 blocks |
| Dfu.FileTarget.constructor | examples/dfu_device.py:47-56 | a target starts with its file as the image |
| Dfu.FileTarget.Write | examples/dfu_device.py:58-66 | writes at the offset, growing the image, or refuses past the capacity with nothing changed |
| Dfu.FileTarget.Read | examples/dfu_device.py:68-72 | at most `size` bytes at the offset, none at or past the end |
| Dfu.FileTarget.BeginDownload | examples/dfu_device.py:74-75 | the image is empty again, the file untouched |
| Dfu.FileTarget.FinishDownload | examples/dfu_device.py:77-80 | the file is cut to the image |
| Dfu.DfuInterface.SelectAlt | usbip/classes/device/dfu.py:146-150 | an existing alternate selects its target and clears the state |
| Dfu.DfuInterface.StoreBlock | usbip/classes/device/dfu.py:183-195 | a block is stored or puts the interface into dfuERROR with the target's status |
| Dfu.DfuInterface.FinishDownload | usbip/classes/device/dfu.py:178-182 | the zero-length block commits |
| Dfu.DfuInterface.DoDnload | usbip/classes/device/dfu.py:176-195 | a download request |
| Dfu.DfuInterface.DoUpload | usbip/classes/device/dfu.py:197-204 | an upload request and its data |
| Dfu.DfuInterface.OnControl | usbip/classes/device/dfu.py:153-174 | every request's new state and answer |
| MtpObjects.MtpStorage.constructor | usbip/classes/device/mtp.py:278-285 | a first scan describes the stores and gives out the numbers from 1 on, none skipped |
| MtpObjects.MtpStorage.HandleFor | usbip/classes/device/mtp.py:290-296 | a known entry keeps its handle, a new one gets the next number |
| MtpObjects.MtpStorage.WalkChild | usbip/classes/device/mtp.py:301-322 | one entry and everything below it described |
| MtpObjects.MtpStorage.Walk | usbip/classes/device/mtp.py:298-322 | everything below a directory is described, each entry once, under its own handle and its directory's; terminates on any finite tree |
| MtpObjects.MtpStorage.WalkStores | usbip/classes/device/mtp.py:324-327 | every entry of every store is described |
| MtpObjects.MtpStorage.Rescan | usbip/classes/device/mtp.py:324-329 | after a scan handles and entries are in bijection; entries still there keep their handles, new ones get new numbers, vanished ones' handles are never used again |
| MtpObjects.MtpStorage.MakeFile | usbip/classes/device/mtp.py:387-391 | a new empty file and its handle, all others kept |
| MtpObjects.MtpStorage.MakeDir | usbip/classes/device/mtp.py:393-397 | a new directory and its handle, all others kept |
| MtpObjects.MtpStorage.WriteFile | usbip/classes/device/mtp.py:399-402 | new contents, no handle changed |
| MtpObjects.MtpStorage.Delete | usbip/classes/device/mtp.py:404-413 | the subtree goes and its handles are retired, or the backend refuses and nothing changes |
| MtpObjects.MtpStorage.RemapHandles | usbip/classes/device/mtp.py:437-443 | the pop and insert loop remaps exactly the subtree's keys: old and new keys are disjoint |
| MtpObjects.MtpStorage.MoveInStore | usbip/classes/device/mtp.py:431-445 | a move succeeds if and only if the destination is free, in a directory and outside the source; then tree and table move together and no number is issued |
| MtpObjects.MtpStorage.Rename | usbip/classes/device/mtp.py:415-445 | rename within a store, to itself, and across stores, where a source the backend will not remove stays beside its copy, and its failures |
| MtpObjects.MtpStorage.CopyTree | usbip/classes/device/mtp.py:447-457 | the recursion overlays exactly the source subtree at the destination, even inside the source, and terminates |
| MtpObjects.MtpStorage.CopyChildren | usbip/classes/device/mtp.py:450-453 | the loop over the children of the table as it was |
| MtpObjects.MtpStorage.Copy | usbip/classes/device/mtp.py:459-464 | a copy and its handle, existing handles kept |
| MtpObjects.MtpStorage.Descendants | usbip/classes/device/mtp.py:346-354 | the stack search terminates and returns every object strictly below the handle exactly once |
| MtpObjects.ObjectAt | usbip/classes/device/mtp.py:309-320 | an object is an entry of its store under its own handle |
| MtpObjects.StoredHasHandle | usbip/classes/device/mtp.py:290-329 | every stored entry has an object |
| MtpObjects.ParentEntry | usbip/classes/device/mtp.py:309-322 | an object's parent is the object of its path's directory, 0 at the root |
| MtpObjects.SurvivorsAreKept | usbip/classes/device/mtp.py:324-329 | across any scan an unchanged entry is the same object: handle, parent and all |
| MtpObjects.FoundWhenClosed | usbip/classes/device/mtp.py:346-354 | a search closed under children, with nothing pending, has found every object below the handle |
| MtpHandles.ScanAdvances | usbip/classes/device/mtp.py:324-329 | a scan keeps handles distinct, issues the next numbers, every one, and reuses none given up |
| MtpHandles.RemapOne | usbip/classes/device/mtp.py:442-443 | one popped and reinserted key leaves the remaining keys and the done ones as they should be |
| MtpHandles.RenamedKeys | usbip/classes/device/mtp.py:437-443 | the remapped keys are exactly the entries of the moved tree |
| MtpHandles.RenamedOk | usbip/classes/device/mtp.py:437-443 | the remapped table still gives distinct handles |
| MtpHandles.RenameKeepsHandles | usbip/classes/device/mtp.py:415-445 | after a rename every object keeps its handle; the subtree's paths change by prefix, the subtree root's parent changes, nothing else does |
| MtpHandles.RenameAddsNone | usbip/classes/device/mtp.py:415-445 | a rename adds no object |
| MtpTree.MovedIsWellFormed | usbip/classes/device/mtp.py:434 | a moved subtree leaves a tree |
| MtpTree.CopyIsIsomorphic | usbip/classes/device/mtp.py:447-457 | after a copy the destination subtree equals the source's snapshot if and only if nothing else was under the destination |
| MtpTree.NewDestinationIsFree | usbip/classes/device/mtp.py:447-457 | nothing stored lies at or under a destination that does not exist yet: no kinds clash there, the copy changes nothing in the source's subtree, and nothing but the copy ends up under it |
| MtpTree.TextUnder | usbip/classes/device/mtp.py:440 | on path texts, being equal or starting with the directory's text and a slash is lying under it; a sibling with a common prefix is not |
| MtpTree.TextSubst | usbip/classes/device/mtp.py:437-439 | on path texts, the new prefix and the rest of the old text is the moved path |
| MtpTree.TextInjective | usbip/classes/device/mtp.py:301 | different paths have different texts |
| PropertyList.StringRoundTrip | usbip/classes/device/mtp.py:177-194 | a string is read back whole, exactly its bytes consumed, if and only if it has at most 254 characters, all in the Basic Multilingual Plane and none NUL |
| PropertyList.KnownStrings | usbip/classes/device/mtp.py:177-194 | strings as bytes: the count with the closing NUL, then UTF-16 with the low byte first; the empty one is a single 0 |
| PropertyList.KnownPrice | usbip/classes/device/mtp.py:177-194 | the same of two characters, one beyond a byte |
| PropertyList.KnownPair | usbip/classes/device/mtp.py:177-194 | a character past 0xFFFF is four bytes and one of the count |
| PropertyList.SurrogatePair | usbip/classes/device/mtp.py:177-194 | it is a high and a low surrogate that hold its value |
| PropertyList.Utf16RoundTrip | usbip/classes/device/mtp.py:177-194 | any text is read back from its code units, surrogate pairs included |
| PropertyList.LoneSurrogate | usbip/classes/device/mtp.py:186-194 | a surrogate without its partner becomes the replacement character |
| PropertyList.ValueRoundTrip | usbip/classes/host/mtp.py:267-274 | an integer of its width, a 128-bit identifier or such a string is read back |
| PropertyList.ListRoundTrip | usbip/classes/host/mtp.py:277-286 | a counted list of entries parses to the table of those entries |
| PropertyList.EntryLayout | usbip/classes/device/mtp.py:909-919 | an entry byte by byte: handle, property, type, value |
| PropertyList.CountLeads | usbip/classes/device/mtp.py:909-920 | the list starts with the number of its entries, in 32 bits |
| PropertyList.PropertyTypes | usbip/classes/device/mtp.py:867-887 | the type each of the nine properties is sent as |
| PropertyList.PropertiesAsked | usbip/classes/device/mtp.py:908-914 | property 0 or 0xFFFFFFFF asks for all nine, any other for that one |
| PropertyList.TableOfEntries | usbip/classes/device/mtp.py:909-919 | the entries the device lists make the table of the selected objects' supported properties |
| PropertyList.PropListRoundTrip | usbip/classes/device/mtp.py:898-920 | the host's parse of the device's list is exactly the selected objects' supported properties, for any object table, selection and property code |
| PropertyList.FullListing | usbip/classes/device/mtp.py:867-887 | each of the nine properties is the object's own value |
| PropertyList.OfFormatSelects | usbip/classes/device/mtp.py:906-907 | the format filter keeps exactly the objects of the format and raises exactly on an unknown handle |
| PropertyList.AppendObject | usbip/classes/device/mtp.py:914-919 | one object's properties appended and counted |
| PropertyList.ObjectPropList | usbip/classes/device/mtp.py:898-920 | the nested loops build the list for the handles given; which handles a request selects is MtpListing.SelectHandles |
| PropertyList.ParsePropListLoop | usbip/classes/host/mtp.py:277-286 | the offset loop is the parse |
| MtpListing.ListHandles | usbip/classes/device/mtp.py:331-344 | exactly the objects that pass the storage, parent and format filters, in ascending order |
| MtpListing.SelectHandles | usbip/classes/device/mtp.py:898-905 | all objects ascending, those in a root ascending, or the one asked for followed, if asked, by every object below it, each once |
| MtpListing.ServePropList | usbip/classes/device/mtp.py:898-920 | from request to parsed answer: the device raises exactly when a format is asked of a single object there is none of, and otherwise the host's table holds the supported properties of exactly the chosen objects of that format |

## Left out

- Threads, condition variables, timeouts and `accept` loops: a locked section is one step, a connection is a byte stream.
- The blocking fallback `_take_in` and `Endpoint.read`, which wait for data with a timeout.
- Device registry, capture files, logging and the command-line examples.
- The operation phase of USB/IP (device list and import) and the capture-only endpoint map.
- EP0 standard requests other than what the classes above use; a control URB whose direction disagrees with its SETUP packet.
- BlockStack.RunRefines: covers runs of fitting commands; what an unfitting one does is decided per command by the two refinement lemmas.
- BulkOnlyHost.CommandOutRefines: OUT data that looks like a wrapper while no write awaits it is excluded; the device takes it for the next command.
- UrbSessions.RepliesGoHome: what is sent on a socket already closed counts as sent; the acknowledgement of an unlink is sent by the connection that asked.
- UrbBooks.LateExactlyWhenRaced: for URBs whose seqnums differ, as on one connection; an unlink that names a URB of another connection is UrbSessions.CancelCrosses.
- UrbDevice.Device.HandleUrb: what a class callback gives for the URB is a parameter, data queued on an OUT endpoint for `Endpoint.read` is not kept, lengths are not negative, and pacing is chosen before the first URB.
- BulkOnly.OnOutKeepsValid: INQUIRY, mode, format-capacity, TOC and configuration payloads are tables of the unit, their bytes not computed.
- The Bulk-Only reset and Get Max LUN class requests, and speed-dependent endpoint sizes.
- IsoPacing.DeliveriesAreOrdered: time is in whole microseconds; the source's floating-point seconds are not rounded here.
- FatFiles.FileIsSlices: over an image that does not change; a directory entry's first cluster and size are parameters, the search for it by name is not modelled.
- FatStack.FileThroughStack: the block size is the unit's, as READ CAPACITY reports it; the driver's tag counter must have room for two commands per cluster up to the limit, since a tag past 32 bits cannot be packed.
- JpegBlock.Block: coefficients are integers; dequantization, the inverse transform, scans with restart intervals and colour conversion are not modelled.
- SampleTable.BuildSampleTable: the box parser that finds the tables is not modelled, its tables are parameters.
- VideoStream.Reassembles: the frame callback is a function of the frame index, each index being asked for once; probe and commit negotiation is left out.
- Composition.RoutedComposition: interfaces with the default descriptor block and endpoint numbers 1..15; a function is the interfaces it attaches, its association descriptor going before the first. A descriptor block of more than 65526 bytes is excluded, as it cannot be packed.
- Composition.RoutedConfiguration: a class descriptor posing as an interface or endpoint descriptor is walked, but what the conflict check says of it is not stated; UAC, which emits fixed addresses, is not covered.
- Composition.UsbDevice.AttachInterface: endpoints are values numbered in routing order, so two names for one endpoint object are not captured.
- Dfu.DownloadStores: images of more than 65536 blocks, whose block numbers wrap.
- Dfu.DfuInterface.OnControl: a target's read never raises, and its write raises only statuses other than OK.
- MtpDataPhase.CompletesOnce: what each completed operation does is not part of this module, nor is a container sent after an early rejection.
- MtpObjects.MtpStorage.Walk: listing order is left open (it decides only which new entry gets which new number), and an entry that disappears between listing and stat is not modelled.
- MtpObjects.MtpStorage.MakeFile: names are non-empty and without a slash, the parent is a live directory, as `target` provides; the same holds for the other creating operations.
- MtpObjects.MtpStorage.MoveInStore: the backend's rename fails when the destination exists, in no directory, or inside the source; a POSIX rename may replace an existing file instead.
- MtpObjects.MtpStorage.Copy: copies in which a file meets a directory raise half way and are excluded, as are copies that overwrite part of their own source while it is read.
- `pwrite`, `truncate`, `list_handles`, disk usage and the other MTP operations, which add one-line cases.
- MtpObjects.MtpStorage.Delete: a refusing backend has removed nothing; one that removes part of a directory and then fails leaves the table behind the store until the next scan.
- MtpListing.ServePropList: tables whose nine properties per object fit the list's 32-bit count.
- PropertyList.PropListRoundTrip: dates and the 128-bit path identifiers are given values; names and dates are at most 254 characters of the Basic Multilingual Plane without NUL, the exact condition of the string round trip.
- CDC-ACM, WebUSB, UAC, SCO, ISO 9660 and Microsoft OS descriptors: constants, table lookups or single-loop readers.
