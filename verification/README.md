# Verified models of anyvm-builder's device and file code

Dafny 4.11 models of five parts of the repository, each written as its source is (classes with
fields and arrays where the source updates state, functions where it computes), and proofs about
them. `dafny verify dfyconfig.toml` checks everything.

| files | part of the repository |
|---|---|
| `Framing`, `TelnetWire`, `TelnetAgent`, `TelnetBuild` | the agent's Telnet connection (`files/anyvmd.py`) and the build side's (`build.py`) |
| `SmscTx`, `SmscNic`, `SmscDevice`, `SmscDriver` | the SMSC95xx USB NIC in `files/qemu-riscos-raspi.patch` |
| `GuestMemory`, `Vchiq`, `VchiqProtocol`, `VchiqDevice`, `VchiqGuest` | the VCHIQ peer in the same patch |
| `Dma` | the BCM2835 DMA row copy in the same patch |
| `BigDir`, `Walk`, `Calibration`, `Lookup`, `Patch`, `Volume`, `PatchTool`, `Restore` | the FileCore reader and patcher (`files/rofilecore.py`), and the hook that runs it twice (`hooks/host_finalizeImage.sh`) |
| `Download` | the threaded and the resuming downloader (`build.py`) |
| `Bytes` | octets, words and sequence facts shared by all |

## How the models are built

A class (`Telnet`, `Smsc`, `Peer`, `Channel`, `Volume`, `ImageFile`, `LocalFile`) holds the fields
of the source's object. Its methods do what the source's functions do, loop by loop, and each is
proved to turn one abstract state (`View()`) into the one that a specification function gives. The
theorems are about those functions, so they hold of the methods.

**Telnet.** `Decode` is the meaning of a stretch of wire bytes for any framing that later bytes
cannot change. `TelnetWire.Token` is the grammar of RFC 854 and RFC 855, with octets, option commands
and answers of its own, independent of the decoders and of what they say in reply.
From the two follow independence of recv boundaries, the binary round trip and the hand-over from
`read_line` to `read`. RFC 855 doubles 0xFF inside subnegotiation parameters, which the scan for
IAC SE does not undo; the condition under which it still stops in the right place is exact. So are
the condition under which `_telnet_eat_iac`, which keeps no tail, agrees with the agent's decoder on
what follows, and the condition on the recv boundaries under which `read_line` hands the whole
archive over.

**NIC.** Transmit: headers, blocks and the remainder are a function of the buffered bytes; that
function is compositional, which makes packetisation irrelevant, and it says where the C loop's
position would pass the end of the buffer. The buffered lengths for which no contents can do that
are characterised exactly. Receive: the bytes sent to the host and those still buffered are always
the blocks of the frames accepted. QEMU's network backend is an environment that queues frames and
stops on a 0 return. No event strands a queued frame, except a register write to one of the three
unaligned indices of the word of MAC_CR, which turns reception on without the flush; when is exact,
and an input that does it from a fresh NIC is given. `SmscDriver` is the other end of both streams: a
driver that builds header words by arithmetic, and one that reads received bytes by their length
fields, neither of which knows the device's own functions.

**VCHIQ.** Memory is bytes, addresses and positions are 32-bit words that wrap. `Ground` is what a
sane guest provides (a power of two of slots, disjoint slots, addresses that fit); that the mask is
an index exactly for powers of two, and that the queue-filling loop of the handover ends exactly
unless the last slot is the last 32-bit word, are theorems, and a slot zero that the device accepts
and never gets done with is given. `Channel` ties both streams to the words
in memory, and is kept by every event of guest and device in any order. `VchiqGuest` reads the words
back as a guest would, by their bits, and says what a slot zero means that a guest has laid out.

**DMA.** Copying by words is compared with copying byte by byte, and with a move at one stroke; in
both cases the overlaps for which they agree on every memory are characterised exactly.

**FileCore.** Parsing undoes the documented layout, and on arbitrary bytes stays inside the mapping.
The walk ends on every set of blocks, cyclic or not. Trails from the root, a notion independent of
the walk's stack, say what is reachable and what the true positions are. What a path leads to is
exact: the last entry of its name. The patch command is modelled from the image to the patched image,
and the hook's two runs of it, the second on what the first has left, are shown to restore both
copies exactly if the text holds no copy of the prefix itself.

**Download.** Threads are interleaved at the grain of one read and its write, with short reads,
drops and retries. The resuming connection is a loop over rounds with a lexicographic measure.

## Model

| member | source | states |
|---|---|---|
| Framing.TailIsHeld | files/anyvmd.py:129-151 | what decoding holds back decodes to nothing and is held back again |
| Framing.DecodeInTwo | files/anyvmd.py:119-158 | decoding may stop anywhere and resume from its tail: payload, replies and tail come out the same |
| Framing.FillKeepsStream | files/anyvmd.py:100-158 | a recv, whatever it brings, neither loses nor invents nor reorders payload still to be read |
| Framing.FillsDecodePrefix | files/anyvmd.py:100-158 | after any number of recvs the buffer, the replies sent and the tail are those of a one-shot decode of all bytes so far |
| Framing.SplitIndependence | files/anyvmd.py:100-158 | payload, replies and tail do not depend on recv boundaries; an orderly close appends the tail to the payload |
| Framing.ErrorDropsTail | files/anyvmd.py:108-118 | a recv that fails ends the stream as well, and the tail is not payload then |
| Framing.FillToLineKeepsStream | files/anyvmd.py:168-186 | waiting for a line keeps the payload stream and stops with a line or at the end of the stream |
| Framing.LastLine | files/anyvmd.py:183-185 | where no line end is left the last line is the rest of the stream, and after that there is none |
| Framing.NoneAtTheEnd | files/anyvmd.py:168-186 | read_line gives None if and only if the stream is at its end |
| Framing.HandOver | files/anyvmd.py:168-186 | read_line returns the command; what can be read afterwards is the archive if and only if the LF was buffered with the CR and no LF or NUL right behind it |
| Framing.BufferedRest | files/anyvmd.py:168-186 | what is already buffered behind the line is a prefix of the archive |
| Framing.NoBoundaryMeans | files/anyvmd.py:100-158 | the boundary test of the next rows counts bytes over the recvs as intended |
| Framing.WhereReadingStops | files/anyvmd.py:168-186 | reading for a line stops with the CR alone if a recv ended there, right behind the LF if one ended there, and otherwise with at least one octet more |
| TelnetWire.ScanStopsOnFirstPair | files/anyvmd.py:143-150 | the subnegotiation scan stops on the first IAC SE, or where none fits |
| TelnetWire.FrontIsStable | files/anyvmd.py:124-152 | bytes that arrive later never change an item that is whole |
| TelnetWire.DecodeMeaning | files/anyvmd.py:81-158 | a wire image decodes to the payload of its tokens, the unfinished rest being held back exactly; each offer is answered by the opposite verb with the same option, yes for BINARY only, and a refusal is not answered |
| TelnetWire.EveryStringParses | files/anyvmd.py:124-152 | every byte string is the image of some tokens and an unfinished rest, so the grammar covers every input |
| TelnetWire.DecodeDoubled | files/anyvmd.py:189-195 | decoding undoes the writer's doubling of 0xFF, without replies or a tail |
| TelnetWire.DoublingKeepsPairs | files/anyvmd.py:143-150 | doubling 0xFF neither hides nor creates an IAC SE pair |
| TelnetWire.SubnegotiationEndsWhereRfc855Says | files/anyvmd.py:143-150 | the scan finds the end that RFC 855 gives if and only if the parameters hold no IAC SE pair |
| TelnetAgent.ItemAt | files/anyvmd.py:124-152 | the branches of the decoding loop find the item at a position, or that it is not whole |
| TelnetAgent.DecodeChunk | files/anyvmd.py:119-158 | the decoding loop computes the meaning of the chunk: payload, replies and tail |
| TelnetAgent.Telnet.Fill | files/anyvmd.py:100-158 | one recv: error, orderly close or data, with the tail carried over and the replies sent |
| TelnetAgent.Telnet.Read | files/anyvmd.py:160-166 | exactly as many bytes as wanted from the front of the payload stream, fewer only when the stream ends first; the rest stays to be read |
| TelnetAgent.Telnet.ReadLine | files/anyvmd.py:168-186 | the line, the buffer behind it, or None at the end of the stream, as the specification of a line read has them |
| TelnetAgent.Telnet.Write | files/anyvmd.py:189-195 | sends the data doubled, or marks the end when sending fails |
| TelnetAgent.BinarySurvives | files/anyvmd.py:100-158 | what the escaping writer sends, cut up in any way, is read back byte for byte and provokes no reply |
| TelnetAgent.CommandThenArchive | files/anyvmd.py:160-186 | over command, CR LF and doubled archive the line is the command, and all of the archive is still to be read if and only if no recv ends between CR and LF and, should the archive start with LF or NUL, one ends right behind the LF |
| TelnetAgent.PortionsAreTheStream | files/anyvmd.py:160-166 | successive reads together give the stream up to what was asked for |
| TelnetAgent.ShortOnlyAtTheEnd | files/anyvmd.py:160-166 | a read is short only if the stream has been read to its end |
| TelnetAgent.ReadEach | files/anyvmd.py:160-166 | reads of any sizes, on the object, give those portions |
| TelnetAgent.TakeCommand | files/anyvmd.py:160-186 | from the wire to the reader: the command, and then exactly the archive in portions of any sizes |
| TelnetBuild.EatItemAt | build.py:3567-3594 | the branches of the build side's loop find the item at a position |
| TelnetBuild.EatIac | build.py:3560-3594 | appends the payload and sends a refusal for every offer, in order |
| TelnetBuild.EatMeaning | build.py:3560-3594 | it finds the payload of the tokens, refuses every offer among them in order, and drops the unfinished rest |
| TelnetBuild.SamePayload | build.py:3560-3594 | on one buffer both decoders find the same payload, whatever it holds |
| TelnetBuild.NoCarryOver | build.py:3560-3594 | decoding recvs one by one agrees with the agent's decoder for every continuation if and only if the first recv ended between two items |
| TelnetBuild.AnswersAreSent | build.py:3575-3583 | the answers of the negotiation model are those that the two decoders send |
| TelnetBuild.TurnDoesOneUnitOfWork | files/anyvmd.py:81-98 | reading one command in flight does one unit of the work there is |
| TelnetBuild.NegotiationQuiesces | files/anyvmd.py:81-98 | in every order of deliveries agent and build side exchange at most three commands per initial one, and fall silent exactly when that work is done |
| SmscTx.TransmitInTwo | files/qemu-riscos-raspi.patch:1383-1431 | parsing may stop wherever it waits and go on with more bytes: same frames, same remainder |
| SmscTx.StartOfWaiting | files/qemu-riscos-raspi.patch:1404-1426 | the beginning of bytes that leave the parser waiting also leaves it waiting, or ends inside padding |
| SmscTx.WholeWordsNeverOverrun | files/qemu-riscos-raspi.patch:1388-1426 | with whole words buffered the position never passes the end, so the unsigned loop test never wraps |
| SmscTx.LeftoverIsShort | files/qemu-riscos-raspi.patch:1388-1431 | what stays buffered is shorter than the longest block that can be incomplete, whatever the headers say |
| SmscTx.SafeLengths | files/qemu-riscos-raspi.patch:1388-1426 | no contents of n bytes can carry the position past the end if and only if n is a multiple of 4 or below 22 |
| SmscTx.SlackSuffices | files/qemu-riscos-raspi.patch:1374-1406 | on whole-word packets the clamp drops nothing and the bound on the remainder is kept |
| SmscTx.PacketsDoNotMatter | files/qemu-riscos-raspi.patch:1372-1432 | a run of packets sends what parsing their concatenation sends, while the stream stays in step |
| SmscTx.StreamTransmits | files/qemu-riscos-raspi.patch:1388-1431 | a stream of well-formed blocks parses into exactly their frames, with nothing left |
| SmscTx.Packetisation | files/qemu-riscos-raspi.patch:1372-1432 | however a driver's blocks are cut into OUT packets of whole words, exactly their frames are sent, in order |
| SmscDriver.RequestsAreSent | files/qemu-riscos-raspi.patch:1372-1432 | from a driver's fields to the wire: each frame of its stream is sent, in order, followed by zeros up to 60 bytes exactly if it is shorter and padding is not forbidden |
| SmscDriver.RequestIsBlock | files/qemu-riscos-raspi.patch:903-908 | header words built from their fields mean the block that the parser takes them for |
| SmscDriver.SentWhileEnabled | files/qemu-riscos-raspi.patch:1366-1370 | a stream is sent exactly while transmitter and MAC are both on, and dropped otherwise |
| SmscNic.BulkInSound | files/qemu-riscos-raspi.patch:1437-1476 | an IN poll conserves the received bytes, and parks a request only while nothing is to be sent |
| SmscNic.BulkInDelivers | files/qemu-riscos-raspi.patch:1461-1466 | the bytes put into the packet, and no others, are those that count as delivered, in order |
| SmscNic.BulkInFrees | files/qemu-riscos-raspi.patch:1473-1475 | an IN poll leaves the buffer occupied, or frees it and asks for a flush |
| SmscNic.TakeInSound | files/qemu-riscos-raspi.patch:1527-1553 | accepting a frame, into the buffer or on into the parked packet, conserves the received bytes |
| SmscDriver.ReadBlocks | files/qemu-riscos-raspi.patch:1527-1542 | a driver that goes by the length fields reads blocks back as their frames |
| SmscDriver.DriverReads | files/qemu-riscos-raspi.patch:1437-1555 | what it has been sent and what is still to come it reads as exactly the accepted frames |
| SmscDriver.DriverReadsRun | files/qemu-riscos-raspi.patch:1437-1627 | so it does after every run from a fresh NIC that strands no frame |
| SmscNic.PieceCount | files/qemu-riscos-raspi.patch:1468-1475 | a block takes floor(length/mps)+1 packets, the last of them short or empty |
| SmscNic.BlockTakesItsPieces | files/qemu-riscos-raspi.patch:1461-1475 | successive polls of the endpoint's size bring exactly those packets |
| SmscNic.LastPieceFrees | files/qemu-riscos-raspi.patch:1468-1475 | the last of them, and none before it, frees the buffer and asks for a flush |
| SmscNic.CanReceiveTakes | files/qemu-riscos-raspi.patch:1503-1531 | a NIC that can receive never answers 0 |
| SmscDriver.TakenExactly | files/qemu-riscos-raspi.patch:1511-1531 | a NIC that can receive takes a frame if and only if it is of proper size and passes the filter |
| SmscDriver.FilterPasses | files/qemu-riscos-raspi.patch:1478-1501 | a frame passes if and only if all are taken, or it is a broadcast, a group frame where those are taken, or for the programmed address |
| SmscNic.DrainSound | files/qemu-riscos-raspi.patch:1511-1555 | after the backend has drained, its queue is empty or the NIC has a block to send |
| SmscNic.RegisterKeeps | files/qemu-riscos-raspi.patch:1239-1318 | changing a register without a flush strands waiting frames if and only if it turns reception on |
| SmscNic.EveryEventKeeps | files/qemu-riscos-raspi.patch:1126-1627 | every event conserves received bytes, keeps the transmit slack and strands no frame, if and only if it is not an unaligned write that turns reception on while frames wait |
| SmscNic.FreshIsKept | files/qemu-riscos-raspi.patch:1605-1627 | what is kept holds of a NIC as it is made |
| SmscNic.StrandingIsReachable | files/qemu-riscos-raspi.patch:1299-1318 | from a fresh NIC, a frame and then a write to index 0x101 strand that frame |
| SmscNic.RunsKeep | files/qemu-riscos-raspi.patch:1557-1627 | a run, resets included, keeps all that in every state if and only if none of its steps is such a write while frames wait |
| SmscNic.Run | files/qemu-riscos-raspi.patch:1557-1627 | the state such a run ends in keeps it |
| SmscDevice.Smsc.BulkOut | files/qemu-riscos-raspi.patch:1372-1432 | the OUT path in place: frames sent and buffer left are those of the specification |
| SmscDevice.Smsc.Append | files/qemu-riscos-raspi.patch:1374-1381 | as much of the packet as fits goes behind what is buffered |
| SmscDevice.Smsc.TakeBlock | files/qemu-riscos-raspi.patch:1388-1425 | one turn of the loop: pass a block, wait for its rest, or give the buffer up |
| SmscDevice.Smsc.Parse | files/qemu-riscos-raspi.patch:1388-1431 | all whole blocks are sent and the remainder moved to the front |
| SmscDevice.Smsc.ServeIn | files/qemu-riscos-raspi.patch:1437-1476 | smsc_bulk_in in place |
| SmscDevice.Smsc.ReceiveFrame | files/qemu-riscos-raspi.patch:1511-1555 | smsc_receive in place, with its three return values |
| SmscDevice.Smsc.HandleInToken | files/qemu-riscos-raspi.patch:1570-1580 | an IN token, with the deferred flush of the backend |
| SmscDevice.Smsc.CancelPacket | files/qemu-riscos-raspi.patch:1596-1603 | only the parked packet itself is unparked |
| SmscDevice.Smsc.SoftReset | files/qemu-riscos-raspi.patch:1193-1206 | the datapath is cleared, the parked packet and the addresses stay |
| SmscDevice.Smsc.UsbReset | files/qemu-riscos-raspi.patch:1605-1627 | registers, buffers and the parked packet are cleared and the address registers seeded |
| SmscDriver.BusResetIsFresh | files/qemu-riscos-raspi.patch:1605-1627 | after a bus reset the NIC is as made, but for its address |
| SmscDriver.SoftResetStartsOver | files/qemu-riscos-raspi.patch:1193-1206 | after a soft reset nothing is left of either stream, and the next frames go out as from a NIC just made |
| SmscDevice.Smsc.WriteRegister | files/qemu-riscos-raspi.patch:1239-1318 | a register write, with its resets and its flush |
| GuestMemory.StoreIsSeen | files/qemu-riscos-raspi.patch:335-344 | a stored word is read back, and every word that shares no byte with it is as before |
| GuestMemory.ThreeStores | files/qemu-riscos-raspi.patch:392-396 | the three stores of an append are all read back and touch nothing else |
| Vchiq.MsgFields | files/qemu-riscos-raspi.patch:288-291 | type, source and destination are read back from a message id |
| Vchiq.StrideOfSmall | files/qemu-riscos-raspi.patch:346-352 | a stride covers header and payload, is a multiple of 8 and wastes at most 7 bytes |
| Vchiq.MaskIsIndex | files/qemu-riscos-raspi.patch:389-391 | masking with n-1 is the identity below n if and only if n is a power of two |
| Vchiq.FillLoopEnds | files/qemu-riscos-raspi.patch:486-488 | the loop that fills the master's queue ends if and only if the last slot is not the last 32-bit word |
| Vchiq.HandoverEndsExactly | files/qemu-riscos-raspi.patch:407-510 | a handover ends if and only if it is refused or its last slot is not the last 32-bit word |
| Vchiq.EndlessHandover | files/qemu-riscos-raspi.patch:407-488 | a slot zero that passes every check and with which it does not end |
| Vchiq.DrainFrom | files/qemu-riscos-raspi.patch:528-562 | the loop consumes no more messages than its limit, whatever memory holds |
| Vchiq.Drain | files/qemu-riscos-raspi.patch:513-567 | so does a whole drain |
| VchiqProtocol.BoundaryNeverCrossed | files/qemu-riscos-raspi.patch:378-382 | the refusal at a slot boundary never happens |
| VchiqProtocol.RoomIsCapacity | files/qemu-riscos-raspi.patch:378-387 | exactly 512 messages per master slot can be queued, the CONNECT included |
| VchiqProtocol.QueueAppends | files/qemu-riscos-raspi.patch:389-399 | a queued message is stored as the next of the stream and published, and no earlier one is touched |
| VchiqProtocol.NextMsgIsSent | files/qemu-riscos-raspi.patch:538-545 | the device reads the guest's messages as they were sent |
| VchiqProtocol.DrainServes | files/qemu-riscos-raspi.patch:513-567 | how many messages a drain consumes, as a function of room and limit, and that it rings back exactly if it replied |
| VchiqProtocol.ConsumedStops | files/qemu-riscos-raspi.patch:528-562 | a drain leaves messages behind only at its limit, or at an OPEN when the CONNECT and the CLOSEs fill the master's slots |
| VchiqProtocol.DrainKeeps | files/qemu-riscos-raspi.patch:513-567 | a doorbell consumes what slots and limit allow and queues one CLOSE per OPEN consumed, in order, to the port it came from; an OPEN without room stays unconsumed; it rings back exactly if it replied |
| VchiqProtocol.RingIsHeard | files/qemu-riscos-raspi.patch:354-360 | ringing back sets the bit the guest tests |
| VchiqProtocol.AppendKeeps | files/qemu-riscos-raspi.patch:522-530 | a guest's append leaves the channel in order, with one more message to consume |
| VchiqProtocol.HandoverOpens | files/qemu-riscos-raspi.patch:407-510 | an accepted handover fills the master's queue, stores and publishes the CONNECT, and loses nothing the guest had sent |
| VchiqProtocol.StepKeeps | files/qemu-riscos-raspi.patch:369-567 | every event of guest or device keeps the channel in order |
| VchiqProtocol.EveryRun | files/qemu-riscos-raspi.patch:369-567 | over every interleaving the master's stream is the CONNECT and one CLOSE per OPEN consumed, in order |
| VchiqGuest.EveryRunReadsBack | files/qemu-riscos-raspi.patch:369-567 | over every interleaving the guest reads, in shared memory, a CONNECT and then, in order, one word of type 4 from port 0 for each word of type 2 consumed, to the port in that word |
| VchiqGuest.RepliesAreCloses | files/qemu-riscos-raspi.patch:546-559 | the replies are as many, and closes the ports, by the bits of both words |
| VchiqGuest.SlotZeroTaken | files/qemu-riscos-raspi.patch:407-478 | a free device takes a slot zero that a guest has laid out, and makes out of it what the guest meant |
| VchiqGuest.TakenIsSlotZero | files/qemu-riscos-raspi.patch:407-478 | and what it takes is one so laid out, as long as nothing in it wraps |
| VchiqGuest.SlotZeroOpens | files/qemu-riscos-raspi.patch:407-510 | the handover of such a slot zero opens the channel, with the flags set, the events armed, the guest signalled and rung, and the CONNECT there to read |
| VchiqGuest.RingSignals | files/qemu-riscos-raspi.patch:354-360 | ringing back signals the guest's event |
| VchiqGuest.AcknowledgeClears | files/qemu-riscos-raspi.patch:522-523 | a drain clears the event with which it was signalled |
| VchiqDevice.Peer.QueueMessage | files/qemu-riscos-raspi.patch:369-400 | refuses exactly without room, and otherwise stores header, size and position |
| VchiqDevice.Peer.RingArm | files/qemu-riscos-raspi.patch:354-360 | event fired, doorbell bit set, interrupt raised |
| VchiqDevice.Peer.TakeMessage | files/qemu-riscos-raspi.patch:538-561 | one turn of the drain loop; it stops, changing nothing, at an OPEN it has no room to refuse |
| VchiqDevice.Peer.DrainLoop | files/qemu-riscos-raspi.patch:528-562 | the loop in place leaves what the specification of the loop leaves |
| VchiqDevice.Peer.DrainUpTo | files/qemu-riscos-raspi.patch:513-567 | a drain in place, which raises the interrupt exactly if it replied; an inactive device does nothing |
| VchiqDevice.Peer.WriteDoorbell | files/qemu-riscos-raspi.patch:643-664 | the guest's doorbell drains at most 256 messages, the other registers do nothing; the interrupt is raised exactly by a reply |
| VchiqDevice.Peer.ReadDoorbell | files/qemu-riscos-raspi.patch:616-641 | reading the device's doorbell clears it and lowers the interrupt |
| VchiqDevice.Peer.FillMasterQueue | files/qemu-riscos-raspi.patch:480-488 | the loop that fills the master's queue |
| VchiqDevice.Peer.CheckSlotZero | files/qemu-riscos-raspi.patch:418-459 | the checks on slot zero, in 32-bit arithmetic |
| VchiqDevice.Peer.TakeHandover | files/qemu-riscos-raspi.patch:407-510 | accepts, ignores or refuses a handover, with the state it leaves in each case; the interrupt is raised exactly if it is accepted |
| VchiqDevice.Peer.WriteMailbox | files/qemu-riscos-raspi.patch:591-606 | the low four bits of the mailbox word are not part of the address |
| VchiqDevice.Peer.Reset | files/qemu-riscos-raspi.patch:710-725 | everything but the interrupt line and the memory goes back to its initial value |
| Dma.AddressesAdvance | files/qemu-riscos-raspi.patch:2071-2086 | each address moves by exactly the length, in 32-bit arithmetic, or not at all |
| Dma.NothingElseWritten | files/qemu-riscos-raspi.patch:2076-2082 | no byte outside the destination row is written, in any mode |
| Dma.ClearsTheRow | files/qemu-riscos-raspi.patch:2061-2082 | with reads ignored the row is cleared |
| Dma.FillsTheRow | files/qemu-riscos-raspi.patch:2060-2086 | with a source that stays put the row is filled with copies of its word, the tail included |
| Dma.WordCopyIsByteCopy | files/qemu-riscos-raspi.patch:2051-2093 | copying by words is copying byte by byte on every memory if and only if the destination is not 1 to 3 bytes ahead of the source with the row longer than that |
| Dma.WordCopyIsMove | files/qemu-riscos-raspi.patch:2051-2093 | it is a move at one stroke on every memory if and only if the destination is not ahead of the source inside the row, or the row is at most a word |
| Dma.Channel.Fetch | files/qemu-riscos-raspi.patch:2068-2069 | reads a chunk, zeros where there is no memory |
| Dma.Channel.Deposit | files/qemu-riscos-raspi.patch:2080-2081 | writes a chunk, and nothing where there is no memory |
| Dma.Channel.Transfer | files/qemu-riscos-raspi.patch:2051-2093 | the loop in place is the specified row copy and ends after ceil(length/4) rounds |
| BigDir.Parse | files/rofilecore.py:69-97 | the parser as the source has it; every word it reads lies inside the mapping, whatever the bytes |
| BigDir.ParseEntry | files/rofilecore.py:85-96 | one entry, or its rejection |
| BigDir.ParsedInside | files/rofilecore.py:69-97 | on arbitrary bytes, every entry accepted lies inside the mapping, behind the name, in order, with a short printable name |
| BigDir.ParsedHead | files/rofilecore.py:69-97 | what the fixed part of an accepted block says, word by word, and that its heap lies inside the mapping |
| BigDir.ParseInverts | files/rofilecore.py:14-30 | parsing a block laid out as documented, anywhere in an image, gives back its name, parent and entries |
| BigDir.Scan | files/rofilecore.py:123-133 | the search for blocks lists exactly those at a magic that parse and are sector aligned, in order |
| BigDir.ScanFinds | files/rofilecore.py:123-133 | a serialised, aligned directory is found |
| BigDir.FoundBlocks | files/rofilecore.py:123-133 | whatever is found has its magic, is sector aligned, and parses |
| BigDir.BlocksApart | files/rofilecore.py:123-133 | no two blocks found lie at the same place |
| Walk.KidMeans | files/rofilecore.py:171-178 | the block taken for an entry is one with that parent and name, if there is any |
| Lookup.KidIsFirst | files/rofilecore.py:171-173 | of several blocks with that parent and name it is the first |
| Walk.TurnStaysBounded | files/rofilecore.py:165-183 | every turn of the walk leaves fewer addresses to see, or a shorter stack, so it ends on every set of blocks |
| Calibration.WalkedSound | files/rofilecore.py:158-192 | each address is expanded at most once; every position comes from a reachable directory and every path leads down from the root |
| Calibration.WalkedComplete | files/rofilecore.py:165-183 | when the walk ends, every entry of every expanded directory is recorded and its address seen |
| Calibration.RootBaseStays | files/rofilecore.py:162-186 | the root's fragment keeps the position that the root gives it, whatever is found later |
| Calibration.WalkCalibrates | files/rofilecore.py:158-192 | if fragments have positions at all, exactly those holding a reachable directory are calibrated, each at its true position |
| Calibration.OffsetsAreTrue | files/rofilecore.py:188-192 | offset_of gives the true position, and gives one if and only if a reachable directory shares the fragment |
| Calibration.OrderDoesNotMatter | files/rofilecore.py:158-192 | for a given root, the order of the blocks makes no difference to the calibration |
| PatchTool.BlockOrderDoesNotMatter | files/rofilecore.py:145-192 | nor, if one root-like block has more entries than any other, to the choice of the root |
| PatchTool.TiesGoToTheFirst | files/rofilecore.py:154-155 | of two root-like blocks that tie, the first is taken |
| Calibration.FilesAreListed | files/rofilecore.py:171-183 | some path to a reachable directory, with the name of a file in it, is listed; no matter what else the names are like |
| Lookup.SamePathSameFrame | files/rofilecore.py:174-183 | a path leads to one directory, when names hold no separator and directories of one parent have different names |
| Lookup.SameAddrSameFrame | files/rofilecore.py:165-169 | so does an address |
| Lookup.PathLeadsToLast | files/rofilecore.py:174-183 | the path of a file in a reachable directory is listed, and leads to that file if and only if no later entry of the directory is recorded under its name |
| Lookup.EveryFileAtItsPath | files/rofilecore.py:174-183 | a file whose name is its own in its directory is found at its path |
| Lookup.SecondHidesFirst | files/rofilecore.py:182-183 | of two files of one name in the root, the path of both leads to the second |
| Patch.CrLfLeft | files/rofilecore.py:248 | replacing CR LF leaves a CR LF behind if and only if there was a CR CR LF |
| Patch.LinesKept | files/rofilecore.py:248 | lines parted by CR LF come out parted by LF and otherwise unchanged |
| Patch.ScriptLengthIs | files/rofilecore.py:248-251 | the script is a byte shorter for each CR LF, and a byte longer if its last line was not ended |
| Patch.SlotIsScriptAndComment | files/rofilecore.py:248-259 | behind the script there is at most one line, and it is empty or a comment |
| Patch.SavedIsRestored | files/rofilecore.py:248-259 | a script saved at full length, LF-terminated and without CR LF, is written back unchanged |
| Patch.PatchReplaces | files/rofilecore.py:237-263 | a patch that fits and finds its prefix replaces the slot and nothing else |
| Patch.PatchedExactly | files/rofilecore.py:237-263 | a patch is made if and only if the prefix stands at the offset, inside the file, and the script fits |
| Patch.SearchIsUnique | files/rofilecore.py:212-230 | the search by content finds a place if and only if it is the only aligned copy |
| Patch.SearchAfter | files/rofilecore.py:212-230 | once one of two copies is overwritten the search finds the other if and only if the new text holds no aligned copy |
| Restore.BlocksKept | files/rofilecore.py:123-133 | overwriting a slot that no block reaches into, with a text that brings no block, leaves the blocks found as they were |
| Restore.OtherFound | files/rofilecore.py:194-230 | on the patched image the other path is still uncalibrated, and its content search finds the other copy if and only if the new text holds no copy |
| Restore.RestoreInOrder | hooks/host_finalizeImage.sh:92-103 | two runs of the patch command by path, template first: the first patches the template, the second, on what that leaves, the other copy if and only if the new text holds no copy; nothing else changes |
| Restore.OriginalsAreBack | hooks/host_finalizeImage.sh:92-103 | both slots then hold the saved original and every other byte is as it was |
| Restore.OtherOrderRefused | hooks/host_finalizeImage.sh:96-101 | the other way round there are two copies and the tool refuses |
| Restore.RestoreBoth | hooks/host_finalizeImage.sh:92-103 | the two runs on the image file restore both copies, or stop, if and only if the original holds no copy of the prefix |
| Volume.FindRoot | files/rofilecore.py:145-156 | the root-like block with most entries, the first of several, or none if there is none |
| Volume.Search | files/rofilecore.py:216-224 | lists every sector-aligned copy, in order |
| Volume.Volume.constructor | files/rofilecore.py:119-138 | the blocks of the image, and for every address its children in order |
| Volume.Volume.Kids | files/rofilecore.py:171-173 | for each name the first child of that name |
| Volume.Volume.WalkTree | files/rofilecore.py:158-183 | the walk with its stack leaves the fragment bases and paths of the specified walk, or finds no root |
| Volume.Volume.Locate | files/rofilecore.py:194-230 | the place of a file by address, by content, or which refusal |
| Volume.ImageFile.PatchInPlace | files/rofilecore.py:237-263 | patches the file as specified, or refuses and leaves it alone |
| PatchTool.PatchPath | files/rofilecore.py:312-320 | the patch command opens the image, looks the path up and patches what it finds, or refuses and leaves the image alone |
| PatchTool.FoundExactly | files/rofilecore.py:194-230 | a lookup finds a place if and only if the path is a listed file that is calibrated, or whose first bytes stand at one sector boundary only; and which place |
| PatchTool.CommandPatchesExactly | files/rofilecore.py:312-320 | the command patches if and only if the path is found, its file begins with the prefix, and the script fits |
| PatchTool.OtherTextRefused | files/rofilecore.py:245-247 | a calibrated file that does not begin with the prefix is not touched |
| PatchTool.LocatedTrue | files/rofilecore.py:194-211 | from image to answer: a file whose fragment holds a reachable directory is located, by its path, at its true position |
| Download.Split | build.py:2066-2073 | the pieces lie end to end over the whole file, at most one per thread and none longer than need be |
| Download.SplitAmongThreads | build.py:2066-2073 | so they do for the eight threads there are |
| Download.Partition | build.py:2066-2073 | every byte is in exactly one piece |
| Download.StepKeeps | build.py:1986-2012 | no read, short read or failure of one thread disturbs what another has filled in |
| Download.ParallelIsExact | build.py:2065-2081 | over every interleaving, if every thread returns normally the file is the content |
| Download.RunsEnd | build.py:1986-2012 | no run of the threads goes on for ever |
| Download.Attempt | build.py:1991-1999 | one connection fills in a prefix of the range and touches nothing else |
| Download.DownloadChunk | build.py:1986-2012 | returns, with its range filled in, if and only if some attempt is whole; touches no byte outside |
| Download.ResumeIsExact | build.py:2023-2051 | against a server that honours ranges the file is complete and is the content, or three rounds running brought nothing |
| Download.LocalFile.DownloadResume | build.py:2023-2051 | the loop is the specified one, and ends, by the bytes missing and then the stalls left |
| Download.FetchIsExact | build.py:2076-2099 | threads and fallback together return the content or fail after silent rounds |

## Where code and documentation differ

- The docstring of `patch_in_place` says that the tail is padded with a comment; a single byte is
  padded with an empty line (`files/rofilecore.py:255-256`). The model does what the code does.
- `read_line`'s docstring has a bare CR arrive as CR NUL. The code takes the first LF anywhere in
  the buffer before it looks for a CR, and drops one LF or NUL behind either. The model does that.
- The comment above `vchiq_queue_message` has the device stop when a message would cross a slot
  boundary. That never happens; it stops when its slots are used up, and fills all of them first.

## Left out

- SmscDevice.Smsc.BulkOut: is specified for contents that do not carry the position past the end of the buffered bytes; beyond that the C code parses stale bytes and can read outside the buffer. `SmscTx.SafeLengths` says for which lengths that cannot happen, and whole-word packets keep to them.
- SmscDevice.Smsc.Parse: likewise.
- SmscDevice.Smsc.TakeBlock: likewise.
- SmscTx.Packetisation: takes transmit as enabled throughout; frames parsed while it is off are dropped, as `SmscTx.Transmit` says.
- VchiqDevice.Peer.TakeHandover: is specified for handovers that end; for the others, of which `Vchiq.EndlessHandover` is one, the C code loops for ever.
- VchiqDevice.Peer.WriteMailbox: likewise.
- VchiqProtocol.EveryRun: is about guests that satisfy `Ground`. The device never recycles the guest's slots, so a guest's stream is as long as the slots it starts with.
- Dma.WordCopyIsByteCopy: takes rows whose addresses do not wrap; `Dma.AddressesAdvance` covers wrapping addresses.
- Restore.RestoreInOrder: is about a prefix without a line end and no longer than a sector, like the hook's, and about slots that no directory block reaches into.
- Download.ParallelIsExact: has each write reach the file before the next event; Python's file buffer may delay it until the chunk's file is closed, before the thread returns.
- Download.ResumeIsExact: takes the server to honour ranges; the code itself only compares the size, so wrong bytes of the right number pass.
- BigDir.ParseInverts: covers the part of a block that is read, from the magic to the heap, not its checksum and tail.
- Calibration.WalkCalibrates: needs the names in each directory to be unique; with duplicates the first block found wins.
- The NIC's EEPROM, PHY and descriptor requests, its link state and its interrupt endpoint: one-branch facts.
- QEMU's USB core: which packets it offers and when is left to the environment, except that OUT packets are at most 16384 bytes.
- 2D mode, control-block chains and interrupts of the DMA controller: only part of that code is in the patch.
- The dwc2, interrupt-controller and I2C changes, `bcm2835_mbox_power`, migration state and type registration: the surrounding functions are not in the repository.
- Sockets, mmap, threads and HTTP: replaced by sequences of recvs, byte sequences, interleaved events and server responses.
- Log messages, traces and sleeps.
- The rest of `build.py`, `files/anyvmd.py` and the hooks: process, network and console plumbing, and flat tables.
