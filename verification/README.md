# FDK verification model

A Dafny 4.11 model of FDK, the remote firmware debug kit, with machine-checked
proofs of what its request/response protocol, its hardware back ends and its
full-screen client keep. `dafny verify dfyconfig.toml` checks all of it.

The server `fdkd` reads framed requests from a connection, decodes them in a
buffer that it then rewrites into the reply, and reaches memory, I/O ports, CMOS,
PCI configuration space, a disk and the firmware memory map. `memvr` and `cfdk`
are its clients.

## How the model is laid out

| file | models |
|---|---|
| `Bits.dfy`, `Bytes.dfy` | `&`, `\|`, `<<`, `>>` bit by bit; little-endian fields; byte buffers |
| `Machine.dfy` | the machine under test: RAM, port bus with the CMOS and CF8h latches, configuration space, disk, memory map, and the kernel's answers (what may be mapped, which ports are granted, ...) as arbitrary fixed fields |
| `LibPort.dfy`, `PortLaws.dfy`, `CmosLaws.dfy` | byte-wise ports and banked CMOS; what the loops amount to |
| `LibMem.dfy` | page cover modulo 2^64 and the copy loops |
| `PciAddress.dfy`, `LibPci.dfy`, `PciLaws.dfy` | address layout, legacy and sysfs access, listing |
| `LibStorage.dfy`, `Listing.dfy` | disk and E820; directory scans and sorting |
| `Packet.dfy`, `Transfer.dfy` | wire layout, framing over a stream that splits anywhere |
| `Handler.dfy`, `Server.dfy` | the in-place request handler and the connection loop |
| `Client.dfy`, `Memvr.dfy` | request building, reply checking, 32-bit read-modify-write |
| `WireLaws.dfy` | each request and reply in packet bytes and machine fields |
| `Session.dfy` | client and server together, every schedule of partial reads and writes |
| `ManyClients.dfy` | any number of connections interleaving byte by byte |
| `PciIds.dfy`, `PciNames.dfy` | single-pass name lookup; from the text of the file to the names |
| `Hex.dfy`, `HexDigits.dfy` | command-line values; what every accepted spelling is worth |
| `Ui.dfy`, `Cfdk.dfy`, `UiLaws.dfy`, `UiRuns.dfy` | the full-screen client's key machine |
| `UiViews.dfy`, `UiKeys.dfy` | what each view asks for and shows, and what each key does |

Code that changes state step by step is a method over a class or an array; its
postcondition equates the new state with a function, and the lemmas are about that
function. The machine is one class, `Hardware`, holding a `Machine` value. Five
address spaces (memory, ports, PCI, disk, CMOS) have the same pair of requests
with different field widths; they are one pair of handler cases parametrised by
the layout, with CMOS's 8-bit size (0 meaning 256) as the exception it is.

## Main results

* **A session is a local program** (`Session.SessionRefinesDirect`). The client is
  any program that picks its next call from the outcomes so far. Along every
  schedule of partial reads, partial writes and EINTRs on both sides, the outcomes
  it sees and the machine it leaves are those of calling the back ends directly.
  No schedule deadlocks (`NeverStuck`) and every call returns (`CallsReturn`).
* **Every request does what it names** (`WireLaws`). For each opcode the reply's bytes
  and the machine left are stated from the packet's bytes and the fields of RAM,
  ports, configuration space, disk, CMOS and memory map, with the exact success
  condition; every other frame is NACKed and does nothing (`NackOtherwise`).
* **The connection loop is a function of the frames** of its input
  (`Server.HandleIncomingConnection`), and a stream has exactly one decomposition
  into frames (`Transfer.FramesUnique`, `FramesCover`). Because the handler's
  result is a function of the frame's own bytes, nothing an earlier packet left in
  the buffer can matter.
* **Read-modify-write**: a client alone gets exactly `old | value` or `old & value`
  if and only if both its calls complete and all four bytes are RAM that they
  reach, through a mapping or on pages the kernel exposes to positioned transfers
  (`Memvr.ModifyAlone`, `ExactIffUpdatable`). Elsewhere it can fail in silence
  (`HiddenPageIgnored`); reported success is to be believed if and only if one call
  never completes or the memory is of that kind (`TruthfulIff`). Interleaved with any number of others, no set bit is
  cleared by OR-only runs and none set without an operand (`ManyClients.OrSafety`,
  dual `AndSafety`). An update can still be lost (`LostUpdate` gives the schedule);
  a forced bit is safe in every continuation if and only if no connection holds a
  stale value for it (`SafeIffNoneStale`).
* **Latched hardware behaves like arrays**: CMOS across its two banks
  (`CmosLaws`), legacy PCI configuration access and the device scan (`PciLaws`).
  Through sysfs too a listed device's registers are read and written at its address
  (`SysfsReadIsSlice`, `SysfsWriteIsSplice`, `ListedRegisters`).
* **A pci.ids file names its devices** (`PciNames.FileNames`): from the text of any
  file with a vendor line and a device line of it to the two names shown.
* **The UI never asks for anything out of bounds** (`UiLaws.RunKeeps`,
  `EveryRunServed`), an edit commits exactly the typed byte at the target it began
  on (`UiRuns.EditCommits`), that byte is what the screen then shows, in every view
  (`UiRuns.EditShows`, `CmosCommitShows`, `UiViews`), and every listed device is reached and opened by arrows and
  Enter (`EveryDeviceReached`, `EnterOpens`).

Where code and documentation differ the model follows the code:

* README.md:46-48 promises a NACK for malformed requests. Of the requests that
  arrive framed exactly those that do not decode are NACKed
  (`Handler.NackIffMalformed`), but the server answers at all exactly when a header
  arrives that announces 8 to 8192 bytes and those bytes follow
  (`Server.AnsweredIffFramed`); `BadHeaderCloses` names a header that gets nothing.
* lib/libcomm.c:23-24 and include/libcomm.h:23-26 document `"0x<hex>"`; the
  conversion underneath also takes blanks, a sign and a second prefix.
  `Hex.SignIsAccepted` names an input; `OneExact` and `TwoExact` say for every
  string whether the parser does what is documented.
* src_cfdk/pciids.c:79 documents four hex digits; `0x` and two digits also parse
  (`PciIds.PrefixedIdAccepted`), and nothing else does (`IdLineForm`).
* README.md:154-156 says that kernel hardening is reported. A page hidden from
  positioned transfers reads as zeros and ignores writes, with success
  (`Memvr.HiddenPageIgnored`); `LibMem.WriteThenRead` says where, and
  `Memvr.TruthfulIff` when the success of a read-modify-write can be believed.
* memvr looks for the size and payload of a reply in a buffer that held the request.
  A reply passes on its opcode, its error flag and as much of the size field as it
  has, and zeros are read for the payload it lacks (`Memvr.ReplyJudged`, for every
  reply). So memvr accepts exactly the replies that pass and hold their payload,
  unless one passes and is too short for it (`ReadExact`); `EmptyReplyAccepted`
  names one of 20 bytes. This server sends no such reply (`ServerReadIsGood`).
* The CMOS range check is on a 32-bit sum (src_fdkd/linux/libport.c:112), so it also
  passes a length that wraps it (`CmosLaws.WrapAccepted` names one) and is right if
  and only if the sum stays below 2^32 (`RangeCheckExact`); the laws of `CmosLaws`
  include that case. Requests ask for at most 256 bytes and never reach it.

## Model

| member | source | states |
|---|---|---|
| `Session.SessionRefinesDirect` | lib/packet.c:82-183 | along every schedule of every client program, outcomes equal those of direct calls and the machine is the one those calls leave, or the one the call in progress will leave |
| `Session.StepKeeps` | src_fdkd/fdkd.c:91-100 | every partial read, partial write, end of file, failure or interrupt keeps the in-flight invariant: read, in transit and unsent bytes add up to one request or one reply |
| `Session.ServerReadKeeps` | lib/packet.c:49-65 | the server acts once, on exactly the request the client emitted, when its last byte arrives and not before |
| `Session.ClientReadKeeps` | lib/packet.c:179-182 | the client returns exactly when the last byte of its own reply arrives |
| `Session.ReaderIsReadPacket` | lib/packet.c:49-65 | the step-wise reader and readPacket agree on what is a whole, hopeless or unfinished packet, and the bytes an unfinished one still asks for complete it |
| `Session.NeverStuck` | src_fdkd/fdkd.c:91-100 | unless the program is over some step other than an interrupt is enabled |
| `Session.CallsReturn` | lib/packet.c:35-47 | a call in progress takes a bounded number of non-interrupt steps, however scheduled |
| `Session.StreamRefinesDirect` | src_fdkd/fdkd.c:84-106 | the connection loop's result on the program's request stream is the direct run: same machine, one reply per frame, next reply is the next outcome |
| `Session.ServerIsLocal` | src_fdkd/fdkd.c:84-106 | served over a socket, the program's requests leave the machine of the direct run and produce exactly its replies |
| `Client.DecodeOfEncode` | lib/packet.c:90-177 | every emitted request is one well-framed packet that decodes to exactly the intended command, narrowed to its fields; refused iff the client refuses it |
| `Client.WireIsDirect` | src_fdkd/handler.c:36-202 | one exchange equals one direct call: same machine, same outcome, closing only on DISCONNECT |
| `Client.ExactAcceptance` | src_fdkd/handler.c:52-201 | replies fit 8..8192 bytes and carry their length; the opcode is request plus one unless a read is too big for a reply, then and only then NACK |
| `Client.NarrowSize` | lib/packet.c:155-160 | a write size survives its field, CMOS counting n as ((n-1) mod 256)+1 |
| `Client.ExecuteFunction` | lib/packet.c:82-183 | sends the encoded request or a prefix the peer accepts, then takes one packet and reports whether it answers the request |
| `Client.PutBody` | lib/packet.c:90-173 | lays out the fields and payload of each request in the cleared buffer, or refuses |
| `Client.FillPayload` | lib/packet.c:76-80 | refuses an absent, empty or oversized payload, else copies exactly its bytes |
| `WireLaws.VerifiedIff` | lib/packet.c:24-32 | a reply is taken for an answer iff the request is one and the reply's opcode is the next |
| `WireLaws.RequestLayout` | lib/packet.c:96-160 | the bytes of every read and write request, or its local refusal |
| `WireLaws.PlainLayout` | lib/packet.c:90-169 | the bytes of the four requests without fields |
| `Transfer.ReadAll` | lib/packet.c:35-47 | reads exactly the bytes asked for, however split or interrupted, short only at the end of the stream |
| `Transfer.WriteAll` | lib/packet.c:35-47 | writes exactly the bytes asked for, short only when the peer stops accepting |
| `Transfer.ReadPacket` | lib/packet.c:49-65 | returns the first packet of the stream, 0 when no byte came, -1 when it is bad or truncated |
| `Transfer.WritePacket` | lib/packet.c:67-72 | writes as many bytes as the packet's own header says |
| `Transfer.FirstPacketOfFrame` | lib/packet.c:58-64 | a whole packet is recognised whatever follows it |
| `Transfer.FramesUnique` | lib/packet.c:49-65 | whole packets followed by something that is not one decompose only into those packets |
| `Transfer.FramesCover` | lib/packet.c:49-65 | every stream is its frames followed by a rest that starts no whole packet |
| `Handler.HandleRequestPacket` | src_fdkd/handler.c:36-202 | rewriting the buffer in place leaves the reply, machine and close flag that the first rByte bytes alone determine |
| `Handler.ReadCase` | src_fdkd/handler.c:52-63 | a read request is rejected untouched, or answered with the back end's data after its echoed address and size |
| `Handler.WriteCase` | src_fdkd/handler.c:65-75 | a write request is rejected untouched, or its payload reaches the back end and is answered by the echoed fields |
| `Handler.ReplyFramed` | src_fdkd/handler.c:29-34 | every reply is 8..8192 bytes and its header holds its length |
| `Handler.NackIffMalformed` | src_fdkd/handler.c:36-202 | a frame is answered by NACK iff it does not decode |
| `Handler.ReadsIgnoreBuffer` | src_fdkd/linux/libport.c:97-101 | port and CMOS reads give the same bytes and cycles whatever the buffer held before |
| `WireLaws.MemoryRead` | src_fdkd/handler.c:52-63 | opcode 5: RAM at (address + k) mod 2^64, zero where hidden, FFh throughout on failure; the machine unchanged |
| `WireLaws.MemoryWrite` | src_fdkd/handler.c:65-75 | opcode 7: exactly the backed, reached addresses among the bytes stored get the payload, also when the write fails half way |
| `WireLaws.PortsRead` | src_fdkd/handler.c:77-88 | opcode 9: byte k is the value of port (address + k) mod 10000h, or all FFh; ports are read once each, in order, up to the first failure |
| `WireLaws.PortsWrite` | src_fdkd/handler.c:90-100 | opcode 11: the bytes go to those ports in order; exactly the plain ports among them change |
| `WireLaws.PciConfigRead` | src_fdkd/handler.c:102-113 | opcode 13: registers of the addressed function from the addressed one on, FFh beyond, with the exact success condition on both access paths |
| `WireLaws.PciConfigWrite` | src_fdkd/handler.c:115-125 | opcode 15: exactly the registers covered and reachable of that function change |
| `WireLaws.DiskRequestRead` | src_fdkd/handler.c:127-138 | opcode 17: the disk's bytes, FFh where there are none; the machine unchanged |
| `WireLaws.DiskRequestWrite` | src_fdkd/handler.c:140-150 | opcode 19: exactly the bytes that lie on the disk change, and nothing but the disk |
| `WireLaws.CmosRequestRead` | src_fdkd/handler.c:152-160 | opcode 21: that slice of the CMOS bytes, size 0 meaning 256, or FFh |
| `WireLaws.CmosRequestWrite` | src_fdkd/handler.c:162-169 | opcode 23: the payload, or its written prefix, over the CMOS bytes from the address on |
| `WireLaws.PciListRequest` | src_fdkd/handler.c:171-181 | opcode 25: count, then bus, device, function, vendor and device id of each record at its place |
| `WireLaws.E820ListRequest` | src_fdkd/handler.c:183-193 | opcode 27: count, then base, length, type and a zero word of each record at its place |
| `WireLaws.SessionRequests` | src_fdkd/handler.c:44-50 | opcodes 1 and 3 are answered and do nothing; 3 closes |
| `WireLaws.NackOtherwise` | src_fdkd/handler.c:195-201 | the frames understood, by opcode, length and size field; every other one gets the 8-byte NACK and does nothing |
| `Server.HandleIncomingConnection` | src_fdkd/fdkd.c:84-106 | the bytes sent and the machine left are a function of the frames of the incoming stream and of how much the peer accepts |
| `Server.ServeOne` | src_fdkd/fdkd.c:91-100 | one round handles exactly the first packet, or stops without touching the machine |
| `Server.ServePrefix` | src_fdkd/fdkd.c:91-100 | a peer that stops reading has got a prefix of the replies; one that reads all has got all, and every frame took effect |
| `Server.OneReplyEach` | src_fdkd/fdkd.c:95-100 | one whole reply per frame, up to and including the first DISCONNECT |
| `Server.AnsweredIffFramed` | src_fdkd/fdkd.c:91-100 | a peer that reads is sent something iff a header arrives, announces 8..8192 bytes and they follow; the first reply is then a NACK iff that packet does not decode; otherwise the machine is untouched |
| `Server.BadHeaderCloses` | lib/packet.c:58 | a header announcing 7 bytes ends the connection with nothing sent |
| `Memvr.ModifyAlone` | src_memvr/client.c:63-75 | on every schedule of the wire a finished client alone has the results and the machine of its two calls made directly; on updatable memory that is old\|value or old&value at its word and all other bytes as before |
| `Memvr.ExactIffUpdatable` | src_fdkd/linux/libmem.c:60-90 | the word becomes the combination for every operation and operand iff both calls complete and its four bytes are RAM they reach, mapped or exposed |
| `Memvr.HiddenPageIgnored` | src_fdkd/linux/libmem.c:69-72 | where mapping is refused and a page hidden, both calls of `0 \|= 1` report success and the word stays 0 |
| `Memvr.TruthfulIff` | src_memvr/client.c:63-75 | whenever both calls report success the word is the combination, for every operation and operand, iff one call does not complete or the memory is updatable |
| `Memvr.ModifyLocally` | src_memvr/client.c:63-75 | the program's direct run is one read and, only if it succeeds, one write of the combined word |
| `Memvr.MemoryReadBuffer` | src_memvr/client.c:37-48 | succeeds iff the buffer that holds the reply shows a verified opcode, the asked size and no error flag, then copies from its payload offset, else touches nothing; asks nothing when the length exceeds a reply |
| `Memvr.WholeReplyCounts` | src_memvr/client.c:41-46 | a reply that holds its payload is judged and copied by its own bytes alone |
| `Memvr.ReplyJudged` | src_memvr/client.c:37-48 | every reply of 8..8192 bytes is accepted iff opcode and error flag are right and the bytes of the size field it has agree with the asked size; each payload byte read is the reply's own, or 0 where it has none |
| `Memvr.ReadExact` | src_memvr/client.c:37-48 | accepting, and passing with the whole payload, agree iff the reply does not pass with less than its payload; a whole one is read as its own payload |
| `Memvr.EmptyReplyAccepted` | src_memvr/client.c:41-46 | a whole 20-byte packet without payload is accepted and read as four zeros |
| `Memvr.ShortReplyReadsZeros` | src_memvr/client.c:41-46 | a reply that ends before the size field passes by opcode and error flag alone and reads as zeros |
| `Memvr.MemoryWriteDWord` | src_memvr/client.c:54-61 | sends the 24-byte write and succeeds iff a verified reply without error flag comes back |
| `Memvr.ServerReadIsGood` | src_memvr/client.c:41-47 | against the server the client's three checks test exactly whether the read succeeded, and the payload is the memory read |
| `Memvr.ServerWriteIsGood` | src_memvr/client.c:54-61 | against the server a write reports success iff memory took it all |
| `Memvr.MemoryModifyDWord` | src_memvr/client.c:63-75 | reads, and only after a reply judged good writes back the combined word; fixed for every reply, short ones included |
| `ManyClients.OrSafety` | src_memvr/client.c:63-68 | in every byte-level interleaving of OR-only clients, through mappings or positioned transfers, no set bit is cleared and none set that was not initial or in a covering operand |
| `ManyClients.AndSafety` | src_memvr/client.c:70-75 | the dual for AND-only clients |
| `ManyClients.CombinedBit` | src_memvr/client.c:67 | a bit of the word written back is forced by the operand or as read |
| `ManyClients.LostUpdate` | src_fdkd/fdkd.c:184-203 | for every word and two operands a schedule exists in which both clients finish and the first one's operand is lost |
| `ManyClients.SafeIffNoneStale` | src_fdkd/fdkd.c:184-203 | in every reachable state a forced bit of a backed byte keeps its value in every continuation iff no connection that reaches the byte has read, and does not force again, or has still to write, the other value |
| `ManyClients.AloneIsInPlace` | src_fdkd/linux/libmem.c:60-90 | one connection alone leaves the memory of the two calls made directly |
| `CmosLaws.ReadIsSlice` | src_fdkd/linux/libport.c:107-136 | for every length a read succeeds iff the 32-bit range check passes, ports are granted and the banks it touches answer; it then returns the bytes its offsets select, inside the array that slice, else FFh; it changes no byte; NMI stays enabled; a refused range touches no port |
| `CmosLaws.WriteIsSplice` | src_fdkd/linux/libport.c:107-140 | a write succeeds under the same condition and leaves in each cell the last byte sent to it, inside the array exactly the replaced slice; a failed one wrote a prefix of the data |
| `CmosLaws.WriteThenRead` | src_fdkd/linux/libport.c:107-140 | any read after a successful write shows the last written byte of each cell and the old ones elsewhere, across the bank switch; inside the array that is the written range |
| `CmosLaws.AcceptedIff` | src_fdkd/linux/libport.c:107-130 | the condition of both, written out in ports 70h to 73h |
| `CmosLaws.LastInto` | src_fdkd/linux/libport.c:117-127 | which byte of a range is the last to land in a cell, also when offsets wrap |
| `CmosLaws.RangeCheckExact` | src_fdkd/linux/libport.c:112 | for byte addresses and 32-bit lengths the check means the range is inside iff the sum does not wrap |
| `CmosLaws.WrapAccepted` | src_fdkd/linux/libport.c:112-115 | address 1 with length 2^32-1 is accepted wherever port instructions are granted |
| `LibPort.CmosAccessLoop` | src_fdkd/linux/libport.c:107-130 | the index/data loop performs exactly the port cycles of the access function and fills exactly the caller's range |
| `LibPort.PortAccessLoop` | src_fdkd/linux/libport.c:84-95 | the same for a plain port range, stopping at the first failure |
| `LibPort.PortRead` | src_fdkd/linux/libport.c:97-101 | a failed port read leaves FFh in the whole range |
| `PortLaws.ReadLaw` | src_fdkd/linux/libport.c:84-101 | a plain read is refused without touching a port, or reads port, port + 1, ... once each in order; success iff granted and none fails; else FFh |
| `PortLaws.WriteLaw` | src_fdkd/linux/libport.c:84-105 | the same for a write: byte k to port + k, in order, up to the first failure |
| `PortLaws.OutRunLaw` | src_fdkd/linux/libport.c:84-95 | such a run sets exactly the plain ports it covers and leaves memory, disk and all other plain ports |
| `LibMem.PageCover` | src_fdkd/linux/libmem.c:40-56 | for every power-of-two page size the mapping is page aligned, holds the range at addr mod page, and is the rounded-up cover long, also when the sum wraps at 2^64 |
| `LibMem.PageMask` | src_fdkd/linux/libmem.c:42-43 | masking with the complement of pageSize-1 rounds down to a page |
| `LibMem.MappedIff` | src_fdkd/linux/libmem.c:40-52 | a range is mapped iff the device is open, it is not empty and the kernel maps its page cover from the page of its start |
| `LibMem.CompletesIff` | src_fdkd/linux/libmem.c:69-88 | a transfer succeeds iff mapped, or the open device's system call returns the whole length |
| `LibMem.CopyFromMapping` | src_fdkd/linux/libmem.c:65 | the copy loop stays inside the mapping and copies the addressed bytes |
| `LibMem.MemReadBuffer` | src_fdkd/linux/libmem.c:60-76 | mapped, positioned and refused reads, the last leaving all FFh |
| `LibMem.CopyToMapping` | src_fdkd/linux/libmem.c:83 | the same for the store loop |
| `LibMem.MemWriteBuffer` | src_fdkd/linux/libmem.c:78-90 | mapped, positioned and refused writes |
| `LibMem.StoreLaw` | src_fdkd/linux/libmem.c:82-86 | a store changes exactly the backed, permitted addresses it covers, modulo 2^64 |
| `LibMem.WriteBytes` | src_fdkd/linux/libmem.c:78-90 | every byte after any write, successful or not |
| `LibMem.ReadThroughWindow` | src_fdkd/linux/libmem.c:60-76 | a read succeeds iff it completes and shows what it reaches; a refused one is all FFh |
| `LibMem.WriteThenRead` | src_fdkd/linux/libmem.c:60-90 | for every pair of calls, mapped or positioned: each succeeds iff it completes, and then the read shows the written byte where RAM answers and both reach it, zero where the page is hidden, else the old byte |
| `PciAddress.LatchSelects` | src_fdkd/linux/libpci.c:129-133 | the word and port written for a register select exactly its function and register, ignoring the segment bits |
| `PciAddress.CalculatePciAddress` | src_cfdk/client.c:163-166 | the packed address is the sum of its non-overlapping fields under the enable bit |
| `PciAddress.PciKey` | src_fdkd/linux/libpci.c:50-55 | the comparator's key orders by bus, device and function of in-range records |
| `PciAddress.AddressDecodes` | src_fdkd/linux/libpci.c:37-48 | address plus offset decodes to the same segment, bus, device, function and register |
| `PciAddress.AddressInjective` | src_cfdk/client.c:142-166 | distinct (device, offset) pairs have distinct addresses |
| `PciAddress.UnpackOfPack` | src_cfdk/client.c:63-65 | the client recovers exactly the records the server packed |
| `Client.PciListRoundTrip` | src_fdkd/handler.c:171-181 | the reply carries the count of records, fits it exactly, and unpacks to the list made |
| `Client.E820RoundTrip` | src_fdkd/handler.c:183-193 | likewise for the firmware memory map |
| `LibStorage.UnpackOfPackRecs` | src_cfdk/client.c:92-94 | the client recovers exactly the map records the server packed |
| `LibPci.LegacyAccessLoop` | src_fdkd/linux/libpci.c:122-143 | the latch/lane loop performs exactly the cycles of the access function on the caller's range |
| `LibPci.PciListLegacy` | src_fdkd/linux/libpci.c:145-168 | the triple loop is a scan over function numbers 0..FFFFh that ends at `max` or at the first refused access |
| `LibPci.PciReadConfig` | src_fdkd/linux/libpci.c:189-194 | the buffer starts as FFh, so what is not read stays FFh |
| `PciLaws.LegacyReadIsSlice` | src_fdkd/linux/libpci.c:122-143 | reads registers reg, reg+1, ... of the addressed function only, stops at 255, leaves FFh, succeeds iff reg+len <= 256 on segment 0 with ports granted |
| `PciLaws.LegacyWriteIsSplice` | src_fdkd/linux/libpci.c:122-143 | changes exactly the reached registers of the addressed function, under the same condition |
| `PciLaws.LegacyWriteBytes` | src_fdkd/linux/libpci.c:122-143 | the same, register by register of every function |
| `PciLaws.SysfsReadIsSlice` | src_fdkd/linux/libpci.c:102-117 | a sysfs read succeeds iff the file of the function in address bits 30:8 exists and holds the range; the file's bytes, FFh beyond; nothing changes |
| `PciLaws.SysfsWriteIsSplice` | src_fdkd/linux/libpci.c:102-117 | a sysfs write changes exactly the registers it covers of that one function, and succeeds iff it is writable and holds the range |
| `PciLaws.SysfsRecordLaw` | src_fdkd/linux/libpci.c:65-93 | an entry is listed iff named in range and readable, with its location from the name and vendor and device id from its first four bytes |
| `PciLaws.LegacyScanIsFilter` | src_fdkd/linux/libpci.c:145-168 | the scan lists exactly the first max present functions and changes no register; refused ports list nothing |
| `PciLaws.PresentFromLaw` | src_fdkd/linux/libpci.c:156-163 | that list is strictly increasing in the comparator's key, holds only present functions and holds all of them |
| `PciLaws.SysfsListLaw` | src_fdkd/linux/libpci.c:57-100 | the sysfs listing is a sorted permutation of the first max entries that parse, are in range and readable |
| `PciLaws.ListedFromEntries` | src_fdkd/linux/libpci.c:57-100 | only records of entries are listed, and all of them when they fit |
| `PciLaws.ListedDevicesReachable` | src_fdkd/linux/libpci.c:71-94 | under the client's address each of the 256 registers of every listed device names that device's own file and register, and on the legacy path that function of segment 0 |
| `PciLaws.ListedRegisters` | src_fdkd/linux/libpci.c:180-194 | a read at any register of a listed device's address shows that device's registers from there on, on either path |
| `Listing.Collect` | src_fdkd/linux/libpci.c:65-95 | the directory loop keeps exactly the first max acceptable entries |
| `Listing.KeepAppend` | src_fdkd/linux/libpci.c:65-95 | entries are judged one by one, in directory order |
| `Listing.KeptIff` | src_fdkd/linux/libpci.c:65-95 | what is kept is exactly what some entry gives |
| `Listing.SortBy` | src_fdkd/linux/libpci.c:98 | sorting gives an ascending permutation |
| `LibStorage.DiskReadLaw` | src_fdkd/linux/libdisk.c:62-75 | a read succeeds iff all of it lies on a readable device; otherwise the real prefix is followed by FFh |
| `LibStorage.DiskWriteLaw` | src_fdkd/linux/libdisk.c:77-92 | a write changes exactly the part that lies on the device, and succeeds iff that is all of it, it is not empty and the flush succeeds |
| `LibStorage.E820ViewLaw` | src_fdkd/linux/libe820.c:78-99 | an entry gives a record iff readable with start <= end: its start, end - start + 1 and kind |
| `LibStorage.E820MapLaw` | src_fdkd/linux/libe820.c:70-103 | the map is the first max records, in ascending order of start |
| `LibStorage.DiskRoundTrip` | src_fdkd/linux/libdisk.c:62-92 | a disk write that succeeds is read back in full |
| `PciIds.LoadPciNames` | src_cfdk/pciids.c:90-139 | one pass gives every device the names a separate lookup for it alone gives |
| `PciIds.ApplyLine` | src_cfdk/pciids.c:107-134 | one line keeps every device in agreement with its separate lookup |
| `PciIds.LastVendorWins` | src_cfdk/pciids.c:114-123 | the vendor name is the last one given before the class section, the default iff none |
| `PciIds.LastDeviceWins` | src_cfdk/pciids.c:124-134 | the device name is the last one given inside its own vendor's sections, the default iff none |
| `PciIds.SectionStart` | src_cfdk/pciids.c:114-117 | a section lasts until the next vendor line and an unparsable one opens none |
| `PciNames.FileNames` | src_cfdk/pciids.c:107-134 | a file, up to the class section, with a vendor line and later in its section a device line, neither given again, ends with their names for that device |
| `PciNames.TwoLineFile` | src_cfdk/pciids.c:107-134 | the smallest such file, spelled out |
| `PciNames.KindsOfLines` | src_cfdk/pciids.c:107-112 | a file means what its lines of up to 510 characters mean, in order |
| `PciNames.KindsOfLine` | src_cfdk/pciids.c:107-112 | the first line decides first, and a class line ends the scan |
| `PciNames.EntryLines` | src_cfdk/pciids.c:114-126 | four digits, blanks and a name are a vendor, behind one tab a device |
| `PciNames.OtherLines` | src_cfdk/pciids.c:109-124 | empty lines, comments and lines behind two tabs mean nothing; "C " starts the classes |
| `PciNames.FgetsLaw` | src_cfdk/pciids.c:107 | a chunk runs through the first newline, or 511 characters, or the end |
| `PciNames.TextLaw` | src_cfdk/pciids.c:108 | its text ends at the first newline or NUL |
| `PciNames.CutLaw` | src_cfdk/pciids.c:119-120 | names below 75 characters are kept, longer ones cut to 74 |
| `PciNames.Defaults` | src_cfdk/pciids.c:97-102 | without lines the names are "Unknown vendor" and "Unknown device" |
| `PciIds.ParseIdLine` | src_cfdk/pciids.c:80-88 | the pointer walk returns the number and name of a line, or none |
| `PciIds.IdLineOfParts` | src_cfdk/pciids.c:80-88 | four hex digits, blanks and a name give exactly that number and name |
| `PciIds.IdLineForm` | src_cfdk/pciids.c:79-88 | a line parses iff it starts with four hex digits, or 0x and two, and a blank; it parses as documented iff it is not the latter |
| `PciIds.PrefixedIdAccepted` | src_cfdk/pciids.c:79-85 | an input outside the documented form that parses |
| `CfdkLoop.Cfdk.RunUi` | src_cfdk/cfdk.c:219-291 | the event loop computes the run function: final state and every request sent |
| `CfdkLoop.Cfdk.SelectFunction` | src_cfdk/cfdk.c:231-267 | the key switch and function change |
| `CfdkLoop.Cfdk.SwitchFunction` | src_cfdk/cfdk.c:160-176 | resets everything but a device just picked from the listing |
| `CfdkLoop.Cfdk.HandleKeyPressForPciListPanel` | src_cfdk/pciListPanel.c:83-135 | the listing's new selection, window and whether a device was opened |
| `CfdkLoop.Cfdk.HandleKeyPressForDumpPanel` | src_cfdk/dumpPanel.c:291-350 | the dump panel's new state and the write an Enter commits |
| `CfdkLoop.Cfdk.PageDump` | src_cfdk/dumpPanel.c:251-289 | changes the base only, per address space |
| `CfdkLoop.Cfdk.WriteEditedByte` | src_cfdk/dumpPanel.c:228-248 | sends one byte at the cursor's address, or nothing where nothing can be edited |
| `CfdkLoop.Cfdk.ReadCurrent` | src_cfdk/cfdk.c:203-217 | sends the 256-byte read of the current screen |
| `UiLaws.RunKeeps` | src_cfdk/cfdk.c:219-291 | along every key run and whatever comes back: cursor in 0..255, bases aligned or zero, device index valid, and every request sent is decoded, not NACKed and inside the server's range checks |
| `UiLaws.EveryRunServed` | src_cfdk/cfdk.c:219-291 | the same from program start on every machine, with the list its server sends |
| `UiLaws.ListingIsGood` | src_cfdk/client.c:46-69 | the list the client unpacks from the reply, by the count in it, is the server's: at most 1022 addressable devices |
| `UiLaws.ScreenIntent` | src_cfdk/client.c:98-150 | a screen read is understood as 256 bytes at its address in every space, CMOS included |
| `UiLaws.ByteWriteIntent` | src_cfdk/client.c:31-36 | a byte write is understood as that byte at that address |
| `UiLaws.DumpShowsPayload` | src_cfdk/dumpPanel.c:27-42 | the displayed bytes are the payload of the view's own read |
| `UiRuns.EditRun` | src_cfdk/dumpPanel.c:296-307 | while editing, along every run of other keys, the target is fixed, nothing is written and the buffer is start·16^k plus the typed digits mod 256 |
| `UiRuns.EditCommits` | src_cfdk/dumpPanel.c:296-307 | Enter writes exactly that byte at the target, once, then re-reads the screen |
| `UiRuns.EditShows` | src_cfdk/dumpPanel.c:228-307 | keys typed in edit mode and then Enter, carried out on memory: the screen read brings back the typed digits over the start value at the cursor where RAM answers and both calls reach it |
| `UiRuns.EditDiscarded` | src_cfdk/cfdk.c:254-267 | Esc and every function switch end the edit without a write |
| `UiRuns.MemoryCommitShows` | src_cfdk/client.c:98-107 | on all memory, mapped or positioned: commit and read succeed iff they complete, and every byte of the screen is then fixed, the committed one at the cursor where both reach it |
| `UiRuns.CmosCommitShows` | src_cfdk/client.c:131-140 | the same for CMOS, through the bank ports |
| `UiViews.ScreenRequests` | src_cfdk/cfdk.c:203-217 | the read each view sends: opcode 5, 9, 13, 17 or 21, 256 bytes at its base or at the shown device's address |
| `UiViews.CommitRequests` | src_cfdk/dumpPanel.c:228-248 | the write each view commits: opcode 7, 11, 15, 19 or 23, the edited byte at the cursor |
| `UiViews.DiskCommitShows` | src_cfdk/client.c:120-129 | on disk, a commit writes that byte iff it lies on a writable device, and the screen then shows the device with it |
| `UiViews.PortCommitShows` | src_cfdk/client.c:109-118 | on ports, a commit writes that port iff granted, and the screen then shows the ports as that write left them |
| `UiViews.PciCommitShows` | src_cfdk/client.c:142-159 | in the PCI view, a commit writes that register of the shown device, and the screen then shows its registers with it |
| `UiKeys.FunctionKeys` | src_cfdk/cfdk.c:231-267 | F2 to F7 select their views, which open at 0 without an edit unless already shown |
| `UiKeys.OtherKeys` | src_cfdk/cfdk.c:254-261 | the first other key opens memory; later ones stay in the view |
| `UiKeys.HelpKey` | src_cfdk/cfdk.c:232-235 | F1 turns the help and nothing else |
| `UiKeys.EscKey` | src_cfdk/cfdk.c:226-256 | Esc ends an edit and moves nothing; outside one it ends the run, with nothing sent |
| `UiKeys.PageDirection` | src_cfdk/dumpPanel.c:251-289 | PgDn and PgUp move by 256 up and down, or to the next and previous device, with the wrap of each space |
| `UiKeys.CursorDirection` | src_cfdk/dumpPanel.c:309-329 | each arrow moves by one cell in its direction on the 16 by 16 grid, around the edges |
| `UiKeys.ListPages` | src_cfdk/pciListPanel.c:105-123 | PgDn and PgUp move the listing's window by 21 within the list |
| `UiKeys.ShownByte` | src_cfdk/dumpPanel.c:27-42 | outside an edit the buffer is the last screen's byte at the cursor |
| `UiKeys.EditBegins` | src_cfdk/dumpPanel.c:339-345 | Enter starts an edit of that byte; Space turns the bit display |
| `UiKeys.DigitKeys` | src_cfdk/dumpPanel.c:300-305 | each hex digit, in either case, typed in an edit shifts its value in from the right |
| `UiKeys.OtherKeysKeepByte` | src_cfdk/dumpPanel.c:296-307 | no other key changes the edited byte |
| `UiKeys.IdleKeys` | src_cfdk/dumpPanel.c:347-348 | keys without a meaning change nothing, in a view or the listing |
| `UiRuns.ArrowsMoveByOne` | src_cfdk/pciListPanel.c:88-103 | an iteration of the loop with Up or Down moves the selection by exactly one except at the ends, keeps it in the window and sends nothing |
| `UiRuns.EveryDeviceReached` | src_cfdk/pciListPanel.c:88-103 | from every state of the listing every device is reached by every run of one arrow key exactly as long as it is away |
| `UiRuns.EnterOpens` | src_cfdk/cfdk.c:268-275 | Enter opens the selected device and sends the read of its registers |
| `UiRuns.PagingUndone` | src_cfdk/dumpPanel.c:251-289 | outside an edit, runs of PgUp and PgDn in either order restore a view of ports, memory or PCI |
| `UiRuns.DiskPaging` | src_cfdk/dumpPanel.c:271-277 | on disk such runs do so away from the ends, and PgUp stays at 0 |
| `UiRuns.FullCircle` | src_cfdk/dumpPanel.c:256-259 | every run of n presses of PgDn on n devices comes back to the same device |
| `UiRuns.LeftRight` | src_cfdk/dumpPanel.c:321-329 | left and right in either order restore the cursor; one press keeps the row |
| `UiRuns.UpDown` | src_cfdk/dumpPanel.c:310-319 | up and down in either order restore the cursor; one press keeps the column |
| `Hex.OneRoundTrip` | lib/libcomm.c:25-39 | 1 to 16 hex digits in either case, zero padded or not, parse to their value without overflow |
| `Hex.TwoRoundTrip` | lib/libcomm.c:41-46 | two such values joined by a slash parse to both |
| `Hex.PrintThenParse` | src_memvr/memvr.c:110-113 | every 64-bit value printed in hex parses back |
| `HexDigits.EverySpellingParses` | lib/libcomm.c:25-35 | every spelling of a 64-bit value, each digit in either case, with any zero padding up to 16 digits, parses to it after either prefix |
| `HexDigits.EveryPairParses` | lib/libcomm.c:41-46 | and so does every pair of them |
| `HexDigits.SomeSpelling` | lib/libcomm.c:25-35 | every value has such spellings, of every sufficient length |
| `HexDigits.DigitTable` | lib/libcomm.c:34 | the sixteen digits in both cases, with their values, are the hex digits |
| `HexDigits.DecoratedValue` | lib/libcomm.c:34 | blanks are skipped, a minus sign negates modulo 2^64, a second prefix changes nothing |
| `HexDigits.DecoratedParts` | lib/libcomm.c:25-35 | every accepted parameter outside the documented form is blanks, sign, prefix and digits |
| `Hex.SignIsAccepted` | lib/libcomm.c:23-35 | an input outside the documented form that is accepted |
| `Hex.Accepts` | lib/libcomm.c:23-35 | exactly the documented form and the decorated ones (blanks, a sign or a second prefix, then digits to the end) are accepted |
| `Hex.OneExact` | lib/libcomm.c:23-39 | for every string, acceptance and the documented form agree iff it is not decorated; documented ones give their value |
| `Hex.TwoIsOneAndOne` | lib/libcomm.c:41-46 | a pair is parsed as its halves would be, each alone |
| `Hex.TwoExact` | lib/libcomm.c:41-46 | for every string, a pair is taken iff documented, unless both halves are documented or decorated and one is decorated |

## Left out

- Sockets, name resolution, daemonizing, signals, thread creation and command-line options: operating-system plumbing; each connection is a buffer and a loop.
- ncurses drawing, colours, the status ticker, help text and screen formatting: only the fields that keys change are kept; `infoStr` and the device header summary are display only.
- Opening of /dev and /sys files: replaced by fixed, arbitrary answers in `Machine`; mappings behave as RAM where backed, else read FFh and drop writes, so MMIO side effects and the ticking of RTC registers are not modelled.
- CMOS and legacy PCI requests of two connections interleaving on one latch: the code takes no lock, so each such request is modelled as running alone.
- The single-width accessors of libmem.c and default-disk discovery: not reached by the request handler.
- Choice of the pci.ids file by version: file probing around a string maximum.
- LibStorage.E820ReadMap: only selection, order and record layout; mapping type names to numbers is a table lookup, and the entry's type is given.
- LibPci.PciListDevices: records are collected as values and packed into the packet after sorting, where the code fills the packet and sorts it there; qsort is any sort by the key, so the order of equal keys is unspecified in the code but fixed here.
- Transfer.ReadAll: EINTR may occur any finite number of times; an endless stream of interrupts is not modelled.
- Session.SessionRefinesDirect: closing by the client without DISCONNECT, and a transport that loses or corrupts bytes, are outside the model.
- UiLaws.RunKeeps: requests travel and replies come back as the environment pleases; the device list is any list of at most 1022 addressable records, which is what the listing gives.
