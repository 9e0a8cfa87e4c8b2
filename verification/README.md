# emodbus, modelled and proved in Dafny

This project models the Modbus client and server stack *emodbus* and proves what its
layers promise, one by one and put together.

| layer | modules |
|---|---|
| octets, words, bits | `Words`, `WordBuffers`, `Bits`, `MaskBits`, `WireOctets` |
| framing | `Ports`, `Crc`, `CrcBurst`, `Rtu`, `Tcp`, `Receivers`, `TcpReassembly`, `TcpEmptyData` |
| transactions | `Pdus`, `Client`, `ClientRuns`, `ClientCalls`, `StaleReply`, `Server`, `Dispatch`, `Reactions` |
| address registry and cells | `Registry`, `Cells` |
| registers | `ClientRegs`, `ServerRegs`, `ShortRequests`, `ShortSingles`, `RegisterMap`, `MaskMeaning` |
| coils | `Coils` |
| what handlers answer | `Outcomes`, `FileOutcomes` |
| files and queues | `Files`, `FileWrite`, `FileWriteList`, `FileRead`, `FileReadList`, `FileIterate`, `FileRoundTrip`, `Fifo` |
| all together | `Links`, `Sizing`, `Exchanges`, `DeviceMap`, `EndToEnd` |
| stand-alone pieces | `BitVector`, `CircularList` |

The code that updates buffers and counters in place is modelled by classes and methods
with loops. Each such method is proved against a function of its inputs and the old
state; the theorems are lemmas about those functions and about runs of them. A transport
decides nothing about its port: what a read or write grants is a parameter of every
event, so a theorem about all grants is a theorem about all ports.

The main results:

- **End to end.** Whatever the request and the device, an exchange over RTU or TCP with a server
  whose handlers are at their own codes, however the octets are written and read, comes to a
  call of that server's answer, and leaves both ends ready for the next
  (`Exchanges.ExchangeIsCall`). Over any sequence of the library's requests, for registers,
  inputs, coils, files and queues, the client gets the answers of plain address-to-value maps and
  lists of records, that server is left holding them, and all other servers are left alone
  (`EndToEnd.SessionRefines`; `SessionExists` shows that there is such a session for every
  sequence). So coils and records written over the wire are read back over the wire
  (`EndToEnd.CoilsRoundTrip`, `FilesRoundTrip`).
- **The server object.** Over any sequence of packets its loop does to the servers and to the
  transport what the function `React` says (`Dispatch.ServePackets`), and that gives exactly
  one reply to each request that is due one (`Dispatch.OneReplyEach`).
- **TCP.** However reads split a stream of frames, each frame is judged once, in order and
  whole (`TcpReassembly.Reassembly`, `FragmentationIndependence`); a stream is taken in
  after a bounded number of events (`Completes`).
- **No stale reply.** A reply reaches the owner of the transaction it answers and no other,
  as long as fewer than 65536 sends lie between (`StaleReply.NoStaleReply`); at a distance
  of exactly 65536 it does pass (`LateReplyPassesAfterWrap`).
- **RTU.** The table CRC is the bitwise CRC (`Crc.TableStep`, `TableCrc16`); damage inside
  16 consecutive bits is never accepted (`CrcBurst.BurstDetected`, `Rtu.BurstRejected`).
- **Exactly once.** Every accepted transaction is closed exactly once
  (`ClientRuns.ExactlyOnce`).
- **Files.** A client that writes a list of ranges and reads ranges back collects, register
  by register, the latest value it wrote, though the answer fills the PDU reserved for it and
  whatever memory holds behind that (`FileRoundTrip.WriteThenRead`).
- **Coils.** After a write of bools, a read at any misalignment decodes to them
  (`Coils.RoundTrip`).
- **Arbitrary octets.** Every handler's answer to any octets is given by conditions on them: which code, which
  cells change, what the reply says (`Outcomes`); a file write is confirmed exactly when its octets encode a list of
  writes that succeed (`FileOutcomes.WriteConfirmedIff`), a serial packet is delivered exactly when the octets are its
  frame (`Receivers.DeliveredIff`), and the client tells its owners and itself the numbers and addresses it should, in
  order (`ClientCalls.PacketTells`, `TimeoutTells`).
- **Sizes.** No reply of a server overflows the PDU its client reserved
  (`Sizing.NoOverflow`).

Where the code does less than it should, the project says so with the exact condition:

- A transaction without a response PDU can be displaced and is then never closed
  (`ClientRuns.CallKeepsInvIff`, `LostWithoutResponsePdu`).
- After a transport error the owner may be told the address of a newer transaction
  (`ClientRuns.ErrorAddress`, `ErrorTellsNewAddress`).
- The file writer accepts byte counts 0x0A to 0xFA; section 6.15 of the MODBUS Application
  Protocol Specification V1.1b3 allows 0x09 to 0xFB (`FileWriteList.ConfirmedIff`,
  `OneRegisterRefused`).
- Over TCP a frame is judged exactly when its PDU has data. One without data calls nobody,
  however it is read; the next read judges it and drops what it brought of the packet
  behind it (`TcpEmptyData.VerdictIffData`, `NextOctetsLost`).
- An exception of a handler other than 0x15 leaves the device as it was except in exactly
  three cases: 0x06 with a reply PDU of fewer than 4 octets and 0x16 with one of fewer than
  6 have written, and so has 0x17 when the read callback of the other range refuses
  (`Dispatch.ExceptionLeaves`; `ShortReplyWrites`, `ShortReplyMasks`, `RefusedReadWrites`).
- A 0x0F request writes what it says, whatever the receive buffer held before, exactly when
  its byte count covers its quantity, which the handler does not check
  (`Coils.DeterminedIff`, `ShortRun`).
- A 0x10 or 0x17 request that passes the checks writes what it says, whatever the receive
  buffer held before, exactly when it brings as many octets as its quantity asks for; the
  handlers do not look at the size of the request (`ShortRequests.DeterminedIff`,
  `ShortWrite`, `ShortExchange`).
- A 0x06 request does so exactly when it brings 4 octets, a 0x16 request exactly when it brings
  every bit of the OR mask that its AND mask lets through, and a 0x05 request exactly when it
  brings 4 octets, or 3 and the coil has that value already (`ShortSingles.DeterminedIff`,
  `CoilDeterminedIff`).
- The reply to 0x14 stays inside the server's reply PDU exactly when the octets asked for fit
  together with the one that counts them; the handler compares without that one
  (`FileRead.ReplyWithin`, `FileReadList.OneOctetOver`).
- The walk over an answer to 0x14 stays inside its storage exactly when the storage is larger
  than the answer, which a PDU of the reserved size never is (`FileIterate.StepIsStep`,
  `ReservedIsTooSmall`). For an answer as the server sends it the octet behind does not matter
  (`CollectsAll`). For a received one it decides a step exactly when one octet 0 is left of an
  answer that fills its storage (`DecidedIff`), and what is collected exactly when the walk
  comes to such a step or to a sub-answer of even length, not 0, at the end of it
  (`RestDecidedIff`, `BehindDecides`, `EvenLength`).
- `emb_read_file_subanswer_data` gives a register that ends inside the sub-answer exactly below
  the quantity when the length is odd, and below one less when it is even, but lets the quantity
  itself through (`FileIterate.RegisterInsideIff`, `DataOf`).
- `reg &= v` clears the bits of v; it is the AND with v exactly for a register that is 0
  (`MaskMeaning.AndAssign`).

Conventions: octets and words are bounded integers, bit-vectors appear where the code works
on bits; stores through `uint16_t*` assume a little-endian host, and `SWAP_BYTES` is read
back through a `uint16_t`, as the callers of the original do. `stale` names octets that a
buffer still holds behind a packet. Blocks of cells come with the store callbacks of
tests/server_test.cpp:32-158: a callback is missing, refuses with a code, or moves data; that
every callback is called with a range inside its block is the precondition of `CallRead` and
`CallWrite`, met at each call.

## Model

| member | source | states |
|---|---|---|
| WordBuffers.SwapWords | emodbus/include/emodbus/base/byte-word.h:32-37 | swapping n consecutive words exchanges the octets of each and touches no other octet |
| WordBuffers.TakeWords | emodbus/server/write_multi_regs.c:42-54 | the registers of a request, swapped in place, are the big-endian words that were there |
| WordBuffers.StoreWords | emodbus/client/write_multi_regs.c:43-46 | words stored through SWAP_BYTES appear in wire order, everything else stays |
| Words.PutGetWords | emodbus/include/emodbus/base/byte-word.h:26-29 | words written in wire order anywhere in a buffer are read back unchanged |
| WireOctets.ReadRegisters | emodbus/client/read_regs.c:29-57 | the octets of a built request: function 3 or 4, address, quantity |
| WireOctets.WriteRegister | emodbus/client/write_single_reg.c:24-39 | the octets of a built request: function 6, address, value |
| WireOctets.WriteRegisters | emodbus/client/write_multi_regs.c:24-55 | the octets of a built request: function 16, address, quantity, byte count, each register high octet first |
| WireOctets.MaskRegister | emodbus/client/write_mask_reg.c:24-41 | the octets of a built request: function 22, address, AND mask, OR mask |
| WireOctets.ReadWriteRegisters | emodbus/client/read_write_regs.c:26-65 | the octets of a built request: function 23, both ranges, byte count, each register high octet first |
| WireOctets.ReadBits | emodbus/client/read_bits.c:30-57 | the octets of a built request: function 1 or 2, address, quantity |
| WireOctets.WriteCoil | emodbus/client/write_coil.c:25-45 | the octets of a built request: function 5, address, FF 00 or 00 00 |
| WireOctets.WriteCoils | emodbus/client/write_coils.c:31-55 | the octets of a built request: function 15, address, quantity, byte count, packed bits |
| WireOctets.PackedOctet | cpp-wrap/emodbus.cpp:239-252 | an octet of packed bits is the sum of 1, 2, 4 up to 128 for those of its eight bits that are set |
| WireOctets.ReadFileSub | emodbus/client/read_file_record.c:43-84 | sub-request k of a built request stands at octet 1 + 7k: type 6, file, record, length |
| WireOctets.ReadFileAnswer | emodbus/server/read_file.c:42-66 | a sub-answer: its length, type 6, each register high octet first |
| WireOctets.WriteSub | emodbus/client/write_file_record.c:62-90 | a sub-request: type 6, file, record, length, each register high octet first |
| WireOctets.WriteFile | emodbus/client/write_file_record.c:36-95 | a built request is the number of its other octets and its sub-requests one behind the other |
| WireOctets.RecordLimit | emodbus/client/write_file_record.c:69-70 | no request names a record above 9999 |
| WireOctets.ReadQueue | emodbus/server/read_fifo.c:31-47 | the octets of request and answer: function 24, address; byte count, register count, each register high octet first |
| WireOctets.ExceptionOctets | emodbus/server/exception.c:9-26 | an exception is the function plus 128 and the code; checking gives -1500 less the code, or less the octet behind a PDU without data |
| WireOctets.Numbers | emodbus/include/emodbus/base/modbus_errno.h:20-63 | the error numbers and exception codes |
| WireOctets.Sizes | emodbus/include/emodbus/base/calc_pdu_size.h:5-37 | the sizes the builders compute and reserve, in numbers, and -22 for a quantity no request may have |
| Bits.OrBitBit | cpp-wrap/emodbus.cpp:246-248 | or-ing in a shifted one sets that bit and no other |
| Bits.PackBits | cpp-wrap/emodbus.cpp:239-252 | the packing loop yields the octets whose bits, low bit first, are the bools |
| Bits.UnpackBits | tests/server_test.cpp:63-81 | the unpacking loop of a store yields the bits of a run |
| Bits.UnpackPack | cpp-wrap/emodbus.cpp:239-252 | bools packed anywhere in a buffer are unpacked unchanged, for every length |
| Crc.SimpleCrc16 | emodbus/transport/add/simple-crc.c:4-21 | the bitwise loops compute, from the register 0xFFFF, the fold of eight shift steps per octet |
| Crc.TableCrc16 | emodbus/transport/add/crc.c:39-51 | the table loop computes the same CRC, from the register 0xFFFF, on every buffer |
| Crc.TableIsSteps | emodbus/transport/add/crc.c:4-37 | each of the 256 entries is eight bit steps of its index |
| Crc.StepXor | emodbus/transport/add/simple-crc.c:12-18 | a bit step is linear over xor |
| Crc.TableStep | emodbus/transport/add/crc.c:44-49 | one table step equals the eight bit steps of an octet |
| Crc.RunAppend | emodbus/transport/add/crc.c:42-50 | the CRC of two runs is the CRC of the second continued from that of the first |
| CrcBurst.StartsFull | emodbus/transport/add/crc.c:42-42 | the register starts with all bits set: the CRC of a buffer is that from 0 with the first two octets inverted |
| CrcBurst.StepInjective | emodbus/transport/add/simple-crc.c:12-18 | a CRC step is injective on the 16-bit register |
| CrcBurst.AcceptsIffZero | emodbus/transport/rtu.c:38-50 | a frame is accepted exactly when the CRC over all of it, CRC field included, is zero |
| CrcBurst.BurstDetected | emodbus/transport/rtu.c:38-50 | an accepted frame changed only inside 16 consecutive bits is not accepted, for every length |
| WireOctets.RtuFrame | emodbus/transport/rtu.c:91-98 | the octets of a frame: address, function, data, and the CRC of them from 0xFFFF, low octet first |
| Receivers.DeliveredIff | emodbus/transport/rtu.c:36-67 | octets are delivered as a packet exactly when they are its frame and the waiting PDU holds its data |
| Receivers.RefusedIff | emodbus/transport/rtu.c:36-67 | four octets or more that are no frame give -1000, a frame too long for the waiting PDU -1007, and only less or no PDU silence |
| Receivers.Gathered | emodbus/transport/rtu.c:143-155 | a failed or empty read, and one into a full buffer, drops what was gathered; any other adds what has room |
| Rtu.ParseFrame | emodbus/transport/rtu.c:36-67 | a frame as sent is delivered if its data fits the waiting PDU and reported as an overflow otherwise |
| Rtu.BurstRejected | emodbus/transport/rtu.c:38-50 | a burst of up to 16 bits in a sent frame is reported as a bad CRC and never delivered |
| Rtu.GatherJoined | emodbus/transport/rtu.c:143-155 | any split into non-empty reads gathers the same octets |
| Rtu.RoundTrip | emodbus/transport/rtu.c:125-155 | however the line splits a frame, address, function and data arrive unchanged |
| Ports.TakenAll | emodbus/transport/rtu.c:157-166 | over any schedule of writes the line gets the octets in order, and all of them exactly when the grants add up |
| Rtu.AnySchedule | emodbus/transport/rtu.c:80-166 | any schedule of partial writes and any split into reads deliver address, function and data unchanged |
| Rtu.RtuTransport.DataReceived | emodbus/transport/rtu.c:143-155 | a read appends what fits to the octets gathered; an empty or failed read clears them |
| Rtu.RtuTransport.ParsePacket | emodbus/transport/rtu.c:36-67 | the calls made are those the gathered octets deserve, and a delivered PDU is in the waiting buffer |
| Rtu.RtuTransport.CharTimeout | emodbus/transport/rtu.c:125-130 | silence judges what was gathered, once, and empties the buffer |
| Rtu.RtuTransport.TxBufEmpty | emodbus/transport/rtu.c:157-166 | octets on the line and octets unsent together stay the same unless the port fails, which drops the unsent ones |
| Rtu.RtuTransport.SendPacket | emodbus/transport/rtu.c:80-111 | line and unsent octets together gain exactly the frame; a PDU too long changes nothing |
| Rtu.RtuTransport.SendPacketSync | emodbus/transport/rtu.c:170-183 | the loop ends when every write makes progress, with the whole frame on the line |
| Tcp.TcpTransport.TakePacket | emodbus/transport/tcp.c:42-66 | a complete packet is judged by transaction id, waiting PDU and size, and its data lands in that PDU |
| Tcp.TcpTransport.ParsePacket | emodbus/transport/tcp.c:22-71 | a packet is taken exactly when complete, otherwise the missing length is noted |
| Tcp.TcpTransport.DataReceived | emodbus/transport/tcp.c:149-190 | a data event does to the receiver, and calls, what the function DataEvent says |
| Tcp.TcpTransport.LastRxTimeout | emodbus/transport/tcp.c:201-210 | the timeout empties and re-arms the receiver |
| Tcp.TcpTransport.TxBufEmpty | emodbus/transport/tcp.c:192-199 | octets on the line and octets unsent together never change |
| Tcp.TcpTransport.SendPacket | emodbus/transport/tcp.c:84-128 | the octets that go out are id, protocol id 0, length, address, function and data, the id being the request's for a server and the next one, after 65535 again 0, for a client; a PDU too long changes nothing |
| Tcp.TcpTransport.constructor | emodbus/transport/tcp.c:130-139 | a fresh transport has id 0 and an armed receiver |
| Tcp.FrameOctets | emodbus/transport/tcp.c:94-113 | the octets of a frame: id, protocol id 0, the data's length plus 2, address, function, data |
| Receivers.JudgedIff | emodbus/transport/tcp.c:44-68 | whatever a complete packet holds: -1008 exactly for another id at a client, then -1007 exactly for a waiting PDU too small, and delivery exactly of its own address, function and data |
| Receivers.Impossible | emodbus/transport/tcp.c:151-159 | a missing length beyond the 263 octets of the buffer empties the receiver without a read |
| Receivers.AskedOfPort | emodbus/transport/tcp.c:151-170 | the port is asked for the octets missing, or for all there is room for while the length is unknown |
| Receivers.Waiting | emodbus/transport/tcp.c:24-36 | under nine octets the length is not looked at, a packet not complete is waited for, its length 0 counting as 65536, and a full buffer without one is dropped |
| Receivers.Whole | emodbus/transport/tcp.c:27-68 | a whole packet is judged by its own octets, and what came behind it is dropped |
| TcpReassembly.EventKeeps | emodbus/transport/tcp.c:148-190 | every data event keeps the run's invariant: the buffer holds the part read of the current frame and nothing else |
| TcpReassembly.Reassembly | emodbus/transport/tcp.c:22-71 | after any events, each frame taken in was judged once, in order, by the waiting PDU and the id of its own time, and nothing else was called |
| TcpReassembly.WholeStream | emodbus/transport/tcp.c:148-190 | a run over the whole stream makes exactly the calls its frames deserve, with a PDU and an id that change from frame to frame |
| TcpReassembly.FragmentationIndependence | emodbus/transport/tcp.c:148-190 | two splits of one stream, with the same PDUs and ids waiting, lead to the same calls |
| TcpReassembly.CountersAddUp | emodbus/transport/tcp.c:27-34 | with the header in and octets missing, rx_pkt_counter plus curr_rx_length is the frame length |
| TcpReassembly.Progress | emodbus/transport/tcp.c:151-170 | a data event reads an octet or re-arms an idle receiver |
| TcpReassembly.Completes | emodbus/transport/tcp.c:148-190 | after as many granting events as there is work left, the stream is taken in |
| TcpReassembly.FrameJudged | emodbus/transport/tcp.c:42-66 | a sent frame is well formed exactly when it has data, and is delivered, refused for its id or for its size |
| TcpReassembly.RoundTrip | emodbus/transport/tcp.c:84-190 | a sent frame, read in any portions, is delivered once and unchanged |
| TcpReassembly.EventsKeepFrame | emodbus/transport/tcp.c:98-100 | the frame taken in last stays in the buffer, where a server takes the id of its reply from |
| TcpEmptyData.EventsAgree | emodbus/transport/tcp.c:148-190 | over one frame with data, runs over octets are the runs over frames |
| TcpEmptyData.VerdictIffData | emodbus/transport/tcp.c:27-27 | over any events that take a sent frame in, it gets its verdict iff its PDU has data; without data nobody is called |
| TcpEmptyData.NextOctetsLost | emodbus/transport/tcp.c:27-66 | the read after a frame without data judges that frame and drops the octets it brought |
| Pdus.BuildException | emodbus/server/exception.c:9-26 | the PDU becomes the exception, or stays as it was when it has no room |
| Pdus.ExceptionRoundTrip | emodbus/base/modbus_pdu.c:5-10 | checking inverts building, and exactly functions from 0x80 count as exceptions |
| Client.EmbClient.DoTransaction | emodbus/client/client.c:95-106 | a busy client refuses with -EBUSY and keeps its transaction, an idle one accepts and hands on the request as ClientCalls.AcceptedCall says |
| Client.EmbClient.OnReceivePkt | emodbus/client/client.c:17-65 | a packet ends the outstanding transaction with the assessed error number, callbacks in order |
| Client.EmbClient.OnError | emodbus/client/client.c:67-77 | a transport error ends the outstanding transaction, telling what ClientCalls.ErrorTells says |
| Client.EmbClient.WaitTimeout | emodbus/client/client.c:84-93 | a timeout ends the outstanding transaction, telling what ClientCalls.TimeoutTells says |
| ClientCalls.AcceptedCall | emodbus/client/client.c:95-106 | an accepted call hands on one request, with the call's address and PDU, and becomes current with its response PDU |
| ClientCalls.RefusedCall | emodbus/client/client.c:99-100 | a refused call sends nothing and changes nothing |
| ClientCalls.CallbackLog | emodbus/client/client.c:95-106 | the calls a callback makes are accepted while no response PDU waits and refused while one does, in their order |
| ClientCalls.TimeoutTells | emodbus/client/client.c:84-93 | a timeout first tells the owner -1006 with the address of its call, then its callback may start transactions, and nobody else is told |
| ClientCalls.PacketTells | emodbus/client/client.c:37-62 | -1004 from another address, -1500 less the code of an exception, -1005 for another function, else 0; told once to the client and once to the owner, the client first on an error and last on a success |
| ClientCalls.SuccessStarts | emodbus/client/client.c:58-62 | after a success the owner's callback starts its transactions before the client is told |
| ClientCalls.ErrorStarts | emodbus/client/client.c:37-56 | after an error the client's callback starts its transactions before the owner is told |
| ClientCalls.ErrorTells | emodbus/client/client.c:67-77 | a transport error is told with its own number, once to the client and then once to the owner |
| ClientCalls.NothingToEnd | emodbus/client/client.c:25-35 | with nothing outstanding nobody is told; a packet and a timeout withdraw the waiting PDU, an error leaves it |
| ClientRuns.StepKeepsInv | emodbus/client/client.c:17-106 | every call, packet, error and timeout, with any transactions started from callbacks, keeps the invariant |
| ClientRuns.ExactlyOnce | emodbus/client/client.c:17-106 | in every reachable state rx_pdu is set iff a transaction is outstanding, and every other accepted one was closed exactly once |
| ClientRuns.ClosedByAnyEnd | emodbus/client/client.c:17-93 | an outstanding transaction is closed by a packet, an error or a timeout, and a call meanwhile changes only the log |
| ClientRuns.CurrentIsNew | emodbus/client/client.c:17-106 | what is outstanding after an end was accepted after it |
| ClientRuns.IdleIsQuiet | emodbus/client/client.c:17-93 | with nothing outstanding, packets, errors and timeouts change nothing and call nobody |
| ClientRuns.CallbackMayStart | emodbus/client/client.c:58-64 | the first transaction a callback starts is accepted, the rest are refused |
| ClientRuns.ErrorAddress | emodbus/client/client.c:67-77 | whatever either callback starts, the owner is told its own address exactly when the client's callback started nothing for another one first |
| ClientRuns.ErrorTellsNewAddress | emodbus/client/client.c:67-77 | a callback that starts a transaction with address 2: the owner of the one with address 1 is told 2 |
| ClientRuns.CallKeepsInvIff | emodbus/client/client.c:95-106 | a call keeps the invariant exactly when it is refused or brings a response PDU |
| ClientRuns.LostWithoutResponsePdu | emodbus/client/client.c:95-106 | two calls without response PDU: the first transaction is never closed |
| StaleReply.TidIsModulo | emodbus/transport/tcp.c:102-104 | the id after n sends is n modulo 65536 |
| StaleReply.LetThroughIff | emodbus/transport/tcp.c:47-53 | a reply passes the id check exactly when 65536 divides the distance between its request and the latest |
| StaleReply.PacketResponds | emodbus/client/client.c:17-65 | a packet is a response to the outstanding transaction only, and only with its address and function |
| StaleReply.NoStaleReply | emodbus/transport/tcp.c:98-105 | in every run with replies to recent requests, each response told to an owner came from a reply to its own request |
| StaleReply.LateReplyPassesAfterWrap | emodbus/transport/tcp.c:102-104 | a reply 65536 sends late does pass the id check |
| Registry.CrossIff | cpp-wrap/emodbus.cpp:1216-1234 | non-empty ranges cross iff they share an address and are not the same range |
| Registry.AddKeepsDisjoint | cpp-wrap/emodbus.cpp:1236-1245 | a block is admitted exactly when the blocks stay disjoint or coincident |
| Registry.AddsStayDisjoint | cpp-wrap/emodbus.cpp:1236-1275 | after any sequence of additions blocks are pairwise disjoint or coincide |
| Registry.BlockList.Add | cpp-wrap/emodbus.cpp:1236-1245 | the block is appended iff that keeps the blocks disjoint or coincident, otherwise nothing changes |
| Registry.BlockList.Get | cpp-wrap/emodbus.cpp:1304-1314 | the search loop finds the first block that is hit |
| Registry.FindIff | cpp-wrap/emodbus.cpp:1304-1350 | an address finds a block iff some block covers it, and then the first that does |
| Registry.HitIff | cpp-wrap/emodbus.cpp:1304-1314 | the search, with its 16-bit end, hits a block that ends by 65535 exactly at the addresses it covers, none that wraps, and an empty block at 0 everywhere |
| Registry.FindSame | cpp-wrap/emodbus.cpp:1304-1350 | all addresses of a found block find that block |
| Cells.Locate | emodbus/server/write_multi_regs.c:28-34 | a range that passes the handler's checks lies inside the block found, so a callback stays inside its cells |
| Cells.SliceIsLoad | emodbus/server/read_regs.c:23-60 | reading a located range through its block is reading the map at those addresses |
| Cells.WrittenIsStore | emodbus/server/write_multi_regs.c:49-54 | writing a located range through its block changes the map at those addresses and nowhere else, and keeps the blocks' ranges |
| Cells.LoadStored | emodbus/server/read_write_regs.c:62-81 | what was stored is loaded from any range that overlaps it |
| Outcomes.LocateIff | emodbus/server/write_multi_regs.c:28-34 | a range is located in a block exactly when that is the first around its address and the range ends inside |
| ClientRegs.ReadRegsMakeReq | emodbus/client/read_regs.c:29-57 | builds the request for 1 to 125 registers, else refuses and leaves the PDU alone |
| ClientRegs.WriteRegMakeReq | emodbus/client/write_single_reg.c:24-39 | builds the request, or refuses a PDU too small and leaves it alone |
| ClientRegs.WriteRegsMakeReq | emodbus/client/write_multi_regs.c:24-55 | builds the request for 1 to 123 registers, else refuses and leaves the PDU alone |
| ClientRegs.MaskRegMakeReq | emodbus/client/write_mask_reg.c:24-41 | builds the request, or refuses a PDU too small and leaves it alone |
| ClientRegs.ReadWriteMakeReq | emodbus/client/read_write_regs.c:26-65 | builds the request within both limits, else refuses with the error of the first check that fails |
| ClientRegs.GetRegs | emodbus/client/read_write_regs.c:97-106 | the loop fills the array with the answer's registers from the offset on and nothing else |
| ClientRegs.AnswerRegsInverse | emodbus/client/read_regs.c:69-88 | the accessors read from an answer the registers that were put in |
| ServerRegs.RegisterStore.SrvReadRegs | emodbus/server/read_regs.c:9-70 | code and reply are those of ReadRegs on the blocks of the function's getter; 04 without a getter |
| ServerRegs.RegisterStore.SrvWriteReg | emodbus/server/write_single_reg.c:9-49 | code, registers afterwards and reply are those of WriteReg |
| ServerRegs.RegisterStore.SrvWriteRegs | emodbus/server/write_multi_regs.c:9-64 | code, registers afterwards and reply are those of WriteRegs on the request as received, with the refusals of Outcomes.WriteRegs |
| ServerRegs.RegisterStore.SrvMaskReg | emodbus/server/write_mask_reg.c:9-61 | code, registers afterwards and reply are those of MaskReg |
| ServerRegs.RegisterStore.SrvReadWriteRegs | emodbus/server/read_write_regs.c:9-93 | code, registers afterwards and reply are those of ReadWriteRegs, the write before the read |
| ServerRegs.AnswerRegisters | emodbus/server/read_regs.c:50-68 | registers copied in host order and swapped in place form the reply in wire order |
| Outcomes.ReadRegs | emodbus/server/read_regs.c:23-69 | any octets: 02 outside all blocks, then 03 unless the quantity is 1 to 125, 02 beyond the block or without callback, 04 without room, else the callback's code; on 0 the block's registers, high octet first |
| Outcomes.ReadRegsIff | emodbus/server/read_regs.c:37-46 | with willing callbacks and room, codes 0, 2 and 3 exactly under these conditions on octets and ranges |
| Outcomes.WriteReg | emodbus/server/write_single_reg.c:14-48 | any octets: 02 outside, the callback's code, 04 after the write without room; on 0 exactly that register changed and the reply repeats the request |
| Outcomes.WriteRegs | emodbus/server/write_multi_regs.c:14-63 | any octets: 03 unless the quantity is 1 to 123 and the byte count twice that, then 02, 04, the callback's code, each without a change; on 0 exactly the range holds the words brought |
| Outcomes.WriteRegsIff | emodbus/server/write_multi_regs.c:22-39 | with willing callbacks and room, codes 0, 2 and 3 exactly under these conditions, and a refusal changes no register |
| Outcomes.MaskReg | emodbus/server/write_mask_reg.c:19-60 | any octets: 02, the read's code, the write's code without a change; otherwise exactly the masked register changed, with 04 without room |
| Outcomes.ReadWriteRegs | emodbus/server/read_write_regs.c:23-92 | any octets: 03, then 02 and 01 for the range to be written, 02 and 01 for the one to be read, 04, the write's code without a change; otherwise the write is done and the read's code returned, on 0 with the registers the write left |
| Outcomes.ReadWriteRegsIff | emodbus/server/read_write_regs.c:23-60 | with willing callbacks and room, codes 0, 2 and 3 exactly under these conditions |
| RegisterMap.ReadsTheMap | emodbus/server/read_regs.c:9-70 | 0x03 and 0x04 answer what the map holds, or 02 outside a block; blocks need no write callback |
| RegisterMap.ReadRefines | emodbus/server/read_regs.c:9-70 | 0x03 on a built request has the outcome of a load from the map, the error being -1502, and changes nothing |
| RegisterMap.WriteRefines | emodbus/server/write_single_reg.c:9-49 | 0x06 changes the map at one address, or is refused and changes nothing |
| RegisterMap.WriteManyRefines | emodbus/server/write_multi_regs.c:9-64 | 0x10 changes the map at the addressed range, or is refused and changes nothing |
| RegisterMap.MaskRefines | emodbus/server/write_mask_reg.c:9-61 | 0x16 changes the map at one address to the masked value, or is refused and changes nothing |
| RegisterMap.ExchangeRefines | emodbus/server/read_write_regs.c:9-93 | 0x17 stores, then answers what the map holds after the store, or is refused and changes nothing |
| RegisterMap.HandleRefines | tests/sync_client_test.cpp:785-828 | whatever the request, answer, registers and reply size are those of the map and of the client's reservation |
| ShortRequests.DeterminedIff | emodbus/server/write_multi_regs.c:19-54 | the registers written by a granted 0x10 or 0x17 are the same for all octets behind the request iff it brings all the registers it names |
| ShortRequests.GrantedIff | emodbus/server/write_multi_regs.c:22-54 | the requests meant there are those that are confirmed, 0x17 if its read callback answers 0 |
| ShortRequests.ShortWrite | emodbus/server/write_multi_regs.c:19-54 | 0x10 for two registers that brings one is not determined by the request |
| ShortRequests.ShortExchange | emodbus/server/read_write_regs.c:23-74 | 0x17 for one register to be written that brings none is not determined by the request |
| ShortSingles.DeterminedIff | emodbus/server/write_mask_reg.c:17-43 | the register after a granted 0x06 or 0x16 is the same for all octets behind the request iff it brings the value, or every bit of the OR mask that counts |
| ShortSingles.GrantedIff | emodbus/server/write_single_reg.c:20-40 | the requests meant there are those that are confirmed when the reply has room |
| ShortSingles.ShortWrite | emodbus/server/write_single_reg.c:17-34 | 0x06 that brings its address alone is not determined by the request |
| ShortSingles.CoilDeterminedIff | emodbus/server/write_coil.c:17-57 | the coil after a granted 0x05 is the same for all octets behind the request iff it brings the value, or half of it with the coil at that value |
| ShortSingles.CoilGrantedIff | emodbus/server/write_coil.c:22-58 | with the whole value brought, the requests meant there are those that are confirmed |
| MaskBits.MaskedBit | emodbus/server/write_mask_reg.c:41-41 | each bit under the AND mask is the register's, each other bit the OR mask's |
| MaskBits.MaskedIsCombine | emodbus/server/write_mask_reg.c:41-41 | that value is what the expression of ANDs, ORs and complements computes |
| MaskMeaning.OrAssign | cpp-wrap/emodbus.cpp:692-697 | every bit of the register is or-ed with the value's |
| MaskMeaning.AndClears | cpp-wrap/emodbus.cpp:699-704 | every bit of the value is cleared in the register, the others stay |
| MaskMeaning.AndAssign | cpp-wrap/emodbus.cpp:699-704 | the result is the AND of register and value iff the register is 0 |
| MaskMeaning.SetBit | cpp-wrap/emodbus.cpp:730-736 | the bit takes the value and the 15 others stay |
| MaskMeaning.SetBitOnMap | cpp-wrap/emodbus.cpp:730-736 | on the server's map that bit of that register changes and nothing else |
| Coils.ReadBitsMakeReq | emodbus/client/read_bits.c:30-57 | builds the request for 1 to 2000 bits, else refuses and leaves the PDU alone |
| Coils.WriteCoilsMakeReq | emodbus/client/write_coils.c:31-55 | builds the request for 1 to 1968 bools from their packing, else refuses and leaves the PDU alone |
| Coils.WriteCoilMakeReq | emodbus/client/write_coil.c:25-45 | builds the request with 0xFF00 or 0, or refuses a PDU too small and leaves it alone |
| Coils.ResponseData | cpp-wrap/emodbus.cpp:183-191 | the loop copies as many decoded bits as were requested and fit, and leaves the rest of the array alone |
| Coils.CoilStore.SrvReadBits | emodbus/server/read_bits.c:9-63 | code and reply are those of ReadBits on the blocks of the function's getter |
| Coils.CoilStore.SrvWriteCoils | emodbus/server/write_coils.c:9-58 | code, coils afterwards and reply are those of WriteCoils |
| Coils.CoilStore.SrvWriteCoil | emodbus/server/write_coil.c:8-58 | code, coils afterwards and reply are those of WriteCoil; only 0 and 0xFF00 are values |
| Outcomes.ReadBits | emodbus/server/read_bits.c:23-62 | any octets: 03 unless the quantity is 1 to 2000, then 02, 04, the callback's code; on 0 the block's bits, each in its place |
| Outcomes.ReadBitsIff | emodbus/server/read_bits.c:23-46 | with willing callbacks and room, codes 0, 2 and 3 exactly under these conditions on octets and ranges |
| Outcomes.WriteCoils | emodbus/server/write_coils.c:21-57 | any octets: 03 unless the quantity is 1 to 1968 and the size five more than the byte count, then 02, 04, the callback's code, each without a change; on 0 exactly the range holds the bits brought |
| Outcomes.WriteCoilsIff | emodbus/server/write_coils.c:21-41 | with willing callbacks and room, codes 0, 2 and 3 exactly under these conditions, and a refusal changes no coil |
| Outcomes.WriteCoil | emodbus/server/write_coil.c:22-58 | any octets: 03 unless the value is 0000 or FF00, then 02, 04, the callback's code, each without a change; on 0 exactly that coil changed |
| Coils.DecodedBits | emodbus/client/read_bits.c:69-74 | every bit the client decodes from an answer is the bool that was packed |
| Coils.ReadRefines | emodbus/server/read_bits.c:9-63 | for 0x01 and 0x02, on blocks with or without a write callback, the answer decodes to what the map holds and has the reserved size, or is 02 |
| Coils.WriteRefines | emodbus/server/write_coils.c:9-58 | the addressed coils take the bools, every other coil keeps its value, or the write is refused and changes nothing |
| Coils.BuiltAsksCoil | emodbus/client/write_coil.c:25-45 | a built request names its coil and value, whatever lies behind it |
| Coils.WriteOneRefines | emodbus/server/write_coil.c:8-58 | the addressed coil takes the value, every other coil keeps its own, and the reply repeats the request; or the write is refused and changes nothing |
| Coils.RoundTrip | emodbus/server/write_coils.c:52-57 | after a write, a read of any part of the range decodes to the bools written, at any misalignment |
| Coils.DeterminedIff | emodbus/server/write_coils.c:23-57 | the coils written are the same for all octets behind the request iff the byte count covers the quantity |
| Coils.GrantedIff | emodbus/server/write_coils.c:21-57 | the requests meant there are those that are confirmed |
| Coils.ShortRun | emodbus/server/write_coils.c:23-57 | nine coils with one octet of data are not determined by the request |
| Files.FindFile | cpp-wrap/emodbus.cpp:1352-1362 | the file found is the first with the number, and none is found only if there is none |
| Files.FileStore.GetFile | cpp-wrap/emodbus.cpp:1352-1362 | the search loop finds the first file with the number |
| FileWrite.CalcReqDataSize | emodbus/client/write_file_record.c:23-34 | the size loop sums 7 octets and the registers of each sub-request |
| FileWrite.MakeReq | emodbus/client/write_file_record.c:36-93 | builds the encoding of the list, or refuses: no list, no room, or a record number above 0x270F |
| FileWrite.EncodedSize | emodbus/client/write_file_record.c:23-34 | the encoding of a list has the size computed for it |
| FileWrite.SrvWriteFile | emodbus/server/write_file.c:9-81 | code, files and reply are those of Handle on the request as received, though it is swapped in place; every turn uses at least 7 octets |
| FileWrite.SlackSuffices | emodbus/server/write_file.c:34-55 | with six octets behind it, any request is read inside the storage |
| FileOutcomes.WriteConfirmedIff | emodbus/server/write_file.c:20-80 | any octets: confirmed exactly when the byte count is 10 to 250, the reply has room and the octets encode a list of writes that all succeed; 03 and 04 otherwise precede the list |
| FileOutcomes.CarriedOut | emodbus/server/write_file.c:36-78 | any list that the octets encode is the one carried out |
| FileOutcomes.WriteTurn | emodbus/server/write_file.c:38-77 | any octets at a sub-request: 02 for another reference type or file, 03 beyond the request, the file's code, or exactly the records named changed |
| FileOutcomes.OutsideIff | emodbus/server/write_file.c:38-52 | a sub-request leads behind the storage exactly when that ends before its file number, or before the other fields of one whose file can be written |
| FileOutcomes.WriteWithoutFiles | emodbus/server/write_file.c:38-42 | a server without files answers 04 to a sub-request of type 6, 02 to any other |
| FileWriteList.LoopApplies | emodbus/server/write_file.c:34-78 | from any sub-request on, the loop over the encoding of a list looks at nothing behind it and applies that list |
| FileWriteList.ServeApplies | emodbus/server/write_file.c:20-80 | a built request with byte count 0x0A to 0xFA is carried out as its list and on success echoed; any other is refused |
| FileWriteList.ConfirmedIff | emodbus/server/write_file.c:20-22 | if all writes succeed, the request is confirmed iff its byte count is 0x0A to 0xFA |
| FileWriteList.OneRegisterRefused | emodbus/server/write_file.c:20-22 | a write of one register has byte count 9 and is refused with 03 whatever the files |
| FileWriteList.FailureAt | emodbus/server/write_file.c:68-75 | the first failing write decides the code, and exactly the writes before it took effect |
| FileWriteList.UnknownFile | emodbus/server/write_file.c:45-78 | an unknown file at sub-request k: 02, and exactly the first k writes took effect |
| FileWriteList.ApplyAt | emodbus/server/write_file.c:68-75 | after a list of successful writes each register holds the latest value written to it |
| FileRead.CalcAnswerDataSize | emodbus/client/read_file_record.c:35-41 | the size loop sums 2 octets and the registers of each sub-request |
| FileRead.MakeReq | emodbus/client/read_file_record.c:43-84 | builds the encoding of the list, or refuses: no room, or a record number above 0x270F |
| FileRead.SrvReadFile | emodbus/server/read_file.c:9-81 | for a reply storage of any size, code and reply are those of Handle, its 8-bit counters included, as long as the loop writes inside that storage |
| FileRead.FittingIsInside | emodbus/server/read_file.c:26-74 | it does so whenever all answers together fit the storage |
| FileOutcomes.ReadServedIff | emodbus/server/read_file.c:20-80 | any octets: served exactly when the byte count is 7 to 245 and each sub-request it covers has type 6, a range inside the first file of its number, and room by the 8-bit counter |
| FileOutcomes.ReadRefused | emodbus/server/read_file.c:26-72 | the first sub-request that cannot be served decides the code |
| FileOutcomes.ReadTurnCode | emodbus/server/read_file.c:33-60 | that code: 04 without files, 02 for another reference type or file, 04 without room, else the file's own |
| FileOutcomes.ReadWithoutFiles | emodbus/server/read_file.c:33-34 | a server without files answers 04, or 03 to a byte count out of range |
| FileRead.ReplyWithin | emodbus/server/read_file.c:45-53 | a successful reply has one octet more than the answers, and fits the reply PDU iff that total does |
| FileReadList.OneOctetOver | emodbus/server/read_file.c:52-53 | one register read with a reply PDU of 4 octets gives 5 |
| FileReadList.ReadAllMeans | emodbus/server/read_file.c:26-74 | success returns what each file holds in request order; failure has the code of a failing read |
| FileReadList.LoopReads | emodbus/server/read_file.c:26-74 | from any turn on, the loop adds the answers to the remaining sub-requests |
| FileReadList.ServeReads | emodbus/server/read_file.c:20-80 | a built request whose answers fit the reply PDU is answered with the registers of its files or the first failing read's code, iff it has 1 to 35 sub-requests |
| FileReadList.BuiltIsLegible | emodbus/server/read_file.c:26-74 | a built request keeps the handler inside any reply storage that all its answers fit, whatever the files |
| FileIterate.FindSubanswer | emodbus/client/read_file_record.c:121-136 | finding sub-answer k is k+1 steps of the iteration, and none below 0, in any storage and with any octet behind it |
| FileIterate.GetAnswer | cpp-wrap/emodbus.cpp:526-536 | the loop over the iteration collects the registers of every sub-answer and ends, in any storage and with any octet behind it |
| FileIterate.StaysInside | emodbus/client/read_file_record.c:90-119 | a step that looks nowhere behind the storage has the same outcome whatever lies there |
| FileIterate.DecidedIff | emodbus/client/read_file_record.c:108-118 | the octet behind the storage decides a step iff the answer fills it and one octet 0 is left |
| FileIterate.BehindDecides | emodbus/client/read_file_record.c:108-118 | an answer of the octets 1 and 0 has a sub-answer with 6 behind it and none with 7 |
| FileIterate.RestDecidedIff | cpp-wrap/emodbus.cpp:526-536 | what is collected from any answer is the same for every octet behind its storage iff the walk meets neither a step that hangs nor a register that straddles the end |
| FileIterate.EvenLength | emodbus/client/read_file_record.c:108-150 | an answer of four octets with a sub-answer of length 2 yields a register made of its last octet and the one behind |
| FileIterate.StepIsStep | emodbus/client/read_file_record.c:90-119 | on a sent answer each step leads to the next sub-answer inside it; the last ends the walk, inside the storage iff that is larger than the answer |
| FileOutcomes.WalkIff | emodbus/client/read_file_record.c:90-119 | over any octets a step leads to a sub-answer exactly when the sizes agree, it ends inside and has type 6, and looks behind the storage exactly when that ends at the sub-answer or one octet behind its start |
| FileIterate.ReservedIsTooSmall | cpp-wrap/emodbus.cpp:505-505 | one register in the 5 octets reserved for its answer: the last step looks behind them |
| FileIterate.RegisterInsideIff | emodbus/client/read_file_record.c:142-150 | a register ends inside its sub-answer iff its offset is below the quantity, or below one less when the length is even, while the accessor lets the quantity through |
| FileIterate.DataOf | emodbus/client/read_file_record.c:142-150 | below the quantity the accessor gives the registers sent, at the quantity what lies behind the sub-answer, beyond it 0xFFFF |
| FileIterate.NextIsNext | emodbus/client/read_file_record.c:90-119 | from one sub-answer of a sent answer the step leads to the next, and from the last to none, whatever memory holds behind the answer |
| FileIterate.NthIsNth | emodbus/client/read_file_record.c:121-136 | in storage of any size the k-th sub-answer found is the k-th sent, or none if there are fewer |
| FileIterate.CollectsAll | cpp-wrap/emodbus.cpp:526-536 | in storage of any size, even one the answer fills, whatever list was sent is collected whole and in order |
| FileIterate.ReadRoundTrip | emodbus/server/read_file.c:26-80 | the client collects, in request order, what each file holds, from an answer of the size it computed and reserved |
| FileRoundTrip.WriteThenRead | tests/sync_client_test.cpp:955-1000 | after a confirmed write a read collects for each register the latest value written, or what it held before |
| Fifo.MakeReq | emodbus/client/read_fifo.c:23-36 | builds the request or refuses a PDU too small |
| Fifo.SrvReadFifo | emodbus/server/read_fifo.c:8-50 | code and reply are those of Handle, with what the reply storage held where the callback stores fewer registers than it reports: 03 above a reported count of 31, 04 when the reply does not fit |
| FileOutcomes.Queue | emodbus/server/read_fifo.c:16-49 | any octets: 04 without a queue, the callback's code, 03 above 31, 04 without room, else two counts and the registers stored, with what the storage held behind them |
| FileOutcomes.QueueFields | emodbus/client/read_fifo.c:38-61 | the accessors give the two counts, the registers below the second, and 0xFFFF from there on |
| FileOutcomes.QueueOfTests | tests/server_test.cpp:290-326 | 02 from 0xABC0 to 0xABCF, nothing outside the blocks, else the registers from the address to the end of its first block, 31 at most |
| Fifo.HeldIgnored | emodbus/server/read_fifo.c:21-48 | with a callback that stores what it reports, the reply does not depend on what the storage held |
| Fifo.GetAllData | emodbus/client/read_fifo.c:63-79 | copies as many registers as exist and fit, and nothing else |
| Fifo.AnswerInverse | emodbus/client/read_fifo.c:38-61 | the accessors read back counts and registers, and the answer fits the reserved PDU |
| Fifo.QueueIsMap | tests/server_test.cpp:290-326 | reading a queue gives 02 for the barred addresses, else the map from the address on, and nothing exactly outside all blocks |
| Server.SiteOf | cpp-wrap/emodbus.cpp:1398-1407 | the server found is the first with the address; none is found only if none has it |
| Server.ServerObject.AddFunction | cpp-wrap/emodbus.cpp:1207-1214 | the handler is registered at its code and no other code changes |
| Server.ServerObject.CallHandler | emodbus/server/server.c:51-55 | each registered handler has the outcome of its specification |
| Server.SuperServer.AddServer | cpp-wrap/emodbus.cpp:1388-1396 | a server is added iff its address is new, so addresses stay distinct |
| Server.SuperServer.GetServer | cpp-wrap/emodbus.cpp:1398-1407 | the search loop finds the first server with the address |
| Server.SuperServer.Respond | emodbus/server/server.c:14-64 | the server addressed answers as specified, with its events and reply in order (in numbers: Reactions.Unhandled and Handled); with no server both PDUs stay as they were, and the reply PDU keeps its maximum size |
| Server.SuperServer.OnReceiveReq | emodbus/server/server.c:14-64 | all servers and the log afterwards are those of React, which Reactions gives event by event: one server may change, the others are what they were; both PDUs stay usable for the next request |
| Server.SiteReacts | emodbus/server/server.c:24-63 | the reaction replaces the device of the first server with the address and no other |
| Reactions.Unhandled | emodbus/server/server.c:37-63 | without a table or a handler: no server changes, exception event 01, and the one reply is the function with its high bit and 01; a broadcast server sends none |
| Reactions.Handled | emodbus/server/server.c:52-63 | a handler changes its own server only; a code other than 0 is told as an event and sent as the exception, otherwise its reply is sent |
| Reactions.Unaddressed | emodbus/server/server.c:30-33 | an address without a server: one event, no reply, no change |
| Reactions.NothingToRead | emodbus/server/read_regs.c:23-35 | without the getter of its function 0x03 and 0x04 give 04 at once, 0x01 and 0x02 after the check of the quantity |
| Reactions.NoRegisters | emodbus/server/write_multi_regs.c:22-26 | without registers the four writing functions give 04, after the checks of their octets |
| Reactions.NoCoils | emodbus/server/write_coils.c:21-28 | without coils 0x05 and 0x0F give 04, after the checks of their octets |
| Reactions.WorksOn | emodbus/server/server.c:51-55 | a handler changes at most the coils, the registers or the files, by its function |
| Dispatch.ReactReplies | emodbus/server/server.c:60-63 | a request causes one reply iff a server has its address and is not a broadcast server |
| Dispatch.ServePackets | emodbus/server/server.c:14-64 | any sequence of packets, each stored and handed over, leaves the servers and the log of the run of React over them |
| Dispatch.OneReplyEach | emodbus/server/server.c:14-64 | over any sequence of requests exactly those are answered, each once, in order, to their address and with their function or its exception |
| Dispatch.ReplyFunction | emodbus/server/server.c:51-55 | a successful reply bears the request's function iff the handler is registered at a code of its own |
| Dispatch.ClientVerdict | emodbus/client/client.c:44-56 | a handler result e reaches the client as -(1500+e); only a handler registered elsewhere makes it report a wrong function |
| Dispatch.NeverWrongFunction | emodbus/server/server.c:30-63 | with handlers at their own codes the reply has the function, or the function with 0x80 and the error, and never a wrong one |
| Dispatch.WriteLeaves | emodbus/server/write_single_reg.c:28-40 | 0x06 has written and reports 04 exactly with a granted write and a reply PDU under 4 octets; other exceptions leave the registers alone |
| Dispatch.MaskLeaves | emodbus/server/write_mask_reg.c:31-52 | 0x16 has written and reports 04 exactly with a granted read and write and a reply PDU under 6 octets; other exceptions leave the registers alone |
| Dispatch.ExchangeLeaves | emodbus/server/read_write_regs.c:23-81 | 0x17 has written and reports the read callback's code exactly when the write is granted and that callback refuses; other exceptions leave the registers alone |
| Dispatch.ExceptionLeaves | emodbus/server/server.c:51-55 | an exception of any handler but 0x15 leaves the device as it was, except for exactly that half-done work, which always ends in an exception |
| Dispatch.ShortReplyWrites | emodbus/server/write_single_reg.c:28-40 | a granted 0x06 with a reply PDU of 3 octets: 04, and the register was written |
| Dispatch.ShortReplyMasks | emodbus/server/write_mask_reg.c:31-52 | a granted 0x16 with a reply PDU of 5 octets: 04, and the register was set |
| Dispatch.RefusedReadWrites | emodbus/server/read_write_regs.c:66-81 | two blocks, the second refusing to be read: 0x17 answers its code, and the first block was written |
| Sizing.ReplyFits | emodbus/include/emodbus/base/calc_pdu_size.h:4-37 | any reply, normal or exception, to any request of the library fits the response PDU reserved for it |
| Sizing.AskedIsLegible | emodbus/server/write_file.c:34-55 | no request of the library makes its handler look or write outside its storage |
| Sizing.AskedIsClear | emodbus/server/write_file.c:34-55 | so every request of the library can be handed to a server object, whatever it holds |
| Sizing.NoOverflow | emodbus/transport/rtu.c:53-58 | on either link, when its frames have room for request and answer, both are delivered at their ends, so no overflow is reported |
| Links.HeardIntact | emodbus/transport/tcp.c:148-190 | over either transport, written and read in any portions, a packet that fits arrives once and unchanged, and the receiver is ready for the next |
| Links.GrantsCarry | emodbus/transport/tcp.c:148-190 | a TCP stream with enough grants of any size brings the whole frame |
| Links.WayExists | emodbus/transport/rtu.c:137-168 | every packet can be carried, on either link |
| Exchanges.ReactionCalls | emodbus/server/server.c:24-63 | the address leads to the server found, which alone changes and gives the one reply |
| Exchanges.CallFits | emodbus/client/client.c:95-106 | the reply fits the PDU reserved for it and the frames of the link |
| Exchanges.ClientEnds | emodbus/client/client.c:17-106 | the packet ends the client's transaction, and its owner is told the assessment |
| Exchanges.ExchangeIsCall | tests/sync_client_test.cpp:785-828 | with any device and table, one exchange comes to the server's own answer and the client's assessment of it; no other server is touched and both ends are ready again |
| Exchanges.StepExists | tests/sync_client_test.cpp:785-828 | every request that the link has room for can be exchanged |
| DeviceMap.RegistersAgree | tests/server_test.cpp:241-256 | the handlers of the register functions do to the device what the register map says, and the client reads its answer |
| DeviceMap.ReadFilesAgree | emodbus/server/read_file.c:20-80 | the client collects the lists of records asked for, whatever memory holds behind the reply, or gets the error of the failing read |
| DeviceMap.WriteFilesAgree | emodbus/server/write_file.c:20-80 | the files are those after the list of writes up to the first that fails, whose error the client gets |
| DeviceMap.QueueAgrees | emodbus/server/read_fifo.c:21-48 | the client gets the registers the queue reports, or its error, or 03 above 31 |
| DeviceMap.HandlerAgrees | tests/server_test.cpp:241-256 | the handler of every request does to the device what the maps say and nothing else, and the client reads the answer of the maps |
| DeviceMap.PlainSessionStays | cpp-wrap/emodbus.cpp:1304-1350 | the ranges of the blocks decide a whole session on the maps, not what the blocks hold |
| EndToEnd.CallAgrees | emodbus/client/client.c:44-56 | the server's answer and the client's assessment of it are those of the maps |
| EndToEnd.ExchangeRefines | tests/sync_client_test.cpp:785-828 | one exchange of any request, there, through the address lookup and back, has the outcome of the maps; an error other than of a file write leaves all servers alone, success all but the one addressed |
| EndToEnd.SessionRefines | tests/sync_client_test.cpp:785-828 | any sequence of requests of any functions, with the client's state, ids, all servers and both receivers carried along, gives the client the answers of the maps and leaves the server addressed holding them and the others as they were |
| EndToEnd.SessionExists | tests/sync_client_test.cpp:785-828 | on either link every sequence of requests that it has room for has a session to which the refinement applies |
| EndToEnd.OutsideIsRefused | emodbus/server/read_regs.c:23-46 | an exchange about registers outside every block leaves all servers as they were and yields -1502 |
| EndToEnd.ExchangeSeesItsWrite | emodbus/server/read_write_regs.c:62-81 | a 0x17 read returns the values of its own overlapping write |
| EndToEnd.CoilsRoundTrip | emodbus/server/write_coils.c:52-57 | coils written in one exchange are read in the next as the bools they were, at any misalignment |
| EndToEnd.FilesRoundTrip | tests/sync_client_test.cpp:955-1000 | records written in one exchange are read in the next as the latest value written to each, or as what the file held |
| BitVector.BitVector.SetBit | emodbus/include/emodbus/base/add/bit_vector.hpp:72-79 | the bit takes the value, every other bit stays |
| BitVector.BitVector.GetBit | emodbus/include/emodbus/base/add/bit_vector.hpp:81-87 | the bit at the position |
| BitVector.BitVector.SetRangeBits | emodbus/include/emodbus/base/add/bit_vector.hpp:39-58 | for every word width, exactly the bits from begin to end-1 take the value, as when setBit is called on each |
| BitVector.SetEachFills | emodbus/include/emodbus/base/add/bit_vector.hpp:39-58 | setting each bit of a range in turn changes exactly the bits of the range |
| BitVector.Boundaries | emodbus/include/emodbus/base/add/bit_vector.hpp:41-45 | whole words are filled only if the range has one, and the three loops cover the range without a gap |
| CircularList.ListAdd | emodbus/base/add/list.c:14-17 | the entry follows the head, the ring is otherwise the same; only the entry and its two neighbours change |
| CircularList.ListAddTail | emodbus/base/add/list.c:19-22 | the entry is the last of the ring |
| CircularList.ListDelInit | emodbus/base/add/list.c:37-41 | the entry is a ring of its own and its old ring is closed without it |
| CircularList.ListMove | emodbus/base/add/list.c:43-47 | the entry leaves one ring, which stays closed, and follows the head of another |
| CircularList.ListMoveWithin | emodbus/base/add/list.c:43-47 | the entry follows the head of its own ring, the others keep their order |
| CircularList.ListSpliceInit | emodbus/base/add/list.c:81-88 | the nodes of one ring follow, in order, the head of another, and the emptied head is a ring of its own |
| CircularList.EmptyIff | emodbus/base/add/list.c:56-59 | the test holds iff the ring has no other node |
| CircularList.RingRotates | emodbus/include/emodbus/base/add/list.h:26-32 | a ring may be read from any node on, so any node can be a head |
| CircularList.NextPrevInverse | emodbus/include/emodbus/base/add/list.h:26-28 | next and prev are mutually inverse on a ring |
| CircularList.SameRing | emodbus/include/emodbus/base/add/list.h:26-28 | the ring through a node is determined: no two rings share one |

## Left out

- Sockets, serial ports, libevent, termios and the mutex hand-off between threads: a port is what it grants to each read and write.
- Text of errors, packet dumping, container_of, CMake and documentation files, floating-point and register-pair conversions.
- emodbus/base/add/s-list.c, list_del, list_move_tail and list_splice without init: easier relatives of what is proved.
- Getters that read a request back (addresses, quantities): the handlers read the same octets.
- proxy_t apart from `|=`, `&=` and set_bit: thin forwarding.
- Several TCP clients that share a receive buffer, and requests sent before the previous one was answered: the next frame becomes readable when the previous one was taken in.
- Packets handed on without a copy (the build option of rtu.c): data is always copied.
- Tcp.TcpTransport.DataReceived: a header that announces length 1 is modelled unless its packet would be stored, where the original copies a negative number of octets; so for ParsePacket and TakePacket.
- Tcp.TcpTransport.TxBufEmpty: the port is not told apart from one that accepts nothing when it fails, as in the original.
- FileWrite.SrvWriteFile: requests that make the original look for a field behind the end of the receive storage, which only a last sub-request cut off by that end does; built requests never do.
- FileRead.SrvReadFile: requests that make the original write behind the end of the reply storage; built requests never do when their answers fit it.
- FileIterate.FindSubanswer: what a step sees behind the storage is one octet that stays the same during the walk; so for GetAnswer.
- Fifo.SrvReadFifo: the callback stores inside the reply storage; in a whole server it also stores as many registers as it reports, up to 31.
- Files.FileStore.GetFile: files answer 02 to a range that does not end inside them; the store of the tests copies without a check.
- Server.SuperServer.OnReceiveReq: the reply PDU holds at least one octet; with none, the original sends whatever the PDU held. No two servers share what they serve.
- Dispatch.ExceptionLeaves: not for function 0x15, whose exceptions FileWriteList.FailureAt describes.
- EndToEnd.SessionRefines: requests go to a known server that is not a broadcast server and whose device and handlers for these requests are registered as in the tests; Exchanges.ExchangeIsCall covers every other device and table.
