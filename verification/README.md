# Modbus and CANopen stacks of the automation board, verified in Dafny

The project models the two protocol stacks of the firmware as state machines over arbitrary frames, bytes, ticks
and calls, and proves what they keep over whole runs.

Every part is there twice. A functional layer gives each operation as a function on values: the slave's tables and
function codes (`SlaveTables`, `FileRecords`, `Pdu`), diagnostics and event log (`Comm`), one serial frame against the
whole slave (`RtuSlave`), Modbus TCP (`Tcp`), the master (`Master`), the RTU framer (`RtuFramer`) and its clock
(`Clock`), and CANopen (`ObjectDictionary`, `Sdo`, `Nmt`, `Pdo`, `CanNode`). A class layer holds the fixed arrays, fields
and loops of the firmware (`TableLoops`, `FileLoops`, `SlaveDevice`, `CommDevice`, `RtuDevice`, `TcpDevice`,
`MasterDevice`, `FramerDevice`, `CanDevice`, and the CRC tables in `CrcLoop`); every method is proved to move the
abstract value of its object exactly as the function says.

A third group says what the functions mean without their help: for every request, response, frame and command it reads
the outcome off the bytes with plain arithmetic, table entry by table entry and down to the last byte of the answer
(`Requests`, `FileRequests`, `SlaveAnswers`, `Responses`, `CanAccess`, `CanBus`).

The main results are proved about the functions, so they hold for the classes:

- **End to end** (`EndToEnd`, `SerialLine`): a master call through builder, framing, CRC, the slave's framer and
  dispatcher, and back through the parser, is a direct access to the slave's tables.
- **CRC** (`Crc`, `CrcBursts`, `CrcAgreement`): the loop as written and the loop the standard describes are two wirings
  of one model. Linearity, parity and the residue hold for both; the burst guarantee holds for the standard's only. For
  the code as written a closed condition on the damaged bytes says exactly which bursts of up to 16 bits go unseen, and
  another which messages get the standard's CRC.
- **Whole runs of the slave** (`SlaveRuns`, `BoardOutputs`): the 16-bit counters and the 64-byte log are what an observer
  who sees only the line would have counted and recorded; listen-only mode is absorbing; the board's outputs follow the
  tables under any mix of serial and network traffic.
- **Every request** (`Requests`, `FileRequests`, `SlaveAnswers`, `Tcp`): for each function code and any bytes behind it, on
  either line, which exception or which reply, and what is in every table and output afterwards.
- **Every response** (`Responses`): the exact set of received byte strings each master call accepts.
- **File records** (`FileRecords`, `Effects`): FC 0x15 stores the longest good prefix of any byte string.
- **Framer** (`FramerRuns`, `ClockedFramer`): the interrupt-driven assembler refines a gap splitter, on true time and on
  the clock it really reads.
- **CANopen** (`Sdo`, `CanRuns`, `Pdo`, `Nmt`, `CanAccess`, `CanBus`): segmented uploads survive any other traffic; write
  access over every run; what each NMT command shows on the bus; spacing of TPDO and heartbeat frames.

Where code and documentation disagree the model follows the code:

- The CRC tables are stored as low and high halves but read crosswise (src/modbus.c:51-52 and 67-68), so the result is
  not the CRC of section 2.5.1.2 of Modbus over Serial Line V1.02. `CrcAgreement.MessageOne` and
  `CrcBursts.WrittenMissesABurst` are the counterexamples; `CrcAgreement.AgreementGoesOn`, `CrcAgreement.NextByteAgrees`
  and `CrcBursts.BurstUnseenIff` say exactly when the standard's value and its burst guarantee are met all the same.
- inc/modbus_diag.h:60 says no response is sent on broadcast; faulty diagnostics requests are answered even then
  (`SlaveRuns.BroadcastAnswers` says exactly which).
- inc/modbus.h:154 lists FC 0x15 among the codes that call the write hook; the code does not call it
  (`Effects.WhoCallsTheHook`, `Effects.HookNotCalled`).
- A master broadcast through the write-single and write-multiple calls is carried out and then reported as
  `MODBUS_ERROR` (`EndToEnd.BroadcastIsExecution`, `EndToEnd.SingleCoilCall`, `EndToEnd.SingleRegisterCall`,
  `EndToEnd.CoilsCall`, `EndToEnd.BroadcastWriteReportsError`).
- The SDO upload tests access with the mask 0x05 and so hands out write-only objects that `canopen_od_read` refuses
  (`Sdo.UploadVersusRead` says which, `Sdo.WriteOnlyHandedOut` shows one).
- Over-long RTU frames are cut and still delivered; a frame whose T3.5 was not seen by a poll before the next byte is
  lost (`FramerRuns.DeliversTheBlocks`).

Board inputs are a byte parameter; clock readings, elapsed milliseconds, the number of polls before an answer and the
verdicts of both transmitters are parameters; all results hold for every value of them. Each critical section of the
framer is one step.

## Model
| member | source | states |
|---|---|---|
| `EndToEnd.TransactionIsExecution` | src/modbus_master.c:354-473 | a master transaction with a reachable slave, through framing, CRC, dispatch, reply and validation, is one execution of the request on the slave's tables, and ends with its reply or with its exception code |
| `EndToEnd.ReadReturnsSlice` | src/modbus_master.c:824-848 | reading 1 to 125 holding registers returns exactly the slave's table slice, or exception 02 when the range does not fit, and changes no table |
| `EndToEnd.WriteStoresRegisters` | src/modbus_master.c:952-977 | writing 1 to 123 registers stores exactly them and keeps every other holding register; a range that does not fit gives exception 02 and changes nothing |
| `EndToEnd.WriteThenRead` | src/modbus.c:411-446 | what was written is what is read back, for every range inside the table |
| `EndToEnd.WriteSucceedsIff` | src/modbus_master.c:952-977 | the write call returns OK if and only if it is addressed to a reachable slave, the quantity is legal and the range fits |
| `EndToEnd.BroadcastWriteReportsError` | src/modbus_master.c:970-976 | a broadcast write is carried out by the slave, yet the call returns MODBUS_ERROR because no echo exists |
| `EndToEnd.BroadcastIsExecution` | src/modbus_master.c:876-977 | the same for all four write-single and write-multiple codes and every request PDU |
| `EndToEnd.EchoSucceedsIff` | src/modbus_master.c:876-977 | a call of one of those four codes returns OK if and only if the slave is reached and answers without an exception |
| `EndToEnd.SingleRegisterCall` | src/modbus_master.c:901-924 | write-single-register: OK if and only if the slave is reached and the address is in the table; what it stores, what a broadcast comes to, and exception 02 |
| `EndToEnd.SingleCoilCall` | src/modbus_master.c:876-899 | write-single-coil: OK if and only if the slave is reached and the address is in the table; what it stores, what a broadcast comes to, and exception 02 |
| `EndToEnd.CoilsCall` | src/modbus_master.c:926-950 | write-multiple-coils: OK if and only if the slave is reached and the range fits; what it stores, what a broadcast comes to, and exception 02 |
| `EndToEnd.RefusedUnsent` | src/modbus_master.c:78-246 | quantities outside what a request can carry are refused with MODBUS_ERROR by the master, and nothing reaches any slave |
| `EndToEnd.UnframedUnsent` | src/modbus_master.c:294-315 | a PDU of no or more than 253 bytes is never sent |
| `EndToEnd.SilentSlave` | src/modbus_master.c:412-420 | a call to another address, or to a slave in listen-only mode, times out and changes no table |
| `Responses.EveryResponse` | src/modbus_master.c:317-456 | every request and every received byte string: accepted if and only if it is a sound frame of 4 to 256 bytes from the addressee with the request's code, an exception if and only if it is one with that code plus 128 and a byte behind it, a CRC error for a wrong CRC, an error otherwise |
| `Responses.RegistersAccepted` | src/modbus_master.c:503-520 | reading registers succeeds on exactly the frames that carry as many as were asked for, and gives them |
| `Responses.CoilsAccepted` | src/modbus_master.c:479-501 | reading coils succeeds on exactly the frames with the expected byte count, kept in a byte, that fit the buffer |
| `Responses.EchoAccepted` | src/modbus_master.c:876-977 | the single and multiple write calls take any sound frame of eight bytes with their function code |
| `Responses.RecordAccepted` | src/modbus_master.c:608-635 | reading a file record succeeds on exactly the frames with one sub-response of the length asked for, and gives its registers |
| `Responses.RepeatAccepted` | src/modbus_master.c:1233-1244 | writing a file record succeeds on exactly the sound frames that repeat the request |
| `EndToEnd.OddDamageRejected` | src/modbus_master.c:335-339 | a frame damaged in an odd number of bits is rejected with a CRC error by slave and master alike, and changes no table |
| `EndToEnd.CoilsWriteThenRead` | src/modbus.c:489-519 | coils read back as written, LSB first, with the request's padding ignored, zero padding in the answer and every coil outside the range unchanged |
| `EndToEnd.CoilsRefused` | src/modbus_master.c:777-798 | a coil read of no or more than 2000 coils ends with exception 03, one that does not fit with 02, checked by the slave alone |
| `EndToEnd.ReadReturnsRecord` | src/modbus_master.c:1184-1210 | reading a file record returns its registers; exception 02 if the file is not 1 to 4 or the registers not within 128; exception 03 for a record too long for one reply |
| `EndToEnd.WriteStoresRecord` | src/modbus_master.c:1212-1245 | writing a file record stores exactly its registers and keeps every other one, or gives exception 02 if the file is not 1 to 4 or the registers not within 128, and changes nothing |
| `EndToEnd.FileWriteThenRead` | src/modbus_master.c:1184-1245 | a file record of up to 122 registers reads back as written |
| `SerialLine.TransactionThroughFramers` | src/rtu_framer.c:162-234 | whatever the timing of ticks and main-loop passes, a request and an answer sent without a pause over T1.5 each arrive as one whole frame, and the call ends as on the loss-free bus |
| `Pdu.EveryReplyWellFormed` | src/modbus.c:345-928 | every request in every state gets a reply of 2 to 253 bytes that is an exception 1 to 4 or repeats the function code with counts that fit its length |
| `Pdu.WriteFileStoresGoodPrefix` | src/modbus.c:650-715 | FC 0x15 leaves the file store as the longest good prefix of its sub-requests, applied in order, makes it, echoes the request if and only if that prefix is all of it, and leaves the tables the write hook would refresh as they are |
| `Pdu.RetainedTables` | src/modbus.c:164-173 | the function codes that are not broadcast-executable keep holding registers, coils, files and queues |
| `Requests.ReadCoils` | src/modbus.c:371-410 | FC 0x01, every request: the coils from the start address, LSB first, zeros behind them; 03 for a bad length or quantity, 02 for a range that does not fit |
| `Requests.ReadDiscrete` | src/modbus.c:371-410 | FC 0x02, every request: bit i is the board input of this moment below discrete input 8 and the stored discrete input above |
| `Requests.ReadHolding` | src/modbus.c:411-446 | FC 0x03, every request: the holding registers from the start address, or exception 03 or 02 |
| `Requests.ReadInput` | src/modbus.c:411-446 | FC 0x04, every request: word i is holding register 100 + start + i below input register 4, and the input register as it stood above; exceptions 03 and 02 |
| `Requests.ReadStatus` | src/modbus.c:552-580 | FC 0x07, every request: the board inputs of this moment, whose mirror is refreshed; 03 for anything behind the code |
| `Requests.WriteCoil` | src/modbus.c:447-469 | FC 0x05, every request: one coil switched, echoed, outputs and inputs brought up to date; 03 for other values, 02 past the table, nothing changed then |
| `Requests.WriteRegister` | src/modbus.c:470-488 | FC 0x06, every request: one register set, echoed, outputs and inputs brought up to date; or 03 or 02 and nothing changed |
| `Requests.WriteCoils` | src/modbus.c:489-519 | FC 0x0F, every request: each coil of the run takes its bit, all others stay; the range is checked before the byte count |
| `Requests.WriteRegisters` | src/modbus.c:520-549 | FC 0x10, every request: each register of the run takes its word, all others stay; the range is checked before the byte count |
| `Requests.MaskWrite` | src/modbus.c:719-745 | FC 0x16, every request: the bits the AND mask selects stay, the others come from the OR mask, every other register stays |
| `Requests.ReadWrite` | src/modbus.c:786-829 | FC 0x17, every request: the write as above, then the answer with the registers as they stand afterwards; 03 or 02 and nothing changed otherwise |
| `Requests.ReadQueue` | src/modbus.c:748-783 | FC 0x18, every request: the whole queue, oldest first, which stays; 03 or 02 otherwise |
| `Requests.Identify` | src/modbus.c:831-914 | FC 0x2B, every request: one identification object with code 4, else all from the one asked for or from the first; 03, 01 or 02 in the order the code checks |
| `Requests.Unsupported` | src/modbus.c:916-919 | every other function code is refused with exception 01 and its highest bit set |
| `Requests.PowerUpReadsZero` | src/modbus.c:102-124 | at power-up every register and coil reads as zero and both queues are empty |
| `FileRequests.HeaderVerdict` | src/modbus.c:216-230 | a file header is good if and only if its reference type is 6, its file 1 to 4 and its registers, at least one, lie within 128; 03 comes before 02 |
| `FileRequests.ReadSize` | src/modbus.c:583-597 | FC 0x14 of a bad byte count is refused with 03 |
| `FileRequests.ReadOneRecord` | src/modbus.c:599-648 | FC 0x14 on the bytes of one sub-request: the registers of the named file, or 03 or 02, or 03 when they do not fit in one reply |
| `FileRequests.FaultRefusesRead` | src/modbus.c:599-640 | FC 0x14 of a list with a faulty sub-request is refused with its exception, unless the reply is full before it is reached |
| `FileRequests.WriteOneRecord` | src/modbus.c:650-716 | FC 0x15 on the bytes of one sub-request: each register of the named file takes its word, every other register of every file stays, and the request is echoed; or 03 or 02 and nothing changed |
| `FileRequests.WriteStopsWith` | src/modbus.c:668-694 | the exception of FC 0x15, for any bytes, is decided by what is left behind the good prefix |
| `Effects.StatusMirrorsInputs` | src/modbus.c:552-580 | FC 0x07 reports the board inputs of this moment, bit for bit |
| `Effects.WhoCallsTheHook` | inc/modbus.h:154 | every write request that goes through leaves inputs and outputs as the write hook makes them, except FC 0x15, which changes nothing but files |
| `Effects.HookNotCalled` | src/modbus.c:650-715 | with the board's first input on and its mirror off, FC 0x15 leaves the mirror off, so the hook was not called |
| `Effects.FileListWritten` | src/modbus.c:650-715 | one FC 0x15 with any list of good sub-requests stores them in order and is echoed |
| `Effects.FileListRead` | src/modbus.c:583-648 | one FC 0x14 for any list of existing records answers with them, or with exception 03 when they do not fit in one reply |
| `Effects.FileListWriteThenRead` | src/modbus.c:583-715 | FC 0x15, then FC 0x14 for the same records: the answer is the records as the last writer left them, and exactly the data sent if and only if overlapping sub-requests agree |
| `BoardOutputs.OutputsFollow` | src/modbus.c:279-302 | over every run of serial and network traffic, damaged frames included, digital outputs, relays and analog outputs are driven as their coils and registers say |
| `BoardOutputs.PowerUpFollows` | src/modbus.c:102-124 | from power-up on the outputs follow the tables |
| `BoardOutputs.ExecuteFollows` | src/modbus.c:345-928 | no request lets outputs and tables drift apart, and a write that goes through brings them together |
| `BoardOutputs.CoilSwitches` | src/modbus.c:447-469 | a write-single-coil call that returns OK has switched its digital output or relay, and no other one |
| `BoardOutputs.RegisterSets` | src/modbus.c:470-488 | a write-single-register call that returns OK has set its analog output, and no other one |
| `FileRecords.GoodPrefixIsLongest` | src/modbus.c:668-705 | the good prefix of any byte string is a prefix of it, and what is left does not start with a good sub-request |
| `FileRecords.WriteAppliesGoodPrefix` | src/modbus.c:668-705 | the FC 0x15 loop, which advances by at least 9 bytes a turn, applies the longest good prefix in order and succeeds if and only if nothing is left |
| `FileRecords.FaultEndsPrefix` | src/modbus.c:681-694 | for any list of sub-requests with truthful lengths the good prefix is the list up to its first faulty header, faulty in the sense of `FileRequests.HeaderVerdict` |
| `FileRecords.ReadGivesRecords` | src/modbus.c:599-648 | FC 0x14 answers a list of existing records with exactly those records, if and only if they fit in 253 bytes |
| `FileRecords.WriteThenReadRecords` | src/modbus.c:583-716 | FC 0x14 after FC 0x15 of any list of good sub-requests, overlapping ones included: the records come back as the last writer left them, and exactly as sent if and only if overlapping sub-requests agree |
| `Crc.RunXor` | src/modbus.c:65-69 | the CRC loop is GF(2)-linear in start value and message together, as written and with the table reads exchanged |
| `Crc.OddRun` | src/modbus.c:65-69 | the register's parity is the start value's parity plus the message's, under both wirings |
| `Crc.ResidueZero` | src/modbus.c:941-946 | a message followed by the low and the high byte of its CRC leaves the register at zero |
| `Crc.AcceptedIsEven` | src/modbus.c:941-946 | every ADU that passes the check has an even number of one bits |
| `Crc.OddErrorsRejected` | src/modbus_master.c:335-339 | flipping any odd number of bits of an accepted ADU makes it a rejected one |
| `Crc.UnseenIff` | src/modbus.c:941-946 | whether an error goes unseen depends on the error alone: it goes unseen if and only if it carries its own check bytes |
| `Crc.ExchangedIsBitwise` | src/modbus.c:65-69 | with the two table reads exchanged the byte loop is the bitwise CRC of section 2.5.1.2 of Modbus over Serial Line V1.02, for every message |
| `Crc.ExchangedSeesBursts` | src/modbus.c:65-69 | with the table reads exchanged every error burst of up to 16 line bits is detected |
| `CrcAgreement.AgreementGoesOn` | src/modbus.c:65-69 | behind a message with the standard's CRC, the longer message has it if and only if the table index the next byte makes is 0 or 0xFF |
| `CrcAgreement.NextByteAgrees` | src/modbus.c:65-69 | for every message and next byte: the longer message has the standard's CRC if and only if the byte closes the gap a zero byte would leave |
| `CrcAgreement.AtMostTwoAgree` | src/modbus.c:65-69 | for every message at most two next bytes, a byte and its complement, give the standard's CRC |
| `CrcAgreement.OneByteAgrees` | src/modbus.c:65-69 | of the one-byte messages only 00 and FF have the standard's CRC |
| `CrcAgreement.AgreesIsStandard` | src/modbus.c:65-69 | having the standard's CRC means that the byte loop as written and the bitwise CRC of section 2.5.1.2 of Modbus over Serial Line V1.02 give the same value |
| `CrcAgreement.MessageOne` | src/modbus.c:65-69 | as written the CRC of the message 01 is 0x817F; exchanged, as the standard has it, 0x807E |
| `Crc.SingleByteSeen` | src/modbus.c:65-69 | as written, damage to any single message byte is still detected, whatever follows it |
| `CrcBursts.BurstUnseenIff` | src/modbus.c:65-69 | as written, an error burst of up to 16 line bits anywhere in an ADU, check bytes included, goes unseen if and only if the three bytes it falls on satisfy the closed condition `HiddenWindow` |
| `CrcBursts.DamagedAccepted` | src/modbus.c:941-946 | a burst of up to 16 line bits leaves an accepted ADU accepted if and only if it falls on a hidden triple |
| `CrcBursts.WindowSeen` | src/modbus.c:65-69 | any error within three neighbouring bytes, anywhere in an ADU, goes unseen if and only if the triple satisfies `HiddenWindow` |
| `CrcBursts.ThreeBytesSeen` | src/modbus.c:65-69 | damage to three neighbouring message bytes: the closed condition under which it goes unseen, whatever follows |
| `CrcBursts.TwoBytesSeen` | src/modbus.c:65-69 | damage to two neighbouring message bytes goes unseen if and only if the pair satisfies the closed condition `Invisible`, whatever follows |
| `CrcBursts.DamageSettles` | src/modbus.c:65-69 | damage of any length goes unseen if and only if the register is zero right behind it: intact bytes that follow never hide it |
| `CrcBursts.WrittenMissesABurst` | src/modbus.c:65-69 | the error 0C 05 on adjacent message bytes goes unseen as written and is seen with the reads exchanged, wherever it falls |
| `CrcLoop.OddFlipsFail` | src/modbus.c:941-946 | on the bytes of an ADU: a copy at odd bit distance from an accepted one fails the check |
| `CrcLoop.CrcOkIsAccepts` | src/modbus.c:941-946 | the byte-wise comparison both ends make is the residue check of the CRC model |
| `CrcLoop.SealedOne` | src/modbus.c:1061-1069 | the frame 01 is closed by 7F 81, low byte first |
| `CrcLoop.CrcTables.InitTables` | src/modbus.c:38-55 | the shift loops fill the low and the high table with the two halves of every CRC entry |
| `CrcLoop.CrcTables.Compute` | src/modbus.c:57-71 | the table loop returns the CRC of the model for every buffer |
| `SlaveRuns.Accounting` | src/modbus.c:947-1049 | over every run the counters, the overrun counter and the mode are what an observer who sees only frames, overruns and transmissions keeps, modulo 2^16, the log is the newest 64 recorded events, each addressed message has one outcome, and bus >= slave >= completions |
| `SlaveRuns.AnyTablesTell` | src/modbus.c:164-173 | whether a broadcast write goes through does not depend on what the tables hold, so an observer can tell |
| `SlaveRuns.CountersBalance` | src/modbus_diag.c:220-256 | from power-up, normal answers plus exception count plus no-response count equals the slave message count, plus one after any clear or restart, modulo 2^16 |
| `SlaveRuns.CountersReadBack` | src/modbus_diag.c:183-200 | each of the counters 0x0B to 0x12 read with FC 0x08 is the observer's count |
| `SlaveRuns.EventCounterReadBack` | src/modbus_event.c:146-151 | the counter read with FC 0x0B is the number of completions since the last reset, modulo 2^16 |
| `SlaveRuns.LogFetchIsSnapshot` | src/modbus_event.c:153-176 | an FC 0x0C answer carries counter, message count and log as they stood, and leaves log and counter as they stood |
| `SlaveRuns.ListenOnlyAbsorbs` | src/modbus.c:984-1007 | from listen-only mode until a valid restart no traffic changes a table or the event counter, and the only answers are exceptions to sub 0x01 with other data |
| `SlaveRuns.ListeningStep` | src/modbus_diag.c:96-145 | one event in listen-only mode: tables kept, mode left exactly by a valid restart, nothing said but the exception to a bad one |
| `SlaveRuns.BroadcastAnswers` | src/modbus_diag.c:96-174 | a broadcast is answered if and only if it is a faulty diagnostics request of the kinds the code answers |
| `SlaveAnswers.FrameOutcome` | src/modbus.c:933-1072 | every frame: which are dropped and with which status, what a broadcast of any function code leaves in the tables, and that a request to this slave is executed and its reply sent back in a sound frame |
| `SlaveAnswers.DiagnosticsAnswer` | src/modbus_diag.c:85-214 | FC 0x08, every request outside listen-only mode: the loopback, the echoes, the register, and the exceptions in their order |
| `SlaveAnswers.RegisterStaysZero` | src/modbus_diag.c:23 | the diagnostic register is zero over every run |
| `SlaveAnswers.FetchRefused` | src/modbus_event.c:138-143 | FC 0x0B and 0x0C with anything behind the code are refused with 03 |
| `SlaveAnswers.ServerIdAnswer` | src/modbus.c:196-214 | FC 0x11 answers with the board's name and the run indicator ON, or with 03 for anything behind the code |
| `SlaveAnswers.ApartIsSilentOnBroadcast` | src/modbus_event.c:133-136 | event counter, event log and server ID are never answered on broadcast |
| `Comm.NewestOfPush` | src/modbus_event.c:20-34 | trimming the log at every push keeps exactly the newest 64 of the whole history |
| `Comm.NewestIs64` | inc/modbus_event.h:65 | the log keeps the first 64 entries of a history, newest first |
| `Tcp.ServedRequest` | src/modbus_tcp.c:28-84 | every served TCP request is answered under its own header, within 260 bytes, with the dispatcher's PDU |
| `Tcp.UnservedAdu` | src/modbus_tcp.c:31-50 | every byte string without protocol 0 and its own length in the header is an error, another unit is not answered, and neither touches the tables |
| `Tcp.ServedAdu` | src/modbus_tcp.c:52-84 | every other one is executed and answered with its transaction and unit, protocol 0 and the length of the reply |
| `Tcp.SameOnBothLines` | src/modbus_tcp.c:56-61 | the same request over RTU unicast and over TCP gives the same PDU and the same tables, and the RTU answer has 5 to 256 bytes |
| `Tcp.SerialOnlyRefused` | src/modbus.c:987-993 | TCP refuses the serial-only function codes with exception 01 and touches nothing |
| `RtuFramer.TimeoutsOrdered` | src/modbus.c:73-100 | at every baud rate T1.5 is shorter than T3.5, by at least a millisecond, and both fit the clock |
| `RtuFramer.TimeoutsExact` | src/modbus.c:73-100 | up to 19200 baud they are 1.5 and 3.5 characters of 11 bits, a character taken in whole microseconds that cover it; above they are 750 and 1750 microseconds |
| `RtuFramer.AlwaysValid` | src/rtu_framer.c:72-116 | under every interleaving: idle exactly when the assembly buffer is empty, armed only while receiving, no overflow |
| `RtuFramer.CompletedKept` | src/rtu_framer.c:81-103 | a completed frame keeps its bytes and length until it is read, delivered, flushed or dropped by a transmission |
| `RtuFramer.PendingIgnoresLine` | src/rtu_framer.c:162-176 | while a completed frame waits to be collected, bytes, ticks and polls change nothing |
| `RtuFramer.NeverBoth` | src/rtu_framer.c:72-206 | over every interleaving nothing is in assembly while a completed frame waits, so the code's test for that case never fires |
| `RtuFramer.DroppedIsGone` | src/rtu_framer.c:257-273 | after a flush or the start of a transmission nothing is handed out before the next byte, whenever one looks |
| `RtuFramer.HandedOnce` | src/rtu_framer.c:208-255 | a completed frame is handed out once, cut to the reader's buffer |
| `RtuFramer.WaitStrands` | src/rtu_framer.c:275-283 | a frame in assembly when the T3.5 delay is called is completed by no silence before the next byte |
| `FramerRuns.Refines` | src/rtu_framer.c:72-234 | after every trace the framer's state and output reflect the gap splitter's blocks |
| `FramerRuns.DeliversTheBlocks` | src/rtu_framer.c:162-234 | the delivered frames are, in order, exactly the blocks with inner gaps of at most T1.5 that a poll saw ended by T3.5 of silence, each cut to the buffer |
| `ClockedFramer.ClockedIsTimed` | src/rtu_framer.c:23-50 | run on the clock it really reads, tick counter and timer register included, the framer does what it does on true time |
| `ClockedFramer.ClockedDeliversTheBlocks` | src/rtu_framer.c:162-234 | on that clock it delivers exactly the blocks, gaps taken between true times in whole microseconds |
| `FramerRuns.FrameDeliveredWhole` | src/rtu_framer.c:162-234 | a frame sent without a pause and followed by T3.5 of silence is delivered whole and once, wherever ticks and polls fall |
| `Clock.ReadingIsTrueTime` | src/rtu_framer.c:23-45 | with at most one tick pending the reading is the elapsed time in whole microseconds modulo 2^32 |
| `Clock.ElapsedIsTrueTime` | src/rtu_framer.c:47-50 | subtracting two readings gives the elapsed time to within one microsecond, across wraps |
| `ObjectDictionary.ShortWriteKeepsLong` | src/canopen/canopen_od.c:125-133 | a write of at most four bytes never alters an object of more than four |
| `ObjectDictionary.WriteThenRead` | src/canopen/canopen_od.c:61-146 | a successful write is what the next read returns; a failed one changes nothing |
| `CanAccess.LookupMeans` | src/canopen/canopen_od.c:33-45 | lookup finds the variable of the first entry with the index; 0x06020000 or 0x06090011 says what is missing |
| `CanAccess.WriteVerdict` | src/canopen/canopen_od.c:99-146 | a write succeeds if and only if the variable is found, has access bit 1 and exactly the size of the data; the first that fails decides the code, and nothing changes then |
| `CanAccess.ReadVerdict` | src/canopen/canopen_od.c:61-97 | a read succeeds if and only if the variable is found and has access bit 2 or is constant; it gives what fits and the whole size |
| `CanAccess.WriteKeepsReadOnly` | src/canopen/canopen_od.c:120-123 | in every dictionary a variable without access bit 1 keeps its memory under every write |
| `CanAccess.ReceiveKeepsReadOnly` | src/canopen/canopen_sdo.c:51-210 | and under every SDO frame |
| `CanAccess.DownloadAnswer` | src/canopen/canopen_sdo.c:66-99 | every download frame, byte by byte: confirmed exactly when it is expedited and the write succeeds, else aborted with the code of the first failure, 0x06010002 without write access, and nothing changed |
| `CanAccess.UploadAnswer` | src/canopen/canopen_sdo.c:102-167 | every upload request, byte by byte: the object in one frame up to four bytes, else its size and the upload begun, else an abort |
| `CanAccess.SegmentRefused` | src/canopen/canopen_sdo.c:170-183 | every segment request without an upload or with the wrong toggle bit is aborted, byte by byte, and no upload goes on |
| `CanAccess.OtherFrames` | src/canopen/canopen_sdo.c:51-64 | a client's abort ends an upload silently, every other command is aborted as unknown, and a frame that is not eight bytes long is ignored |
| `Sdo.UploadReturnsObject` | src/canopen/canopen_sdo.c:131-204 | a segmented upload returns the object as it stood when it began, in exactly ceil(size/7) segments with alternating toggle bits and only the last one marked, whatever downloads, short uploads, unknown commands or outside changes come between |
| `Sdo.StartOfUpload` | src/canopen/canopen_sdo.c:142-166 | the initiate answer announces the object's size and starts at offset 0 with toggle 0 |
| `Sdo.WrongToggleEnds` | src/canopen/canopen_sdo.c:177-183 | a segment request with the wrong toggle bit is aborted and ends the upload |
| `Sdo.ReceiveKeepsLong` | src/canopen/canopen_sdo.c:51-210 | no SDO frame alters an object of more than four bytes, and the server stays consistent |
| `Sdo.DownloadThenUpload` | src/canopen/canopen_sdo.c:72-140 | what an expedited download stores is what the expedited upload of the same variable returns |
| `Sdo.UploadVersusRead` | src/canopen/canopen_sdo.c:119-123 | the upload's access test lets through exactly the variables with bit 0, without bit 2 and not constant that `canopen_od_read` refuses, write-only ones among them |
| `Sdo.WriteOnlyHandedOut` | src/canopen/canopen_sdo.c:119-140 | a write-only byte that `canopen_od_read` refuses is handed out by an SDO upload |
| `CanRuns.NodeRunsAreSdoRuns` | src/canopen/canopen.c:50-86 | every node run, whatever else is in it, is for the SDO server a run the upload results hold for |
| `CanRuns.NodeUploadReturnsObject` | src/canopen/canopen_sdo.c:131-204 | on the bus of a whole node: a client that follows the upload protocol gets the object as it stood at the start, whatever RPDOs, SYNCs, commands, inputs and short transfers come between |
| `CanRuns.StepKeepsNode` | src/canopen/canopen.c:38-86 | every step keeps dictionary shape, SDO server and timers consistent |
| `CanRuns.StoppedIsInert` | src/canopen/canopen.c:50-86 | in STOPPED no sequence of frames other than NMT commands for this node changes anything or emits anything, malformed commands and commands for other nodes included |
| `CanBus.StartCommand` | src/canopen/canopen_nmt.c:75-77 | command 01 for this node or all: from then on RPDOs are taken, SDO requests answered and heartbeats carry 05; the countdown runs on |
| `CanBus.StopCommand` | src/canopen/canopen_nmt.c:79-81 | command 02: RPDOs are refused, SDO requests not answered, heartbeats carry 04; the countdown runs on |
| `CanBus.PreOperationalCommands` | src/canopen/canopen_nmt.c:83-92 | commands 80, 81 and 82: RPDOs are refused, SDO requests answered, heartbeats carry 7F; the two resets, and only they, send the boot-up frame and restart the period |
| `CanBus.OtherCommands` | src/canopen/canopen_nmt.c:60-99 | every other command byte, another node's number and a frame of less than two bytes change nothing |
| `CanBus.PowerUp` | src/canopen/canopen.c:8-36 | a node starts refusing RPDOs, answering SDO requests, with heartbeats of 7F every second after the boot-up frame |
| `CanBus.Rpdo1` | src/canopen/canopen_pdo.c:143-161 | an RPDO1 sets 0x6200 sub 1 and nothing else, in OPERATIONAL and with at least one byte only |
| `CanBus.Rpdo2Refused` | src/canopen/canopen_pdo.c:143-173 | an RPDO2 is taken if and only if the node is operational and it has at least four bytes |
| `CanBus.SyncSendsBoth` | src/canopen/canopen_pdo.c:175-187 | a SYNC in OPERATIONAL sends both TPDOs with the current inputs whatever their inhibit times, and does nothing otherwise |
| `CanBus.PassSends` | src/canopen/canopen.c:38-48 | what a pass of time puts on the bus: the heartbeat when its countdown is over, then each TPDO whose event and inhibit times are over, with the inputs it carries |
| `CanBus.TriggersSend` | src/canopen/canopen.c:118-130 | a triggered TPDO goes out if and only if the node is operational and its inhibit time is over |
| `CanBus.InputsLand` | src/canopen/canopen.c:88-108 | the application's inputs land in 0x6000 and 0x6401, low byte first, and nowhere else |
| `CanBus.ForeignFrame` | src/canopen/canopen.c:50-86 | a frame that is no command, SYNC, SDO request or RPDO of this node is not taken and changes nothing |
| `CanBus.ReadOnlyOverRuns` | src/canopen/canopen_od.c:120-123 | over every node run a variable without write access keeps its memory, except that the application sets the inputs |
| `CanBus.InputsCannotBeWritten` | src/canopen/canopen_sdo.c:66-99 | a download to the digital inputs is answered on the bus with abort 0x06010002 and changes nothing |
| `CanBus.Writables` | src/canopen/canopen_od.c:148-352 | which variables of the default dictionary have write access |
| `CanBus.IdentifiersAreTrue` | src/canopen/canopen_od.c:148-352 | the identifiers the default dictionary names are the ones the node listens and sends on |
| `CanBus.TimesAreTrue` | src/canopen/canopen_pdo.c:21-33 | the heartbeat, event and inhibit times it names are the ones the node keeps |
| `CanBus.MappingsAreTrue` | src/canopen/canopen_od.c:148-352 | the mappings it names are the objects the PDOs carry, in their order and length |
| `CanBus.CountsAreTrue` | src/canopen/canopen_od.c:148-352 | every record entry says in its subindex 0 how many variables follow |
| `CanBus.IdentityIsSaid` | src/canopen/canopen_od.c:148-200 | device type, error register and identity object |
| `CanBus.NamesAreSaid` | src/canopen/canopen_od.c:164-180 | device name and versions, character by character |
| `CanBus.TransmissionTypes` | src/canopen/canopen_od.c:202-278 | all PDOs are event-driven |
| `CanBus.ProcessDataAtStart` | src/canopen/canopen_od.c:288-330 | inputs and outputs start at zero |
| `CanRuns.WhatFramesChange` | src/canopen/canopen.c:69-83 | a frame changes dictionary memory only as an RPDO in OPERATIONAL or as an SDO request outside STOPPED |
| `CanRuns.RpdoIsTwoDownloads` | src/canopen/canopen_pdo.c:163-170 | an RPDO2 leaves the same output values as two SDO downloads to 0x6411 |
| `CanRuns.RpdoThenUpload` | src/canopen/canopen_pdo.c:163-170 | the bytes of an RPDO2 come back, low byte first, in SDO uploads of 0x6411 |
| `CanRuns.Tpdo1OnTheBus` | src/canopen/canopen_pdo.c:84-109 | a TPDO1 frame is handed to the transmitter exactly when the timers say so, and carries the current inputs |
| `CanRuns.Tpdo1FramesSpaced` | src/canopen/canopen_pdo.c:36-109 | on the bus, two TPDO1 frames with no operational SYNC after the first are at least 100 ms apart |
| `CanRuns.Tpdo1FramesKeepComing` | src/canopen/canopen_pdo.c:62-70 | in steady operation consecutive TPDO1 frames are at most 1098 ms plus one pass apart, also when an event is skipped by the inhibit time |
| `CanRuns.RunIsMoves` | src/canopen/canopen_pdo.c:36-187 | a node run is, for each of the two TPDOs, a run of the timer machine |
| `Pdo.SendsAreSpaced` | src/canopen/canopen_pdo.c:90-108 | two sends with no operational SYNC between them are at least 100 ms apart |
| `Pdo.SendsKeepComing` | src/canopen/canopen_pdo.c:62-81 | in steady operation no more than 1098 ms go by unsent, so sends are at most 1098 ms plus one pass apart |
| `Pdo.BoundIsReached` | src/canopen/canopen_pdo.c:62-81 | the bound of 1098 ms plus one pass is reached by a concrete run |
| `Pdo.TimersCountDown` | src/canopen/canopen_pdo.c:36-81 | what every move leaves in the two timers, in plain arithmetic: the 16-bit countdowns never wrap, the event time runs in OPERATIONAL only and restarts sent or not |
| `Nmt.TimerNeverTruncates` | src/canopen/canopen_nmt.c:46-57 | over every run the countdown stays between 1 and the period, so the 16-bit subtraction never truncates |
| `Nmt.HeartbeatSpacing` | src/canopen/canopen_nmt.c:40-58 | consecutive heartbeats without a reset between them are at least the period and at most the period less one plus the longest pass apart |
| `CanRuns.HeartbeatFramesSpaced` | src/canopen/canopen_nmt.c:40-58 | the same for the heartbeat frames on the bus, over node runs with any other traffic |
| `CanRuns.HeartbeatFramesRate` | src/canopen/canopen_nmt.c:40-58 | heartbeat frames times the period never exceed the elapsed time by more than the first period's head start |
| `CanRuns.HeartbeatOnTheBus` | src/canopen/canopen_nmt.c:46-55 | heartbeat frames are exactly the beats of the countdown and carry the NMT state |
| `TableLoops.WriteBits` | src/modbus.c:508-511 | the coil loop splices the unpacked bits into the packed table and keeps all others, shared bytes included |
| `TableLoops.ReadBits` | src/modbus.c:393-407 | the nested bit loops return the packed slice with zero padding |
| `TableLoops.BitWrite` | src/modbus.c:132-140 | one bit of the table changes, or none when the address is past its end |
| `FileLoops.ReadLoop` | src/modbus.c:599-640 | the FC 0x14 loop over the two-dimensional store computes the reply data of the model |
| `FileLoops.WriteLoop` | src/modbus.c:665-705 | the FC 0x15 loop leaves the store and the fault of the model |
| `SlaveDevice.DataTables.Process` | src/modbus.c:345-928 | the dispatcher over arrays updated in place leaves the tables and the reply of the model, for every request |
| `SlaveDevice.DataTables.WriteCoils` | src/modbus.c:489-519 | FC 0x0F on the packed coil array |
| `SlaveDevice.DataTables.ReadWrite` | src/modbus.c:786-829 | FC 0x17 on the register arrays, write before read |
| `SlaveDevice.DataTables.FifoPush` | src/modbus.c:175-186 | appends to the queue if it exists and has room, and changes nothing otherwise |
| `SlaveDevice.DataTables.Reset` | src/modbus.c:108-123 | the clearing loops leave every table zero and every queue empty, and the outputs as they are |
| `CommDevice.EventLog.Push` | src/modbus_event.c:20-34 | the shifting loop puts the event in front and drops the oldest of a full log |
| `CommDevice.EventLog.Process` | src/modbus_event.c:128-177 | FC 0x0B and 0x0C over the log array answer as the model does |
| `CommDevice.Diagnostics.Process` | src/modbus_diag.c:85-214 | FC 0x08 over the counter fields leaves the counters, the mode, the log and the reply of the model |
| `CommDevice.Diagnostics.NoteOverrun` | src/modbus_diag.c:238-247 | counts an overrun and a communication error and logs the event |
| `RtuDevice.RtuServer.Receive` | src/modbus.c:933-1072 | one frame against the whole slave state: new state, status and transmitted ADU are those of the model |
| `RtuDevice.RtuServer.constructor` | src/modbus.c:102-124 | initialisation leaves zero tables, zero counters, one restart event and filled CRC tables |
| `TcpDevice.TcpServer.BuildResponse` | src/modbus_tcp.c:28-84 | the header checks and the copy loop over the shared tables come to the model's exchange |
| `MasterDevice.BuildWriteRegisters` | src/modbus_master.c:101-122 | the index loop builds the model's request |
| `MasterDevice.ParseReadRegisters` | src/modbus_master.c:503-520 | the index loop parses what the model parses, and runs past the bytes it has checked exactly for a passing response and 128 registers or more |
| `MasterDevice.ParseEcho` | src/modbus_master.c:686-699 | true if and only if the answer repeats the whole request |
| `MasterDevice.ArrivalInTime` | src/modbus_master_rtu.c:76-98 | a frame after any number of empty polls is what the receive loop returns if the polls reach it, and a timeout otherwise |
| `MasterDevice.Port.OnFrame` | src/modbus_master_rtu.c:19-32 | a frame is kept, cut to 256 bytes, only while a transaction waits |
| `MasterDevice.Port.Recv` | src/modbus_master_rtu.c:66-100 | the polling loop returns the first frame that arrives, or a timeout |
| `MasterDevice.Unit.Transaction` | src/modbus_master.c:354-473 | the steps of a transaction with a remote slave come to the model's outcome; failed transmissions and over-long responses give MODBUS_ERROR, late answers time out, and on every path past framing the port ends up free |
| `MasterDevice.Unit.ReadHoldingRegisters` | src/modbus_master.c:824-848 | the call over the bus is the model's call, so the end-to-end results hold for it |
| `MasterDevice.Unit.WriteMultipleRegisters` | src/modbus_master.c:952-977 | the call over the bus is the model's call |
| `MasterDevice.Unit.WriteSingleCoil` | src/modbus_master.c:876-899 | the call over the bus is the model's call |
| `MasterDevice.Unit.WriteSingleRegister` | src/modbus_master.c:901-924 | the call over the bus is the model's call |
| `MasterDevice.Unit.WriteFileRecord` | src/modbus_master.c:1212-1245 | the call over the bus is the model's call |
| `MasterDevice.Board.OnReceive` | src/main.c:251-273 | while a master transaction waits, a frame goes to it and never reaches the slave; otherwise the slave processes it and the port is untouched |
| `FramerDevice.Framer.OnByte` | src/rtu_framer.c:162-206 | the byte interrupt over the assembly buffer makes the model's step |
| `FramerDevice.Framer.TryCompleteFrame` | src/rtu_framer.c:72-109 | the snapshot loop over the two buffers makes the model's step |
| `FramerDevice.Framer.Process` | src/rtu_framer.c:208-234 | polling and delivery over the buffers make the model's step |
| `CanDevice.OdTable.FindIndex` | src/canopen/canopen_od.c:33-45 | the linear search finds the first entry with the index |
| `CanDevice.OdTable.Write` | src/canopen/canopen_od.c:99-146 | access and size checks in their order, then the object's memory is replaced |
| `CanDevice.SdoServer.RxFrame` | src/canopen/canopen_sdo.c:51-210 | the server over its fields leaves the dictionary, the upload state and the answer of the model |
| `CanDevice.NmtSlave.RxCommand` | src/canopen/canopen_nmt.c:60-99 | an NMT command over the fields is the model's command |
| `CanDevice.CanopenNode.Process` | src/canopen/canopen.c:38-48 | heartbeat first, then both inhibit timers, then the event timers: the model's step |
| `CanDevice.CanopenNode.RxFrame` | src/canopen/canopen.c:50-86 | routing and gating of a frame over the node's parts make the model's step, and the node stays consistent |
| `TableLoops.WriteRegisters` | src/modbus.c:538-541 | the register loop splices the big-endian words into the table and keeps all others |
| `TableLoops.ReadRegisters` | src/modbus.c:434-443 | the register loop returns the big-endian image of the slice |
| `TableLoops.CopyRegisters` | src/modbus.c:316-319 | the mirror loop copies a run of registers and keeps all others |
| `TableLoops.BitRead` | src/modbus.c:126-130 | one bit of the table, or false past its end |
| `FileLoops.PutRecord` | src/modbus.c:698-703 | one sub-request's data lands in its file at its record, and nothing else changes |
| `FileLoops.GetRecord` | src/modbus.c:634-638 | one record as big-endian bytes |
| `SlaveDevice.DataTables.RefreshDiscrete` | src/modbus.c:312-315 | the first eight discrete inputs take the board inputs |
| `SlaveDevice.DataTables.RefreshInput` | src/modbus.c:316-319 | the first four input registers take the analog cache |
| `SlaveDevice.DataTables.SyncRegisters` | src/modbus.c:279-302 | the default hook: outputs and relays driven, inputs refreshed |
| `SlaveDevice.DataTables.DriveDigital` | src/modbus.c:281-284 | the loop drives each digital output as its coil says |
| `SlaveDevice.DataTables.DriveRelays` | src/modbus.c:285-288 | the loop drives each relay as its coil says |
| `SlaveDevice.DataTables.DriveAnalog` | src/modbus.c:298-301 | the loop drives each analog output as its register says |
| `SlaveDevice.DataTables.ReadBits` | src/modbus.c:371-410 | FC 0x01 and 0x02 on the packed arrays |
| `SlaveDevice.DataTables.WriteCoil` | src/modbus.c:447-469 | FC 0x05 on the packed coil array |
| `SlaveDevice.DataTables.ReadStatus` | src/modbus.c:552-580 | FC 0x07 on the packed discrete array |
| `SlaveDevice.DataTables.ReadRegisters` | src/modbus.c:411-446 | FC 0x03 and 0x04 on the register arrays |
| `SlaveDevice.DataTables.WriteRegister` | src/modbus.c:470-488 | FC 0x06 on the register array |
| `SlaveDevice.DataTables.WriteRegisters` | src/modbus.c:520-549 | FC 0x10 on the register array |
| `SlaveDevice.DataTables.MaskWrite` | src/modbus.c:719-745 | FC 0x16 on the register array |
| `SlaveDevice.DataTables.ReadFile` | src/modbus.c:583-648 | FC 0x14 on the file array |
| `SlaveDevice.DataTables.WriteFile` | src/modbus.c:651-716 | FC 0x15 on the file array |
| `SlaveDevice.DataTables.ReadFifo` | src/modbus.c:748-783 | FC 0x18 on the queue array |
| `CommDevice.EventLog.NoteRestart` | src/modbus_event.c:46-56 | counter zero, log cleared on demand, restart event in front |
| `CommDevice.EventLog.NoteTx` | src/modbus_event.c:68-94 | the send event of every exception code |
| `CommDevice.Diagnostics.NoteCommError` | src/modbus_diag.c:225-231 | counts a communication error and logs it with the listen-only bit |
| `CommDevice.Diagnostics.NoteResult` | src/modbus_diag.c:249-256 | an exception counts as one, silence as the other, a normal answer as neither |
| `CommDevice.Diagnostics.CounterRead` | src/modbus_diag.c:70-83 | each sub-function reads its own counter |
| `RtuDevice.RtuServer.Dispatch` | src/modbus.c:961-1007 | the request goes to the owner of its function code, with the listen-only gate |
| `RtuDevice.RtuServer.Account` | src/modbus.c:1009-1049 | result counters, send event and event counter after a request |
| `RtuDevice.RtuServer.Answer` | src/modbus.c:1061-1069 | the copy loop and the CRC make the sealed ADU |
| `MasterDevice.BuildWriteCoils` | src/modbus_master.c:78-99 | the index loop builds the model's request |
| `MasterDevice.BuildWriteFile` | src/modbus_master.c:215-246 | the index loop builds the model's request |
| `MasterDevice.ParseReadBits` | src/modbus_master.c:479-501 | the index loop parses what the model parses, within the room of the output buffer |
| `MasterDevice.ParseReadFile` | src/modbus_master.c:608-635 | the index loop parses what the model parses, and runs past the bytes it has checked exactly for a passing response and 32768 registers or more |
| `MasterDevice.Unit.Frame` | src/modbus_master.c:294-315 | the copy loop and the CRC make the framed request, or nothing for a PDU that cannot be framed |
| `MasterDevice.Unit.Assess` | src/modbus_master.c:317-456 | the checks on a response, in their order, come to the model's judgement |
| `MasterDevice.Unit.SendAndAwait` | src/modbus_master_rtu.c:34-100 | the slave acts exactly once on a frame that gets out and not at all on one that does not, and its answer is received if it comes in time |
| `MasterDevice.Unit.ReadCoils` | src/modbus_master.c:777-798 | the call over the bus is the model's call |
| `MasterDevice.Unit.WriteMultipleCoils` | src/modbus_master.c:926-950 | the call over the bus is the model's call |
| `MasterDevice.Unit.ReadFileRecord` | src/modbus_master.c:1184-1210 | the call over the bus is the model's call |
| `FramerDevice.Framer.constructor` | src/rtu_framer.c:118-142 | initialisation: idle, buffers of at most 256 bytes, timeouts of the baud rate |
| `FramerDevice.Framer.OnSysTick` | src/rtu_framer.c:149-160 | a tick advances the wrapping millisecond counter and polls the timer |
| `FramerDevice.Framer.Read` | src/rtu_framer.c:236-255 | copies out at most the caller's size and frees the slot |
| `FramerDevice.Framer.Flush` | src/rtu_framer.c:257-265 | drops the partial and the completed frame |
| `FramerDevice.Framer.TxBegin` | src/rtu_framer.c:267-273 | drops the partial frame and the completed one by its flag |
| `FramerDevice.Framer.DelayT35` | src/rtu_framer.c:275-283 | stops the timer and waits for the first reading T3.5 after the start |
| `FramerDevice.Framer.BytesAvailable` | src/rtu_framer.c:285-288 | in every state the number of bytes in the assembly buffer |
| `CanDevice.OdTable.Read` | src/canopen/canopen_od.c:61-97 | access check, bytes cut to the buffer, full size reported |
| `CanDevice.SdoServer.UploadSegment` | src/canopen/canopen_sdo.c:170-205 | one segment, or an abort, from the fields of the upload in progress |
| `CanDevice.SdoServer.InitiateUpload` | src/canopen/canopen_sdo.c:102-167 | an expedited answer, a segmented start or an abort |
| `CanDevice.SdoServer.Download` | src/canopen/canopen_sdo.c:66-99 | an expedited download, confirmed or aborted |
| `CanDevice.NmtSlave.Process` | src/canopen/canopen_nmt.c:40-58 | the heartbeat countdown over the 16-bit field |
| `CanDevice.TpdoTimer.Tick` | src/canopen/canopen_pdo.c:62-70 | the event timer: an attempt and a reload when due, a countdown otherwise |
| `CanDevice.TpdoTimer.Send` | src/canopen/canopen_pdo.c:84-109 | refused while inhibited; acceptance starts the inhibit time |
| `CanDevice.CanopenNode.ProcessPdos` | src/canopen/canopen_pdo.c:36-82 | one pass over both TPDOs |
| `CanDevice.CanopenNode.RxSync` | src/canopen/canopen_pdo.c:175-187 | a SYNC ends both inhibit times and sends both TPDOs, in OPERATIONAL only |
| `CanDevice.CanopenNode.RxRpdo` | src/canopen/canopen_pdo.c:143-173 | an RPDO writes its outputs in OPERATIONAL only, and only when it is long enough |
| `CanDevice.CanopenNode.TriggerTpdo1` | src/canopen/canopen.c:118-123 | a triggered TPDO1 is the model's step |
| `CanDevice.CanopenNode.SetAnalogInput` | src/canopen/canopen.c:103-108 | a channel below 4 takes the value, any other is ignored |
| `CanDevice.CanopenNode.constructor` | src/canopen/canopen.c:8-36 | initialisation with the default dictionary, heartbeat period read from 0x1017, leaves a consistent node |
| `CanRuns.DefaultHeartbeat` | src/canopen/canopen.c:25-28 | the period read is 1000 ms, the one the node would start with if the entry were missing |
| `CanDevice.CanopenNode.SetNmtState` | src/canopen/canopen.c:140-145 | setting the NMT state is the model's step |
| `Sdo.RestOfUpload` | src/canopen/canopen_sdo.c:170-204 | from any point of an upload the remaining segments are the rest of the object |
| `CanRuns.StepKeepsLong` | src/canopen/canopen.c:38-86 | whatever happens to the node, no object of more than four bytes changes and only SDO requests move the server |
| `CanRuns.SegmentsOnTheBus` | src/canopen/canopen_sdo.c:185-204 | the segments a client takes off the bus are the server's |
| `CanRuns.Tpdo1NeverLongSilent` | src/canopen/canopen_pdo.c:62-70 | in steady operation no more than 1098 ms go by without a TPDO1 frame |
| `Nmt.HeartbeatRate` | src/canopen/canopen_nmt.c:40-58 | heartbeats never come faster than the period, however time is cut up |
| `Nmt.NoPeriodNoHeartbeat` | src/canopen/canopen_nmt.c:42-44 | a period of 0 switches the producer off |
| `FileRecords.WrittenReadsBack` | src/modbus.c:665-705 | after a write of sub-requests that agree where they overlap, each record reads back as its own data |
| `FileRecords.GoodPrefixOfList` | src/modbus.c:668-705 | the good prefix of an encoded list of good sub-requests followed by anything bad is the list |

## Left out
- Register access and drivers (src/analog_io.c, src/digital_io.c, src/relay.c, src/rs232.c, src/rs485.c,
  src/ethernet.c, src/can_driver.c), startup and wiring: foreign calls; of the output drivers only the level of
  each channel is kept.
- User sync hooks and CANopen callbacks: only the default hook is modelled, which leaves holding registers and coils alone.
- Null-pointer guards and the capacities of caller-supplied message buffers: requests, replies and frames are sequences,
  built by the same loops; the stored tables, logs and framer buffers are arrays updated in place.
- The loops that copy the texts of the device identification (FC 0x2B) and the server ID (FC 0x11): easy members, kept as
  functions.
- The remaining master calls (input registers, discrete inputs, mask write, FIFO, diagnostics, event
  counter and log, device identification, server ID, read/write): the same transaction with shorter parsers.
- The accessor functions at src/modbus.c:1077-1107, with which the application changes a table without calling the hook,
  and the CANopen output getters: single reads and writes. Outputs that CANopen drives are not in `BoardOutputs`.
- CANopen dictionary storage is one sequence-valued field reassigned by each write rather than separate variables reached
  through pointers, so aliasing of two entries to one variable is not captured; the default dictionary has none.
- Object dictionaries other than the default one on a whole node: `Sdo` and `ObjectDictionary` cover every dictionary
  whose objects have at least one byte, `CanNode` the default one. A zero size, which switches the size check off, is not
  modelled.
- Timer settings written to 0x1017, 0x1800 and 0x1801 after initialisation: the code never reads them again, so the
  timers keep their initial values.
- TPDO2 on the bus: its timers run the machine of `Pdo` (`CanRuns.RunIsMoves`), but the bus-level lemmas are stated for
  TPDO1 only.
- MasterDevice.Unit.SendAndAwait: the T3.5 delay and the flush of the framer before a transmission are not part of it,
  because the bus is loss-free there; `FramerDevice.Framer.DelayT35` and `FramerDevice.Framer.Flush` model them, and
  `SerialLine.TransactionThroughFramers` puts the framers in between. A failed transmission reaches nobody.
- FramerDevice.Framer.constructor: buffers of at least one byte, because with size 0 the first byte would be stored past
  the end; both ports pass 256.
- CanDevice.OdTable.Write: objects of size 0 and a registered post-write callback are not part of this model.
- FramerRuns.DeliversTheBlocks: for traces without flush, transmission or a clock wrap between neighbouring events, each
  frame collected before the next byte; other interleavings are covered by `RtuFramer.AlwaysValid` and
  `RtuFramer.CompletedKept`.
- The socket side of Modbus TCP (src/ethernet.c): transport only.
