/** Master calls against a slave over a loss-free bus: what the caller gets is what the tables hold. */
module EndToEnd {
  import opened Bytes
  import opened CrcLoop
  import opened SlaveTables
  import opened FileRecords
  import opened Pdu
  import opened RtuSlave
  import opened Master
  import FileRequests
  import Requests
  import Comm

  /** The slave answers unicast requests from the master. */
  predicate Reachable(s: Slave, dest: byte) {
    s.Valid() && dest == s.id && dest != 0 && !s.comm.diag.listenOnly
  }

  predicate SharedCode(req: seq<byte>) {
    && 1 <= |req| <= 253 && req[0] < 128
    && req[0] != Comm.DIAGNOSTICS && !IsFetch(req[0]) && req[0] != SERVER_ID
  }

  lemma FrameArrives(dest: byte, req: seq<byte>)
    requires 1 <= |req| <= 253
    ensures var adu := FrameFor(dest, req); Intact(adu) && adu[0] == dest && RequestOf(adu) == req
  {
    hide CrcOk, Crc16;
    SealedIsOk([dest] + req);
  }

  lemma AnswerArrives(dest: byte, req: seq<byte>, pdu: seq<byte>)
    requires SharedCode(req) && WellFormed(req, pdu)
    ensures Judge(dest, req, Answer(dest, pdu))
            == if pdu[0] >= 128 then Outcome(EXCEPTION, pdu[1], []) else Outcome(OK, 0, pdu)
  {
    hide CrcOk, Crc16;
    SealedIsOk([dest] + pdu);
    var adu := Answer(dest, pdu);
    assert adu[0] == dest && RequestOf(adu) == pdu;
  }

  /** A transaction with a reachable slave runs the request on its tables and brings back its reply. */
  lemma TransactionIsExecution(s: Slave, dest: byte, req: seq<byte>, di: byte)
    requires Reachable(s, dest) && SharedCode(req)
    ensures var (after, o) := Transact(s, dest, req, di);
            var (t, pdu) := Execute(s.tables, req, di);
            && after.tables == t && after.id == s.id && !after.comm.diag.listenOnly
            && WellFormed(req, pdu)
            && o == if pdu[0] >= 128 then Outcome(EXCEPTION, pdu[1], []) else Outcome(OK, 0, pdu)
  {
    hide CrcOk, Crc16, Execute, Seal, Account, Judge, WellFormed;
    FrameArrives(dest, req);
    EveryReplyWellFormed(s.tables, req, di);
    var pdu := Execute(s.tables, req, di).1;
    WellFormedSize(req, pdu);
    AnswerArrives(dest, req, pdu);
  }

  lemma WellFormedSize(req: seq<byte>, pdu: seq<byte>)
    requires |req| >= 1 && WellFormed(req, pdu)
    ensures 2 <= |pdu| <= 253
  {
  }

  /** A slave with another address, or in listen-only mode, never answers: the call times out. */
  lemma SilentSlave(s: Slave, dest: byte, req: seq<byte>, di: byte)
    requires s.Valid() && dest != 0 && SharedCode(req)
    requires dest != s.id || s.comm.diag.listenOnly
    ensures var (after, o) := Transact(s, dest, req, di);
            after.tables == s.tables && o == Failed(TIMEOUT)
  {
    hide CrcOk, Crc16, Execute, Seal;
    FrameArrives(dest, req);
  }

  /** A frame damaged in an odd number of bits is rejected at both ends, and changes nothing but the slave's error
      count and log. */
  lemma OddDamageRejected(s: Slave, dest: byte, req: seq<byte>, good: seq<byte>, bad: seq<byte>, di: byte)
    requires s.Valid() && |req| >= 1 && Intact(good) && |bad| == |good| && Distance(good, bad) % 2 == 1
    ensures var turn := Receive(s, bad, di);
            && turn.status == CRC_ERROR && turn.tx == [] && turn.slave.tables == s.tables
            && turn.slave.comm == Comm.NoteCommError(s.comm)
    ensures Judge(dest, req, bad) == Failed(CRC_ERROR)
  {
    hide CrcOk, Distance, Dispatch, Account, Comm.NoteCommError;
    OddFlipsFail(good, bad);
  }

  // ------------------------------------------------------------ holding registers

  lemma ExecuteRead(t: Tables, start: word, quantity: word, di: byte)
    requires t.Valid() && 1 <= quantity <= 125
    ensures Execute(t, ReadRequest(READ_HOLDING, start, quantity), di)
            == (t, if RangeValid(start, quantity, MAX_REGISTERS)
                   then RegistersPdu(READ_HOLDING, t.holding[start..start + quantity])
                   else Exception(READ_HOLDING, ILLEGAL_ADDRESS))
  {
    hide Hi, Lo, Be16, WordBytes, Exception;
    BeWord(start);
    BeWord(quantity);
  }

  lemma ParsedRegisters(fc: byte, ws: seq<word>)
    requires 1 <= |ws| <= 125
    ensures ParseRegisters(RegistersPdu(fc, ws), |ws|) == Some(ws)
  {
    hide WordBytes, BytesWords;
    WordsRoundTrip(ws);
    assert RegistersPdu(fc, ws)[2..] == WordBytes(ws);
  }

  /** Reading holding registers returns the slave's slice, or exception 02 when the range does not fit. */
  lemma ReadReturnsSlice(s: Slave, dest: byte, start: word, quantity: word, di: byte)
    requires Reachable(s, dest) && 1 <= quantity <= 125
    ensures var (after, call) := ReadHoldingRegisters(s, dest, start, quantity, di);
            && after.tables == s.tables && Reachable(after, dest)
            && call == if RangeValid(start, quantity, MAX_REGISTERS)
                       then Call(OK, 0, s.tables.holding[start..start + quantity])
                       else Call(EXCEPTION, ILLEGAL_ADDRESS, [])
  {
    hide Transact, Execute, RegistersPdu, ParseRegisters, WellFormed;
    TransactionIsExecution(s, dest, ReadRequest(READ_HOLDING, start, quantity), di);
    ExecuteRead(s.tables, start, quantity, di);
    if RangeValid(start, quantity, MAX_REGISTERS) {
      var ws := s.tables.holding[start..start + quantity];
      ParsedRegisters(READ_HOLDING, ws);
      assert RegistersPdu(READ_HOLDING, ws)[0] == READ_HOLDING by {
        RegistersPduCode(READ_HOLDING, ws);
      }
    }
  }

  lemma RegistersPduCode(fc: byte, ws: seq<word>)
    requires |ws| <= 125
    ensures |RegistersPdu(fc, ws)| > 0 && RegistersPdu(fc, ws)[0] == fc
  {
  }

  lemma ExecuteWrite(t: Tables, start: word, regs: seq<word>, di: byte)
    requires t.Valid() && 1 <= |regs| <= 123
    ensures var req := WriteRegistersRequest(start, regs);
            Execute(t, req, di)
            == if RangeValid(start, |regs|, MAX_REGISTERS)
               then (Sync(t.(holding := Splice(t.holding, start, regs)), di), req[..5])
               else (t, Exception(WRITE_REGISTERS, ILLEGAL_ADDRESS))
  {
    hide Hi, Lo, Be16, WordBytes, BytesWords, Exception, Sync;
    BeWord(start);
    BeWord(|regs|);
    WordsRoundTrip(regs);
    assert WriteRegistersRequest(start, regs)[6..] == WordBytes(regs);
  }

  /** Writing registers puts exactly them into the table and keeps every other one; a range that does not fit
      changes nothing. */
  lemma WriteStoresRegisters(s: Slave, dest: byte, start: word, regs: seq<word>, di: byte)
    requires Reachable(s, dest) && 1 <= |regs| <= 123
    ensures var (after, call) := WriteMultipleRegisters(s, dest, start, regs, di);
            && Reachable(after, dest)
            && if RangeValid(start, |regs|, MAX_REGISTERS)
               then call == Call(OK, 0, ()) && after.tables.holding == Splice(s.tables.holding, start, regs)
               else call == Call(EXCEPTION, ILLEGAL_ADDRESS, ()) && after.tables == s.tables
  {
    hide Transact, Execute, WellFormed, Sync, WordBytes;
    TransactionIsExecution(s, dest, WriteRegistersRequest(start, regs), di);
    ExecuteWrite(s.tables, start, regs, di);
  }

  /** What was written is what is read back, for every range inside the table. */
  lemma WriteThenRead(s: Slave, dest: byte, start: word, regs: seq<word>, di: byte, di': byte)
    requires Reachable(s, dest) && 1 <= |regs| <= 123 && RangeValid(start, |regs|, MAX_REGISTERS)
    ensures var mid := WriteMultipleRegisters(s, dest, start, regs, di).0;
            ReadHoldingRegisters(mid, dest, start, |regs|, di').1 == Call(OK, 0, regs)
  {
    hide WriteMultipleRegisters, ReadHoldingRegisters;
    WriteStoresRegisters(s, dest, start, regs, di);
    var mid := WriteMultipleRegisters(s, dest, start, regs, di).0;
    ReadReturnsSlice(mid, dest, start, |regs|, di');
  }

  // ------------------------------------------------------------ when a write call succeeds

  predicate EchoedCode(fc: byte) {
    fc == WRITE_COIL || fc == WRITE_REGISTER || fc == WRITE_COILS || fc == WRITE_REGISTERS
  }

  lemma SilentUnlessReachable(s: Slave, dest: byte)
    requires s.Valid() && dest != 0 && !Reachable(s, dest)
    ensures dest != s.id || s.comm.diag.listenOnly
  {
  }

  lemma BroadcastHasNoResponse(s: Slave, req: seq<byte>, di: byte)
    requires s.Valid()
    ensures |Transact(s, 0, req, di).1.response| == 0
  {
  }

  /** A write call returns OK exactly when the slave is reached and answers without an exception. */
  lemma EchoSucceedsIff(s: Slave, dest: byte, req: seq<byte>, di: byte)
    requires s.Valid() && SharedCode(req) && EchoedCode(req[0])
    ensures |Execute(s.tables, req, di).1| > 0
    ensures Echoed(Transact(s, dest, req, di).1, req[0]).status == OK
            <==> Reachable(s, dest) && Execute(s.tables, req, di).1[0] < 128
  {
    hide Transact, Execute, Reachable;
    EveryReplyWellFormed(s.tables, req, di);
    if Reachable(s, dest) {
      TransactionIsExecution(s, dest, req, di);
    } else if dest == 0 {
      BroadcastHasNoResponse(s, req, di);
    } else {
      SilentUnlessReachable(s, dest);
      SilentSlave(s, dest, req, di);
    }
  }

  /** A broadcast write is carried out, yet the call reports an error, because no echo comes back. */
  lemma BroadcastIsExecution(s: Slave, req: seq<byte>, di: byte)
    requires s.Valid() && !s.comm.diag.listenOnly && SharedCode(req) && EchoedCode(req[0])
    ensures var (after, o) := Transact(s, 0, req, di);
            after.tables == Execute(s.tables, req, di).0 && Echoed(o, req[0]) == Call(ERROR, 0, ())
  {
    hide Execute, CrcOk, Crc16, Seal, Account, FrameFor;
    FrameArrives(0, req);
  }

  /** Write-multiple-registers on broadcast: stored, and reported as an error. */
  lemma BroadcastWriteReportsError(s: Slave, start: word, regs: seq<word>, di: byte)
    requires s.Valid() && !s.comm.diag.listenOnly && 1 <= |regs| <= 123 && RangeValid(start, |regs|, MAX_REGISTERS)
    ensures var (after, call) := WriteMultipleRegisters(s, 0, start, regs, di);
            call == Call(ERROR, 0, ()) && after.tables.holding == Splice(s.tables.holding, start, regs)
  {
    hide Execute, Transact, Sync, WordBytes, Echoed;
    BroadcastIsExecution(s, WriteRegistersRequest(start, regs), di);
    ExecuteWrite(s.tables, start, regs, di);
  }

  /** The write-multiple-registers call succeeds exactly when it is addressed to the slave and the range fits. */
  lemma WriteSucceedsIff(s: Slave, dest: byte, start: word, regs: seq<word>, di: byte)
    requires s.Valid() && |regs| <= 65535
    ensures WriteMultipleRegisters(s, dest, start, regs, di).1.status == OK
            <==> Reachable(s, dest) && 1 <= |regs| <= 123 && RangeValid(start, |regs|, MAX_REGISTERS)
  {
    hide Transact, WordBytes, Reachable, Execute, Echoed, Sync;
    if 1 <= |regs| <= 123 {
      EchoSucceedsIff(s, dest, WriteRegistersRequest(start, regs), di);
      ExecuteWrite(s.tables, start, regs, di);
    }
  }

  // ------------------------------------------------------------ requests that are never sent

  /** Quantities outside what a request can carry are refused by the master itself: nothing reaches any slave. */
  lemma RefusedUnsent(s: Slave, dest: byte, start: word, quantity: word, file: word, regs: seq<word>, bits: seq<byte>,
                      di: byte)
    requires s.Valid() && |bits| == (quantity + 7) / 8
    ensures quantity == 0 || quantity > 125 ==>
              ReadHoldingRegisters(s, dest, start, quantity, di) == (s, Call(ERROR, 0, []))
    ensures quantity == 0 || quantity > 1968 ==>
              WriteMultipleCoils(s, dest, start, quantity, bits, di) == (s, Call(ERROR, 0, ()))
    ensures quantity == 0 ==> ReadFileRecord(s, dest, file, start, quantity, di) == (s, Call(ERROR, 0, []))
    ensures |regs| == 0 || |regs| > 123 ==>
              WriteMultipleRegisters(s, dest, start, regs, di) == (s, Call(ERROR, 0, ()))
    ensures |regs| == 0 || |regs| > 122 ==>
              WriteFileRecord(s, dest, file, start, regs, di) == (s, Call(ERROR, 0, ()))
  {
    hide Transact;
  }

  /** Nor is a PDU of no or more than 253 bytes ever sent. */
  lemma UnframedUnsent(s: Slave, dest: byte, pdu: seq<byte>, di: byte)
    requires s.Valid() && (|pdu| == 0 || |pdu| > 253)
    ensures Transact(s, dest, pdu, di) == (s, Failed(ERROR))
  {
  }

  // ------------------------------------------------------------ single writes

  lemma ExecuteSingleRegister(t: Tables, addr: word, value: word, di: byte)
    requires t.Valid()
    ensures var req := WriteSingleRequest(WRITE_REGISTER, addr, value);
            Execute(t, req, di)
            == if addr < MAX_REGISTERS then (Sync(t.(holding := t.holding[addr := value]), di), req)
               else (t, Exception(WRITE_REGISTER, ILLEGAL_ADDRESS))
  {
    hide Sync, Hi, Lo, Be16, Exception;
    BeWord(addr);
    BeWord(value);
  }

  lemma ExecuteSingleCoil(t: Tables, addr: word, on: bool, di: byte)
    requires t.Valid()
    ensures var req := WriteSingleRequest(WRITE_COIL, addr, if on then 0xFF00 else 0);
            Execute(t, req, di)
            == if addr < MAX_COILS then (Sync(t.(coils := t.coils[addr := on]), di), req)
               else (t, Exception(WRITE_COIL, ILLEGAL_ADDRESS))
  {
    hide Sync, Hi, Lo, Be16, Exception;
    BeWord(addr);
    BeWord(if on then 0xFF00 else 0);
  }

  /** The write-single-register call: what it stores, when it succeeds, and what a broadcast comes to. */
  lemma SingleRegisterCall(s: Slave, dest: byte, addr: word, value: word, di: byte)
    requires s.Valid()
    ensures var (after, call) := WriteSingleRegister(s, dest, addr, value, di);
            && (call.status == OK <==> Reachable(s, dest) && addr < MAX_REGISTERS)
            && (call.status == OK ==> after.tables.holding == s.tables.holding[addr := value])
            && (dest == 0 && !s.comm.diag.listenOnly && addr < MAX_REGISTERS ==>
                  call == Call(ERROR, 0, ()) && after.tables.holding == s.tables.holding[addr := value])
            && (addr >= MAX_REGISTERS ==> after.tables == s.tables)
            && (Reachable(s, dest) && addr >= MAX_REGISTERS ==> call == Call(EXCEPTION, ILLEGAL_ADDRESS, ()))
  {
    hide Transact, Execute, Echoed, Sync;
    var req := WriteSingleRequest(WRITE_REGISTER, addr, value);
    ExecuteSingleRegister(s.tables, addr, value, di);
    EchoSucceedsIff(s, dest, req, di);
    CallTables(s, dest, req, di);
    if Reachable(s, dest) {
      ExceptionComesBack(s, dest, req, di);
    }
    if dest == 0 && !s.comm.diag.listenOnly {
      BroadcastIsExecution(s, req, di);
    }
  }

  /** The write-single-coil call. */
  lemma SingleCoilCall(s: Slave, dest: byte, addr: word, on: bool, di: byte)
    requires s.Valid()
    ensures var (after, call) := WriteSingleCoil(s, dest, addr, on, di);
            && (call.status == OK <==> Reachable(s, dest) && addr < MAX_COILS)
            && (call.status == OK ==> after.tables.coils == s.tables.coils[addr := on])
            && (dest == 0 && !s.comm.diag.listenOnly && addr < MAX_COILS ==>
                  call == Call(ERROR, 0, ()) && after.tables.coils == s.tables.coils[addr := on])
            && (addr >= MAX_COILS ==> after.tables == s.tables)
            && (Reachable(s, dest) && addr >= MAX_COILS ==> call == Call(EXCEPTION, ILLEGAL_ADDRESS, ()))
  {
    hide Transact, Execute, Echoed, Sync;
    var req := WriteSingleRequest(WRITE_COIL, addr, if on then 0xFF00 else 0);
    ExecuteSingleCoil(s.tables, addr, on, di);
    EchoSucceedsIff(s, dest, req, di);
    CallTables(s, dest, req, di);
    if Reachable(s, dest) {
      ExceptionComesBack(s, dest, req, di);
    }
    if dest == 0 && !s.comm.diag.listenOnly {
      BroadcastIsExecution(s, req, di);
    }
  }

  lemma ExceptionComesBack(s: Slave, dest: byte, req: seq<byte>, di: byte)
    requires Reachable(s, dest) && SharedCode(req) && EchoedCode(req[0])
    ensures |Execute(s.tables, req, di).1| >= 2
    ensures var pdu := Execute(s.tables, req, di).1;
            pdu[0] >= 128 ==> Echoed(Transact(s, dest, req, di).1, req[0]) == Call(EXCEPTION, pdu[1], ())
  {
    hide Transact, Execute;
    TransactionIsExecution(s, dest, req, di);
  }

  /** Whoever is called, the tables are those of an execution or the old ones. */
  lemma CallTables(s: Slave, dest: byte, req: seq<byte>, di: byte)
    requires s.Valid() && SharedCode(req) && EchoedCode(req[0])
    ensures var after := Transact(s, dest, req, di).0;
            after.tables == if (dest == 0 || dest == s.id) && !s.comm.diag.listenOnly
                            then Execute(s.tables, req, di).0 else s.tables
  {
    hide Execute, CrcOk, Crc16, Seal, Account, FrameFor;
    FrameArrives(dest, req);
  }

  // ------------------------------------------------------------ coils

  lemma ExecuteReadCoils(t: Tables, start: word, quantity: word, di: byte)
    requires t.Valid() && RangeValid(start, quantity, MAX_COILS) && quantity >= 1
    ensures Execute(t, ReadRequest(READ_COILS, start, quantity), di)
            == (t, BitsPdu(READ_COILS, t.coils[start..start + quantity]))
  {
    hide Hi, Lo, Be16, PackBits;
    BeWord(start);
    BeWord(quantity);
  }

  lemma ExecuteWriteCoils(t: Tables, start: word, quantity: word, bits: seq<byte>, di: byte)
    requires t.Valid() && RangeValid(start, quantity, MAX_COILS) && quantity >= 1 && |bits| == (quantity + 7) / 8
    ensures var req := WriteCoilsRequest(start, quantity, bits);
            Execute(t, req, di)
            == (Sync(t.(coils := Splice(t.coils, start, UnpackBits(bits, quantity))), di), req[..5])
  {
    hide Hi, Lo, Be16, UnpackBits, Sync;
    BeWord(start);
    BeWord(quantity);
    assert WriteCoilsRequest(start, quantity, bits)[6..] == bits;
  }

  lemma ExecuteCoilsOutside(t: Tables, start: word, quantity: word, bits: seq<byte>, di: byte)
    requires t.Valid() && !RangeValid(start, quantity, MAX_COILS) && 1 <= quantity <= 1968
    requires |bits| == (quantity + 7) / 8
    ensures Execute(t, WriteCoilsRequest(start, quantity, bits), di) == (t, Exception(WRITE_COILS, ILLEGAL_ADDRESS))
  {
    hide Hi, Lo, Be16, UnpackBits, Sync;
    BeWord(start);
    BeWord(quantity);
  }

  /** The write-multiple-coils call: when it succeeds, what a range that does not fit does, and what a broadcast
      comes to. */
  lemma CoilsCall(s: Slave, dest: byte, start: word, quantity: word, bits: seq<byte>, di: byte)
    requires s.Valid() && |bits| == (quantity + 7) / 8
    ensures var (after, call) := WriteMultipleCoils(s, dest, start, quantity, bits, di);
            var fits := quantity >= 1 && RangeValid(start, quantity, MAX_COILS);
            && (call.status == OK <==> Reachable(s, dest) && fits)
            && (call.status == OK ==>
                  after.tables.coils == Splice(s.tables.coils, start, UnpackBits(bits, quantity)))
            && (!fits ==> after.tables == s.tables)
            && (Reachable(s, dest) && 1 <= quantity <= 1968 && !fits ==> call == Call(EXCEPTION, ILLEGAL_ADDRESS, ()))
            && (dest == 0 && !s.comm.diag.listenOnly && fits ==>
                  call == Call(ERROR, 0, ())
                  && after.tables.coils == Splice(s.tables.coils, start, UnpackBits(bits, quantity)))
  {
    hide Transact, Execute, Echoed, Sync, UnpackBits, Splice;
    var req := WriteCoilsRequest(start, quantity, bits);
    if 1 <= quantity <= 1968 {
      if RangeValid(start, quantity, MAX_COILS) {
        ExecuteWriteCoils(s.tables, start, quantity, bits, di);
      } else {
        ExecuteCoilsOutside(s.tables, start, quantity, bits, di);
      }
      assert SharedCode(req);
      EchoSucceedsIff(s, dest, req, di);
      CallTables(s, dest, req, di);
      if Reachable(s, dest) {
        ExceptionComesBack(s, dest, req, di);
      }
      if dest == 0 && !s.comm.diag.listenOnly {
        BroadcastIsExecution(s, req, di);
      }
    }
  }

  lemma WriteStoresCoils(s: Slave, dest: byte, start: word, quantity: word, bits: seq<byte>, di: byte)
    requires Reachable(s, dest) && RangeValid(start, quantity, MAX_COILS) && quantity >= 1
    requires |bits| == (quantity + 7) / 8
    ensures var (after, call) := WriteMultipleCoils(s, dest, start, quantity, bits, di);
            && Reachable(after, dest) && call == Call(OK, 0, ())
            && after.tables.coils == Splice(s.tables.coils, start, UnpackBits(bits, quantity))
  {
    hide Transact, Execute, WellFormed, Sync, UnpackBits;
    TransactionIsExecution(s, dest, WriteCoilsRequest(start, quantity, bits), di);
    ExecuteWriteCoils(s.tables, start, quantity, bits, di);
  }

  lemma ReadReturnsCoils(s: Slave, dest: byte, start: word, quantity: word, room: nat, di: byte)
    requires Reachable(s, dest) && RangeValid(start, quantity, MAX_COILS) && quantity >= 1
    ensures ReadCoils(s, dest, start, quantity, room, di).1
            == if (quantity + 7) / 8 <= room then Call(OK, 0, PackBits(s.tables.coils[start..start + quantity]))
               else Call(ERROR, 0, [])
  {
    hide Transact, Execute, WellFormed, PackBits;
    TransactionIsExecution(s, dest, ReadRequest(READ_COILS, start, quantity), di);
    ExecuteReadCoils(s.tables, start, quantity, di);
    var bits := s.tables.coils[start..start + quantity];
    assert BitsPdu(READ_COILS, bits)[2..] == PackBits(bits);
  }

  /** Coil reads are checked by the slave alone: exception 03 for no coils or more than 2000, 02 for a range that does
      not fit. */
  lemma CoilsRefused(s: Slave, dest: byte, start: word, quantity: word, room: nat, di: byte)
    requires Reachable(s, dest) && (quantity == 0 || start + quantity > 128)
    ensures var (after, call) := ReadCoils(s, dest, start, quantity, room, di);
            && after.tables == s.tables
            && call == Call(EXCEPTION, if quantity == 0 || quantity > 2000 then 3 else 2, [])
  {
    hide Transact, Execute, WellFormed, Hi, Lo;
    var req := ReadRequest(READ_COILS, start, quantity);
    TransactionIsExecution(s, dest, req, di);
    Requests.ReadCoils(s.tables, req, di);
    NumbersBack(start, quantity);
  }

  lemma NumbersBack(start: word, quantity: word)
    ensures var req := ReadRequest(READ_COILS, start, quantity);
            Requests.U16(req, 1) == start && Requests.U16(req, 3) == quantity
  {
  }

  /** Coils read back as they were written: same bits, LSB first; the padding of the request is ignored and
      comes back as zeros; every coil outside the range keeps its value. */
  lemma CoilsWriteThenRead(s: Slave, dest: byte, start: word, quantity: word, bits: seq<byte>, room: nat, di: byte,
                           di': byte)
    requires Reachable(s, dest) && RangeValid(start, quantity, MAX_COILS) && quantity >= 1
    requires |bits| == (quantity + 7) / 8 <= room
    ensures var mid := WriteMultipleCoils(s, dest, start, quantity, bits, di).0;
            var call := ReadCoils(mid, dest, start, quantity, room, di').1;
            && call.status == OK && |call.value| == |bits|
            && (forall i, j: nat | 0 <= i < |bits| && j < 8 ::
                  Bit(call.value[i], j) == (8 * i + j < quantity && Bit(bits[i], j)))
            && (forall c | 0 <= c < MAX_COILS && !(start <= c < start + quantity) ::
                  mid.tables.coils[c] == s.tables.coils[c])
  {
    hide WriteMultipleCoils, ReadCoils, UnpackBits, PackBits, Bit;
    WriteStoresCoils(s, dest, start, quantity, bits, di);
    var mid := WriteMultipleCoils(s, dest, start, quantity, bits, di).0;
    ReadReturnsCoils(mid, dest, start, quantity, room, di');
    var on := UnpackBits(bits, quantity);
    assert mid.tables.coils[start..start + quantity] == on;
    forall i, j: nat | 0 <= i < |bits| && j < 8
      ensures Bit(PackBits(on)[i], j) == (8 * i + j < quantity && Bit(bits[i], j))
    {
      PackedBit(on, i, j);
      UnpackedBit(bits, quantity, i, j);
    }
  }

  lemma UnpackedBit(bits: seq<byte>, quantity: nat, i: nat, j: nat)
    requires quantity <= 8 * |bits| && i < |bits| && j < 8
    ensures 8 * i + j < quantity ==> UnpackBits(bits, quantity)[8 * i + j] == Bit(bits[i], j)
  {
    hide Bit;
    assert (8 * i + j) / 8 == i && (8 * i + j) % 8 == j;
  }

  // ------------------------------------------------------------ file records

  lemma ExecuteWriteFile(t: Tables, file: word, record: word, regs: seq<word>, di: byte)
    requires t.Valid() && 1 <= |regs| <= 122
    ensures var h := Header(REF_TYPE, file, record, |regs|);
            var req := WriteFileRequest(file, record, regs);
            Execute(t, req, di)
            == if h.Fault() == None then (t.(files := StoreRecord(t.files, h, regs)), req)
               else (t, Exception(WRITE_FILE, h.Fault().value))
  {
    hide HeaderBytes, ParseHeader, WordBytes, BytesWords, StoreRecord, Exception, WriteRecords, Header.Fault;
    var h := Header(REF_TYPE, file, record, |regs|);
    var req := WriteFileRequest(file, record, regs);
    assert req[2..] == HeaderBytes(h) + WordBytes(regs);
    WriteOneRecord(t.files, h, regs);
  }

  lemma WriteOneRecord(files: Files, h: Header, regs: seq<word>)
    requires FilesValid(files) && |regs| == h.length
    ensures WriteRecords(files, HeaderBytes(h) + WordBytes(regs))
            == if h.Fault() == None then (StoreRecord(files, h, regs), None) else (files, h.Fault())
  {
    hide HeaderBytes, ParseHeader, WordBytes, BytesWords, StoreRecord, Header.Fault, WriteRecords;
    var body := HeaderBytes(h) + WordBytes(regs);
    HeaderRoundTrip(h);
    HeaderOf(body);
    assert body[..7] == HeaderBytes(h);
    if h.Fault() == None {
      assert body[7..7 + 2 * h.length] == WordBytes(regs);
      WordsRoundTrip(regs);
      assert body[7 + 2 * h.length..] == [];
      WriteFront(files, body);
      NothingLeft(StoreRecord(files, h, regs));
    } else {
      WriteFaulty(files, body);
    }
  }

  lemma WriteFront(files: Files, body: seq<byte>)
    requires FilesValid(files) && StartsGood(body)
    ensures var h := ParseHeader(body);
            WriteRecords(files, body)
            == WriteRecords(StoreRecord(files, h, BytesWords(body[7..7 + 2 * h.length])), body[7 + 2 * h.length..])
  {
    hide ParseHeader, BytesWords, StoreRecord, Header.Fault;
  }

  lemma WriteFaulty(files: Files, body: seq<byte>)
    requires FilesValid(files) && |body| >= 7 && ParseHeader(body).Fault().Some?
    ensures WriteRecords(files, body) == (files, ParseHeader(body).Fault())
  {
    hide ParseHeader, BytesWords, StoreRecord, Header.Fault;
  }

  lemma NothingLeft(files: Files)
    requires FilesValid(files)
    ensures WriteRecords(files, []) == (files, None)
  {
  }

  lemma ExecuteReadFile(t: Tables, file: word, record: word, length: word, di: byte)
    requires t.Valid() && 1 <= length
    ensures var h := Header(REF_TYPE, file, record, length);
            Execute(t, ReadFileRequest(file, record, length), di)
            == (t, if h.Fault() != None then Exception(READ_FILE, h.Fault().value)
                   else if length > 124 then Exception(READ_FILE, ILLEGAL_VALUE)
                   else [READ_FILE, 2 + 2 * length] + SubReply(RecordSlice(t.files, h)))
  {
    hide HeaderBytes, ParseHeader, SubReply, RecordSlice, Exception, ReadRecords, Header.Fault;
    var h := Header(REF_TYPE, file, record, length);
    assert ReadFileRequest(file, record, length)[2..] == HeaderBytes(h);
    ReadOneRecord(t.files, h);
  }

  lemma ReadOneRecord(files: Files, h: Header)
    requires FilesValid(files)
    ensures ReadRecords(files, HeaderBytes(h), [])
            == if h.Fault() != None then Err(h.Fault().value)
               else if h.length > 124 then Err(ILLEGAL_VALUE)
               else Ok(SubReply(RecordSlice(files, h)))
  {
    hide HeaderBytes, ParseHeader, SubReply, RecordSlice, Header.Fault;
    var body := HeaderBytes(h);
    HeaderRoundTrip(h);
    if h.Fault() == None && h.length <= 124 {
      assert body[7..] == [];
      var out := SubReply(RecordSlice(files, h));
      assert [] + out == out;
      assert ReadRecords(files, [], out) == Ok(out);
    }
  }

  lemma RecordStored(s: Slave, dest: byte, file: word, record: word, regs: seq<word>, di: byte)
    requires Reachable(s, dest) && 1 <= |regs| <= 122
    ensures var h := Header(REF_TYPE, file, record, |regs|);
            var (after, call) := WriteFileRecord(s, dest, file, record, regs, di);
            && Reachable(after, dest)
            && if h.Fault() == None
               then call == Call(OK, 0, ()) && after.tables.files == StoreRecord(s.tables.files, h, regs)
               else call == Call(EXCEPTION, h.Fault().value, ()) && after.tables == s.tables
  {
    hide Transact, Execute, WellFormed, WordBytes, HeaderBytes, StoreRecord, Header.Fault;
    TransactionIsExecution(s, dest, WriteFileRequest(file, record, regs), di);
    ExecuteWriteFile(s.tables, file, record, regs, di);
  }

  /** Writing a file record stores exactly its registers in one of the four files, or gives exception 02 and changes
      nothing. */
  lemma WriteStoresRecord(s: Slave, dest: byte, file: word, record: word, regs: seq<word>, di: byte)
    requires Reachable(s, dest) && 1 <= |regs| <= 122
    ensures var (after, call) := WriteFileRecord(s, dest, file, record, regs, di);
            if file == 0 || file > 4 || record + |regs| > 128
            then call == Call(EXCEPTION, 2, ()) && after.tables == s.tables
            else
              && call == Call(OK, 0, ())
              && forall f, k | 0 <= f < 4 && 0 <= k < 128 ::
                   after.tables.files[f][k] == if f == file - 1 && record <= k < record + |regs|
                                               then regs[k - record] else s.tables.files[f][k]
  {
    hide WriteFileRecord, Header.Fault, StoreRecord;
    var h := Header(REF_TYPE, file, record, |regs|);
    RecordStored(s, dest, file, record, regs, di);
    FileRequests.HeaderVerdict(h);
    if h.Fault() == None {
      StoredRegisters(s.tables.files, h, regs);
    }
  }

  lemma StoredRegisters(files: Files, h: Header, regs: seq<word>)
    requires FilesValid(files) && h.Fault() == None && |regs| == h.length
    ensures var r := StoreRecord(files, h, regs);
            && FilesValid(r)
            && forall f, k | 0 <= f < 4 && 0 <= k < 128 ::
                 r[f][k] == if f == h.file - 1 && h.record <= k < h.record + h.length then regs[k - h.record]
                            else files[f][k]
  {
    var store := files[h.file - 1];
    var row := Splice(store, h.record, regs);
    forall k | h.record <= k < h.record + |regs|
      ensures row[k] == regs[k - h.record]
    {
      assert row[k] == row[h.record..h.record + |regs|][k - h.record];
    }
  }

  lemma ParsedRecord(ws: seq<word>)
    requires 1 <= |ws| <= 124
    ensures ParseFileRecord([READ_FILE, 2 + 2 * |ws|] + SubReply(ws), |ws|) == Some(ws)
  {
    hide WordBytes, BytesWords;
    var pdu := [READ_FILE, 2 + 2 * |ws|] + SubReply(ws);
    assert pdu[4..4 + 2 * |ws|] == WordBytes(ws);
    WordsRoundTrip(ws);
  }

  lemma RecordRead(s: Slave, dest: byte, file: word, record: word, length: word, di: byte)
    requires Reachable(s, dest) && 1 <= length
    ensures var h := Header(REF_TYPE, file, record, length);
            ReadFileRecord(s, dest, file, record, length, di).1
            == if h.Fault() != None then Call(EXCEPTION, h.Fault().value, [])
               else if length > 124 then Call(EXCEPTION, ILLEGAL_VALUE, [])
               else Call(OK, 0, RecordSlice(s.tables.files, h))
  {
    hide Transact, Execute, WellFormed, SubReply, HeaderBytes, RecordSlice, Header.Fault, ParseFileRecord;
    var h := Header(REF_TYPE, file, record, length);
    TransactionIsExecution(s, dest, ReadFileRequest(file, record, length), di);
    ExecuteReadFile(s.tables, file, record, length, di);
    if h.Fault() == None && length <= 124 {
      ParsedRecord(RecordSlice(s.tables.files, h));
    }
  }

  /** Reading a file record returns its registers; exception 02 for registers that do not exist in the four files of
      128, and exception 03 for a record too long for one reply. */
  lemma ReadReturnsRecord(s: Slave, dest: byte, file: word, record: word, length: word, di: byte)
    requires Reachable(s, dest) && 1 <= length
    ensures ReadFileRecord(s, dest, file, record, length, di).1
            == if file == 0 || file > 4 || record + length > 128 then Call(EXCEPTION, 2, [])
               else if length > 124 then Call(EXCEPTION, 3, [])
               else Call(OK, 0, s.tables.files[file - 1][record..record + length])
  {
    hide ReadFileRecord, Header.Fault;
    RecordRead(s, dest, file, record, length, di);
    FileRequests.HeaderVerdict(Header(REF_TYPE, file, record, length));
  }

  /** A written file record reads back as written. */
  lemma FileWriteThenRead(s: Slave, dest: byte, file: word, record: word, regs: seq<word>, di: byte, di': byte)
    requires Reachable(s, dest) && 1 <= |regs| <= 122 && 1 <= file <= 4 && record + |regs| <= 128
    ensures var (mid, call) := WriteFileRecord(s, dest, file, record, regs, di);
            call.status == OK && ReadFileRecord(mid, dest, file, record, |regs|, di').1 == Call(OK, 0, regs)
  {
    hide WriteFileRecord, ReadFileRecord;
    RecordReachable(s, dest, file, record, regs, di);
    WriteStoresRecord(s, dest, file, record, regs, di);
    var mid := WriteFileRecord(s, dest, file, record, regs, di).0;
    ReadReturnsRecord(mid, dest, file, record, |regs|, di');
    assert mid.tables.files[file - 1][record..record + |regs|] == regs;
  }

  lemma RecordReachable(s: Slave, dest: byte, file: word, record: word, regs: seq<word>, di: byte)
    requires Reachable(s, dest) && 1 <= |regs| <= 122
    ensures Reachable(WriteFileRecord(s, dest, file, record, regs, di).0, dest)
  {
    hide WriteFileRecord, Header.Fault, StoreRecord;
    RecordStored(s, dest, file, record, regs, di);
  }
}
