/** modbus_master.c and modbus_master_rtu.c as they run: building and parsing loops, the waiting flag, and the
    steps of a transaction with a remote slave on the line. */
module MasterDevice {
  import opened Bytes
  import opened CrcLoop
  import opened SlaveTables
  import opened FileRecords
  import opened RtuSlave
  import opened Master
  import Pdu
  import RtuDevice

  // ------------------------------------------------------------ building and parsing

  /** Registers appended big-endian, one by one. */
  method AppendWords(head: seq<byte>, regs: seq<word>) returns (pdu: seq<byte>)
    ensures pdu == head + WordBytes(regs)
  {
    pdu := head;
    for i := 0 to |regs|
      invariant pdu == head + WordBytes(regs[..i])
    {
      WordBytesSnoc(regs[..i], regs[i]);
      assert regs[..i] + [regs[i]] == regs[..i + 1];
      pdu := pdu + [Hi(regs[i])];
      pdu := pdu + [Lo(regs[i])];
    }
    assert regs[..|regs|] == regs;
  }

  method BuildWriteRegisters(start: word, regs: seq<word>) returns (pdu: seq<byte>)
    ensures pdu == WriteRegistersRequest(start, regs)
  {
    if |regs| < 1 || |regs| > 123 {
      return [];
    }
    var count: byte := 2 * |regs|;
    pdu := AppendWords([Pdu.WRITE_REGISTERS, Hi(start), Lo(start), Hi(|regs|), Lo(|regs|), count], regs);
  }

  method BuildWriteCoils(start: word, quantity: word, bits: seq<byte>) returns (pdu: seq<byte>)
    requires |bits| == (quantity + 7) / 8
    ensures pdu == WriteCoilsRequest(start, quantity, bits)
  {
    if quantity < 1 || quantity > 1968 {
      return [];
    }
    var count: byte := (quantity + 7) / 8;
    pdu := [Pdu.WRITE_COILS, Hi(start), Lo(start), Hi(quantity), Lo(quantity), count];
    ghost var head := pdu;
    for i := 0 to count
      invariant pdu == head + bits[..i]
    {
      pdu := pdu + [bits[i]];
    }
    assert bits[..count] == bits;
  }

  method BuildWriteFile(file: word, record: word, regs: seq<word>) returns (pdu: seq<byte>)
    ensures pdu == WriteFileRequest(file, record, regs)
  {
    if |regs| < 1 || |regs| > 122 {
      return [];
    }
    var length: byte := 7 + 2 * |regs|;
    pdu := AppendWords([Pdu.WRITE_FILE, length, REF_TYPE, Hi(file), Lo(file), Hi(record), Lo(record),
                        Hi(|regs|), Lo(|regs|)], regs);
  }

  /** The loop that takes `quantity` registers out of the bytes, or finds that it would run past them. */
  method WordsOut(data: seq<byte>, quantity: nat) returns (regs: seq<word>, past: bool)
    ensures past <==> 2 * quantity > |data|
    ensures !past ==> regs == BytesWords(data[..2 * quantity])
  {
    regs := [];
    for i := 0 to quantity
      invariant 2 * i <= |data|
      invariant regs == BytesWords(data[..2 * i])
    {
      if 2 * i + 1 >= |data| {
        return [], true;
      }
      regs := regs + [Be16(data[2 * i], data[2 * i + 1])];
    }
    past := false;
  }

  /** `modbus_master_parse_read_registers`; `past` says that its loop runs beyond the bytes it has checked. */
  method ParseReadRegisters(pdu: seq<byte>, quantity: word) returns (r: Option<seq<word>>, past: bool)
    ensures past <==> quantity >= 128 && |pdu| >= 2 && |pdu| - 2 == pdu[1] == 2 * quantity % 256
    ensures r == ParseRegisters(pdu, quantity)
  {
    if |pdu| < 2 || quantity < 1 {
      return None, false;
    }
    if pdu[1] != 2 * quantity % 256 || |pdu| - 2 != pdu[1] {
      return None, false;
    }
    var regs;
    regs, past := WordsOut(pdu[2..], quantity);
    assert 2 * quantity <= |pdu| - 2 ==> pdu[2..][..2 * quantity] == pdu[2..];
    r := if past then None else Some(regs);
  }

  /** `modbus_master_parse_read_bits` into a buffer of `room` bytes. */
  method ParseReadBits(pdu: seq<byte>, quantity: word, room: nat) returns (r: Option<seq<byte>>)
    ensures r == ParseBits(pdu, quantity, room)
  {
    if |pdu| < 2 || quantity < 1 {
      return None;
    }
    if pdu[1] != (quantity + 7) / 8 % 256 || |pdu| - 2 != pdu[1] {
      return None;
    }
    if pdu[1] > room {
      return None;
    }
    var bits: seq<byte> := [];
    for i := 0 to pdu[1]
      invariant bits == pdu[2..2 + i]
    {
      bits := bits + [pdu[2 + i]];
    }
    assert pdu[2..2 + (|pdu| - 2)] == pdu[2..];
    r := Some(bits);
  }

  /** `modbus_master_parse_read_file_record`; `past` as above. */
  method ParseReadFile(pdu: seq<byte>, length: word) returns (r: Option<seq<word>>, past: bool)
    ensures past <==> length >= 0x8000 && |pdu| >= 4 && pdu[..2] == [0x14, pdu[1]] && |pdu| - 2 == pdu[1]
                      && pdu[2] == (1 + 2 * length) % 0x1_0000 && pdu[3] == 6 && pdu[1] == (pdu[2] as int + 1) % 256
    ensures r == ParseFileRecord(pdu, length)
  {
    if |pdu| < 4 || pdu[0] != Pdu.READ_FILE || length < 1 {
      return None, false;
    }
    if |pdu| - 2 != pdu[1] {
      return None, false;
    }
    var need: word := (1 + 2 * length) % 0x1_0000;
    if pdu[2] != need || pdu[3] != REF_TYPE || pdu[1] != (pdu[2] as int + 1) % 256 {
      return None, false;
    }
    var regs;
    regs, past := WordsOut(pdu[4..], length);
    assert 2 * length <= |pdu| - 4 ==> pdu[4..][..2 * length] == pdu[4..4 + 2 * length];
    r := if past then None else Some(regs);
  }

  /** `modbus_master_parse_echo`: the answer repeats the request byte by byte. */
  method ParseEcho(pdu: seq<byte>, req: seq<byte>) returns (same: bool)
    ensures same <==> pdu == req && |req| > 0
  {
    if |pdu| != |req| || |req| == 0 {
      return false;
    }
    for i := 0 to |req|
      invariant pdu[..i] == req[..i]
    {
      if pdu[i] != req[i] {
        return false;
      }
    }
    assert pdu[..|req|] == pdu && req[..|req|] == req;
    same := true;
  }

  // ------------------------------------------------------------ modbus_master_rtu.c

  /** What the receive loop comes to, given what each poll delivers ([] for nothing). */
  function FirstArrival(arrivals: seq<seq<byte>>): (r: Option<seq<byte>>) {
    if |arrivals| == 0 then None
    else if |arrivals[0]| > 0 then Some(arrivals[0][..Min(|arrivals[0]|, MAX_ADU)])
    else FirstArrival(arrivals[1..])
  }

  /** A frame that comes after `quiet` empty polls is what the loop returns, if the polls reach that far. */
  lemma {:induction false} ArrivalInTime(arrivals: seq<seq<byte>>, quiet: nat)
    requires forall i | 0 <= i < |arrivals| && i != quiet :: arrivals[i] == []
    ensures FirstArrival(arrivals)
            == if quiet < |arrivals| && |arrivals[quiet]| > 0
               then Some(arrivals[quiet][..Min(|arrivals[quiet]|, MAX_ADU)]) else None
    decreases |arrivals|
  {
    if |arrivals| > 0 && quiet > 0 {
      ArrivalInTime(arrivals[1..], quiet - 1);
    } else if |arrivals| > 0 && arrivals[0] == [] {
      ArrivalInTime(arrivals[1..], |arrivals|);
    }
  }

  class Port {
    var waiting: bool
    var frameReady: bool
    var frame: seq<byte>

    constructor ()
      ensures Idle()
    {
      waiting, frameReady, frame := false, false, [];
    }

    /** The port belongs to the slave again. */
    ghost predicate Idle()
      reads this
    {
      !waiting && !frameReady && frame == []
    }

    /** `modbus_master_rtu_on_frame`: a frame is only kept while a transaction waits for one. */
    method OnFrame(data: seq<byte>)
      modifies this
      ensures waiting == old(waiting)
      ensures if waiting && |data| > 0
              then frameReady && frame == data[..Min(|data|, MAX_ADU)]
              else frameReady == old(frameReady) && frame == old(frame)
    {
      if |data| == 0 || !waiting {
        return;
      }
      frame := data[..Min(|data|, MAX_ADU)];
      frameReady := true;
    }

    method Flush()
      modifies this
      ensures waiting && !frameReady && frame == []
    {
      waiting, frameReady, frame := true, false, [];
    }

    method BeginSend()
      modifies this
      ensures waiting && !frameReady && frame == old(frame)
    {
      waiting, frameReady := true, false;
    }

    method End()
      modifies this
      ensures Idle()
    {
      waiting, frameReady, frame := false, false, [];
    }

    /** `master_rtu_recv`: polls until a frame is there or the time is up. */
    method Recv(arrivals: seq<seq<byte>>) returns (status: Status, adu: seq<byte>)
      requires !frameReady
      modifies this
      ensures waiting
      ensures match FirstArrival(arrivals)
              case Some(f) => status == OK && adu == f
              case None => status == TIMEOUT && adu == []
    {
      waiting := true;
      adu := [];
      assert arrivals[0..] == arrivals;
      for i := 0 to |arrivals|
        invariant waiting && !frameReady && adu == []
        invariant FirstArrival(arrivals[i..]) == FirstArrival(arrivals)
      {
        OnFrame(arrivals[i]);
        assert arrivals[i..][0] == arrivals[i] && arrivals[i..][1..] == arrivals[i + 1..];
        if frameReady {
          adu := frame;
          frameReady := false;
          frame := [];
          return OK, adu;
        }
      }
      status := TIMEOUT;
    }
  }

  // ------------------------------------------------------------ modbus_master.c against a remote slave

  /** What the outside contributes to one call: the slave's board inputs, whether the transmitter gets the frame out,
      and after how many empty polls, of how many, an answer arrives. */
  datatype Line = Line(di: byte, sends: bool, quiet: nat, polls: nat) {
    predicate Prompt() {
      sends && quiet < polls
    }
  }

  /** The polls of a receive loop: nothing for `quiet` of them, then the answer, if there is one. */
  function Arrivals(quiet: nat, polls: nat, answer: seq<byte>): (arrivals: seq<seq<byte>>)
    ensures |arrivals| == polls
  {
    seq(polls, i => if i == quiet then answer else [])
  }

  /** The transaction with a frame that may not get out, an answer that may come too late, and room for a response of
      `room` bytes. A frame that does not get out reaches nobody. */
  function TransactTimed(s: Slave, dest: byte, req: seq<byte>, line: Line, room: nat): (r: (Slave, Outcome))
    requires s.Valid()
    ensures r.0.Valid() && r.0.id == s.id
  {
    var (after, o) := Transact(s, dest, req, line.di);
    if |FrameFor(dest, req)| == 0 then (after, o)
    else if !line.sends then (s, Failed(ERROR))
    else if dest != 0 && line.quiet >= line.polls then (after, Failed(TIMEOUT))
    else if |o.response| > room then (after, Failed(ERROR))
    else (after, o)
  }

  lemma FrameSize(dest: byte, req: seq<byte>)
    ensures |FrameFor(dest, req)| == if 1 <= |req| <= 253 then |req| + 3 else 0
  {
    hide Crc16;
  }

  class Unit {
    const port: Port
    const crc: CrcTables
    const remote: RtuDevice.RtuServer

    ghost predicate Valid()
      reads crc, crc.low, crc.high
      reads remote.comm, remote.comm.events, remote.tables.fifoLen, remote.tables.drivers
      reads remote.crc, remote.crc.low, remote.crc.high
    {
      && remote.Valid() && crc.Valid() && crc != remote.crc
      && crc.low !in {remote.crc.low, remote.crc.high} && crc.high !in {remote.crc.low, remote.crc.high}
      && var stores: set<object> := {remote.tables.holding, remote.tables.input, remote.tables.coils,
                                     remote.tables.discrete, remote.tables.files, remote.tables.fifos,
                                     remote.tables.fifoLen, remote.comm.events.log};
         crc.low !in stores && crc.high !in stores
    }

    constructor (remote: RtuDevice.RtuServer)
      requires remote.Valid()
      ensures this.remote == remote && Valid() && port.Idle()
    {
      this.remote := remote;
      port := new Port();
      crc := new CrcTables();
    }

    /** `modbus_master_rtu_frame`. */
    method Frame(dest: byte, pdu: seq<byte>) returns (adu: seq<byte>)
      requires Valid()
      modifies crc, crc.low, crc.high
      ensures Valid() && adu == FrameFor(dest, pdu) && remote.View() == old(remote.View())
    {
      hide RtuDevice.RtuServer.View, RtuDevice.RtuServer.Valid, Crc16;
      if |pdu| == 0 || |pdu| > 253 {
        return [];
      }
      adu := [dest];
      for i := 0 to |pdu|
        invariant adu == [dest] + pdu[..i]
      {
        adu := adu + [pdu[i]];
      }
      assert pdu[..|pdu|] == pdu;
      var sum := crc.Compute(adu);
      adu := adu + [Lo(sum), Hi(sum)];
    }

    /** The checks on a received ADU, in their order. */
    method Assess(dest: byte, req: seq<byte>, rx: seq<byte>) returns (status: Status, exception: byte, resp: seq<byte>)
      requires Valid() && |req| >= 1
      modifies crc, crc.low, crc.high
      ensures Valid() && Outcome(status, exception, resp) == Judge(dest, req, rx)
      ensures remote.View() == old(remote.View())
    {
      hide RtuDevice.RtuServer.View, RtuDevice.RtuServer.Valid, Crc16;
      if |rx| < 4 || |rx| > MAX_ADU {
        return ERROR, 0, [];
      }
      var sum := crc.Compute(rx[..|rx| - 2]);
      if Be16(rx[|rx| - 1], rx[|rx| - 2]) != sum {
        return CRC_ERROR, 0, [];
      }
      if rx[0] != dest {
        return ERROR, 0, [];
      }
      var pdu := rx[1..|rx| - 2];
      if pdu[0] >= 128 {
        if |pdu| < 2 || pdu[0] - 128 != req[0] {
          return ERROR, 0, [];
        }
        return EXCEPTION, pdu[1], [];
      }
      if pdu[0] != req[0] {
        return ERROR, 0, [];
      }
      return OK, 0, pdu;
    }

    /** The frame goes out and the slave acts on it, or the transmitter fails; the answer comes in, late or never. */
    method SendAndAwait(adu: seq<byte>, line: Line, expectAnswer: bool) returns (status: Status, rx: seq<byte>)
      requires Valid()
      modifies port
      modifies remote.comm, remote.comm.events, remote.comm.events.log, remote.crc, remote.crc.low, remote.crc.high
      modifies remote.tables.holding, remote.tables.input, remote.tables.coils, remote.tables.discrete
      modifies remote.tables.files, remote.tables.drivers
      ensures Valid()
      ensures !line.sends ==> status == ERROR && rx == [] && remote.View() == old(remote.View())
      ensures line.sends ==>
                var turn := RtuSlave.Receive(old(remote.View()), adu, line.di);
                && remote.View() == turn.slave
                && (status, rx) == if !expectAnswer then (OK, [])
                                   else if line.quiet < line.polls && |turn.tx| > 0 then (OK, turn.tx)
                                   else (TIMEOUT, [])
    {
      hide RtuDevice.RtuServer.View, RtuDevice.RtuServer.Valid, RtuSlave.Receive, CrcTables.Valid;
      port.Flush();
      port.BeginSend();
      if !line.sends {
        return ERROR, [];
      }
      var slaveStatus, answer := remote.Receive(adu, line.di);
      if !expectAnswer {
        return OK, [];
      }
      var arrivals := Arrivals(line.quiet, line.polls, answer);
      ArrivalInTime(arrivals, line.quiet);
      assert answer[..Min(|answer|, MAX_ADU)] == answer;
      status, rx := port.Recv(arrivals);
    }

    /** `modbus_master_transaction`: whatever happens after the request is framed, the port ends up free. */
    method Transaction(dest: byte, req: seq<byte>, line: Line, room: nat)
        returns (status: Status, exception: byte, resp: seq<byte>)
      requires Valid() && |req| >= 1
      modifies port, crc, crc.low, crc.high
      modifies remote.comm, remote.comm.events, remote.comm.events.log, remote.crc, remote.crc.low, remote.crc.high
      modifies remote.tables.holding, remote.tables.input, remote.tables.coils, remote.tables.discrete
      modifies remote.tables.files, remote.tables.drivers
      ensures Valid()
      ensures (remote.View(), Outcome(status, exception, resp))
              == TransactTimed(old(remote.View()), dest, req, line, room)
      ensures !line.sends || |req| > 253 ==> status == ERROR && remote.View() == old(remote.View())
      ensures line.sends && |req| <= 253 && dest != 0 && line.quiet >= line.polls ==> status == TIMEOUT
      ensures status == OK ==> |resp| <= room
      ensures if |FrameFor(dest, req)| > 0 then port.Idle() else unchanged(port)
    {
      hide RtuDevice.RtuServer.View, RtuDevice.RtuServer.Valid, Valid, FrameFor, Judge, RtuSlave.Receive;
      FrameSize(dest, req);
      var adu := Frame(dest, req);
      if |adu| == 0 {
        return ERROR, 0, [];
      }
      var rx: seq<byte>;
      status, rx := SendAndAwait(adu, line, dest != 0);
      if status != OK || dest == 0 {
        port.End();
        return status, 0, [];
      }
      status, exception, resp := Assess(dest, req, rx);
      if |resp| > room {
        status, exception, resp := ERROR, 0, [];
      }
      port.End();
    }

    /** `modbus_master_read_holding_registers`. */
    method ReadHoldingRegisters(dest: byte, start: word, quantity: word, line: Line)
        returns (status: Status, exception: byte, regs: seq<word>)
      requires Valid()
      modifies port, crc, crc.low, crc.high
      modifies remote.comm, remote.comm.events, remote.comm.events.log, remote.crc, remote.crc.low, remote.crc.high
      modifies remote.tables.holding, remote.tables.input, remote.tables.coils, remote.tables.discrete
      modifies remote.tables.files, remote.tables.drivers
      ensures Valid() && (port.Idle() || unchanged(port))
      ensures line.Prompt() ==>
                (remote.View(), Call(status, exception, regs))
                == Master.ReadHoldingRegisters(old(remote.View()), dest, start, quantity, line.di)
    {
      hide RtuDevice.RtuServer.View, RtuDevice.RtuServer.Valid, Valid, Transact, ParseRegisters, ReadRequest;
      if quantity < 1 || quantity > 125 {
        return ERROR, 0, [];
      }
      var resp: seq<byte>;
      status, exception, resp := Transaction(dest, ReadRequest(Pdu.READ_HOLDING, start, quantity), line, MAX_ADU);
      if status != OK {
        return status, exception, [];
      }
      var parsed, past := ParseReadRegisters(resp, quantity);
      assert !past;
      if parsed.None? {
        return ERROR, 0, [];
      }
      exception, regs := 0, parsed.value;
    }

    /** `modbus_master_write_single_coil`. */
    method WriteSingleCoil(dest: byte, addr: word, on: bool, line: Line)
        returns (status: Status, exception: byte)
      requires Valid()
      modifies port, crc, crc.low, crc.high
      modifies remote.comm, remote.comm.events, remote.comm.events.log, remote.crc, remote.crc.low, remote.crc.high
      modifies remote.tables.holding, remote.tables.input, remote.tables.coils, remote.tables.discrete
      modifies remote.tables.files, remote.tables.drivers
      ensures Valid() && (port.Idle() || unchanged(port))
      ensures line.Prompt() ==>
                (remote.View(), Call(status, exception, ()))
                == Master.WriteSingleCoil(old(remote.View()), dest, addr, on, line.di)
    {
      hide RtuDevice.RtuServer.View, RtuDevice.RtuServer.Valid, Valid, Transact, WriteSingleRequest;
      var resp: seq<byte>;
      var req := WriteSingleRequest(Pdu.WRITE_COIL, addr, if on then 0xFF00 else 0);
      status, exception, resp := Transaction(dest, req, line, MAX_ADU);
      if status != OK {
        return;
      }
      exception := 0;
      if |resp| != 5 || resp[0] != Pdu.WRITE_COIL {
        status := ERROR;
      }
    }

    /** `modbus_master_write_single_register`. */
    method WriteSingleRegister(dest: byte, addr: word, value: word, line: Line)
        returns (status: Status, exception: byte)
      requires Valid()
      modifies port, crc, crc.low, crc.high
      modifies remote.comm, remote.comm.events, remote.comm.events.log, remote.crc, remote.crc.low, remote.crc.high
      modifies remote.tables.holding, remote.tables.input, remote.tables.coils, remote.tables.discrete
      modifies remote.tables.files, remote.tables.drivers
      ensures Valid() && (port.Idle() || unchanged(port))
      ensures line.Prompt() ==>
                (remote.View(), Call(status, exception, ()))
                == Master.WriteSingleRegister(old(remote.View()), dest, addr, value, line.di)
    {
      hide RtuDevice.RtuServer.View, RtuDevice.RtuServer.Valid, Valid, Transact, WriteSingleRequest;
      var resp: seq<byte>;
      status, exception, resp := Transaction(dest, WriteSingleRequest(Pdu.WRITE_REGISTER, addr, value), line, MAX_ADU);
      if status != OK {
        return;
      }
      exception := 0;
      if |resp| != 5 || resp[0] != Pdu.WRITE_REGISTER {
        status := ERROR;
      }
    }

    /** `modbus_master_write_multiple_registers`. */
    method WriteMultipleRegisters(dest: byte, start: word, regs: seq<word>, line: Line)
        returns (status: Status, exception: byte)
      requires Valid()
      modifies port, crc, crc.low, crc.high
      modifies remote.comm, remote.comm.events, remote.comm.events.log, remote.crc, remote.crc.low, remote.crc.high
      modifies remote.tables.holding, remote.tables.input, remote.tables.coils, remote.tables.discrete
      modifies remote.tables.files, remote.tables.drivers
      ensures Valid() && (port.Idle() || unchanged(port))
      ensures line.Prompt() ==>
                (remote.View(), Call(status, exception, ()))
                == Master.WriteMultipleRegisters(old(remote.View()), dest, start, regs, line.di)
    {
      hide RtuDevice.RtuServer.View, RtuDevice.RtuServer.Valid, Valid, Transact, WriteRegistersRequest;
      var req := BuildWriteRegisters(start, regs);
      if |req| == 0 {
        return ERROR, 0;
      }
      var resp: seq<byte>;
      status, exception, resp := Transaction(dest, req, line, MAX_ADU);
      if status != OK {
        return;
      }
      exception := 0;
      if |resp| != 5 || resp[0] != Pdu.WRITE_REGISTERS {
        status := ERROR;
      }
    }

    /** `modbus_master_read_coils` into a buffer of `room` bytes. */
    method ReadCoils(dest: byte, start: word, quantity: word, room: nat, line: Line)
        returns (status: Status, exception: byte, bits: seq<byte>)
      requires Valid()
      modifies port, crc, crc.low, crc.high
      modifies remote.comm, remote.comm.events, remote.comm.events.log, remote.crc, remote.crc.low, remote.crc.high
      modifies remote.tables.holding, remote.tables.input, remote.tables.coils, remote.tables.discrete
      modifies remote.tables.files, remote.tables.drivers
      ensures Valid() && (port.Idle() || unchanged(port))
      ensures line.Prompt() ==>
                (remote.View(), Call(status, exception, bits))
                == Master.ReadCoils(old(remote.View()), dest, start, quantity, room, line.di)
    {
      hide RtuDevice.RtuServer.View, RtuDevice.RtuServer.Valid, Valid, Transact, ParseBits, ReadRequest;
      var resp: seq<byte>;
      status, exception, resp := Transaction(dest, ReadRequest(Pdu.READ_COILS, start, quantity), line, MAX_ADU);
      if status != OK {
        return status, exception, [];
      }
      var parsed := ParseReadBits(resp, quantity, room);
      if parsed.None? {
        return ERROR, 0, [];
      }
      exception, bits := 0, parsed.value;
    }

    /** `modbus_master_write_multiple_coils`. */
    method WriteMultipleCoils(dest: byte, start: word, quantity: word, bits: seq<byte>, line: Line)
        returns (status: Status, exception: byte)
      requires Valid() && |bits| == (quantity + 7) / 8
      modifies port, crc, crc.low, crc.high
      modifies remote.comm, remote.comm.events, remote.comm.events.log, remote.crc, remote.crc.low, remote.crc.high
      modifies remote.tables.holding, remote.tables.input, remote.tables.coils, remote.tables.discrete
      modifies remote.tables.files, remote.tables.drivers
      ensures Valid() && (port.Idle() || unchanged(port))
      ensures line.Prompt() ==>
                (remote.View(), Call(status, exception, ()))
                == Master.WriteMultipleCoils(old(remote.View()), dest, start, quantity, bits, line.di)
    {
      hide RtuDevice.RtuServer.View, RtuDevice.RtuServer.Valid, Valid, Transact, WriteCoilsRequest;
      var req := BuildWriteCoils(start, quantity, bits);
      if |req| == 0 {
        return ERROR, 0;
      }
      var resp: seq<byte>;
      status, exception, resp := Transaction(dest, req, line, MAX_ADU);
      if status != OK {
        return;
      }
      exception := 0;
      if |resp| != 5 || resp[0] != Pdu.WRITE_COILS {
        status := ERROR;
      }
    }

    /** `modbus_master_read_file_record`. */
    method ReadFileRecord(dest: byte, file: word, record: word, length: word, line: Line)
        returns (status: Status, exception: byte, regs: seq<word>)
      requires Valid()
      modifies port, crc, crc.low, crc.high
      modifies remote.comm, remote.comm.events, remote.comm.events.log, remote.crc, remote.crc.low, remote.crc.high
      modifies remote.tables.holding, remote.tables.input, remote.tables.coils, remote.tables.discrete
      modifies remote.tables.files, remote.tables.drivers
      ensures Valid() && (port.Idle() || unchanged(port))
      ensures line.Prompt() ==>
                (remote.View(), Call(status, exception, regs))
                == Master.ReadFileRecord(old(remote.View()), dest, file, record, length, line.di)
    {
      hide RtuDevice.RtuServer.View, RtuDevice.RtuServer.Valid, Valid, Transact, ParseFileRecord, ReadFileRequest;
      var req := ReadFileRequest(file, record, length);
      if |req| == 0 {
        return ERROR, 0, [];
      }
      var resp: seq<byte>;
      status, exception, resp := Transaction(dest, req, line, MAX_ADU);
      if status != OK {
        return status, exception, [];
      }
      var parsed, past := ParseReadFile(resp, length);
      if parsed.None? {
        return ERROR, 0, [];
      }
      exception, regs := 0, parsed.value;
    }

    /** `modbus_master_write_file_record`: compares the answer with the request byte by byte. */
    method WriteFileRecord(dest: byte, file: word, record: word, regs: seq<word>, line: Line)
        returns (status: Status, exception: byte)
      requires Valid()
      modifies port, crc, crc.low, crc.high
      modifies remote.comm, remote.comm.events, remote.comm.events.log, remote.crc, remote.crc.low, remote.crc.high
      modifies remote.tables.holding, remote.tables.input, remote.tables.coils, remote.tables.discrete
      modifies remote.tables.files, remote.tables.drivers
      ensures Valid() && (port.Idle() || unchanged(port))
      ensures line.Prompt() ==>
                (remote.View(), Call(status, exception, ()))
                == Master.WriteFileRecord(old(remote.View()), dest, file, record, regs, line.di)
    {
      hide RtuDevice.RtuServer.View, RtuDevice.RtuServer.Valid, Valid, Transact, WriteFileRequest;
      var req := BuildWriteFile(file, record, regs);
      if |req| == 0 {
        return ERROR, 0;
      }
      var resp: seq<byte>;
      status, exception, resp := Transaction(dest, req, line, MAX_ADU);
      if status != OK {
        return;
      }
      exception := 0;
      var same := ParseEcho(resp, req);
      if !same {
        return ERROR, 0;
      }
    }
  }

  // ------------------------------------------------------------ one board, both roles

  /** The receive callback of main.c: a waiting master takes the frame, otherwise the slave answers it. */
  class Board {
    const port: Port
    const slave: RtuDevice.RtuServer

    constructor (slave: RtuDevice.RtuServer)
      requires slave.Valid()
      ensures this.slave == slave && port.Idle() && fresh(port)
    {
      this.slave := slave;
      port := new Port();
    }

    method OnReceive(data: seq<byte>, di: byte) returns (tx: seq<byte>)
      requires slave.Valid()
      modifies port
      modifies slave.comm, slave.comm.events, slave.comm.events.log, slave.crc, slave.crc.low, slave.crc.high
      modifies slave.tables.holding, slave.tables.input, slave.tables.coils, slave.tables.discrete
      modifies slave.tables.files, slave.tables.drivers
      ensures slave.Valid() && port.waiting == old(port.waiting)
      ensures port.waiting ==> tx == [] && slave.View() == old(slave.View())
      ensures port.waiting && |data| > 0 ==> port.frameReady && port.frame == data[..Min(|data|, MAX_ADU)]
      ensures !port.waiting ==>
                var turn := RtuSlave.Receive(old(slave.View()), data, di);
                slave.View() == turn.slave && tx == turn.tx && unchanged(port)
    {
      hide RtuDevice.RtuServer.View, RtuDevice.RtuServer.Valid, RtuSlave.Receive;
      if port.waiting {
        port.OnFrame(data);
        return [];
      }
      var status: Status;
      status, tx := slave.Receive(data, di);
    }
  }
}
