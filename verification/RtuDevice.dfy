/** The serial slave as it runs: `modbus_rtu_init` and `modbus_rtu_process` over the state the other parts own. */
module RtuDevice {
  import opened Bytes
  import opened SlaveTables
  import opened CrcLoop
  import Pdu
  import Comm
  import opened RtuSlave
  import SlaveDevice
  import CommDevice

  class RtuServer {
    const id: byte
    const tables: SlaveDevice.DataTables
    const comm: CommDevice.Diagnostics
    const crc: CrcTables

    ghost predicate Valid()
      reads comm, comm.events, tables.fifoLen, tables.drivers, crc, crc.low, crc.high
    {
      && tables.Valid() && comm.Valid() && crc.Valid()
      && comm.events.log != tables.coils && comm.events.log != tables.discrete
      && var stores: set<object> := {tables.holding, tables.input, tables.coils, tables.discrete, tables.files,
                                     tables.fifos, tables.fifoLen, comm.events.log};
         crc.low !in stores && crc.high !in stores
    }

    ghost function View(): (s: Slave)
      requires Valid()
      reads comm, comm.events, comm.events.log, crc, crc.low, crc.high
      reads tables.holding, tables.input, tables.coils, tables.discrete, tables.files, tables.fifos, tables.fifoLen
      reads tables.drivers
      ensures s.Valid() && s.id == id
    {
      Slave(id, tables.View(), comm.View())
    }

    /** `modbus_rtu_init`. */
    constructor (slaveId: byte)
      ensures Valid() && View() == Slave(slaveId, ZeroTables(), Comm.FRESH)
      ensures fresh(tables) && fresh(comm) && fresh(comm.events) && fresh(comm.events.log)
      ensures fresh(crc) && fresh(crc.low) && fresh(crc.high)
      ensures fresh(tables.holding) && fresh(tables.input) && fresh(tables.coils) && fresh(tables.discrete)
      ensures fresh(tables.files) && fresh(tables.fifos) && fresh(tables.fifoLen) && fresh(tables.drivers)
    {
      hide SlaveDevice.DataTables.View, SlaveDevice.DataTables.Valid, CommDevice.Diagnostics.View, CrcTables.Valid;
      id := slaveId;
      tables := new SlaveDevice.DataTables();
      comm := new CommDevice.Diagnostics();
      crc := new CrcTables();
      new;
      crc.InitTables();
    }

    /** The request goes to whoever owns its function code. */
    method Dispatch(req: seq<byte>, broadcast: bool, di: byte) returns (reply: Pdu.Reply)
      requires Valid() && |req| >= 1
      modifies comm, comm.events, comm.events.log
      modifies tables.holding, tables.input, tables.coils, tables.discrete, tables.files, tables.drivers
      ensures Valid() && (View(), reply) == RtuSlave.Dispatch(old(View()), req, broadcast, di)
    {
      hide SlaveDevice.DataTables.View, CommDevice.EventLog.View, Comm.DiagProcess, Comm.EventProcess, Pdu.Process;
      if req[0] == Comm.DIAGNOSTICS {
        reply := comm.Process(req, broadcast);
      } else if IsFetch(req[0]) {
        if comm.listenOnly {
          return Comm.SILENCE;
        }
        reply := comm.events.Process(req, broadcast, comm.slaveMessages);
      } else if req[0] == SERVER_ID {
        if comm.listenOnly || broadcast {
          return Comm.SILENCE;
        }
        reply := Pdu.Reply(ServerId(req), true);
      } else if comm.listenOnly {
        return Comm.SILENCE;
      } else {
        reply := tables.Process(req, broadcast, di);
      }
    }

    /** The bookkeeping after the request. */
    method Account(req: seq<byte>, broadcast: bool, reply: Pdu.Reply)
      requires Valid() && |req| >= 1 && (RaisesException(reply) ==> |reply.built| >= 2)
      modifies comm, comm.events, comm.events.log
      ensures Valid()
      ensures View() == old(View()).(comm := RtuSlave.Account(old(View()).comm, req, broadcast, reply))
    {
      hide SlaveDevice.DataTables.View, CommDevice.EventLog.View, Comm.Push, Comm.SendEvent;
      var responded := reply.Responded();
      var exception := RaisesException(reply);
      comm.NoteResult(responded, responded && exception);
      if !IsFetch(req[0]) && responded {
        comm.events.NoteTx(if exception then reply.built[1] else 0);
      }
      var executed := broadcast && |reply.built| > 0 && reply.built[0] != 0;
      if !IsFetch(req[0]) && !exception && !ResetsEvents(req) && !comm.listenOnly && (responded || executed) {
        comm.events.NoteSuccess();
      }
    }

    /** The address, the PDU copied byte by byte, and the CRC, low byte first. */
    method Answer(pdu: seq<byte>) returns (tx: seq<byte>)
      requires Valid()
      modifies crc, crc.low, crc.high
      ensures Valid() && tx == RtuSlave.Answer(id, pdu) && View() == old(View())
    {
      hide SlaveDevice.DataTables.View, CommDevice.Diagnostics.View, Crc16;
      tx := [id];
      for i := 0 to |pdu|
        invariant tx == [id] + pdu[..i]
      {
        tx := tx + [pdu[i]];
      }
      assert pdu[..|pdu|] == pdu;
      var sum := crc.Compute(tx);
      tx := tx + [Lo(sum), Hi(sum)];
    }

    /** Dispatch and bookkeeping of one request that is addressed to the slave. */
    method Handle(req: seq<byte>, broadcast: bool, di: byte) returns (reply: Pdu.Reply)
      requires Valid() && 1 <= |req| <= 253
      modifies comm, comm.events, comm.events.log
      modifies tables.holding, tables.input, tables.coils, tables.discrete, tables.files, tables.drivers
      ensures Valid()
      ensures var (after, r) := RtuSlave.Dispatch(old(View()), req, broadcast, di);
              && reply == r && (RaisesException(r) ==> |r.built| >= 2) && (r.sent ==> 2 <= |r.built| <= 253)
              && View() == after.(comm := RtuSlave.Account(after.comm, req, broadcast, r))
    {
      hide View, RtuSlave.Dispatch, RtuSlave.Account;
      DispatchShape(View(), req, broadcast, di);
      reply := Dispatch(req, broadcast, di);
      Account(req, broadcast, reply);
    }

    /** `modbus_rtu_process`. */
    method Receive(rx: seq<byte>, di: byte) returns (status: Status, tx: seq<byte>)
      requires Valid()
      modifies comm, comm.events, comm.events.log, crc, crc.low, crc.high
      modifies tables.holding, tables.input, tables.coils, tables.discrete, tables.files, tables.drivers
      ensures Valid() && Turn(View(), status, tx) == RtuSlave.Receive(old(View()), rx, di)
    {
      hide SlaveDevice.DataTables.View, SlaveDevice.DataTables.Valid, CommDevice.EventLog.View, Comm.NoteCommError;
      hide CrcTables.Valid, Crc16, Be16, RtuSlave.Dispatch, RtuSlave.Account, RtuSlave.Answer;
      tx := [];
      if |rx| < 4 || |rx| > MAX_ADU {
        return ERROR, [];
      }
      var sum := crc.Compute(rx[..|rx| - 2]);
      if Be16(rx[|rx| - 1], rx[|rx| - 2]) != sum {
        comm.NoteCommError();
        return CRC_ERROR, [];
      }
      comm.NoteBusMessage();
      if rx[0] != id && rx[0] != 0 {
        return OK, [];
      }
      comm.NoteSlaveMessage();
      var req := rx[1..|rx| - 2];
      var broadcast := rx[0] == 0;
      var reply := Handle(req, broadcast, di);
      if !reply.Responded() {
        return OK, [];
      }
      if |reply.built| > 253 {
        return ERROR, [];
      }
      tx := Answer(reply.built);
      status := OK;
    }
  }
}
