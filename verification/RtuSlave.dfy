/** `modbus_rtu_process`: one frame off the serial line against the whole slave. */
module RtuSlave {
  import opened Bytes
  import opened CrcLoop
  import opened SlaveTables
  import opened Pdu
  import Comm

  const SERVER_ID: byte := 0x11
  const MAX_ADU := 256

  datatype Status = OK | ERROR | EXCEPTION | CRC_ERROR | TIMEOUT

  datatype Slave = Slave(id: byte, tables: Tables, comm: Comm.State) {
    predicate Valid() {
      tables.Valid() && comm.Valid()
    }
  }

  /** What one frame comes to: the slave after it, the status, and the ADU to transmit (empty for none). */
  datatype Turn = Turn(slave: Slave, status: Status, tx: seq<byte>)

  /** "STM32-Automation-Board". */
  const SERVER_NAME: seq<byte> :=
    [0x53, 0x54, 0x4D, 0x33, 0x32, 0x2D, 0x41, 0x75, 0x74, 0x6F, 0x6D, 0x61, 0x74, 0x69, 0x6F, 0x6E, 0x2D,
     0x42, 0x6F, 0x61, 0x72, 0x64]

  function ServerId(req: seq<byte>): (pdu: seq<byte>) {
    if |req| != 1 then Exception(SERVER_ID, ILLEGAL_VALUE)
    else [SERVER_ID, 23] + SERVER_NAME + [0xFF]
  }

  /** A frame of legal length with a good CRC. */
  predicate Intact(rx: seq<byte>) {
    4 <= |rx| <= MAX_ADU && CrcOk(rx)
  }

  predicate AddressedTo(id: byte, rx: seq<byte>) {
    Intact(rx) && (rx[0] == id || rx[0] == 0)
  }

  function RequestOf(rx: seq<byte>): (req: seq<byte>)
    requires |rx| >= 4
    ensures |req| == |rx| - 3
  {
    rx[1..|rx| - 2]
  }

  predicate IsFetch(fc: byte) {
    fc == Comm.EVENT_COUNTER || fc == Comm.EVENT_LOG
  }

  /** The diagnostics requests after which the event counter is not incremented. */
  predicate ResetsEvents(req: seq<byte>)
    requires |req| >= 1
  {
    req[0] == Comm.DIAGNOSTICS && |req| >= 3 && Be16(req[1], req[2]) in {Comm.RESTART, Comm.CLEAR_COUNTERS}
  }

  /** The request handed to whoever owns its function code. */
  function Dispatch(s: Slave, req: seq<byte>, broadcast: bool, di: byte): (r: (Slave, Reply))
    requires s.Valid() && |req| >= 1
    ensures r.0.Valid() && r.0.id == s.id
  {
    var fc := req[0];
    if fc == Comm.DIAGNOSTICS then
      var (comm, reply) := Comm.DiagProcess(s.comm, req, broadcast);
      (s.(comm := comm), reply)
    else if s.comm.diag.listenOnly then (s, Comm.SILENCE)
    else if IsFetch(fc) then (s, Comm.EventProcess(s.comm, req, broadcast))
    else if fc == SERVER_ID then (s, if broadcast then Comm.SILENCE else Reply(ServerId(req), true))
    else
      var (tables, reply) := Process(s.tables, req, broadcast, di);
      (s.(tables := tables), reply)
  }

  predicate RaisesException(reply: Reply) {
    |reply.built| > 0 && reply.built[0] >= 128
  }

  /** The bookkeeping after the request: result counters, send event, event counter. */
  function Account(c: Comm.State, req: seq<byte>, broadcast: bool, reply: Reply): (r: Comm.State)
    requires c.Valid() && |req| >= 1 && (RaisesException(reply) ==> |reply.built| >= 2)
    ensures r.Valid() && r.diag.listenOnly == c.diag.listenOnly
  {
    var responded, exception := reply.Responded(), RaisesException(reply);
    var diag := Comm.NoteResult(c.diag, responded, responded && exception);
    var logged := if !IsFetch(req[0]) && responded
                  then Comm.Push(c.events, Comm.SendEvent(if exception then reply.built[1] else 0))
                  else c.events;
    var executed := broadcast && |reply.built| > 0 && reply.built[0] != 0;
    var success := !IsFetch(req[0]) && !exception && !ResetsEvents(req) && !diag.listenOnly && (responded || executed);
    Comm.State(diag, if success then logged.(counter := Inc16(logged.counter)) else logged)
  }

  function Heard(s: Slave): Slave {
    s.(comm := s.comm.(diag := s.comm.diag.(bus := Inc16(s.comm.diag.bus))))
  }

  function Taken(s: Slave): Slave {
    s.(comm := s.comm.(diag := s.comm.diag.(slaveMessages := Inc16(s.comm.diag.slaveMessages))))
  }

  lemma DispatchShape(s: Slave, req: seq<byte>, broadcast: bool, di: byte)
    requires s.Valid() && 1 <= |req| <= 253
    ensures var reply := Dispatch(s, req, broadcast, di).1;
            && (RaisesException(reply) ==> |reply.built| >= 2)
            && (reply.sent ==> 2 <= |reply.built| <= 253)
  {
    hide Comm.SendEvent, Execute;
    EveryReplyWellFormed(s.tables, req, di);
  }

  function Answer(id: byte, pdu: seq<byte>): (adu: seq<byte>)
    ensures |adu| == |pdu| + 3
  {
    Seal([id] + pdu)
  }

  /** One frame. */
  function Receive(s: Slave, rx: seq<byte>, di: byte): (t: Turn)
    requires s.Valid()
    ensures t.slave.Valid() && t.slave.id == s.id && |t.tx| <= MAX_ADU
  {
    if |rx| < 4 || |rx| > MAX_ADU then Turn(s, ERROR, [])
    else if !CrcOk(rx) then Turn(s.(comm := Comm.NoteCommError(s.comm)), CRC_ERROR, [])
    else if !AddressedTo(s.id, rx) then Turn(Heard(s), OK, [])
    else
      var req, broadcast := RequestOf(rx), rx[0] == 0;
      var (after, reply) := Dispatch(Taken(Heard(s)), req, broadcast, di);
      DispatchShape(Taken(Heard(s)), req, broadcast, di);
      var done := after.(comm := Account(after.comm, req, broadcast, reply));
      if !reply.Responded() then Turn(done, OK, [])
      else if |reply.built| > 253 then Turn(done, ERROR, [])
      else Turn(done, OK, Answer(s.id, reply.built))
  }
}
