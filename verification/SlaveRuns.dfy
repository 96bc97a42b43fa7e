/** The slave over whole runs of line events: message accounting, the event log, listen-only mode. */
module SlaveRuns {
  import opened Bytes
  import opened CrcLoop
  import opened SlaveTables
  import opened Pdu
  import opened RtuSlave
  import FileRecords
  import Comm

  /** What the serial port hands to the slave: a frame (with the board inputs of that moment) or an overrun. */
  datatype Input = Frame(rx: seq<byte>, di: byte) | Overrun

  function Step(s: Slave, i: Input): (t: Turn)
    requires s.Valid()
    ensures t.slave.Valid()
  {
    match i
    case Frame(rx, di) => Receive(s, rx, di)
    case Overrun => Turn(s.(comm := Comm.NoteOverrun(s.comm)), OK, [])
  }

  // ------------------------------------------------------------ what an observer of the line can tell

  predicate IsDiag(req: seq<byte>, sub: word) {
    |req| >= 5 && req[0] == 0x08 && Be16(req[1], req[2]) == sub
  }

  function DiagData(req: seq<byte>): word
    requires |req| >= 5
  {
    Be16(req[3], req[4])
  }

  predicate Restarts(req: seq<byte>) {
    IsDiag(req, 0x01) && DiagData(req) in {0, 0xFF00}
  }

  /** A request that clears the counters, given whether the slave is in listen-only mode. */
  predicate Clears(req: seq<byte>, listening: bool) {
    Restarts(req) || (!listening && IsDiag(req, 0x0A) && DiagData(req) == 0)
  }

  predicate Silences(req: seq<byte>, listening: bool) {
    !listening && IsDiag(req, 0x04) && DiagData(req) == 0
  }

  /** FC 0x08 sub 0x14, which resets the overrun counter alone. */
  predicate ClearsOverruns(req: seq<byte>, listening: bool, broadcast: bool) {
    !listening && !broadcast && IsDiag(req, 0x14) && DiagData(req) == 0
  }

  /** What the traffic so far amounts to: the mode it has put the slave in, unbounded counts since the last clear,
      and the whole history of events since the last log clear. */
  datatype Tally = Tally(
    listening: bool,
    bus: nat,
    addressed: nat,
    normal: nat,
    exceptions: nat,
    silent: nat,
    completed: nat,
    cleared: bool,
    damaged: nat,
    overruns: nat,
    history: seq<byte>)

  const POWER_UP: Tally := Tally(false, 0, 0, 0, 0, 0, 0, false, 0, 0, [0x00])

  /** A write function that goes through on broadcast. */
  predicate CarriedOut(t: Tables, req: seq<byte>, di: byte)
    requires t.Valid() && |req| >= 1
  {
    Broadcastable(req[0]) && Execute(t, req, di).1[0] < 128
  }

  /** Whether a broadcast goes through depends on the request alone, so an observer can tell. */
  predicate BroadcastDone(req: seq<byte>)
    requires |req| >= 1
  {
    CarriedOut(ZeroTables(), req, 0)
  }

  lemma {:induction false} SameFault(files: Files, others: Files, body: seq<byte>)
    requires FilesValid(files) && FilesValid(others)
    ensures FileRecords.WriteRecords(files, body).1 == FileRecords.WriteRecords(others, body).1
    decreases |body|
  {
    hide FileRecords.StoreRecord, FileRecords.ParseHeader, FileRecords.Header.Fault, BytesWords;
    if |body| >= 7 {
      var h := FileRecords.ParseHeader(body);
      if h.Fault().None? && 7 + 2 * h.length <= |body| {
        var data := BytesWords(body[7..7 + 2 * h.length]);
        SameFault(FileRecords.StoreRecord(files, h, data), FileRecords.StoreRecord(others, h, data),
                  body[7 + 2 * h.length..]);
      }
    }
  }

  lemma AnyTablesTell(t: Tables, req: seq<byte>, di: byte)
    requires t.Valid() && |req| >= 1
    ensures CarriedOut(t, req, di) == BroadcastDone(req)
  {
    hide Sync, FileRecords.WriteRecords, WordBytes, BytesWords, UnpackBits, Masked;
    if |req| >= 2 {
      SameFault(t.files, ZeroTables().files, req[2..]);
    }
  }

  /** FC 0x0B and 0x0C, which ask for the event counter and the log. */
  predicate Fetches(fc: byte) {
    fc == 0x0B || fc == 0x0C
  }

  /** FC 0x08 sub 0x01 and 0x0A, whatever their data. */
  predicate ResetsCounter(req: seq<byte>)
    requires |req| >= 1
  {
    req[0] == 0x08 && |req| >= 3 && req[1] == 0 && (req[2] == 0x01 || req[2] == 0x0A)
  }

  /** The log byte of a transmission: bit 6, with bit 0 for the exceptions 1 to 3, bit 1 for 4, bit 2 for 5 and 6, bit 3
      for 7. */
  function SentByte(code: byte): byte {
    0x40 + (if code in {1, 2, 3} then 0x01 else if code == 4 then 0x02 else if code in {5, 6} then 0x04
            else if code == 7 then 0x08 else 0)
  }

  /** The log byte of a reception that failed: bits 7 and 1, with bit 4 for an overrun and bit 5 in listen-only mode. */
  function ErrorByte(listening: bool, overrun: bool): byte {
    0x80 + 0x02 + (if overrun then 0x10 else 0) + (if listening then 0x20 else 0)
  }

  /** A successful message completion: a normal answer or a broadcast carried out, outside the fetch and
      counter-resetting commands. */
  predicate Completes(listening: bool, rx: seq<byte>, tx: seq<byte>)
    requires |rx| >= 4
  {
    var req := RequestOf(rx);
    && !Fetches(req[0]) && !ResetsCounter(req)
    && if rx[0] == 0
       then (|tx| == 0 && !listening && BroadcastDone(req))
       else (|tx| >= 2 && tx[1] < 128)
  }

  /** The history once the request itself has left its mark; a restart with data FF00 wipes it first. */
  function Marked(history: seq<byte>, req: seq<byte>, listening: bool): seq<byte> {
    if Restarts(req) then
      if DiagData(req) == 0xFF00 then [0x00] else [0x00] + history
    else if Silences(req, listening) then [0x04] + history
    else history
  }

  /** The events of one addressed frame: the request's own mark, then the send event of the answer. */
  function Recorded(history: seq<byte>, req: seq<byte>, listening: bool, tx: seq<byte>): seq<byte>
    requires |req| >= 1
  {
    var own := Marked(history, req, listening);
    if |tx| < 3 || Fetches(req[0]) then own
    else [SentByte(if tx[1] < 128 then 0 else tx[2])] + own
  }

  function Since(clears: bool, n: nat): nat {
    if clears then 0 else n
  }

  /** The tally after an addressed frame: a clear starts it over, but still counts the clearing frame's outcome. */
  function ObserveAddressed(t: Tally, rx: seq<byte>, tx: seq<byte>): Tally
    requires |rx| >= 4
  {
    var req, listening := RequestOf(rx), t.listening;
    var clears := Clears(req, listening);
    Tally(if Restarts(req) then false else listening || Silences(req, listening),
          if clears then 0 else t.bus + 1,
          if clears then 0 else t.addressed + 1,
          Since(clears, t.normal) + (if |tx| >= 2 && tx[1] < 128 then 1 else 0),
          Since(clears, t.exceptions) + (if |tx| >= 2 && tx[1] >= 128 then 1 else 0),
          Since(clears, t.silent) + (if |tx| < 2 then 1 else 0),
          Since(clears, t.completed) + (if Completes(listening, rx, tx) then 1 else 0),
          clears || t.cleared,
          Since(clears, t.damaged),
          Since(clears || ClearsOverruns(req, listening, rx[0] == 0), t.overruns),
          Recorded(t.history, req, listening, tx))
  }

  /** The tally after one input and the transmission it drew from the slave with address `id`. */
  function Observe(t: Tally, id: byte, i: Input, tx: seq<byte>): Tally {
    match i
    case Overrun =>
      t.(damaged := t.damaged + 1, overruns := t.overruns + 1,
         history := [ErrorByte(t.listening, true)] + t.history)
    case Frame(rx, _) =>
      if |rx| < 4 || |rx| > MAX_ADU then t
      else if !CrcOk(rx) then
        t.(damaged := t.damaged + 1, history := [ErrorByte(t.listening, false)] + t.history)
      else if !AddressedTo(id, rx) then t.(bus := t.bus + 1)
      else ObserveAddressed(t, rx, tx)
  }

  function Wrap(n: nat): word {
    n % 65536
  }

  /** The slave's 16-bit counters and 64-byte log tell what the tally knows. */
  predicate Agrees(s: Slave, t: Tally) {
    var d, e := s.comm.diag, s.comm.events;
    && d.listenOnly == t.listening && d.overruns == Wrap(t.overruns)
    && d.bus == Wrap(t.bus) && d.slaveMessages == Wrap(t.addressed)
    && d.exceptions == Wrap(t.exceptions) && d.noResponses == Wrap(t.silent) && d.commErrors == Wrap(t.damaged)
    && e.counter == Wrap(t.completed)
    && e.log == Comm.Newest(t.history)
  }

  /** Every addressed message has exactly one outcome; after a clear the clearing message's own outcome is
      still counted. */
  predicate Balanced(t: Tally) {
    && t.normal + t.exceptions + t.silent == t.addressed + (if t.cleared then 1 else 0)
    && t.bus >= t.addressed >= t.completed
  }

  function Run(s: Slave, inputs: seq<Input>): (r: Slave)
    requires s.Valid()
    ensures r.Valid()
    decreases |inputs|
  {
    if |inputs| == 0 then s else Run(Step(s, inputs[0]).slave, inputs[1..])
  }

  function Transmissions(s: Slave, inputs: seq<Input>): (txs: seq<seq<byte>>)
    requires s.Valid()
    ensures |txs| == |inputs|
    decreases |inputs|
  {
    if |inputs| == 0 then []
    else [Step(s, inputs[0]).tx] + Transmissions(Step(s, inputs[0]).slave, inputs[1..])
  }

  /** The observer's tally of a run, from what goes over the line in both directions. */
  function Watch(t: Tally, id: byte, inputs: seq<Input>, txs: seq<seq<byte>>): Tally
    requires |txs| == |inputs|
    decreases |inputs|
  {
    if |inputs| == 0 then t
    else Watch(Observe(t, id, inputs[0], txs[0]), id, inputs[1..], txs[1..])
  }

  lemma NextCount(n: nat)
    ensures Inc16(Wrap(n)) == Wrap(n + 1)
    ensures Wrap(0) == 0
  {
  }

  lemma CompletedAtMostOnce(t: Tally, id: byte, i: Input, tx: seq<byte>)
    requires Balanced(t)
    ensures Balanced(Observe(t, id, i, tx))
  {
    hide CrcOk, Completes, Recorded, Clears;
    if i.Frame? && AddressedTo(id, i.rx) && Clears(RequestOf(i.rx), t.listening) {
      ClearingNeverCompletes(t.listening, i.rx, tx);
    }
  }

  lemma ClearingNeverCompletes(listening: bool, rx: seq<byte>, tx: seq<byte>)
    requires |rx| >= 4 && Clears(RequestOf(rx), listening)
    ensures !Completes(listening, rx, tx)
  {
  }

  // ------------------------------------------------------------ one addressed frame, taken apart

  /** The handler's effect on the counters and the log. */
  lemma DispatchComm(s: Slave, req: seq<byte>, broadcast: bool, di: byte)
    requires s.Valid() && 1 <= |req| <= 253
    ensures var c, u := s.comm, Dispatch(s, req, broadcast, di).0.comm;
            var listening := c.diag.listenOnly;
            && (Clears(req, listening) ==>
                  u.diag.bus == u.diag.slaveMessages == u.diag.exceptions == u.diag.noResponses == 0
                  && u.diag.commErrors == u.diag.overruns == 0
                  && u.events.counter == 0)
            && (!Clears(req, listening) ==>
                  u.diag.bus == c.diag.bus && u.diag.slaveMessages == c.diag.slaveMessages
                  && u.diag.exceptions == c.diag.exceptions && u.diag.noResponses == c.diag.noResponses
                  && u.diag.commErrors == c.diag.commErrors
                  && u.events.counter == c.events.counter)
            && u.events.log == (if Restarts(req) then Comm.NoteRestart(c.events, DiagData(req) == 0xFF00).log
                                else if Silences(req, listening) then Comm.Push(c.events, Comm.LISTEN_EVENT).log
                                else c.events.log)
            && u.diag.overruns == (if Clears(req, listening) || ClearsOverruns(req, listening, broadcast) then 0
                                   else c.diag.overruns)
            && u.diag.listenOnly == (if Restarts(req) then false else listening || Silences(req, listening))
  {
    hide Comm.Newest, Comm.EventProcess, Process, Comm.DiagWord, ServerId;
  }

  /** The reply as it shows on the line. */
  lemma AnswerShows(id: byte, pdu: seq<byte>)
    requires |pdu| >= 2
    ensures var tx := Answer(id, pdu); |tx| == |pdu| + 3 && tx[0] == id && tx[1] == pdu[0] && tx[2] == pdu[1]
  {
    hide Crc16;
  }

  lemma ReceiveAddressed(s: Slave, rx: seq<byte>, di: byte)
    requires s.Valid() && AddressedTo(s.id, rx)
    ensures var req, broadcast := RequestOf(rx), rx[0] == 0;
            var (after, reply) := Dispatch(Taken(Heard(s)), req, broadcast, di);
            && (RaisesException(reply) ==> |reply.built| >= 2)
            && (reply.Responded() ==> 2 <= |reply.built| <= 253)
            && Receive(s, rx, di)
               == Turn(after.(comm := Account(after.comm, req, broadcast, reply)), OK,
                       if reply.Responded() then Answer(s.id, reply.built) else [])
  {
    hide Account, Dispatch, CrcOk, Answer;
    DispatchShape(Taken(Heard(s)), RequestOf(rx), rx[0] == 0, di);
  }

  /** The completion test of the code is the one an observer makes. */
  lemma SuccessShows(s: Slave, req: seq<byte>, broadcast: bool, di: byte)
    requires s.Valid() && 1 <= |req| <= 253
    ensures var (after, reply) := Dispatch(s, req, broadcast, di);
            var listening := s.comm.diag.listenOnly;
            && (!broadcast && reply.Responded() && !RaisesException(reply) && !ResetsEvents(req)
                ==> !after.comm.diag.listenOnly)
            && (broadcast && reply.Responded() ==> RaisesException(reply))
            && (broadcast && |reply.built| > 0 && !RaisesException(reply) ==>
                  !reply.sent && reply.built[0] != 0 && !after.comm.diag.listenOnly && !listening
                  && BroadcastDone(req))
            && (broadcast && !listening && BroadcastDone(req) ==>
                  |reply.built| > 0 && !RaisesException(reply) && !after.comm.diag.listenOnly && reply.built[0] != 0)
  {
    AnyTablesTell(s.tables, req, di);
    hide Comm.Push, Comm.NoteRestart, Execute, Comm.DiagWord, BroadcastDone;
    EveryReplyWellFormed(s.tables, req, di);
  }

  lemma LogBytes(code: byte, listening: bool, overrun: bool)
    ensures SentByte(code) == Comm.SendEvent(code)
    ensures ErrorByte(listening, overrun) == Comm.ReceiveErrorEvent(listening, overrun)
  {
  }

  lemma SameResets(req: seq<byte>)
    requires |req| >= 1
    ensures ResetsCounter(req) == ResetsEvents(req)
  {
  }

  lemma LogGrows(e: Comm.Events, history: seq<byte>, event: byte)
    requires e.log == Comm.Newest(history)
    ensures Comm.Push(e, event).log == Comm.Newest([event] + history)
    ensures Comm.Push(e, event).counter == e.counter
    ensures Comm.NoteRestart(e, false).log == Comm.Newest([Comm.RESTART_EVENT] + history)
    ensures Comm.NoteRestart(e, true).log == Comm.Newest([Comm.RESTART_EVENT])
  {
    Comm.NewestOfPush(history, event);
    Comm.NewestOfPush(history, Comm.RESTART_EVENT);
    assert [Comm.RESTART_EVENT] + [] == [Comm.RESTART_EVENT];
  }

  /** The log after one addressed frame. */
  lemma AddressedLog(t: Tally, s: Slave, rx: seq<byte>, di: byte)
    requires s.Valid() && Agrees(s, t) && AddressedTo(s.id, rx)
    ensures var turn := Receive(s, rx, di);
            turn.slave.comm.events.log
            == Comm.Newest(Recorded(t.history, RequestOf(rx), s.comm.diag.listenOnly, turn.tx))
  {
    hide Comm.Push, Comm.NoteRestart, Comm.Newest, CrcOk, Receive, Dispatch, Answer, Comm.SendEvent, SentByte;
    hide Clears, Comm.NoteResult, ResetsEvents;
    var req, listening := RequestOf(rx), s.comm.diag.listenOnly;
    var c := Taken(Heard(s));
    var (after, reply) := Dispatch(c, req, rx[0] == 0, di);
    ReceiveAddressed(s, rx, di);
    DispatchComm(c, req, rx[0] == 0, di);
    var base := Marked(t.history, req, listening);
    LogGrows(c.comm.events, t.history, Comm.LISTEN_EVENT);
    assert after.comm.events.log == Comm.Newest(base);
    if reply.Responded() {
      AnswerShows(s.id, reply.built);
      var code := if RaisesException(reply) then reply.built[1] else 0;
      LogBytes(code, listening, false);
      LogGrows(after.comm.events, base, Comm.SendEvent(code));
    }
  }

  /** The event counter moves exactly when the observer sees a completion. */
  lemma AddressedCompletes(s: Slave, rx: seq<byte>, di: byte)
    requires s.Valid() && AddressedTo(s.id, rx)
    ensures var turn := Receive(s, rx, di);
            var before := if Clears(RequestOf(rx), s.comm.diag.listenOnly) then 0 else s.comm.events.counter;
            turn.slave.comm.events.counter
            == if Completes(s.comm.diag.listenOnly, rx, turn.tx) then Inc16(before) else before
  {
    hide Comm.NoteRestart, Comm.Newest, CrcOk, Receive, Dispatch, Execute, Answer, Comm.SendEvent, Clears, Inc16;
    hide Restarts, Silences, ResetsEvents, ResetsCounter, BroadcastDone, ClearsOverruns;
    var req, broadcast := RequestOf(rx), rx[0] == 0;
    SameResets(req);
    var c := Taken(Heard(s));
    ReceiveAddressed(s, rx, di);
    DispatchComm(c, req, broadcast, di);
    SuccessShows(c, req, broadcast, di);
    var reply := Dispatch(c, req, broadcast, di).1;
    if reply.Responded() {
      AnswerShows(s.id, reply.built);
    }
  }

  /** The message counters after one addressed frame, from what shows on the line. */
  lemma AddressedCounts(s: Slave, rx: seq<byte>, di: byte)
    requires s.Valid() && AddressedTo(s.id, rx)
    ensures var turn := Receive(s, rx, di);
            var clears := Clears(RequestOf(rx), s.comm.diag.listenOnly);
            var d, e := s.comm.diag, turn.slave.comm.diag;
            && e.bus == (if clears then 0 else Inc16(d.bus))
            && e.commErrors == (if clears then 0 else d.commErrors)
            && e.overruns
               == (if clears || ClearsOverruns(RequestOf(rx), d.listenOnly, rx[0] == 0) then 0 else d.overruns)
            && e.listenOnly == (if Restarts(RequestOf(rx)) then false
                                else d.listenOnly || Silences(RequestOf(rx), d.listenOnly))
            && e.slaveMessages == (if clears then 0 else Inc16(d.slaveMessages))
            && e.noResponses == (var n := if clears then 0 else d.noResponses; if |turn.tx| < 2 then Inc16(n) else n)
            && e.exceptions
               == (var n := if clears then 0 else d.exceptions;
                   if |turn.tx| >= 2 && turn.tx[1] >= 128 then Inc16(n) else n)
  {
    hide Comm.Push, Comm.NoteRestart, Comm.Newest, CrcOk, Receive, Dispatch, Answer, Comm.SendEvent, Inc16;
    hide Clears, Restarts, Silences, ResetsEvents, BroadcastDone, ClearsOverruns;
    var req, broadcast := RequestOf(rx), rx[0] == 0;
    var c := Taken(Heard(s));
    ReceiveAddressed(s, rx, di);
    DispatchComm(c, req, broadcast, di);
    var reply := Dispatch(c, req, broadcast, di).1;
    if reply.Responded() {
      AnswerShows(s.id, reply.built);
    }
  }

  /** One counter kept modulo 2^16 follows its unbounded count through a clear and an increment. */
  lemma CountFollows(n: nat, clears: bool, hit: bool)
    ensures Wrap(Since(clears, n) + if hit then 1 else 0)
            == (var m := if clears then 0 else Wrap(n); if hit then Inc16(m) else m)
  {
    NextCount(Since(clears, n));
  }

  lemma AddressedSize(id: byte, rx: seq<byte>)
    requires AddressedTo(id, rx)
    ensures 4 <= |rx| <= MAX_ADU
  {
  }

  lemma AddressedAgrees(t: Tally, s: Slave, rx: seq<byte>, di: byte)
    requires s.Valid() && Agrees(s, t) && AddressedTo(s.id, rx)
    ensures |rx| >= 4
    ensures var turn := Receive(s, rx, di);
            Agrees(turn.slave, ObserveAddressed(t, rx, turn.tx))
  {
    hide CrcOk, Receive, Inc16, Wrap, Clears, Completes, Recorded, Comm.Newest, RequestOf, AddressedTo, Since;
    hide ClearsOverruns, Restarts, Silences;
    AddressedSize(s.id, rx);
    AddressedLog(t, s, rx, di);
    AddressedCompletes(s, rx, di);
    AddressedCounts(s, rx, di);
    var tx := Receive(s, rx, di).tx;
    var clears := Clears(RequestOf(rx), s.comm.diag.listenOnly);
    CountFollows(t.damaged, clears, false);
    CountFollows(t.overruns, clears || ClearsOverruns(RequestOf(rx), t.listening, rx[0] == 0), false);
    CountFollows(t.exceptions, clears, |tx| >= 2 && tx[1] >= 128);
    CountFollows(t.silent, clears, |tx| < 2);
    CountFollows(t.completed, clears, Completes(t.listening, rx, tx));
    NextCount(t.bus);
    NextCount(t.addressed);
  }

  lemma StepAgrees(t: Tally, s: Slave, i: Input)
    requires s.Valid() && Agrees(s, t)
    ensures Agrees(Step(s, i).slave, Observe(t, s.id, i, Step(s, i).tx))
  {
    hide Comm.Newest, CrcOk, Dispatch, Account, Comm.ReceiveErrorEvent;
    var listening := s.comm.diag.listenOnly;
    LogBytes(0, listening, i.Overrun?);
    LogGrows(s.comm.events, t.history, Comm.ReceiveErrorEvent(listening, i.Overrun?));
    if i.Frame? {
      if AddressedTo(s.id, i.rx) {
        AddressedAgrees(t, s, i.rx, i.di);
      } else {
        NextCount(t.bus);
        NextCount(t.damaged);
      }
    } else {
      NextCount(t.damaged);
      NextCount(t.overruns);
    }
  }

  /** Over every run the 16-bit counters, the event counter and the 64-byte log are exactly what an observer
      of the line counts and records, and every addressed message is accounted for by one outcome. */
  lemma {:induction false} Accounting(t: Tally, s: Slave, inputs: seq<Input>)
    requires s.Valid() && Agrees(s, t) && Balanced(t)
    ensures var seen := Watch(t, s.id, inputs, Transmissions(s, inputs));
            Agrees(Run(s, inputs), seen) && Balanced(seen)
    decreases |inputs|
  {
    hide Step, Observe, Agrees, Balanced;
    if |inputs| > 0 {
      StepAgrees(t, s, inputs[0]);
      var turn := Step(s, inputs[0]);
      CompletedAtMostOnce(t, s.id, inputs[0], turn.tx);
      StepKeepsId(s, inputs[0]);
      Accounting(Observe(t, s.id, inputs[0], turn.tx), turn.slave, inputs[1..]);
      assert Transmissions(s, inputs)[1..] == Transmissions(turn.slave, inputs[1..]);
    }
  }

  lemma StepKeepsId(s: Slave, i: Input)
    requires s.Valid()
    ensures Step(s, i).slave.id == s.id
  {
    hide Receive;
  }

  /** From power-up: outcomes and messages balance modulo 2^16 in the counters a master can read. */
  lemma CountersBalance(s: Slave, inputs: seq<Input>)
    requires s.Valid() && s.comm == Comm.FRESH
    ensures var d, t := Run(s, inputs).comm.diag, Watch(POWER_UP, s.id, inputs, Transmissions(s, inputs));
            && (t.normal + d.exceptions + d.noResponses) % 65536
               == (d.slaveMessages + (if t.cleared then 1 else 0)) % 65536
            && t.bus >= t.addressed >= t.completed
    ensures Run(s, inputs).comm.events.log
            == Comm.Newest(Watch(POWER_UP, s.id, inputs, Transmissions(s, inputs)).history)
  {
    hide Step, Run, Watch, Transmissions, Comm.Newest, Agrees, Balanced;
    PowerUpAgrees(s);
    Accounting(POWER_UP, s, inputs);
    CountersSum(Run(s, inputs), Watch(POWER_UP, s.id, inputs, Transmissions(s, inputs)));
  }

  lemma PowerUpAgrees(s: Slave)
    requires s.comm == Comm.FRESH
    ensures Agrees(s, POWER_UP) && Balanced(POWER_UP)
  {
  }

  lemma CountersSum(s: Slave, t: Tally)
    requires Agrees(s, t) && Balanced(t)
    ensures (t.normal + s.comm.diag.exceptions + s.comm.diag.noResponses) % 65536
            == (s.comm.diag.slaveMessages + (if t.cleared then 1 else 0)) % 65536
    ensures t.bus >= t.addressed >= t.completed && s.comm.events.log == Comm.Newest(t.history)
  {
    hide Comm.Newest;
    ModSum(t.normal, t.exceptions, t.silent, t.addressed, if t.cleared then 1 else 0);
  }

  lemma ModSum(n: nat, a: nat, b: nat, m: nat, x: nat)
    requires n + a + b == m + x
    ensures (n + a % 65536 + b % 65536) % 65536 == (m % 65536 + x) % 65536
  {
    var qa, qb, qm := a / 65536, b / 65536, m / 65536;
    assert n + a % 65536 + b % 65536 == m % 65536 + x + 65536 * (qm - qa - qb);
  }

  // ------------------------------------------------------------ listen-only mode

  /** A frame that ends listen-only mode: addressed to the slave, FC 0x08 sub 0x01, data 0000 or FF00. */
  predicate Wakes(s: Slave, i: Input) {
    i.Frame? && AddressedTo(s.id, i.rx) && Restarts(RequestOf(i.rx))
  }

  /** The one thing a listening slave ever says: exception 03 to sub 0x01 with other data. */
  predicate BadRestartAnswer(s: Slave, i: Input, tx: seq<byte>) {
    && i.Frame? && AddressedTo(s.id, i.rx)
    && IsDiag(RequestOf(i.rx), 0x01) && DiagData(RequestOf(i.rx)) !in {0, 0xFF00}
    && tx == Answer(s.id, [0x88, 3])
  }

  lemma ListeningStep(s: Slave, i: Input)
    requires s.Valid() && s.comm.diag.listenOnly
    ensures var t := Step(s, i);
            && t.slave.tables == s.tables
            && t.slave.comm.diag.listenOnly == !Wakes(s, i)
            && (!Wakes(s, i) ==> t.slave.comm.events.counter == s.comm.events.counter)
            && (t.tx == [] || BadRestartAnswer(s, i, t.tx))
  {
    hide Comm.Newest, CrcOk, Execute, Answer, Comm.SendEvent;
  }

  /** Listen-only mode is absorbing until a valid restart: no traffic changes a table or the event counter,
      and the only answers are the exceptions to sub 0x01 with other data. */
  lemma {:induction false} ListenOnlyAbsorbs(s: Slave, inputs: seq<Input>)
    requires s.Valid() && s.comm.diag.listenOnly
    requires forall k | 0 <= k < |inputs| :: !Wakes(s, inputs[k])
    ensures var r := Run(s, inputs);
            r.tables == s.tables && r.comm.diag.listenOnly && r.comm.events.counter == s.comm.events.counter
    ensures forall k | 0 <= k < |inputs| ::
              Transmissions(s, inputs)[k] == [] || BadRestartAnswer(s, inputs[k], Transmissions(s, inputs)[k])
    decreases |inputs|
  {
    hide Receive, Answer;
    if |inputs| > 0 {
      ListeningStep(s, inputs[0]);
      var t := Step(s, inputs[0]);
      ListenOnlyAbsorbs(t.slave, inputs[1..]);
      forall k | 0 <= k < |inputs|
        ensures Transmissions(s, inputs)[k] == [] || BadRestartAnswer(s, inputs[k], Transmissions(s, inputs)[k])
      {
        if k > 0 {
          assert inputs[k] == inputs[1..][k - 1];
          assert Transmissions(s, inputs)[k] == Transmissions(t.slave, inputs[1..])[k - 1];
        }
      }
    }
  }

  // ------------------------------------------------------------ broadcasts and fetches

  /** The broadcasts that are answered although none should be: diagnostics requests with a fault. */
  predicate AnsweredBroadcast(req: seq<byte>, listening: bool)
    requires |req| >= 1
  {
    && req[0] == 0x08
    && if |req| < 5 then !listening
       else
         || (IsDiag(req, 0x01) && DiagData(req) !in {0, 0xFF00})
         || (!listening && (IsDiag(req, 0x04) || IsDiag(req, 0x0A)) && DiagData(req) != 0)
  }

  /** A broadcast is answered exactly when it is a faulty diagnostics request. */
  lemma BroadcastAnswers(s: Slave, rx: seq<byte>, di: byte)
    requires s.Valid() && Intact(rx) && rx[0] == 0
    ensures Receive(s, rx, di).tx != [] <==> AnsweredBroadcast(RequestOf(rx), s.comm.diag.listenOnly)
  {
    hide Comm.Newest, CrcOk, Execute, Account, Comm.SendEvent, Comm.DiagWord;
    var req := RequestOf(rx);
    ReceiveAddressed(s, rx, di);
    hide Receive;
    assert Dispatch(Taken(Heard(s)), req, true, di).1.Responded() <==> AnsweredBroadcast(req, s.comm.diag.listenOnly);
  }

  /** An FC 0x0C answer carries the counters and the log as they stood, and leaves them as they stood. */
  lemma LogFetchIsSnapshot(s: Slave, rx: seq<byte>, di: byte)
    requires s.Valid() && AddressedTo(s.id, rx) && rx[0] != 0
    requires RequestOf(rx) == [0x0C] && !s.comm.diag.listenOnly
    ensures var t := Receive(s, rx, di);
            && t.slave.comm.events == s.comm.events
            && |t.tx| == 11 + |s.comm.events.log|
            && t.tx[..5] == [s.id, 0x0C, 6 + |s.comm.events.log|, 0, 0]
            && Be16(t.tx[5], t.tx[6]) == s.comm.events.counter
            && Be16(t.tx[7], t.tx[8]) == Inc16(s.comm.diag.slaveMessages)
            && t.tx[9..9 + |s.comm.events.log|] == s.comm.events.log
  {
    hide Receive, CrcOk, Crc16, Execute, Hi, Lo, Be16;
    ReceiveAddressed(s, rx, di);
    BeWord(s.comm.events.counter);
    BeWord(Inc16(s.comm.diag.slaveMessages));
  }

  /** What an observer of the line would answer to a counter request; NAK and busy stay zero. */
  function Observed(t: Tally, sub: byte): word {
    if sub == 0x0B then Wrap(t.bus + 1)
    else if sub == 0x0C then Wrap(t.damaged)
    else if sub == 0x0D then Wrap(t.exceptions)
    else if sub == 0x0E then Wrap(t.addressed + 1)
    else if sub == 0x0F then Wrap(t.silent)
    else if sub == 0x12 then Wrap(t.overruns)
    else 0
  }

  /** The counters a master reads with FC 0x08 are the ones an observer of the line has kept. */
  lemma CountersReadBack(t: Tally, s: Slave, rx: seq<byte>, sub: byte, di: byte)
    requires s.Valid() && Agrees(s, t) && AddressedTo(s.id, rx) && rx[0] != 0 && !t.listening
    requires RequestOf(rx) == [0x08, 0, sub, 0, 0] && 0x0B <= sub <= 0x12
    ensures var tx := Receive(s, rx, di).tx;
            && |tx| == 8 && tx[0] == s.id && tx[1..4] == [0x08, 0, sub]
            && Be16(tx[4], tx[5]) == Observed(t, sub)
  {
    hide CrcOk, Crc16, Hi, Lo, Be16, Receive, Observed, Agrees, Comm.DiagProcess, Comm.Counter, Account, RequestOf;
    ReceiveAddressed(s, rx, di);
    CounterObserved(t, s, sub);
    CounterAnswer(Taken(Heard(s)).comm, sub);
    BeWord(Comm.Counter(Taken(Heard(s)).comm.diag, sub));
  }

  lemma CounterAnswer(c: Comm.State, sub: byte)
    requires c.Valid() && !c.diag.listenOnly && 0x0B <= sub <= 0x12
    ensures var value := Comm.Counter(c.diag, sub);
            Comm.DiagProcess(c, [0x08, 0, sub, 0, 0], false)
            == (c, Reply([0x08, 0, sub, Hi(value), Lo(value)], true))
  {
    hide Hi, Lo, Be16, Comm.Counter;
    SubWord(sub);
  }

  lemma CounterObserved(t: Tally, s: Slave, sub: byte)
    requires s.Valid() && Agrees(s, t)
    ensures Comm.Counter(Taken(Heard(s)).comm.diag, sub) == Observed(t, sub)
    ensures Taken(Heard(s)).comm.diag.listenOnly == t.listening
  {
    hide Inc16, Wrap, Comm.Newest;
    NextCount(t.bus);
    NextCount(t.addressed);
  }

  lemma SubWord(sub: byte)
    ensures Be16(0, sub) == sub && Be16(0, 0) == 0
  {
  }

  /** The event counter a master reads with FC 0x0B is the number of completions an observer has seen. */
  lemma EventCounterReadBack(t: Tally, s: Slave, rx: seq<byte>, di: byte)
    requires s.Valid() && Agrees(s, t) && AddressedTo(s.id, rx) && rx[0] != 0 && !t.listening
    requires RequestOf(rx) == [0x0B]
    ensures var tx := Receive(s, rx, di).tx;
            |tx| == 8 && tx[..4] == [s.id, 0x0B, 0, 0] && Be16(tx[4], tx[5]) == Wrap(t.completed)
  {
    hide CrcOk, Crc16, Execute, Hi, Lo, Be16, Receive, Wrap, Inc16, Comm.Newest;
    ReceiveAddressed(s, rx, di);
    BeWord(s.comm.events.counter);
  }
}
