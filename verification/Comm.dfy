/** FC 0x08, 0x0B and 0x0C: the diagnostic counters, listen-only mode and the communication event log. */
module Comm {
  import opened Bytes
  import opened SlaveTables
  import opened Pdu

  const DIAGNOSTICS: byte := 0x08
  const EVENT_COUNTER: byte := 0x0B
  const EVENT_LOG: byte := 0x0C
  const LOG_SIZE := 64

  const RESTART_EVENT: byte := 0x00
  const LISTEN_EVENT: byte := 0x04

  const QUERY_DATA: word := 0x00
  const RESTART: word := 0x01
  const READ_REGISTER: word := 0x02
  const ASCII_DELIMITER: word := 0x03
  const FORCE_LISTEN: word := 0x04
  const CLEAR_COUNTERS: word := 0x0A
  const BUS_COUNT: word := 0x0B
  const COMM_ERROR_COUNT: word := 0x0C
  const EXCEPTION_COUNT: word := 0x0D
  const SLAVE_COUNT: word := 0x0E
  const NO_RESPONSE_COUNT: word := 0x0F
  const OVERRUN_COUNT: word := 0x12
  const CLEAR_OVERRUN: word := 0x14

  datatype Diag = Diag(
    bus: word,
    commErrors: word,
    exceptions: word,
    slaveMessages: word,
    noResponses: word,
    overruns: word,
    register: word,
    listenOnly: bool)

  datatype Events = Events(counter: word, log: seq<byte>)

  datatype State = State(diag: Diag, events: Events) {
    predicate Valid() {
      |events.log| <= LOG_SIZE
    }
  }

  const CLEARED: Diag := Diag(0, 0, 0, 0, 0, 0, 0, false)

  /** The state after power-up: counters zero, one restart event in the log. */
  const FRESH: State := State(CLEARED, Events(0, [RESTART_EVENT]))

  // ------------------------------------------------------------ the event log

  /** The newest LOG_SIZE entries of a history kept newest first. */
  function Newest(history: seq<byte>): (log: seq<byte>)
    ensures |log| <= LOG_SIZE
  {
    if |history| > LOG_SIZE then history[..LOG_SIZE] else history
  }

  /** Up to 64 entries. */
  lemma NewestIs64(history: seq<byte>)
    ensures Newest(history) == history[..Min(64, |history|)]
  {
  }

  function Push(e: Events, event: byte): Events {
    e.(log := Newest([event] + e.log))
  }

  /** Trimming the log at every push loses nothing that the final trim would keep. */
  lemma NewestOfPush(history: seq<byte>, event: byte)
    ensures Newest([event] + Newest(history)) == Newest([event] + history)
  {
  }

  function NoteRestart(e: Events, clearLog: bool): Events {
    Push(Events(0, if clearLog then [] else e.log), RESTART_EVENT)
  }

  function ReceiveErrorEvent(listenOnly: bool, overrun: bool): byte {
    0x82 + (if overrun then 0x10 else 0) + (if listenOnly then 0x20 else 0)
  }

  /** The send event of a response; code 0 stands for a normal one. */
  function SendEvent(code: byte): byte {
    if 1 <= code <= 3 then 0x41
    else if code == 4 then 0x42
    else if code == 5 || code == 6 then 0x44
    else if code == 7 then 0x48
    else 0x40
  }

  // ------------------------------------------------------------ bookkeeping hooks

  function NoteCommError(c: State): State {
    State(c.diag.(commErrors := Inc16(c.diag.commErrors)),
          Push(c.events, ReceiveErrorEvent(c.diag.listenOnly, false)))
  }

  function NoteOverrun(c: State): State {
    State(c.diag.(overruns := Inc16(c.diag.overruns), commErrors := Inc16(c.diag.commErrors)),
          Push(c.events, ReceiveErrorEvent(c.diag.listenOnly, true)))
  }

  function NoteResult(d: Diag, responded: bool, exception: bool): Diag {
    if exception then d.(exceptions := Inc16(d.exceptions))
    else if !responded then d.(noResponses := Inc16(d.noResponses))
    else d
  }

  // ------------------------------------------------------------ FC 0x08

  function Counter(d: Diag, sub: word): word {
    if sub == BUS_COUNT then d.bus
    else if sub == COMM_ERROR_COUNT then d.commErrors
    else if sub == EXCEPTION_COUNT then d.exceptions
    else if sub == SLAVE_COUNT then d.slaveMessages
    else if sub == NO_RESPONSE_COUNT then d.noResponses
    else if sub == OVERRUN_COUNT then d.overruns
    else 0
  }

  predicate DiagBroadcastable(sub: word) {
    sub == RESTART || sub == FORCE_LISTEN || sub == CLEAR_COUNTERS
  }

  /** The sub-functions that insist on data 0000. */
  predicate WantsZero(sub: word) {
    sub == READ_REGISTER || sub == FORCE_LISTEN || sub == CLEAR_OVERRUN || CLEAR_COUNTERS <= sub <= OVERRUN_COUNT
  }

  function DiagFault(code: byte): Reply {
    Reply(Exception(DIAGNOSTICS, code), true)
  }

  const SILENCE: Reply := Reply([], false)

  function ClearCounters(d: Diag): Diag {
    CLEARED.(listenOnly := d.listenOnly)
  }

  function DiagWord(req: seq<byte>, value: word): Reply
    requires |req| >= 3
  {
    Reply([DIAGNOSTICS, req[1], req[2], Hi(value), Lo(value)], true)
  }

  /** `modbus_diag_process`. A fault is answered even on broadcast, where the code is silent only by success. */
  function DiagProcess(c: State, req: seq<byte>, broadcast: bool): (r: (State, Reply))
    requires c.Valid() && |req| >= 1 && req[0] == DIAGNOSTICS
    ensures r.0.Valid()
  {
    if |req| < 5 then (c, if c.diag.listenOnly then SILENCE else DiagFault(ILLEGAL_VALUE))
    else
      var sub, data := Be16(req[1], req[2]), Be16(req[3], req[4]);
      if c.diag.listenOnly && sub != RESTART then (c, SILENCE)
      else if broadcast && !DiagBroadcastable(sub) then (c, SILENCE)
      else if WantsZero(sub) && data != 0 then (c, DiagFault(ILLEGAL_VALUE))
      else if sub == QUERY_DATA || sub == ASCII_DELIMITER then (c, Reply(req[..5], true))
      else if sub == RESTART then
        if data != 0 && data != 0xFF00 then (c, DiagFault(ILLEGAL_VALUE))
        else
          var next := State(CLEARED, NoteRestart(c.events, data == 0xFF00));
          (next, if c.diag.listenOnly || broadcast then SILENCE else Reply(req[..5], true))
      else if sub == READ_REGISTER then (c, DiagWord(req, c.diag.register))
      else if sub == FORCE_LISTEN then
        (State(c.diag.(listenOnly := true), Push(c.events, LISTEN_EVENT)), SILENCE)
      else if sub == CLEAR_COUNTERS then
        (State(ClearCounters(c.diag), c.events.(counter := 0)), if broadcast then SILENCE else Reply(req[..5], true))
      else if BUS_COUNT <= sub <= OVERRUN_COUNT then (c, DiagWord(req, Counter(c.diag, sub)))
      else if sub == CLEAR_OVERRUN then (c.(diag := c.diag.(overruns := 0)), Reply(req[..5], true))
      else (c, DiagFault(ILLEGAL_FUNCTION))
  }

  // ------------------------------------------------------------ FC 0x0B and 0x0C

  /** `modbus_event_process`. */
  function EventProcess(c: State, req: seq<byte>, broadcast: bool): (r: Reply)
    requires c.Valid() && |req| >= 1
  {
    if broadcast then SILENCE
    else if |req| != 1 then Reply(Exception(req[0], ILLEGAL_VALUE), true)
    else if req[0] == EVENT_COUNTER then
      Reply([req[0], 0, 0, Hi(c.events.counter), Lo(c.events.counter)], true)
    else
      var count: byte := 6 + |c.events.log|;
      Reply([req[0], count, 0, 0, Hi(c.events.counter), Lo(c.events.counter),
             Hi(c.diag.slaveMessages), Lo(c.diag.slaveMessages)] + c.events.log, true)
  }
}
