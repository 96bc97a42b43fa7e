/** canopen_nmt.c: the NMT slave state and the heartbeat producer. */
module Nmt {
  import opened Bytes
  import Arith

  datatype Phase = Initialisation | Stopped | Operational | PreOperational

  function Code(p: Phase): byte {
    match p
    case Initialisation => 0x00
    case Stopped => 0x04
    case Operational => 0x05
    case PreOperational => 0x7F
  }

  const START_NODE: byte := 0x01
  const STOP_NODE: byte := 0x02
  const ENTER_PRE_OPERATIONAL: byte := 0x80
  const RESET_NODE: byte := 0x81
  const RESET_COMMUNICATION: byte := 0x82

  const BOOTUP: byte := 0x00

  /** `period` and `timer` are the 16-bit heartbeat fields, in milliseconds. */
  datatype State = State(phase: Phase, period: word, timer: word)

  function Init(period: word): State {
    State(PreOperational, period, period)
  }

  predicate Valid(s: State) {
    s.period > 0 ==> 1 <= s.timer <= s.period
  }

  /** `timer -= (uint16_t)delta`. */
  function Minus16(timer: word, delta: nat): word {
    (timer - delta % 65536) % 65536
  }

  /** A pass of `delta` ms: the state after it and whether a heartbeat goes out. */
  function Elapse(s: State, delta: nat): (r: (State, bool)) {
    if s.period == 0 then (s, false)
    else if delta >= s.timer then (s.(timer := s.period), true)
    else (s.(timer := Minus16(s.timer, delta)), false)
  }

  /** An NMT frame for node `id`: the state, whether it was taken, and whether a boot-up frame goes out. */
  function Command(s: State, id: byte, data: seq<byte>): (r: (State, bool, bool)) {
    if |data| < 2 || (data[1] != 0 && data[1] != id) then (s, false, false)
    else if data[0] == START_NODE then (s.(phase := Operational), true, false)
    else if data[0] == STOP_NODE then (s.(phase := Stopped), true, false)
    else if data[0] == ENTER_PRE_OPERATIONAL then (s.(phase := PreOperational), true, false)
    else if data[0] == RESET_NODE || data[0] == RESET_COMMUNICATION then
      (s.(phase := PreOperational, timer := s.period), true, true)
    else (s, false, false)
  }

  // ------------------------------------------------------------ heartbeats over whole runs

  datatype Event = Pass(delta: nat) | Frame(id: byte, data: seq<byte>) | SetPhase(phase: Phase)

  function Step(s: State, e: Event): (r: (State, bool)) {
    match e
    case Pass(delta) => Elapse(s, delta)
    case Frame(id, data) => (Command(s, id, data).0, false)
    case SetPhase(phase) => (s.(phase := phase), false)
  }

  /** A reset command that the node obeys; it restarts the heartbeat period. */
  predicate Resets(e: Event) {
    e.Frame? && |e.data| >= 2 && (e.data[1] == 0 || e.data[1] == e.id) && e.data[0] in {RESET_NODE, RESET_COMMUNICATION}
  }

  function Run(s: State, events: seq<Event>): State
    decreases |events|
  {
    if |events| == 0 then s else Run(Step(s, events[0]).0, events[1..])
  }

  function Beats(s: State, events: seq<Event>): nat
    decreases |events|
  {
    if |events| == 0 then 0 else (if Step(s, events[0]).1 then 1 else 0) + Beats(Step(s, events[0]).0, events[1..])
  }

  function Time(events: seq<Event>): nat {
    if |events| == 0 then 0 else (if events[0].Pass? then events[0].delta else 0) + Time(events[1..])
  }

  /** The countdown stays between 1 and the period, so the 16-bit subtraction never truncates or wraps. */
  lemma {:induction false} TimerNeverTruncates(s: State, events: seq<Event>, delta: nat)
    requires Valid(s) && s.period > 0
    ensures var r := Run(s, events);
            Valid(r) && r.period == s.period && (delta < r.timer ==> Minus16(r.timer, delta) == r.timer - delta)
    decreases |events|
  {
    if |events| > 0 {
      TimerNeverTruncates(Step(s, events[0]).0, events[1..], delta);
    }
  }

  /** Heartbeats never come faster than the period, however time is cut up and whatever commands arrive. */
  lemma {:induction false} HeartbeatRate(s: State, events: seq<Event>)
    requires Valid(s) && s.period > 0
    ensures Beats(s, events) * s.period <= Time(events) + (s.period - s.timer)
    decreases |events|
  {
    if |events| > 0 {
      var (next, beat) := Step(s, events[0]);
      HeartbeatRate(next, events[1..]);
      var rest := Beats(next, events[1..]);
      Arith.Distribute(1, rest, s.period);
    }
  }

  lemma StepCounts(s: State, e: Event)
    requires Valid(s) && s.period > 0 && !Resets(e)
    ensures var (next, beat) := Step(s, e);
            var passed := if e.Pass? then e.delta else 0;
            && Valid(next) && next.period == s.period
            && if beat then passed >= s.timer else next.timer + passed == s.timer
  {
  }

  /** From a timer value to the next heartbeat: at least that long, and at most one pass less a millisecond more,
      whatever commands other than resets come in between. */
  lemma {:induction false} NextHeartbeat(s: State, events: seq<Event>, longest: nat)
    requires Valid(s) && s.period > 0 && |events| > 0
    requires forall k | 0 <= k < |events| :: !Resets(events[k]) && (events[k].Pass? ==> events[k].delta <= longest)
    requires Beats(s, events[..|events| - 1]) == 0
    ensures Time(events) <= s.timer - 1 + longest
    ensures Beats(s, events) > 0 ==> Time(events) >= s.timer
    decreases |events|
  {
    hide Step, Resets;
    var (next, beat) := Step(s, events[0]);
    StepCounts(s, events[0]);
    if |events| == 1 {
      assert events[1..] == [];
      assert Beats(next, []) == 0 && Time([]) == 0;
    } else {
      var front := events[..|events| - 1];
      assert front[0] == events[0] && front[1..] == events[1..][..|events| - 2];
      NextHeartbeat(next, events[1..], longest);
    }
  }

  /** Consecutive heartbeats without a reset between them are at least the period and at most the period less
      one plus the longest pass apart. */
  lemma HeartbeatSpacing(s: State, first: Event, events: seq<Event>, longest: nat)
    requires Valid(s) && s.period > 0 && Step(s, first).1 && |events| > 0
    requires forall k | 0 <= k < |events| :: !Resets(events[k]) && (events[k].Pass? ==> events[k].delta <= longest)
    requires Beats(Step(s, first).0, events[..|events| - 1]) == 0 && Beats(Step(s, first).0, events) > 0
    ensures s.period <= Time(events) <= s.period - 1 + longest
  {
    NextHeartbeat(Step(s, first).0, events, longest);
  }

  /** A period of 0 switches the producer off. */
  lemma {:induction false} NoPeriodNoHeartbeat(s: State, events: seq<Event>)
    requires s.period == 0
    ensures Beats(s, events) == 0
    decreases |events|
  {
    if |events| > 0 {
      NoPeriodNoHeartbeat(Step(s, events[0]).0, events[1..]);
    }
  }
}
