/** canopen_pdo.c: the event and inhibit timers of a transmit PDO. Both TPDOs run this machine. */
module Pdo {
  import opened Bytes

  const EVENT_TIME: word := 1000
  const INHIBIT_TIME: word := 100

  /** The 16-bit countdowns in milliseconds; the settings stay what canopen_pdo_init made them. */
  datatype Tpdo = Tpdo(event: word, inhibit: word) {
    predicate Valid() {
      1 <= event <= EVENT_TIME && inhibit <= INHIBIT_TIME
    }
  }

  const READY: Tpdo := Tpdo(EVENT_TIME, 0)

  /** `counter -= (uint16_t)delta`, zero when the time is up. */
  function CountDown(counter: word, delta: nat): word {
    if delta >= counter then 0 else (counter - delta % 65536) % 65536
  }

  /** What the node does to a TPDO; `accepted` is the transmitter's verdict on a frame, should one go out. */
  datatype Move =
    | Elapse(delta: nat, operational: bool, accepted: bool)
    | Sync(operational: bool, accepted: bool)
    | Trigger(operational: bool, accepted: bool)

  /** Attempt to send: refused while inhibited; success starts the inhibit time. */
  function Send(t: Tpdo, accepted: bool): (r: (Tpdo, bool)) {
    if t.inhibit > 0 then (t, false)
    else if accepted then (t.(inhibit := INHIBIT_TIME), true)
    else (t, false)
  }

  /** One move: the timers after it and whether a frame was sent. */
  function Step(t: Tpdo, m: Move): (r: (Tpdo, bool)) {
    match m
    case Elapse(delta, operational, accepted) =>
      var cooled := t.(inhibit := CountDown(t.inhibit, delta));
      if !operational then (cooled, false)
      else if delta >= cooled.event then
        var (sent, ok) := Send(cooled, accepted);
        (sent.(event := EVENT_TIME), ok)
      else (cooled.(event := CountDown(cooled.event, delta)), false)
    case Sync(operational, accepted) =>
      if operational then Send(t.(inhibit := 0), accepted) else (t, false)
    case Trigger(operational, accepted) =>
      if operational then Send(t, accepted) else (t, false)
  }

  /** Whether the move hands a frame to the transmitter. */
  predicate Attempts(t: Tpdo, m: Move) {
    match m
    case Elapse(delta, operational, _) => operational && delta >= t.event && CountDown(t.inhibit, delta) == 0
    case Sync(operational, _) => operational
    case Trigger(operational, _) => operational && t.inhibit == 0
  }

  lemma SentIffAttemptAccepted(t: Tpdo, m: Move)
    ensures Step(t, m).1 <==> Attempts(t, m) && m.accepted
  {
  }

  /** What is left of a countdown. */
  function Left(counter: nat, delta: nat): nat {
    if delta >= counter then 0 else counter - delta
  }

  /** The timers never wrap: a pass takes its time off both, off the event time in OPERATIONAL only; the event time
      starts again at 1000 ms when it is over, sent or not, and a frame taken starts the inhibit time of 100 ms. A SYNC
      in OPERATIONAL ends it first, and neither SYNC nor trigger touches the event time. */
  lemma TimersCountDown(t: Tpdo, m: Move)
    requires t.Valid()
    ensures var (next, sent) := Step(t, m);
            match m
            case Elapse(delta, operational, _) =>
              && next.inhibit == (if sent then 100 else Left(t.inhibit, delta))
              && next.event == if !operational then t.event
                               else if delta >= t.event then 1000 else t.event - delta
            case Sync(operational, _) =>
              next.event == t.event && next.inhibit == if sent then 100 else if operational then 0 else t.inhibit
            case Trigger(_, _) => next.event == t.event && next.inhibit == if sent then 100 else t.inhibit
  {
  }

  function Run(t: Tpdo, moves: seq<Move>): Tpdo
    decreases |moves|
  {
    if |moves| == 0 then t else Run(Step(t, moves[0]).0, moves[1..])
  }

  function Sends(t: Tpdo, moves: seq<Move>): nat
    decreases |moves|
  {
    if |moves| == 0 then 0 else (if Step(t, moves[0]).1 then 1 else 0) + Sends(Step(t, moves[0]).0, moves[1..])
  }

  function Duration(m: Move): nat {
    if m.Elapse? then m.delta else 0
  }

  function Time(moves: seq<Move>): nat {
    if |moves| == 0 then 0 else Duration(moves[0]) + Time(moves[1..])
  }

  lemma {:induction false} AlwaysValid(t: Tpdo, moves: seq<Move>)
    requires t.Valid()
    ensures Run(t, moves).Valid()
    decreases |moves|
  {
    if |moves| > 0 {
      AlwaysValid(Step(t, moves[0]).0, moves[1..]);
    }
  }

  lemma StepKeepsValid(t: Tpdo, m: Move)
    requires t.Valid()
    ensures Step(t, m).0.Valid()
  {
  }

  /** A pass of no time does nothing. */
  lemma IdleMove(t: Tpdo, operational: bool, accepted: bool)
    requires t.Valid()
    ensures Step(t, Elapse(0, operational, accepted)) == (t, false)
    ensures !Attempts(t, Elapse(0, operational, accepted))
  {
  }

  lemma {:induction false} LastMoveSends(t: Tpdo, moves: seq<Move>)
    requires |moves| > 0 && Step(Run(t, moves[..|moves| - 1]), moves[|moves| - 1]).1
    ensures Sends(t, moves) > 0
    decreases |moves|
  {
    hide Step;
    if |moves| > 1 {
      var front := moves[..|moves| - 1];
      assert front[0] == moves[0] && front[1..] == moves[1..][..|moves| - 2];
      LastMoveSends(Step(t, moves[0]).0, moves[1..]);
    }
  }

  /** A run sends at least as often as its front part. */
  lemma {:induction false} FewerSends(t: Tpdo, moves: seq<Move>)
    requires |moves| > 0
    ensures Sends(t, moves[..|moves| - 1]) <= Sends(t, moves)
    decreases |moves|
  {
    hide Step;
    if |moves| > 1 {
      var front := moves[..|moves| - 1];
      assert front[0] == moves[0] && front[1..] == moves[1..][..|moves| - 2];
      FewerSends(Step(t, moves[0]).0, moves[1..]);
    }
  }

  predicate NoSync(moves: seq<Move>) {
    forall k | 0 <= k < |moves| :: !(moves[k].Sync? && moves[k].operational)
  }

  /** A move takes no more off the inhibit time than it lasts, and a send needs all of it gone. */
  lemma StepInhibit(t: Tpdo, m: Move)
    requires t.Valid() && !(m.Sync? && m.operational)
    ensures var (next, sent) := Step(t, m);
            if sent then Duration(m) >= t.inhibit else next.inhibit + Duration(m) >= t.inhibit
  {
  }

  /** Without an operational SYNC nothing is sent before the inhibit time has run out. */
  lemma {:induction false} InhibitHolds(t: Tpdo, moves: seq<Move>)
    requires t.Valid() && NoSync(moves) && Sends(t, moves) > 0
    ensures Time(moves) >= t.inhibit
    decreases |moves|
  {
    hide Step, Duration;
    if |moves| > 0 {
      var (next, sent) := Step(t, moves[0]);
      StepInhibit(t, moves[0]);
      StepKeepsValid(t, moves[0]);
      if !sent {
        InhibitHolds(next, moves[1..]);
      }
    }
  }

  /** Two sends with no operational SYNC between them are at least 100 ms apart. */
  lemma SendsAreSpaced(t: Tpdo, first: Move, moves: seq<Move>)
    requires t.Valid() && Step(t, first).1 && NoSync(moves)
    requires Sends(Step(t, first).0, moves) > 0
    ensures Time(moves) >= INHIBIT_TIME
  {
    InhibitHolds(Step(t, first).0, moves);
  }

  /** Operational throughout, a transmitter that takes every frame, and passes of at most `longest` ms. */
  predicate Steady(moves: seq<Move>, longest: nat) {
    forall k | 0 <= k < |moves| ::
      moves[k].operational && moves[k].accepted && (moves[k].Elapse? ==> moves[k].delta <= longest)
  }

  /** `since` ms after a send: the inhibit time still runs for the first 100 of them, and the event timer, at
      most once restarted without a send within them, ends before 1100. */
  predicate SinceSend(t: Tpdo, since: nat) {
    && t.Valid()
    && t.inhibit == (if since >= INHIBIT_TIME then 0 else INHIBIT_TIME - since)
    && since + t.event <= 1099
  }

  lemma StepSinceSend(t: Tpdo, since: nat, m: Move)
    requires SinceSend(t, since) && m.operational && m.accepted
    ensures !Step(t, m).1 ==> SinceSend(Step(t, m).0, since + Duration(m))
  {
  }

  lemma {:induction false} NextSend(t: Tpdo, since: nat, moves: seq<Move>, longest: nat)
    requires SinceSend(t, since) && Steady(moves, longest) && |moves| > 0
    requires Sends(t, moves[..|moves| - 1]) == 0
    ensures since + Time(moves) <= 1098 + longest
    ensures Sends(t, moves) == 0 ==> SinceSend(Run(t, moves), since + Time(moves))
    decreases |moves|
  {
    hide Step;
    var next := Step(t, moves[0]).0;
    assert moves[0].operational && moves[0].accepted;
    assert Duration(moves[0]) <= longest;
    StepSinceSend(t, since, moves[0]);
    if |moves| == 1 {
      assert moves[1..] == [];
      NothingMore(next);
    } else {
      var front := moves[..|moves| - 1];
      assert front[0] == moves[0] && front[1..] == moves[1..][..|moves| - 2];
      NextSend(next, since + Duration(moves[0]), moves[1..], longest);
    }
  }

  lemma NothingMore(t: Tpdo)
    ensures Sends(t, []) == 0 && Time([]) == 0 && Run(t, []) == t
  {
  }

  /** In steady operation consecutive sends are at most 1098 ms plus one pass apart, even when the event falls
      inside the inhibit time and is skipped; and never more than 1098 ms go by unsent. */
  lemma SendsKeepComing(t: Tpdo, first: Move, moves: seq<Move>, longest: nat)
    requires t.Valid() && Step(t, first).1 && Steady(moves, longest) && |moves| > 0
    requires Sends(Step(t, first).0, moves[..|moves| - 1]) == 0
    ensures Time(moves) <= 1098 + longest
    ensures Sends(Step(t, first).0, moves) == 0 ==> Time(moves) <= 1098
  {
    NextSend(Step(t, first).0, 0, moves, longest);
  }

  /** The bound is reached: a trigger 99 ms before the event, then passes of 999 ms. */
  lemma BoundIsReached()
    ensures var moves := [Elapse(99, true, true), Elapse(999, true, true), Elapse(999, true, true)];
            var t := Tpdo(99, 0);
            && t.Valid() && Step(t, Trigger(true, true)).1 && Steady(moves, 999)
            && Sends(Step(t, Trigger(true, true)).0, moves) == 1 && Time(moves) == 1098 + 999
  {
    var a, b, c := Elapse(99, true, true), Elapse(999, true, true), Elapse(999, true, true);
    var moves := [a, b, c];
    var t0 := Step(Tpdo(99, 0), Trigger(true, true)).0;
    assert t0 == Tpdo(99, 100);
    var t1 := Step(t0, a).0;
    assert t1 == Tpdo(1000, 1);
    var t2 := Step(t1, b).0;
    assert t2 == Tpdo(1, 0);
    assert moves[1..] == [b, c] && [b, c][1..] == [c] && [c][1..] == [];
    assert Sends(Step(t2, c).0, []) == 0 && Sends(t2, [c]) == 1 && Sends(t1, [b, c]) == 1;
    assert Time([]) == 0 && Time([c]) == 999 && Time([b, c]) == 1998;
  }
}
