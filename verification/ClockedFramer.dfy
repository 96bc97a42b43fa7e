/** The framer on the clock it really reads: every call samples the tick counter and the SysTick registers. */
module ClockedFramer {
  import opened Bytes
  import opened RtuFramer
  import opened FramerRuns
  import Clock

  datatype Call = ByteInterrupt(b: byte) | TickInterrupt | Loop

  /** A call of the framer after `cycles` timer cycles since the start; `pending` when the tick interrupt of the
      current millisecond has not been served yet. */
  datatype Moment = Moment(call: Call, cycles: nat, pending: bool)

  /** The clock reading of `rtu_time_us` at that moment. */
  function Reading(m: Moment, load: nat): micros
    requires m.pending ==> m.cycles / (load + 1) >= 1
  {
    Clock.Micros(Clock.TickCount(m.cycles, load, if m.pending then 1 else 0), Clock.TimerValue(m.cycles, load),
                 load, m.pending)
  }

  predicate Readable(tr: seq<Moment>, load: nat) {
    load * 1000 < CLOCK && forall k | 0 <= k < |tr| :: tr[k].pending ==> tr[k].cycles / (load + 1) >= 1
  }

  /** The framer after the calls, each at its own clock reading, and the frames its callback received. */
  function RunClocked(c: Config, load: nat, tr: seq<Moment>): (r: (State, seq<seq<byte>>))
    requires Readable(tr, load)
    decreases |tr|
  {
    if |tr| == 0 then (IDLE, [])
    else
      var (f, out) := RunClocked(c, load, tr[..|tr| - 1]);
      var m := tr[|tr| - 1];
      var now := Reading(m, load);
      match m.call
      case ByteInterrupt(b) => (OnByte(c, f, now, b), out)
      case TickInterrupt => (TryComplete(c, f, now), out)
      case Loop =>
        var (g, frame) := Process(c, f, now);
        (g, if |frame| > 0 then out + [frame] else out)
  }

  /** The same calls at their true times in whole microseconds. */
  function Timed(m: Moment, load: nat): Event {
    var t := Clock.TrueMicros(m.cycles, load);
    match m.call
    case ByteInterrupt(b) => Arrival(t, b)
    case TickInterrupt => SysTick(t)
    case Loop => MainLoop(t)
  }

  function TimedAll(tr: seq<Moment>, load: nat): (events: seq<Event>)
    ensures |events| == |tr|
  {
    seq(|tr|, i requires 0 <= i < |tr| => Timed(tr[i], load))
  }

  /** On the clock the framer reads, it does what it does on true time. */
  lemma {:induction false} ClockedIsTimed(c: Config, load: nat, tr: seq<Moment>)
    requires Readable(tr, load)
    ensures RunClocked(c, load, tr) == RunTo(c, TimedAll(tr, load))
    decreases |tr|
  {
    hide OnByte, TryComplete, Process, Clock.Micros, Clock.TickCount, Clock.TimerValue, Clock.TrueMicros;
    if |tr| > 0 {
      var last := |tr| - 1;
      ClockedIsTimed(c, load, tr[..last]);
      assert TimedAll(tr, load)[..last] == TimedAll(tr[..last], load);
      Clock.ReadingIsTrueTime(tr[last].cycles, load, tr[last].pending);
    }
  }

  /** The framer on its clock delivers, in order, exactly the blocks with inner gaps of at most T1.5 that a poll saw
      ended by T3.5 of silence, gaps taken between true times in whole microseconds. */
  lemma ClockedDeliversTheBlocks(c: Config, load: nat, tr: seq<Moment>)
    requires c.Valid() && Readable(tr, load) && |tr| > 0 && tr[|tr| - 1].call.Loop?
    requires Paced(c, TimedAll(tr, load)) && Collected(c, TimedAll(tr, load))
    ensures RunClocked(c, load, tr).1 == Frames(c, Blocks(c, TimedAll(tr, load)))
  {
    hide RunTo, RunClocked, Frames, Blocks;
    ClockedIsTimed(c, load, tr);
    DeliversTheBlocks(c, TimedAll(tr, load));
  }
}
