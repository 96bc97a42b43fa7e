/** rtu_framer.c: the T1.5/T3.5 frame assembler. Each function is one critical section of the code, run at the
    microsecond clock reading `now`. */
module RtuFramer {
  import opened Bytes
  import Arith

  const CLOCK := 0x1_0000_0000
  const MAX_FRAME := 256

  type micros = x: int | 0 <= x < CLOCK

  /** What rtu_framer_init fixes: the size of both buffers and the two silent intervals. */
  datatype Config = Config(size: nat, t15: micros, t35: micros) {
    predicate Valid() {
      1 <= size <= MAX_FRAME && t15 < t35
    }
  }

  /** `rx` is the filled part of the assembly buffer, `completed` that of the delivery buffer. */
  datatype State = State(
    receiving: bool,
    rx: seq<byte>,
    ready: bool,
    completed: seq<byte>,
    armed: bool,
    last: micros)
  {
    ghost predicate Valid(c: Config) {
      && (receiving <==> |rx| > 0)
      && (armed ==> receiving)
      && |rx| <= c.size
      && |completed| <= c.size
      && (ready ==> |completed| > 0)
    }
  }

  const IDLE: State := State(false, [], false, [], false, 0)

  // ------------------------------------------------------------ timeouts

  /** `modbus_rtu_timeouts_us`: 1.5 and 3.5 characters of 11 bits up to 19200 baud, fixed above; 0 means 9600. */
  function Timeouts(baud: nat): (t: (int, int)) {
    var rate := if baud == 0 then 9600 else baud;
    if rate > 19200 then (750, 1750)
    else
      var charTime := (11 * 1000000 + rate - 1) / rate;
      (charTime * 3 / 2, charTime * 7 / 2)
  }

  lemma CharTime(rate: nat)
    requires 1 <= rate <= 19200
    ensures 500 <= (11000000 + rate - 1) / rate <= 11000000
  {
    Arith.MulMono(rate, 19200, 500);
    Arith.MulMono(1, rate, 11000000);
    Arith.DivBetween(11000000 + rate - 1, rate, 500, 11000000);
  }

  /** At every baud rate T1.5 is shorter than T3.5, by at least one millisecond, and both fit the clock. */
  lemma TimeoutsOrdered(baud: nat)
    ensures var (t15, t35) := Timeouts(baud); t15 + 1000 <= t35 < CLOCK && t15 >= 750
  {
    var rate := if baud == 0 then 9600 else baud;
    if rate <= 19200 {
      CharTime(rate);
    }
  }

  /** Up to 19200 baud the intervals are 1.5 and 3.5 times a character of 11 bits, which takes the whole microseconds
      that cover it; above they are 750 and 1750 microseconds. */
  lemma TimeoutsExact(baud: nat)
    ensures var rate := if baud == 0 then 9600 else baud;
            var (t15, t35) := Timeouts(baud);
            if rate > 19200 then t15 == 750 && t35 == 1750
            else exists span: nat :: Covers(span, rate)
                                     && 2 * t15 <= 3 * span < 2 * t15 + 2 && 2 * t35 <= 7 * span < 2 * t35 + 2
  {
    var rate := if baud == 0 then 9600 else baud;
    if rate <= 19200 {
      var span := (11000000 + rate - 1) / rate;
      Arith.DivFacts(11000000 + rate - 1, rate);
      assert Covers(span, rate);
    }
  }

  /** The fewest microseconds that hold 11 bits. */
  predicate Covers(span: nat, rate: nat) {
    (span - 1) * rate < 11000000 <= span * rate
  }

  // ------------------------------------------------------------ the critical sections

  /** Unsigned 32-bit difference of two clock readings. */
  function Elapsed(now: micros, since: micros): micros {
    (now - since) % CLOCK
  }

  /** T3.5 of silence while receiving completes the frame; with the last one uncollected it is dropped. */
  function TryComplete(c: Config, f: State, now: micros): (g: State) {
    if f.armed && f.receiving && Elapsed(now, f.last) >= c.t35 then
      var idle := f.(receiving := false, rx := [], armed := false);
      if |f.rx| == 0 || f.ready then idle
      else idle.(ready := true, completed := f.rx[..Min(|f.rx|, c.size)])
    else f
  }

  function OnByte(c: Config, f: State, now: micros, b: byte): (g: State) {
    if !f.receiving then
      if f.ready then f else f.(receiving := true, rx := [b], armed := true, last := now)
    else if Elapsed(now, f.last) > c.t15 then
      if f.ready then f.(receiving := false, rx := [], armed := false)
      else f.(rx := [b], armed := true, last := now)
    else f.(rx := if |f.rx| < c.size then f.rx + [b] else f.rx, armed := true, last := now)
  }

  /** Take the completed frame, if there is one; nothing is taken when [] comes back. */
  function Collect(f: State): (r: (State, seq<byte>)) {
    if f.ready && |f.completed| > 0 then (f.(ready := false, completed := []), f.completed) else (f, [])
  }

  /** `rtu_framer_process` with a callback installed. */
  function Process(c: Config, f: State, now: micros): (r: (State, seq<byte>)) {
    Collect(TryComplete(c, f, now))
  }

  /** `rtu_framer_read` into a buffer of `max` bytes. */
  function Read(f: State, max: nat): (r: (State, seq<byte>)) {
    if max == 0 then (f, [])
    else
      var (g, frame) := Collect(f);
      (g, frame[..Min(|frame|, max)])
  }

  function Flush(f: State): State {
    IDLE.(last := f.last)
  }

  /** `rtu_framer_tx_begin` drops the frame by its flag alone; the buffer keeps its length. */
  function TxBegin(f: State): State {
    f.(receiving := false, rx := [], armed := false, ready := false)
  }

  /** `rtu_framer_delay_t35` stops the timer before it waits, whatever is being received. */
  function DelayT35(f: State): State {
    f.(armed := false)
  }

  // ------------------------------------------------------------ every interleaving

  datatype Op =
    | Byte(now: micros, b: byte)
    | Tick(now: micros)
    | Poll(now: micros)
    | Deliver(now: micros)
    | ReadOut(max: nat)
    | FlushRx
    | BeginTx
    | WaitT35

  function Apply(c: Config, f: State, op: Op): State {
    match op
    case Byte(now, b) => OnByte(c, f, now, b)
    case Tick(now) => TryComplete(c, f, now)
    case Poll(now) => TryComplete(c, f, now)
    case Deliver(now) => Process(c, f, now).0
    case ReadOut(max) => Read(f, max).0
    case FlushRx => Flush(f)
    case BeginTx => TxBegin(f)
    case WaitT35 => DelayT35(f)
  }

  function ApplyAll(c: Config, f: State, ops: seq<Op>): State
    decreases |ops|
  {
    if |ops| == 0 then f else ApplyAll(c, Apply(c, f, ops[0]), ops[1..])
  }

  /** Idle means an empty assembly buffer, the timer runs only while receiving, and nothing overflows,
      whatever the order of interrupts and calls. */
  lemma {:induction false} AlwaysValid(c: Config, f: State, ops: seq<Op>)
    requires c.Valid() && f.Valid(c)
    ensures ApplyAll(c, f, ops).Valid(c)
    decreases |ops|
  {
    if |ops| > 0 {
      AlwaysValid(c, Apply(c, f, ops[0]), ops[1..]);
    }
  }

  /** From power-up nothing is ever in assembly while a completed frame waits, so no frame is dropped for that. */
  lemma {:induction false} NeverBoth(c: Config, f: State, ops: seq<Op>)
    requires c.Valid() && f.Valid(c) && !(f.receiving && f.ready)
    ensures var g := ApplyAll(c, f, ops); !(g.receiving && g.ready)
    decreases |ops|
  {
    if |ops| > 0 {
      NeverBoth(c, Apply(c, f, ops[0]), ops[1..]);
    }
  }

  /** While a completed frame waits to be collected the line is not listened to: bytes, ticks and polls change nothing,
      so a frame that falls into that time is lost, and one that lasts beyond it loses its front. */
  lemma {:induction false} PendingIgnoresLine(c: Config, f: State, ops: seq<Op>)
    requires c.Valid() && f.Valid(c) && f.ready && !f.receiving
    requires forall k | 0 <= k < |ops| :: ops[k].Byte? || ops[k].Tick? || ops[k].Poll?
    ensures ApplyAll(c, f, ops) == f
    decreases |ops|
  {
    if |ops| > 0 {
      assert Apply(c, f, ops[0]) == f;
      PendingIgnoresLine(c, f, ops[1..]);
    }
  }

  /** The calls that may take or drop a completed frame. */
  predicate Consumes(op: Op) {
    op.Deliver? || (op.ReadOut? && op.max > 0) || op.FlushRx? || op.BeginTx?
  }

  /** A completed frame keeps its bytes and its length until a call that takes or drops it. */
  lemma {:induction false} CompletedKept(c: Config, f: State, ops: seq<Op>)
    requires c.Valid() && f.Valid(c) && f.ready
    requires forall k | 0 <= k < |ops| :: !Consumes(ops[k])
    ensures ApplyAll(c, f, ops).ready && ApplyAll(c, f, ops).completed == f.completed
    decreases |ops|
  {
    if |ops| > 0 {
      var g := Apply(c, f, ops[0]);
      assert !Consumes(ops[0]);
      assert g.ready && g.completed == f.completed;
      CompletedKept(c, g, ops[1..]);
    }
  }

  /** A tick, a poll, a delivery or a read: anything but a byte, a drop and a wait. */
  predicate Looks(op: Op) {
    op.Tick? || op.Poll? || op.Deliver? || op.ReadOut?
  }

  /** What the step hands out. */
  function Handed(c: Config, f: State, op: Op): seq<byte> {
    match op
    case Deliver(now) => Process(c, f, now).1
    case ReadOut(max) => Read(f, max).1
    case _ => []
  }

  /** A flush and a transmission drop both frames: until the next byte nothing is handed out, whenever one looks. */
  lemma {:induction false} DroppedIsGone(c: Config, f: State, drop: Op, ops: seq<Op>, last: Op)
    requires drop.FlushRx? || drop.BeginTx?
    requires Looks(last) && forall k | 0 <= k < |ops| :: Looks(ops[k])
    ensures Handed(c, ApplyAll(c, Apply(c, f, drop), ops), last) == []
    ensures !ApplyAll(c, Apply(c, f, drop), ops).receiving
  {
    EmptyStaysEmpty(c, Apply(c, f, drop), ops);
  }

  lemma {:induction false} EmptyStaysEmpty(c: Config, f: State, ops: seq<Op>)
    requires !f.ready && !f.receiving && forall k | 0 <= k < |ops| :: Looks(ops[k])
    ensures !ApplyAll(c, f, ops).ready && !ApplyAll(c, f, ops).receiving
    decreases |ops|
  {
    if |ops| > 0 {
      assert Looks(ops[0]);
      EmptyStaysEmpty(c, Apply(c, f, ops[0]), ops[1..]);
    }
  }

  /** A frame handed out is the completed one, cut to the reader's buffer, and is handed out once. */
  lemma HandedOnce(c: Config, f: State, op: Op)
    requires f.ready && |f.completed| > 0 && (op.Deliver? || (op.ReadOut? && op.max > 0))
    ensures Handed(c, f, op) == f.completed[..if op.ReadOut? then Min(op.max, |f.completed|) else |f.completed|]
    ensures !Apply(c, f, op).ready
  {
  }

  /** A frame in assembly when `rtu_framer_delay_t35` is called is left lying: however much silence follows, nothing
      completes it before the next byte. */
  lemma {:induction false} WaitStrands(c: Config, f: State, ops: seq<Op>, last: Op)
    requires f.receiving && !f.ready && Looks(last) && forall k | 0 <= k < |ops| :: Looks(ops[k])
    ensures var g := ApplyAll(c, Apply(c, f, WaitT35), ops);
            g.receiving && g.rx == f.rx && !g.ready && Handed(c, g, last) == []
  {
    StrandedStays(c, Apply(c, f, WaitT35), ops);
  }

  lemma {:induction false} StrandedStays(c: Config, f: State, ops: seq<Op>)
    requires f.receiving && !f.ready && !f.armed && forall k | 0 <= k < |ops| :: Looks(ops[k])
    ensures var g := ApplyAll(c, f, ops); g.receiving && g.rx == f.rx && !g.ready && !g.armed
    decreases |ops|
  {
    if |ops| > 0 {
      assert Looks(ops[0]);
      StrandedStays(c, Apply(c, f, ops[0]), ops[1..]);
    }
  }
}
