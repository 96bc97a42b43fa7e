/** What the framer delivers over a whole trace: exactly the blocks between the gaps. */
module FramerRuns {
  import opened Bytes
  import opened RtuFramer

  /** A line event at its true time in microseconds: a byte, a 1 ms tick, a pass of the main loop. */
  datatype Event = Arrival(t: nat, b: byte) | SysTick(t: nat) | MainLoop(t: nat)

  // ------------------------------------------------------------ the gap splitter

  /** A block of bytes without a gap over T1.5: its bytes, the time of the last one, and the time the line was
      last looked at before the next block. */
  datatype Block = Block(bytes: seq<byte>, last: nat, seen: nat)

  function Blocks(c: Config, tr: seq<Event>): (bs: seq<Block>)
    decreases |tr|
  {
    if |tr| == 0 then []
    else Extend(c, Blocks(c, tr[..|tr| - 1]), tr[|tr| - 1])
  }

  /** A byte within T1.5 of the last one joins its block, any other starts one; a look at the line is noted. */
  function Extend(c: Config, bs: seq<Block>, e: Event): (r: seq<Block>) {
    match e
    case Arrival(t, b) =>
      if |bs| > 0 && t - bs[|bs| - 1].last <= c.t15
      then bs[..|bs| - 1] + [Block(bs[|bs| - 1].bytes + [b], t, t)]
      else bs + [Block([b], t, t)]
    case _ =>
      if |bs| > 0 then bs[..|bs| - 1] + [bs[|bs| - 1].(seen := e.t)] else bs
  }

  /** The line was looked at after at least T3.5 of silence behind the block. */
  predicate Ended(c: Config, b: Block) {
    b.seen >= b.last + c.t35
  }

  function Cut(c: Config, bytes: seq<byte>): seq<byte> {
    bytes[..Min(|bytes|, c.size)]
  }

  /** The ended blocks, in order, each cut to the buffer. */
  function Frames(c: Config, bs: seq<Block>): (fs: seq<seq<byte>>) {
    if |bs| == 0 then []
    else Frames(c, bs[..|bs| - 1]) + (if Ended(c, bs[|bs| - 1]) then [Cut(c, bs[|bs| - 1].bytes)] else [])
  }

  // ------------------------------------------------------------ the framer on the trace

  function Now(t: nat): micros {
    t % CLOCK
  }

  /** The framer after the trace, and the frames its callback received. */
  function RunTo(c: Config, tr: seq<Event>): (r: (State, seq<seq<byte>>))
    decreases |tr|
  {
    if |tr| == 0 then (IDLE, [])
    else
      var (f, out) := RunTo(c, tr[..|tr| - 1]);
      Next(c, f, out, tr[|tr| - 1])
  }

  function Next(c: Config, f: State, out: seq<seq<byte>>, e: Event): (r: (State, seq<seq<byte>>)) {
    match e
    case Arrival(t, b) => (OnByte(c, f, Now(t), b), out)
    case SysTick(t) => (TryComplete(c, f, Now(t)), out)
    case MainLoop(t) =>
      var (g, frame) := Process(c, f, Now(t));
      (g, if |frame| > 0 then out + [frame] else out)
  }

  /** Time goes forward, and no two neighbouring events are a clock wrap apart. */
  predicate Paced(c: Config, tr: seq<Event>) {
    forall k | 0 < k < |tr| :: tr[k - 1].t <= tr[k].t < tr[k - 1].t + CLOCK - c.t35
  }

  /** The main loop has collected the last frame before the next byte comes in. */
  predicate Collected(c: Config, tr: seq<Event>) {
    forall k | 0 <= k < |tr| && tr[k].Arrival? :: !RunTo(c, tr[..k]).0.ready
  }

  function Pending(f: State): seq<seq<byte>> {
    if f.ready then [f.completed] else []
  }

  /** How the framer's state reflects the blocks so far; `at` is the time of the latest event. */
  ghost predicate Reflects(c: Config, f: State, bs: seq<Block>, at: nat) {
    && f.Valid(c)
    && (|bs| > 0 ==> |bs[|bs| - 1].bytes| > 0 && bs[|bs| - 1].last <= bs[|bs| - 1].seen <= at)
    && (f.receiving <==> |bs| > 0 && !Ended(c, bs[|bs| - 1]))
    && (f.receiving ==>
          var b := bs[|bs| - 1];
          !f.ready && f.armed && f.rx == Cut(c, b.bytes) && f.last == Now(b.last) && at < b.last + c.t35)
  }

  lemma ElapsedIsTime(t: nat, since: nat)
    requires since <= t < since + CLOCK
    ensures Elapsed(Now(t), Now(since)) == t - since
  {
    var a, b := t / CLOCK, since / CLOCK;
    assert t == a * CLOCK + Now(t) && since == b * CLOCK + Now(since);
    assert a == b || a == b + 1;
  }

  lemma ArrivalStep(c: Config, f: State, bs: seq<Block>, at: nat, t: nat, b: byte)
    requires c.Valid() && Reflects(c, f, bs, at) && !f.ready && at <= t < at + CLOCK - c.t35
    ensures var next, g := Extend(c, bs, Arrival(t, b)), OnByte(c, f, Now(t), b);
            Reflects(c, g, next, t) && Frames(c, next) == Frames(c, bs) && !g.ready
  {
    var next := Extend(c, bs, Arrival(t, b));
    if |bs| > 0 && t - bs[|bs| - 1].last <= c.t15 {
      assert next[..|next| - 1] == bs[..|bs| - 1];
    } else {
      assert next[..|next| - 1] == bs;
    }
    if f.receiving {
      ElapsedIsTime(t, bs[|bs| - 1].last);
    }
  }

  lemma PollStep(c: Config, f: State, bs: seq<Block>, at: nat, e: Event)
    requires c.Valid() && Reflects(c, f, bs, at) && at <= e.t < at + CLOCK - c.t35 && !e.Arrival?
    ensures var next, g := Extend(c, bs, e), TryComplete(c, f, Now(e.t));
            Reflects(c, g, next, e.t)
            && Frames(c, next) == Frames(c, bs) + (if g.ready && !f.ready then [g.completed] else [])
            && (f.ready ==> g.ready && g.completed == f.completed)
  {
    if |bs| > 0 {
      var last := bs[|bs| - 1];
      var next := Extend(c, bs, e);
      assert next[..|next| - 1] == bs[..|bs| - 1];
      if f.receiving {
        ElapsedIsTime(e.t, last.last);
        assert f.rx[..Min(|f.rx|, c.size)] == Cut(c, last.bytes);
      }
    }
  }

  lemma StepRefines(c: Config, f: State, out: seq<seq<byte>>, bs: seq<Block>, at: nat, e: Event)
    requires c.Valid() && Reflects(c, f, bs, at) && out + Pending(f) == Frames(c, bs)
    requires at <= e.t < at + CLOCK - c.t35 && (e.Arrival? ==> !f.ready)
    ensures var (g, sent) := Next(c, f, out, e);
            Reflects(c, g, Extend(c, bs, e), e.t) && sent + Pending(g) == Frames(c, Extend(c, bs, e))
  {
    hide OnByte, TryComplete, Collect, Extend, Frames, Now;
    match e
    case Arrival(t, b) =>
      ArrivalStep(c, f, bs, at, t, b);
    case SysTick(t) =>
      PollStep(c, f, bs, at, e);
      assert out + Pending(TryComplete(c, f, Now(t))) == Frames(c, Extend(c, bs, e));
    case MainLoop(t) =>
      PollStep(c, f, bs, at, e);
      var g := TryComplete(c, f, Now(t));
      assert out + Pending(g) == Frames(c, Extend(c, bs, e));
      CollectFacts(g);
  }

  lemma CollectedPrefix(c: Config, tr: seq<Event>)
    requires |tr| > 0 && Collected(c, tr)
    ensures Collected(c, tr[..|tr| - 1])
    ensures tr[|tr| - 1].Arrival? ==> !RunTo(c, tr[..|tr| - 1]).0.ready
  {
    var prefix := tr[..|tr| - 1];
    forall k | 0 <= k < |prefix| && prefix[k].Arrival?
      ensures !RunTo(c, prefix[..k]).0.ready
    {
      assert tr[k] == prefix[k] && prefix[..k] == tr[..k];
    }
  }

  lemma CollectFacts(f: State)
    requires f.ready ==> |f.completed| > 0
    ensures var (g, frame) := Collect(f);
            && g == f.(ready := false, completed := g.completed) && (!f.ready ==> g == f)
            && frame == (if f.ready then f.completed else []) && |g.completed| <= |f.completed|
  {
  }

  lemma {:induction false} Refines(c: Config, tr: seq<Event>)
    requires c.Valid() && Paced(c, tr) && Collected(c, tr)
    ensures var (f, out) := RunTo(c, tr);
            && Reflects(c, f, Blocks(c, tr), if |tr| > 0 then tr[|tr| - 1].t else 0)
            && out + Pending(f) == Frames(c, Blocks(c, tr))
    decreases |tr|
  {
    hide Next, Extend, Frames, Reflects;
    if |tr| == 0 {
      NoFrames(c);
      StartReflects(c, 0);
    } else {
      var n := |tr| - 1;
      var prefix, e := tr[..n], tr[n];
      CollectedPrefix(c, tr);
      Refines(c, prefix);
      var (f, out) := RunTo(c, prefix);
      if n == 0 {
        StartReflects(c, e.t);
      }
      StepRefines(c, f, out, Blocks(c, prefix), if n > 0 then tr[n - 1].t else e.t, e);
    }
  }

  lemma StartReflects(c: Config, at: nat)
    requires c.Valid()
    ensures Reflects(c, IDLE, [], at)
  {
  }

  lemma NoFrames(c: Config)
    ensures Frames(c, []) == []
  {
  }

  /** On a paced trace whose frames are collected in time, the framer delivers, in order, exactly the blocks
      with inner gaps of at most T1.5 that were seen ended by T3.5 of silence, each cut to the buffer. */
  lemma DeliversTheBlocks(c: Config, tr: seq<Event>)
    requires c.Valid() && Paced(c, tr) && Collected(c, tr)
    requires |tr| > 0 && tr[|tr| - 1].MainLoop?
    ensures RunTo(c, tr).1 == Frames(c, Blocks(c, tr))
  {
    Refines(c, tr);
    var (f, out) := RunTo(c, tr);
    assert out + [] == out;
  }

  // ------------------------------------------------------------ one frame sent without a pause

  function ArrivedBytes(tr: seq<Event>): seq<byte> {
    if |tr| == 0 then []
    else
      var e := tr[|tr| - 1];
      ArrivedBytes(tr[..|tr| - 1]) + (if e.Arrival? then [e.b] else [])
  }

  function LastArrival(tr: seq<Event>): nat {
    if |tr| == 0 then 0
    else if tr[|tr| - 1].Arrival? then tr[|tr| - 1].t else LastArrival(tr[..|tr| - 1])
  }

  /** Every byte but the first follows the one before it within T1.5. */
  predicate Unbroken(c: Config, tr: seq<Event>) {
    forall k | 0 <= k < |tr| && tr[k].Arrival? && |ArrivedBytes(tr[..k])| > 0 ::
      tr[k].t - LastArrival(tr[..k]) <= c.t15
  }

  /** The bytes of an unbroken trace are one block. */
  ghost predicate OneBlock(tr: seq<Event>, bs: seq<Block>) {
    if |ArrivedBytes(tr)| == 0 then bs == []
    else |bs| == 1 && bs[0].bytes == ArrivedBytes(tr) && bs[0].last == LastArrival(tr)
         && bs[0].seen == tr[|tr| - 1].t
  }

  lemma OneBlockGrows(c: Config, tr: seq<Event>, bs: seq<Block>)
    requires |tr| > 0 && OneBlock(tr[..|tr| - 1], bs)
    requires tr[|tr| - 1].Arrival? && |ArrivedBytes(tr[..|tr| - 1])| > 0 ==>
               tr[|tr| - 1].t - LastArrival(tr[..|tr| - 1]) <= c.t15
    ensures OneBlock(tr, Extend(c, bs, tr[|tr| - 1]))
  {
  }

  lemma NotReadyBetween(c: Config, tr: seq<Event>, t: nat)
    requires c.Valid() && Paced(c, tr) && Collected(c, tr) && OneBlock(tr, Blocks(c, tr))
    requires |ArrivedBytes(tr)| > 0 ==> tr[|tr| - 1].t <= t <= LastArrival(tr) + c.t15
    ensures !RunTo(c, tr).0.ready
  {
    hide RunTo, Blocks, Reflects;
    Refines(c, tr);
    var bs := Blocks(c, tr);
    if |bs| == 1 {
      assert bs[..0] == [];
    }
    assert Frames(c, bs) == [];
  }

  lemma {:induction false} UnbrokenIsOneBlock(c: Config, tr: seq<Event>)
    requires c.Valid() && Paced(c, tr) && Unbroken(c, tr)
    ensures Collected(c, tr) && OneBlock(tr, Blocks(c, tr))
    decreases |tr|
  {
    hide RunTo, Extend, OneBlock, ArrivedBytes, LastArrival;
    if |tr| == 0 {
      NoBlock(c);
    } else {
      var n := |tr| - 1;
      var prefix, e := tr[..n], tr[n];
      forall k | 0 <= k < n
        ensures prefix[..k] == tr[..k]
      {
      }
      UnbrokenIsOneBlock(c, prefix);
      OneBlockGrows(c, tr, Blocks(c, prefix));
      if e.Arrival? {
        if n > 0 {
          NotReadyBetween(c, prefix, e.t);
        } else {
          IdleAtFirst(c, prefix);
        }
      }
    }
  }

  lemma NoBlock(c: Config)
    ensures OneBlock([], Blocks(c, []))
  {
  }

  lemma IdleAtFirst(c: Config, tr: seq<Event>)
    requires tr == []
    ensures !RunTo(c, tr).0.ready
  {
  }

  /** A frame sent without a pause over T1.5 and followed by T3.5 of silence is handed to the callback whole, once,
      cut to the buffer; ticks and passes of the main loop may fall anywhere. */
  lemma FrameDeliveredWhole(c: Config, tr: seq<Event>, t: nat)
    requires c.Valid() && Paced(c, tr + [MainLoop(t)]) && Unbroken(c, tr + [MainLoop(t)])
    requires |ArrivedBytes(tr)| > 0 && t >= LastArrival(tr) + c.t35
    ensures RunTo(c, tr + [MainLoop(t)]).1 == [Cut(c, ArrivedBytes(tr))]
  {
    hide RunTo, Blocks;
    var all := tr + [MainLoop(t)];
    assert all[..|tr|] == tr && all[|tr|] == MainLoop(t);
    UnbrokenIsOneBlock(c, all);
    DeliversTheBlocks(c, all);
    assert ArrivedBytes(all) == ArrivedBytes(tr) && LastArrival(all) == LastArrival(tr);
    var bs := Blocks(c, all);
    assert bs[..0] == [] && Frames(c, []) == [];
  }
}
