/** A master transaction byte by byte: both frames pass through a framer on their way. */
module SerialLine {
  import opened Bytes
  import opened RtuSlave
  import opened Master
  import opened RtuFramer
  import opened FramerRuns

  /** The bytes of `frame` arrive without a pause over T1.5, T3.5 of silence follows, and the main loop looks. */
  ghost predicate Sent(c: Config, tr: seq<Event>, t: nat, frame: seq<byte>) {
    && c.Valid() && c.size == 256
    && Paced(c, tr + [MainLoop(t)]) && Unbroken(c, tr + [MainLoop(t)])
    && ArrivedBytes(tr) == frame && t >= LastArrival(tr) + c.t35
  }

  lemma SentIsDelivered(c: Config, tr: seq<Event>, t: nat, frame: seq<byte>)
    requires Sent(c, tr, t, frame) && 1 <= |frame| <= 256
    ensures RunTo(c, tr + [MainLoop(t)]).1 == [frame]
  {
    FrameDeliveredWhole(c, tr, t);
    assert Cut(c, frame) == frame;
  }

  /** Whatever the timing of the interrupts, a request sent without a pause reaches the slave as one frame, its
      answer reaches the master as one frame, and the call ends as on the loss-free bus. */
  lemma TransactionThroughFramers(s: Slave, dest: byte, req: seq<byte>, di: byte, c: Config,
                                  out: seq<Event>, outEnd: nat, back: seq<Event>, backEnd: nat)
    requires s.Valid() && dest != 0 && 1 <= |req| <= 253
    requires Sent(c, out, outEnd, FrameFor(dest, req))
    requires var answer := RtuSlave.Receive(s, FrameFor(dest, req), di).tx;
             |answer| > 0 ==> Sent(c, back, backEnd, answer)
    ensures var heard := RunTo(c, out + [MainLoop(outEnd)]).1;
            && |heard| == 1
            && var turn := RtuSlave.Receive(s, heard[0], di);
               var (after, o) := Transact(s, dest, req, di);
               && turn.slave == after
               && (|turn.tx| > 0 ==>
                     var got := RunTo(c, back + [MainLoop(backEnd)]).1;
                     |got| == 1 && Judge(dest, req, got[0]) == o)
               && (|turn.tx| == 0 ==> o == Failed(TIMEOUT))
  {
    hide RunTo, Sent, RtuSlave.Receive, Judge;
    SentIsDelivered(c, out, outEnd, FrameFor(dest, req));
    var answer := RtuSlave.Receive(s, FrameFor(dest, req), di).tx;
    if |answer| > 0 {
      SentIsDelivered(c, back, backEnd, answer);
    }
  }
}
