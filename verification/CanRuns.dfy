/** The CANopen node over whole runs: consistency, NMT gating, process data against SDO, timing on the bus. */
module CanRuns {
  import opened Bytes
  import opened ObjectDictionary
  import opened CanNode
  import Sdo
  import Nmt
  import Pdo

  // ------------------------------------------------------------ every step keeps the node consistent

  lemma StoreKeepsLong(od: Od, e: nat, s: nat, data: seq<byte>)
    requires HasObject(od, e, s) && |data| == |ObjectAt(od, e, s)| <= 4
    ensures KeepsLong(od, Store(od, e, s, data))
    ensures forall x, y | HasObject(od, x, y) && (x != e || y != s) ::
              HasObject(Store(od, e, s, data), x, y)
              && ObjectAt(Store(od, e, s, data), x, y) == ObjectAt(od, x, y)
  {
    StoreShape(od, e, s, data);
  }

  lemma UnchangedKeepsLong(od: Od)
    ensures KeepsLong(od, od)
  {
  }

  lemma MovePdosKeeps(n: Node, a: Act)
    requires NodeOk(n)
    ensures MovePdos(n, a).0.od == n.od && MovePdos(n, a).0.id == n.id
            && MovePdos(n, a).0.sdo == n.sdo && MovePdos(n, a).0.nmt == n.nmt
  {
    hide Pdo.Step, Pdo.Attempts;
  }

  predicate IsSdoRequest(n: Node, a: Act) {
    a.input.Receive? && a.input.cob == COB_RSDO + n.id && n.nmt.phase != Nmt.Stopped
  }

  /** Whatever happens to the node, only SDO requests move the SDO server, and no object of more than four
      bytes ever changes. */
  lemma StepKeepsLong(n: Node, a: Act)
    requires NodeOk(n)
    ensures var m := Step(n, a).node;
            m.id == n.id && KeepsLong(n.od, m.od)
    ensures !IsSdoRequest(n, a) ==> Step(n, a).node.sdo == n.sdo
    ensures IsSdoRequest(n, a) ==>
              Step(n, a).node.od == Sdo.Receive(n.od, n.sdo, a.input.data).od
              && Step(n, a).node.sdo == Sdo.Receive(n.od, n.sdo, a.input.data).server
  {
    hide Store, KeepsLong, SameShape, MovePdos, Sdo.Receive, Nmt.Command, Nmt.Elapse, DefaultOd;
    ShapeFacts(n);
    UnchangedKeepsLong(n.od);
    MovePdosKeeps(n, a);
    match a.input
    case Receive(cob, data) =>
      Sdo.ReceiveKeepsLong(n.od, n.sdo, data);
      if |data| >= 1 {
        StoreKeepsLong(n.od, DO, 1, data[..1]);
      }
      if |data| >= 4 {
        StoreKeepsLong(n.od, AO, 1, data[..2]);
        var mid := Store(n.od, AO, 1, data[..2]);
        StoreKeepsLong(mid, AO, 2, data[2..4]);
        KeepsLongTransitive(n.od, mid, Store(mid, AO, 2, data[2..4]));
      }
    case Pass(delta) =>
      PhaseOfElapse(n.nmt, delta);
      PhaseKeepsNode(n, Nmt.Elapse(n.nmt, delta).0);
      MovePdosKeeps(n.(nmt := Nmt.Elapse(n.nmt, delta).0), a);
    case SetDigitalInputs(inputs) => StoreKeepsLong(n.od, DI, 1, [inputs]);
    case SetAnalogInput(channel, low, high) =>
      if channel < 4 {
        StoreKeepsLong(n.od, AI, channel + 1, [low, high]);
      }
    case _ =>
  }

  lemma PhaseKeepsNode(n: Node, nmt: Nmt.State)
    requires NodeOk(n) && Nmt.Valid(nmt)
    ensures NodeOk(n.(nmt := nmt))
  {
  }

  lemma ShapeTransitive(a: Od, b: Od, c: Od)
    requires SameShape(a, b) && KeepsLong(b, c)
    ensures SameShape(a, c)
  {
  }

  lemma StepKeepsTimers(n: Node, a: Act)
    requires NodeOk(n)
    ensures var m := Step(n, a).node; Nmt.Valid(m.nmt) && m.tpdo1.Valid() && m.tpdo2.Valid()
  {
    hide Store, SameShape, DefaultOd, Sdo.Receive, Sdo.ServerOk, Pdo.Step;
    ShapeFacts(n);
    StepIsMove(n, a);
    Pdo.StepKeepsValid(n.tpdo1, MoveOf(n, a, true));
    Pdo.StepKeepsValid(n.tpdo2, MoveOf(n, a, false));
  }

  /** A step of the node is one move of each TPDO. */
  lemma StepIsMove(n: Node, a: Act)
    requires NodeOk(n)
    ensures Step(n, a).node.tpdo1 == Pdo.Step(n.tpdo1, MoveOf(n, a, true)).0
    ensures Step(n, a).node.tpdo2 == Pdo.Step(n.tpdo2, MoveOf(n, a, false)).0
  {
    hide Store, SameShape, DefaultOd, Sdo.Receive, Sdo.ServerOk, Pdo.Step, Nmt.Command, Nmt.Elapse, Nmt.Valid;
    ShapeFacts(n);
    Pdo.IdleMove(n.tpdo1, n.Operational(), a.accepts1);
    Pdo.IdleMove(n.tpdo2, n.Operational(), a.accepts2);
    if a.input.Pass? {
      PhaseOfElapse(n.nmt, a.input.delta);
      PhaseKeepsNode(n, Nmt.Elapse(n.nmt, a.input.delta).0);
    }
  }

  lemma PhaseOfElapse(s: Nmt.State, delta: nat)
    requires Nmt.Valid(s)
    ensures Nmt.Elapse(s, delta).0.phase == s.phase && Nmt.Valid(Nmt.Elapse(s, delta).0)
  {
  }

  lemma StepKeepsNode(n: Node, a: Act)
    requires NodeOk(n)
    ensures NodeOk(Step(n, a).node)
  {
    hide Step, KeepsLong, SameShape, Sdo.ServerOk, DefaultOd, Sdo.Receive, Pdo.Step, Nmt.Valid;
    StepKeepsLong(n, a);
    StepKeepsTimers(n, a);
    var m := Step(n, a).node;
    ShapeTransitive(DefaultOd(n.id), n.od, m.od);
    if IsSdoRequest(n, a) {
      Sdo.ReceiveKeepsLong(n.od, n.sdo, a.input.data);
    } else {
      Sdo.OutsideKeepsServer(n.od, m.od, n.sdo);
    }
  }

  /** The heartbeat period of the default dictionary is the one the node starts with when the entry is missing. */
  lemma DefaultHeartbeat(id: byte)
    requires id < 128
    ensures Read(DefaultOd(id), 0x1017, 0, 2) == (SUCCESSFUL, [0xE8, 3], 2)
    ensures Be16(3, 0xE8) == 1000
  {
    var od := DefaultOd(id);
    assert od[5].subs == DefaultSubs(5, id);
    assert FindIndex(od, 0x1017) == Some(5) by {
      assert forall k | 0 <= k < 5 :: od[k].index != 0x1017;
      assert od[5].index == 0x1017;
    }
    var held: seq<byte> := [0xE8, 3];
    assert ObjectAt(od, 5, 0) == held && held[..2] == held;
    assert Bit(READ_WRITE, 2);
  }

  lemma InitIsOk(id: byte)
    requires 1 <= id < 128
    ensures NodeOk(Init(id))
  {
  }

  ghost function Run(n: Node, acts: seq<Act>): (r: Node)
    requires NodeOk(n)
    ensures NodeOk(r)
    decreases |acts|
  {
    if |acts| == 0 then n
    else
      StepKeepsNode(n, acts[0]);
      Run(Step(n, acts[0]).node, acts[1..])
  }

  /** The frames of a run, step by step. */
  ghost function Outputs(n: Node, acts: seq<Act>): (out: seq<seq<Frame>>)
    requires NodeOk(n)
    ensures |out| == |acts|
    decreases |acts|
  {
    if |acts| == 0 then []
    else
      StepKeepsNode(n, acts[0]);
      [Step(n, acts[0]).out] + Outputs(Step(n, acts[0]).node, acts[1..])
  }

  // ------------------------------------------------------------ the SDO server's view of a node run

  /** A node run as the SDO server sees it: its own requests, and memory changed by everything else. */
  ghost function SdoView(n: Node, acts: seq<Act>): (events: seq<Sdo.Event>)
    requires NodeOk(n)
    ensures |events| == |acts|
    decreases |acts|
  {
    if |acts| == 0 then []
    else
      StepKeepsNode(n, acts[0]);
      var m := Step(n, acts[0]).node;
      [if IsSdoRequest(n, acts[0]) then Sdo.Request(acts[0].input.data) else Sdo.Outside(m.od)]
      + SdoView(m, acts[1..])
  }

  predicate InProtocol(n: Node, data: seq<byte>) {
    if Sdo.IsSegmentRequest(data) then n.sdo.active && data[0] / 16 % 2 == n.sdo.toggle else Sdo.Bystander(n.od, data)
  }

  /** The client follows the upload protocol, whatever else the node goes through. */
  ghost predicate ClientLegal(n: Node, acts: seq<Act>)
    requires NodeOk(n)
    decreases |acts|
  {
    |acts| > 0 ==>
      && (IsSdoRequest(n, acts[0]) ==> InProtocol(n, acts[0].input.data))
      && (StepKeepsNode(n, acts[0]); ClientLegal(Step(n, acts[0]).node, acts[1..]))
  }

  /** The SDO results on segmented uploads hold on the whole node: RPDOs, inputs, time, SYNC and NMT traffic are
      all harmless to an upload in progress. */
  lemma {:induction false} NodeRunsAreSdoRuns(n: Node, acts: seq<Act>)
    requires NodeOk(n) && ClientLegal(n, acts)
    ensures Sdo.Legal(n.od, n.sdo, SdoView(n, acts))
    ensures Sdo.After(n.od, n.sdo, SdoView(n, acts)) == Run(n, acts).sdo
    decreases |acts|
  {
    hide Step, KeepsLong, SameShape, Sdo.ServerOk, DefaultOd, Sdo.Receive, Sdo.Bystander, Sdo.IsSegmentRequest;
    if |acts| > 0 {
      StepKeepsNode(n, acts[0]);
      StepKeepsLong(n, acts[0]);
      var m := Step(n, acts[0]).node;
      NodeRunsAreSdoRuns(m, acts[1..]);
      var events := SdoView(n, acts);
      assert events[1..] == SdoView(m, acts[1..]);
      if IsSdoRequest(n, acts[0]) {
        Sdo.ReceiveKeepsLong(n.od, n.sdo, acts[0].input.data);
      } else {
        Sdo.OutsideKeepsServer(n.od, m.od, n.sdo);
      }
    }
  }

  lemma DefaultIsValid(n: Node)
    requires NodeOk(n)
    ensures ObjectDictionary.Valid(n.od)
  {
    var d := DefaultOd(n.id);
    forall e | 0 <= e < 19
      ensures |d[e].subs| <= 255
              && forall s | 0 <= s < |d[e].subs| ::
                   d[e].subs[s].memory.Some? ==> 1 <= |d[e].subs[s].memory.value| < 0x1_0000_0000
    {
      assert d[e].subs == DefaultSubs(e, n.id);
    }
  }

  /** An SDO request is answered by the server's answer, as one frame from the node. */
  lemma SdoAnswerOnTheBus(n: Node, a: Act)
    requires NodeOk(n) && IsSdoRequest(n, a)
    ensures var answer := Sdo.Receive(n.od, n.sdo, a.input.data).answer;
            Step(n, a).out == if answer.Some? then [Frame(COB_TSDO + n.id, answer.value)] else []
    ensures Step(n, a).taken == Sdo.Receive(n.od, n.sdo, a.input.data).taken
  {
    hide Store, SameShape, DefaultOd, Sdo.Receive, Sdo.ServerOk, MovePdos, Nmt.Command;
    ShapeFacts(n);
  }

  lemma SegmentAnswered(n: Node, a: Act)
    requires NodeOk(n) && IsSdoRequest(n, a) && Sdo.IsSegmentRequest(a.input.data)
    ensures |Step(n, a).out| == 1 && |Step(n, a).out[0].data| == 8
    ensures Sdo.Receive(n.od, n.sdo, a.input.data).answer == Some(Step(n, a).out[0].data)
  {
    hide Step, SameShape, DefaultOd, Sdo.Padded, Sdo.Abort;
    SdoAnswerOnTheBus(n, a);
  }

  /** The segments a client takes off the bus in a node run. */
  ghost function BusSegments(n: Node, acts: seq<Act>): (segs: seq<Sdo.Segment>)
    requires NodeOk(n)
    decreases |acts|
  {
    if |acts| == 0 then []
    else
      StepKeepsNode(n, acts[0]);
      var t := Step(n, acts[0]);
      var rest := BusSegments(t.node, acts[1..]);
      if IsSdoRequest(n, acts[0]) && Sdo.IsSegmentRequest(acts[0].input.data) then
        SegmentAnswered(n, acts[0]);
        [Sdo.Decode(t.out[0].data)] + rest
      else rest
  }

  lemma {:induction false} SegmentsOnTheBus(n: Node, acts: seq<Act>)
    requires NodeOk(n) && ClientLegal(n, acts)
    requires Sdo.Legal(n.od, n.sdo, SdoView(n, acts))
    ensures BusSegments(n, acts) == Sdo.Segments(n.od, n.sdo, SdoView(n, acts))
    decreases |acts|
  {
    hide Step, KeepsLong, SameShape, Sdo.ServerOk, DefaultOd, Sdo.Receive;
    hide Sdo.Bystander, Sdo.IsSegmentRequest, Sdo.Decode;
    if |acts| > 0 {
      StepKeepsNode(n, acts[0]);
      StepKeepsLong(n, acts[0]);
      var m := Step(n, acts[0]).node;
      NodeRunsAreSdoRuns(m, acts[1..]);
      SegmentsOnTheBus(m, acts[1..]);
      var events := SdoView(n, acts);
      assert events[1..] == SdoView(m, acts[1..]);
      if IsSdoRequest(n, acts[0]) {
        Sdo.ReceiveKeepsLong(n.od, n.sdo, acts[0].input.data);
        if Sdo.IsSegmentRequest(acts[0].input.data) {
          SegmentAnswered(n, acts[0]);
        }
      } else {
        Sdo.OutsideKeepsServer(n.od, m.od, n.sdo);
      }
    }
  }

  /** On the bus: a client that follows the upload protocol gets the object as it stood at the start, whatever
      RPDOs, SYNCs, NMT commands, inputs, timers and short SDO transfers the node goes through meanwhile. */
  lemma NodeUploadReturnsObject(n: Node, start: Act, acts: seq<Act>)
    requires NodeOk(n) && IsSdoRequest(n, start) && Sdo.StartsLongUpload(n.od, start.input.data)
    requires NodeOk(Step(n, start).node) && ClientLegal(Step(n, start).node, acts)
    ensures var m := Step(n, start).node;
            var l := Locate(n.od, Sdo.IndexOf(start.input.data), start.input.data[3]);
            var held := ObjectAt(n.od, l.entry, l.sub);
            var segs := BusSegments(m, acts);
            && Sdo.Payloads(segs) == held[..Min(7 * |segs|, |held|)]
            && (!Run(m, acts).sdo.active <==> |segs| == (|held| + 6) / 7)
            && (!Run(m, acts).sdo.active ==> Sdo.Payloads(segs) == held)
            && forall k | 0 <= k < |segs| ::
                 segs[k].toggle == k % 2 && (segs[k].last <==> k == (|held| + 6) / 7 - 1)
  {
    hide Step, Run, BusSegments, SdoView, ClientLegal, SameShape, DefaultOd, KeepsLong, Locate;
    hide Sdo.Receive, Sdo.Legal, Sdo.Segments, Sdo.After, Sdo.Uploadable;
    var m := Step(n, start).node;
    StepKeepsLong(n, start);
    Sdo.ReceiveKeepsLong(n.od, n.sdo, start.input.data);
    DefaultIsValid(n);
    NodeRunsAreSdoRuns(m, acts);
    SegmentsOnTheBus(m, acts);
    Sdo.UploadReturnsObject(n.od, n.sdo, start.input.data, SdoView(m, acts));
  }

  // ------------------------------------------------------------ NMT gating

  /** A frame that is an NMT command for this node: the right identifier, length, address and command. */
  predicate CommandsNode(id: byte, a: Act) {
    && a.input.Receive? && a.input.cob == COB_NMT && |a.input.data| >= 2
    && (a.input.data[1] == 0 || a.input.data[1] == id)
    && a.input.data[0] in {Nmt.START_NODE, Nmt.STOP_NODE, Nmt.ENTER_PRE_OPERATIONAL, Nmt.RESET_NODE,
                           Nmt.RESET_COMMUNICATION}
  }

  /** In STOPPED no frame but an NMT command for this node changes anything or draws an answer. */
  lemma {:induction false} StoppedIsInert(n: Node, acts: seq<Act>)
    requires NodeOk(n) && n.nmt.phase == Nmt.Stopped
    requires forall k | 0 <= k < |acts| :: acts[k].input.Receive? && !CommandsNode(n.id, acts[k])
    ensures Run(n, acts) == n
    ensures forall k | 0 <= k < |acts| :: Outputs(n, acts)[k] == []
    decreases |acts|
  {
    hide SameShape, DefaultOd, Sdo.Receive, Sdo.ServerOk, Store, CommandsNode;
    if |acts| > 0 {
      StoppedStep(n, acts[0]);
      StepKeepsNode(n, acts[0]);
      StoppedIsInert(Step(n, acts[0]).node, acts[1..]);
      forall k | 0 <= k < |acts|
        ensures Outputs(n, acts)[k] == []
      {
        if k > 0 {
          assert acts[k] == acts[1..][k - 1];
          assert Outputs(n, acts)[k] == Outputs(Step(n, acts[0]).node, acts[1..])[k - 1];
        }
      }
    }
  }

  lemma StoppedStep(n: Node, a: Act)
    requires NodeOk(n) && n.nmt.phase == Nmt.Stopped && a.input.Receive? && !CommandsNode(n.id, a)
    ensures Step(n, a).node == n && Step(n, a).out == []
  {
    hide SameShape, DefaultOd, Sdo.Receive, Sdo.ServerOk, Store;
    ShapeFacts(n);
  }

  /** Frames change dictionary memory in two ways only: an RPDO in OPERATIONAL, and an SDO request outside
      STOPPED. */
  lemma WhatFramesChange(n: Node, a: Act)
    requires NodeOk(n) && a.input.Receive? && Step(n, a).node.od != n.od
    ensures IsSdoRequest(n, a)
            || (n.Operational() && a.input.cob in {COB_RPDO1 + n.id as int, COB_RPDO2 + n.id as int})
  {
    hide SameShape, DefaultOd, Sdo.Receive, Sdo.ServerOk, Store;
    ShapeFacts(n);
    MovePdosKeeps(n, a);
    hide MovePdos;
  }

  // ------------------------------------------------------------ process data against SDO

  /** The SDO frame that downloads two bytes to 0x6411 sub s, and the one that uploads that variable. */
  function DownloadAo(s: byte, low: byte, high: byte): seq<byte> {
    [0x2B, 0x11, 0x64, s, low, high, 0, 0]
  }

  function UploadAo(s: byte): seq<byte> {
    [0x40, 0x11, 0x64, s, 0, 0, 0, 0]
  }

  lemma IndexIsAo(od: Od, id: byte)
    requires id < 128 && SameShape(DefaultOd(id), od)
    ensures FindIndex(od, 0x6411) == Some(AO)
  {
    var d := DefaultOd(id);
    assert d[AO].index == INDICES[AO] == 0x6411;
    assert forall e | 0 <= e < 19 && e != AO :: d[e].index == INDICES[e] != 0x6411;
    assert forall e | 0 <= e < 19 :: od[e].index == d[e].index;
  }

  lemma LocateAo(n: Node, s: byte)
    requires NodeOk(n) && 1 <= s <= 2
    ensures Locate(n.od, 0x6411, s) == Found(AO, s)
    ensures HasObject(n.od, AO, s) && |ObjectAt(n.od, AO, s)| == 2 && AccessAt(n.od, AO, s) == READ_WRITE
  {
    hide FindIndex, SameShape, DefaultOd;
    IndexIsAo(n.od, n.id);
    ShapeFacts(n);
    assert HasObject(n.od, AO, s);
    assert s < |n.od[AO].subs| && n.od[AO].subs[s].memory.Some?;
    FoundByIndex(n.od, 0x6411, AO, s);
  }

  lemma FoundByIndex(od: Od, index: word, e: nat, s: byte)
    requires FindIndex(od, index) == Some(e) && HasObject(od, e, s)
    ensures Locate(od, index, s) == Found(e, s)
  {
  }

  lemma ReadWriteBits()
    ensures Writable(READ_WRITE) && Sdo.Uploadable(READ_WRITE) && Bit(0x2B, 1) && Bit(0x2B, 0)
  {
  }

  lemma DownloadAoStores(n: Node, s: byte, low: byte, high: byte)
    requires NodeOk(n) && 1 <= s <= 2
    ensures var t := Sdo.Receive(n.od, n.sdo, DownloadAo(s, low, high));
            && HasObject(n.od, AO, s)
            && t.od == Store(n.od, AO, s, [low, high]) && t.server == n.sdo
            && t.answer == Some([0x60, 0x11, 0x64, s, 0, 0, 0, 0])
  {
    hide Locate, Store, SameShape, DefaultOd, Bit, Writable;
    LocateAo(n, s);
    ReadWriteBits();
    var data := DownloadAo(s, low, high);
    assert Sdo.DownloadSize(data) == 2;
    assert data[4..6] == [low, high];
  }

  lemma UploadAoReads(n: Node, s: byte)
    requires NodeOk(n) && 1 <= s <= 2
    ensures HasObject(n.od, AO, s)
    ensures Sdo.Receive(n.od, n.sdo, UploadAo(s)).answer
            == Some([0x4B, 0x11, 0x64, s] + ObjectAt(n.od, AO, s) + [0, 0])
  {
    hide Locate, SameShape, DefaultOd, Sdo.Uploadable;
    LocateAo(n, s);
    ReadWriteBits();
    var held := ObjectAt(n.od, AO, s);
    assert Sdo.Padded(held, 4) == held + [0, 0];
    assert [0x4B, 0x11, 0x64, s] + (held + [0, 0]) == [0x4B, 0x11, 0x64, s] + held + [0, 0];
  }

  function AsAct(cob: nat, data: seq<byte>): Act {
    Act(Receive(cob, data), true, true)
  }

  /** In OPERATIONAL an RPDO2 leaves the very dictionary that two SDO downloads to 0x6411 leave. */
  lemma RpdoIsTwoDownloads(n: Node, bs: seq<byte>)
    requires NodeOk(n) && n.Operational() && |bs| >= 4
    ensures var viaPdo := Run(n, [AsAct(COB_RPDO2 + n.id, bs)]);
            var viaSdo := Run(n, [AsAct(COB_RSDO + n.id, DownloadAo(1, bs[0], bs[1])),
                                  AsAct(COB_RSDO + n.id, DownloadAo(2, bs[2], bs[3]))]);
            && viaPdo == viaSdo
            && HasObject(viaPdo.od, AO, 1) && ObjectAt(viaPdo.od, AO, 1) == [bs[0], bs[1]]
            && HasObject(viaPdo.od, AO, 2) && ObjectAt(viaPdo.od, AO, 2) == [bs[2], bs[3]]
  {
    hide Store, SameShape, DefaultOd, Sdo.Receive, Sdo.ServerOk, DownloadAo, MovePdos;
    ShapeFacts(n);
    var p := AsAct(COB_RPDO2 + n.id, bs);
    var d1 := AsAct(COB_RSDO + n.id, DownloadAo(1, bs[0], bs[1]));
    var d2 := AsAct(COB_RSDO + n.id, DownloadAo(2, bs[2], bs[3]));
    assert bs[..2] == [bs[0], bs[1]] && bs[2..4] == [bs[2], bs[3]];
    DownloadAoStores(n, 1, bs[0], bs[1]);
    StepKeepsNode(n, d1);
    var m := Step(n, d1).node;
    DownloadAoStores(m, 2, bs[2], bs[3]);
    StepKeepsNode(m, d2);
    StepKeepsNode(n, p);
    RunOne(n, p);
    RunTwo(n, d1, d2);
    StoreShape(n.od, AO, 1, [bs[0], bs[1]]);
    StoreShape(m.od, AO, 2, [bs[2], bs[3]]);
  }

  lemma RunOne(n: Node, a: Act)
    requires NodeOk(n)
    ensures Run(n, [a]) == Step(n, a).node
  {
    hide Step, SameShape, Sdo.ServerOk;
    StepKeepsNode(n, a);
    assert [a][1..] == [];
    assert Run(Step(n, a).node, []) == Step(n, a).node;
  }

  lemma RunTwo(n: Node, a: Act, b: Act)
    requires NodeOk(n) && NodeOk(Step(n, a).node)
    ensures Run(n, [a, b]) == Step(Step(n, a).node, b).node
  {
    hide Step, SameShape, Sdo.ServerOk;
    assert [a, b][1..] == [b];
    RunOne(Step(n, a).node, b);
  }

  /** The little-endian bytes an RPDO2 brought in come back in the SDO upload of 0x6411. */
  lemma RpdoThenUpload(n: Node, bs: seq<byte>)
    requires NodeOk(n) && n.Operational() && |bs| >= 4
    ensures var m := Run(n, [AsAct(COB_RPDO2 + n.id, bs)]);
            && Step(m, AsAct(COB_RSDO + m.id, UploadAo(1))).out
               == [Frame(COB_TSDO + n.id, [0x4B, 0x11, 0x64, 1, bs[0], bs[1], 0, 0])]
            && Step(m, AsAct(COB_RSDO + m.id, UploadAo(2))).out
               == [Frame(COB_TSDO + n.id, [0x4B, 0x11, 0x64, 2, bs[2], bs[3], 0, 0])]
  {
    hide Store, SameShape, DefaultOd, Sdo.Receive, Sdo.ServerOk, DownloadAo, UploadAo, MovePdos, KeepsLong, Run, Step;
    var p := AsAct(COB_RPDO2 + n.id, bs);
    RpdoIsTwoDownloads(n, bs);
    RunOne(n, p);
    StepKeepsNode(n, p);
    RpdoKeepsPhase(n, bs);
    var m := Run(n, [p]);
    UploadAnswer(m, 1);
    UploadAnswer(m, 2);
    assert [0x4B, 0x11, 0x64, 1] + [bs[0], bs[1]] + [0, 0] == [0x4B, 0x11, 0x64, 1, bs[0], bs[1], 0, 0];
    assert [0x4B, 0x11, 0x64, 2] + [bs[2], bs[3]] + [0, 0] == [0x4B, 0x11, 0x64, 2, bs[2], bs[3], 0, 0];
  }

  lemma UploadAnswer(n: Node, s: byte)
    requires NodeOk(n) && n.nmt.phase != Nmt.Stopped && 1 <= s <= 2
    ensures HasObject(n.od, AO, s)
    ensures Step(n, AsAct(COB_RSDO + n.id, UploadAo(s))).out
            == [Frame(COB_TSDO + n.id, [0x4B, 0x11, 0x64, s] + ObjectAt(n.od, AO, s) + [0, 0])]
  {
    hide SameShape, DefaultOd, Sdo.Receive, Sdo.ServerOk, UploadAo, MovePdos;
    UploadAoReads(n, s);
  }

  lemma RpdoKeepsPhase(n: Node, bs: seq<byte>)
    requires NodeOk(n)
    ensures Step(n, AsAct(COB_RPDO2 + n.id, bs)).node.nmt == n.nmt
    ensures Step(n, AsAct(COB_RPDO2 + n.id, bs)).node.id == n.id
  {
    hide Store, SameShape, DefaultOd, Sdo.Receive, Sdo.ServerOk, MovePdos;
    ShapeFacts(n);
  }

  // ------------------------------------------------------------ TPDO timing on the node

  /** The moves a node run makes on TPDO 1 (or 2). */
  ghost function Moves(n: Node, acts: seq<Act>, first: bool): (moves: seq<Pdo.Move>)
    requires NodeOk(n)
    ensures |moves| == |acts|
    decreases |acts|
  {
    if |acts| == 0 then []
    else
      StepKeepsNode(n, acts[0]);
      [MoveOf(n, acts[0], first)] + Moves(Step(n, acts[0]).node, acts[1..], first)
  }

  lemma {:induction false} RunIsMoves(n: Node, acts: seq<Act>, first: bool)
    requires NodeOk(n)
    ensures (if first then Run(n, acts).tpdo1 else Run(n, acts).tpdo2)
            == Pdo.Run(if first then n.tpdo1 else n.tpdo2, Moves(n, acts, first))
    ensures Pdo.Time(Moves(n, acts, first)) == BusTime(acts)
    decreases |acts|
  {
    hide Step, SameShape, Sdo.ServerOk, Pdo.Step;
    if |acts| > 0 {
      StepKeepsNode(n, acts[0]);
      StepIsMove(n, acts[0]);
      var m := Step(n, acts[0]).node;
      RunIsMoves(m, acts[1..], first);
      assert Moves(n, acts, first)[1..] == Moves(m, acts[1..], first);
    }
  }

  /** The time that passes in a run, in milliseconds. */
  function BusTime(acts: seq<Act>): nat {
    if |acts| == 0 then 0 else (if acts[0].input.Pass? then acts[0].input.delta else 0) + BusTime(acts[1..])
  }

  lemma {:induction false} MoveAt(n: Node, acts: seq<Act>, first: bool, k: nat)
    requires NodeOk(n) && k < |acts|
    ensures Moves(n, acts, first)[k] == MoveOf(Run(n, acts[..k]), acts[k], first)
    ensures Moves(n, acts, first)[..k] == Moves(n, acts[..k], first)
    decreases |acts|
  {
    hide Step, SameShape, Sdo.ServerOk, MoveOf;
    if k > 0 {
      StepKeepsNode(n, acts[0]);
      var m := Step(n, acts[0]).node;
      MoveAt(m, acts[1..], first, k - 1);
      assert acts[..k][1..] == acts[1..][..k - 1];
      assert Moves(n, acts, first)[1..] == Moves(m, acts[1..], first);
      assert Moves(n, acts, first)[..k] == [MoveOf(n, acts[0], first)] + Moves(m, acts[1..], first)[..k - 1];
    }
  }

  /** A TPDO1 frame is handed to the transmitter exactly when the machine attempts one, and with the current
      inputs in it. */
  lemma Tpdo1OnTheBus(n: Node, a: Act)
    requires NodeOk(n)
    ensures Pdo.Attempts(n.tpdo1, MoveOf(n, a, true)) <==>
              exists k :: 0 <= k < |Step(n, a).out| && Step(n, a).out[k].cob == COB_TPDO1 + n.id
    ensures HasObject(n.od, DI, 1)
    ensures forall k | 0 <= k < |Step(n, a).out| && Step(n, a).out[k].cob == COB_TPDO1 + n.id ::
              Step(n, a).out[k] == Frame(COB_TPDO1 + n.id, ObjectAt(n.od, DI, 1))
  {
    hide Store, SameShape, DefaultOd, Sdo.Receive, Sdo.ServerOk, Pdo.Step, Nmt.Command, Pdo.CountDown;
    ShapeFacts(n);
    if Pdo.Attempts(n.tpdo1, MoveOf(n, a, true)) {
      if a.input.Pass? && Nmt.Elapse(n.nmt, a.input.delta).1 {
        assert Step(n, a).out[1].cob == COB_TPDO1 + n.id;
      } else {
        assert Step(n, a).out[0].cob == COB_TPDO1 + n.id;
      }
    }
  }

  /** A TPDO1 frame leaves the node and the transmitter takes it. */
  ghost predicate SendsTpdo1(n: Node, a: Act)
    requires NodeOk(n)
  {
    a.accepts1 && exists k :: 0 <= k < |Step(n, a).out| && Step(n, a).out[k].cob == COB_TPDO1 + n.id
  }

  lemma SendsTpdo1IsMove(n: Node, a: Act)
    requires NodeOk(n)
    ensures SendsTpdo1(n, a) <==> Pdo.Step(n.tpdo1, MoveOf(n, a, true)).1
  {
    hide Step, SameShape, DefaultOd, Sdo.ServerOk, Pdo.Step, Pdo.Attempts, MoveOf;
    Tpdo1OnTheBus(n, a);
    Pdo.SentIffAttemptAccepted(n.tpdo1, MoveOf(n, a, true));
    MoveAccepts(n, a);
  }

  lemma MoveAccepts(n: Node, a: Act)
    ensures MoveOf(n, a, true).accepted == a.accepts1
  {
  }

  predicate OperationalSync(n: Node, a: Act) {
    a.input.Receive? && a.input.cob == COB_SYNC && n.Operational()
  }

  /** No act of the run is a SYNC heard in OPERATIONAL. */
  ghost predicate NoOperationalSync(n: Node, acts: seq<Act>)
    requires NodeOk(n)
  {
    forall k | 0 <= k < |acts| :: !OperationalSync(Run(n, acts[..k]), acts[k])
  }

  lemma NoSyncMoves(n: Node, acts: seq<Act>)
    requires NodeOk(n) && NoOperationalSync(n, acts)
    ensures Pdo.NoSync(Moves(n, acts, true))
  {
    hide NodeOk, Run, Moves;
    forall k | 0 <= k < |acts|
      ensures var m := Moves(n, acts, true)[k]; !(m.Sync? && m.operational)
    {
      MoveAt(n, acts, true, k);
      assert !OperationalSync(Run(n, acts[..k]), acts[k]);
    }
  }

  /** The last act of the run sends a TPDO1 frame. */
  ghost predicate EndsWithTpdo1(n: Node, acts: seq<Act>)
    requires NodeOk(n) && |acts| > 0
  {
    SendsTpdo1(Run(n, acts[..|acts| - 1]), acts[|acts| - 1])
  }

  lemma EndsWithSend(n: Node, acts: seq<Act>)
    requires NodeOk(n) && |acts| > 0 && EndsWithTpdo1(n, acts)
    ensures Pdo.Sends(n.tpdo1, Moves(n, acts, true)) > 0
  {
    hide NodeOk, Run, Moves, SendsTpdo1, MoveOf, Pdo.Step;
    var last := |acts| - 1;
    MoveAt(n, acts, true, last);
    RunIsMoves(n, acts[..last], true);
    SendsTpdo1IsMove(Run(n, acts[..last]), acts[last]);
    Pdo.LastMoveSends(n.tpdo1, Moves(n, acts, true));
  }

  /** On the bus: two TPDO1 frames with no operational SYNC after the first, up to the second, are at least
      100 ms apart. */
  lemma Tpdo1FramesSpaced(n: Node, first: Act, acts: seq<Act>)
    requires NodeOk(n) && SendsTpdo1(n, first) && NodeOk(Step(n, first).node) && |acts| > 0
    requires NoOperationalSync(Step(n, first).node, acts) && EndsWithTpdo1(Step(n, first).node, acts)
    ensures BusTime(acts) >= 100
  {
    hide Step, Pdo.Step, SendsTpdo1, Run, Moves, NoOperationalSync, EndsWithTpdo1, MoveOf;
    var m := Step(n, first).node;
    SendsTpdo1IsMove(n, first);
    StepIsMove(n, first);
    NoSyncMoves(m, acts);
    EndsWithSend(m, acts);
    RunIsMoves(m, acts, true);
    Pdo.SendsAreSpaced(n.tpdo1, MoveOf(n, first, true), Moves(m, acts, true));
  }

  /** Operational all along, every frame accepted, passes of at most `longest` ms. */
  ghost predicate SteadyRun(n: Node, acts: seq<Act>, longest: nat)
    requires NodeOk(n)
  {
    forall k | 0 <= k < |acts| ::
      Run(n, acts[..k]).Operational() && acts[k].accepts1
      && (acts[k].input.Pass? ==> acts[k].input.delta <= longest)
  }

  lemma SteadyMoves(n: Node, acts: seq<Act>, longest: nat)
    requires NodeOk(n) && SteadyRun(n, acts, longest)
    ensures Pdo.Steady(Moves(n, acts, true), longest)
  {
    hide NodeOk, Run, Moves;
    forall k | 0 <= k < |acts|
      ensures var m := Moves(n, acts, true)[k];
              m.operational && m.accepted && (m.Elapse? ==> m.delta <= longest)
    {
      MoveAt(n, acts, true, k);
      assert Run(n, acts[..k]).Operational();
    }
  }

  /** No act of the run sends a TPDO1 frame. */
  ghost predicate NoTpdo1(n: Node, acts: seq<Act>)
    requires NodeOk(n)
  {
    forall k | 0 <= k < |acts| :: !SendsTpdo1(Run(n, acts[..k]), acts[k])
  }

  lemma {:induction false} NoSendNoMove(n: Node, acts: seq<Act>)
    requires NodeOk(n) && NoTpdo1(n, acts)
    ensures Pdo.Sends(n.tpdo1, Moves(n, acts, true)) == 0
    decreases |acts|
  {
    hide Step, SameShape, DefaultOd, Sdo.ServerOk, Pdo.Step, SendsTpdo1, MoveOf;
    if |acts| > 0 {
      StepKeepsNode(n, acts[0]);
      StepIsMove(n, acts[0]);
      var m := Step(n, acts[0]).node;
      assert Run(n, acts[..0]) == n;
      SendsTpdo1IsMove(n, acts[0]);
      NoTpdo1Tail(n, acts);
      NoSendNoMove(m, acts[1..]);
      assert Moves(n, acts, true)[1..] == Moves(m, acts[1..], true);
    }
  }

  lemma NoTpdo1Tail(n: Node, acts: seq<Act>)
    requires NodeOk(n) && |acts| > 0 && NoTpdo1(n, acts) && NodeOk(Step(n, acts[0]).node)
    ensures NoTpdo1(Step(n, acts[0]).node, acts[1..])
  {
    hide Step, NodeOk, SendsTpdo1;
    var m, rest := Step(n, acts[0]).node, acts[1..];
    forall k | 0 <= k < |rest|
      ensures !SendsTpdo1(Run(m, rest[..k]), rest[k])
    {
      assert acts[..k + 1][0] == acts[0] && acts[..k + 1][1..] == rest[..k];
      assert Run(n, acts[..k + 1]) == Run(m, rest[..k]);
    }
  }

  /** On the bus, in steady operation: no more than 1098 ms go by without a TPDO1 frame. */
  lemma Tpdo1NeverLongSilent(n: Node, first: Act, acts: seq<Act>, longest: nat)
    requires NodeOk(n) && SendsTpdo1(n, first) && NodeOk(Step(n, first).node) && |acts| > 0
    requires SteadyRun(Step(n, first).node, acts, longest) && NoTpdo1(Step(n, first).node, acts)
    ensures BusTime(acts) <= 1098
  {
    hide NodeOk, Step, Pdo.Step, SendsTpdo1, Run, Moves, SteadyRun, NoTpdo1, MoveOf;
    var m := Step(n, first).node;
    SendsTpdo1IsMove(n, first);
    StepIsMove(n, first);
    SteadyMoves(m, acts, longest);
    NoSendNoMove(m, acts);
    RunIsMoves(m, acts, true);
    var moves := Moves(m, acts, true);
    Pdo.FewerSends(m.tpdo1, moves);
    TimersOk(n);
    Pdo.SendsKeepComing(n.tpdo1, MoveOf(n, first, true), moves, longest);
  }

  lemma TimersOk(n: Node)
    requires NodeOk(n)
    ensures n.tpdo1.Valid() && n.tpdo2.Valid()
  {
  }

  /** Consecutive TPDO1 frames in steady operation are at most 1098 ms and the last pass apart. */
  lemma Tpdo1FramesKeepComing(n: Node, first: Act, acts: seq<Act>, last: Act, longest: nat)
    requires NodeOk(n) && SendsTpdo1(n, first) && NodeOk(Step(n, first).node) && |acts| > 0
    requires SteadyRun(Step(n, first).node, acts, longest) && NoTpdo1(Step(n, first).node, acts)
    requires last.input.Pass? ==> last.input.delta <= longest
    ensures BusTime(acts + [last]) <= 1098 + longest
  {
    Tpdo1NeverLongSilent(n, first, acts, longest);
    BusTimeSnoc(acts, last);
  }

  lemma {:induction false} BusTimeSnoc(acts: seq<Act>, a: Act)
    ensures BusTime(acts + [a]) == BusTime(acts) + (if a.input.Pass? then a.input.delta else 0)
    decreases |acts|
  {
    if |acts| == 0 {
      assert acts + [a] == [a] && [a][1..] == [];
    } else {
      assert (acts + [a])[1..] == acts[1..] + [a];
      BusTimeSnoc(acts[1..], a);
    }
  }

  // ------------------------------------------------------------ heartbeats on the node

  /** What an act is to the NMT slave; an act that does not concern it is a pass of no time. */
  function NmtEventOf(id: byte, a: Act): Nmt.Event {
    match a.input
    case Pass(delta) => Nmt.Pass(delta)
    case Receive(cob, data) => if cob == COB_NMT then Nmt.Frame(id, data) else Nmt.Pass(0)
    case SetPhase(phase) => Nmt.SetPhase(phase)
    case _ => Nmt.Pass(0)
  }

  function NmtEvents(id: byte, acts: seq<Act>): (events: seq<Nmt.Event>)
    ensures |events| == |acts|
  {
    seq(|acts|, i requires 0 <= i < |acts| => NmtEventOf(id, acts[i]))
  }

  lemma StepIsNmtStep(n: Node, a: Act)
    requires NodeOk(n)
    ensures Step(n, a).node.nmt == Nmt.Step(n.nmt, NmtEventOf(n.id, a)).0
  {
    hide Store, SameShape, DefaultOd, Sdo.Receive, Sdo.ServerOk, MovePdos, Nmt.Command;
    ShapeFacts(n);
    MovePdosKeeps(n, a);
    if a.input.Pass? {
      PhaseOfElapse(n.nmt, a.input.delta);
      PhaseKeepsNode(n, Nmt.Elapse(n.nmt, a.input.delta).0);
      MovePdosKeeps(n.(nmt := Nmt.Elapse(n.nmt, a.input.delta).0), a);
    }
  }

  /** A pass after which a heartbeat frame leaves the node. */
  ghost predicate SendsHeartbeat(n: Node, a: Act)
    requires NodeOk(n)
  {
    a.input.Pass? && exists k :: 0 <= k < |Step(n, a).out| && Step(n, a).out[k].cob == COB_HEARTBEAT + n.id
  }

  /** Heartbeat frames are exactly the beats of the NMT slave, and carry the state. */
  lemma HeartbeatOnTheBus(n: Node, a: Act)
    requires NodeOk(n)
    ensures SendsHeartbeat(n, a) <==> Nmt.Step(n.nmt, NmtEventOf(n.id, a)).1
    ensures SendsHeartbeat(n, a) ==> Step(n, a).out[0] == Frame(COB_HEARTBEAT + n.id, [Nmt.Code(n.nmt.phase)])
  {
    hide Store, SameShape, DefaultOd, Sdo.Receive, Sdo.ServerOk, Pdo.Step, Nmt.Command, Pdo.CountDown, Nmt.Minus16;
    ShapeFacts(n);
    if a.input.Pass? {
      PhaseOfElapse(n.nmt, a.input.delta);
      PhaseKeepsNode(n, Nmt.Elapse(n.nmt, a.input.delta).0);
      if Nmt.Elapse(n.nmt, a.input.delta).1 {
        assert Step(n, a).out[0].cob == COB_HEARTBEAT + n.id;
      }
    }
  }

  ghost function Heartbeats(n: Node, acts: seq<Act>): nat
    requires NodeOk(n)
    decreases |acts|
  {
    if |acts| == 0 then 0
    else
      StepKeepsNode(n, acts[0]);
      (if SendsHeartbeat(n, acts[0]) then 1 else 0) + Heartbeats(Step(n, acts[0]).node, acts[1..])
  }

  lemma {:induction false} HeartbeatsAreBeats(n: Node, acts: seq<Act>)
    requires NodeOk(n)
    ensures Heartbeats(n, acts) == Nmt.Beats(n.nmt, NmtEvents(n.id, acts))
    ensures Run(n, acts).nmt == Nmt.Run(n.nmt, NmtEvents(n.id, acts))
    ensures Nmt.Time(NmtEvents(n.id, acts)) == BusTime(acts)
    decreases |acts|
  {
    hide Step, NodeOk, SendsHeartbeat, Nmt.Step;
    if |acts| > 0 {
      StepKeepsNode(n, acts[0]);
      StepKeepsLong(n, acts[0]);
      StepIsNmtStep(n, acts[0]);
      HeartbeatOnTheBus(n, acts[0]);
      HeartbeatsAreBeats(Step(n, acts[0]).node, acts[1..]);
      assert NmtEvents(n.id, acts)[1..] == NmtEvents(n.id, acts[1..]);
    }
  }

  /** On the bus: consecutive heartbeat frames without a reset between them are at least the period and at most
      the period less one plus the longest pass apart. */
  lemma HeartbeatFramesSpaced(n: Node, first: Act, acts: seq<Act>, longest: nat)
    requires NodeOk(n) && n.nmt.period > 0 && SendsHeartbeat(n, first) && NodeOk(Step(n, first).node) && |acts| > 0
    requires forall k | 0 <= k < |acts| ::
               !Nmt.Resets(NmtEventOf(n.id, acts[k])) && (acts[k].input.Pass? ==> acts[k].input.delta <= longest)
    requires Heartbeats(Step(n, first).node, acts[..|acts| - 1]) == 0 && Heartbeats(Step(n, first).node, acts) > 0
    ensures n.nmt.period <= BusTime(acts) <= n.nmt.period - 1 + longest
  {
    hide Step, SendsHeartbeat, Nmt.Step, Heartbeats, Nmt.Resets, SameShape, DefaultOd, Sdo.ServerOk;
    var m := Step(n, first).node;
    StepKeepsLong(n, first);
    StepIsNmtStep(n, first);
    HeartbeatOnTheBus(n, first);
    HeartbeatsAreBeats(m, acts);
    HeartbeatsAreBeats(m, acts[..|acts| - 1]);
    var events := NmtEvents(n.id, acts);
    assert NmtEvents(n.id, acts[..|acts| - 1]) == events[..|events| - 1];
    Nmt.HeartbeatSpacing(n.nmt, NmtEventOf(n.id, first), events, longest);
  }

  /** On the bus: however time is cut up, heartbeat frames never come faster than the period. */
  lemma HeartbeatFramesRate(n: Node, acts: seq<Act>)
    requires NodeOk(n) && n.nmt.period > 0
    ensures Heartbeats(n, acts) * n.nmt.period <= BusTime(acts) + (n.nmt.period - n.nmt.timer)
  {
    hide Heartbeats, SameShape, DefaultOd, Sdo.ServerOk;
    HeartbeatsAreBeats(n, acts);
    Nmt.HeartbeatRate(n.nmt, NmtEvents(n.id, acts));
  }
}
