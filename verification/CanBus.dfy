/** The CANopen node as it shows on the bus: what NMT commands, process data and foreign frames do to it. */
module CanBus {
  import opened Bytes
  import opened ObjectDictionary
  import opened CanNode
  import opened CanRuns
  import CanAccess
  import Requests
  import Sdo
  import Nmt
  import Pdo

  function Incoming(cob: nat, data: seq<byte>): Act {
    Act(Receive(cob, data), true, true)
  }

  function Waiting(delta: nat): Act {
    Act(Pass(delta), true, true)
  }

  /** What the node makes of an RPDO1, an RPDO2 and an SDO request. */
  function OnRpdo1(n: Node, data: seq<byte>): Turn
    requires NodeOk(n)
  {
    Step(n, Incoming(0x200 + n.id, data))
  }

  function OnRpdo2(n: Node, data: seq<byte>): Turn
    requires NodeOk(n)
  {
    Step(n, Incoming(0x300 + n.id, data))
  }

  function OnSdo(n: Node, data: seq<byte>): Turn
    requires NodeOk(n)
  {
    Step(n, Incoming(0x600 + n.id, data))
  }

  // ------------------------------------------------------------ process data

  /** Only this object differs. */
  ghost predicate OnlyChanged(a: Od, b: Od, e: nat, s: nat) {
    && SameShape(a, b)
    && forall x, y | HasObject(a, x, y) && (x != e || y != s) :: ObjectAt(b, x, y) == ObjectAt(a, x, y)
  }

  lemma StoreChangesOne(od: Od, e: nat, s: nat, data: seq<byte>)
    requires HasObject(od, e, s) && |data| == |ObjectAt(od, e, s)|
    ensures OnlyChanged(od, Store(od, e, s, data), e, s) && ObjectAt(Store(od, e, s, data), e, s) == data
  {
    StoreShape(od, e, s, data);
  }

  /** The variables the process data lives in, by index. */
  lemma Places(n: Node)
    requires NodeOk(n)
    ensures |n.od| == 19
    ensures n.od[15].index == 0x6000 && n.od[16].index == 0x6200 && n.od[17].index == 0x6401 && n.od[18].index == 0x6411
    ensures HasObject(n.od, 15, 1) && |ObjectAt(n.od, 15, 1)| == 1
    ensures HasObject(n.od, 16, 1) && |ObjectAt(n.od, 16, 1)| == 1
    ensures forall s | 1 <= s <= 4 :: HasObject(n.od, 17, s) && |ObjectAt(n.od, 17, s)| == 2
    ensures forall s | 1 <= s <= 2 :: HasObject(n.od, 18, s) && |ObjectAt(n.od, 18, s)| == 2
  {
    var d := DefaultOd(n.id);
    assert d[15].subs == DefaultSubs(15, n.id) && d[16].subs == DefaultSubs(16, n.id);
    assert d[17].subs == DefaultSubs(17, n.id) && d[18].subs == DefaultSubs(18, n.id);
    assert forall e | 0 <= e < 19 :: n.od[e].index == d[e].index;
  }

  /** An RPDO1 (0x200 + id) of at least one byte sets the digital outputs (0x6200 sub 1) in OPERATIONAL; otherwise it is
      refused. */
  lemma Rpdo1(n: Node, data: seq<byte>)
    requires NodeOk(n)
    ensures HasObject(n.od, 16, 1)
    ensures var t := OnRpdo1(n, data);
            && t.out == [] && t.node == n.(od := t.node.od)
            && (t.taken <==> n.Operational() && |data| >= 1)
            && (t.taken ==> OnlyChanged(n.od, t.node.od, 16, 1) && ObjectAt(t.node.od, 16, 1) == [data[0]])
            && (!t.taken ==> t.node == n)
  {
    hide Store, SameShape, DefaultOd, Sdo.Receive, Sdo.ServerOk, MovePdos, OnlyChanged, Nmt.Command;
    ShapeFacts(n);
    if |data| >= 1 {
      StoreChangesOne(n.od, 16, 1, data[..1]);
    }
  }

  /** An RPDO2 (0x300 + id) of less than four bytes, or outside OPERATIONAL, is refused; the other ones are in
      `CanRuns.RpdoIsTwoDownloads`. */
  lemma Rpdo2Refused(n: Node, data: seq<byte>)
    requires NodeOk(n)
    ensures var t := OnRpdo2(n, data);
            && t.out == [] && (t.taken <==> n.Operational() && |data| >= 4) && (!t.taken ==> t.node == n)
  {
    hide Store, SameShape, DefaultOd, Sdo.Receive, Sdo.ServerOk, MovePdos, Nmt.Command;
    ShapeFacts(n);
  }

  /** The digital inputs, and the four analog inputs one after the other, as their frames carry them. */
  ghost predicate CarriesInputs(n: Node, f: Frame)
    requires NodeOk(n)
  {
    Places(n);
    f == Frame(0x180 + n.id, ObjectAt(n.od, 15, 1))
  }

  ghost predicate CarriesAnalog(n: Node, f: Frame)
    requires NodeOk(n)
  {
    Places(n);
    && f.cob == 0x280 + n.id && |f.data| == 8
    && f.data[0..2] == ObjectAt(n.od, 17, 1) && f.data[2..4] == ObjectAt(n.od, 17, 2)
    && f.data[4..6] == ObjectAt(n.od, 17, 3) && f.data[6..8] == ObjectAt(n.od, 17, 4)
  }

  lemma FramesCarry(n: Node)
    requires NodeOk(n)
    ensures HasObject(n.od, DI, 1) && forall s | 1 <= s <= 4 :: HasObject(n.od, AI, s)
    ensures CarriesInputs(n, Tpdo1Frame(n)) && CarriesAnalog(n, Tpdo2Frame(n))
  {
    hide SameShape, DefaultOd, Sdo.ServerOk;
    Places(n);
    var a, b, c, d := ObjectAt(n.od, 17, 1), ObjectAt(n.od, 17, 2), ObjectAt(n.od, 17, 3), ObjectAt(n.od, 17, 4);
    var all := a + b + c + d;
    assert all[0..2] == a && all[2..4] == b && all[4..6] == c && all[6..8] == d;
  }

  /** A SYNC in OPERATIONAL sends both TPDOs with the current inputs, whatever their inhibit times; in any other state
      it sends nothing and changes nothing. */
  lemma SyncSendsBoth(n: Node, data: seq<byte>, accepts1: bool, accepts2: bool)
    requires NodeOk(n)
    ensures var t := Step(n, Act(Receive(0x080, data), accepts1, accepts2));
            && t.taken
            && (!n.Operational() ==> t.node == n && t.out == [])
            && (n.Operational() ==> |t.out| == 2 && CarriesInputs(n, t.out[0]) && CarriesAnalog(n, t.out[1]))
  {
    hide Store, SameShape, DefaultOd, Sdo.Receive, Sdo.ServerOk, Nmt.Command, CarriesInputs, CarriesAnalog;
    hide Tpdo1Frame, Tpdo2Frame;
    ShapeFacts(n);
    FramesCarry(n);
  }

  /** A pass of time: first the heartbeat when its countdown is over, then each TPDO when the node is operational, its
      event time is over and its inhibit time too. */
  lemma PassSends(n: Node, delta: nat, accepts1: bool, accepts2: bool)
    requires NodeOk(n)
    ensures var t := Step(n, Act(Pass(delta), accepts1, accepts2));
            var beat := n.nmt.period > 0 && delta >= n.nmt.timer;
            var one := n.Operational() && delta >= n.tpdo1.event && delta >= n.tpdo1.inhibit;
            var two := n.Operational() && delta >= n.tpdo2.event && delta >= n.tpdo2.inhibit;
            var k1: nat := if beat then 1 else 0;
            var k2: nat := if one then k1 + 1 else k1;
            && |t.out| == (if two then k2 + 1 else k2)
            && (beat ==> t.out[0] == Frame(0x700 + n.id, [Nmt.Code(n.nmt.phase)]))
            && (one ==> CarriesInputs(n, t.out[k1]))
            && (two ==> CarriesAnalog(n, t.out[k2]))
  {
    hide Store, SameShape, DefaultOd, Sdo.Receive, Sdo.ServerOk, Nmt.Command, CarriesInputs, CarriesAnalog;
    hide Tpdo1Frame, Tpdo2Frame, Pdo.Step, Pdo.CountDown, Nmt.Minus16;
    ShapeFacts(n);
    CountDownOver(n.tpdo1.inhibit, delta);
    CountDownOver(n.tpdo2.inhibit, delta);
    var m := n.(nmt := Nmt.Elapse(n.nmt, delta).0);
    PhaseOfElapse(n.nmt, delta);
    PhaseKeepsNode(n, m.nmt);
    FramesCarry(n);
    SameFrames(n, m);
  }

  lemma CountDownOver(counter: word, delta: nat)
    ensures Pdo.CountDown(counter, delta) == 0 <==> delta >= counter
  {
  }

  lemma SameFrames(n: Node, m: Node)
    requires NodeOk(n) && m == n.(nmt := m.nmt)
    ensures HasObject(n.od, DI, 1) && Tpdo1Frame(m) == Tpdo1Frame(n)
    ensures (forall s | 1 <= s <= 4 :: HasObject(n.od, AI, s)) && Tpdo2Frame(m) == Tpdo2Frame(n)
  {
    hide SameShape, DefaultOd, Sdo.ServerOk;
    ShapeFacts(n);
  }

  /** A triggered TPDO goes out in OPERATIONAL when its inhibit time is over, and nothing else does. */
  lemma TriggersSend(n: Node, accepts1: bool, accepts2: bool)
    requires NodeOk(n)
    ensures var t := Step(n, Act(TriggerTpdo1, accepts1, accepts2));
            && (if n.Operational() && n.tpdo1.inhibit == 0
                then |t.out| == 1 && CarriesInputs(n, t.out[0]) else t.out == [])
            && t.node == n.(tpdo1 := t.node.tpdo1)
    ensures var t := Step(n, Act(TriggerTpdo2, accepts1, accepts2));
            && (if n.Operational() && n.tpdo2.inhibit == 0
                then |t.out| == 1 && CarriesAnalog(n, t.out[0]) else t.out == [])
            && t.node == n.(tpdo2 := t.node.tpdo2)
  {
    hide Store, SameShape, DefaultOd, Sdo.Receive, Sdo.ServerOk, Nmt.Command, CarriesInputs, CarriesAnalog;
    hide Tpdo1Frame, Tpdo2Frame;
    ShapeFacts(n);
    FramesCarry(n);
    Pdo.IdleMove(n.tpdo1, n.Operational(), accepts1);
    Pdo.IdleMove(n.tpdo2, n.Operational(), accepts2);
  }

  /** The application's inputs land in 0x6000 sub 1 and 0x6401 sub 1 to 4, low byte first, and nowhere else. */
  lemma InputsLand(n: Node, inputs: byte, channel: nat, low: byte, high: byte)
    requires NodeOk(n)
    ensures HasObject(n.od, 15, 1) && forall s | 1 <= s <= 4 :: HasObject(n.od, 17, s)
    ensures var m := Step(n, Act(SetDigitalInputs(inputs), true, true)).node;
            OnlyChanged(n.od, m.od, 15, 1) && ObjectAt(m.od, 15, 1) == [inputs] && m == n.(od := m.od)
    ensures var m := Step(n, Act(SetAnalogInput(channel, low, high), true, true)).node;
            && m == n.(od := m.od)
            && (channel >= 4 ==> m == n)
            && (channel < 4 ==>
                  OnlyChanged(n.od, m.od, 17, channel + 1) && ObjectAt(m.od, 17, channel + 1) == [low, high])
  {
    hide Store, SameShape, DefaultOd, Sdo.Receive, Sdo.ServerOk, MovePdos, OnlyChanged;
    ShapeFacts(n);
    StoreChangesOne(n.od, 15, 1, [inputs]);
    if channel < 4 {
      StoreChangesOne(n.od, 17, channel + 1, [low, high]);
    }
  }

  /** A frame that is neither a command, a SYNC, an SDO request nor an RPDO of this node is not taken. */
  lemma ForeignFrame(n: Node, cob: nat, data: seq<byte>)
    requires NodeOk(n)
    requires cob !in {0, 0x080, 0x200 + n.id as int, 0x300 + n.id as int, 0x600 + n.id as int}
    ensures Step(n, Incoming(cob, data)) == Turn(n, false, [])
  {
    hide Store, SameShape, DefaultOd, Sdo.Receive, Sdo.ServerOk, MovePdos;
    ShapeFacts(n);
  }

  // ------------------------------------------------------------ the states on the bus

  /** Whenever the next heartbeat goes out, it carries this state. */
  ghost predicate BeatsWith(n: Node, state: byte)
    requires NodeOk(n)
  {
    forall delta: nat | n.nmt.period > 0 && delta >= n.nmt.timer ::
      |Step(n, Waiting(delta)).out| > 0 && Step(n, Waiting(delta)).out[0] == Frame(0x700 + n.id, [state])
  }

  /** No heartbeat goes out earlier. */
  ghost predicate SilentBefore(n: Node, timer: nat)
    requires NodeOk(n)
  {
    forall delta: nat | delta < timer :: !SendsHeartbeat(n, Waiting(delta))
  }

  /** RPDOs are taken. */
  ghost predicate TakesRpdos(n: Node)
    requires NodeOk(n)
  {
    && (forall data: seq<byte> | |data| >= 1 :: OnRpdo1(n, data).taken)
    && (forall data: seq<byte> | |data| >= 4 :: OnRpdo2(n, data).taken)
  }

  /** RPDOs are refused and change nothing. */
  ghost predicate RefusesRpdos(n: Node)
    requires NodeOk(n)
  {
    && (forall data: seq<byte> :: OnRpdo1(n, data) == Turn(n, false, []))
    && (forall data: seq<byte> :: OnRpdo2(n, data) == Turn(n, false, []))
  }

  /** Every SDO request but an abort is answered with one frame of eight bytes. */
  ghost predicate AnswersSdo(n: Node)
    requires NodeOk(n)
  {
    forall data: seq<byte> | |data| == 8 && data[0] != 0x80 ::
      var out := OnSdo(n, data).out;
      |out| == 1 && out[0].cob == 0x580 + n.id && |out[0].data| == 8 && OnSdo(n, data).taken
  }

  /** SDO requests are not answered and change nothing. */
  ghost predicate IgnoresSdo(n: Node)
    requires NodeOk(n)
  {
    forall data: seq<byte> :: OnSdo(n, data) == Turn(n, false, [])
  }

  lemma BeatsWithPhase(n: Node)
    requires NodeOk(n)
    ensures BeatsWith(n, Nmt.Code(n.nmt.phase))
    ensures SilentBefore(n, n.nmt.timer)
  {
    hide Step, SameShape, DefaultOd, Sdo.ServerOk;
    forall delta: nat | n.nmt.period > 0 && delta >= n.nmt.timer
      ensures |Step(n, Waiting(delta)).out| > 0
              && Step(n, Waiting(delta)).out[0] == Frame(0x700 + n.id, [Nmt.Code(n.nmt.phase)])
    {
      PassSends(n, delta, true, true);
    }
    forall delta: nat | delta < n.nmt.timer
      ensures !SendsHeartbeat(n, Waiting(delta))
    {
      HeartbeatOnTheBus(n, Waiting(delta));
    }
  }

  lemma RpdosByState(n: Node)
    requires NodeOk(n)
    ensures if n.nmt.phase == Nmt.Operational then TakesRpdos(n) else RefusesRpdos(n)
  {
    hide Step, SameShape, DefaultOd, Sdo.ServerOk, OnlyChanged, OnRpdo1, OnRpdo2;
    forall data: seq<byte>
      ensures OnRpdo1(n, data).out == [] && (OnRpdo1(n, data).taken <==> n.Operational() && |data| >= 1)
              && (!OnRpdo1(n, data).taken ==> OnRpdo1(n, data).node == n)
    {
      Rpdo1(n, data);
    }
    forall data: seq<byte>
      ensures OnRpdo2(n, data).out == [] && (OnRpdo2(n, data).taken <==> n.Operational() && |data| >= 4)
              && (!OnRpdo2(n, data).taken ==> OnRpdo2(n, data).node == n)
    {
      Rpdo2Refused(n, data);
    }
  }

  lemma SdoByState(n: Node)
    requires NodeOk(n)
    ensures if n.nmt.phase == Nmt.Stopped then IgnoresSdo(n) else AnswersSdo(n)
  {
    hide Step, SameShape, DefaultOd, Sdo.ServerOk, Sdo.Receive;
    if n.nmt.phase == Nmt.Stopped {
      forall data: seq<byte>
        ensures OnSdo(n, data) == Turn(n, false, [])
      {
        StoppedSdo(n, data);
      }
    } else {
      forall data: seq<byte> | |data| == 8 && data[0] != 0x80
        ensures var out := OnSdo(n, data).out;
                |out| == 1 && out[0].cob == 0x580 + n.id && |out[0].data| == 8 && OnSdo(n, data).taken
      {
        SdoAnswerOnTheBus(n, Incoming(0x600 + n.id, data));
        AlwaysAnswered(n, data);
      }
    }
  }

  lemma StoppedSdo(n: Node, data: seq<byte>)
    requires NodeOk(n) && n.nmt.phase == Nmt.Stopped
    ensures OnSdo(n, data) == Turn(n, false, [])
  {
    hide SameShape, DefaultOd, Sdo.ServerOk, Sdo.Receive, MovePdos;
    ShapeFacts(n);
  }

  lemma AlwaysAnswered(n: Node, data: seq<byte>)
    requires NodeOk(n) && |data| == 8 && data[0] != 0x80
    ensures Sdo.Receive(n.od, n.sdo, data).answer.Some? && Sdo.Receive(n.od, n.sdo, data).taken
  {
    hide SameShape, DefaultOd, Locate, Write, Sdo.Padded, Sdo.Abort;
  }

  // ------------------------------------------------------------ the commands

  /** A command for this node, with anything behind its two bytes. */
  predicate Commands(n: Node, data: seq<byte>, command: byte) {
    |data| >= 2 && data[0] == command && (data[1] == 0 || data[1] == n.id)
  }

  lemma CommandStep(n: Node, data: seq<byte>)
    requires NodeOk(n)
    ensures var t := Step(n, Incoming(0, data));
            var (nmt, taken, boots) := Nmt.Command(n.nmt, n.id, data);
            && t == Turn(n.(nmt := nmt), taken, if boots then [Frame(0x700 + n.id, [0])] else [])
            && NodeOk(t.node)
  {
    hide SameShape, DefaultOd, Sdo.ServerOk, Sdo.Receive, MovePdos;
    ShapeFacts(n);
  }

  lemma InState(n: Node)
    requires NodeOk(n)
    ensures n.nmt.phase == Nmt.Operational ==> TakesRpdos(n) && AnswersSdo(n) && BeatsWith(n, 0x05)
    ensures n.nmt.phase == Nmt.Stopped ==> RefusesRpdos(n) && IgnoresSdo(n) && BeatsWith(n, 0x04)
    ensures n.nmt.phase == Nmt.PreOperational ==> RefusesRpdos(n) && AnswersSdo(n) && BeatsWith(n, 0x7F)
    ensures n.nmt.phase == Nmt.Initialisation ==> RefusesRpdos(n) && AnswersSdo(n) && BeatsWith(n, 0x00)
    ensures SilentBefore(n, n.nmt.timer)
  {
    hide NodeOk, Step, TakesRpdos, RefusesRpdos, AnswersSdo, IgnoresSdo, BeatsWith, SilentBefore;
    BeatsWithPhase(n);
    RpdosByState(n);
    SdoByState(n);
  }

  /** 0x01: RPDOs are taken, SDO requests answered, heartbeats carry 05; the countdown runs on. */
  lemma StartCommand(n: Node, data: seq<byte>)
    requires NodeOk(n) && Commands(n, data, 0x01)
    ensures NodeOk(Step(n, Incoming(0, data)).node)
    ensures var t := Step(n, Incoming(0, data));
            && t.taken && t.out == [] && t.node == n.(nmt := t.node.nmt) && t.node.nmt.timer == n.nmt.timer
            && TakesRpdos(t.node) && AnswersSdo(t.node) && BeatsWith(t.node, 0x05)
            && SilentBefore(t.node, n.nmt.timer)
  {
    hide NodeOk, Step, TakesRpdos, RefusesRpdos, AnswersSdo, IgnoresSdo, BeatsWith, SilentBefore;
    CommandStep(n, data);
    InState(Step(n, Incoming(0, data)).node);
  }

  /** 0x02: RPDOs are refused, SDO requests not answered, heartbeats carry 04; the countdown runs on. */
  lemma StopCommand(n: Node, data: seq<byte>)
    requires NodeOk(n) && Commands(n, data, 0x02)
    ensures NodeOk(Step(n, Incoming(0, data)).node)
    ensures var t := Step(n, Incoming(0, data));
            && t.taken && t.out == [] && t.node == n.(nmt := t.node.nmt) && t.node.nmt.timer == n.nmt.timer
            && RefusesRpdos(t.node) && IgnoresSdo(t.node) && BeatsWith(t.node, 0x04)
            && SilentBefore(t.node, n.nmt.timer)
  {
    hide NodeOk, Step, TakesRpdos, RefusesRpdos, AnswersSdo, IgnoresSdo, BeatsWith, SilentBefore;
    CommandStep(n, data);
    InState(Step(n, Incoming(0, data)).node);
  }

  /** 0x80, 0x81 and 0x82: RPDOs are refused, SDO requests answered, heartbeats carry 7F. The two resets, and only they,
      send the boot-up frame and restart the heartbeat period. */
  lemma PreOperationalCommands(n: Node, data: seq<byte>, command: byte)
    requires NodeOk(n) && Commands(n, data, command) && command in {0x80, 0x81, 0x82}
    ensures NodeOk(Step(n, Incoming(0, data)).node)
    ensures var t := Step(n, Incoming(0, data));
            var timer := if command == 0x80 then n.nmt.timer else n.nmt.period;
            && t.taken && t.out == (if command == 0x80 then [] else [Frame(0x700 + n.id, [0])])
            && t.node == n.(nmt := t.node.nmt) && t.node.nmt.timer == timer
            && RefusesRpdos(t.node) && AnswersSdo(t.node) && BeatsWith(t.node, 0x7F)
            && SilentBefore(t.node, timer)
  {
    hide NodeOk, Step, TakesRpdos, RefusesRpdos, AnswersSdo, IgnoresSdo, BeatsWith, SilentBefore;
    CommandStep(n, data);
    InState(Step(n, Incoming(0, data)).node);
  }

  /** Every other command byte, another node's number and a frame of less than two bytes change nothing. */
  lemma OtherCommands(n: Node, data: seq<byte>)
    requires NodeOk(n)
    requires forall command | command in {0x01, 0x02, 0x80, 0x81, 0x82} :: !Commands(n, data, command)
    ensures Step(n, Incoming(0, data)) == Turn(n, false, [])
  {
    hide NodeOk, Step;
    CommandStep(n, data);
    assert !Commands(n, data, 0x01) && !Commands(n, data, 0x02) && !Commands(n, data, 0x80);
    assert !Commands(n, data, 0x81) && !Commands(n, data, 0x82);
  }

  /** A node starts in PRE-OPERATIONAL with a heartbeat every second. */
  lemma PowerUp(id: byte)
    requires 1 <= id < 128
    ensures var n := Init(id);
            && NodeOk(n) && n.nmt.period == n.nmt.timer == 1000 && !n.sdo.active
            && n.tpdo1 == n.tpdo2 == Pdo.Tpdo(1000, 0)
            && RefusesRpdos(n) && AnswersSdo(n) && BeatsWith(n, 0x7F) && SilentBefore(n, 1000)
            && Bootup(id) == Frame(0x700 + id, [0])
  {
    InitIsOk(id);
    hide NodeOk, Step, TakesRpdos, RefusesRpdos, AnswersSdo, IgnoresSdo, BeatsWith, SilentBefore;
    InState(Init(id));
  }

  // ------------------------------------------------------------ what nobody on the bus can change

  /** The application sets the inputs; nothing else does. */
  predicate SetsInputs(a: Act) {
    a.input.SetDigitalInputs? || a.input.SetAnalogInput?
  }

  /** The variables that may be written by SDO: heartbeat time, PDO communication parameters and outputs. */
  lemma Writables(n: Node, e: nat, s: nat)
    requires NodeOk(n) && HasObject(n.od, e, s)
    ensures Bit(AccessAt(n.od, e, s), 1) <==>
              var index := n.od[e].index;
              || index == 0x1017
              || (index in {0x1400, 0x1401} && 1 <= s <= 2)
              || (index in {0x1800, 0x1801} && s in {1, 2, 3, 5})
              || (index in {0x6200, 0x6411} && s >= 1)
  {
    var d := DefaultOd(n.id);
    assert d[e].subs == DefaultSubs(e, n.id) && d[e].index == n.od[e].index;
    assert AccessAt(n.od, e, s) == d[e].subs[s].access;
    assert Bit(READ_WRITE, 1) && !Bit(READ_ONLY, 1);
  }

  lemma RpdoKeepsReadOnly(n: Node, data: seq<byte>)
    requires NodeOk(n)
    ensures |data| >= 1 ==> HasObject(n.od, DO, 1) && CanAccess.KeepsReadOnly(n.od, Store(n.od, DO, 1, data[..1]))
    ensures |data| >= 4 ==>
              && HasObject(n.od, AO, 1) && HasObject(Store(n.od, AO, 1, data[..2]), AO, 2)
              && CanAccess.KeepsReadOnly(n.od, Store(Store(n.od, AO, 1, data[..2]), AO, 2, data[2..4]))
  {
    hide Store, SameShape, DefaultOd, Sdo.ServerOk, CanAccess.KeepsReadOnly, Bit;
    ShapeFacts(n);
    Places(n);
    Writables(n, DO, 1);
    Writables(n, AO, 1);
    Writables(n, AO, 2);
    if |data| >= 1 {
      CanAccess.StoreKeepsReadOnly(n.od, DO, 1, data[..1]);
    }
    if |data| >= 4 {
      var mid := Store(n.od, AO, 1, data[..2]);
      CanAccess.StoreKeepsReadOnly(n.od, AO, 1, data[..2]);
      StoreShape(n.od, AO, 1, data[..2]);
      assert AccessAt(mid, AO, 2) == AccessAt(n.od, AO, 2) by {
        SameAccess(n.od, mid, AO, 2);
      }
      CanAccess.StoreKeepsReadOnly(mid, AO, 2, data[2..4]);
      CanAccess.KeptThroughout(n.od, mid, Store(mid, AO, 2, data[2..4]));
    }
  }

  lemma SameAccess(a: Od, b: Od, e: nat, s: nat)
    requires SameShape(a, b) && HasObject(a, e, s)
    ensures HasObject(b, e, s) && AccessAt(b, e, s) == AccessAt(a, e, s)
  {
  }

  lemma StepKeepsReadOnly(n: Node, a: Act)
    requires NodeOk(n) && !SetsInputs(a)
    ensures CanAccess.KeepsReadOnly(n.od, Step(n, a).node.od)
  {
    hide Store, SameShape, DefaultOd, Sdo.Receive, Sdo.ServerOk, MovePdos, CanAccess.KeepsReadOnly, Nmt.Command;
    ShapeFacts(n);
    CanAccess.NothingLost(n.od);
    MovePdosKeeps(n, a);
    match a.input
    case Receive(cob, data) =>
      CanAccess.ReceiveKeepsReadOnly(n.od, n.sdo, data);
      RpdoKeepsReadOnly(n, data);
    case Pass(delta) =>
      PhaseOfElapse(n.nmt, delta);
      PhaseKeepsNode(n, Nmt.Elapse(n.nmt, delta).0);
      MovePdosKeeps(n.(nmt := Nmt.Elapse(n.nmt, delta).0), a);
    case _ =>
  }

  /** Over every run: a variable without write access keeps its memory, except that the application sets the inputs
      0x6000 and 0x6401. */
  lemma {:induction false} ReadOnlyOverRuns(n: Node, acts: seq<Act>, e: nat, s: nat)
    requires NodeOk(n) && HasObject(n.od, e, s) && !Bit(AccessAt(n.od, e, s), 1)
    requires n.od[e].index !in {0x6000, 0x6401} || forall k | 0 <= k < |acts| :: !SetsInputs(acts[k])
    ensures HasObject(Run(n, acts).od, e, s) && ObjectAt(Run(n, acts).od, e, s) == ObjectAt(n.od, e, s)
    decreases |acts|
  {
    hide Step, SameShape, DefaultOd, Sdo.ServerOk, Bit;
    if |acts| > 0 {
      StepKeepsNode(n, acts[0]);
      StepKeepsOne(n, acts[0], e, s);
      ReadOnlyOverRuns(Step(n, acts[0]).node, acts[1..], e, s);
    }
  }

  lemma StepKeepsOne(n: Node, a: Act, e: nat, s: nat)
    requires NodeOk(n) && HasObject(n.od, e, s) && !Bit(AccessAt(n.od, e, s), 1)
    requires n.od[e].index !in {0x6000, 0x6401} || !SetsInputs(a)
    ensures var m := Step(n, a).node;
            && HasObject(m.od, e, s) && ObjectAt(m.od, e, s) == ObjectAt(n.od, e, s)
            && AccessAt(m.od, e, s) == AccessAt(n.od, e, s) && m.od[e].index == n.od[e].index
  {
    hide Step, Bit, DefaultOd, Sdo.ServerOk;
    var m := Step(n, a).node;
    StepKeepsLong(n, a);
    SameAccess(n.od, m.od, e, s);
    if SetsInputs(a) {
      Places(n);
      match a.input
      case SetDigitalInputs(inputs) => InputsStep(n, a, inputs, 4, 0, 0);
      case SetAnalogInput(channel, low, high) => InputsStep(n, a, 0, channel, low, high);
    } else {
      StepKeepsReadOnly(n, a);
    }
  }

  lemma InputsStep(n: Node, a: Act, inputs: byte, channel: nat, low: byte, high: byte)
    requires NodeOk(n) && (a.input == SetDigitalInputs(inputs) || a.input == SetAnalogInput(channel, low, high))
    ensures var m := Step(n, a).node;
            forall x, y | HasObject(n.od, x, y) && x != 15 && x != 17 ::
              HasObject(m.od, x, y) && ObjectAt(m.od, x, y) == ObjectAt(n.od, x, y)
  {
    hide Store, SameShape, DefaultOd, Sdo.ServerOk, Sdo.Receive, MovePdos;
    ShapeFacts(n);
    StoreShape(n.od, DI, 1, [inputs]);
    if channel < 4 {
      StoreShape(n.od, AI, channel + 1, [low, high]);
    }
  }

  /** On the bus: a download to the digital inputs is refused with 0x06010002, and the node stays as it is. */
  lemma InputsCannotBeWritten(n: Node, data: seq<byte>)
    requires NodeOk(n) && n.nmt.phase != Nmt.Stopped
    requires |data| == 8 && 0x20 <= data[0] < 0x40 && data[0] / 2 % 2 == 1 && data[1..4] == [0x00, 0x60, 0x01]
    ensures OnSdo(n, data)
            == Turn(n, true, [Frame(0x580 + n.id, [0x80, 0x00, 0x60, 0x01, 0x02, 0x00, 0x01, 0x06])])
  {
    hide Store, SameShape, DefaultOd, Sdo.Receive, Sdo.ServerOk, MovePdos, Locate, Bit, CanAccess.AbortOf;
    Places(n);
    InputsLocated(n);
    assert data[1] == data[1..4][0] && data[2] == data[1..4][1] && data[3] == data[1..4][2];
    Writables(n, 15, 1);
    CanAccess.DownloadAnswer(n.od, n.sdo, data);
    AbortOfInputs(data);
    ShapeFacts(n);
  }

  lemma AbortOfInputs(data: seq<byte>)
    requires |data| == 8 && data[1] == 0x00 && data[2] == 0x60 && data[3] == 0x01
    ensures CanAccess.AbortOf(data, [0x02, 0x00, 0x01, 0x06]) == [0x80, 0x00, 0x60, 0x01, 0x02, 0x00, 0x01, 0x06]
  {
  }

  lemma InputsLocated(n: Node)
    requires NodeOk(n)
    ensures Locate(n.od, 0x6000, 1) == Found(15, 1)
  {
    hide FindFrom;
    Places(n);
    var d := DefaultOd(n.id);
    assert forall e | 0 <= e < 15 :: d[e].index == INDICES[e] != 0x6000;
    assert forall e | 0 <= e < 15 :: n.od[e].index == d[e].index;
    assert CanAccess.FirstWith(n.od, 15, 0x6000);
    CanAccess.LookupMeans(n.od, 0x6000, 1);
  }

  // ------------------------------------------------------------ the default dictionary tells the truth

  /** What the variable holds; [] when there is none. */
  function Held(od: Od, index: word, sub: byte): seq<byte> {
    match Locate(od, index, sub)
    case Missing(_) => []
    case Found(e, s) => ObjectAt(od, e, s)
  }

  function Value(bytes: seq<byte>): nat {
    if |bytes| == 0 then 0 else bytes[0] as int + 256 * Value(bytes[1..])
  }

  lemma HeldAt(id: byte, e: nat, s: byte)
    requires id < 128 && e < 19 && HasObject(DefaultOd(id), e, s)
    ensures Held(DefaultOd(id), INDICES[e], s) == ObjectAt(DefaultOd(id), e, s) == DefaultSubs(e, id)[s].memory.value
  {
    hide FindFrom, DefaultSubs;
    var od := DefaultOd(id);
    assert forall k | 0 <= k < 19 :: od[k].index == INDICES[k];
    assert CanAccess.FirstWith(od, e, INDICES[e]);
    CanAccess.LookupMeans(od, INDICES[e], s);
  }

  lemma FourBytes(a: byte, b: byte, c: byte, d: byte)
    ensures Value([a, b, c, d]) == a + 0x100 * (b as int) + 0x10000 * (c as int) + 0x1000000 * (d as int)
    ensures Value([a, b]) == a + 0x100 * (b as int)
  {
    assert [d][1..] == [] && [b][1..] == [];
    assert Value([d]) == d as int && Value([b]) == b as int;
    assert [c, d][1..] == [d] && [a, b][1..] == [b];
    assert Value([c, d]) == c as int + 256 * (d as int);
    assert [b, c, d][1..] == [c, d];
    assert Value([b, c, d]) == b as int + 256 * Value([c, d]);
    assert [a, b, c, d][1..] == [b, c, d];
  }

  /** The dictionary names the identifiers the node really listens and sends on, ... */
  lemma IdentifiersAreTrue(id: byte)
    requires 1 <= id < 128
    ensures var od := DefaultOd(id);
            && Value(Held(od, 0x1400, 1)) == 0x200 + id as int && Value(Held(od, 0x1401, 1)) == 0x300 + id as int
            && Value(Held(od, 0x1800, 1)) == 0x180 + id as int && Value(Held(od, 0x1801, 1)) == 0x280 + id as int
  {
    hide Held, Value;
    HeldAt(id, 7, 1);
    HeldAt(id, 8, 1);
    HeldAt(id, 11, 1);
    HeldAt(id, 12, 1);
    FourBytes(id, 2, 0, 0);
    FourBytes(id, 3, 0, 0);
    FourBytes(128 + id, 1, 0, 0);
    FourBytes(128 + id, 2, 0, 0);
  }

  /** ... the times it really keeps, ... */
  lemma TimesAreTrue(id: byte)
    requires 1 <= id < 128
    ensures var od, n := DefaultOd(id), Init(id);
            && Value(Held(od, 0x1017, 0)) == n.nmt.period
            && Value(Held(od, 0x1800, 5)) == n.tpdo1.event && Value(Held(od, 0x1801, 5)) == n.tpdo2.event
            && Value(Held(od, 0x1800, 3)) == Pdo.Send(n.tpdo1, true).0.inhibit
            && Value(Held(od, 0x1801, 3)) == Pdo.Send(n.tpdo2, true).0.inhibit
  {
    hide Held, Value;
    HeldAt(id, 5, 0);
    HeldAt(id, 11, 3);
    HeldAt(id, 12, 3);
    HeldAt(id, 11, 5);
    HeldAt(id, 12, 5);
    FourBytes(0xE8, 3, 0, 0);
    FourBytes(100, 0, 0, 0);
  }

  /** A mapping entry names an object by index, subindex and length in bits, and that object is that long. */
  predicate MapsTo(od: Od, at: word, sub: byte, index: word, part: byte) {
    Value(Held(od, at, sub)) == 0x10000 * (index as int) + 0x100 * (part as int) + 8 * |Held(od, index, part)|
  }

  /** ... and the objects its frames really carry, in their order and length. */
  lemma MappingsAreTrue(id: byte)
    requires 1 <= id < 128
    ensures var od := DefaultOd(id);
            && MapsTo(od, 0x1600, 1, 0x6200, 1)
            && MapsTo(od, 0x1A00, 1, 0x6000, 1)
            && (forall s: byte | 1 <= s <= 2 :: MapsTo(od, 0x1601, s, 0x6411, s))
            && (forall s: byte | 1 <= s <= 4 :: MapsTo(od, 0x1A01, s, 0x6401, s))
  {
    hide Held, Value, MapsTo;
    DigitalMappingsAreTrue(id);
    AnalogMappingsAreTrue(id);
  }

  lemma DigitalMappingsAreTrue(id: byte)
    requires 1 <= id < 128
    ensures MapsTo(DefaultOd(id), 0x1600, 1, 0x6200, 1) && MapsTo(DefaultOd(id), 0x1A00, 1, 0x6000, 1)
  {
    hide Held, Value;
    HeldAt(id, 9, 1);
    HeldAt(id, 13, 1);
    HeldAt(id, 15, 1);
    HeldAt(id, 16, 1);
    FourBytes(0x08, 0x01, 0x00, 0x62);
    FourBytes(0x08, 0x01, 0x00, 0x60);
  }

  lemma AnalogMappingsAreTrue(id: byte)
    requires 1 <= id < 128
    ensures forall s: byte | 1 <= s <= 4 :: MapsTo(DefaultOd(id), 0x1A01, s, 0x6401, s)
    ensures forall s: byte | 1 <= s <= 2 :: MapsTo(DefaultOd(id), 0x1601, s, 0x6411, s)
  {
    hide Held, Value;
    forall s: byte | 1 <= s <= 2
      ensures MapsTo(DefaultOd(id), 0x1601, s, 0x6411, s)
    {
      HeldAt(id, 10, s);
      HeldAt(id, 18, s);
      FourBytes(0x10, s, 0x11, 0x64);
    }
    forall s: byte | 1 <= s <= 4
      ensures MapsTo(DefaultOd(id), 0x1A01, s, 0x6401, s)
    {
      HeldAt(id, 14, s);
      HeldAt(id, 17, s);
      FourBytes(0x10, s, 0x01, 0x64);
    }
  }

  /** What the node says about itself: device type, error register and identity, ... */
  lemma IdentityIsSaid(id: byte)
    requires 1 <= id < 128
    ensures var od := DefaultOd(id);
            && Value(Held(od, 0x1000, 0)) == 0x00020191 && Held(od, 0x1001, 0) == [0]
            && Held(od, 0x1018, 0) == [4] && Value(Held(od, 0x1018, 1)) == 0
            && Value(Held(od, 0x1018, 2)) == 0x00004070 && Value(Held(od, 0x1018, 3)) == 0x00010000
            && Value(Held(od, 0x1018, 4)) == 0x12345678
  {
    hide Held, Value;
    HeldAt(id, 0, 0);
    HeldAt(id, 1, 0);
    HeldAt(id, 6, 0);
    HeldAt(id, 6, 1);
    HeldAt(id, 6, 2);
    HeldAt(id, 6, 3);
    HeldAt(id, 6, 4);
    FourBytes(0x91, 0x01, 0x02, 0x00);
    FourBytes(0x70, 0x40, 0, 0);
    FourBytes(0, 0, 1, 0);
    FourBytes(0, 0, 0, 0);
    FourBytes(0x78, 0x56, 0x34, 0x12);
  }

  /** ... name and versions. */
  lemma NamesAreSaid(id: byte)
    requires 1 <= id < 128
    ensures Held(DefaultOd(id), 0x1008, 0) == Requests.Ascii("STM32 Automation Board")
    ensures Held(DefaultOd(id), 0x1009, 0) == Held(DefaultOd(id), 0x100A, 0) == Requests.Ascii("v1.0")
  {
    hide Held;
    HeldAt(id, 2, 0);
    HeldAt(id, 3, 0);
    HeldAt(id, 4, 0);
  }

  /** Every record entry says in its subindex 0 how many variables follow. */
  lemma CountsAreTrue(id: byte, e: nat)
    requires 1 <= id < 128 && e < 19 && |DefaultOd(id)[e].subs| > 1
    ensures Held(DefaultOd(id), DefaultOd(id)[e].index, 0) == [|DefaultOd(id)[e].subs| - 1]
  {
    hide Held, FindFrom;
    HeldAt(id, e, 0);
  }

  /** All PDOs are event-driven (254). */
  lemma TransmissionTypes(id: byte)
    requires 1 <= id < 128
    ensures var od := DefaultOd(id);
            Held(od, 0x1400, 2) == Held(od, 0x1401, 2) == Held(od, 0x1800, 2) == Held(od, 0x1801, 2) == [254]
  {
    hide Held;
    HeldAt(id, 7, 2);
    HeldAt(id, 8, 2);
    HeldAt(id, 11, 2);
    HeldAt(id, 12, 2);
  }

  /** Inputs and outputs start at zero. */
  lemma ProcessDataAtStart(id: byte, s: byte)
    requires 1 <= id < 128 && 1 <= s <= 4
    ensures var od := DefaultOd(id);
            && Held(od, 0x6000, 1) == Held(od, 0x6200, 1) == [0]
            && Held(od, 0x6401, s) == [0, 0] && (s <= 2 ==> Held(od, 0x6411, s) == [0, 0])
  {
    hide Held;
    HeldAt(id, 15, 1);
    HeldAt(id, 16, 1);
    HeldAt(id, 17, s);
    if s <= 2 {
      HeldAt(id, 18, s);
    }
  }
}
