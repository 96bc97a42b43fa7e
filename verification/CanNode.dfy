/** canopen.c: the node that routes frames and time to its NMT, SDO and PDO parts, with the default dictionary. */
module CanNode {
  import opened Bytes
  import opened ObjectDictionary
  import Sdo
  import Nmt
  import Pdo

  const COB_NMT := 0x000
  const COB_SYNC := 0x080
  const COB_TPDO1 := 0x180
  const COB_RPDO1 := 0x200
  const COB_TPDO2 := 0x280
  const COB_RPDO2 := 0x300
  const COB_TSDO := 0x580
  const COB_RSDO := 0x600
  const COB_HEARTBEAT := 0x700

  // ------------------------------------------------------------ the default dictionary

  const INDICES: seq<word> :=
    [0x1000, 0x1001, 0x1008, 0x1009, 0x100A, 0x1017, 0x1018, 0x1400, 0x1401, 0x1600, 0x1601, 0x1800, 0x1801,
     0x1A00, 0x1A01, 0x6000, 0x6200, 0x6401, 0x6411]

  const DI := 15
  const DO := 16
  const AI := 17
  const AO := 18

  function Ro(bs: seq<byte>): Sub {
    Sub(READ_ONLY, Some(bs))
  }

  function Rw(bs: seq<byte>): Sub {
    Sub(READ_WRITE, Some(bs))
  }

  /** "STM32 Automation Board". */
  const DEVICE_NAME: seq<byte> :=
    [0x53, 0x54, 0x4D, 0x33, 0x32, 0x20, 0x41, 0x75, 0x74, 0x6F, 0x6D, 0x61, 0x74, 0x69, 0x6F, 0x6E, 0x20,
     0x42, 0x6F, 0x61, 0x72, 0x64]

  /** "v1.0". */
  const VERSION: seq<byte> := [0x76, 0x31, 0x2E, 0x30]

  /** The communication parameters of a receive PDO with COB-ID `base` + id. */
  function RpdoSubs(high: byte, id: byte): (subs: seq<Sub>)
    ensures |subs| == 3
  {
    [Ro([2]), Rw([id, high, 0, 0]), Rw([254])]
  }

  /** The communication parameters of a transmit PDO: inhibit time 100 ms, event time 1000 ms. */
  function TpdoSubs(high: byte, id: byte): (subs: seq<Sub>)
    requires id < 128
    ensures |subs| == 6
  {
    [Ro([5]), Rw([128 + id, high, 0, 0]), Rw([254]), Rw([100, 0]), Ro([0]), Rw([0xE8, 3])]
  }

  function DefaultSubs(e: nat, id: byte): (subs: seq<Sub>)
    requires e < 19 && id < 128
  {
    if e == 0 then [Ro([0x91, 0x01, 0x02, 0x00])]
    else if e == 1 then [Ro([0])]
    else if e == 2 then [Ro(DEVICE_NAME)]
    else if e == 3 || e == 4 then [Ro(VERSION)]
    else if e == 5 then [Rw([0xE8, 3])]
    else if e == 6 then
      [Ro([4]), Ro([0, 0, 0, 0]), Ro([0x70, 0x40, 0, 0]), Ro([0, 0, 1, 0]), Ro([0x78, 0x56, 0x34, 0x12])]
    else if e == 7 then RpdoSubs(2, id)
    else if e == 8 then RpdoSubs(3, id)
    else if e == 9 then [Ro([1]), Ro([0x08, 0x01, 0x00, 0x62])]
    else if e == 10 then [Ro([2]), Ro([0x10, 0x01, 0x11, 0x64]), Ro([0x10, 0x02, 0x11, 0x64])]
    else if e == 11 then TpdoSubs(1, id)
    else if e == 12 then TpdoSubs(2, id)
    else if e == 13 then [Ro([1]), Ro([0x08, 0x01, 0x00, 0x60])]
    else if e == 14 then
      [Ro([4]), Ro([0x10, 0x01, 0x01, 0x64]), Ro([0x10, 0x02, 0x01, 0x64]), Ro([0x10, 0x03, 0x01, 0x64]),
       Ro([0x10, 0x04, 0x01, 0x64])]
    else if e == 15 then [Ro([1]), Ro([0])]
    else if e == 16 then [Ro([1]), Rw([0])]
    else if e == 17 then [Ro([4]), Ro([0, 0]), Ro([0, 0]), Ro([0, 0]), Ro([0, 0])]
    else [Ro([2]), Rw([0, 0]), Rw([0, 0])]
  }

  function DefaultOd(id: byte): (od: Od)
    requires id < 128
    ensures |od| == 19
  {
    seq(19, e requires 0 <= e < 19 => Entry(INDICES[e], DefaultSubs(e, id)))
  }

  // ------------------------------------------------------------ the node

  datatype Node = Node(id: byte, od: Od, sdo: Sdo.Server, nmt: Nmt.State, tpdo1: Pdo.Tpdo, tpdo2: Pdo.Tpdo) {
    predicate Operational() {
      nmt.phase == Nmt.Operational
    }
  }

  /** A node of the default dictionary in any state it can get into. */
  ghost predicate NodeOk(n: Node) {
    && 1 <= n.id < 128 && SameShape(DefaultOd(n.id), n.od) && Sdo.ServerOk(n.od, n.sdo)
    && Nmt.Valid(n.nmt) && n.tpdo1.Valid() && n.tpdo2.Valid()
  }

  datatype Frame = Frame(cob: nat, data: seq<byte>)

  /** The node after `canopen_init` with the default dictionary; its boot-up frame is `Bootup`. */
  function Init(id: byte): Node
    requires 1 <= id < 128
  {
    Node(id, DefaultOd(id), Sdo.START, Nmt.Init(1000), Pdo.READY, Pdo.READY)
  }

  function Bootup(id: byte): Frame {
    Frame(COB_HEARTBEAT + id, [Nmt.BOOTUP])
  }

  /** One input to the node, with the transmitter's verdict on each TPDO it may send on the way. */
  datatype Input =
    | Receive(cob: nat, data: seq<byte>)
    | Pass(delta: nat)
    | TriggerTpdo1
    | TriggerTpdo2
    | SetPhase(phase: Nmt.Phase)
    | SetDigitalInputs(inputs: byte)
    | SetAnalogInput(channel: nat, low: byte, high: byte)

  datatype Act = Act(input: Input, accepts1: bool, accepts2: bool)

  /** What a step comes to: the node, whether a frame was taken, and the frames handed to the transmitter. */
  datatype Turn = Turn(node: Node, taken: bool, out: seq<Frame>)

  /** The move a step makes on TPDO 1 or 2; a step that does not concern it is a pass of no time. */
  function MoveOf(n: Node, a: Act, first: bool): Pdo.Move {
    var accepted := if first then a.accepts1 else a.accepts2;
    var idle := Pdo.Elapse(0, n.Operational(), accepted);
    match a.input
    case Pass(delta) => Pdo.Elapse(delta, n.Operational(), accepted)
    case TriggerTpdo1 => if first then Pdo.Trigger(n.Operational(), accepted) else idle
    case TriggerTpdo2 => if first then idle else Pdo.Trigger(n.Operational(), accepted)
    case Receive(cob, _) => if cob == COB_SYNC then Pdo.Sync(n.Operational(), accepted) else idle
    case _ => idle
  }

  function Tpdo1Frame(n: Node): Frame
    requires HasObject(n.od, DI, 1)
  {
    Frame(COB_TPDO1 + n.id, ObjectAt(n.od, DI, 1))
  }

  function Tpdo2Frame(n: Node): Frame
    requires forall s | 1 <= s <= 4 :: HasObject(n.od, AI, s)
  {
    Frame(COB_TPDO2 + n.id,
          ObjectAt(n.od, AI, 1) + ObjectAt(n.od, AI, 2) + ObjectAt(n.od, AI, 3) + ObjectAt(n.od, AI, 4))
  }

  /** Both TPDOs make their moves, the first one first. */
  function MovePdos(n: Node, a: Act): (r: (Node, seq<Frame>))
    requires NodeOk(n)
  {
    ShapeFacts(n);
    var m1, m2 := MoveOf(n, a, true), MoveOf(n, a, false);
    (n.(tpdo1 := Pdo.Step(n.tpdo1, m1).0, tpdo2 := Pdo.Step(n.tpdo2, m2).0),
     (if Pdo.Attempts(n.tpdo1, m1) then [Tpdo1Frame(n)] else [])
     + (if Pdo.Attempts(n.tpdo2, m2) then [Tpdo2Frame(n)] else []))
  }

  /** `canopen_rx_frame`. */
  function OnFrame(n: Node, a: Act): (t: Turn)
    requires NodeOk(n) && a.input.Receive?
  {
    ShapeFacts(n);
    var cob, data := a.input.cob, a.input.data;
    if cob == COB_NMT then
      var (nmt, taken, boots) := Nmt.Command(n.nmt, n.id, data);
      Turn(n.(nmt := nmt), taken, if boots then [Bootup(n.id)] else [])
    else if cob == COB_SYNC then
      var (m, out) := MovePdos(n, a);
      Turn(m, true, out)
    else if cob == COB_RSDO + n.id then
      if n.nmt.phase == Nmt.Stopped then Turn(n, false, [])
      else
        var t := Sdo.Receive(n.od, n.sdo, data);
        Turn(n.(od := t.od, sdo := t.server), t.taken,
             if t.answer.Some? then [Frame(COB_TSDO + n.id, t.answer.value)] else [])
    else if cob == COB_RPDO1 + n.id && n.Operational() && |data| >= 1 then
      Turn(n.(od := Store(n.od, DO, 1, data[..1])), true, [])
    else if cob == COB_RPDO2 + n.id && n.Operational() && |data| >= 4 then
      Turn(n.(od := Store(Store(n.od, AO, 1, data[..2]), AO, 2, data[2..4])), true, [])
    else Turn(n, false, [])
  }

  function Step(n: Node, a: Act): (t: Turn)
    requires NodeOk(n)
  {
    ShapeFacts(n);
    match a.input
    case Receive(_, _) => OnFrame(n, a)
    case Pass(delta) =>
      var (nmt, beats) := Nmt.Elapse(n.nmt, delta);
      var (m, out) := MovePdos(n.(nmt := nmt), a);
      Turn(m, true, (if beats then [Frame(COB_HEARTBEAT + n.id, [Nmt.Code(n.nmt.phase)])] else []) + out)
    case TriggerTpdo1 =>
      var (m, out) := MovePdos(n, a);
      Turn(m, true, out)
    case TriggerTpdo2 =>
      var (m, out) := MovePdos(n, a);
      Turn(m, true, out)
    case SetPhase(phase) => Turn(n.(nmt := n.nmt.(phase := phase)), true, [])
    case SetDigitalInputs(inputs) => Turn(n.(od := Store(n.od, DI, 1, [inputs])), true, [])
    case SetAnalogInput(channel, low, high) =>
      if channel < 4 then Turn(n.(od := Store(n.od, AI, channel + 1, [low, high])), true, []) else Turn(n, true, [])
  }

  // ------------------------------------------------------------ shape

  lemma ShapeFacts(n: Node)
    requires NodeOk(n)
    ensures |n.od| == 19
    ensures HasObject(n.od, DI, 1) && |ObjectAt(n.od, DI, 1)| == 1
    ensures HasObject(n.od, DO, 1) && |ObjectAt(n.od, DO, 1)| == 1
    ensures forall s | 1 <= s <= 4 :: HasObject(n.od, AI, s) && |ObjectAt(n.od, AI, s)| == 2
    ensures forall s | 1 <= s <= 2 ::
              HasObject(n.od, AO, s) && |ObjectAt(n.od, AO, s)| == 2 && AccessAt(n.od, AO, s) == READ_WRITE
    ensures n.od[AO].index == 0x6411
  {
    var d := DefaultOd(n.id);
    assert d[DI].subs == DefaultSubs(DI, n.id) && d[DO].subs == DefaultSubs(DO, n.id);
    assert d[AI].subs == DefaultSubs(AI, n.id) && d[AO].subs == DefaultSubs(AO, n.id);
  }
}
