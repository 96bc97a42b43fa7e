/** The CANopen stack as it runs: contexts whose fields each call updates in place. */
module CanDevice {
  import opened Bytes
  import ObjectDictionary
  import Sdo
  import Nmt
  import Pdo
  import CanNode
  import CanRuns

  // ------------------------------------------------------------ canopen_od.c

  class OdTable {
    var od: ObjectDictionary.Od

    constructor (od: ObjectDictionary.Od)
      ensures this.od == od
    {
      this.od := od;
    }

    /** The linear search of `canopen_od_find_index`. */
    method FindIndex(index: word) returns (r: Option<nat>)
      ensures r == ObjectDictionary.FindIndex(od, index)
    {
      for i := 0 to |od|
        invariant ObjectDictionary.FindFrom(od, i, index) == ObjectDictionary.FindFrom(od, 0, index)
      {
        if od[i].index == index {
          return Some(i);
        }
      }
      r := None;
    }

    method Locate(index: word, sub: byte) returns (r: ObjectDictionary.Lookup)
      ensures r == ObjectDictionary.Locate(od, index, sub)
    {
      var e := FindIndex(index);
      if e.None? {
        return ObjectDictionary.Missing(ObjectDictionary.NO_SUCH_OBJECT);
      }
      if sub >= |od[e.value].subs| {
        return ObjectDictionary.Missing(ObjectDictionary.NO_SUCH_SUBINDEX);
      }
      if od[e.value].subs[sub].memory.None? {
        return ObjectDictionary.Missing(ObjectDictionary.NO_SUCH_OBJECT);
      }
      r := ObjectDictionary.Found(e.value, sub);
    }

    /** `canopen_od_write`. */
    method Write(index: word, sub: byte, data: seq<byte>) returns (code: nat)
      modifies this
      ensures (code, od) == ObjectDictionary.Write(old(od), index, sub, data)
    {
      hide ObjectDictionary.Locate, ObjectDictionary.Store, ObjectDictionary.Writable;
      var place := Locate(index, sub);
      if place.Missing? {
        return place.code;
      }
      var held := ObjectDictionary.ObjectAt(od, place.entry, place.sub);
      if !ObjectDictionary.Writable(ObjectDictionary.AccessAt(od, place.entry, place.sub)) {
        return ObjectDictionary.WRITE_NOT_ALLOWED;
      }
      if |data| > |held| {
        return ObjectDictionary.LENGTH_TOO_HIGH;
      }
      if |data| < |held| {
        return ObjectDictionary.LENGTH_TOO_SHORT;
      }
      Put(place.entry, place.sub, data);
      code := ObjectDictionary.SUCCESSFUL;
    }

    /** Memory of one variable overwritten. */
    method Put(entry: nat, sub: nat, data: seq<byte>)
      requires ObjectDictionary.HasObject(od, entry, sub)
      modifies this
      ensures od == ObjectDictionary.Store(old(od), entry, sub, data)
    {
      var e := od[entry];
      var s := e.subs[sub].(memory := Some(data));
      od := od[entry := e.(subs := e.subs[sub := s])];
    }

    /** `canopen_od_read` into a buffer of `max` bytes. */
    method Read(index: word, sub: byte, max: nat) returns (code: nat, data: seq<byte>, size: nat)
      ensures (code, data, size) == ObjectDictionary.Read(od, index, sub, max)
    {
      hide ObjectDictionary.Locate, ObjectDictionary.Readable;
      var place := Locate(index, sub);
      if place.Missing? {
        return place.code, [], max;
      }
      if !ObjectDictionary.Readable(ObjectDictionary.AccessAt(od, place.entry, place.sub)) {
        return ObjectDictionary.READ_NOT_ALLOWED, [], max;
      }
      var held := ObjectDictionary.ObjectAt(od, place.entry, place.sub);
      var count := |held|;
      if max < count {
        count := max;
      }
      return ObjectDictionary.SUCCESSFUL, held[..count], |held|;
    }
  }

  // ------------------------------------------------------------ canopen_sdo.c

  class SdoServer {
    const table: OdTable
    var active: bool
    var index: word
    var sub: byte
    var entry: nat
    var slot: nat
    var total: nat
    var offset: nat
    var toggle: nat

    ghost function View(): Sdo.Server
      reads this
    {
      Sdo.Server(active, index, sub, entry, slot, total, offset, toggle)
    }

    ghost predicate Valid()
      reads this, table
    {
      Sdo.ServerOk(table.od, View())
    }

    constructor (table: OdTable)
      ensures this.table == table && View() == Sdo.START
    {
      this.table := table;
      active, index, sub, entry, slot := false, 0, 0, 0, 0;
      total, offset, toggle := 0, 0, 0;
    }

    method Download(data: seq<byte>) returns (answer: seq<byte>)
      requires |data| == 8
      modifies table
      ensures Sdo.Turn(table.od, View(), true, Some(answer)) == Sdo.Download(old(table.od), old(View()), data)
    {
      hide ObjectDictionary.Write, ObjectDictionary.Store;
      var target := Sdo.IndexOf(data);
      if !Bit(data[0], 1) {
        return Sdo.Abort(target, data[3], Sdo.UNSUPPORTED_ACCESS);
      }
      var unused := if Bit(data[0], 0) then data[0] / 4 % 4 else 0;
      var code := table.Write(target, data[3], data[4..8 - unused]);
      if code != ObjectDictionary.SUCCESSFUL {
        return Sdo.Abort(target, data[3], code);
      }
      answer := [0x60, data[1], data[2], data[3], 0, 0, 0, 0];
    }

    method InitiateUpload(data: seq<byte>) returns (answer: seq<byte>)
      requires |data| == 8
      modifies this
      ensures Sdo.Turn(table.od, View(), true, Some(answer)) == Sdo.InitiateUpload(table.od, old(View()), data)
    {
      hide ObjectDictionary.Locate, Sdo.Uploadable, Sdo.Padded, Sdo.ByteOf, Sdo.Abort;
      var target := Sdo.IndexOf(data);
      var place := table.Locate(target, data[3]);
      if place.Missing? {
        return Sdo.Abort(target, data[3], place.code);
      }
      var held := ObjectDictionary.ObjectAt(table.od, place.entry, place.sub);
      if !Sdo.Uploadable(ObjectDictionary.AccessAt(table.od, place.entry, place.sub)) {
        return Sdo.Abort(target, data[3], ObjectDictionary.READ_NOT_ALLOWED);
      }
      if |held| <= 4 {
        var unused := 4 - |held|;
        answer := [0x43 + 4 * unused, data[1], data[2], data[3]] + Sdo.Padded(held, 4);
      } else {
        active, index, sub, entry, slot := true, target, data[3], place.entry, place.sub;
        total, offset, toggle := |held|, 0, 0;
        answer := [0x41, data[1], data[2], data[3],
                   Sdo.ByteOf(|held|, 0), Sdo.ByteOf(|held|, 1), Sdo.ByteOf(|held|, 2), Sdo.ByteOf(|held|, 3)];
      }
    }

    method UploadSegment(data: seq<byte>) returns (answer: seq<byte>)
      requires |data| == 8 && Valid()
      modifies this
      ensures Sdo.Turn(table.od, View(), true, Some(answer)) == Sdo.UploadSegment(table.od, old(View()), data)
    {
      hide Sdo.Padded, Sdo.Abort;
      if !active {
        return Sdo.Abort(0, 0, Sdo.GENERAL_ERROR);
      }
      if data[0] / 16 % 2 != toggle {
        answer := Sdo.Abort(index, sub, Sdo.TOGGLE_NOT_ALTERNATED);
        active := false;
        return;
      }
      var rem := total - offset;
      var chunk := if rem <= 7 then rem else 7;
      var last := if rem <= 7 then 1 else 0;
      var head: byte := 16 * toggle + 2 * (7 - chunk) + last;
      var held := ObjectDictionary.ObjectAt(table.od, entry, slot);
      answer := [head] + Sdo.Padded(held[offset..offset + chunk], 7);
      offset := offset + chunk;
      toggle := 1 - toggle;
      if last == 1 {
        active := false;
      }
    }

    /** `canopen_sdo_rx_frame`. */
    method RxFrame(data: seq<byte>) returns (taken: bool, answer: Option<seq<byte>>)
      requires Valid()
      modifies this, table
      ensures Sdo.Turn(table.od, View(), taken, answer) == Sdo.Receive(old(table.od), old(View()), data)
    {
      hide Sdo.Download, Sdo.InitiateUpload, Sdo.UploadSegment, Sdo.Abort;
      if |data| != 8 {
        return false, None;
      }
      taken := true;
      if data[0] == 0x80 {
        active := false;
        return true, None;
      }
      var bytes: seq<byte>;
      match Sdo.Command(data) {
        case 1 => bytes := Download(data);
        case 2 => bytes := InitiateUpload(data);
        case 3 => bytes := UploadSegment(data);
        case _ => bytes := Sdo.Abort(0, 0, Sdo.UNKNOWN_COMMAND);
      }
      answer := Some(bytes);
    }
  }

  // ------------------------------------------------------------ canopen_nmt.c

  class NmtSlave {
    const id: byte
    var phase: Nmt.Phase
    const period: word
    var timer: word

    ghost function View(): Nmt.State
      reads this
    {
      Nmt.State(phase, period, timer)
    }

    constructor (id: byte, period: word)
      ensures this.id == id && View() == Nmt.Init(period)
    {
      this.id := id;
      this.period := period;
      phase, timer := Nmt.PreOperational, period;
    }

    method Process(delta: nat) returns (beat: bool)
      modifies this
      ensures (View(), beat) == Nmt.Elapse(old(View()), delta)
    {
      if period == 0 {
        return false;
      }
      if delta >= timer {
        timer := period;
        return true;
      }
      timer := (timer - delta % 65536) % 65536;
      beat := false;
    }

    method RxCommand(data: seq<byte>) returns (taken: bool, boots: bool)
      modifies this
      ensures (View(), taken, boots) == Nmt.Command(old(View()), id, data)
    {
      boots := false;
      if |data| < 2 {
        return false, false;
      }
      if data[1] != 0 && data[1] != id {
        return false, false;
      }
      match data[0] {
        case 0x01 => phase := Nmt.Operational;
        case 0x02 => phase := Nmt.Stopped;
        case 0x80 => phase := Nmt.PreOperational;
        case 0x81 | 0x82 =>
          phase := Nmt.PreOperational;
          timer := period;
          boots := true;
        case _ => return false, false;
      }
      taken := true;
    }
  }

  // ------------------------------------------------------------ canopen_pdo.c and canopen.c

  /** The two countdowns of a transmit PDO. */
  class TpdoTimer {
    var event: word
    var inhibit: word

    ghost function View(): Pdo.Tpdo
      reads this
    {
      Pdo.Tpdo(event, inhibit)
    }

    constructor ()
      ensures View() == Pdo.READY
    {
      event, inhibit := 1000, 0;
    }

    method CoolDown(delta: nat)
      modifies `inhibit
      ensures inhibit == Pdo.CountDown(old(inhibit), delta)
    {
      if inhibit > 0 {
        if delta >= inhibit {
          inhibit := 0;
        } else {
          inhibit := (inhibit - delta % 65536) % 65536;
        }
      }
    }

    /** Offers a frame to the transmitter unless inhibited. */
    method Send(accepted: bool) returns (offered: bool)
      modifies `inhibit
      ensures View() == Pdo.Send(old(View()), accepted).0
      ensures offered <==> old(inhibit) == 0
    {
      if inhibit > 0 {
        return false;
      }
      if accepted {
        inhibit := 100;
      }
      offered := true;
    }

    /** The event timer of one operational pass. */
    method Tick(delta: nat, accepted: bool) returns (offered: bool)
      modifies this
      ensures offered <==> delta >= old(event) && old(inhibit) == 0
      ensures View() == Ticked(old(View()), delta, accepted)
    {
      if delta >= event {
        offered := Send(accepted);
        event := 1000;
      } else {
        offered := false;
        event := (event - delta % 65536) % 65536;
      }
    }
  }

  ghost function Frame1(n: CanNode.Node): CanNode.Frame
    requires CanNode.NodeOk(n)
  {
    CanNode.ShapeFacts(n);
    CanNode.Tpdo1Frame(n)
  }

  ghost function Frame2(n: CanNode.Node): CanNode.Frame
    requires CanNode.NodeOk(n)
  {
    CanNode.ShapeFacts(n);
    CanNode.Tpdo2Frame(n)
  }

  /** What a SYNC comes to, timer by timer. */
  lemma SyncMoves(n: CanNode.Node, a: CanNode.Act)
    requires CanNode.NodeOk(n) && a.input.Receive? && a.input.cob == CanNode.COB_SYNC
    ensures CanNode.MovePdos(n, a).0
            == if n.Operational()
               then n.(tpdo1 := Pdo.Send(n.tpdo1.(inhibit := 0), a.accepts1).0,
                       tpdo2 := Pdo.Send(n.tpdo2.(inhibit := 0), a.accepts2).0)
               else n
    ensures CanNode.MovePdos(n, a).1 == if n.Operational() then [Frame1(n), Frame2(n)] else []
  {
    hide CanNode.DefaultOd, ObjectDictionary.SameShape, Sdo.ServerOk, CanNode.Tpdo1Frame, CanNode.Tpdo2Frame;
    CanNode.ShapeFacts(n);
  }

  lemma TriggerMoves(n: CanNode.Node, a: CanNode.Act)
    requires CanNode.NodeOk(n) && (a.input.TriggerTpdo1? || a.input.TriggerTpdo2?)
    ensures CanNode.MovePdos(n, a).0
            == if !n.Operational() then n
               else if a.input.TriggerTpdo1? then n.(tpdo1 := Pdo.Send(n.tpdo1, a.accepts1).0)
               else n.(tpdo2 := Pdo.Send(n.tpdo2, a.accepts2).0)
    ensures CanNode.MovePdos(n, a).1
            == if !n.Operational() then []
               else if a.input.TriggerTpdo1? then if n.tpdo1.inhibit == 0 then [Frame1(n)] else []
               else if n.tpdo2.inhibit == 0 then [Frame2(n)] else []
  {
    hide CanNode.DefaultOd, ObjectDictionary.SameShape, Sdo.ServerOk, CanNode.Tpdo1Frame, CanNode.Tpdo2Frame;
    CanNode.ShapeFacts(n);
    Pdo.IdleMove(n.tpdo1, n.Operational(), a.accepts1);
    Pdo.IdleMove(n.tpdo2, n.Operational(), a.accepts2);
  }

  /** What a pass comes to: both inhibit times run, then the event timers of an operational node. */
  lemma PassMoves(n: CanNode.Node, a: CanNode.Act)
    requires CanNode.NodeOk(n) && a.input.Pass?
    ensures var delta := a.input.delta;
            var c1 := n.tpdo1.(inhibit := Pdo.CountDown(n.tpdo1.inhibit, delta));
            var c2 := n.tpdo2.(inhibit := Pdo.CountDown(n.tpdo2.inhibit, delta));
            && CanNode.MovePdos(n, a).0
               == (if n.Operational()
                   then n.(tpdo1 := Ticked(c1, delta, a.accepts1), tpdo2 := Ticked(c2, delta, a.accepts2))
                   else n.(tpdo1 := c1, tpdo2 := c2))
            && CanNode.MovePdos(n, a).1
               == (if n.Operational() && delta >= c1.event && c1.inhibit == 0 then [Frame1(n)] else [])
                  + (if n.Operational() && delta >= c2.event && c2.inhibit == 0 then [Frame2(n)] else [])
  {
    hide CanNode.DefaultOd, ObjectDictionary.SameShape, Sdo.ServerOk, CanNode.Tpdo1Frame, CanNode.Tpdo2Frame;
    hide Pdo.CountDown;
    CanNode.ShapeFacts(n);
  }

  ghost function Ticked(t: Pdo.Tpdo, delta: nat, accepted: bool): Pdo.Tpdo {
    if delta >= t.event then Pdo.Send(t, accepted).0.(event := Pdo.EVENT_TIME)
    else t.(event := Pdo.CountDown(t.event, delta))
  }

  class CanopenNode {
    const id: byte
    const table: OdTable
    const sdo: SdoServer
    const nmt: NmtSlave
    const tpdo1: TpdoTimer
    const tpdo2: TpdoTimer

    ghost predicate Valid()
      reads table, sdo, nmt, tpdo1, tpdo2
    {
      sdo.table == table && nmt.id == id && tpdo1 != tpdo2 && CanNode.NodeOk(View())
    }

    ghost function View(): CanNode.Node
      reads table, sdo, nmt, tpdo1, tpdo2
    {
      CanNode.Node(id, table.od, sdo.View(), nmt.View(), tpdo1.View(), tpdo2.View())
    }

    /** `canopen_init` with the default dictionary: the heartbeat period is what 0x1017 holds, low byte first. */
    constructor (id: byte)
      requires 1 <= id < 128
      ensures Valid() && View() == CanNode.Init(id)
    {
      this.id := id;
      var objects := new OdTable(CanNode.DefaultOd(id));
      table := objects;
      var code, held, size := objects.Read(0x1017, 0, 2);
      CanRuns.DefaultHeartbeat(id);
      sdo := new SdoServer(objects);
      nmt := new NmtSlave(id, if code == ObjectDictionary.SUCCESSFUL then Be16(held[1], held[0]) else 1000);
      tpdo1 := new TpdoTimer();
      tpdo2 := new TpdoTimer();
      new;
      CanRuns.InitIsOk(id);
    }

    method Tpdo1Frame() returns (f: CanNode.Frame)
      requires Valid()
      ensures f == Frame1(View())
    {
      CanNode.ShapeFacts(View());
      f := CanNode.Frame(CanNode.COB_TPDO1 + id, ObjectDictionary.ObjectAt(table.od, CanNode.DI, 1));
    }

    /** Four 16-bit inputs, low byte first. */
    method Tpdo2Frame() returns (f: CanNode.Frame)
      requires Valid()
      ensures f == Frame2(View())
    {
      CanNode.ShapeFacts(View());
      var data: seq<byte> := [];
      for i := 1 to 5
        invariant |data| == 2 * (i - 1)
        invariant i >= 2 ==> data[..2] == ObjectDictionary.ObjectAt(table.od, CanNode.AI, 1)
        invariant i >= 3 ==> data[2..4] == ObjectDictionary.ObjectAt(table.od, CanNode.AI, 2)
        invariant i >= 4 ==> data[4..6] == ObjectDictionary.ObjectAt(table.od, CanNode.AI, 3)
        invariant i >= 5 ==> data[6..8] == ObjectDictionary.ObjectAt(table.od, CanNode.AI, 4)
      {
        data := data + ObjectDictionary.ObjectAt(table.od, CanNode.AI, i);
      }
      f := CanNode.Frame(CanNode.COB_TPDO2 + id, data);
    }

    /** Both TPDOs on SYNC: the inhibit times end, then both are sent. */
    method RxSync(cob: nat, data: seq<byte>, accepts1: bool, accepts2: bool) returns (out: seq<CanNode.Frame>)
      requires Valid() && cob == CanNode.COB_SYNC
      modifies tpdo1, tpdo2
      ensures (View(), out)
              == CanNode.MovePdos(old(View()), CanNode.Act(CanNode.Receive(cob, data), accepts1, accepts2))
    {
      hide CanNode.NodeOk, CanNode.MovePdos, Frame1, Frame2, Pdo.Send, Pdo.CountDown, Ticked;
      SyncMoves(View(), CanNode.Act(CanNode.Receive(cob, data), accepts1, accepts2));
      out := [];
      if nmt.phase != Nmt.Operational {
        return;
      }
      var frame1 := Tpdo1Frame();
      var frame2 := Tpdo2Frame();
      tpdo1.inhibit, tpdo2.inhibit := 0, 0;
      var offered := tpdo1.Send(accepts1);
      if offered {
        out := [frame1];
      }
      offered := tpdo2.Send(accepts2);
      if offered {
        out := out + [frame2];
      }
      ghost var goal := CanNode.MovePdos(old(View()), CanNode.Act(CanNode.Receive(cob, data), accepts1, accepts2));
      assert tpdo1.View() == goal.0.tpdo1 && tpdo2.View() == goal.0.tpdo2;
      assert View() == goal.0 && out == goal.1;
    }

    method TriggerTpdo1(accepts1: bool, accepts2: bool) returns (out: seq<CanNode.Frame>)
      requires Valid()
      modifies tpdo1
      ensures Valid()
      ensures CanNode.Turn(View(), true, out)
              == CanNode.Step(old(View()), CanNode.Act(CanNode.TriggerTpdo1, accepts1, accepts2))
    {
      hide CanNode.NodeOk, CanNode.MovePdos, Frame1, Frame2, Pdo.Send, Pdo.CountDown, Ticked;
      ghost var act := CanNode.Act(CanNode.TriggerTpdo1, accepts1, accepts2);
      TriggerMoves(View(), act);
      CanRuns.StepKeepsNode(View(), act);
      out := [];
      if nmt.phase == Nmt.Operational {
        var frame := Tpdo1Frame();
        var offered := tpdo1.Send(accepts1);
        if offered {
          out := [frame];
        }
      }
    }

    method TriggerTpdo2(accepts1: bool, accepts2: bool) returns (out: seq<CanNode.Frame>)
      requires Valid()
      modifies tpdo2
      ensures Valid()
      ensures CanNode.Turn(View(), true, out)
              == CanNode.Step(old(View()), CanNode.Act(CanNode.TriggerTpdo2, accepts1, accepts2))
    {
      hide CanNode.NodeOk, CanNode.MovePdos, Frame1, Frame2, Pdo.Send, Pdo.CountDown, Ticked;
      ghost var act := CanNode.Act(CanNode.TriggerTpdo2, accepts1, accepts2);
      TriggerMoves(View(), act);
      CanRuns.StepKeepsNode(View(), act);
      out := [];
      if nmt.phase == Nmt.Operational {
        var frame := Tpdo2Frame();
        var offered := tpdo2.Send(accepts2);
        if offered {
          out := [frame];
        }
      }
    }

    /** `canopen_pdo_process`: both inhibit times run, then each event timer in turn. */
    method ProcessPdos(delta: nat, accepts1: bool, accepts2: bool) returns (out: seq<CanNode.Frame>)
      requires Valid()
      modifies tpdo1, tpdo2
      ensures (View(), out)
              == CanNode.MovePdos(old(View()), CanNode.Act(CanNode.Pass(delta), accepts1, accepts2))
    {
      hide CanNode.NodeOk, CanNode.MovePdos, Frame1, Frame2, Pdo.Send, Pdo.CountDown, Ticked;
      PassMoves(View(), CanNode.Act(CanNode.Pass(delta), accepts1, accepts2));
      out := [];
      var frame1 := Tpdo1Frame();
      var frame2 := Tpdo2Frame();
      tpdo1.CoolDown(delta);
      tpdo2.CoolDown(delta);
      if nmt.phase != Nmt.Operational {
        return;
      }
      var offered := tpdo1.Tick(delta, accepts1);
      if offered {
        out := [frame1];
      }
      offered := tpdo2.Tick(delta, accepts2);
      if offered {
        out := out + [frame2];
      }
      ghost var goal := CanNode.MovePdos(old(View()), CanNode.Act(CanNode.Pass(delta), accepts1, accepts2));
      assert tpdo1.View() == goal.0.tpdo1 && tpdo2.View() == goal.0.tpdo2;
      assert View() == goal.0 && out == goal.1;
    }

    /** `canopen_process`: the heartbeat first, then the PDOs. */
    method Process(delta: nat, accepts1: bool, accepts2: bool) returns (out: seq<CanNode.Frame>)
      requires Valid()
      modifies nmt, tpdo1, tpdo2
      ensures Valid()
      ensures CanNode.Turn(View(), true, out)
              == CanNode.Step(old(View()), CanNode.Act(CanNode.Pass(delta), accepts1, accepts2))
    {
      hide CanNode.DefaultOd, ObjectDictionary.SameShape, Sdo.ServerOk, CanNode.MovePdos;
      ghost var act := CanNode.Act(CanNode.Pass(delta), accepts1, accepts2);
      CanRuns.StepKeepsNode(View(), act);
      CanNode.ShapeFacts(View());
      out := [];
      var code := Nmt.Code(nmt.phase);
      var beat := nmt.Process(delta);
      if beat {
        out := [CanNode.Frame(CanNode.COB_HEARTBEAT + id, [code])];
      }
      var pdos := ProcessPdos(delta, accepts1, accepts2);
      out := out + pdos;
    }

    /** `canopen_pdo_rx_rpdo`, for a frame with one of the two RPDO identifiers. */
    method RxRpdo(cob: nat, data: seq<byte>) returns (taken: bool)
      requires Valid()
      modifies table
      ensures nmt.phase == Nmt.Operational && cob == CanNode.COB_RPDO1 + id && |data| >= 1 ==>
                taken && (CanNode.ShapeFacts(old(View()));
                          table.od == ObjectDictionary.Store(old(table.od), CanNode.DO, 1, data[..1]))
      ensures nmt.phase == Nmt.Operational && cob == CanNode.COB_RPDO2 + id && |data| >= 4 ==>
                taken && (CanNode.ShapeFacts(old(View()));
                          table.od == ObjectDictionary.Store(
                            ObjectDictionary.Store(old(table.od), CanNode.AO, 1, data[..2]), CanNode.AO, 2, data[2..4]))
      ensures !(nmt.phase == Nmt.Operational && cob == CanNode.COB_RPDO1 + id && |data| >= 1)
              && !(nmt.phase == Nmt.Operational && cob == CanNode.COB_RPDO2 + id && |data| >= 4) ==>
                !taken && table.od == old(table.od)
    {
      hide CanNode.DefaultOd, ObjectDictionary.SameShape, Sdo.ServerOk, ObjectDictionary.Store;
      CanNode.ShapeFacts(View());
      if nmt.phase != Nmt.Operational {
        return false;
      }
      if cob == CanNode.COB_RPDO1 + id && |data| >= 1 {
        table.Put(CanNode.DO, 1, data[..1]);
        return true;
      }
      if cob == CanNode.COB_RPDO2 + id && |data| >= 4 {
        CanRuns.StoreKeepsLong(table.od, CanNode.AO, 1, data[..2]);
        table.Put(CanNode.AO, 1, data[..2]);
        table.Put(CanNode.AO, 2, data[2..4]);
        return true;
      }
      taken := false;
    }

    /** `canopen_rx_frame`. */
    method RxFrame(cob: nat, data: seq<byte>, accepts1: bool, accepts2: bool)
        returns (taken: bool, out: seq<CanNode.Frame>)
      requires Valid()
      modifies table, sdo, nmt, tpdo1, tpdo2
      ensures Valid()
      ensures CanNode.Turn(View(), taken, out)
              == CanNode.Step(old(View()), CanNode.Act(CanNode.Receive(cob, data), accepts1, accepts2))
    {
      hide CanNode.DefaultOd, ObjectDictionary.SameShape, Sdo.ServerOk, CanNode.MovePdos, Sdo.Receive, Nmt.Command;
      hide ObjectDictionary.Store;
      ghost var act := CanNode.Act(CanNode.Receive(cob, data), accepts1, accepts2);
      CanRuns.StepKeepsNode(View(), act);
      CanNode.ShapeFacts(View());
      out := [];
      if cob == CanNode.COB_NMT {
        var boots: bool;
        taken, boots := nmt.RxCommand(data);
        if boots {
          out := [CanNode.Bootup(id)];
        }
      } else if cob == CanNode.COB_SYNC {
        out := RxSync(cob, data, accepts1, accepts2);
        taken := true;
      } else if cob == CanNode.COB_RSDO + id {
        if nmt.phase == Nmt.Stopped {
          return false, [];
        }
        var answer: Option<seq<byte>>;
        taken, answer := sdo.RxFrame(data);
        if answer.Some? {
          out := [CanNode.Frame(CanNode.COB_TSDO + id, answer.value)];
        }
      } else if cob == CanNode.COB_RPDO1 + id || cob == CanNode.COB_RPDO2 + id {
        taken := RxRpdo(cob, data);
      } else {
        taken := false;
      }
    }

    method SetNmtState(phase: Nmt.Phase)
      requires Valid()
      modifies nmt
      ensures Valid()
      ensures View() == CanNode.Step(old(View()), CanNode.Act(CanNode.SetPhase(phase), true, true)).node
    {
      hide CanNode.DefaultOd, ObjectDictionary.SameShape, Sdo.ServerOk;
      nmt.phase := phase;
    }

    method SetDigitalInputs(inputs: byte)
      requires Valid()
      modifies table
      ensures Valid()
      ensures View() == CanNode.Step(old(View()), CanNode.Act(CanNode.SetDigitalInputs(inputs), true, true)).node
    {
      hide CanNode.DefaultOd, ObjectDictionary.SameShape, Sdo.ServerOk, ObjectDictionary.Store;
      ghost var act := CanNode.Act(CanNode.SetDigitalInputs(inputs), true, true);
      CanRuns.StepKeepsNode(View(), act);
      CanNode.ShapeFacts(View());
      table.Put(CanNode.DI, 1, [inputs]);
    }

    method SetAnalogInput(channel: nat, low: byte, high: byte)
      requires Valid()
      modifies table
      ensures Valid()
      ensures View()
              == CanNode.Step(old(View()), CanNode.Act(CanNode.SetAnalogInput(channel, low, high), true, true)).node
    {
      hide CanNode.DefaultOd, ObjectDictionary.SameShape, Sdo.ServerOk, ObjectDictionary.Store;
      ghost var act := CanNode.Act(CanNode.SetAnalogInput(channel, low, high), true, true);
      CanRuns.StepKeepsNode(View(), act);
      CanNode.ShapeFacts(View());
      if channel < 4 {
        table.Put(CanNode.AI, channel + 1, [low, high]);
      }
    }
  }
}
