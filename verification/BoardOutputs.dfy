/** The board's outputs over whole runs of serial and network traffic: what is driven is what the tables say. */
module BoardOutputs {
  import opened Bytes
  import opened SlaveTables
  import opened Pdu
  import opened RtuSlave
  import opened Master
  import opened CrcLoop
  import SlaveRuns
  import Comm
  import Tcp
  import EndToEnd

  /** Every digital output, relay and analog output is driven as its coil or register says. */
  predicate Follow(t: Tables)
    requires t.Valid()
  {
    t.outputs.digital == t.coils[..8] && t.outputs.relays == t.coils[8..12] && t.outputs.analog == t.holding[..2]
  }

  /** No request lets outputs and tables drift apart: those that go through drive the outputs anew, all others leave
      coils, holding registers and outputs alone. */
  lemma ExecuteFollows(t: Tables, req: seq<byte>, di: byte)
    requires t.Valid() && |req| >= 1
    ensures Follow(t) ==> Follow(Execute(t, req, di).0)
    ensures var (u, pdu) := Execute(t, req, di);
            |pdu| > 0 && (Broadcastable(req[0]) && req[0] != WRITE_FILE && pdu[0] < 128 ==> Follow(u))
  {
  }

  // ------------------------------------------------------------ whole runs

  /** One board serves both lines from the same tables. */
  datatype Traffic = Serial(input: SlaveRuns.Input) | Network(rx: seq<byte>, di: byte)

  function Serve(s: Slave, unit: byte, e: Traffic): (r: Slave)
    requires s.Valid()
    ensures r.Valid()
  {
    match e
    case Serial(input) => SlaveRuns.Step(s, input).slave
    case Network(rx, di) => s.(tables := Tcp.BuildResponse(s.tables, unit, rx, di).tables)
  }

  function ServeAll(s: Slave, unit: byte, es: seq<Traffic>): (r: Slave)
    requires s.Valid()
    ensures r.Valid()
    decreases |es|
  {
    if |es| == 0 then s else ServeAll(Serve(s, unit, es[0]), unit, es[1..])
  }

  lemma ServeFollows(s: Slave, unit: byte, e: Traffic)
    requires s.Valid() && Follow(s.tables)
    ensures Follow(Serve(s, unit, e).tables)
  {
    hide Execute, CrcOk, Account, Answer, Comm.DiagProcess, Comm.NoteOverrun;
    match e
    case Serial(input) =>
      if input.Frame? && AddressedTo(s.id, input.rx) {
        ExecuteFollows(s.tables, RequestOf(input.rx), input.di);
      }
    case Network(rx, di) =>
      if Tcp.HeaderOk(rx) {
        ExecuteFollows(s.tables, rx[Tcp.MBAP..], di);
      }
  }

  /** Whatever frames come in on either line, in any order, damaged or not: the outputs follow the tables. */
  lemma {:induction false} OutputsFollow(s: Slave, unit: byte, es: seq<Traffic>)
    requires s.Valid() && Follow(s.tables)
    ensures Follow(ServeAll(s, unit, es).tables)
    decreases |es|
  {
    if |es| > 0 {
      ServeFollows(s, unit, es[0]);
      OutputsFollow(Serve(s, unit, es[0]), unit, es[1..]);
    }
  }

  /** At power-up everything is off, so the outputs follow from then on. */
  lemma PowerUpFollows(id: byte, unit: byte, es: seq<Traffic>)
    ensures Follow(ServeAll(Slave(id, ZeroTables(), Comm.FRESH), unit, es).tables)
  {
    var s := Slave(id, ZeroTables(), Comm.FRESH);
    assert Follow(s.tables);
    OutputsFollow(s, unit, es);
  }

  // ------------------------------------------------------------ switching an output from the master

  /** A write-single-coil call that returns OK has switched its digital output or relay; if the outputs followed
      before, no other one has moved. */
  lemma CoilSwitches(s: Slave, dest: byte, addr: word, on: bool, di: byte)
    requires s.Valid()
    ensures var (after, call) := WriteSingleCoil(s, dest, addr, on, di);
            call.status == OK ==>
              && Follow(after.tables)
              && (addr < 8 ==> after.tables.outputs.digital[addr] == on)
              && (8 <= addr < 12 ==> after.tables.outputs.relays[addr - 8] == on)
              && (Follow(s.tables) ==>
                    (forall c | 0 <= c < 8 && c != addr ::
                       after.tables.outputs.digital[c] == s.tables.outputs.digital[c])
                    && (forall r | 0 <= r < 4 && 8 + r != addr ::
                          after.tables.outputs.relays[r] == s.tables.outputs.relays[r]))
  {
    hide Transact, Execute, Echoed;
    var req := WriteSingleRequest(WRITE_COIL, addr, if on then 0xFF00 else 0);
    EndToEnd.SingleCoilCall(s, dest, addr, on, di);
    EndToEnd.ExecuteSingleCoil(s.tables, addr, on, di);
    EndToEnd.CallTables(s, dest, req, di);
  }

  /** The same for a write-single-register call and the analog outputs. */
  lemma RegisterSets(s: Slave, dest: byte, addr: word, value: word, di: byte)
    requires s.Valid()
    ensures var (after, call) := WriteSingleRegister(s, dest, addr, value, di);
            call.status == OK ==>
              && Follow(after.tables)
              && (addr < 2 ==> after.tables.outputs.analog[addr] == value)
              && (Follow(s.tables) ==>
                    forall c | 0 <= c < 2 && c != addr ::
                      after.tables.outputs.analog[c] == s.tables.outputs.analog[c])
  {
    hide Transact, Execute, Echoed;
    var req := WriteSingleRequest(WRITE_REGISTER, addr, value);
    EndToEnd.SingleRegisterCall(s, dest, addr, value, di);
    EndToEnd.ExecuteSingleRegister(s.tables, addr, value, di);
    EndToEnd.CallTables(s, dest, req, di);
  }
}
