/** modbus.c as it runs: static tables updated in place, one method per function code. */
module SlaveDevice {
  import opened Bytes
  import opened SlaveTables
  import FileRecords
  import opened FileLoops
  import opened TableLoops
  import Pdu

  /** The levels the output drivers hold (digital_io.c, relay.c, analog_io.c); a channel out of range is ignored. */
  class OutputDrivers {
    var levels: Outputs

    constructor ()
      ensures levels == ZeroTables().outputs
    {
      levels := ZeroTables().outputs;
    }

    method WriteDigital(channel: nat, on: bool)
      modifies this
      ensures levels.relays == old(levels.relays) && levels.analog == old(levels.analog)
      ensures levels.digital == if channel < |old(levels.digital)| then old(levels.digital)[channel := on]
                                else old(levels.digital)
    {
      if channel >= |levels.digital| {
        return;
      }
      levels := levels.(digital := levels.digital[channel := on]);
    }

    method SetRelay(channel: nat, on: bool)
      modifies this
      ensures levels.digital == old(levels.digital) && levels.analog == old(levels.analog)
      ensures levels.relays == if channel < |old(levels.relays)| then old(levels.relays)[channel := on]
                               else old(levels.relays)
    {
      if channel >= |levels.relays| {
        return;
      }
      levels := levels.(relays := levels.relays[channel := on]);
    }

    method WriteAnalog(channel: nat, value: word)
      modifies this
      ensures levels.digital == old(levels.digital) && levels.relays == old(levels.relays)
      ensures levels.analog == if channel < |old(levels.analog)| then old(levels.analog)[channel := value]
                               else old(levels.analog)
    {
      if channel >= |levels.analog| {
        return;
      }
      levels := levels.(analog := levels.analog[channel := value]);
    }
  }

  class DataTables {
    const holding: array<word>
    const input: array<word>
    const coils: array<byte>
    const discrete: array<byte>
    const files: array2<word>
    const fifos: array2<word>
    const fifoLen: array<nat>
    const drivers: OutputDrivers

    ghost predicate Valid()
      reads fifoLen, drivers
    {
      && holding.Length == MAX_REGISTERS && input.Length == MAX_REGISTERS && holding != input
      && coils.Length == MAX_COILS / 8 && discrete.Length == MAX_COILS / 8 && coils != discrete
      && StoreShape(files) && files != fifos
      && fifos.Length0 == FIFO_COUNT && fifos.Length1 == FIFO_DEPTH
      && fifoLen.Length == FIFO_COUNT && fifoLen[0] <= FIFO_DEPTH && fifoLen[1] <= FIFO_DEPTH
      && |drivers.levels.digital| == DO_COUNT && |drivers.levels.relays| == RELAY_COUNT
      && |drivers.levels.analog| == AO_COUNT
    }

    ghost function View(): (t: Tables)
      requires Valid()
      reads holding, input, coils, discrete, files, fifos, fifoLen, drivers
      ensures t.Valid()
    {
      Tables(holding[..], input[..], BitsOf(coils[..]), BitsOf(discrete[..]), FilesOf(files),
             [Row(fifos, 0, fifoLen[0]), Row(fifos, 1, fifoLen[1])], drivers.levels)
    }

    constructor ()
      ensures Valid()
      ensures View() == ZeroTables()
      ensures fresh(holding) && fresh(input) && fresh(coils) && fresh(discrete)
      ensures fresh(files) && fresh(fifos) && fresh(fifoLen) && fresh(drivers)
    {
      holding := new word[MAX_REGISTERS];
      input := new word[MAX_REGISTERS];
      coils := new byte[MAX_COILS / 8];
      discrete := new byte[MAX_COILS / 8];
      files := new word[FILE_COUNT, FILE_SIZE];
      fifos := new word[FIFO_COUNT, FIFO_DEPTH];
      fifoLen := new nat[FIFO_COUNT](_ => 0);
      drivers := new OutputDrivers();
      new;
      Reset();
    }

    /** The clearing loops of `modbus_rtu_init`. */
    method Reset()
      requires Valid()
      modifies holding, input, coils, discrete, files, fifoLen
      ensures Valid() && View() == ZeroTables().(outputs := old(drivers.levels))
    {
      hide BitsOf, FilesOf, Row;
      ClearWords(holding);
      ClearWords(input);
      ClearBytes(coils);
      ClearBytes(discrete);
      ClearFiles(files);
      ClearLengths(fifoLen);
      assert holding[..] == ZeroTables().holding && input[..] == ZeroTables().input;
      assert Row(fifos, 0, fifoLen[0]) == [] && Row(fifos, 1, fifoLen[1]) == [];
    }

    // ------------------------------------------------------------ refreshing and synchronising

    method RefreshDiscrete(di: byte)
      requires Valid()
      modifies discrete
      ensures Valid() && View() == SlaveTables.RefreshDiscrete(old(View()), di)
    {
      WriteBits(discrete, 0, [di], DI_COUNT);
    }

    method RefreshInput()
      requires Valid()
      modifies input
      ensures Valid() && View() == SlaveTables.RefreshInput(old(View()))
    {
      CopyRegisters(holding, AI_CACHE, input, 0, AI_COUNT);
    }

    /** `modbus_app_sync_registers`. */
    method SyncRegisters(di: byte)
      requires Valid()
      modifies discrete, input, drivers
      ensures Valid() && View() == Sync(old(View()), di)
    {
      DriveDigital();
      DriveRelays();
      RefreshDiscrete(di);
      RefreshInput();
      DriveAnalog();
    }

    method DriveDigital()
      requires Valid()
      modifies drivers
      ensures Valid()
      ensures var t := old(View()); View() == t.(outputs := t.outputs.(digital := t.coils[..DO_COUNT]))
    {
      hide FilesOf, Row;
      for i := 0 to DO_COUNT
        invariant Valid() && drivers.levels.relays == old(drivers.levels.relays)
        invariant drivers.levels.analog == old(drivers.levels.analog)
        invariant drivers.levels.digital[..i] == BitsOf(coils[..])[..i]
      {
        var on := BitRead(coils, i);
        drivers.WriteDigital(i, on);
      }
    }

    method DriveRelays()
      requires Valid()
      modifies drivers
      ensures Valid()
      ensures var t := old(View());
              View() == t.(outputs := t.outputs.(relays := t.coils[DO_COUNT..DO_COUNT + RELAY_COUNT]))
    {
      hide FilesOf, Row;
      for i := 0 to RELAY_COUNT
        invariant Valid() && drivers.levels.digital == old(drivers.levels.digital)
        invariant drivers.levels.analog == old(drivers.levels.analog)
        invariant drivers.levels.relays[..i] == BitsOf(coils[..])[DO_COUNT..DO_COUNT + i]
      {
        var on := BitRead(coils, DO_COUNT + i);
        drivers.SetRelay(i, on);
        var coil := BitsOf(coils[..]);
        assert coil[DO_COUNT..DO_COUNT + i + 1] == coil[DO_COUNT..DO_COUNT + i] + [coil[DO_COUNT + i]];
      }
    }

    method DriveAnalog()
      requires Valid()
      modifies drivers
      ensures Valid()
      ensures var t := old(View()); View() == t.(outputs := t.outputs.(analog := t.holding[..AO_COUNT]))
    {
      hide FilesOf, Row, BitsOf;
      for i := 0 to AO_COUNT
        invariant Valid() && drivers.levels.digital == old(drivers.levels.digital)
        invariant drivers.levels.relays == old(drivers.levels.relays)
        invariant drivers.levels.analog[..i] == holding[..i]
      {
        drivers.WriteAnalog(i, holding[i]);
      }
    }

    // ------------------------------------------------------------ bits

    /** FC 0x01 and 0x02. */
    method ReadBits(req: seq<byte>, di: byte) returns (pdu: seq<byte>)
      requires Valid() && |req| >= 1
      modifies discrete
      ensures Valid() && (View(), pdu) == Pdu.ReadBits(old(View()), req, di)
    {
      hide BitsOf, FilesOf, Row, PackBits, SlaveTables.RefreshDiscrete;
      if |req| != 5 {
        return Exception(req[0], ILLEGAL_VALUE);
      }
      var start, quantity := Pdu.Start(req), Pdu.Quantity(req);
      if quantity < 1 || quantity > 2000 {
        return Exception(req[0], ILLEGAL_VALUE);
      }
      if !RangeValid(start, quantity, MAX_COILS) {
        return Exception(req[0], ILLEGAL_ADDRESS);
      }
      if req[0] == Pdu.READ_DISCRETE {
        RefreshDiscrete(di);
      }
      var count: byte := (quantity + 7) / 8;
      var data: seq<byte>;
      if req[0] == Pdu.READ_COILS {
        data := TableLoops.ReadBits(coils, start, quantity);
      } else {
        data := TableLoops.ReadBits(discrete, start, quantity);
      }
      pdu := [req[0], count] + data;
    }

    /** FC 0x05. */
    method WriteCoil(req: seq<byte>, di: byte) returns (pdu: seq<byte>)
      requires Valid() && |req| >= 1
      modifies coils, discrete, input, drivers
      ensures Valid() && (View(), pdu) == Pdu.WriteCoil(old(View()), req, di)
    {
      hide BitsOf, FilesOf, Row, Sync;
      if |req| != 5 {
        return Exception(req[0], ILLEGAL_VALUE);
      }
      var start, value := Pdu.Start(req), Pdu.Quantity(req);
      if value != 0xFF00 && value != 0 {
        return Exception(req[0], ILLEGAL_VALUE);
      }
      if !RangeValid(start, 1, MAX_COILS) {
        return Exception(req[0], ILLEGAL_ADDRESS);
      }
      BitWrite(coils, start, value == 0xFF00);
      SyncRegisters(di);
      pdu := req;
    }

    /** FC 0x0F. */
    method WriteCoils(req: seq<byte>, di: byte) returns (pdu: seq<byte>)
      requires Valid() && |req| >= 1
      modifies coils, discrete, input, drivers
      ensures Valid() && (View(), pdu) == Pdu.WriteCoils(old(View()), req, di)
    {
      hide BitsOf, FilesOf, Row, Sync, UnpackBits, Be16, Splice;
      if |req| < 6 {
        return Exception(req[0], ILLEGAL_VALUE);
      }
      var start, quantity := Pdu.Start(req), Pdu.Quantity(req);
      if quantity < 1 || quantity > 1968 {
        return Exception(req[0], ILLEGAL_VALUE);
      }
      if !RangeValid(start, quantity, MAX_COILS) {
        return Exception(req[0], ILLEGAL_ADDRESS);
      }
      if req[5] != (quantity + 7) / 8 || |req| != 6 + req[5] {
        return Exception(req[0], ILLEGAL_VALUE);
      }
      WriteBits(coils, start, req[6..], quantity);
      SyncRegisters(di);
      pdu := req[..5];
    }

    /** FC 0x07. */
    method ReadStatus(req: seq<byte>, di: byte) returns (pdu: seq<byte>)
      requires Valid() && |req| >= 1
      modifies discrete
      ensures Valid() && (View(), pdu) == Pdu.ReadStatus(old(View()), req, di)
    {
      hide BitsOf, FilesOf, Row, PackByte, SlaveTables.RefreshDiscrete;
      if |req| != 1 {
        return Exception(req[0], ILLEGAL_VALUE);
      }
      RefreshDiscrete(di);
      var status := GatherByte(discrete, 0, 8);
      pdu := [req[0], status];
    }

    // ------------------------------------------------------------ registers

    /** FC 0x03 and 0x04. */
    method ReadRegisters(req: seq<byte>) returns (pdu: seq<byte>)
      requires Valid() && |req| >= 1
      modifies input
      ensures Valid() && (View(), pdu) == Pdu.ReadRegisters(old(View()), req)
    {
      hide BitsOf, FilesOf, Row, WordBytes, SlaveTables.RefreshInput;
      if |req| != 5 {
        return Exception(req[0], ILLEGAL_VALUE);
      }
      var start, quantity := Pdu.Start(req), Pdu.Quantity(req);
      if quantity < 1 || quantity > 125 {
        return Exception(req[0], ILLEGAL_VALUE);
      }
      if !RangeValid(start, quantity, MAX_REGISTERS) {
        return Exception(req[0], ILLEGAL_ADDRESS);
      }
      if req[0] == Pdu.READ_INPUT {
        RefreshInput();
      }
      var count: byte := 2 * quantity;
      var data: seq<byte>;
      if req[0] == Pdu.READ_HOLDING {
        data := TableLoops.ReadRegisters(holding, start, quantity);
      } else {
        data := TableLoops.ReadRegisters(input, start, quantity);
      }
      pdu := [req[0], count] + data;
    }

    /** FC 0x06. */
    method WriteRegister(req: seq<byte>, di: byte) returns (pdu: seq<byte>)
      requires Valid() && |req| >= 1
      modifies holding, discrete, input, drivers
      ensures Valid() && (View(), pdu) == Pdu.WriteRegister(old(View()), req, di)
    {
      hide BitsOf, FilesOf, Row, Sync;
      if |req| != 5 {
        return Exception(req[0], ILLEGAL_VALUE);
      }
      var start := Pdu.Start(req);
      if !RangeValid(start, 1, MAX_REGISTERS) {
        return Exception(req[0], ILLEGAL_ADDRESS);
      }
      holding[start] := Pdu.Quantity(req);
      assert holding[..] == old(holding[..])[start := Pdu.Quantity(req)];
      SyncRegisters(di);
      pdu := req;
    }

    /** FC 0x10. */
    method WriteRegisters(req: seq<byte>, di: byte) returns (pdu: seq<byte>)
      requires Valid() && |req| >= 1
      modifies holding, discrete, input, drivers
      ensures Valid() && (View(), pdu) == Pdu.WriteRegisters(old(View()), req, di)
    {
      hide BitsOf, FilesOf, Row, Sync, BytesWords;
      if |req| < 6 {
        return Exception(req[0], ILLEGAL_VALUE);
      }
      var start, quantity := Pdu.Start(req), Pdu.Quantity(req);
      if quantity < 1 || quantity > 123 {
        return Exception(req[0], ILLEGAL_VALUE);
      }
      if !RangeValid(start, quantity, MAX_REGISTERS) {
        return Exception(req[0], ILLEGAL_ADDRESS);
      }
      if req[5] != 2 * quantity || |req| != 6 + req[5] {
        return Exception(req[0], ILLEGAL_VALUE);
      }
      TableLoops.WriteRegisters(holding, start, req[6..]);
      SyncRegisters(di);
      pdu := req[..5];
    }

    /** FC 0x16. */
    method MaskWrite(req: seq<byte>, di: byte) returns (pdu: seq<byte>)
      requires Valid() && |req| >= 1
      modifies holding, discrete, input, drivers
      ensures Valid() && (View(), pdu) == Pdu.MaskWrite(old(View()), req, di)
    {
      hide BitsOf, FilesOf, Row, Sync, Pdu.Masked;
      if |req| != 7 {
        return Exception(req[0], ILLEGAL_VALUE);
      }
      var start := Pdu.Start(req);
      if !RangeValid(start, 1, MAX_REGISTERS) {
        return Exception(req[0], ILLEGAL_ADDRESS);
      }
      var result := Pdu.Masked(holding[start], Be16(req[3], req[4]), Be16(req[5], req[6]));
      holding[start] := result;
      assert holding[..] == old(holding[..])[start := result];
      SyncRegisters(di);
      pdu := req;
    }

    /** FC 0x17: writes, then reads. */
    method ReadWrite(req: seq<byte>, di: byte) returns (pdu: seq<byte>)
      requires Valid() && |req| >= 1
      modifies holding, discrete, input, drivers
      ensures Valid() && (View(), pdu) == Pdu.ReadWrite(old(View()), req, di)
    {
      hide BitsOf, FilesOf, Row, Sync, BytesWords, WordBytes;
      if |req| < 10 {
        return Exception(req[0], ILLEGAL_VALUE);
      }
      var readStart, readQty := Be16(req[1], req[2]), Be16(req[3], req[4]);
      var writeStart, writeQty := Be16(req[5], req[6]), Be16(req[7], req[8]);
      if readQty < 1 || readQty > 125 || writeQty < 1 || writeQty > 121
         || req[9] != 2 * writeQty || |req| != 10 + req[9] {
        return Exception(req[0], ILLEGAL_VALUE);
      }
      if !RangeValid(readStart, readQty, MAX_REGISTERS) || !RangeValid(writeStart, writeQty, MAX_REGISTERS) {
        return Exception(req[0], ILLEGAL_ADDRESS);
      }
      TableLoops.WriteRegisters(holding, writeStart, req[10..]);
      SyncRegisters(di);
      var count: byte := 2 * readQty;
      var data := TableLoops.ReadRegisters(holding, readStart, readQty);
      pdu := [req[0], count] + data;
    }

    // ------------------------------------------------------------ files and queues

    /** FC 0x14. */
    method ReadFile(req: seq<byte>) returns (pdu: seq<byte>)
      requires Valid() && |req| >= 1
      ensures pdu == Pdu.ReadFile(View(), req)
    {
      hide BitsOf, FilesOf, Row, FileRecords.ReadRecords;
      if |req| < 2 || req[1] < 7 || req[1] > 0xF5 || req[1] % 7 != 0 || |req| != 2 + req[1] {
        return Exception(req[0], ILLEGAL_VALUE);
      }
      var r := ReadLoop(files, req[2..]);
      match r
      case Err(code) => pdu := Exception(req[0], code);
      case Ok(data) =>
        var length: byte := |data|;
        pdu := [req[0], length] + data;
    }

    /** FC 0x15. */
    method WriteFile(req: seq<byte>) returns (pdu: seq<byte>)
      requires Valid() && |req| >= 1
      modifies files
      ensures Valid() && (View(), pdu) == Pdu.WriteFile(old(View()), req)
    {
      hide BitsOf, FilesOf, Row, FileRecords.WriteRecords;
      if |req| < 2 || req[1] < 9 || req[1] > 0xFB || |req| != 2 + req[1] {
        return Exception(req[0], ILLEGAL_VALUE);
      }
      var fault := WriteLoop(files, req[2..]);
      pdu := if fault.Some? then Exception(req[0], fault.value) else req;
    }

    /** FC 0x18. */
    method ReadFifo(req: seq<byte>) returns (pdu: seq<byte>)
      requires Valid() && |req| >= 1
      ensures pdu == Pdu.ReadFifo(View(), req)
    {
      hide BitsOf, FilesOf, Row, WordBytes;
      if |req| != 3 {
        return Exception(req[0], ILLEGAL_VALUE);
      }
      var address := Be16(req[1], req[2]);
      if address >= FIFO_COUNT {
        return Exception(req[0], ILLEGAL_ADDRESS);
      }
      var n := fifoLen[address];
      var bytes: byte := 2 + 2 * n;
      var count: byte := n;
      var data: seq<byte> := [];
      ghost var queue := Row(fifos, address, n);
      for i := 0 to n
        invariant data == WordBytes(queue[..i])
      {
        WordBytesSnoc(queue[..i], queue[i]);
        assert queue[..i] + [queue[i]] == queue[..i + 1];
        data := data + [Hi(fifos[address, i])];
        data := data + [Lo(fifos[address, i])];
      }
      assert queue[..n] == queue;
      pdu := [req[0], 0, bytes, 0, count] + data;
    }

    /** `modbus_fifo_push`: appends to the queue, or refuses when it is full or does not exist. */
    method FifoPush(address: word, value: word) returns (ok: bool)
      requires Valid()
      modifies fifos, fifoLen
      ensures Valid()
      ensures ok <==> address < FIFO_COUNT && |old(View()).fifos[address]| < FIFO_DEPTH
      ensures ok ==> View() == old(View()).(fifos := old(View()).fifos[address := old(View()).fifos[address] + [value]])
      ensures !ok ==> View() == old(View())
    {
      hide BitsOf, FilesOf;
      if address >= FIFO_COUNT {
        return false;
      }
      if fifoLen[address] >= FIFO_DEPTH {
        return false;
      }
      ghost var was := View().fifos;
      fifos[address, fifoLen[address]] := value;
      fifoLen[address] := fifoLen[address] + 1;
      assert View().fifos[address] == was[address] + [value];
      assert View().fifos[1 - address] == was[1 - address];
      ok := true;
    }

    // ------------------------------------------------------------ the dispatcher

    method Execute(req: seq<byte>, di: byte) returns (pdu: seq<byte>)
      requires Valid() && |req| >= 1
      modifies holding, input, coils, discrete, files, drivers
      ensures Valid() && (View(), pdu) == Pdu.Execute(old(View()), req, di)
    {
      hide View, Pdu.ReadBits, Pdu.ReadRegisters, Pdu.WriteCoil, Pdu.WriteRegister, Pdu.WriteCoils;
      hide Pdu.WriteRegisters, Pdu.ReadStatus, Pdu.ReadFile, Pdu.WriteFile, Pdu.MaskWrite, Pdu.ReadFifo;
      hide Pdu.ReadWrite, Pdu.DeviceId;
      match req[0]
      case 0x01 | 0x02 => pdu := ReadBits(req, di);
      case 0x03 | 0x04 => pdu := ReadRegisters(req);
      case 0x05 => pdu := WriteCoil(req, di);
      case 0x06 => pdu := WriteRegister(req, di);
      case 0x0F => pdu := WriteCoils(req, di);
      case 0x10 => pdu := WriteRegisters(req, di);
      case 0x07 => pdu := ReadStatus(req, di);
      case 0x14 => pdu := ReadFile(req);
      case 0x15 => pdu := WriteFile(req);
      case 0x16 => pdu := MaskWrite(req, di);
      case 0x18 => pdu := ReadFifo(req);
      case 0x17 => pdu := ReadWrite(req, di);
      case 0x2B => pdu := Pdu.DeviceId(req);
      case _ => pdu := Exception(req[0], ILLEGAL_FUNCTION);
    }

    /** `modbus_pdu_process`. */
    method Process(req: seq<byte>, broadcast: bool, di: byte) returns (reply: Pdu.Reply)
      requires Valid() && |req| >= 1
      modifies holding, input, coils, discrete, files, drivers
      ensures Valid() && (View(), reply) == Pdu.Process(old(View()), req, broadcast, di)
    {
      hide View, Pdu.Execute;
      if broadcast && !Pdu.Broadcastable(req[0]) {
        return Pdu.Reply([], false);
      }
      var pdu := Execute(req, di);
      reply := Pdu.Reply(pdu, !broadcast);
    }
  }

  method ClearWords(regs: array<word>)
    modifies regs
    ensures forall k | 0 <= k < regs.Length :: regs[k] == 0
  {
    for i := 0 to regs.Length
      invariant forall k | 0 <= k < i :: regs[k] == 0
    {
      regs[i] := 0;
    }
  }

  method ClearBytes(table: array<byte>)
    requires table.Length == MAX_COILS / 8
    modifies table
    ensures BitsOf(table[..]) == ZeroTables().coils == ZeroTables().discrete
  {
    for i := 0 to table.Length
      invariant forall k | 0 <= k < i :: table[k] == 0
    {
      table[i] := 0;
    }
    ZeroBits(table[..]);
  }

  method ClearLengths(lengths: array<nat>)
    modifies lengths
    ensures forall k | 0 <= k < lengths.Length :: lengths[k] == 0
  {
    for f := 0 to lengths.Length
      invariant forall k | 0 <= k < f :: lengths[k] == 0
    {
      lengths[f] := 0;
    }
  }

  method ClearFiles(store: array2<word>)
    requires StoreShape(store)
    modifies store
    ensures FilesOf(store) == ZeroTables().files
  {
    for f := 0 to FILE_COUNT
      invariant forall k, i | 0 <= k < f && 0 <= i < FILE_SIZE :: store[k, i] == 0
    {
      for r := 0 to FILE_SIZE
        invariant forall k, i | 0 <= k < f && 0 <= i < FILE_SIZE :: store[k, i] == 0
        invariant forall i | 0 <= i < r :: store[f, i] == 0
      {
        store[f, r] := 0;
      }
    }
    SameFiles(store, ZeroTables().files);
  }

  lemma ZeroBits(bs: seq<byte>)
    requires |bs| == MAX_COILS / 8 && forall i | 0 <= i < |bs| :: bs[i] == 0
    ensures BitsOf(bs) == ZeroTables().coils == ZeroTables().discrete
  {
    forall k | 0 <= k < MAX_COILS
      ensures !BitsOf(bs)[k]
    {
      assert bs[k / 8] == 0;
    }
  }
}
