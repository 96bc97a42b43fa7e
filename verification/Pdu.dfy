/** The function codes shared by RTU and TCP: what each request does to the tables and what it answers. */
module Pdu {
  import opened Bytes
  import opened SlaveTables
  import opened FileRecords

  const READ_COILS: byte := 0x01
  const READ_DISCRETE: byte := 0x02
  const READ_HOLDING: byte := 0x03
  const READ_INPUT: byte := 0x04
  const WRITE_COIL: byte := 0x05
  const WRITE_REGISTER: byte := 0x06
  const READ_STATUS: byte := 0x07
  const WRITE_COILS: byte := 0x0F
  const WRITE_REGISTERS: byte := 0x10
  const READ_FILE: byte := 0x14
  const WRITE_FILE: byte := 0x15
  const MASK_WRITE: byte := 0x16
  const READ_WRITE: byte := 0x17
  const READ_FIFO: byte := 0x18
  const DEVICE_ID: byte := 0x2B
  const MEI_DEVICE_ID: byte := 0x0E

  /** What the dispatcher leaves behind: the bytes it put in the reply buffer (empty when it never touched
      it) and whether they are to be transmitted. */
  datatype Reply = Reply(built: seq<byte>, sent: bool) {
    predicate Responded() {
      sent && |built| > 0
    }
  }

  function Start(req: seq<byte>): word
    requires |req| >= 5
  {
    Be16(req[1], req[2])
  }

  function Quantity(req: seq<byte>): word
    requires |req| >= 5
  {
    Be16(req[3], req[4])
  }

  // ------------------------------------------------------------ bits and registers

  /** The fault of a 5-byte request for `limit` items at most out of a table of `size`. */
  function RangeFault(req: seq<byte>, limit: nat, size: nat): Option<byte> {
    if |req| != 5 then Some(ILLEGAL_VALUE)
    else if Quantity(req) < 1 || Quantity(req) > limit then Some(ILLEGAL_VALUE)
    else if !RangeValid(Start(req), Quantity(req), size) then Some(ILLEGAL_ADDRESS)
    else None
  }

  function BitsPdu(fc: byte, bits: seq<bool>): (pdu: seq<byte>)
    requires |bits| <= 2000
  {
    var count: byte := (|bits| + 7) / 8;
    [fc, count] + PackBits(bits)
  }

  function RegistersPdu(fc: byte, ws: seq<word>): (pdu: seq<byte>)
    requires |ws| <= 125
  {
    var count: byte := 2 * |ws|;
    [fc, count] + WordBytes(ws)
  }

  function ReadBits(t: Tables, req: seq<byte>, di: byte): (r: (Tables, seq<byte>))
    requires t.Valid() && |req| >= 1
    ensures r.0.Valid()
  {
    var fault := RangeFault(req, 2000, MAX_COILS);
    if fault.Some? then (t, Exception(req[0], fault.value))
    else
      var u := if req[0] == READ_DISCRETE then RefreshDiscrete(t, di) else t;
      var table := if req[0] == READ_COILS then u.coils else u.discrete;
      (u, BitsPdu(req[0], table[Start(req)..Start(req) + Quantity(req)]))
  }

  function ReadRegisters(t: Tables, req: seq<byte>): (r: (Tables, seq<byte>))
    requires t.Valid() && |req| >= 1
    ensures r.0.Valid()
  {
    var fault := RangeFault(req, 125, MAX_REGISTERS);
    if fault.Some? then (t, Exception(req[0], fault.value))
    else
      var u := if req[0] == READ_INPUT then RefreshInput(t) else t;
      var table := if req[0] == READ_HOLDING then u.holding else u.input;
      (u, RegistersPdu(req[0], table[Start(req)..Start(req) + Quantity(req)]))
  }

  function WriteCoil(t: Tables, req: seq<byte>, di: byte): (r: (Tables, seq<byte>))
    requires t.Valid() && |req| >= 1
    ensures r.0.Valid()
  {
    if |req| != 5 || (Quantity(req) != 0xFF00 && Quantity(req) != 0) then (t, Exception(req[0], ILLEGAL_VALUE))
    else if !RangeValid(Start(req), 1, MAX_COILS) then (t, Exception(req[0], ILLEGAL_ADDRESS))
    else (Sync(t.(coils := t.coils[Start(req) := Quantity(req) == 0xFF00]), di), req)
  }

  function WriteRegister(t: Tables, req: seq<byte>, di: byte): (r: (Tables, seq<byte>))
    requires t.Valid() && |req| >= 1
    ensures r.0.Valid()
  {
    if |req| != 5 then (t, Exception(req[0], ILLEGAL_VALUE))
    else if !RangeValid(Start(req), 1, MAX_REGISTERS) then (t, Exception(req[0], ILLEGAL_ADDRESS))
    else (Sync(t.(holding := t.holding[Start(req) := Quantity(req)]), di), req)
  }

  /** The fault of a write-multiple request carrying `bytes` data bytes. */
  function WriteFault(req: seq<byte>, limit: nat, size: nat, bytes: nat): Option<byte> {
    if |req| < 6 then Some(ILLEGAL_VALUE)
    else if Quantity(req) < 1 || Quantity(req) > limit then Some(ILLEGAL_VALUE)
    else if !RangeValid(Start(req), Quantity(req), size) then Some(ILLEGAL_ADDRESS)
    else if req[5] != bytes || |req| != 6 + bytes then Some(ILLEGAL_VALUE)
    else None
  }

  function CoilBytes(req: seq<byte>): nat {
    if |req| < 5 then 0 else (Quantity(req) + 7) / 8
  }

  function RegisterBytes(req: seq<byte>): nat {
    if |req| < 5 then 0 else 2 * Quantity(req)
  }

  function WriteCoils(t: Tables, req: seq<byte>, di: byte): (r: (Tables, seq<byte>))
    requires t.Valid() && |req| >= 1
    ensures r.0.Valid()
  {
    var fault := WriteFault(req, 1968, MAX_COILS, CoilBytes(req));
    if fault.Some? then (t, Exception(req[0], fault.value))
    else
      var bits := UnpackBits(req[6..], Quantity(req));
      (Sync(t.(coils := Splice(t.coils, Start(req), bits)), di), req[..5])
  }

  function WriteRegisters(t: Tables, req: seq<byte>, di: byte): (r: (Tables, seq<byte>))
    requires t.Valid() && |req| >= 1
    ensures r.0.Valid()
  {
    var fault := WriteFault(req, 123, MAX_REGISTERS, RegisterBytes(req));
    if fault.Some? then (t, Exception(req[0], fault.value))
    else (Sync(t.(holding := Splice(t.holding, Start(req), BytesWords(req[6..]))), di), req[..5])
  }

  /** FC 0x07: the first eight discrete inputs, refreshed, as one byte. */
  function ReadStatus(t: Tables, req: seq<byte>, di: byte): (r: (Tables, seq<byte>))
    requires t.Valid() && |req| >= 1
    ensures r.0.Valid()
  {
    if |req| != 1 then (t, Exception(req[0], ILLEGAL_VALUE))
    else
      var u := RefreshDiscrete(t, di);
      (u, [req[0], PackByte(u.discrete[..8])])
  }

  function ToBits(w: word): bv16 {
    w as bv16
  }

  function FromBits(x: bv16): word {
    FromBitsBound(x);
    x as int
  }

  lemma FromBitsBound(x: bv16)
    ensures 0 <= x as int < 65536
  {
  }

  /** `(c & a) | (o & ~a)`. */
  function Mix(c: bv16, a: bv16, o: bv16): bv16 {
    (c & a) | (o & !a)
  }

  /** The register that a mask write leaves. */
  function Masked(current: word, andMask: word, orMask: word): word {
    FromBits(Mix(ToBits(current), ToBits(andMask), ToBits(orMask)))
  }

  function MaskWrite(t: Tables, req: seq<byte>, di: byte): (r: (Tables, seq<byte>))
    requires t.Valid() && |req| >= 1
    ensures r.0.Valid()
  {
    if |req| != 7 then (t, Exception(req[0], ILLEGAL_VALUE))
    else if !RangeValid(Start(req), 1, MAX_REGISTERS) then (t, Exception(req[0], ILLEGAL_ADDRESS))
    else
      var w := Masked(t.holding[Start(req)], Be16(req[3], req[4]), Be16(req[5], req[6]));
      (Sync(t.(holding := t.holding[Start(req) := w]), di), req)
  }

  predicate ReadWriteShape(req: seq<byte>) {
    && |req| >= 10
    && 1 <= Be16(req[3], req[4]) <= 125
    && 1 <= Be16(req[7], req[8]) <= 121
    && req[9] == 2 * Be16(req[7], req[8])
    && |req| == 10 + req[9]
  }

  /** FC 0x17: the write comes first, so the read sees it. */
  function ReadWrite(t: Tables, req: seq<byte>, di: byte): (r: (Tables, seq<byte>))
    requires t.Valid() && |req| >= 1
    ensures r.0.Valid()
  {
    if !ReadWriteShape(req) then (t, Exception(req[0], ILLEGAL_VALUE))
    else
      var from, count, to, n := Be16(req[1], req[2]), Be16(req[3], req[4]), Be16(req[5], req[6]), Be16(req[7], req[8]);
      if !RangeValid(from, count, MAX_REGISTERS) || !RangeValid(to, n, MAX_REGISTERS) then
        (t, Exception(req[0], ILLEGAL_ADDRESS))
      else
        var u := Sync(t.(holding := Splice(t.holding, to, BytesWords(req[10..]))), di);
        (u, RegistersPdu(req[0], u.holding[from..from + count]))
  }

  function FifoPdu(fc: byte, ws: seq<word>): (pdu: seq<byte>)
    requires |ws| <= FIFO_DEPTH
  {
    var bytes: byte := 2 + 2 * |ws|;
    var count: byte := |ws|;
    [fc, 0, bytes, 0, count] + WordBytes(ws)
  }

  /** FC 0x18 reports a queue oldest first and does not drain it. */
  function ReadFifo(t: Tables, req: seq<byte>): (pdu: seq<byte>)
    requires t.Valid() && |req| >= 1
  {
    if |req| != 3 then Exception(req[0], ILLEGAL_VALUE)
    else if Be16(req[1], req[2]) >= FIFO_COUNT then Exception(req[0], ILLEGAL_ADDRESS)
    else FifoPdu(req[0], t.fifos[Be16(req[1], req[2])])
  }

  function ReadFile(t: Tables, req: seq<byte>): (pdu: seq<byte>)
    requires t.Valid() && |req| >= 1
  {
    if |req| < 2 || req[1] < 7 || req[1] > 0xF5 || req[1] % 7 != 0 || |req| != 2 + req[1] then
      Exception(req[0], ILLEGAL_VALUE)
    else
      match ReadRecords(t.files, req[2..], [])
      case Err(code) => Exception(req[0], code)
      case Ok(data) =>
        var length: byte := |data|;
        [req[0], length] + data
  }

  function WriteFile(t: Tables, req: seq<byte>): (r: (Tables, seq<byte>))
    requires t.Valid() && |req| >= 1
    ensures r.0.Valid()
  {
    if |req| < 2 || req[1] < 9 || req[1] > 0xFB || |req| != 2 + req[1] then (t, Exception(req[0], ILLEGAL_VALUE))
    else
      var (files, fault) := WriteRecords(t.files, req[2..]);
      (t.(files := files), if fault.Some? then Exception(req[0], fault.value) else req)
  }

  // ------------------------------------------------------------ device identification

  /** "xAI", "STM32 Automation Board", "1.0.0". */
  function DeviceObject(id: nat): (s: seq<byte>)
    requires id <= 2
    ensures 0 < |s| <= 22
  {
    if id == 0 then [0x78, 0x41, 0x49]
    else if id == 1 then
      [0x53, 0x54, 0x4D, 0x33, 0x32, 0x20, 0x41, 0x75, 0x74, 0x6F, 0x6D, 0x61, 0x74, 0x69, 0x6F, 0x6E, 0x20,
       0x42, 0x6F, 0x61, 0x72, 0x64]
    else [0x31, 0x2E, 0x30, 0x2E, 0x30]
  }

  function DeviceObjects(first: nat, last: nat): (bs: seq<byte>)
    requires last <= 2
    ensures |bs| <= if first <= last then 24 * (last - first + 1) else 0
    decreases last + 1 - first
  {
    if first > last then []
    else
      var length: byte := |DeviceObject(first)|;
      [first as byte, length] + DeviceObject(first) + DeviceObjects(first + 1, last)
  }

  function DeviceId(req: seq<byte>): (pdu: seq<byte>)
    requires |req| >= 1
  {
    if |req| < 4 then Exception(req[0], ILLEGAL_VALUE)
    else if req[1] != MEI_DEVICE_ID then Exception(req[0], ILLEGAL_FUNCTION)
    else if req[2] < 1 || req[2] > 4 then Exception(req[0], ILLEGAL_VALUE)
    else if req[2] == 4 && req[3] > 2 then Exception(req[0], ILLEGAL_ADDRESS)
    else
      var first := if req[3] <= 2 then req[3] else 0;
      var last := if req[2] == 4 then first else 2;
      [req[0], MEI_DEVICE_ID, req[2], 0x81, 0, 0, last - first + 1] + DeviceObjects(first, last)
  }

  // ------------------------------------------------------------ the dispatcher

  predicate Broadcastable(fc: byte) {
    fc == WRITE_COIL || fc == WRITE_REGISTER || fc == WRITE_COILS || fc == WRITE_REGISTERS
    || fc == WRITE_FILE || fc == MASK_WRITE || fc == READ_WRITE
  }

  /** One request on the tables: the tables after it and the reply PDU. */
  function Execute(t: Tables, req: seq<byte>, di: byte): (r: (Tables, seq<byte>))
    requires t.Valid() && |req| >= 1
    ensures r.0.Valid()
  {
    var fc := req[0];
    if fc == READ_COILS || fc == READ_DISCRETE then ReadBits(t, req, di)
    else if fc == READ_HOLDING || fc == READ_INPUT then ReadRegisters(t, req)
    else if fc == WRITE_COIL then WriteCoil(t, req, di)
    else if fc == WRITE_REGISTER then WriteRegister(t, req, di)
    else if fc == WRITE_COILS then WriteCoils(t, req, di)
    else if fc == WRITE_REGISTERS then WriteRegisters(t, req, di)
    else if fc == READ_STATUS then ReadStatus(t, req, di)
    else if fc == READ_FILE then (t, ReadFile(t, req))
    else if fc == WRITE_FILE then WriteFile(t, req)
    else if fc == MASK_WRITE then MaskWrite(t, req, di)
    else if fc == READ_FIFO then (t, ReadFifo(t, req))
    else if fc == READ_WRITE then ReadWrite(t, req, di)
    else if fc == DEVICE_ID then (t, DeviceId(req))
    else (t, Exception(fc, ILLEGAL_FUNCTION))
  }

  /** `modbus_pdu_process`: broadcasts only execute write functions and are never answered. */
  function Process(t: Tables, req: seq<byte>, broadcast: bool, di: byte): (r: (Tables, Reply))
    requires t.Valid() && |req| >= 1
    ensures r.0.Valid()
  {
    if broadcast && !Broadcastable(req[0]) then (t, Reply([], false))
    else
      var (u, pdu) := Execute(t, req, di);
      (u, Reply(pdu, !broadcast))
  }

  // ------------------------------------------------------------ the shape of replies

  predicate IsException(fc: byte, pdu: seq<byte>) {
    |pdu| == 2 && pdu[0] == (if fc < 128 then fc + 128 else fc) && 1 <= pdu[1] <= 4
  }

  /** A normal reply repeats the function code and its counts tell its length. */
  predicate IsNormal(fc: byte, req: seq<byte>, pdu: seq<byte>) {
    && fc < 128 && |pdu| >= 2 && pdu[0] == fc
    && (fc in {READ_COILS, READ_DISCRETE, READ_HOLDING, READ_INPUT, READ_FILE, READ_WRITE, WRITE_FILE}
        ==> pdu[1] == |pdu| - 2)
    && (fc in {WRITE_COIL, WRITE_REGISTER, WRITE_COILS, WRITE_REGISTERS} ==> |pdu| == 5 && pdu <= req)
    && (fc in {WRITE_FILE, MASK_WRITE} ==> pdu == req)
    && (fc == READ_STATUS ==> |pdu| == 2)
    && (fc == READ_FIFO ==> |pdu| >= 5 && Be16(pdu[1], pdu[2]) == |pdu| - 3 && 2 * Be16(pdu[3], pdu[4]) == |pdu| - 5)
  }

  /** A PDU that fits and is an exception or a normal reply to req. */
  predicate WellFormed(req: seq<byte>, pdu: seq<byte>)
    requires |req| >= 1
  {
    2 <= |pdu| <= 253 && (IsException(req[0], pdu) || IsNormal(req[0], req, pdu))
  }

  lemma BitsPduShape(fc: byte, bits: seq<bool>)
    requires |bits| <= 2000
    ensures var pdu := BitsPdu(fc, bits); pdu[0] == fc && pdu[1] == |pdu| - 2 && |pdu| == 2 + (|bits| + 7) / 8
  {
    hide PackBits;
  }

  lemma RegistersPduShape(fc: byte, ws: seq<word>)
    requires |ws| <= 125
    ensures var pdu := RegistersPdu(fc, ws); pdu[0] == fc && pdu[1] == |pdu| - 2 && |pdu| == 2 + 2 * |ws|
  {
    hide WordBytes;
  }

  lemma ReadsWellFormed(t: Tables, req: seq<byte>, di: byte)
    requires t.Valid() && 1 <= |req| <= 253
    ensures req[0] in {READ_COILS, READ_DISCRETE} ==> WellFormed(req, ReadBits(t, req, di).1)
    ensures req[0] in {READ_HOLDING, READ_INPUT} ==> WellFormed(req, ReadRegisters(t, req).1)
    ensures req[0] == READ_STATUS ==> WellFormed(req, ReadStatus(t, req, di).1)
  {
    hide BitsPdu, RegistersPdu, RefreshDiscrete, RefreshInput, PackByte, Be16;
    if req[0] in {READ_COILS, READ_DISCRETE} && RangeFault(req, 2000, MAX_COILS) == None {
      var u := if req[0] == READ_DISCRETE then RefreshDiscrete(t, di) else t;
      var table := if req[0] == READ_COILS then u.coils else u.discrete;
      BitsPduShape(req[0], table[Start(req)..Start(req) + Quantity(req)]);
    }
    if req[0] in {READ_HOLDING, READ_INPUT} && RangeFault(req, 125, MAX_REGISTERS) == None {
      var u := if req[0] == READ_INPUT then RefreshInput(t) else t;
      var table := if req[0] == READ_HOLDING then u.holding else u.input;
      RegistersPduShape(req[0], table[Start(req)..Start(req) + Quantity(req)]);
    }
  }

  lemma WritesWellFormed(t: Tables, req: seq<byte>, di: byte)
    requires t.Valid() && 1 <= |req| <= 253
    ensures req[0] == WRITE_COIL ==> WellFormed(req, WriteCoil(t, req, di).1)
    ensures req[0] == WRITE_REGISTER ==> WellFormed(req, WriteRegister(t, req, di).1)
    ensures req[0] == WRITE_COILS ==> WellFormed(req, WriteCoils(t, req, di).1)
    ensures req[0] == WRITE_REGISTERS ==> WellFormed(req, WriteRegisters(t, req, di).1)
    ensures req[0] == MASK_WRITE ==> WellFormed(req, MaskWrite(t, req, di).1)
  {
    hide Sync, Masked, BytesWords, UnpackBits;
  }

  lemma FilesWellFormed(t: Tables, req: seq<byte>)
    requires t.Valid() && 1 <= |req| <= 253
    ensures req[0] == READ_FILE ==> WellFormed(req, ReadFile(t, req))
    ensures req[0] == WRITE_FILE ==> WellFormed(req, WriteFile(t, req).1)
  {
    hide ReadRecords, WriteRecords;
  }

  lemma ReadWriteWellFormed(t: Tables, req: seq<byte>, di: byte)
    requires t.Valid() && 1 <= |req| <= 253 && req[0] == READ_WRITE
    ensures WellFormed(req, ReadWrite(t, req, di).1)
  {
    hide Sync, BytesWords, WordBytes;
  }

  lemma OthersWellFormed(t: Tables, req: seq<byte>)
    requires t.Valid() && 1 <= |req| <= 253
    ensures req[0] == READ_FIFO ==> WellFormed(req, ReadFifo(t, req))
    ensures req[0] == DEVICE_ID ==> WellFormed(req, DeviceId(req))
  {
    hide DeviceObjects, WordBytes;
  }

  /** Every request in every state gets a reply that fits a PDU and is either normal or an exception. */
  lemma EveryReplyWellFormed(t: Tables, req: seq<byte>, di: byte)
    requires t.Valid() && 1 <= |req| <= 253
    ensures WellFormed(req, Execute(t, req, di).1)
  {
    hide ReadBits, ReadRegisters, ReadStatus, WriteCoil, WriteRegister, WriteCoils, WriteRegisters, MaskWrite;
    hide ReadFile, WriteFile, ReadWrite, ReadFifo, DeviceId;
    ReadsWellFormed(t, req, di);
    WritesWellFormed(t, req, di);
    FilesWellFormed(t, req);
    OthersWellFormed(t, req);
    if req[0] == READ_WRITE {
      ReadWriteWellFormed(t, req, di);
    }
  }

  lemma RetainedTables(t: Tables, req: seq<byte>, di: byte)
    requires t.Valid() && |req| >= 1
    ensures !Broadcastable(req[0]) ==>
              var u := Execute(t, req, di).0;
              u.holding == t.holding && u.coils == t.coils && u.files == t.files && u.fifos == t.fifos
  {
  }

  /** An FC 0x15 request of legal size stores its longest good prefix, in order, whatever follows it; it is
      echoed exactly when that prefix is the whole request. The input mirrors stay: no write hook is called. */
  lemma WriteFileStoresGoodPrefix(t: Tables, req: seq<byte>, di: byte)
    requires t.Valid() && |req| >= 2 && req[0] == WRITE_FILE && 9 <= req[1] <= 251 && |req| == 2 + req[1]
    ensures var (u, pdu) := Execute(t, req, di);
            var good := GoodPrefix(req[2..]);
            && u == t.(files := ApplyAll(t.files, good))
            && u.discrete == t.discrete && u.input == t.input
            && (pdu == req <==> Encode(good) == req[2..])
            && (pdu != req ==> IsException(WRITE_FILE, pdu))
  {
    hide WriteRecords, GoodPrefix, ApplyAll, Encode;
    WriteAppliesGoodPrefix(t.files, req[2..]);
  }
}
