/** The RTU master of modbus_master.c: building requests, framing them, judging and parsing the answers. */
module Master {
  import opened Bytes
  import opened CrcLoop
  import opened SlaveTables
  import opened FileRecords
  import opened Pdu
  import opened RtuSlave

  /** The end of a transaction: its status, the exception code (0 for none) and the response PDU. */
  datatype Outcome = Outcome(status: Status, exception: byte, response: seq<byte>)

  function Failed(status: Status): Outcome {
    Outcome(status, 0, [])
  }

  // ------------------------------------------------------------ requests

  function ReadRequest(fc: byte, start: word, quantity: word): (pdu: seq<byte>)
    ensures |pdu| == 5
  {
    [fc, Hi(start), Lo(start), Hi(quantity), Lo(quantity)]
  }

  /** The request that writes one coil or one register. */
  function WriteSingleRequest(fc: byte, addr: word, value: word): (pdu: seq<byte>)
    ensures |pdu| == 5
  {
    [fc, Hi(addr), Lo(addr), Hi(value), Lo(value)]
  }

  /** The write-multiple-registers request; empty when the quantity is refused. */
  function WriteRegistersRequest(start: word, regs: seq<word>): (pdu: seq<byte>) {
    if |regs| < 1 || |regs| > 123 then []
    else
      var count: byte := 2 * |regs|;
      [WRITE_REGISTERS, Hi(start), Lo(start), Hi(|regs|), Lo(|regs|), count] + WordBytes(regs)
  }

  /** The write-multiple-coils request for the first `quantity` bits of `bits`. */
  function WriteCoilsRequest(start: word, quantity: word, bits: seq<byte>): (pdu: seq<byte>)
    requires |bits| == (quantity + 7) / 8
  {
    if quantity < 1 || quantity > 1968 then []
    else
      var count: byte := (quantity + 7) / 8;
      [WRITE_COILS, Hi(start), Lo(start), Hi(quantity), Lo(quantity), count] + bits
  }

  function ReadFileRequest(file: word, record: word, length: word): (pdu: seq<byte>) {
    if length < 1 then [] else [READ_FILE, 7] + HeaderBytes(Header(REF_TYPE, file, record, length))
  }

  function WriteFileRequest(file: word, record: word, regs: seq<word>): (pdu: seq<byte>) {
    if |regs| < 1 || |regs| > 122 then []
    else
      var length: byte := 7 + 2 * |regs|;
      [WRITE_FILE, length] + HeaderBytes(Header(REF_TYPE, file, record, |regs|)) + WordBytes(regs)
  }

  // ------------------------------------------------------------ framing and judging

  /** `modbus_master_rtu_frame`; empty when the PDU cannot be framed. */
  function FrameFor(dest: byte, pdu: seq<byte>): (adu: seq<byte>) {
    if |pdu| == 0 || |pdu| > 253 then [] else Seal([dest] + pdu)
  }

  /** `modbus_master_rtu_validate_response` and the checks behind it, for a response ADU to `req`. */
  function Judge(dest: byte, req: seq<byte>, rx: seq<byte>): (o: Outcome)
    requires |req| >= 1
    ensures |o.response| <= 253
  {
    if |rx| < 4 || |rx| > MAX_ADU then Failed(ERROR)
    else if !CrcOk(rx) then Failed(CRC_ERROR)
    else if rx[0] != dest then Failed(ERROR)
    else
      var pdu := RequestOf(rx);
      if pdu[0] >= 128 then
        if |pdu| < 2 || pdu[0] - 128 != req[0] then Failed(ERROR) else Outcome(EXCEPTION, pdu[1], [])
      else if pdu[0] != req[0] then Failed(ERROR)
      else Outcome(OK, 0, pdu)
  }

  // ------------------------------------------------------------ responses

  /** The checks on a read response. The expected byte count is kept in one byte, so 128 registers look like none. */
  predicate RegistersPass(pdu: seq<byte>, quantity: word) {
    |pdu| >= 2 && quantity >= 1 && pdu[1] == 2 * quantity % 256 && |pdu| - 2 == pdu[1]
  }

  /** Registers out of a read response that holds them all; None otherwise. */
  function ParseRegisters(pdu: seq<byte>, quantity: word): Option<seq<word>> {
    if RegistersPass(pdu, quantity) && quantity <= 127 then Some(BytesWords(pdu[2..])) else None
  }

  /** Packed bits out of a read response into `room` bytes; the expected byte count is kept in one byte. */
  function ParseBits(pdu: seq<byte>, quantity: word, room: nat): Option<seq<byte>> {
    if |pdu| < 2 || quantity < 1 || pdu[1] != (quantity + 7) / 8 % 256 || |pdu| - 2 != pdu[1] || pdu[1] > room then None
    else Some(pdu[2..])
  }

  /** The checks on a file response. The expected length is kept in 16 bits. */
  predicate RecordPasses(pdu: seq<byte>, length: word) {
    && |pdu| >= 4 && pdu[0] == READ_FILE && length >= 1 && |pdu| - 2 == pdu[1]
    && pdu[2] == (1 + 2 * length) % 0x1_0000 && pdu[3] == REF_TYPE && pdu[1] == (pdu[2] as int + 1) % 256
  }

  /** The registers of a file response that holds them all; None otherwise. */
  function ParseFileRecord(pdu: seq<byte>, length: word): Option<seq<word>> {
    if RecordPasses(pdu, length) && length <= 32767 then Some(BytesWords(pdu[4..4 + 2 * length])) else None
  }

  // ------------------------------------------------------------ a loss-free bus with one slave

  /** One transaction over a bus that delivers every frame: what the slave became and how the call ended. */
  function Transact(s: Slave, dest: byte, req: seq<byte>, di: byte): (r: (Slave, Outcome))
    requires s.Valid()
    ensures r.0.Valid() && r.0.id == s.id && |r.1.response| <= 253
  {
    var adu := FrameFor(dest, req);
    if |adu| == 0 then (s, Failed(ERROR))
    else
      var turn := Receive(s, adu, di);
      if dest == 0 then (turn.slave, Failed(OK))
      else if |turn.tx| == 0 then (turn.slave, Failed(TIMEOUT))
      else (turn.slave, Judge(dest, req, turn.tx))
  }

  datatype Call<T> = Call(status: Status, exception: byte, value: T)

  function Conclude<T>(o: Outcome, parsed: Option<T>, none: T): (c: Call<T>) {
    if o.status != OK then Call(o.status, o.exception, none)
    else if parsed.Some? then Call(OK, 0, parsed.value)
    else Call(ERROR, 0, none)
  }

  /** How the calls end, given the outcome of their transaction: registers, coils or a file record read, ... */
  function RegistersFrom(o: Outcome, quantity: word): Call<seq<word>> {
    Conclude(o, ParseRegisters(o.response, quantity), [])
  }

  function BitsFrom(o: Outcome, quantity: word, room: nat): Call<seq<byte>> {
    Conclude(o, ParseBits(o.response, quantity, room), [])
  }

  function RecordFrom(o: Outcome, length: word): Call<seq<word>> {
    Conclude(o, ParseFileRecord(o.response, length), [])
  }

  /** ... five bytes starting with the function code, ... */
  function Echoed(o: Outcome, fc: byte): Call<()> {
    Conclude(o, if |o.response| == 5 && o.response[0] == fc then Some(()) else None, ())
  }

  /** ... or the request byte by byte. */
  function Repeated(o: Outcome, req: seq<byte>): Call<()> {
    Conclude(o, if o.response == req then Some(()) else None, ())
  }

  /** `modbus_master_read_holding_registers`. */
  function ReadHoldingRegisters(s: Slave, dest: byte, start: word, quantity: word, di: byte):
      (r: (Slave, Call<seq<word>>))
    requires s.Valid()
    ensures r.0.Valid() && r.0.id == s.id
  {
    if quantity < 1 || quantity > 125 then (s, Call(ERROR, 0, []))
    else
      var (after, o) := Transact(s, dest, ReadRequest(READ_HOLDING, start, quantity), di);
      (after, RegistersFrom(o, quantity))
  }

  /** `modbus_master_write_single_coil`. */
  function WriteSingleCoil(s: Slave, dest: byte, addr: word, on: bool, di: byte): (r: (Slave, Call<()>))
    requires s.Valid()
    ensures r.0.Valid() && r.0.id == s.id
  {
    var (after, o) := Transact(s, dest, WriteSingleRequest(WRITE_COIL, addr, if on then 0xFF00 else 0), di);
    (after, Echoed(o, WRITE_COIL))
  }

  /** `modbus_master_write_single_register`. */
  function WriteSingleRegister(s: Slave, dest: byte, addr: word, value: word, di: byte): (r: (Slave, Call<()>))
    requires s.Valid()
    ensures r.0.Valid() && r.0.id == s.id
  {
    var (after, o) := Transact(s, dest, WriteSingleRequest(WRITE_REGISTER, addr, value), di);
    (after, Echoed(o, WRITE_REGISTER))
  }

  /** `modbus_master_write_multiple_registers`. */
  function WriteMultipleRegisters(s: Slave, dest: byte, start: word, regs: seq<word>, di: byte): (r: (Slave, Call<()>))
    requires s.Valid()
    ensures r.0.Valid() && r.0.id == s.id
  {
    var req := WriteRegistersRequest(start, regs);
    if |req| == 0 then (s, Call(ERROR, 0, ()))
    else
      var (after, o) := Transact(s, dest, req, di);
      (after, Echoed(o, WRITE_REGISTERS))
  }

  /** `modbus_master_read_coils` into a buffer of `room` bytes. */
  function ReadCoils(s: Slave, dest: byte, start: word, quantity: word, room: nat, di: byte):
      (r: (Slave, Call<seq<byte>>))
    requires s.Valid()
    ensures r.0.Valid() && r.0.id == s.id
  {
    var (after, o) := Transact(s, dest, ReadRequest(READ_COILS, start, quantity), di);
    (after, BitsFrom(o, quantity, room))
  }

  /** `modbus_master_write_multiple_coils`. */
  function WriteMultipleCoils(s: Slave, dest: byte, start: word, quantity: word, bits: seq<byte>, di: byte):
      (r: (Slave, Call<()>))
    requires s.Valid() && |bits| == (quantity + 7) / 8
    ensures r.0.Valid() && r.0.id == s.id
  {
    var req := WriteCoilsRequest(start, quantity, bits);
    if |req| == 0 then (s, Call(ERROR, 0, ()))
    else
      var (after, o) := Transact(s, dest, req, di);
      (after, Echoed(o, WRITE_COILS))
  }

  /** `modbus_master_read_file_record`. */
  function ReadFileRecord(s: Slave, dest: byte, file: word, record: word, length: word, di: byte):
      (r: (Slave, Call<seq<word>>))
    requires s.Valid()
    ensures r.0.Valid() && r.0.id == s.id
  {
    var req := ReadFileRequest(file, record, length);
    if |req| == 0 then (s, Call(ERROR, 0, []))
    else
      var (after, o) := Transact(s, dest, req, di);
      (after, RecordFrom(o, length))
  }

  /** `modbus_master_write_file_record`: the answer must repeat the whole request. */
  function WriteFileRecord(s: Slave, dest: byte, file: word, record: word, regs: seq<word>, di: byte):
      (r: (Slave, Call<()>))
    requires s.Valid()
    ensures r.0.Valid() && r.0.id == s.id
  {
    var req := WriteFileRequest(file, record, regs);
    if |req| == 0 then (s, Call(ERROR, 0, ()))
    else
      var (after, o) := Transact(s, dest, req, di);
      (after, Repeated(o, req))
  }
}
