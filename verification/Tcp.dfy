/** `modbus_tcp_build_response`: the MBAP header around the dispatcher that RTU shares. */
module Tcp {
  import opened Bytes
  import opened CrcLoop
  import opened SlaveTables
  import opened Pdu
  import opened RtuSlave
  import Comm
  import opened Requests

  const MBAP := 7
  const MAX_PDU := 253

  datatype Exchange = Exchange(tables: Tables, status: Status, tx: seq<byte>)

  function TransactionId(adu: seq<byte>): word
    requires |adu| >= MBAP
  {
    Be16(adu[0], adu[1])
  }

  function ProtocolId(adu: seq<byte>): word
    requires |adu| >= MBAP
  {
    Be16(adu[2], adu[3])
  }

  function LengthField(adu: seq<byte>): word
    requires |adu| >= MBAP
  {
    Be16(adu[4], adu[5])
  }

  predicate HeaderOk(rx: seq<byte>) {
    && MBAP + 1 <= |rx| <= MBAP + MAX_PDU
    && ProtocolId(rx) == 0 && 2 <= LengthField(rx) <= 1 + MAX_PDU && |rx| == 6 + LengthField(rx)
  }

  function Wrap(transaction: word, unit: byte, pdu: seq<byte>): (adu: seq<byte>)
    requires |pdu| <= MAX_PDU
    ensures |adu| == MBAP + |pdu|
  {
    [Hi(transaction), Lo(transaction), 0, 0, Hi(1 + |pdu|), Lo(1 + |pdu|), unit] + pdu
  }

  /** One ADU from a TCP client; unit identifier 0 is served and echoed, never a broadcast. */
  function BuildResponse(t: Tables, unit: byte, rx: seq<byte>, di: byte): (e: Exchange)
    requires t.Valid()
    ensures e.tables.Valid()
  {
    if !HeaderOk(rx) then Exchange(t, ERROR, [])
    else if rx[6] != unit && rx[6] != 0 then Exchange(t, OK, [])
    else
      var (u, reply) := Process(t, rx[MBAP..], false, di);
      if !reply.Responded() then Exchange(u, OK, [])
      else if |reply.built| > MAX_PDU then Exchange(u, ERROR, [])
      else Exchange(u, OK, Wrap(TransactionId(rx), rx[6], reply.built))
  }

  /** Every served request is answered under its own header, within 260 bytes, with the dispatcher's PDU. */
  lemma ServedRequest(t: Tables, unit: byte, rx: seq<byte>, di: byte)
    requires t.Valid() && HeaderOk(rx) && (rx[6] == unit || rx[6] == 0)
    ensures var e := BuildResponse(t, unit, rx, di);
            var (u, pdu) := Execute(t, rx[MBAP..], di);
            && e.status == OK && e.tables == u
            && 9 <= |e.tx| <= 260 && HeaderOk(e.tx)
            && e.tx[..4] == rx[..4] && e.tx[6] == rx[6] && e.tx[MBAP..] == pdu
            && WellFormed(rx[MBAP..], pdu)
  {
    hide Execute, Hi, Lo, Be16;
    EveryReplyWellFormed(t, rx[MBAP..], di);
    var pdu := Execute(t, rx[MBAP..], di).1;
    BePair(rx[0], rx[1]);
    BePair(rx[2], rx[3]);
    BeWord(1 + |pdu|);
    ZeroPair(rx[2], rx[3]);
  }

  /** A header with protocol 0 and the length that is there. */
  predicate Framed(rx: seq<byte>) {
    8 <= |rx| <= 260 && rx[2] == 0 && rx[3] == 0 && U16(rx, 4) == |rx| - 6
  }

  /** Every byte string that is not framed is an error, another unit is not answered, and neither touches the
      tables; ... */
  lemma UnservedAdu(t: Tables, unit: byte, rx: seq<byte>, di: byte)
    requires t.Valid()
    ensures !Framed(rx) ==> BuildResponse(t, unit, rx, di) == Exchange(t, ERROR, [])
    ensures Framed(rx) && rx[6] != unit && rx[6] != 0 ==> BuildResponse(t, unit, rx, di) == Exchange(t, OK, [])
  {
    hide Be16, U16;
    FramedHeader(rx);
  }

  /** The reply PDU under the request's transaction and unit, protocol 0 and its own length. */
  predicate Answers(tx: seq<byte>, rx: seq<byte>, pdu: seq<byte>)
    requires |rx| >= 8
  {
    Framed(tx) && tx[0] == rx[0] && tx[1] == rx[1] && tx[6] == rx[6] && tx[7..] == pdu
  }

  /** ... everything else is executed and answered. */
  lemma ServedAdu(t: Tables, unit: byte, rx: seq<byte>, di: byte)
    requires t.Valid() && Framed(rx) && (rx[6] == unit || rx[6] == 0)
    ensures var e := BuildResponse(t, unit, rx, di);
            var r := Execute(t, rx[7..], di);
            e.status == OK && e.tables == r.0 && Answers(e.tx, rx, r.1)
  {
    hide Execute, Be16, U16, HeaderOk, BuildResponse, WellFormed, Framed;
    FramedSize(rx);
    FramedHeader(rx);
    ServedRequest(t, unit, rx, di);
    var e := BuildResponse(t, unit, rx, di);
    FramedHeader(e.tx);
    assert e.tx[0] == e.tx[..4][0] && e.tx[1] == e.tx[..4][1];
  }

  lemma FramedSize(rx: seq<byte>)
    requires Framed(rx)
    ensures 8 <= |rx| <= 260
  {
  }

  lemma FramedHeader(rx: seq<byte>)
    ensures HeaderOk(rx) <==> Framed(rx)
  {
    hide Be16, U16;
    if |rx| >= 8 {
      ZeroPair(rx[2], rx[3]);
      Number(rx, 4);
    }
  }

  lemma ZeroPair(hi: byte, lo: byte)
    ensures Be16(hi, lo) == 0 <==> hi == 0 && lo == 0
  {
  }

  /** The function codes the serial side handles before the shared dispatcher. */
  predicate SerialOnly(fc: byte) {
    fc == Comm.DIAGNOSTICS || IsFetch(fc) || fc == SERVER_ID
  }

  lemma ServedSerially(s: Slave, rtu: seq<byte>, di: byte)
    requires s.Valid() && AddressedTo(s.id, rtu) && rtu[0] != 0 && !s.comm.diag.listenOnly && !SerialOnly(rtu[1])
    ensures var a := Receive(s, rtu, di);
            var (u, pdu) := Execute(s.tables, RequestOf(rtu), di);
            a.status == OK && a.slave.tables == u && 2 <= |pdu| <= 253 && a.tx == Answer(s.id, pdu)
  {
    hide Execute, CrcOk, Account, Answer, WellFormed;
    EveryReplyWellFormed(s.tables, RequestOf(rtu), di);
    assert WellFormed(RequestOf(rtu), Execute(s.tables, RequestOf(rtu), di).1);
    ReplyFits(RequestOf(rtu), Execute(s.tables, RequestOf(rtu), di).1);
  }

  lemma ReplyFits(req: seq<byte>, pdu: seq<byte>)
    requires |req| >= 1 && WellFormed(req, pdu)
    ensures 2 <= |pdu| <= 253
  {
  }

  lemma AnswerIntact(id: byte, pdu: seq<byte>)
    requires 1 <= |pdu| <= 253
    ensures var tx := Answer(id, pdu); |tx| == |pdu| + 3 && Intact(tx) && tx[0] == id && RequestOf(tx) == pdu
  {
    hide CrcOk, Crc16;
    SealedIsOk([id] + pdu);
  }

  /** One request, over RTU and over TCP: same PDU, same tables; an RTU answer is 5 to 256 bytes long. */
  lemma SameOnBothLines(s: Slave, rtu: seq<byte>, tcp: seq<byte>, di: byte)
    requires s.Valid() && AddressedTo(s.id, rtu) && rtu[0] != 0 && !s.comm.diag.listenOnly
    requires HeaderOk(tcp) && (tcp[6] == s.id || tcp[6] == 0) && tcp[MBAP..] == RequestOf(rtu)
    requires !SerialOnly(rtu[1])
    ensures var a, b := Receive(s, rtu, di), BuildResponse(s.tables, s.id, tcp, di);
            && a.status == b.status == OK && a.slave.tables == b.tables
            && 5 <= |a.tx| <= 256 && |b.tx| > MBAP && Intact(a.tx) && a.tx[0] == s.id && RequestOf(a.tx) == b.tx[MBAP..]
  {
    hide Execute, Intact, Receive, BuildResponse, Answer, WellFormed, RequestOf;
    ServedRequest(s.tables, s.id, tcp, di);
    ServedSerially(s, rtu, di);
    AnswerIntact(s.id, Execute(s.tables, RequestOf(rtu), di).1);
  }

  /** TCP refuses the serial-only codes with exception 01 and touches nothing. */
  lemma SerialOnlyRefused(t: Tables, unit: byte, rx: seq<byte>, di: byte)
    requires t.Valid() && HeaderOk(rx) && (rx[6] == unit || rx[6] == 0) && SerialOnly(rx[MBAP])
    ensures var e := BuildResponse(t, unit, rx, di);
            e.tables == t && e.tx[MBAP..] == Exception(rx[MBAP], ILLEGAL_FUNCTION)
  {
    assert Execute(t, rx[MBAP..], di) == (t, Exception(rx[MBAP], ILLEGAL_FUNCTION));
    hide Execute, BuildResponse, HeaderOk, Exception, WellFormed;
    ServedRequest(t, unit, rx, di);
  }
}
