/** What a master call makes of any bytes that come back, read off them: which frames it accepts, and as what. */
module Responses {
  import opened Bytes
  import opened CrcLoop
  import opened RtuSlave
  import opened FileRecords
  import opened Master
  import opened Requests
  import opened SlaveAnswers

  /** A sound frame from `dest` with this function code. */
  predicate From(rx: seq<byte>, dest: byte, fc: byte) {
    Sound(rx) && rx[0] == dest && rx[1] == fc
  }

  /** For every request and every received byte string: accepted if and only if it is a sound frame from the addressee
      with the request's function code; an exception if and only if it is one with that code plus 128 and a byte behind
      it; a CRC error for a wrong CRC; an error for everything else. */
  lemma EveryResponse(dest: byte, req: seq<byte>, rx: seq<byte>)
    requires |req| >= 1
    ensures var o := Judge(dest, req, rx);
            && (o.status == OK <==> From(rx, dest, req[0]) && req[0] < 128)
            && (o.status == OK ==> o.exception == 0 && o.response == rx[1..|rx| - 2])
            && (o.status == EXCEPTION <==> req[0] < 128 && From(rx, dest, req[0] + 128) && |rx| >= 5)
            && (o.status == EXCEPTION ==> o.exception == rx[2] && o.response == [])
            && (o.status == CRC_ERROR <==> 4 <= |rx| <= 256 && !Sound(rx))
            && (o.status !in {OK, EXCEPTION} ==> o == Failed(if o.status == CRC_ERROR then CRC_ERROR else ERROR))
  {
    hide CrcOk, Crc16;
    SoundIsIntact(rx);
  }

  // ------------------------------------------------------------ the calls

  /** Reading registers succeeds on exactly the frames that carry as many as were asked for, and gives them. */
  lemma RegistersAccepted(dest: byte, start: word, quantity: word, rx: seq<byte>)
    ensures var call := RegistersFrom(Judge(dest, ReadRequest(0x03, start, quantity), rx), quantity);
            && (call.status == OK <==>
                  From(rx, dest, 0x03) && 1 <= quantity <= 127 && |rx| == 5 + 2 * quantity && rx[2] == 2 * quantity)
            && (call.status == OK ==>
                  call.exception == 0 && |call.value| == quantity
                  && forall i | 0 <= i < quantity :: call.value[i] == U16(rx, 3 + 2 * i))
            && (call.status != OK ==> call.value == [])
  {
    hide From, Judge, Hi, Lo;
    var req := ReadRequest(0x03, start, quantity);
    EveryResponse(dest, req, rx);
    var o := Judge(dest, req, rx);
    if o.status == OK {
      FromSize(rx, dest, 0x03);
      var pdu := rx[1..|rx| - 2];
      forall i | 0 <= i < quantity && |pdu| == 2 + 2 * quantity
        ensures BytesWords(pdu[2..])[i] == U16(rx, 3 + 2 * i)
      {
        assert pdu[2..][2 * i] == rx[3 + 2 * i] && pdu[2..][2 * i + 1] == rx[3 + 2 * i + 1];
      }
    }
  }

  lemma FromSize(rx: seq<byte>, dest: byte, fc: byte)
    requires From(rx, dest, fc)
    ensures 4 <= |rx| <= 256 && rx[0] == dest && rx[1] == fc
  {
  }

  /** The byte count a coil read expects, kept in a byte. */
  function CoilCount(quantity: word): byte {
    (quantity + 7) / 8 % 256
  }

  /** Reading coils succeeds on exactly the frames whose byte count is the expected one, kept in a byte, and fits the
      buffer. */
  lemma CoilsAccepted(dest: byte, start: word, quantity: word, room: nat, rx: seq<byte>)
    requires quantity >= 1
    ensures var call := BitsFrom(Judge(dest, ReadRequest(0x01, start, quantity), rx), quantity, room);
            && (call.status == OK <==>
                  From(rx, dest, 0x01) && |rx| >= 5 && rx[2] == CoilCount(quantity) && |rx| - 5 == rx[2]
                  && rx[2] <= room)
            && (call.status == OK ==> call.exception == 0 && call.value == rx[3..|rx| - 2])
            && (call.status != OK ==> call.value == [])
  {
    hide From, Judge, ParseBits, Hi, Lo, CoilCount;
    var req := ReadRequest(0x01, start, quantity);
    EveryResponse(dest, req, rx);
    if Judge(dest, req, rx).status == OK {
      FromSize(rx, dest, 0x01);
      BitsParsed(rx, quantity, room);
    }
  }

  lemma BitsParsed(rx: seq<byte>, quantity: word, room: nat)
    requires 4 <= |rx| && quantity >= 1
    ensures ParseBits(rx[1..|rx| - 2], quantity, room)
            == if |rx| >= 5 && rx[2] == CoilCount(quantity) && |rx| - 5 == rx[2] && rx[2] <= room
               then Some(rx[3..|rx| - 2]) else None
  {
    if |rx| >= 5 {
      assert rx[1..|rx| - 2][2..] == rx[3..|rx| - 2];
    }
  }

  /** The single and multiple write calls take any sound frame of eight bytes with their function code. */
  lemma EchoAccepted(dest: byte, req: seq<byte>, rx: seq<byte>)
    requires |req| >= 1 && req[0] < 128
    ensures Echoed(Judge(dest, req, rx), req[0]).status == OK <==> From(rx, dest, req[0]) && |rx| == 8
  {
    hide From, Judge;
    EveryResponse(dest, req, rx);
    if Judge(dest, req, rx).status == OK {
      FromSize(rx, dest, req[0]);
    }
  }

  /** Reading a file record succeeds on exactly the frames with one sub-response of the length asked for. */
  lemma RecordAccepted(dest: byte, file: word, record: word, length: word, rx: seq<byte>)
    requires 1 <= length <= 124
    ensures var call := RecordFrom(Judge(dest, ReadFileRequest(file, record, length), rx), length);
            && (call.status == OK <==>
                  From(rx, dest, 0x14) && |rx| == 7 + 2 * length
                  && rx[2] == 2 + 2 * length && rx[3] == 1 + 2 * length && rx[4] == 6)
            && (call.status == OK ==>
                  call.exception == 0 && |call.value| == length
                  && forall i | 0 <= i < length :: call.value[i] == U16(rx, 5 + 2 * i))
            && (call.status != OK ==> call.value == [])
  {
    hide From, Judge, ParseFileRecord, HeaderBytes;
    var req := ReadFileRequest(file, record, length);
    assert req[0] == 0x14;
    EveryResponse(dest, req, rx);
    if Judge(dest, req, rx).status == OK {
      FromSize(rx, dest, 0x14);
      RecordParsed(rx, length);
    }
  }

  lemma RecordParsed(rx: seq<byte>, length: word)
    requires 4 <= |rx| && 1 <= length <= 124 && rx[1] == 0x14
    ensures var parsed := ParseFileRecord(rx[1..|rx| - 2], length);
            && (parsed.Some? <==>
                  |rx| == 7 + 2 * length && rx[2] == 2 + 2 * length && rx[3] == 1 + 2 * length && rx[4] == 6)
            && (parsed.Some? ==>
                  |parsed.value| == length && forall i | 0 <= i < length :: parsed.value[i] == U16(rx, 5 + 2 * i))
  {
    var pdu := rx[1..|rx| - 2];
    forall i | 0 <= i < length && |pdu| == 4 + 2 * length
      ensures BytesWords(pdu[4..4 + 2 * length])[i] == U16(rx, 5 + 2 * i)
    {
      assert pdu[4..4 + 2 * length][2 * i] == rx[5 + 2 * i];
      assert pdu[4..4 + 2 * length][2 * i + 1] == rx[5 + 2 * i + 1];
    }
  }

  /** Writing a file record succeeds on exactly the sound frames that repeat the request. */
  lemma RepeatAccepted(dest: byte, req: seq<byte>, rx: seq<byte>)
    requires |req| >= 1 && req[0] < 128
    ensures Repeated(Judge(dest, req, rx), req).status == OK <==>
              Sound(rx) && rx[0] == dest && rx[1..|rx| - 2] == req
  {
    hide Crc16, Judge;
    EveryResponse(dest, req, rx);
  }
}
