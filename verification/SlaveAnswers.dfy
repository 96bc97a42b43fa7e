/** What the serial slave makes of every frame, read off its bytes: who is meant, what is carried out, what is said. */
module SlaveAnswers {
  import opened Bytes
  import opened CrcLoop
  import opened SlaveTables
  import opened Pdu
  import opened RtuSlave
  import opened Requests
  import Comm
  import SlaveRuns

  /** A frame of 4 to 256 bytes whose last two are its CRC, low byte first. */
  predicate Sound(rx: seq<byte>) {
    4 <= |rx| <= 256 && 256 * (rx[|rx| - 1] as int) + rx[|rx| - 2] as int == Crc16(rx[..|rx| - 2])
  }

  /** The frame is a sound one from `id` around the PDU. */
  predicate Carries(tx: seq<byte>, id: byte, pdu: seq<byte>) {
    Sound(tx) && tx[0] == id && tx[1..|tx| - 2] == pdu
  }

  lemma SoundIsIntact(rx: seq<byte>)
    ensures Sound(rx) <==> Intact(rx)
  {
    hide Crc16;
  }

  lemma AnswerCarries(id: byte, pdu: seq<byte>)
    requires 1 <= |pdu| <= 253
    ensures Carries(Answer(id, pdu), id, pdu)
  {
    hide CrcOk, Crc16, Sound;
    SealedIsOk([id] + pdu);
    SoundIsIntact(Answer(id, pdu));
  }

  /** The function codes that are carried out on broadcast. */
  predicate Writes(fc: byte) {
    fc in {0x05, 0x06, 0x0F, 0x10, 0x15, 0x16, 0x17}
  }

  /** Diagnostics, event counter, event log and server ID, which are answered without the tables. */
  predicate Apart(fc: byte) {
    fc in {0x08, 0x0B, 0x0C, 0x11}
  }

  /** For every frame: which ones are dropped and with which status, what a broadcast leaves in the tables, and that a
      request to this slave is executed on them and its reply sent back. */
  lemma FrameOutcome(s: Slave, rx: seq<byte>, di: byte)
    requires s.Valid()
    ensures var t := Receive(s, rx, di);
            && (|rx| < 4 || |rx| > 256 ==> t == Turn(s, ERROR, []))
            && (4 <= |rx| <= 256 && !Sound(rx) ==> t.status == CRC_ERROR && t.tx == [] && t.slave.tables == s.tables)
            && (Sound(rx) ==> t.status == OK)
            && (Sound(rx) && rx[0] != s.id && rx[0] != 0 ==> t.tx == [] && t.slave.tables == s.tables)
            && (Sound(rx) && rx[0] == 0 ==>
                  t.slave.tables == if Writes(rx[1]) && !s.comm.diag.listenOnly
                                    then Execute(s.tables, rx[1..|rx| - 2], di).0 else s.tables)
            && (Sound(rx) && rx[0] == s.id && rx[0] != 0 ==>
                  if s.comm.diag.listenOnly || Apart(rx[1]) then t.slave.tables == s.tables
                  else var (u, pdu) := Execute(s.tables, rx[1..|rx| - 2], di);
                       t.slave.tables == u && Carries(t.tx, s.id, pdu))
  {
    hide CrcOk, Crc16, Sound, Carries, Execute, Account, Comm.DiagProcess, Comm.EventProcess, Answer, WellFormed;
    SoundIsIntact(rx);
    if Sound(rx) && (rx[0] == s.id || rx[0] == 0) {
      SlaveRuns.ReceiveAddressed(s, rx, di);
      EveryReplyWellFormed(s.tables, RequestOf(rx), di);
      var pdu := Execute(s.tables, RequestOf(rx), di).1;
      ReplySize(RequestOf(rx), pdu);
      AnswerCarries(s.id, pdu);
    }
  }

  lemma ReplySize(req: seq<byte>, pdu: seq<byte>)
    requires |req| >= 1 && WellFormed(req, pdu)
    ensures 2 <= |pdu| <= 253
  {
  }

  // ------------------------------------------------------------ diagnostics

  /** The slave answers the frame with this PDU. */
  predicate Says(s: Slave, rx: seq<byte>, di: byte, pdu: seq<byte>)
    requires s.Valid()
  {
    Carries(Receive(s, rx, di).tx, s.id, pdu)
  }

  /** A request for this slave, which is not in listen-only mode. */
  predicate Asked(s: Slave, rx: seq<byte>, fc: byte) {
    Sound(rx) && rx[0] == s.id && rx[0] != 0 && rx[1] == fc && !s.comm.diag.listenOnly
  }

  lemma SaysReply(s: Slave, rx: seq<byte>, di: byte)
    requires s.Valid() && Sound(rx) && rx[0] == s.id && rx[0] != 0
    ensures var reply := Dispatch(Taken(Heard(s)), RequestOf(rx), false, di).1;
            if reply.Responded() then Says(s, rx, di, reply.built) else Receive(s, rx, di).tx == []
  {
    hide CrcOk, Crc16, Sound, Carries, Account, Dispatch, Answer, Receive;
    SoundIsIntact(rx);
    SlaveRuns.ReceiveAddressed(s, rx, di);
    var reply := Dispatch(Taken(Heard(s)), RequestOf(rx), false, di).1;
    if reply.Responded() {
      AnswerCarries(s.id, reply.built);
    }
  }

  lemma DispatchesDiag(s: Slave, rx: seq<byte>, di: byte)
    requires s.Valid() && Asked(s, rx, 0x08)
    ensures var c := Taken(Heard(s)).comm;
            var reply := Comm.DiagProcess(c, rx[1..|rx| - 2], false).1;
            && !c.diag.listenOnly && c.diag.register == s.comm.diag.register
            && (if reply.Responded() then Says(s, rx, di, reply.built) else Receive(s, rx, di).tx == [])
  {
    hide Crc16, Comm.DiagProcess, Says, Receive;
    SaysReply(s, rx, di);
  }

  /** FC 0x08 in full: what each sub-function answers, which ones insist on data, and in which order. The echoes carry
      the first five bytes of the request, however long it is; the counters are in `SlaveRuns.CountersReadBack`. */
  lemma DiagnosticsAnswer(s: Slave, rx: seq<byte>, di: byte)
    requires s.Valid() && Asked(s, rx, 0x08)
    ensures |rx| < 8 ==> Says(s, rx, di, [0x88, 3])
    ensures |rx| >= 8 ==>
              var sub, data := U16(rx, 2), U16(rx, 4);
              && (sub in {0x00, 0x03} ==> Says(s, rx, di, rx[1..6]))
              && (sub == 0x01 ==> Says(s, rx, di, if data in {0, 0xFF00} then rx[1..6] else [0x88, 3]))
              && (sub in {0x0A, 0x14} ==> Says(s, rx, di, if data == 0 then rx[1..6] else [0x88, 3]))
              && (sub == 0x02 ==>
                    Says(s, rx, di, if data == 0
                                    then [0x08, 0, 0x02, Hi(s.comm.diag.register), Lo(s.comm.diag.register)]
                                    else [0x88, 3]))
              && (sub == 0x04 ==> if data == 0 then Receive(s, rx, di).tx == [] else Says(s, rx, di, [0x88, 3]))
              && (0x0B <= sub <= 0x12 && data != 0 ==> Says(s, rx, di, [0x88, 3]))
              && (sub > 0x14 || 0x05 <= sub <= 0x09 || sub == 0x13 ==> Says(s, rx, di, [0x88, 1]))
  {
    hide Crc16, Says, Receive, Comm.Push, Comm.NoteRestart, Comm.ClearCounters;
    DispatchesDiag(s, rx, di);
    var req := rx[1..|rx| - 2];
    if |rx| >= 8 {
      assert req[..5] == rx[1..6];
      assert U16(req, 1) == U16(rx, 2) && U16(req, 3) == U16(rx, 4);
    }
  }

  /** From power-up the diagnostic register is always zero, so sub-function 0x02 answers zero. */
  lemma {:induction false} RegisterStaysZero(s: Slave, inputs: seq<SlaveRuns.Input>)
    requires s.Valid() && s.comm.diag.register == 0
    ensures SlaveRuns.Run(s, inputs).comm.diag.register == 0
    decreases |inputs|
  {
    hide SlaveRuns.Step;
    if |inputs| > 0 {
      RegisterStep(s, inputs[0]);
      RegisterStaysZero(SlaveRuns.Step(s, inputs[0]).slave, inputs[1..]);
    }
  }

  lemma RegisterStep(s: Slave, i: SlaveRuns.Input)
    requires s.Valid() && s.comm.diag.register == 0
    ensures SlaveRuns.Step(s, i).slave.comm.diag.register == 0
  {
    hide CrcOk, Process, Answer, Comm.Push, Comm.NoteRestart;
  }

  // ------------------------------------------------------------ event counter, event log and server ID

  /** FC 0x0B and 0x0C with anything behind the function code are refused with 03. */
  lemma FetchRefused(s: Slave, rx: seq<byte>, di: byte)
    requires s.Valid() && (Asked(s, rx, 0x0B) || Asked(s, rx, 0x0C)) && |rx| > 4
    ensures Says(s, rx, di, [rx[1] + 128, 3])
  {
    hide Crc16, Says;
    SaysReply(s, rx, di);
  }

  /** FC 0x11 answers with the name of the board and the run indicator ON; anything behind the function code is refused
      with 03. */
  lemma ServerIdAnswer(s: Slave, rx: seq<byte>, di: byte)
    requires s.Valid() && Asked(s, rx, 0x11)
    ensures Says(s, rx, di, if |rx| == 4 then [0x11, 23] + Ascii("STM32-Automation-Board") + [0xFF] else [0x91, 3])
  {
    hide Crc16, Says;
    SaysReply(s, rx, di);
    assert Ascii("STM32-Automation-Board") == SERVER_NAME;
  }

  /** None of the four is carried out or answered on broadcast, except the faulty diagnostics requests of
      `SlaveRuns.BroadcastAnswers`. */
  lemma ApartIsSilentOnBroadcast(s: Slave, rx: seq<byte>, di: byte)
    requires s.Valid() && Sound(rx) && rx[0] == 0 && rx[1] in {0x0B, 0x0C, 0x11}
    ensures Receive(s, rx, di).tx == []
  {
    hide Sound, CrcOk, Account, Receive;
    SoundIsIntact(rx);
    SlaveRuns.BroadcastAnswers(s, rx, di);
  }
}
