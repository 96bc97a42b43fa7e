/** FC 0x14 and FC 0x15 read off the bytes of the request: which files, which registers, which exception. */
module FileRequests {
  import opened Bytes
  import opened SlaveTables
  import opened FileRecords
  import opened Requests
  import Pdu

  /** Four files of 128 registers: 03 for another reference type or no registers, then 02 for registers that do not
      exist. */
  function RecordRefusal(ref: byte, file: nat, record: nat, length: nat): (code: Option<byte>) {
    if ref != 6 || length == 0 then Some(3)
    else if file == 0 || file > 4 || record + length > 128 then Some(2)
    else None
  }

  lemma HeaderVerdict(h: Header)
    ensures h.Fault() == RecordRefusal(h.ref, h.file, h.record, h.length)
  {
  }

  lemma HeaderAt(req: seq<byte>, at: nat)
    requires at + 7 <= |req|
    ensures ParseHeader(req[at..]) == Header(req[at], U16(req, at + 1), U16(req, at + 3), U16(req, at + 5))
  {
  }

  // ------------------------------------------------------------ FC 0x14

  /** FC 0x14 of a bad size is refused with 03. */
  lemma ReadSize(t: Tables, req: seq<byte>, di: byte)
    requires t.Valid() && |req| >= 1 && req[0] == 0x14
    requires |req| < 2 || req[1] < 7 || req[1] > 245 || req[1] % 7 != 0 || |req| != 2 + req[1]
    ensures Refused(Pdu.Execute(t, req, di), t, req, 3)
  {
    hide ReadRecords;
  }

  /** The reply carries these registers as its one sub-response. */
  predicate CarriesRecord(pdu: seq<byte>, file: seq<word>, record: nat, length: nat) {
    && record + length <= |file| && 1 <= length <= 124
    && |pdu| == 4 + 2 * length && pdu[0] == 0x14 && pdu[1] == 2 + 2 * length && pdu[2] == 1 + 2 * length && pdu[3] == 6
    && forall i | 0 <= i < length :: U16(pdu, 4 + 2 * i) == file[record + i]
  }

  /** One sub-request is answered with the registers it names, or with the exception its header earns, or with 03 when
      they do not fit in one reply. */
  lemma ReadOneRecord(t: Tables, req: seq<byte>, di: byte)
    requires t.Valid() && |req| == 9 && req[0] == 0x14 && req[1] == 7
    ensures var r := Pdu.Execute(t, req, di);
            var file, record, length := U16(req, 3), U16(req, 5), U16(req, 7);
            match RecordRefusal(req[2], file, record, length)
            case Some(code) => Refused(r, t, req, code)
            case None =>
              if length > 124 then Refused(r, t, req, 3)
              else r.0 == t && CarriesRecord(r.1, t.files[file - 1], record, length)
  {
    hide ParseHeader, Header.Fault, ReadRecords, RecordSlice, SubReply, Be16, CarriesRecord;
    HeaderAt(req, 2);
    var h := ParseHeader(req[2..]);
    HeaderVerdict(h);
    OneSubRequest(t.files, req[2..]);
    if h.Fault() == None && h.length <= 124 {
      OneReply(t.files, h);
    }
  }

  lemma OneSubRequest(files: Files, body: seq<byte>)
    requires FilesValid(files) && |body| == 7
    ensures var h := ParseHeader(body);
            ReadRecords(files, body, [])
            == if h.Fault().Some? then Err(h.Fault().value)
               else if h.length > 124 then Err(3)
               else Ok(SubReply(RecordSlice(files, h)))
  {
    hide ParseHeader, Header.Fault, RecordSlice, SubReply;
    var h := ParseHeader(body);
    if h.Fault() == None && h.length <= 124 {
      var data := SubReply(RecordSlice(files, h));
      assert body[7..] == [] && [] + data == data;
      assert ReadRecords(files, [], data) == Ok(data);
    }
  }

  lemma OneReply(files: Files, h: Header)
    requires FilesValid(files) && h.Fault() == None && h.length <= 124
    ensures 1 <= h.file <= 4
    ensures CarriesRecord([0x14, 2 + 2 * h.length] + SubReply(RecordSlice(files, h)), files[h.file - 1],
                          h.record, h.length)
  {
    var ws := RecordSlice(files, h);
    var pdu := [0x14, 2 + 2 * h.length] + SubReply(ws);
    forall i | 0 <= i < h.length
      ensures U16(pdu, 4 + 2 * i) == files[h.file - 1][h.record + i]
    {
      assert pdu[4 + 2 * i] == WordBytes(ws)[2 * i] && pdu[4 + 2 * i + 1] == WordBytes(ws)[2 * i + 1];
    }
  }

  /** A list with a faulty sub-request behind k good ones is refused with that fault, unless the reply is full before
      it is reached. */
  lemma {:induction false} FaultRefusesRead(files: Files, hs: seq<Header>, k: nat, out: seq<byte>)
    requires FilesValid(files) && k < |hs| && NoFaults(hs[..k]) && |out| <= 251
    requires RecordRefusal(hs[k].ref, hs[k].file, hs[k].record, hs[k].length).Some?
    ensures ReadRecords(files, ReadBody(hs), out)
            == if 2 + |out| + ReplySize(hs[..k]) > 253 then Err(3)
               else Err(RecordRefusal(hs[k].ref, hs[k].file, hs[k].record, hs[k].length).value)
    decreases k
  {
    hide HeaderBytes, ParseHeader, SubReply, Header.Fault, RecordSlice, FilesValid, RecordRefusal;
    HeaderVerdict(hs[k]);
    if k == 0 {
      var body := ReadBody(hs);
      HeaderRoundTrip(hs[0]);
      HeaderOf(body);
      assert body[..7] == HeaderBytes(hs[0]);
    } else {
      assert hs[..k][0] == hs[0] && hs[..k][1..] == hs[1..][..k - 1];
      ReadFaultyFront(files, hs, out);
      hide ReadRecords;
      if 2 + |out| + 2 + 2 * hs[0].length <= 253 {
        FaultRefusesRead(files, hs[1..], k - 1, out + SubReply(RecordSlice(files, hs[0])));
      }
    }
  }

  lemma ReadFaultyFront(files: Files, hs: seq<Header>, out: seq<byte>)
    requires FilesValid(files) && |hs| > 0 && hs[0].Fault() == None && |out| <= 251
    ensures ReadRecords(files, ReadBody(hs), out)
            == if 2 + |out| + 2 + 2 * hs[0].length > 253 then Err(3)
               else ReadRecords(files, ReadBody(hs[1..]), out + SubReply(RecordSlice(files, hs[0])))
  {
    hide HeaderBytes, ParseHeader, SubReply, Header.Fault, RecordSlice, FilesValid;
    var body := ReadBody(hs);
    HeaderRoundTrip(hs[0]);
    HeaderOf(body);
    assert body[..7] == HeaderBytes(hs[0]);
    assert body[7..] == ReadBody(hs[1..]);
  }

  // ------------------------------------------------------------ FC 0x15

  /** FC 0x15 of a bad size is refused with 03; one whole sub-request stores its registers and is echoed, or is refused
      with the exception its header earns. */
  lemma WriteOneRecord(t: Tables, req: seq<byte>, di: byte)
    requires t.Valid() && |req| >= 1 && req[0] == 0x15
    ensures var r := Pdu.Execute(t, req, di);
            && (|req| < 2 || req[1] < 9 || req[1] > 251 || |req| != 2 + req[1] ==> Refused(r, t, req, 3))
            && (|req| >= 11 && |req| <= 253 && req[1] == |req| - 2 && |req| == 9 + 2 * U16(req, 7) ==>
                  var file, record, length := U16(req, 3), U16(req, 5), U16(req, 7);
                  match RecordRefusal(req[2], file, record, length)
                  case Some(code) => Refused(r, t, req, code)
                  case None =>
                    && r.1 == req && r.0 == t.(files := r.0.files)
                    && forall f, k | 0 <= f < 4 && 0 <= k < 128 ::
                         r.0.files[f][k] == if f == file - 1 && record <= k < record + length
                                            then U16(req, 9 + 2 * (k - record)) else t.files[f][k])
  {
    hide ParseHeader, Header.Fault, WriteRecords, StoreRecord, Be16, BytesWords;
    if |req| >= 11 && |req| <= 253 && req[1] == |req| - 2 && |req| == 9 + 2 * U16(req, 7) {
      HeaderAt(req, 2);
      var body := req[2..];
      var h := ParseHeader(body);
      HeaderVerdict(h);
      OneWrite(t.files, body);
      if h.Fault() == None {
        var data := body[7..7 + 2 * h.length];
        StoredAt(t.files, h, data);
        forall at: nat | at + 2 <= |data|
          ensures U16(data, at) == U16(req, 9 + at)
        {
          assert data[at] == req[9 + at] && data[at + 1] == req[9 + at + 1];
        }
      }
    }
  }

  lemma OneWrite(files: Files, body: seq<byte>)
    requires FilesValid(files) && |body| >= 7 && |body| == 7 + 2 * ParseHeader(body).length
    ensures var h := ParseHeader(body);
            WriteRecords(files, body)
            == if h.Fault().Some? then (files, h.Fault())
               else (StoreRecord(files, h, BytesWords(body[7..7 + 2 * h.length])), None)
  {
    hide ParseHeader, Header.Fault, StoreRecord, BytesWords;
    var h := ParseHeader(body);
    if h.Fault() == None {
      var next := StoreRecord(files, h, BytesWords(body[7..7 + 2 * h.length]));
      assert body[7 + 2 * h.length..] == [];
      assert WriteRecords(next, []) == (next, None);
    }
  }

  lemma StoredAt(files: Files, h: Header, data: seq<byte>)
    requires FilesValid(files) && h.Fault() == None && |data| == 2 * h.length
    ensures var r := StoreRecord(files, h, BytesWords(data));
            && FilesValid(r)
            && forall f, k | 0 <= f < 4 && 0 <= k < 128 ::
                 r[f][k] == if f == h.file - 1 && h.record <= k < h.record + h.length
                            then U16(data, 2 * (k - h.record)) else files[f][k]
  {
    hide Splice, BytesWords;
    SplicedWords(files[h.file - 1], h.record, data, h.length);
  }

  /** What FC 0x15 stops with in front of what is left: nothing at the end, 03 when less than a header is left, the
      exception of a bad header, and 03 again when the registers it announces are not all there. */
  function StopCode(rest: seq<byte>): (code: Option<byte>) {
    if rest == [] then None
    else if |rest| < 7 then Some(3)
    else
      match RecordRefusal(rest[0], U16(rest, 1), U16(rest, 3), U16(rest, 5))
      case Some(code) => Some(code)
      case None => Some(3)
  }

  /** The exception of FC 0x15 is decided by what is left behind the good prefix. */
  lemma {:induction false} WriteStopsWith(files: Files, body: seq<byte>)
    requires FilesValid(files)
    ensures |Encode(GoodPrefix(body))| <= |body|
    ensures WriteRecords(files, body).1 == StopCode(body[|Encode(GoodPrefix(body))|..])
    decreases |body|
  {
    hide StoreRecord, FirstSub, SubBytes, StartsGood, WriteRecords, StopCode;
    GoodPrefixIsLongest(body);
    if StartsGood(body) {
      var s := FirstSub(body);
      var n := 7 + 2 * |s.data|;
      FirstSubBound(body);
      GoodFront(files, body);
      WriteStopsWith(StoreRecord(files, s.header, s.data), body[n..]);
      var tail := GoodPrefix(body[n..]);
      EncodeFirst(s, tail);
      assert GoodPrefix(body) == [s] + tail;
      assert body[n..][|Encode(tail)|..] == body[n + |Encode(tail)|..];
    } else {
      assert GoodPrefix(body) == [] && body[0..] == body;
      BadFront(files, body);
    }
  }

  lemma EncodeFirst(s: Sub, tail: seq<Sub>)
    ensures |Encode([s] + tail)| == 7 + 2 * |s.data| + |Encode(tail)|
  {
    assert ([s] + tail)[1..] == tail;
  }

  lemma BadFront(files: Files, body: seq<byte>)
    requires FilesValid(files) && !StartsGood(body)
    ensures WriteRecords(files, body).1 == StopCode(body)
  {
    hide ParseHeader, Header.Fault, StoreRecord, RecordRefusal, U16;
    if |body| >= 7 {
      HeaderAt(body, 0);
      HeaderVerdict(ParseHeader(body));
      assert body[0..] == body;
    }
  }

  lemma GoodFront(files: Files, body: seq<byte>)
    requires FilesValid(files) && StartsGood(body)
    ensures var s := FirstSub(body);
            && 7 + 2 * |s.data| <= |body|
            && WriteRecords(files, body) == WriteRecords(StoreRecord(files, s.header, s.data), body[7 + 2 * |s.data|..])
  {
    hide ParseHeader, Header.Fault, StoreRecord;
  }
}
