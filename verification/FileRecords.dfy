/** FC 0x14 and FC 0x15: the virtual file store. */
module FileRecords {
  import opened Bytes
  import opened SlaveTables

  const REF_TYPE: byte := 6

  datatype Result<+T> = Ok(value: T) | Err(code: byte)

  /** A sub-request header: reference type, file number, record number, record length. */
  datatype Header = Header(ref: byte, file: word, record: word, length: word) {
    /** The exception a bad header earns; the length check comes before the address check. */
    function Fault(): (code: Option<byte>) {
      if ref != REF_TYPE || length < 1 then Some(ILLEGAL_VALUE)
      else if record > 0x270F || !FileIndexValid(file) || !FileRangeValid(record, length) then Some(ILLEGAL_ADDRESS)
      else None
    }
  }

  predicate FileIndexValid(file: word) {
    1 <= file <= FILE_COUNT
  }

  predicate FileRangeValid(record: word, length: word) {
    length >= 1 && record < FILE_SIZE && length <= FILE_SIZE - record
  }

  function ParseHeader(body: seq<byte>): Header
    requires |body| >= 7
  {
    Header(body[0], Be16(body[1], body[2]), Be16(body[3], body[4]), Be16(body[5], body[6]))
  }

  function HeaderBytes(h: Header): (bs: seq<byte>)
    ensures |bs| == 7
  {
    [h.ref, Hi(h.file), Lo(h.file), Hi(h.record), Lo(h.record), Hi(h.length), Lo(h.length)]
  }

  function RecordSlice(files: Files, h: Header): (ws: seq<word>)
    requires FilesValid(files) && h.Fault() == None
    ensures |ws| == h.length
  {
    files[h.file - 1][h.record..h.record + h.length]
  }

  /** One sub-response: its length, the reference type, the registers. */
  function SubReply(ws: seq<word>): (bs: seq<byte>)
    requires |ws| <= 124
    ensures |bs| == 2 + 2 * |ws|
  {
    var first: byte := 1 + 2 * |ws|;
    [first, REF_TYPE] + WordBytes(ws)
  }

  /** The data of the FC 0x14 reply that follows `out`, for the sub-requests left in `body`. */
  function ReadRecords(files: Files, body: seq<byte>, out: seq<byte>): (r: Result<seq<byte>>)
    requires FilesValid(files) && |body| % 7 == 0
    ensures r.Ok? ==> |r.value| <= if |body| == 0 then |out| else 251
    ensures r.Err? ==> 2 <= r.code <= 3
    decreases |body|
  {
    if |body| == 0 then Ok(out)
    else
      var h := ParseHeader(body);
      if h.Fault().Some? then Err(h.Fault().value)
      else if 2 + |out| + 2 + 2 * h.length > 253 then Err(ILLEGAL_VALUE)
      else ReadRecords(files, body[7..], out + SubReply(RecordSlice(files, h)))
  }

  function StoreRecord(files: Files, h: Header, data: seq<word>): (r: Files)
    requires FilesValid(files) && h.Fault() == None && |data| == h.length
    ensures FilesValid(r)
  {
    files[h.file - 1 := Splice(files[h.file - 1], h.record, data)]
  }

  /** FC 0x15 on the sub-requests in `body`: the files after it and the exception it stops with, if any. */
  function WriteRecords(files: Files, body: seq<byte>): (r: (Files, Option<byte>))
    requires FilesValid(files)
    ensures FilesValid(r.0)
    ensures r.1.Some? ==> 2 <= r.1.value <= 3
    decreases |body|
  {
    if |body| == 0 then (files, None)
    else if |body| < 7 then (files, Some(ILLEGAL_VALUE))
    else
      var h := ParseHeader(body);
      if h.Fault().Some? then (files, h.Fault())
      else if 7 + 2 * h.length > |body| then (files, Some(ILLEGAL_VALUE))
      else
        var data := BytesWords(body[7..7 + 2 * h.length]);
        WriteRecords(StoreRecord(files, h, data), body[7 + 2 * h.length..])
  }

  // ------------------------------------------------------------ lists of sub-requests

  /** One FC 0x15 sub-request with its data. */
  datatype Sub = Sub(header: Header, data: seq<word>) {
    predicate Fits() {
      |data| == header.length
    }

    predicate Good() {
      Fits() && header.Fault() == None
    }

    /** Register r of the file is one of those written. */
    predicate Covers(r: nat) {
      header.record <= r < header.record + |data|
    }

    function Value(r: nat): word
      requires Covers(r)
    {
      data[r - header.record]
    }
  }

  function Encode(subs: seq<Sub>): (bs: seq<byte>) {
    if |subs| == 0 then [] else SubBytes(subs[0]) + Encode(subs[1..])
  }

  predicate AllGood(subs: seq<Sub>) {
    forall i | 0 <= i < |subs| :: subs[i].Good()
  }

  /** The store after the sub-requests, one after the other. */
  function ApplyAll(files: Files, subs: seq<Sub>): (r: Files)
    requires FilesValid(files) && AllGood(subs)
    ensures FilesValid(r)
    decreases |subs|
  {
    if |subs| == 0 then files
    else ApplyAll(StoreRecord(files, subs[0].header, subs[0].data), subs[1..])
  }

  /** `body` starts with a whole good sub-request. */
  predicate StartsGood(body: seq<byte>) {
    && |body| >= 7
    && ParseHeader(body).Fault() == None
    && 7 + 2 * ParseHeader(body).length <= |body|
  }

  function FirstSub(body: seq<byte>): (s: Sub)
    requires StartsGood(body)
    ensures s.Good()
  {
    var h := ParseHeader(body);
    Sub(h, BytesWords(body[7..7 + 2 * h.length]))
  }

  lemma HeaderRoundTrip(h: Header)
    ensures ParseHeader(HeaderBytes(h)) == h
  {
    hide Hi, Lo, Be16;
    BeWord(h.file);
    BeWord(h.record);
    BeWord(h.length);
  }

  lemma HeaderOf(body: seq<byte>)
    requires |body| >= 7
    ensures HeaderBytes(ParseHeader(body)) == body[..7]
    ensures ParseHeader(body[..7]) == ParseHeader(body)
  {
    hide Hi, Lo, Be16;
    BePair(body[1], body[2]);
    BePair(body[3], body[4]);
    BePair(body[5], body[6]);
  }

  /** The bytes of one sub-request. */
  function SubBytes(s: Sub): (bs: seq<byte>)
    ensures |bs| == 7 + 2 * |s.data|
  {
    HeaderBytes(s.header) + WordBytes(s.data)
  }

  lemma FirstSubEncoded(body: seq<byte>)
    requires StartsGood(body)
    ensures |FirstSub(body).data| == ParseHeader(body).length
    ensures SubBytes(FirstSub(body)) == body[..7 + 2 * |FirstSub(body).data|]
  {
    hide HeaderBytes, ParseHeader, WordBytes, BytesWords;
    var h := ParseHeader(body);
    var part := body[7..7 + 2 * h.length];
    BytesRoundTrip(part);
    HeaderOf(body);
    assert body[..7] + part == body[..7 + 2 * h.length];
  }

  lemma EncodedStartsGood(s: Sub, rest: seq<byte>)
    requires s.Good()
    ensures var body := SubBytes(s) + rest;
            StartsGood(body) && FirstSub(body) == s && body[7 + 2 * |s.data|..] == rest
  {
    hide HeaderBytes, ParseHeader, WordBytes, BytesWords;
    var body := SubBytes(s) + rest;
    HeaderRoundTrip(s.header);
    HeaderOf(body);
    assert body[..7] == HeaderBytes(s.header);
    assert body[7..7 + 2 * |s.data|] == WordBytes(s.data);
    WordsRoundTrip(s.data);
  }

  /** The longest run of whole good sub-requests at the front of any byte string. */
  function GoodPrefix(body: seq<byte>): (subs: seq<Sub>)
    ensures AllGood(subs)
    decreases |body|
  {
    if StartsGood(body) then
      var s := FirstSub(body);
      [s] + GoodPrefix(body[7 + 2 * |s.data|..])
    else []
  }

  lemma FirstSubBound(body: seq<byte>)
    requires StartsGood(body)
    ensures 7 + 2 * |FirstSub(body).data| <= |body|
  {
  }

  /** What is left of `body` behind its good prefix does not start with a good sub-request. */
  lemma {:induction false} GoodPrefixIsLongest(body: seq<byte>)
    ensures var front := Encode(GoodPrefix(body));
            |front| <= |body| && body[..|front|] == front && !StartsGood(body[|front|..])
    decreases |body|
  {
    hide StartsGood, FirstSub, SubBytes;
    if StartsGood(body) {
      var s := FirstSub(body);
      FirstSubBound(body);
      var n := 7 + 2 * |s.data|;
      var rest := body[n..];
      GoodPrefixIsLongest(rest);
      FirstSubEncoded(body);
      var tail := Encode(GoodPrefix(rest));
      assert GoodPrefix(body) == [s] + GoodPrefix(rest);
      assert GoodPrefix(body)[1..] == GoodPrefix(rest);
      assert Encode(GoodPrefix(body)) == body[..n] + tail;
      assert body[..n + |tail|] == body[..n] + rest[..|tail|];
      assert body[n + |tail|..] == rest[|tail|..];
    }
  }

  /** FC 0x15 applies the longest good prefix, in order, and succeeds iff nothing is left behind it. */
  lemma {:induction false} WriteAppliesGoodPrefix(files: Files, body: seq<byte>)
    requires FilesValid(files)
    ensures WriteRecords(files, body).0 == ApplyAll(files, GoodPrefix(body))
    ensures WriteRecords(files, body).1 == None <==> Encode(GoodPrefix(body)) == body
    decreases |body|
  {
    GoodPrefixIsLongest(body);
    if StartsGood(body) {
      var s := FirstSub(body);
      var n := 7 + 2 * |s.data|;
      var rest := body[n..];
      WriteAppliesGoodPrefix(StoreRecord(files, s.header, s.data), rest);
      assert GoodPrefix(body) == [s] + GoodPrefix(rest);
      assert GoodPrefix(body)[1..] == GoodPrefix(rest);
      FirstSubEncoded(body);
      assert Encode(GoodPrefix(body)) == body[..n] + Encode(GoodPrefix(rest));
      assert body == body[..n] + rest;
    } else if |body| > 0 {
      assert GoodPrefix(body) == [];
    }
  }

  /** The good prefix of an encoded list is the list up to its first bad sub-request. */
  lemma {:induction false} GoodPrefixOfList(subs: seq<Sub>, bad: seq<byte>)
    requires AllGood(subs) && !StartsGood(bad)
    ensures GoodPrefix(Encode(subs) + bad) == subs
    decreases |subs|
  {
    hide StartsGood, FirstSub, SubBytes, Sub.Good;
    if |subs| == 0 {
      assert Encode(subs) + bad == bad;
    } else {
      var rest := Encode(subs[1..]) + bad;
      var s := subs[0];
      assert Encode(subs) + bad == SubBytes(s) + rest;
      EncodedStartsGood(s, rest);
      GoodPrefixOfList(subs[1..], bad);
    }
  }

  /** For a list whose lengths tell the truth, that is the list up to its first faulty header. */
  lemma FaultEndsPrefix(subs: seq<Sub>, k: nat)
    requires k <= |subs| && AllGood(subs[..k])
    requires k < |subs| ==> subs[k].header.Fault().Some?
    ensures GoodPrefix(Encode(subs)) == subs[..k]
  {
    hide HeaderBytes, ParseHeader, WordBytes, StartsGood;
    EncodeConcat(subs[..k], subs[k..]);
    assert subs == subs[..k] + subs[k..];
    var bad := Encode(subs[k..]);
    if k < |subs| {
      assert subs[k..][0] == subs[k];
      FaultyStart(subs[k], Encode(subs[k..][1..]));
    } else {
      assert bad == [];
      EmptyStart();
    }
    GoodPrefixOfList(subs[..k], bad);
  }

  lemma EmptyStart()
    ensures !StartsGood([])
  {
  }

  lemma FaultyStart(s: Sub, rest: seq<byte>)
    requires s.header.Fault().Some?
    ensures !StartsGood(SubBytes(s) + rest)
  {
    hide HeaderBytes, ParseHeader, WordBytes;
    var body := SubBytes(s) + rest;
    HeaderRoundTrip(s.header);
    HeaderOf(body);
    assert body[..7] == HeaderBytes(s.header);
  }

  lemma {:induction false} EncodeConcat(a: seq<Sub>, b: seq<Sub>)
    ensures Encode(a + b) == Encode(a) + Encode(b)
    decreases |a|
  {
    hide SubBytes;
    if |a| == 0 {
      assert a + b == b;
    } else {
      EncodeConcat(a[1..], b);
      assert (a + b)[1..] == a[1..] + b;
    }
  }

  // ------------------------------------------------------------ write, then read

  /** The body of an FC 0x14 request for the given records. */
  function ReadBody(hs: seq<Header>): (bs: seq<byte>)
    ensures |bs| == 7 * |hs| && |bs| % 7 == 0
  {
    if |hs| == 0 then [] else HeaderBytes(hs[0]) + ReadBody(hs[1..])
  }

  predicate NoFaults(hs: seq<Header>) {
    forall i | 0 <= i < |hs| :: hs[i].Fault() == None
  }

  /** The size of the reply data for the given records: two bytes each besides their registers. */
  function ReplySize(hs: seq<Header>): nat {
    if |hs| == 0 then 0 else 2 + 2 * hs[0].length + ReplySize(hs[1..])
  }

  /** The FC 0x14 reply data that carries the records named by hs. */
  function RecordsReply(files: Files, hs: seq<Header>): (bs: seq<byte>)
    requires FilesValid(files) && NoFaults(hs) && 2 + ReplySize(hs) <= 253
    ensures |bs| == ReplySize(hs)
    decreases |hs|
  {
    if |hs| == 0 then []
    else SubReply(RecordSlice(files, hs[0])) + RecordsReply(files, hs[1..])
  }

  lemma ReadFront(files: Files, hs: seq<Header>, out: seq<byte>)
    requires FilesValid(files) && NoFaults(hs) && |hs| > 0 && |out| <= 251
    ensures ReadRecords(files, ReadBody(hs), out)
            == if 2 + |out| + 2 + 2 * hs[0].length > 253 then Err(ILLEGAL_VALUE)
               else ReadRecords(files, ReadBody(hs[1..]), out + SubReply(RecordSlice(files, hs[0])))
  {
    hide HeaderBytes, ParseHeader, SubReply, Header.Fault, RecordSlice, FilesValid;
    var body := ReadBody(hs);
    HeaderRoundTrip(hs[0]);
    HeaderOf(body);
    assert body[..7] == HeaderBytes(hs[0]);
    assert body[7..] == ReadBody(hs[1..]);
    assert ParseHeader(body) == hs[0];
    assert hs[0].Fault() == None;
  }

  /** FC 0x14 answers a list of existing records with exactly those records iff they fit in 253 bytes. */
  lemma {:induction false} ReadGivesRecords(files: Files, hs: seq<Header>, out: seq<byte>)
    requires FilesValid(files) && NoFaults(hs) && |out| <= 251
    ensures ReadRecords(files, ReadBody(hs), out)
            == if 2 + |out| + ReplySize(hs) <= 253 then Ok(out + RecordsReply(files, hs)) else Err(ILLEGAL_VALUE)
    decreases |hs|
  {
    hide HeaderBytes, ParseHeader, SubReply, Header.Fault, RecordSlice, FilesValid;
    if |hs| > 0 {
      ReadFront(files, hs, out);
      assert NoFaults(hs[1..]);
      hide ReadRecords;
      if 2 + |out| + 2 + 2 * hs[0].length <= 253 {
        var next := SubReply(RecordSlice(files, hs[0]));
        ReadGivesRecords(files, hs[1..], out + next);
        if 2 + |out| + ReplySize(hs) <= 253 {
          assert out + RecordsReply(files, hs) == out + next + RecordsReply(files, hs[1..]);
        }
      }
    } else {
      assert ReadBody(hs) == [];
      assert out + [] == out;
    }
  }

  /** Two sub-requests write the same value to every register they share. */
  ghost predicate Compatible(a: Sub, b: Sub)
    requires a.Fits() && b.Fits()
  {
    a.header.file == b.header.file ==> forall r: nat | a.Covers(r) && b.Covers(r) :: a.Value(r) == b.Value(r)
  }

  ghost predicate AllCompatible(subs: seq<Sub>)
    requires AllGood(subs)
  {
    forall i, j | 0 <= i < j < |subs| :: Compatible(subs[i], subs[j])
  }

  /** The store holds the data of a sub-request. */
  predicate Holds(files: Files, s: Sub)
    requires FilesValid(files) && s.Good()
  {
    RecordSlice(files, s.header) == s.data
  }

  lemma StoreKeepsCompatible(files: Files, s: Sub, x: Sub)
    requires FilesValid(files) && s.Good() && x.Good() && Compatible(s, x) && Holds(files, x)
    ensures Holds(StoreRecord(files, s.header, s.data), x)
  {
    var after := StoreRecord(files, s.header, s.data);
    if s.header.file == x.header.file {
      var file := after[x.header.file - 1];
      forall i | 0 <= i < |x.data|
        ensures RecordSlice(after, x.header)[i] == x.data[i]
      {
        var r := x.header.record + i;
        assert x.Covers(r) && x.Value(r) == x.data[i];
        assert RecordSlice(files, x.header)[i] == files[x.header.file - 1][r];
        if s.Covers(r) {
          assert file[s.header.record..s.header.record + |s.data|][r - s.header.record] == s.Value(r);
        }
      }
    }
  }

  lemma StoreSetsOwn(files: Files, s: Sub)
    requires FilesValid(files) && s.Good()
    ensures Holds(StoreRecord(files, s.header, s.data), s)
  {
  }

  lemma {:induction false} ApplyKeepsCompatible(files: Files, subs: seq<Sub>, x: Sub)
    requires FilesValid(files) && AllGood(subs) && x.Good() && Holds(files, x)
    requires forall i | 0 <= i < |subs| :: Compatible(subs[i], x)
    ensures Holds(ApplyAll(files, subs), x)
    decreases |subs|
  {
    hide StoreRecord, Holds, Header.Fault, Compatible;
    if |subs| > 0 {
      var s := subs[0];
      assert s.Good();
      StoreKeepsCompatible(files, s, x);
      ApplyKeepsCompatible(StoreRecord(files, s.header, s.data), subs[1..], x);
    }
  }

  lemma CompatibleSymmetric(a: Sub, b: Sub)
    requires a.Fits() && b.Fits()
    ensures Compatible(a, b) == Compatible(b, a)
  {
  }

  lemma CompatibleTail(subs: seq<Sub>)
    requires AllGood(subs) && |subs| > 0 && AllCompatible(subs)
    ensures AllCompatible(subs[1..])
    ensures forall i | 0 <= i < |subs[1..]| :: Compatible(subs[1..][i], subs[0])
  {
    hide Compatible;
    var rest := subs[1..];
    forall i, j | 0 <= i < j < |rest|
      ensures Compatible(rest[i], rest[j])
    {
      assert rest[i] == subs[i + 1] && rest[j] == subs[j + 1];
    }
    forall i | 0 <= i < |rest|
      ensures Compatible(rest[i], subs[0])
    {
      assert rest[i] == subs[i + 1];
      CompatibleSymmetric(subs[0], subs[i + 1]);
    }
  }

  /** After a write of compatible records each record reads back as the data written to it. */
  lemma {:induction false} WrittenReadsBack(files: Files, subs: seq<Sub>, k: nat)
    requires FilesValid(files) && AllGood(subs) && AllCompatible(subs) && k < |subs|
    ensures Holds(ApplyAll(files, subs), subs[k])
    decreases |subs|
  {
    hide StoreRecord, Holds, Header.Fault, Compatible, AllCompatible;
    var s := subs[0];
    assert s.Good();
    var next := StoreRecord(files, s.header, s.data);
    CompatibleTail(subs);
    if k == 0 {
      StoreSetsOwn(files, s);
      ApplyKeepsCompatible(next, subs[1..], s);
    } else {
      WrittenReadsBack(next, subs[1..], k - 1);
    }
  }

  /** Two sub-requests whose data one store holds agree wherever they overlap. */
  lemma HeldIsCompatible(files: Files, a: Sub, b: Sub)
    requires FilesValid(files) && a.Good() && b.Good() && Holds(files, a) && Holds(files, b)
    ensures Compatible(a, b)
  {
    if a.header.file == b.header.file {
      var file := files[a.header.file - 1];
      forall r: nat | a.Covers(r) && b.Covers(r)
        ensures a.Value(r) == b.Value(r)
      {
        assert RecordSlice(files, a.header)[r - a.header.record] == file[r];
        assert RecordSlice(files, b.header)[r - b.header.record] == file[r];
      }
    }
  }

  function Headers(subs: seq<Sub>): (hs: seq<Header>)
    ensures |hs| == |subs|
  {
    seq(|subs|, i requires 0 <= i < |subs| => subs[i].header)
  }

  /** The FC 0x14 reply data that carries the data of the given sub-requests. */
  function DataReply(subs: seq<Sub>): (bs: seq<byte>)
    requires AllGood(subs) && 2 + ReplySize(Headers(subs)) <= 253
    decreases |subs|
  {
    if |subs| == 0 then []
    else
      HeadersTail(subs);
      SubReply(subs[0].data) + DataReply(subs[1..])
  }

  lemma HeadersTail(subs: seq<Sub>)
    requires |subs| > 0
    ensures Headers(subs)[0] == subs[0].header && Headers(subs)[1..] == Headers(subs[1..])
    ensures ReplySize(Headers(subs)) == 2 + 2 * subs[0].header.length + ReplySize(Headers(subs[1..]))
  {
    assert Headers(subs)[1..] == Headers(subs[1..]);
  }

  lemma SubReplyTells(a: seq<word>, b: seq<word>)
    requires |a| == |b| <= 124 && SubReply(a) == SubReply(b)
    ensures a == b
  {
    hide WordBytes, BytesWords;
    assert SubReply(a)[2..] == WordBytes(a) && SubReply(b)[2..] == WordBytes(b);
    WordsRoundTrip(a);
    WordsRoundTrip(b);
  }

  /** The reply carries the data of the sub-requests exactly when the store holds all of them. */
  lemma {:induction false} StoredDataReply(files: Files, subs: seq<Sub>)
    requires FilesValid(files) && AllGood(subs) && 2 + ReplySize(Headers(subs)) <= 253
    ensures NoFaults(Headers(subs))
    ensures RecordsReply(files, Headers(subs)) == DataReply(subs)
            <==> forall k | 0 <= k < |subs| :: Holds(files, subs[k])
    decreases |subs|
  {
    hide SubReply, RecordSlice, Header.Fault;
    assert NoFaults(Headers(subs));
    if |subs| > 0 {
      HeadersTail(subs);
      var rest := subs[1..];
      StoredDataReply(files, rest);
      var own, data := RecordSlice(files, subs[0].header), subs[0].data;
      var more, dataMore := RecordsReply(files, Headers(rest)), DataReply(rest);
      assert |own| == |data| by {
        assert subs[0].Good();
      }
      if RecordsReply(files, Headers(subs)) == DataReply(subs) {
        FrontsEqual(SubReply(own), more, SubReply(data), dataMore);
        SubReplyTells(own, data);
        forall k | 0 <= k < |subs|
          ensures Holds(files, subs[k])
        {
          assert k > 0 ==> subs[k] == rest[k - 1];
        }
      }
      if forall k | 0 <= k < |subs| :: Holds(files, subs[k]) {
        assert Holds(files, subs[0]);
        forall k | 0 <= k < |rest|
          ensures Holds(files, rest[k])
        {
          assert rest[k] == subs[k + 1];
        }
      }
    }
  }

  lemma FrontsEqual(a: seq<byte>, x: seq<byte>, b: seq<byte>, y: seq<byte>)
    requires |a| == |b| && a + x == b + y
    ensures a == b && x == y
  {
    assert (a + x)[..|a|] == a && (b + y)[..|a|] == b;
    assert (a + x)[|a|..] == x && (b + y)[|a|..] == y;
  }

  /** An accepted FC 0x15 of any sub-requests, then an FC 0x14 of the same records: the records as the last writer
      left them, as long as the reply fits; and exactly the data sent, if and only if overlapping sub-requests agree. */
  lemma WriteThenReadRecords(files: Files, subs: seq<Sub>)
    requires FilesValid(files) && AllGood(subs) && 2 + ReplySize(Headers(subs)) <= 253
    ensures NoFaults(Headers(subs))
    ensures var (after, fault) := WriteRecords(files, Encode(subs));
            && fault == None && after == ApplyAll(files, subs)
            && ReadRecords(after, ReadBody(Headers(subs)), []) == Ok(RecordsReply(after, Headers(subs)))
            && (RecordsReply(after, Headers(subs)) == DataReply(subs) <==> AllCompatible(subs))
  {
    hide Encode, ApplyAll, RecordSlice, Header.Fault, StartsGood, WriteRecords, RecordsReply, DataReply, ReadRecords;
    hide Holds, Compatible;
    EmptyStart();
    GoodPrefixOfList(subs, []);
    assert Encode(subs) + [] == Encode(subs);
    WriteAppliesGoodPrefix(files, Encode(subs));
    var after := ApplyAll(files, subs);
    StoredDataReply(after, subs);
    ReadGivesRecords(after, Headers(subs), []);
    assert [] + RecordsReply(after, Headers(subs)) == RecordsReply(after, Headers(subs));
    if AllCompatible(subs) {
      forall k | 0 <= k < |subs|
        ensures Holds(after, subs[k])
      {
        WrittenReadsBack(files, subs, k);
      }
    }
    if RecordsReply(after, Headers(subs)) == DataReply(subs) {
      forall i, j | 0 <= i < j < |subs|
        ensures Compatible(subs[i], subs[j])
      {
        HeldIsCompatible(after, subs[i], subs[j]);
      }
    }
  }
}
