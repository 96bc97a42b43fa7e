/** The file store as the two-dimensional array it is, and the FC 0x14 and FC 0x15 loops over it. */
module FileLoops {
  import opened Bytes
  import opened SlaveTables
  import opened FileRecords

  ghost predicate StoreShape(store: array2<word>) {
    store.Length0 == FILE_COUNT && store.Length1 == FILE_SIZE
  }

  ghost function Row(store: array2<word>, f: nat, n: nat): (ws: seq<word>)
    requires f < store.Length0 && n <= store.Length1
    reads store
    ensures |ws| == n && forall i | 0 <= i < n :: ws[i] == store[f, i]
  {
    seq(n, i requires 0 <= i < n && f < store.Length0 && n <= store.Length1 reads store => store[f, i])
  }

  ghost function FilesOf(store: array2<word>): (files: Files)
    requires StoreShape(store)
    reads store
    ensures FilesValid(files)
    ensures forall f | 0 <= f < FILE_COUNT :: files[f] == Row(store, f, FILE_SIZE)
  {
    [Row(store, 0, FILE_SIZE), Row(store, 1, FILE_SIZE), Row(store, 2, FILE_SIZE), Row(store, 3, FILE_SIZE)]
  }

  /** One sub-request's data into its file. */
  method PutRecord(store: array2<word>, h: Header, data: seq<byte>)
    requires StoreShape(store) && h.Fault() == None && |data| == 2 * h.length
    modifies store
    ensures FilesOf(store) == StoreRecord(old(FilesOf(store)), h, BytesWords(data))
  {
    hide FilesOf, Be16;
    var index := h.file - 1;
    for r := 0 to h.length
      invariant forall i | h.record <= i < h.record + r :: store[index, i] == BytesWords(data)[i - h.record]
      invariant forall f, i | 0 <= f < FILE_COUNT && 0 <= i < FILE_SIZE
                              && !(f == index && h.record <= i < h.record + r) ::
                  store[f, i] == old(store[f, i])
    {
      store[index, h.record + r] := Be16(data[2 * r], data[2 * r + 1]);
    }
    ghost var was := old(FilesOf(store));
    SplicedAt(was[index], h.record, BytesWords(data));
    SameFiles(store, StoreRecord(was, h, BytesWords(data)));
  }

  lemma SplicedAt(ws: seq<word>, at: nat, part: seq<word>)
    requires at + |part| <= |ws|
    ensures forall i | 0 <= i < |ws| :: Splice(ws, at, part)[i] == if at <= i < at + |part| then part[i - at] else ws[i]
  {
  }

  lemma SameFiles(store: array2<word>, files: Files)
    requires StoreShape(store) && FilesValid(files)
    requires forall f, i | 0 <= f < FILE_COUNT && 0 <= i < FILE_SIZE :: store[f, i] == files[f][i]
    ensures FilesOf(store) == files
  {
    forall f | 0 <= f < FILE_COUNT
      ensures FilesOf(store)[f] == files[f]
    {
      assert FilesOf(store)[f] == Row(store, f, FILE_SIZE);
    }
  }

  method GetRecord(store: array2<word>, h: Header) returns (out: seq<byte>)
    requires StoreShape(store) && h.Fault() == None
    ensures out == WordBytes(RecordSlice(FilesOf(store), h))
  {
    out := [];
    ghost var slice := RecordSlice(FilesOf(store), h);
    for r := 0 to h.length
      invariant out == WordBytes(slice[..r])
    {
      WordBytesSnoc(slice[..r], slice[r]);
      assert slice[..r] + [slice[r]] == slice[..r + 1];
      var val := store[h.file - 1, h.record + r];
      assert slice[r] == FilesOf(store)[h.file - 1][h.record + r];
      out := out + [Hi(val)];
      out := out + [Lo(val)];
    }
    assert slice[..h.length] == slice;
  }

  lemma ReadTurn(files: Files, body: seq<byte>, pos: nat, out: seq<byte>)
    requires FilesValid(files) && |body| % 7 == 0 && pos % 7 == 0 && pos < |body|
    ensures pos + 7 <= |body| && (|body| - pos) % 7 == 0
    ensures var h := ParseHeader(body[pos..pos + 7]);
            ReadRecords(files, body[pos..], out)
            == if h.Fault().Some? then Err(h.Fault().value)
               else if 2 + |out| + 2 + 2 * h.length > 253 then Err(ILLEGAL_VALUE)
               else ReadRecords(files, body[pos + 7..], out + SubReply(RecordSlice(files, h)))
  {
    hide RecordSlice, SubReply, Header.Fault, ParseHeader;
    HeaderAhead(body, pos);
    assert body[pos..][7..] == body[pos + 7..];
  }

  /** FC 0x14: the reply data of every sub-request in turn, up to the first fault. */
  method ReadLoop(store: array2<word>, body: seq<byte>) returns (r: Result<seq<byte>>)
    requires StoreShape(store) && |body| % 7 == 0
    ensures r == ReadRecords(FilesOf(store), body, [])
  {
    hide ReadRecords, RecordSlice, ParseHeader, WordBytes, Header.Fault, FilesOf;
    var out: seq<byte> := [];
    var s := 0;
    assert body[0..] == body;
    while s < |body| / 7
      invariant 0 <= s <= |body| / 7
      invariant ReadRecords(FilesOf(store), body[7 * s..], out) == ReadRecords(FilesOf(store), body, [])
    {
      ReadTurn(FilesOf(store), body, 7 * s, out);
      var h := ParseHeader(body[7 * s..7 * s + 7]);
      if h.Fault().Some? {
        return Err(h.Fault().value);
      }
      if 2 + |out| + 2 + 2 * h.length > 253 {
        return Err(ILLEGAL_VALUE);
      }
      var data := GetRecord(store, h);
      var first: byte := 1 + 2 * h.length;
      out := out + ([first, REF_TYPE] + data);
      s := s + 1;
    }
    ReadEnd(FilesOf(store), out);
    assert body[7 * s..] == [];
    r := Ok(out);
  }

  lemma ReadEnd(files: Files, out: seq<byte>)
    requires FilesValid(files)
    ensures ReadRecords(files, [], out) == Ok(out)
  {
  }

  lemma HeaderAhead(body: seq<byte>, pos: nat)
    requires pos + 7 <= |body|
    ensures ParseHeader(body[pos..pos + 7]) == ParseHeader(body[pos..])
  {
  }

  lemma WriteUnfolds(files: Files, rest: seq<byte>, h: Header, data: seq<word>)
    requires FilesValid(files) && |rest| >= 7 && h == ParseHeader(rest)
    requires 7 + 2 * h.length <= |rest| ==> data == BytesWords(rest[7..7 + 2 * h.length])
    ensures WriteRecords(files, rest)
            == if h.Fault().Some? then (files, h.Fault())
               else if 7 + 2 * h.length > |rest| then (files, Some(ILLEGAL_VALUE))
               else WriteRecords(StoreRecord(files, h, data), rest[7 + 2 * h.length..])
  {
    hide StoreRecord, Header.Fault, ParseHeader, BytesWords;
  }

  lemma WriteShort(files: Files, rest: seq<byte>)
    requires FilesValid(files) && 0 < |rest| < 7
    ensures WriteRecords(files, rest) == (files, Some(ILLEGAL_VALUE))
  {
  }

  lemma WriteTurn(files: Files, body: seq<byte>, pos: nat, h: Header)
    requires FilesValid(files) && pos + 7 <= |body| && h == ParseHeader(body[pos..pos + 7])
    ensures h.Fault().Some? ==> WriteRecords(files, body[pos..]) == (files, h.Fault())
    ensures h.Fault().None? && pos + 7 + 2 * h.length > |body| ==>
              WriteRecords(files, body[pos..]) == (files, Some(ILLEGAL_VALUE))
    ensures h.Fault().None? && pos + 7 + 2 * h.length <= |body| ==>
              WriteRecords(files, body[pos..])
              == WriteRecords(StoreRecord(files, h, BytesWords(body[pos + 7..pos + 7 + 2 * h.length])),
                              body[pos + 7 + 2 * h.length..])
  {
    hide *;
    HeaderAhead(body, pos);
    if pos + 7 + 2 * h.length <= |body| {
      RestAhead(body, pos, 2 * h.length);
      WriteUnfolds(files, body[pos..], h, BytesWords(body[pos + 7..pos + 7 + 2 * h.length]));
    } else {
      WriteUnfolds(files, body[pos..], h, []);
    }
  }

  /** FC 0x15: stores sub-request after sub-request and stops at the first fault, keeping what is stored. */
  method WriteLoop(store: array2<word>, body: seq<byte>) returns (fault: Option<byte>)
    requires StoreShape(store)
    modifies store
    ensures (FilesOf(store), fault) == WriteRecords(old(FilesOf(store)), body)
  {
    hide WriteRecords, StoreRecord, ParseHeader, BytesWords, Header.Fault, FilesOf;
    var pos := 0;
    assert body[0..] == body;
    while pos < |body|
      invariant pos <= |body|
      invariant WriteRecords(FilesOf(store), body[pos..]) == WriteRecords(old(FilesOf(store)), body)
      decreases |body| - pos
    {
      if |body| - pos < 7 {
        WriteShort(FilesOf(store), body[pos..]);
        return Some(ILLEGAL_VALUE);
      }
      var h := ParseHeader(body[pos..pos + 7]);
      WriteTurn(FilesOf(store), body, pos, h);
      if h.Fault().Some? {
        return h.Fault();
      }
      if pos + 7 + 2 * h.length > |body| {
        return Some(ILLEGAL_VALUE);
      }
      PutRecord(store, h, body[pos + 7..pos + 7 + 2 * h.length]);
      pos := pos + 7 + 2 * h.length;
    }
    assert body[pos..] == [];
    WriteEnd(FilesOf(store));
    fault := None;
  }

  lemma WriteEnd(files: Files)
    requires FilesValid(files)
    ensures WriteRecords(files, []) == (files, None)
  {
  }

  lemma RestAhead(body: seq<byte>, pos: nat, n: nat)
    requires pos + 7 + n <= |body|
    ensures body[pos..][7..7 + n] == body[pos + 7..pos + 7 + n]
    ensures body[pos..][7 + n..] == body[pos + 7 + n..]
  {
    var rest := body[pos..];
    var part := rest[7..7 + n];
    assert forall k | 0 <= k < n :: part[k] == body[pos + 7 + k];
  }
}
