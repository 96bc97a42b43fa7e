/** Mask write bit by bit, the board inputs, lists of file records, and who calls the write hook. */
module Effects {
  import opened Bytes
  import opened SlaveTables
  import opened Pdu
  import opened FileRecords

  // ------------------------------------------------------------ mask write

  /** The bits of a register that a mask selects, and the ones it does not. */
  function Selected(w: word, mask: word): bv16 {
    Keep(ToBits(w), ToBits(mask))
  }

  function Unselected(w: word, mask: word): bv16 {
    Drop(ToBits(w), ToBits(mask))
  }

  function Keep(x: bv16, a: bv16): bv16 {
    x & a
  }

  function Drop(x: bv16, a: bv16): bv16 {
    x & !a
  }

  lemma BackToBits(x: bv16)
    ensures ToBits(FromBits(x)) == x
  {
  }

  lemma MixedBits(c: bv16, a: bv16, o: bv16)
    ensures Keep(Mix(c, a, o), a) == Keep(c, a)
    ensures Drop(Mix(c, a, o), a) == Drop(o, a)
  {
  }

  lemma MaskedSelects(current: word, andMask: word, orMask: word)
    ensures Selected(Masked(current, andMask, orMask), andMask) == Selected(current, andMask)
    ensures Unselected(Masked(current, andMask, orMask), andMask) == Unselected(orMask, andMask)
  {
    hide ToBits, FromBits, Mix, Keep, Drop;
    var c, a, o := ToBits(current), ToBits(andMask), ToBits(orMask);
    BackToBits(Mix(c, a, o));
    MixedBits(c, a, o);
  }

  // ------------------------------------------------------------ board inputs

  lemma UnpackOne(di: byte, k: nat)
    requires k < 8
    ensures UnpackBits([di], 8)[k] == Bit(di, k)
  {
  }

  lemma RepackedByte(di: byte)
    ensures PackByte(UnpackBits([di], 8)) == di
  {
    hide UnpackBits, PackByte, Bit;
    forall k: nat | k < 8
      ensures Bit(PackByte(UnpackBits([di], 8)), k) == Bit(di, k)
    {
      UnpackOne(di, k);
    }
    SameBits(PackByte(UnpackBits([di], 8)), di);
  }

  /** FC 0x07 reports the board inputs of this moment. */
  lemma StatusMirrorsInputs(t: Tables, di: byte)
    requires t.Valid()
    ensures Execute(t, [READ_STATUS], di).1 == [READ_STATUS, di]
  {
    hide UnpackBits, PackByte;
    RepackedByte(di);
    assert RefreshDiscrete(t, di).discrete[..8] == UnpackBits([di], DI_COUNT);
  }

  // ------------------------------------------------------------ file records

  function WriteFileListRequest(subs: seq<Sub>): (req: seq<byte>)
    requires |Encode(subs)| <= 251
  {
    var length: byte := |Encode(subs)|;
    [WRITE_FILE, length] + Encode(subs)
  }

  function ReadFileListRequest(hs: seq<Header>): (req: seq<byte>)
    requires 7 * |hs| <= 245
  {
    var length: byte := 7 * |hs|;
    [READ_FILE, length] + ReadBody(hs)
  }

  lemma {:induction false} EncodedSize(subs: seq<Sub>)
    requires AllGood(subs)
    ensures |Encode(subs)| >= 9 * |subs|
  {
    hide SubBytes, Header.Fault;
    if |subs| > 0 {
      assert subs[0].Good();
      GoodIsLong(subs[0]);
      EncodedSize(subs[1..]);
    }
  }

  lemma GoodIsLong(s: Sub)
    requires s.Good()
    ensures |SubBytes(s)| >= 9
  {
  }

  /** FC 0x15 with any list of good sub-requests stores them all and is echoed. */
  lemma {:induction false} FileListWritten(t: Tables, subs: seq<Sub>, di: byte)
    requires t.Valid() && AllGood(subs) && 1 <= |subs| && |Encode(subs)| <= 251
    ensures var write := WriteFileListRequest(subs);
            Execute(t, write, di) == (t.(files := ApplyAll(t.files, subs)), write)
  {
    hide Encode, ApplyAll, Header.Fault, WriteRecords, StartsGood;
    EncodedSize(subs);
    var write := WriteFileListRequest(subs);
    assert write[2..] == Encode(subs);
    EmptyStart();
    GoodPrefixOfList(subs, []);
    assert Encode(subs) + [] == Encode(subs);
    WriteAppliesGoodPrefix(t.files, Encode(subs));
  }

  /** FC 0x14 for any list of existing records answers with them if they fit in one reply, with exception 03 if not. */
  lemma {:induction false} FileListRead(t: Tables, hs: seq<Header>, di: byte)
    requires t.Valid() && NoFaults(hs) && 1 <= |hs| && 7 * |hs| <= 245
    ensures Execute(t, ReadFileListRequest(hs), di)
            == (t, if 2 + ReplySize(hs) <= 253 then [READ_FILE, ReplySize(hs)] + RecordsReply(t.files, hs)
                   else Exception(READ_FILE, ILLEGAL_VALUE))
  {
    hide Header.Fault, RecordsReply, ReadRecords, ReadBody, ReplySize, Exception;
    var read := ReadFileListRequest(hs);
    assert read[2..] == ReadBody(hs);
    ReadGivesRecords(t.files, hs, []);
    if 2 + ReplySize(hs) <= 253 {
      assert [] + RecordsReply(t.files, hs) == RecordsReply(t.files, hs);
    }
  }

  /** One FC 0x15 with any list of good sub-requests, then one FC 0x14 for the same records: the write is echoed, and
      the read answers with the records as the last writer left them, or with exception 03 when they do not fit in
      one reply. The answer carries exactly the data sent if and only if overlapping sub-requests agree. */
  lemma {:induction false} FileListWriteThenRead(t: Tables, subs: seq<Sub>, di: byte, di': byte)
    requires t.Valid() && AllGood(subs) && 1 <= |subs| && |Encode(subs)| <= 251
    ensures 7 * |subs| <= 245 && NoFaults(Headers(subs))
    ensures var write, read := WriteFileListRequest(subs), ReadFileListRequest(Headers(subs));
            var (mid, echo) := Execute(t, write, di);
            var (after, answer) := Execute(mid, read, di');
            && echo == write && mid == after == t.(files := ApplyAll(t.files, subs))
            && if 2 + ReplySize(Headers(subs)) <= 253
               then answer == [READ_FILE, ReplySize(Headers(subs))] + RecordsReply(mid.files, Headers(subs))
                    && (answer == [READ_FILE, ReplySize(Headers(subs))] + DataReply(subs) <==> AllCompatible(subs))
               else answer == Exception(READ_FILE, ILLEGAL_VALUE)
  {
    hide Encode, ApplyAll, Header.Fault, WriteRecords, RecordsReply, DataReply, ReadRecords, ReadBody, Execute;
    hide AllCompatible, ReplySize, WriteFileListRequest, ReadFileListRequest, Headers, Exception;
    EncodedSize(subs);
    HeadersGood(subs);
    FileListWritten(t, subs, di);
    var mid := t.(files := ApplyAll(t.files, subs));
    FileListRead(mid, Headers(subs), di');
    if 2 + ReplySize(Headers(subs)) <= 253 {
      WriteThenReadRecords(t.files, subs);
      SameBehindHead([READ_FILE, ReplySize(Headers(subs))], RecordsReply(mid.files, Headers(subs)), DataReply(subs));
    }
  }

  lemma {:induction false} HeadersGood(subs: seq<Sub>)
    requires AllGood(subs)
    ensures NoFaults(Headers(subs))
  {
    hide Header.Fault;
    forall i | 0 <= i < |subs|
      ensures Headers(subs)[i].Fault() == None
    {
      assert subs[i].Good();
    }
  }

  lemma SameBehindHead(head: seq<byte>, a: seq<byte>, b: seq<byte>)
    ensures head + a == head + b <==> a == b
  {
    if head + a == head + b {
      assert (head + a)[|head|..] == a && (head + b)[|head|..] == b;
    }
  }

  // ------------------------------------------------------------ the write hook

  /** The tables and the outputs are as the default hook leaves them. */
  predicate Synchronised(t: Tables, di: byte)
    requires t.Valid()
  {
    && t.outputs == OutputsOf(t)
    && t.discrete[..DI_COUNT] == UnpackBits([di], DI_COUNT)
    && t.input[..AI_COUNT] == t.holding[AI_CACHE..AI_CACHE + AI_COUNT]
  }

  /** The hook synchronises, whatever it finds. */
  lemma SyncSynchronises(di: byte)
    ensures forall t: Tables | t.Valid() :: Synchronised(Sync(t, di), di)
  {
    hide UnpackBits;
    forall t: Tables | t.Valid()
      ensures Synchronised(Sync(t, di), di)
    {
      var u := RefreshDiscrete(t.(outputs := OutputsOf(t)), di);
      assert u.discrete[0..0 + DI_COUNT] == UnpackBits([di], DI_COUNT);
      assert Sync(t, di).input[0..0 + AI_COUNT] == t.holding[AI_CACHE..AI_CACHE + AI_COUNT];
    }
  }

  /** A reply that is no exception comes with synchronised tables. */
  predicate HookCalled(r: (Tables, seq<byte>), di: byte) {
    r.0.Valid() && |r.1| > 0 && (r.1[0] < 128 ==> Synchronised(r.0, di))
  }

  lemma CoilHook(t: Tables, req: seq<byte>, di: byte)
    requires t.Valid() && |req| >= 1
    ensures HookCalled(WriteCoil(t, req, di), di) && HookCalled(WriteCoils(t, req, di), di)
  {
    hide Sync, Synchronised, UnpackBits, OutputsOf, Splice, Be16, PackBits;
    SyncSynchronises(di);
  }

  lemma RegisterHook(t: Tables, req: seq<byte>, di: byte)
    requires t.Valid() && |req| >= 1
    ensures HookCalled(WriteRegister(t, req, di), di) && HookCalled(WriteRegisters(t, req, di), di)
  {
    hide Sync, Synchronised, BytesWords, OutputsOf, Splice, Be16;
    SyncSynchronises(di);
  }

  lemma CombinedHook(t: Tables, req: seq<byte>, di: byte)
    requires t.Valid() && |req| >= 1
    ensures HookCalled(MaskWrite(t, req, di), di) && HookCalled(ReadWrite(t, req, di), di)
  {
    hide Sync, Synchronised, BytesWords, WordBytes, Masked, OutputsOf, Splice, Be16;
    SyncSynchronises(di);
  }

  /** Every write request that goes through calls the write hook, except FC 0x15, which never does, whatever it
      stores. */
  lemma WhoCallsTheHook(t: Tables, req: seq<byte>, di: byte)
    requires t.Valid() && |req| >= 1 && Broadcastable(req[0])
    ensures var (u, pdu) := Execute(t, req, di);
            && |pdu| > 0
            && (req[0] != WRITE_FILE && pdu[0] < 128 ==> Synchronised(u, di))
            && (req[0] == WRITE_FILE ==> u == t.(files := u.files))
  {
    hide WriteRecords, Synchronised, WriteCoil, WriteCoils, WriteRegister, WriteRegisters, MaskWrite, ReadWrite;
    CoilHook(t, req, di);
    RegisterHook(t, req, di);
    CombinedHook(t, req, di);
  }

  /** With the board's first input on and its mirror off, FC 0x15 leaves the mirror off; the hook would set it. */
  lemma HookNotCalled(t: Tables, req: seq<byte>)
    requires t.Valid() && |req| >= 1 && req[0] == WRITE_FILE && !t.discrete[0]
    ensures !Synchronised(Execute(t, req, 1).0, 1)
  {
    hide WriteRecords;
    WhoCallsTheHook(t, req, 1);
    var u := Execute(t, req, 1).0;
    assert u.discrete[..DI_COUNT][0] == false;
    assert UnpackBits([1], DI_COUNT)[0] == true;
  }
}
