/** Who may read and write the object dictionary, down to the bytes of every SDO answer. */
module CanAccess {
  import opened Bytes
  import opened ObjectDictionary
  import opened Sdo

  // ------------------------------------------------------------ the dictionary

  /** The entry is the first one with the index. */
  predicate FirstWith(od: Od, e: nat, index: word) {
    e < |od| && od[e].index == index && forall k | 0 <= k < e :: od[k].index != index
  }

  /** Lookup finds the variable of the first entry with the index; else the code says what is missing. */
  lemma LookupMeans(od: Od, index: word, sub: byte)
    ensures var l := Locate(od, index, sub);
            && (l.Found? ==> l.sub == sub && FirstWith(od, l.entry, index))
            && (forall e: nat | FirstWith(od, e, index) ::
                  if sub >= |od[e].subs| then l == Missing(0x06090011)
                  else if od[e].subs[sub].memory.None? then l == Missing(0x06020000)
                  else l == Found(e, sub))
            && ((forall k | 0 <= k < |od| :: od[k].index != index) ==> l == Missing(0x06020000))
  {
    var r := FindFrom(od, 0, index);
    hide FindFrom;
    forall e: nat | FirstWith(od, e, index)
      ensures r == Some(e)
    {
      if r.Some? {
        assert od[r.value].index == index && od[e].index == index;
      }
    }
  }

  /** A write succeeds if and only if the variable is found, has access bit 1 and exactly the size of the data; the
      first of the three that fails decides the code. */
  lemma WriteVerdict(od: Od, index: word, sub: byte, data: seq<byte>)
    ensures var (code, after) := Write(od, index, sub, data);
            match Locate(od, index, sub)
            case Missing(missing) => code == missing && after == od
            case Found(e, s) =>
              var size := |ObjectAt(od, e, s)|;
              && (!Bit(AccessAt(od, e, s), 1) ==> code == 0x06010002 && after == od)
              && (Bit(AccessAt(od, e, s), 1) && |data| > size ==> code == 0x06070012 && after == od)
              && (Bit(AccessAt(od, e, s), 1) && |data| < size ==> code == 0x06070013 && after == od)
              && (Bit(AccessAt(od, e, s), 1) && |data| == size ==>
                    code == 0 && HasObject(after, e, s) && ObjectAt(after, e, s) == data)
  {
    hide Locate, Bit;
  }

  /** A read needs access bit 2, or the access "constant"; it gives what fits and the whole size. */
  lemma ReadVerdict(od: Od, index: word, sub: byte, max: nat)
    ensures var (code, data, size) := Read(od, index, sub, max);
            match Locate(od, index, sub)
            case Missing(missing) => code == missing && data == []
            case Found(e, s) =>
              var access, held := AccessAt(od, e, s), ObjectAt(od, e, s);
              if Bit(access, 2) || access == 0x01
              then code == 0 && data == held[..Min(max, |held|)] && size == |held|
              else code == 0x06010001 && data == []
  {
    hide Locate, Bit;
  }

  /** Every variable without access bit 1 keeps its memory. */
  ghost predicate KeepsReadOnly(a: Od, b: Od) {
    && SameShape(a, b)
    && forall e, s | HasObject(a, e, s) && !Bit(AccessAt(a, e, s), 1) :: ObjectAt(b, e, s) == ObjectAt(a, e, s)
  }

  lemma NothingLost(od: Od)
    ensures KeepsReadOnly(od, od)
  {
    hide Bit;
  }

  lemma StoreKeepsReadOnly(od: Od, e: nat, s: nat, data: seq<byte>)
    requires HasObject(od, e, s) && |data| == |ObjectAt(od, e, s)| && Bit(AccessAt(od, e, s), 1)
    ensures KeepsReadOnly(od, Store(od, e, s, data))
  {
    hide Store, Bit;
    StoreShape(od, e, s, data);
  }

  /** No write alters a variable without access bit 1, in any dictionary. */
  lemma WriteKeepsReadOnly(od: Od, index: word, sub: byte, data: seq<byte>)
    ensures KeepsReadOnly(od, Write(od, index, sub, data).1)
  {
    hide Store, Bit, Locate, KeepsReadOnly;
    NothingLost(od);
    var l := Locate(od, index, sub);
    if l.Found? && Bit(AccessAt(od, l.entry, l.sub), 1) && |data| == |ObjectAt(od, l.entry, l.sub)| {
      StoreKeepsReadOnly(od, l.entry, l.sub, data);
    }
  }

  /** Nor does any SDO frame. */
  lemma ReceiveKeepsReadOnly(od: Od, v: Server, data: seq<byte>)
    requires ServerOk(od, v)
    ensures KeepsReadOnly(od, Receive(od, v, data).od)
  {
    hide Write, Bit, Locate, KeepsReadOnly, ByteOf, Padded;
    NothingLost(od);
    if |data| == 8 {
      WriteKeepsReadOnly(od, IndexOf(data), data[3], data[4..4 + DownloadSize(data)]);
    }
  }

  lemma {:induction false} KeptThroughout(a: Od, b: Od, c: Od)
    requires KeepsReadOnly(a, b) && KeepsReadOnly(b, c)
    ensures KeepsReadOnly(a, c)
  {
    hide Bit;
    forall e, s | HasObject(a, e, s) && !Bit(AccessAt(a, e, s), 1)
      ensures ObjectAt(c, e, s) == ObjectAt(a, e, s)
    {
      assert HasObject(b, e, s) && AccessAt(b, e, s) == AccessAt(a, e, s);
      assert ObjectAt(b, e, s) == ObjectAt(a, e, s);
    }
  }

  // ------------------------------------------------------------ the answers, byte by byte

  /** The abort frame with the object of the request and this code, least significant byte first. */
  function AbortOf(data: seq<byte>, code: seq<byte>): seq<byte>
    requires |data| == 8
  {
    [0x80, data[1], data[2], data[3]] + code
  }

  lemma AbortBytes(index: word, sub: byte)
    ensures Abort(index, sub, 0x05030000)[4..] == [0x00, 0x00, 0x03, 0x05]
    ensures Abort(index, sub, 0x05040001)[4..] == [0x01, 0x00, 0x04, 0x05]
    ensures Abort(index, sub, 0x06010000)[4..] == [0x00, 0x00, 0x01, 0x06]
    ensures Abort(index, sub, 0x06010001)[4..] == [0x01, 0x00, 0x01, 0x06]
    ensures Abort(index, sub, 0x06010002)[4..] == [0x02, 0x00, 0x01, 0x06]
    ensures Abort(index, sub, 0x06020000)[4..] == [0x00, 0x00, 0x02, 0x06]
    ensures Abort(index, sub, 0x06070012)[4..] == [0x12, 0x00, 0x07, 0x06]
    ensures Abort(index, sub, 0x06070013)[4..] == [0x13, 0x00, 0x07, 0x06]
    ensures Abort(index, sub, 0x06090011)[4..] == [0x11, 0x00, 0x09, 0x06]
    ensures Abort(index, sub, 0x08000000)[4..] == [0x00, 0x00, 0x00, 0x08]
  {
  }

  lemma AbortHead(data: seq<byte>, code: nat)
    requires |data| == 8
    ensures Abort(IndexOf(data), data[3], code) == AbortOf(data, Abort(IndexOf(data), data[3], code)[4..])
    ensures IndexOf(data) == 256 * (data[2] as int) + data[1]
  {
    hide ByteOf;
  }

  /** The object the request names: index low byte first, then the subindex. */
  function Named(od: Od, data: seq<byte>): Lookup
    requires |data| == 8
  {
    Locate(od, 256 * (data[2] as int) + data[1], data[3])
  }

  /** The number of data bytes of an expedited download. */
  function Carried(data: seq<byte>): (n: nat)
    requires |data| == 8
    ensures 1 <= n <= 4
  {
    if data[0] % 2 == 1 then 4 - data[0] / 4 % 4 else 4
  }

  lemma LowBits(b: byte)
    ensures Bit(b, 0) <==> b % 2 == 1
    ensures Bit(b, 1) <==> b / 2 % 2 == 1
  {
  }

  /** Every download (0x20 to 0x3F): confirmed exactly when it is expedited, the object is there, may be written and has
      the size sent, and then the object holds the data; else aborted with the code of the first of these that fails,
      and nothing changes. */
  lemma DownloadAnswer(od: Od, v: Server, data: seq<byte>)
    requires ServerOk(od, v) && |data| == 8 && 0x20 <= data[0] < 0x40
    ensures var t := Receive(od, v, data);
            var sent := data[4..4 + Carried(data)];
            && t.taken && t.server == v
            && if data[0] / 2 % 2 == 0 then t.od == od && t.answer == Some(AbortOf(data, [0x00, 0x00, 0x01, 0x06]))
               else
                 match Named(od, data)
                 case Missing(code) =>
                   t.od == od && t.answer == Some(AbortOf(data, if code == 0x06090011 then [0x11, 0x00, 0x09, 0x06]
                                                                else [0x00, 0x00, 0x02, 0x06]))
                 case Found(e, s) =>
                   var size := |ObjectAt(od, e, s)|;
                   if !Bit(AccessAt(od, e, s), 1)
                   then t.od == od && t.answer == Some(AbortOf(data, [0x02, 0x00, 0x01, 0x06]))
                   else if |sent| > size
                   then t.od == od && t.answer == Some(AbortOf(data, [0x12, 0x00, 0x07, 0x06]))
                   else if |sent| < size
                   then t.od == od && t.answer == Some(AbortOf(data, [0x13, 0x00, 0x07, 0x06]))
                   else
                     && t.answer == Some([0x60, data[1], data[2], data[3], 0, 0, 0, 0])
                     && HasObject(t.od, e, s) && ObjectAt(t.od, e, s) == sent
  {
    hide Locate, Bit, ByteOf, Abort, Write, AbortOf;
    LowBits(data[0]);
    assert Command(data) == 1;
    WriteVerdict(od, IndexOf(data), data[3], data[4..4 + Carried(data)]);
    MissingCodes(od, IndexOf(data), data[3]);
    AbortBytes(IndexOf(data), data[3]);
    AbortHead(data, UNSUPPORTED_ACCESS);
    AbortHead(data, Write(od, IndexOf(data), data[3], data[4..4 + Carried(data)]).0);
  }

  lemma MissingCodes(od: Od, index: word, sub: byte)
    ensures var l := Locate(od, index, sub); l.Missing? ==> l.code == 0x06020000 || l.code == 0x06090011
  {
    hide Locate;
  }

  /** Every upload request (0x40 to 0x5F): answered with the object when it is there and has access bit 0 or 2,
      expedited up to four bytes, else with its size and the upload begun; aborted otherwise. */
  lemma UploadAnswer(od: Od, v: Server, data: seq<byte>)
    requires ServerOk(od, v) && |data| == 8 && 0x40 <= data[0] < 0x60
    ensures var t := Receive(od, v, data);
            && t.taken && t.od == od
            && match Named(od, data)
               case Missing(code) =>
                 t.server == v && t.answer == Some(AbortOf(data, if code == 0x06090011 then [0x11, 0x00, 0x09, 0x06]
                                                                 else [0x00, 0x00, 0x02, 0x06]))
               case Found(e, s) =>
                 var access, held := AccessAt(od, e, s), ObjectAt(od, e, s);
                 if !Bit(access, 0) && !Bit(access, 2)
                 then t.server == v && t.answer == Some(AbortOf(data, [0x01, 0x00, 0x01, 0x06]))
                 else if |held| <= 4 then
                   && t.server == v && t.answer.Some?
                   && t.answer.value[..4] == [0x53 - 4 * |held|, data[1], data[2], data[3]]
                   && t.answer.value[4..4 + |held|] == held
                   && forall k | 4 + |held| <= k < 8 :: t.answer.value[k] == 0
                 else
                   && t.server == Server(true, 256 * (data[2] as int) + data[1], data[3], e, s, |held|, 0, 0)
                   && t.answer.Some? && t.answer.value[..4] == [0x41, data[1], data[2], data[3]]
                   && (|held| < 0x1_0000_0000 ==>
                         |held| == t.answer.value[4] as int + 0x100 * (t.answer.value[5] as int)
                                   + 0x10000 * (t.answer.value[6] as int) + 0x1000000 * (t.answer.value[7] as int))
  {
    hide Locate, Bit, ByteOf, Abort, AbortOf;
    assert Command(data) == 2;
    MissingCodes(od, IndexOf(data), data[3]);
    AbortBytes(IndexOf(data), data[3]);
    AbortHead(data, READ_NOT_ALLOWED);
    var l := Locate(od, IndexOf(data), data[3]);
    if l.Found? {
      if |ObjectAt(od, l.entry, l.sub)| < 0x1_0000_0000 {
        ByteParts(|ObjectAt(od, l.entry, l.sub)|);
      }
    } else {
      AbortHead(data, l.code);
    }
  }

  /** Every segment request (0x60 to 0x7F) without an upload, or with the wrong toggle bit, is aborted, the latter ends
      the upload; `Sdo.RestOfUpload` has the others. */
  lemma SegmentRefused(od: Od, v: Server, data: seq<byte>)
    requires ServerOk(od, v) && |data| == 8 && 0x60 <= data[0] < 0x80
    requires v.active ==> data[0] / 16 % 2 != v.toggle
    ensures var t := Receive(od, v, data);
            && t.taken && t.od == od && !t.server.active
            && t.answer == Some(if v.active then [0x80, Lo(v.index), Hi(v.index), v.sub, 0x00, 0x00, 0x03, 0x05]
                                else [0x80, 0, 0, 0, 0x00, 0x00, 0x00, 0x08])
  {
    assert Command(data) == 3;
  }

  /** The client's abort ends an upload without an answer, every other command is aborted as unknown, and
      a frame that is not eight bytes long is ignored. */
  lemma OtherFrames(od: Od, v: Server, data: seq<byte>)
    requires ServerOk(od, v)
    ensures var t := Receive(od, v, data);
            && (|data| != 8 ==> t == Turn(od, v, false, None))
            && (|data| == 8 && data[0] == 0x80 ==> t == Turn(od, v.(active := false), true, None))
            && (|data| == 8 && (data[0] < 0x20 || data[0] > 0x80) ==>
                  t == Turn(od, v, true, Some([0x80, 0, 0, 0, 0x01, 0x00, 0x04, 0x05])))
  {
    hide Locate, Write;
  }
}
