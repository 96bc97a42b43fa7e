/** canopen_sdo.c: the SDO server, expedited both ways and segmented on upload. */
module Sdo {
  import opened Bytes
  import opened ObjectDictionary

  const TOGGLE_NOT_ALTERNATED: nat := 0x05030000
  const UNKNOWN_COMMAND: nat := 0x05040001
  const UNSUPPORTED_ACCESS: nat := 0x06010000
  const GENERAL_ERROR: nat := 0x08000000

  /** The segmented upload in progress: which variable, how much of it, and the toggle bit expected next. */
  datatype Server = Server(
    active: bool,
    index: word,
    sub: byte,
    entry: nat,
    slot: nat,
    total: nat,
    offset: nat,
    toggle: nat)

  const START: Server := Server(false, 0, 0, 0, 0, 0, 0, 0)

  ghost predicate ServerOk(od: Od, v: Server) {
    && v.toggle <= 1
    && (v.active ==> HasObject(od, v.entry, v.slot) && v.total == |ObjectAt(od, v.entry, v.slot)|
                     && v.offset < v.total && v.total > 4)
  }

  /** What one received frame comes to: the dictionary, the server, whether it was taken, the answer. */
  datatype Turn = Turn(od: Od, server: Server, taken: bool, answer: Option<seq<byte>>)

  /** The low byte of n shifted right by 8*k bits. */
  function ByteOf(n: nat, k: nat): byte
    requires k < 4
  {
    n / [1, 0x100, 0x10000, 0x1000000][k] % 256
  }

  function Abort(index: word, sub: byte, code: nat): (data: seq<byte>)
    ensures |data| == 8
  {
    [0x80, Lo(index), Hi(index), sub, ByteOf(code, 0), ByteOf(code, 1), ByteOf(code, 2), ByteOf(code, 3)]
  }

  function Padded(bs: seq<byte>, n: nat): (data: seq<byte>)
    requires |bs| <= n
    ensures |data| == n && data[..|bs|] == bs
  {
    bs + seq(n - |bs|, i => 0)
  }

  function Command(data: seq<byte>): nat
    requires |data| == 8
  {
    data[0] / 32
  }

  function IndexOf(data: seq<byte>): word
    requires |data| == 8
  {
    Be16(data[2], data[1])
  }

  /** The data bytes of an expedited download: 4, less the unused count when the size is indicated. */
  function DownloadSize(data: seq<byte>): (n: nat)
    requires |data| == 8
    ensures 1 <= n <= 4
  {
    if Bit(data[0], 0) then 4 - data[0] / 4 % 4 else 4
  }

  function Download(od: Od, v: Server, data: seq<byte>): Turn
    requires |data| == 8
  {
    if !Bit(data[0], 1) then
      Turn(od, v, true, Some(Abort(IndexOf(data), data[3], UNSUPPORTED_ACCESS)))
    else
      var (code, after) := Write(od, IndexOf(data), data[3], data[4..4 + DownloadSize(data)]);
      Turn(after, v, true,
           Some(if code != SUCCESSFUL then Abort(IndexOf(data), data[3], code)
                else [0x60, data[1], data[2], data[3], 0, 0, 0, 0]))
  }

  /** The upload's access test keeps both bits 0 and 2, so it also lets a write-only variable (0x03) be read. */
  predicate Uploadable(access: byte) {
    Bit(access, 0) || Bit(access, 2)
  }

  function InitiateUpload(od: Od, v: Server, data: seq<byte>): Turn
    requires |data| == 8
  {
    match Locate(od, IndexOf(data), data[3])
    case Missing(code) => Turn(od, v, true, Some(Abort(IndexOf(data), data[3], code)))
    case Found(e, s) =>
      var held := ObjectAt(od, e, s);
      if !Uploadable(AccessAt(od, e, s)) then
        Turn(od, v, true, Some(Abort(IndexOf(data), data[3], READ_NOT_ALLOWED)))
      else if |held| <= 4 then
        Turn(od, v, true,
             Some([0x43 + 4 * (4 - |held|), data[1], data[2], data[3]] + Padded(held, 4)))
      else
        Turn(od, Server(true, IndexOf(data), data[3], e, s, |held|, 0, 0), true,
             Some([0x41, data[1], data[2], data[3],
                   ByteOf(|held|, 0), ByteOf(|held|, 1), ByteOf(|held|, 2), ByteOf(|held|, 3)]))
  }

  function UploadSegment(od: Od, v: Server, data: seq<byte>): Turn
    requires |data| == 8 && ServerOk(od, v)
  {
    if !v.active then Turn(od, v, true, Some(Abort(0, 0, GENERAL_ERROR)))
    else if data[0] / 16 % 2 != v.toggle then
      Turn(od, v.(active := false), true, Some(Abort(v.index, v.sub, TOGGLE_NOT_ALTERNATED)))
    else
      var rem := v.total - v.offset;
      var chunk := if rem <= 7 then rem else 7;
      var last := if rem <= 7 then 1 else 0;
      var head: byte := 16 * v.toggle + 2 * (7 - chunk) + last;
      var held := ObjectAt(od, v.entry, v.slot);
      Turn(od, v.(offset := v.offset + chunk, toggle := 1 - v.toggle, active := rem > 7), true,
           Some([head] + Padded(held[v.offset..v.offset + chunk], 7)))
  }

  /** `canopen_sdo_rx_frame`. */
  function Receive(od: Od, v: Server, data: seq<byte>): (t: Turn)
    requires ServerOk(od, v)
    ensures t.answer.Some? ==> |t.answer.value| == 8
  {
    if |data| != 8 then Turn(od, v, false, None)
    else if data[0] == 0x80 then Turn(od, v.(active := false), true, None)
    else if Command(data) == 1 then Download(od, v, data)
    else if Command(data) == 2 then InitiateUpload(od, v, data)
    else if Command(data) == 3 then UploadSegment(od, v, data)
    else Turn(od, v, true, Some(Abort(0, 0, UNKNOWN_COMMAND)))
  }

  /** The server stays consistent, and no request alters an object of more than four bytes. */
  lemma ReceiveKeepsLong(od: Od, v: Server, data: seq<byte>)
    requires ServerOk(od, v)
    ensures var t := Receive(od, v, data);
            KeepsLong(od, t.od) && ServerOk(t.od, t.server)
  {
    hide Write, FindFrom, ByteOf, Padded;
    if |data| == 8 {
      ShortWriteKeepsLong(od, IndexOf(data), data[3], data[4..4 + DownloadSize(data)]);
    }
    SameDictionary(od);
  }

  lemma SameDictionary(od: Od)
    ensures KeepsLong(od, od)
  {
  }

  // ------------------------------------------------------------ a segmented upload among other traffic

  /** What may happen between two segment requests: any other SDO frame, or memory changed by the rest of the
      node, which never touches a long object. */
  datatype Event = Request(data: seq<byte>) | Outside(od: Od)

  predicate IsSegmentRequest(data: seq<byte>) {
    |data| == 8 && data[0] != 0x80 && Command(data) == 3
  }

  /** A frame that neither asks for a segment nor ends or replaces the upload in progress. */
  predicate Bystander(od: Od, data: seq<byte>) {
    || |data| != 8
    || (data[0] != 0x80 && Command(data) != 3
        && (Command(data) == 2 ==>
              var l := Locate(od, IndexOf(data), data[3]);
              l.Found? ==> |ObjectAt(od, l.entry, l.sub)| <= 4 || !Uploadable(AccessAt(od, l.entry, l.sub))))
  }

  lemma BystanderKeepsUpload(od: Od, v: Server, data: seq<byte>)
    requires ServerOk(od, v) && Bystander(od, data)
    ensures Receive(od, v, data).server == v
  {
    hide Write, FindFrom, ByteOf, Padded;
  }

  /** A segment as a client takes an answer apart: the unused count, the last-segment bit and the data. */
  datatype Segment = Segment(toggle: nat, payload: seq<byte>, last: bool)

  function Decode(answer: seq<byte>): Segment
    requires |answer| == 8
  {
    Segment(answer[0] / 16 % 2, answer[1..8 - answer[0] / 2 % 8], answer[0] % 2 == 1)
  }

  lemma HeadDecodes(toggle: nat, unused: nat, last: nat, bytes: seq<byte>)
    requires toggle <= 1 && unused <= 7 && last <= 1 && |bytes| == 7 - unused
    ensures Decode([16 * toggle + 2 * unused + last] + Padded(bytes, 7)) == Segment(toggle, bytes, last == 1)
  {
    hide Padded;
    var head: byte := 16 * toggle + 2 * unused + last;
    assert head / 16 % 2 == toggle && head / 2 % 8 == unused && head % 2 == last;
    var answer := [head] + Padded(bytes, 7);
    assert answer[1..8 - unused] == Padded(bytes, 7)[..7 - unused];
  }

  lemma OutsideKeepsServer(od: Od, next: Od, v: Server)
    requires ServerOk(od, v) && KeepsLong(od, next)
    ensures ServerOk(next, v)
    ensures v.active ==> ObjectAt(next, v.entry, v.slot) == ObjectAt(od, v.entry, v.slot)
  {
    hide FindFrom;
  }

  /** The run keeps to the protocol: outside changes keep long objects, other frames are bystanders, and each
      segment request carries the toggle bit the server expects while the upload lasts. */
  ghost predicate Legal(od: Od, v: Server, events: seq<Event>)
    requires ServerOk(od, v)
    decreases |events|
  {
    |events| == 0 ||
    match events[0]
    case Outside(next) =>
      KeepsLong(od, next) && (OutsideKeepsServer(od, next, v); Legal(next, v, events[1..]))
    case Request(data) =>
      && (if IsSegmentRequest(data) then v.active && data[0] / 16 % 2 == v.toggle else Bystander(od, data))
      && (ReceiveKeepsLong(od, v, data);
          var t := Receive(od, v, data);
          Legal(t.od, t.server, events[1..]))
  }

  /** The answers to the segment requests of a run, decoded, in order. */
  ghost function Segments(od: Od, v: Server, events: seq<Event>): (segs: seq<Segment>)
    requires ServerOk(od, v) && Legal(od, v, events)
    decreases |events|
  {
    if |events| == 0 then []
    else
      match events[0]
      case Outside(next) =>
        OutsideKeepsServer(od, next, v);
        Segments(next, v, events[1..])
      case Request(data) =>
        ReceiveKeepsLong(od, v, data);
        var t := Receive(od, v, data);
        var rest := Segments(t.od, t.server, events[1..]);
        if IsSegmentRequest(data) then [Decode(t.answer.value)] + rest else rest
  }

  /** The server at the end of a run. */
  ghost function After(od: Od, v: Server, events: seq<Event>): Server
    requires ServerOk(od, v) && Legal(od, v, events)
    decreases |events|
  {
    if |events| == 0 then v
    else
      match events[0]
      case Outside(next) =>
        OutsideKeepsServer(od, next, v);
        After(next, v, events[1..])
      case Request(data) =>
        ReceiveKeepsLong(od, v, data);
        var t := Receive(od, v, data);
        After(t.od, t.server, events[1..])
  }

  function Payloads(segs: seq<Segment>): (bs: seq<byte>) {
    if |segs| == 0 then [] else segs[0].payload + Payloads(segs[1..])
  }

  /** The next segment: at most seven bytes from the offset, marked last exactly when it ends the object. */
  lemma OneSegment(od: Od, v: Server, data: seq<byte>)
    requires ServerOk(od, v) && v.active && IsSegmentRequest(data) && data[0] / 16 % 2 == v.toggle
    ensures var t := Receive(od, v, data);
            var end := Min(v.offset + 7, v.total);
            && t.od == od && t.answer.Some?
            && Decode(t.answer.value)
               == Segment(v.toggle, ObjectAt(od, v.entry, v.slot)[v.offset..end], v.offset + 7 >= v.total)
            && t.server == v.(offset := end, toggle := 1 - v.toggle, active := v.offset + 7 < v.total)
  {
    hide Decode, Padded;
    var rem := v.total - v.offset;
    var chunk := if rem <= 7 then rem else 7;
    var last := if rem <= 7 then 1 else 0;
    HeadDecodes(v.toggle, 7 - chunk, last, ObjectAt(od, v.entry, v.slot)[v.offset..v.offset + chunk]);
  }

  /** Once the upload is over a legal run has no further segments. */
  lemma {:induction false} OverIsOver(od: Od, v: Server, events: seq<Event>)
    requires ServerOk(od, v) && !v.active && Legal(od, v, events)
    ensures Segments(od, v, events) == [] && !After(od, v, events).active
    decreases |events|
  {
    hide Receive, FindFrom, Bystander, KeepsLong;
    if |events| > 0 {
      match events[0]
      case Outside(next) =>
        OutsideKeepsServer(od, next, v);
        OverIsOver(next, v, events[1..]);
      case Request(data) =>
        ReceiveKeepsLong(od, v, data);
        BystanderKeepsUpload(od, v, data);
        OverIsOver(Receive(od, v, data).od, v, events[1..]);
    }
  }

  /** From any point of an upload on: the segments of the rest of the run are the rest of the object as it
      stood, seven bytes at a time with alternating toggle bits, and the one that ends the object says so. */
  lemma {:induction false} RestOfUpload(od: Od, v: Server, events: seq<Event>)
    requires ServerOk(od, v) && v.active && Legal(od, v, events)
    ensures var segs := Segments(od, v, events);
            var held := ObjectAt(od, v.entry, v.slot);
            && Payloads(segs) == held[v.offset..Min(v.offset + 7 * |segs|, v.total)]
            && (After(od, v, events).active <==> v.offset + 7 * |segs| < v.total)
            && (|segs| > 0 ==> v.offset + 7 * (|segs| - 1) < v.total)
            && forall k | 0 <= k < |segs| ::
                 segs[k].toggle == (v.toggle + k) % 2 && (segs[k].last <==> v.offset + 7 * (k + 1) >= v.total)
    decreases |events|
  {
    hide Receive, FindFrom, Bystander, KeepsLong, Decode, IsSegmentRequest;
    if |events| > 0 {
      match events[0]
      case Outside(next) =>
        OutsideKeepsServer(od, next, v);
        RestOfUpload(next, v, events[1..]);
      case Request(data) =>
        ReceiveKeepsLong(od, v, data);
        if IsSegmentRequest(data) {
          OneSegment(od, v, data);
          SegmentThenRest(od, v, events);
        } else {
          BystanderKeepsUpload(od, v, data);
          var t := Receive(od, v, data);
          OutsideKeepsServer(od, t.od, v);
          RestOfUpload(t.od, v, events[1..]);
        }
    }
  }

  lemma {:induction false} SegmentThenRest(od: Od, v: Server, events: seq<Event>)
    requires ServerOk(od, v) && v.active && Legal(od, v, events)
    requires |events| > 0 && events[0].Request? && IsSegmentRequest(events[0].data)
    ensures var segs := Segments(od, v, events);
            var held := ObjectAt(od, v.entry, v.slot);
            && Payloads(segs) == held[v.offset..Min(v.offset + 7 * |segs|, v.total)]
            && (After(od, v, events).active <==> v.offset + 7 * |segs| < v.total)
            && (|segs| > 0 ==> v.offset + 7 * (|segs| - 1) < v.total)
            && forall k | 0 <= k < |segs| ::
                 segs[k].toggle == (v.toggle + k) % 2 && (segs[k].last <==> v.offset + 7 * (k + 1) >= v.total)
    decreases |events|, 0
  {
    hide Receive, FindFrom, Bystander, KeepsLong, Decode, IsSegmentRequest;
    var data := events[0].data;
    ReceiveKeepsLong(od, v, data);
    OneSegment(od, v, data);
    var t := Receive(od, v, data);
    var held := ObjectAt(od, v.entry, v.slot);
    var end := Min(v.offset + 7, v.total);
    var rest := Segments(t.od, t.server, events[1..]);
    var segs := Segments(od, v, events);
    assert segs == [Decode(t.answer.value)] + rest;
    assert segs[1..] == rest;
    if t.server.active {
      RestOfUpload(t.od, t.server, events[1..]);
      var stop := Min(end + 7 * |rest|, v.total);
      assert held[v.offset..end] + held[end..stop] == held[v.offset..stop];
    } else {
      OverIsOver(t.od, t.server, events[1..]);
      assert Payloads(segs) == held[v.offset..end] + [];
    }
    forall k | 0 <= k < |segs|
      ensures segs[k].toggle == (v.toggle + k) % 2 && (segs[k].last <==> v.offset + 7 * (k + 1) >= v.total)
    {
      if k > 0 {
        assert segs[k] == rest[k - 1];
      }
    }
  }

  /** A request that starts a segmented upload. */
  predicate StartsLongUpload(od: Od, data: seq<byte>) {
    && |data| == 8 && data[0] != 0x80 && Command(data) == 2
    && var l := Locate(od, IndexOf(data), data[3]);
       l.Found? && Uploadable(AccessAt(od, l.entry, l.sub)) && |ObjectAt(od, l.entry, l.sub)| > 4
  }

  function Value32(a: byte, b: byte, c: byte, d: byte): nat {
    a + 0x100 * b + 0x10000 * c + 0x1000000 * d
  }

  lemma ByteParts(n: nat)
    requires n < 0x1_0000_0000
    ensures Value32(ByteOf(n, 0), ByteOf(n, 1), ByteOf(n, 2), ByteOf(n, 3)) == n
  {
    var a, b, c := n / 0x100, n / 0x10000, n / 0x1000000;
    assert n == 0x100 * a + n % 0x100;
    assert a / 0x100 == b && a == 0x100 * b + a % 0x100;
    assert b / 0x100 == c && b == 0x100 * c + b % 0x100;
    assert c < 0x100;
  }

  lemma StartOfUpload(od: Od, v: Server, data: seq<byte>)
    requires ObjectDictionary.Valid(od) && ServerOk(od, v) && StartsLongUpload(od, data)
    ensures var t := Receive(od, v, data);
            var l := Locate(od, IndexOf(data), data[3]);
            var held := ObjectAt(od, l.entry, l.sub);
            && t.od == od && ServerOk(od, t.server) && t.answer.Some?
            && t.server.active && t.server.offset == 0 && t.server.toggle == 0
            && t.server.entry == l.entry && t.server.slot == l.sub
            && t.answer.value[0] == 0x41 && t.answer.value[1..4] == data[1..4]
            && Value32(t.answer.value[4], t.answer.value[5], t.answer.value[6], t.answer.value[7]) == |held|
  {
    hide FindFrom, ByteOf, Uploadable;
    var l := Locate(od, IndexOf(data), data[3]);
    ByteParts(|ObjectAt(od, l.entry, l.sub)|);
  }

  /** A segmented upload returns the object as it stood when it began, whatever else goes on: the segments put
      together are the object, there are exactly ceil(size/7) of them once the upload is over, toggle bits
      alternate from 0 and only the last segment is marked last. */
  lemma UploadReturnsObject(od: Od, v: Server, data: seq<byte>, events: seq<Event>)
    requires ObjectDictionary.Valid(od) && ServerOk(od, v) && StartsLongUpload(od, data)
    requires ServerOk(Receive(od, v, data).od, Receive(od, v, data).server)
    requires Legal(Receive(od, v, data).od, Receive(od, v, data).server, events)
    ensures var t := Receive(od, v, data);
            var l := Locate(od, IndexOf(data), data[3]);
            var held := ObjectAt(od, l.entry, l.sub);
            var segs := Segments(t.od, t.server, events);
            && Payloads(segs) == held[..Min(7 * |segs|, |held|)]
            && (!After(t.od, t.server, events).active <==> |segs| == (|held| + 6) / 7)
            && (!After(t.od, t.server, events).active ==> Payloads(segs) == held)
            && forall k | 0 <= k < |segs| ::
                 segs[k].toggle == k % 2 && (segs[k].last <==> k == (|held| + 6) / 7 - 1)
  {
    hide Receive, FindFrom, KeepsLong, Legal, Segments, After, Uploadable;
    StartOfUpload(od, v, data);
    var t := Receive(od, v, data);
    RestOfUpload(t.od, t.server, events);
    var held := ObjectAt(od, t.server.entry, t.server.slot);
    assert held[..|held|] == held;
    CeilSevenths(|held|);
  }

  lemma CeilSevenths(n: nat)
    requires n > 0
    ensures 7 * ((n + 6) / 7 - 1) < n <= 7 * ((n + 6) / 7)
  {
  }

  /** A segment request with the wrong toggle bit is refused and ends the upload. */
  lemma WrongToggleEnds(od: Od, v: Server, data: seq<byte>)
    requires ServerOk(od, v) && v.active && IsSegmentRequest(data) && data[0] / 16 % 2 != v.toggle
    ensures var t := Receive(od, v, data);
            !t.server.active && t.od == od && t.answer == Some(Abort(v.index, v.sub, TOGGLE_NOT_ALTERNATED))
  {
  }

  /** What an expedited download stores is what the expedited upload of the same variable returns. */
  lemma DownloadThenUpload(od: Od, v: Server, down: seq<byte>, up: seq<byte>)
    requires ServerOk(od, v) && |down| == 8 && |up| == 8
    requires Command(down) == 1 && Bit(down[0], 1) && up[0] == 0x40 && up[1..4] == down[1..4]
    requires Write(od, IndexOf(down), down[3], down[4..4 + DownloadSize(down)]).0 == SUCCESSFUL
    requires var l := Locate(od, IndexOf(down), down[3]); Uploadable(AccessAt(od, l.entry, l.sub))
    ensures var mid := Receive(od, v, down);
            ServerOk(mid.od, mid.server)
            && mid.answer == Some([0x60] + down[1..4] + [0, 0, 0, 0])
            && Receive(mid.od, mid.server, up).answer
               == Some([0x43 + 4 * (4 - DownloadSize(down))] + down[1..4] + Padded(down[4..4 + DownloadSize(down)], 4))
  {
    hide FindFrom, Uploadable, Padded, KeepsLong, Store, Writable;
    ReceiveKeepsLong(od, v, down);
    var bytes := down[4..4 + DownloadSize(down)];
    var l := Locate(od, IndexOf(down), down[3]);
    StoreShape(od, l.entry, l.sub, bytes);
    ShapeDecidesLookup(od, Store(od, l.entry, l.sub, bytes), IndexOf(down), down[3]);
    assert down[1..4] == [down[1], down[2], down[3]];
    assert [0x60] + down[1..4] + [0, 0, 0, 0] == [0x60, down[1], down[2], down[3], 0, 0, 0, 0];
    var head: byte := 0x43 + 4 * (4 - DownloadSize(down));
    assert [head] + down[1..4] == [head, down[1], down[2], down[3]];
    assert up[1] == up[1..4][0] == down[1] && up[2] == up[1..4][1] == down[2] && up[3] == up[1..4][2] == down[3];
  }

  /** The SDO upload refuses no variable that `canopen_od_read` allows, but lets through the ones whose access has
      bit 0 without bit 2 and is not "constant", write-only (0x03) among them. */
  lemma UploadVersusRead(od: Od, v: Server, data: seq<byte>, max: nat)
    requires ServerOk(od, v) && |data| == 8 && Command(data) == 2
    requires Locate(od, IndexOf(data), data[3]).Found?
    ensures var l := Locate(od, IndexOf(data), data[3]);
            var access := AccessAt(od, l.entry, l.sub);
            var uploads := Receive(od, v, data).answer != Some(Abort(IndexOf(data), data[3], READ_NOT_ALLOWED));
            var readable := Read(od, IndexOf(data), data[3], max).0 == SUCCESSFUL;
            && (readable ==> uploads)
            && (uploads && !readable <==> Bit(access, 0) && !Bit(access, 2) && access != CONSTANT)
  {
    hide Locate, ByteOf, Padded, Write, Bit;
    BitZeroOfConstant();
    var l := Locate(od, IndexOf(data), data[3]);
    if Uploadable(AccessAt(od, l.entry, l.sub)) {
      assert Receive(od, v, data).answer.value[0] != 0x80;
    }
  }

  lemma BitZeroOfConstant()
    ensures Bit(CONSTANT, 0) && Bit(WRITE_ONLY, 0) && !Bit(WRITE_ONLY, 2)
  {
  }

  /** A dictionary with one write-only byte. */
  const WRITE_ONLY_BYTE: Od := [Entry(0x2000, [Sub(WRITE_ONLY, Some([7]))])]

  /** The byte cannot be read with `canopen_od_read`, and yet an SDO upload hands it out. */
  lemma WriteOnlyHandedOut()
    ensures Read(WRITE_ONLY_BYTE, 0x2000, 0, 4).0 == READ_NOT_ALLOWED
    ensures Receive(WRITE_ONLY_BYTE, START, [0x40, 0x00, 0x20, 0, 0, 0, 0, 0]).answer
            == Some([0x4F, 0x00, 0x20, 0, 7, 0, 0, 0])
  {
    var data: seq<byte> := [0x40, 0x00, 0x20, 0, 0, 0, 0, 0];
    BitZeroOfConstant();
    assert FindFrom(WRITE_ONLY_BYTE, 0, 0x2000) == Some(0);
    assert Locate(WRITE_ONLY_BYTE, 0x2000, 0) == Found(0, 0);
    assert IndexOf(data) == 0x2000 && Command(data) == 2;
    hide Bit, Locate;
    assert [0x4F, 0x00, 0x20, 0] + Padded([7], 4) == [0x4F, 0x00, 0x20, 0, 7, 0, 0, 0];
  }
}
