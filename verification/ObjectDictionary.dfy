/** canopen_od.c: the object dictionary, its lookup, and the default dictionary of the board. */
module ObjectDictionary {
  import opened Bytes

  const READ_WRITE: byte := 0x07
  const READ_ONLY: byte := 0x05
  const WRITE_ONLY: byte := 0x03
  const CONSTANT: byte := 0x01

  const SUCCESSFUL: nat := 0
  const READ_NOT_ALLOWED: nat := 0x06010001
  const WRITE_NOT_ALLOWED: nat := 0x06010002
  const NO_SUCH_OBJECT: nat := 0x06020000
  const LENGTH_TOO_HIGH: nat := 0x06070012
  const LENGTH_TOO_SHORT: nat := 0x06070013
  const NO_SUCH_SUBINDEX: nat := 0x06090011

  /** A variable: its access bits and its memory, None for a null pointer. */
  datatype Sub = Sub(access: byte, memory: Option<seq<byte>>)

  datatype Entry = Entry(index: word, subs: seq<Sub>)

  type Od = seq<Entry>

  /** Every object takes at least one byte and its size fits 32 bits; subindices are single bytes. */
  ghost predicate Valid(od: Od) {
    forall e | 0 <= e < |od| ::
      |od[e].subs| <= 255
      && forall s | 0 <= s < |od[e].subs| ::
           od[e].subs[s].memory.Some? ==> 1 <= |od[e].subs[s].memory.value| < 0x1_0000_0000
  }

  // ------------------------------------------------------------ lookup

  /** The position of the first entry at or after `from` that has the index. */
  function FindFrom(od: Od, from: nat, index: word): (r: Option<nat>)
    requires from <= |od|
    ensures r.Some? ==> from <= r.value < |od| && od[r.value].index == index
                        && forall k | from <= k < r.value :: od[k].index != index
    ensures r.None? ==> forall k | from <= k < |od| :: od[k].index != index
    decreases |od| - from
  {
    if from == |od| then None
    else if od[from].index == index then Some(from)
    else FindFrom(od, from + 1, index)
  }

  function FindIndex(od: Od, index: word): (r: Option<nat>)
    ensures r.Some? ==> r.value < |od| && od[r.value].index == index
  {
    FindFrom(od, 0, index)
  }

  /** A variable found by index and subindex, or the abort code of the failed lookup. */
  datatype Lookup = Found(entry: nat, sub: nat) | Missing(code: nat)

  function Locate(od: Od, index: word, sub: byte): (r: Lookup)
    ensures r.Found? ==> HasObject(od, r.entry, r.sub)
    ensures r.Missing? ==> r.code == NO_SUCH_OBJECT || r.code == NO_SUCH_SUBINDEX
  {
    var e := FindIndex(od, index);
    if e.None? then Missing(NO_SUCH_OBJECT)
    else if sub >= |od[e.value].subs| then Missing(NO_SUCH_SUBINDEX)
    else if od[e.value].subs[sub].memory.None? then Missing(NO_SUCH_OBJECT)
    else Found(e.value, sub)
  }

  predicate HasObject(od: Od, e: nat, s: nat) {
    e < |od| && s < |od[e].subs| && od[e].subs[s].memory.Some?
  }

  function ObjectAt(od: Od, e: nat, s: nat): seq<byte>
    requires HasObject(od, e, s)
  {
    od[e].subs[s].memory.value
  }

  function AccessAt(od: Od, e: nat, s: nat): byte
    requires HasObject(od, e, s)
  {
    od[e].subs[s].access
  }

  /** The dictionary with one variable's memory replaced. */
  function Store(od: Od, e: nat, s: nat, data: seq<byte>): (r: Od)
    requires HasObject(od, e, s)
    ensures |r| == |od| && HasObject(r, e, s) && ObjectAt(r, e, s) == data && AccessAt(r, e, s) == AccessAt(od, e, s)
  {
    od[e := od[e].(subs := od[e].subs[s := od[e].subs[s].(memory := Some(data))])]
  }

  // ------------------------------------------------------------ access

  predicate Writable(access: byte) {
    Bit(access, 1)
  }

  /** `canopen_od_read`'s test: the read bit, or a constant. */
  predicate Readable(access: byte) {
    Bit(access, 2) || access == CONSTANT
  }

  /** `canopen_od_read` into a buffer of `max` bytes: the code, the bytes copied and the reported size. */
  function Read(od: Od, index: word, sub: byte, max: nat): (r: (nat, seq<byte>, nat)) {
    match Locate(od, index, sub)
    case Missing(code) => (code, [], max)
    case Found(e, s) =>
      var held := ObjectAt(od, e, s);
      if !Readable(AccessAt(od, e, s)) then (READ_NOT_ALLOWED, [], max)
      else (SUCCESSFUL, held[..Min(|held|, max)], |held|)
  }

  /** `canopen_od_write`: only data of exactly the object's size gets in. */
  function Write(od: Od, index: word, sub: byte, data: seq<byte>): (r: (nat, Od))
    ensures |r.1| == |od|
  {
    match Locate(od, index, sub)
    case Missing(code) => (code, od)
    case Found(e, s) =>
      var held := ObjectAt(od, e, s);
      if !Writable(AccessAt(od, e, s)) then (WRITE_NOT_ALLOWED, od)
      else if |data| > |held| then (LENGTH_TOO_HIGH, od)
      else if |data| < |held| then (LENGTH_TOO_SHORT, od)
      else (SUCCESSFUL, Store(od, e, s, data))
  }

  // ------------------------------------------------------------ what may change

  /** b has the entries, variables and sizes of a; only memory contents may differ. */
  ghost predicate SameShape(a: Od, b: Od) {
    && |a| == |b|
    && forall e | 0 <= e < |a| ::
         a[e].index == b[e].index && |a[e].subs| == |b[e].subs|
         && forall s | 0 <= s < |a[e].subs| ::
              a[e].subs[s].access == b[e].subs[s].access
              && (a[e].subs[s].memory.Some? <==> b[e].subs[s].memory.Some?)
              && (a[e].subs[s].memory.Some? ==> |a[e].subs[s].memory.value| == |b[e].subs[s].memory.value|)
  }

  /** Moreover every object of more than four bytes keeps its contents. */
  ghost predicate KeepsLong(a: Od, b: Od) {
    && SameShape(a, b)
    && forall e, s | HasObject(a, e, s) && |ObjectAt(a, e, s)| > 4 :: ObjectAt(b, e, s) == ObjectAt(a, e, s)
  }

  lemma StoreShape(od: Od, e: nat, s: nat, data: seq<byte>)
    requires HasObject(od, e, s) && |data| == |ObjectAt(od, e, s)|
    ensures SameShape(od, Store(od, e, s, data))
    ensures |data| <= 4 ==> KeepsLong(od, Store(od, e, s, data))
    ensures forall x, y | HasObject(od, x, y) && (x != e || y != s) ::
              HasObject(Store(od, e, s, data), x, y)
              && ObjectAt(Store(od, e, s, data), x, y) == ObjectAt(od, x, y)
  {
  }

  /** A write of at most four bytes never touches an object longer than that. */
  lemma ShortWriteKeepsLong(od: Od, index: word, sub: byte, data: seq<byte>)
    requires |data| <= 4
    ensures KeepsLong(od, Write(od, index, sub, data).1)
  {
    hide Store;
    var r := Locate(od, index, sub);
    if r.Found? && |data| == |ObjectAt(od, r.entry, r.sub)| {
      StoreShape(od, r.entry, r.sub, data);
    }
  }

  lemma KeepsLongTransitive(a: Od, b: Od, c: Od)
    requires KeepsLong(a, b) && KeepsLong(b, c)
    ensures KeepsLong(a, c)
  {
    hide FindFrom;
    forall e, s | HasObject(a, e, s) && |ObjectAt(a, e, s)| > 4
      ensures ObjectAt(c, e, s) == ObjectAt(a, e, s)
    {
      assert HasObject(b, e, s);
      assert ObjectAt(b, e, s) == ObjectAt(a, e, s);
    }
  }

  lemma {:induction false} SameLookup(a: Od, b: Od, from: nat, index: word)
    requires SameShape(a, b) && from <= |a|
    ensures FindFrom(a, from, index) == FindFrom(b, from, index)
    decreases |a| - from
  {
    if from < |a| {
      assert a[from].index == b[from].index;
      SameLookup(a, b, from + 1, index);
    }
  }

  /** Lookups see the shape only. */
  lemma ShapeDecidesLookup(a: Od, b: Od, index: word, sub: byte)
    requires SameShape(a, b)
    ensures Locate(a, index, sub) == Locate(b, index, sub)
  {
    SameLookup(a, b, 0, index);
  }

  /** A successful write is what the next read returns, and what a failed write leaves is the dictionary. */
  lemma WriteThenRead(od: Od, index: word, sub: byte, data: seq<byte>, max: nat)
    ensures var (code, after) := Write(od, index, sub, data);
            if code == SUCCESSFUL
            then var l := Locate(od, index, sub);
                 Readable(AccessAt(od, l.entry, l.sub)) && |data| <= max ==>
                   Read(after, index, sub, max) == (SUCCESSFUL, data, |data|)
            else after == od
  {
    hide Store, FindFrom, Writable, Readable;
    var l := Locate(od, index, sub);
    if l.Found? && |data| == |ObjectAt(od, l.entry, l.sub)| {
      StoreShape(od, l.entry, l.sub, data);
      ShapeDecidesLookup(od, Store(od, l.entry, l.sub, data), index, sub);
      assert |data| <= max ==> data[..Min(|data|, max)] == data;
    }
  }
}
