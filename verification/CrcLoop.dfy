/** `modbus_crc16` and its lookup tables, over the bytes the rest of the firmware handles. */
module CrcLoop {
  import opened Bytes
  import opened Crc

  function ToBv(b: byte): bv8 {
    b as bv8
  }

  function Value8(x: bv8): byte {
    Value8Bound(x);
    x as int
  }

  lemma Value8Bound(x: bv8)
    ensures 0 <= x as int < 256
  {
  }

  function Value16(c: bv16): word {
    c as int
  }

  lemma ToBvBack(x: bv8)
    ensures ToBv(Value8(x)) == x
  {
  }

  lemma NextValue(x: bv8)
    requires x != 0xFF
    ensures (x + 1) as int == x as int + 1
  {
  }

  lemma {:induction false} ValueReached(b: byte) returns (x: bv8)
    ensures Value8(x) == b
  {
    if b == 0 {
      x := 0;
    } else {
      var y := ValueReached(b - 1);
      NextValue(y);
      x := y + 1;
    }
  }

  lemma Value8Back(b: byte)
    ensures Value8(ToBv(b)) == b
  {
    hide Value8, ToBv;
    var x := ValueReached(b);
    ToBvBack(x);
  }

  function Raw(buf: seq<byte>): (r: seq<bv8>)
    ensures |r| == |buf|
  {
    seq(|buf|, i requires 0 <= i < |buf| => ToBv(buf[i]))
  }

  function Crc16(buf: seq<byte>): word {
    Value16(Run(AsWritten, 0xFFFF, Raw(buf)))
  }

  /** The check both ends make on a received ADU. */
  predicate CrcOk(adu: seq<byte>)
    requires |adu| >= 2
  {
    Be16(adu[|adu| - 1], adu[|adu| - 2]) == Crc16(adu[..|adu| - 2])
  }

  /** An ADU: the body followed by its CRC, low byte first. */
  function Seal(body: seq<byte>): (adu: seq<byte>)
    ensures |adu| == |body| + 2
  {
    body + [Lo(Crc16(body)), Hi(Crc16(body))]
  }

  lemma SealedIsOk(body: seq<byte>)
    ensures CrcOk(Seal(body))
  {
    hide Crc16;
    assert Seal(body)[..|body|] == body;
  }

  lemma Narrow(x: bv16)
    requires x < 0x100
    ensures (x as bv8) as int == x as int
  {
  }

  lemma Halve(c: bv16)
    ensures c as int == 256 * ((c >> 8) as int) + (c & 0xFF) as int
    ensures c >> 8 < 0x100 && c & 0xFF < 0x100
  {
  }

  lemma WordHalves(c: bv16)
    ensures Value16(c) == Be16(Value8(High(c)), Value8(Low(c)))
  {
    Halve(c);
    Narrow(c >> 8);
    Narrow(c & 0xFF);
  }

  lemma SameWord(c: bv16, hi: byte, lo: byte)
    ensures Be16(hi, lo) == Value16(c) <==> ToBv(lo) == Low(c) && ToBv(hi) == High(c)
  {
    hide Low, High, ToBv, Value8, Value16;
    WordHalves(c);
    ToBvBack(Low(c));
    ToBvBack(High(c));
    Value8Back(lo);
    Value8Back(hi);
  }

  lemma CrcOkIsAccepts(adu: seq<byte>)
    requires |adu| >= 2
    ensures CrcOk(adu) <==> Accepts(AsWritten, Raw(adu))
  {
    hide Run, Low, High, ToBv, Value16;
    var n := |adu| - 2;
    assert Raw(adu)[..n] == Raw(adu[..n]);
    SameWord(Run(AsWritten, 0xFFFF, Raw(adu[..n])), adu[n + 1], adu[n]);
  }

  // ------------------------------------------------------------ flipped bits

  function Ones(c: bv16): nat
    decreases c
  {
    if c == 0 then 0 else (HalfDecreases(c); (if LowBit(c) then 1 else 0) + Ones(Half(c)))
  }

  lemma {:induction false} OddIsOnes(c: bv16)
    ensures Odd(c) <==> Ones(c) % 2 == 1
    decreases c
  {
    if c != 0 {
      HalfDecreases(c);
      OddIsOnes(Half(c));
    }
  }

  function OnesByte(x: bv8): nat {
    Ones(x as bv16)
  }

  /** The number of bits in which two buffers of the same length differ. */
  function Distance(a: seq<byte>, b: seq<byte>): nat
    requires |a| == |b|
  {
    if |a| == 0 then 0 else OnesByte(Xor8(ToBv(a[0]), ToBv(b[0]))) + Distance(a[1..], b[1..])
  }

  lemma {:induction false} OddDistance(a: seq<byte>, b: seq<byte>)
    requires |a| == |b|
    ensures OddSeq(XorSeq(Raw(a), Raw(b))) <==> Distance(a, b) % 2 == 1
  {
    hide OddByte, OnesByte, Xor8, ToBv;
    if |a| > 0 {
      var x := Xor8(ToBv(a[0]), ToBv(b[0]));
      OddByteIsOnes(x);
      OddDistance(a[1..], b[1..]);
      var d := XorSeq(Raw(a), Raw(b));
      assert d[1..] == XorSeq(Raw(a[1..]), Raw(b[1..]));
      assert d[0] == x;
    }
  }

  lemma OddByteIsOnes(x: bv8)
    ensures OddByte(x) <==> OnesByte(x) % 2 == 1
  {
    hide Odd, Ones;
    OddIsOnes(x as bv16);
  }

  lemma XorBack(a: bv8, b: bv8)
    ensures Xor8(a, Xor8(a, b)) == b
  {
  }

  /** A received ADU that differs from a good one in an odd number of bits fails the check. */
  lemma OddFlipsFail(good: seq<byte>, bad: seq<byte>)
    requires |good| == |bad| >= 2 && CrcOk(good)
    requires Distance(good, bad) % 2 == 1
    ensures !CrcOk(bad)
  {
    hide Accepts, OddSeq, Xor8, CrcOk;
    var g, e := Raw(good), XorSeq(Raw(good), Raw(bad));
    CrcOkIsAccepts(good);
    CrcOkIsAccepts(bad);
    OddDistance(good, bad);
    OddErrorsRejected(AsWritten, g, e);
    assert XorSeq(g, e) == Raw(bad) by {
      forall i | 0 <= i < |g|
        ensures Xor8(g[i], Xor8(g[i], Raw(bad)[i])) == Raw(bad)[i]
      {
        XorBack(g[i], Raw(bad)[i]);
      }
    }
  }

  /** A concrete frame: the byte 01 is followed by 7F 81, low byte first. */
  lemma SealedOne()
    ensures Seal([1]) == [1, 0x7F, 0x81]
  {
    hide Run;
    EntryClosed(0xFE);
    assert Raw([1]) == [1 as bv8];
    assert Index(0xFFFF, 1) == 0xFE;
    assert Closed(0xFE) == 0x8081;
    hide StepN;
    assert Update(AsWritten, 0xFFFF, 1) == 0x817F;
    RunOfOne(0xFFFF, 1);
  }

  lemma RunOfOne(c: bv16, b: bv8)
    ensures Run(AsWritten, c, [b]) == Update(AsWritten, c, b)
  {
    hide Update;
    assert [b][1..] == [];
    RunEnd(Update(AsWritten, c, b), []);
  }

  // ------------------------------------------------------------ the code

  function Glue(hi: bv8, lo: bv8): bv16 {
    ((hi as bv16) << 8) | (lo as bv16)
  }

  lemma GlueParts(hi: bv8, lo: bv8)
    ensures High(Glue(hi, lo)) == hi && Low(Glue(hi, lo)) == lo && Glue(hi, lo) >> 8 == hi as bv16
  {
  }

  lemma GlueValue(hi: bv8, lo: bv8)
    ensures Value16(Glue(hi, lo)) == Be16(Value8(hi), Value8(lo))
  {
    hide Glue, High, Low, Value16, Value8;
    GlueParts(hi, lo);
    WordHalves(Glue(hi, lo));
  }

  lemma GlueOnes()
    ensures Glue(0xFF, 0xFF) == 0xFFFF
  {
  }

  lemma RunHead(c: bv16, buf: seq<bv8>, i: nat)
    requires i < |buf|
    ensures Run(AsWritten, c, buf[i..]) == Run(AsWritten, Update(AsWritten, c, buf[i]), buf[i + 1..])
  {
    hide Update;
    assert buf[i..][1..] == buf[i + 1..];
  }

  lemma RunEnd(c: bv16, buf: seq<bv8>)
    ensures Run(AsWritten, c, buf[|buf|..]) == c
  {
  }

  lemma GlueUpdate(hi: bv8, t: bv16)
    ensures Glue((t & 0xFF) as bv8, hi ^ ((t >> 8) as bv8)) == Xor(hi as bv16, Swap(t))
  {
  }

  /** The two lookup tables and the flag that says they are filled. */
  class CrcTables {
    const low: array<bv16>
    const high: array<bv16>
    var initialized: bool

    ghost predicate Valid()
      reads this, low, high
    {
      && low.Length == 256 && high.Length == 256 && low != high
      && (initialized ==> Filled(256))
    }

    ghost predicate Filled(n: nat)
      reads low, high
    {
      && n <= low.Length && n <= high.Length
      && (forall k | 0 <= k < n :: low[k] == Entry(ByteAt(k)) & 0xFF)
      && (forall k | 0 <= k < n :: high[k] == Entry(ByteAt(k)) >> 8)
    }

    static ghost function ByteAt(k: int): bv8 {
      if 0 <= k < 256 then k as bv8 else 0
    }

    constructor ()
      ensures Valid() && !initialized && fresh(low) && fresh(high)
    {
      low := new bv16[256];
      high := new bv16[256];
      initialized := false;
    }

    method InitTables()
      requires Valid()
      modifies this, low, high
      ensures Valid() && initialized
    {
      if initialized {
        return;
      }
      for i := 0 to 256
        invariant Filled(i)
      {
        var crc: bv16 := i as bv16;
        WideByte(i);
        for j := 0 to 8
          invariant StepN(8 - j, crc) == Entry(ByteAt(i))
          invariant Filled(i)
        {
          if crc & 1 != 0 {
            crc := (crc >> 1) ^ 0xA001;
          } else {
            crc := crc >> 1;
          }
        }
        low[i] := crc & 0xFF;
        high[i] := crc >> 8;
      }
      initialized := true;
    }

    static lemma WideByte(i: int)
      requires 0 <= i < 256
      ensures i as bv16 == (i as bv8) as bv16
    {
    }

    method Compute(buf: seq<byte>) returns (crc: word)
      requires Valid()
      modifies this, low, high
      ensures Valid() && initialized
      ensures crc == Crc16(buf)
    {
      hide Filled, Run, Update, Xor8, ToBv, Value8, Value16, Glue, Entry;
      InitTables();
      var crcHi: bv8 := 0xFF;
      var crcLo: bv8 := 0xFF;
      GlueOnes();
      assert Raw(buf)[0..] == Raw(buf);
      for i := 0 to |buf|
        invariant Valid() && initialized
        invariant Run(AsWritten, Glue(crcHi, crcLo), Raw(buf)[i..]) == Run(AsWritten, 0xFFFF, Raw(buf))
      {
        var idx: bv8 := Xor8(crcLo, ToBv(buf[i]));
        LoopTurn(crcHi, crcLo, ToBv(buf[i]), idx);
        RunHead(Glue(crcHi, crcLo), Raw(buf), i);
        TableRead(idx);
        crcLo := crcHi ^ (high[Value8(idx)] as bv8);
        crcHi := low[Value8(idx)] as bv8;
      }
      GlueValue(crcHi, crcLo);
      RunEnd(Glue(crcHi, crcLo), Raw(buf));
      crc := Be16(Value8(crcHi), Value8(crcLo));
    }

    lemma TableRead(idx: bv8)
      requires Valid() && initialized
      ensures low[Value8(idx)] == Entry(idx) & 0xFF && high[Value8(idx)] == Entry(idx) >> 8
    {
      assert ByteAt(Value8(idx)) == idx;
    }
  }

  lemma LoopTurn(hi: bv8, lo: bv8, b: bv8, idx: bv8)
    requires idx == Xor8(lo, b)
    ensures Glue((Entry(idx) & 0xFF) as bv8, hi ^ ((Entry(idx) >> 8) as bv8))
            == Update(AsWritten, Glue(hi, lo), b)
  {
    hide Entry, Swap, Glue, Xor, Xor8, Low, High;
    GlueParts(hi, lo);
    GlueUpdate(hi, Entry(idx));
  }
}
