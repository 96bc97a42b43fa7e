/** The CRC-16 of the RTU frames: the byte loop as it is written, the bitwise CRC of section 2.5.1.2 of
    Modbus over Serial Line V1.02, and what each of them detects. */
module Crc {
  import opened Bytes

  function Xor(a: bv16, b: bv16): bv16 {
    a ^ b
  }

  function Xor8(a: bv8, b: bv8): bv8 {
    a ^ b
  }

  // ------------------------------------------------------------ the shift register

  /** One bit time of the 0xA001 shift register. */
  function Step(c: bv16): bv16 {
    if c & 1 != 0 then (c >> 1) ^ 0xA001 else c >> 1
  }

  function StepN(n: nat, c: bv16): bv16 {
    if n == 0 then c else StepN(n - 1, Step(c))
  }

  /** Entry i of the CRC table; the code keeps its low byte and its high byte in two tables. */
  function Entry(i: bv8): bv16 {
    StepN(8, i as bv16)
  }

  function Low(c: bv16): bv8 {
    (c & 0xFF) as bv8
  }

  function High(c: bv16): bv8 {
    (c >> 8) as bv8
  }

  function Index(c: bv16, b: bv8): bv8 {
    Xor8(Low(c), b)
  }

  function Swap(t: bv16): bv16 {
    ((t & 0xFF) << 8) | (t >> 8)
  }

  /** How the loop reads its two tables. AsWritten: the low table feeds the high half of the register and
      the high table the low half. Exchanged: each table feeds its own half. */
  datatype Wiring = AsWritten | Exchanged

  function Cross(w: Wiring, t: bv16): bv16 {
    if w.AsWritten? then Swap(t) else t
  }

  /** One turn of the byte loop. */
  function Update(w: Wiring, c: bv16, b: bv8): bv16 {
    Xor(c >> 8, Cross(w, Entry(Index(c, b))))
  }

  function Run(w: Wiring, c: bv16, buf: seq<bv8>): bv16
    decreases |buf|
  {
    if |buf| == 0 then c else Run(w, Update(w, c, buf[0]), buf[1..])
  }

  lemma {:induction false} RunConcat(w: Wiring, c: bv16, a: seq<bv8>, b: seq<bv8>)
    ensures Run(w, c, a + b) == Run(w, Run(w, c, a), b)
    decreases |a|
  {
    if |a| == 0 {
      assert a + b == b;
    } else {
      RunConcat(w, Update(w, c, a[0]), a[1..], b);
      assert (a + b)[1..] == a[1..] + b;
    }
  }

  // ------------------------------------------------------------ linearity

  lemma StepXor(a: bv16, b: bv16)
    ensures Step(Xor(a, b)) == Xor(Step(a), Step(b))
  {
    if a & 1 != 0 {
      if b & 1 != 0 {
        assert (a ^ b) & 1 == 0;
      } else {
        assert (a ^ b) & 1 != 0;
      }
    } else if b & 1 != 0 {
      assert (a ^ b) & 1 != 0;
    } else {
      assert (a ^ b) & 1 == 0;
    }
  }

  lemma {:induction false} StepNXor(n: nat, a: bv16, b: bv16)
    ensures StepN(n, Xor(a, b)) == Xor(StepN(n, a), StepN(n, b))
  {
    if n > 0 {
      StepXor(a, b);
      StepNXor(n - 1, Step(a), Step(b));
    }
  }

  lemma WidenXor(a: bv8, b: bv8)
    ensures Xor8(a, b) as bv16 == Xor(a as bv16, b as bv16)
  {
  }

  lemma EntryXor(a: bv8, b: bv8)
    ensures Entry(Xor8(a, b)) == Xor(Entry(a), Entry(b))
  {
    WidenXor(a, b);
    StepNXor(8, a as bv16, b as bv16);
  }

  lemma LowXor(c: bv16, d: bv16)
    ensures Low(Xor(c, d)) == Xor8(Low(c), Low(d))
  {
  }

  lemma Assoc8(p: bv8, q: bv8, r: bv8)
    ensures Xor8(Xor8(p, q), r) == Xor8(p, Xor8(q, r))
    ensures Xor8(p, q) == Xor8(q, p)
  {
  }

  lemma Shuffle8(p: bv8, q: bv8, r: bv8, s: bv8)
    ensures Xor8(Xor8(p, q), Xor8(r, s)) == Xor8(Xor8(p, r), Xor8(q, s))
  {
    Assoc8(p, q, Xor8(r, s));
    Assoc8(q, r, s);
    Assoc8(r, q, s);
    Assoc8(p, r, Xor8(q, s));
  }

  lemma IndexXor(c: bv16, d: bv16, x: bv8, y: bv8)
    ensures Index(Xor(c, d), Xor8(x, y)) == Xor8(Index(c, x), Index(d, y))
  {
    LowXor(c, d);
    Shuffle8(Low(c), Low(d), x, y);
  }

  lemma SwapXor(a: bv16, b: bv16)
    ensures Swap(Xor(a, b)) == Xor(Swap(a), Swap(b))
  {
  }

  lemma ShiftXor(a: bv16, b: bv16)
    ensures Xor(a, b) >> 8 == Xor(a >> 8, b >> 8)
  {
  }

  lemma Assoc(p: bv16, q: bv16, r: bv16)
    ensures Xor(Xor(p, q), r) == Xor(p, Xor(q, r))
    ensures Xor(p, q) == Xor(q, p)
  {
  }

  lemma Shuffle(p: bv16, q: bv16, r: bv16, s: bv16)
    ensures Xor(Xor(p, q), Xor(r, s)) == Xor(Xor(p, r), Xor(q, s))
  {
    Assoc(p, q, Xor(r, s));
    Assoc(q, r, s);
    Assoc(r, q, s);
    Assoc(p, r, Xor(q, s));
  }

  lemma UpdateXor(w: Wiring, c: bv16, d: bv16, x: bv8, y: bv8)
    ensures Update(w, Xor(c, d), Xor8(x, y)) == Xor(Update(w, c, x), Update(w, d, y))
  {
    hide Xor, Xor8, Index, Entry, Swap;
    var i, j := Index(c, x), Index(d, y);
    IndexXor(c, d, x, y);
    EntryXor(i, j);
    SwapXor(Entry(i), Entry(j));
    ShiftXor(c, d);
    Shuffle(c >> 8, d >> 8, Cross(w, Entry(i)), Cross(w, Entry(j)));
  }

  function XorSeq(a: seq<bv8>, b: seq<bv8>): (r: seq<bv8>)
    requires |a| == |b|
    ensures |r| == |a|
  {
    seq(|a|, i requires 0 <= i < |a| => Xor8(a[i], b[i]))
  }

  /** The register is GF(2)-linear in the start value and the message together. */
  lemma {:induction false} RunXor(w: Wiring, c: bv16, d: bv16, a: seq<bv8>, b: seq<bv8>)
    requires |a| == |b|
    ensures Run(w, Xor(c, d), XorSeq(a, b)) == Xor(Run(w, c, a), Run(w, d, b))
    decreases |a|
  {
    if |a| > 0 {
      UpdateXor(w, c, d, a[0], b[0]);
      RunXor(w, Update(w, c, a[0]), Update(w, d, b[0]), a[1..], b[1..]);
      assert XorSeq(a, b)[1..] == XorSeq(a[1..], b[1..]);
    }
  }

  // ------------------------------------------------------------ parity

  predicate LowBit(c: bv16) {
    c & 1 != 0
  }

  function Half(c: bv16): bv16 {
    c >> 1
  }

  function Double(c: bv16): bv16 {
    c << 1
  }

  lemma HalfDecreases(c: bv16)
    requires c != 0
    ensures Half(c) < c
  {
  }

  /** The number of one bits is odd. */
  predicate Odd(c: bv16)
    decreases c
  {
    c != 0 && (HalfDecreases(c); LowBit(c) != Odd(Half(c)))
  }

  lemma OddUnfold(c: bv16)
    ensures Odd(c) == (LowBit(c) != Odd(Half(c)))
    ensures !Odd(0)
  {
  }

  lemma LowBitXor(a: bv16, b: bv16)
    ensures LowBit(Xor(a, b)) == (LowBit(a) != LowBit(b))
    ensures Half(Xor(a, b)) == Xor(Half(a), Half(b))
    ensures Xor(0, b) == b
  {
  }

  lemma {:induction false} OddXor(a: bv16, b: bv16)
    ensures Odd(Xor(a, b)) == (Odd(a) != Odd(b))
    decreases a
  {
    hide *;
    LowBitXor(a, b);
    OddUnfold(a);
    if a != 0 {
      HalfDecreases(a);
      OddXor(Half(a), Half(b));
      OddUnfold(Xor(a, b));
      OddUnfold(b);
    }
  }

  lemma DoubleFacts(v: bv16)
    requires v < 0x8000
    ensures !LowBit(Double(v)) && Half(Double(v)) == v
  {
  }

  lemma OddDouble(v: bv16)
    requires v < 0x8000
    ensures Odd(Double(v)) == Odd(v)
  {
    hide *;
    OddUnfold(Double(v));
    DoubleFacts(v);
  }

  lemma OddPoly()
    ensures Odd(0xA001)
  {
    OddUnfold(0xA001);
    OddUnfold(0x5000);
    OddUnfold(0x2800);
    OddUnfold(0x1400);
    OddUnfold(0xA00);
    OddUnfold(0x500);
    OddUnfold(0x280);
    OddUnfold(0x140);
    OddUnfold(0xA0);
    OddUnfold(0x50);
    OddUnfold(0x28);
    OddUnfold(0x14);
    OddUnfold(0xA);
    OddUnfold(0x5);
    OddUnfold(0x2);
    OddUnfold(0x1);
  }

  lemma StepBits(c: bv16)
    ensures Step(c) == if LowBit(c) then Xor(Half(c), 0xA001) else Half(c)
  {
  }

  lemma OddStep(c: bv16)
    ensures Odd(Step(c)) == Odd(c)
  {
    hide *;
    OddUnfold(c);
    StepBits(c);
    OddPoly();
    OddXor(Half(c), 0xA001);
  }

  lemma Shl8Doubles(v: bv16)
    requires v < 0x100
    ensures v << 8 == Double(Double(Double(Double(Double(Double(Double(Double(v))))))))
    ensures Double(v) < 0x200 && Double(Double(v)) < 0x400 && Double(Double(Double(v))) < 0x800
    ensures Double(Double(Double(Double(v)))) < 0x1000
    ensures Double(Double(Double(Double(Double(v))))) < 0x2000
    ensures Double(Double(Double(Double(Double(Double(v)))))) < 0x4000
    ensures Double(Double(Double(Double(Double(Double(Double(v))))))) < 0x8000
  {
  }

  lemma OddShl8(v: bv16)
    requires v < 0x100
    ensures Odd(v << 8) == Odd(v)
  {
    hide *;
    Shl8Doubles(v);
    var a := Double(v);
    var b := Double(a);
    var c := Double(b);
    var d := Double(c);
    var e := Double(d);
    var f := Double(e);
    var g := Double(f);
    OddDouble(v);
    OddDouble(a);
    OddDouble(b);
    OddDouble(c);
    OddDouble(d);
    OddDouble(e);
    OddDouble(f);
    OddDouble(g);
  }

  function Join(hi: bv16, lo: bv16): bv16 {
    Xor(hi << 8, lo)
  }

  lemma Halves(c: bv16)
    ensures Swap(c) == Join(Low(c) as bv16, High(c) as bv16)
    ensures c == Join(High(c) as bv16, Low(c) as bv16)
    ensures c >> 8 == High(c) as bv16
  {
  }

  lemma OddJoin(hi: bv16, lo: bv16)
    requires hi < 0x100
    ensures Odd(Join(hi, lo)) == (Odd(hi) != Odd(lo))
  {
    hide Odd, Xor;
    OddXor(hi << 8, lo);
    OddShl8(hi);
  }

  lemma OddSwap(c: bv16)
    ensures Odd(Swap(c)) == Odd(c)
    ensures Odd(c) == (Odd(c >> 8) != Odd(Low(c) as bv16))
  {
    hide *;
    Halves(c);
    OddJoin(High(c) as bv16, Low(c) as bv16);
    OddJoin(Low(c) as bv16, High(c) as bv16);
  }

  lemma {:induction false} OddStepN(n: nat, c: bv16)
    ensures Odd(StepN(n, c)) == Odd(c)
  {
    if n > 0 {
      OddStep(c);
      OddStepN(n - 1, Step(c));
    }
  }

  lemma OddEntry(w: Wiring, i: bv8)
    ensures Odd(Cross(w, Entry(i))) == Odd(i as bv16)
  {
    hide Odd, StepN, Swap;
    OddSwap(Entry(i));
    OddStepN(8, i as bv16);
  }

  lemma OddIndex(c: bv16, b: bv8)
    ensures Odd(Index(c, b) as bv16) == (Odd(Low(c) as bv16) != Odd(b as bv16))
  {
    hide Odd, Xor, Xor8, Low;
    WidenXor(Low(c), b);
    OddXor(Low(c) as bv16, b as bv16);
  }

  predicate OddByte(b: bv8) {
    Odd(b as bv16)
  }

  lemma OddByteXor(a: bv8, b: bv8)
    ensures OddByte(Xor8(a, b)) == (OddByte(a) != OddByte(b))
  {
    hide Odd, Xor, Xor8;
    WidenXor(a, b);
    OddXor(a as bv16, b as bv16);
  }

  lemma OddUpdate(w: Wiring, c: bv16, b: bv8)
    ensures Odd(Update(w, c, b)) == (Odd(c) != OddByte(b))
  {
    hide Odd, Xor, Index, Cross, Entry;
    OddXor(c >> 8, Cross(w, Entry(Index(c, b))));
    OddEntry(w, Index(c, b));
    OddIndex(c, b);
    OddSwap(c);
  }

  predicate OddSeq(buf: seq<bv8>) {
    |buf| > 0 && OddByte(buf[0]) != OddSeq(buf[1..])
  }

  /** Both CRCs keep the parity of the message. */
  lemma {:induction false} OddRun(w: Wiring, c: bv16, buf: seq<bv8>)
    ensures Odd(Run(w, c, buf)) == (Odd(c) != OddSeq(buf))
    decreases |buf|
  {
    hide Update, Odd, OddByte;
    if |buf| > 0 {
      OddUpdate(w, c, buf[0]);
      OddRun(w, Update(w, c, buf[0]), buf[1..]);
    }
  }

  // ------------------------------------------------------------ the bitwise CRC and its bursts

  function Feed(c: bv16, bit: bool): bv16 {
    Step(Xor(c, if bit then 1 else 0))
  }

  /** The CRC of section 2.5.1.2, one message bit at a time. */
  function RunBits(c: bv16, bits: seq<bool>): bv16
    decreases |bits|
  {
    if |bits| == 0 then c else RunBits(Feed(c, bits[0]), bits[1..])
  }

  /** The lowest n bits of v, LSB first. */
  function BitsOf(n: nat, v: bv16): (bits: seq<bool>)
    ensures |bits| == n
  {
    if n == 0 then [] else [LowBit(v)] + BitsOf(n - 1, Half(v))
  }

  /** The bits of a byte in the order they go over the line, LSB first. */
  function LineBits(b: bv8): (bits: seq<bool>)
    ensures |bits| == 8
  {
    BitsOf(8, b as bv16)
  }

  function Line(buf: seq<bv8>): (bits: seq<bool>)
    ensures |bits| == 8 * |buf|
  {
    if |buf| == 0 then [] else LineBits(buf[0]) + Line(buf[1..])
  }

  /** Up to 16 bits as a register value, the first in the lowest place. */
  function Val(bits: seq<bool>): (v: bv16)
    requires |bits| <= 16
    decreases |bits|
  {
    if |bits| == 0 then 0
    else Xor(Double(Val(bits[1..])), if bits[0] then 1 else 0)
  }

  /** The register values that fit in n bits are those up to Mask(n). */
  function Mask(n: nat): bv16
    requires n <= 16
  {
    [0, 1, 3, 7, 15, 31, 63, 127, 255, 511, 1023, 2047, 4095, 8191, 16383, 32767, 65535][n]
  }

  lemma MaskFacts(n: nat)
    requires n < 16
    ensures Mask(n) < 0x8000
    ensures Mask(n + 1) == Double(Mask(n)) | 1
  {
  }

  lemma DoubleFits(v: bv16, m: bv16, bit: bool)
    requires v <= m < 0x8000
    ensures Xor(Double(v), if bit then 1 else 0) <= Double(m) | 1
    ensures Xor(Double(v), if bit then 1 else 0) == 0 ==> v == 0 && !bit
  {
  }

  lemma {:induction false} ValFits(bits: seq<bool>)
    requires |bits| <= 16
    ensures Val(bits) <= Mask(|bits|)
    ensures Val(bits) == 0 ==> forall i | 0 <= i < |bits| :: !bits[i]
    decreases |bits|
  {
    hide Xor, Double, Mask;
    if |bits| == 0 {
      assert Mask(0) == 0 by { MaskZero(); }
    } else {
      var rest := bits[1..];
      ValFits(rest);
      MaskFacts(|rest|);
      DoubleFits(Val(rest), Mask(|rest|), bits[0]);
      assert forall i | 1 <= i < |bits| :: bits[i] == rest[i - 1];
    }
  }

  lemma MaskZero()
    ensures Mask(0) == 0
  {
  }

  lemma FeedDouble(c: bv16, v: bv16, bit: bool)
    requires v < 0x8000
    ensures Step(Xor(c, Xor(Double(v), if bit then 1 else 0))) == Xor(Feed(c, bit), v)
  {
    var b: bv16 := if bit then 1 else 0;
    Assoc(Double(v), b, c);
    Assoc(c, b, Double(v));
    Assoc(c, Xor(Double(v), b), 0);
    StepXor(Xor(c, b), Double(v));
    assert Step(Double(v)) == v;
  }

  /** Feeding at most 16 bits one by one is one load of the register and that many bit times. */
  lemma {:induction false} RunBitsVal(c: bv16, bits: seq<bool>)
    requires |bits| <= 16
    ensures RunBits(c, bits) == StepN(|bits|, Xor(c, Val(bits)))
    decreases |bits|
  {
    hide Xor, Double, Step, Feed, Mask;
    if |bits| == 0 {
      XorZero(c);
    } else {
      var rest := bits[1..];
      ValFits(rest);
      MaskFacts(|rest|);
      FeedDouble(c, Val(rest), bits[0]);
      RunBitsVal(Feed(c, bits[0]), rest);
    }
  }

  lemma XorZero(c: bv16)
    ensures Xor(c, 0) == c && Xor(0, c) == c
  {
  }

  lemma StepNonzero(c: bv16)
    requires c != 0
    ensures Step(c) != 0
  {
  }

  lemma {:induction false} StepNNonzero(n: nat, c: bv16)
    requires c != 0
    ensures StepN(n, c) != 0
  {
    if n > 0 {
      StepNonzero(c);
      StepNNonzero(n - 1, Step(c));
    }
  }

  lemma {:induction false} RunBitsConcat(c: bv16, a: seq<bool>, b: seq<bool>)
    ensures RunBits(c, a + b) == RunBits(RunBits(c, a), b)
    decreases |a|
  {
    hide Feed;
    if |a| == 0 {
      assert a + b == b;
    } else {
      RunBitsConcat(Feed(c, a[0]), a[1..], b);
      assert (a + b)[1..] == a[1..] + b;
    }
  }

  function Zeros(n: nat): seq<bool> {
    seq(n, i => false)
  }

  lemma {:induction false} RunBitsZeros(c: bv16, n: nat)
    ensures RunBits(c, Zeros(n)) == StepN(n, c)
    decreases n
  {
    hide Step, Xor;
    if n > 0 {
      XorZero(c);
      assert Zeros(n)[1..] == Zeros(n - 1);
      RunBitsZeros(Step(c), n - 1);
    }
  }

  lemma {:induction false} StepNZero(n: nat)
    ensures StepN(n, 0) == 0
  {
    if n > 0 {
      StepNZero(n - 1);
    }
  }

  /** A line error confined to at most 16 consecutive bits never leaves the register at zero. */
  lemma BurstLeavesMark(before: nat, burst: seq<bool>, after: nat)
    requires |burst| <= 16
    requires exists i | 0 <= i < |burst| :: burst[i]
    ensures RunBits(0, Zeros(before) + burst + Zeros(after)) != 0
  {
    hide Xor, Step, Feed, Mask, Val;
    RunBitsConcat(0, Zeros(before) + burst, Zeros(after));
    RunBitsConcat(0, Zeros(before), burst);
    RunBitsZeros(0, before);
    StepNZero(before);
    RunBitsVal(0, burst);
    XorZero(Val(burst));
    ValFits(burst);
    StepNNonzero(|burst|, Val(burst));
    RunBitsZeros(RunBits(0, burst), after);
    StepNNonzero(after, RunBits(0, burst));
  }

  lemma Reload(v: bv16, m: bv16)
    ensures Xor(Double(Half(v)), if LowBit(v) then 1 else 0) == v
    ensures m < 0x8000 && v <= Double(m) | 1 ==> Half(v) <= m
  {
  }

  lemma {:induction false} BitsOfVal(n: nat, v: bv16)
    requires n <= 16 && v <= Mask(n)
    ensures Val(BitsOf(n, v)) == v
  {
    hide Xor, Double, Half, LowBit, Mask;
    if n == 0 {
      MaskZero();
    } else {
      MaskFacts(n - 1);
      Reload(v, Mask(n - 1));
      BitsOfVal(n - 1, Half(v));
      assert BitsOf(n, v)[1..] == BitsOf(n - 1, Half(v));
    }
  }

  lemma LineBitsVal(b: bv8)
    ensures Val(LineBits(b)) == b as bv16
  {
    assert b as bv16 <= Mask(8);
    BitsOfVal(8, b as bv16);
  }

  lemma StepHigh(c: bv16)
    requires c & 0xFF == 0
    ensures StepN(8, c) == c >> 8
  {
    assert Step(c) == c >> 1 && Step(c >> 1) == c >> 2 && Step(c >> 2) == c >> 3 && Step(c >> 3) == c >> 4;
    assert Step(c >> 4) == c >> 5 && Step(c >> 5) == c >> 6 && Step(c >> 6) == c >> 7 && Step(c >> 7) == c >> 8;
    hide Step;
    assert StepN(1, c >> 7) == c >> 8;
    assert StepN(2, c >> 6) == c >> 8;
    assert StepN(4, c >> 4) == StepN(2, c >> 6);
    assert StepN(6, c >> 2) == StepN(4, c >> 4);
  }

  lemma SplitLoad(c: bv16, b: bv8)
    ensures Xor(c, b as bv16) == Xor((c >> 8) << 8, Index(c, b) as bv16)
    ensures ((c >> 8) << 8) & 0xFF == 0 && ((c >> 8) << 8) >> 8 == c >> 8
  {
  }

  lemma ExchangedByte(c: bv16, b: bv8)
    ensures Update(Exchanged, c, b) == RunBits(c, LineBits(b))
  {
    hide Xor, Step, Feed, Val, Index;
    SplitLoad(c, b);
    StepNXor(8, (c >> 8) << 8, Index(c, b) as bv16);
    StepHigh((c >> 8) << 8);
    LineBitsVal(b);
    RunBitsVal(c, LineBits(b));
  }

  /** With the two table reads exchanged, the byte loop is the CRC of section 2.5.1.2. */
  lemma {:induction false} ExchangedIsBitwise(c: bv16, buf: seq<bv8>)
    ensures Run(Exchanged, c, buf) == RunBits(c, Line(buf))
    decreases |buf|
  {
    hide Update, Feed, LineBits;
    if |buf| > 0 {
      ExchangedByte(c, buf[0]);
      RunBitsConcat(c, LineBits(buf[0]), Line(buf[1..]));
      ExchangedIsBitwise(Update(Exchanged, c, buf[0]), buf[1..]);
    }
  }

  // ------------------------------------------------------------ frames

  /** The check of a received ADU: its last two bytes are the low and the high byte of the CRC of the rest. */
  predicate Accepts(w: Wiring, adu: seq<bv8>)
    requires |adu| >= 2
  {
    var c := Run(w, 0xFFFF, adu[..|adu| - 2]);
    adu[|adu| - 2] == Low(c) && adu[|adu| - 1] == High(c)
  }

  lemma UpdateLow(w: Wiring, c: bv16)
    ensures Update(w, c, Low(c)) == High(c) as bv16
    ensures Low(High(c) as bv16) == High(c)
    ensures High(c) as bv16 >> 8 == 0
  {
    assert Index(c, Low(c)) == 0;
    StepNZero(8);
  }

  lemma RunTwo(w: Wiring, c: bv16, x: bv8, y: bv8)
    ensures Run(w, c, [x, y]) == Update(w, Update(w, c, x), y)
  {
    hide Update;
    var d := Update(w, c, x);
    assert [x, y][1..] == [y];
    assert [y][1..] == [];
    assert Run(w, Update(w, d, y), []) == Update(w, d, y);
    assert Run(w, d, [y]) == Update(w, d, y);
  }

  lemma UpdateOwnBytes(w: Wiring, c: bv16)
    ensures Run(w, c, [Low(c), High(c)]) == 0
  {
    hide Update, Low, High;
    var h := High(c) as bv16;
    RunTwo(w, c, Low(c), High(c));
    UpdateLow(w, c);
    UpdateLow(w, h);
    assert Update(w, h, High(c)) == High(h) as bv16;
    assert High(h) as bv16 == 0 by { HighZero(c); }
  }

  lemma HighZero(c: bv16)
    ensures High(High(c) as bv16) == 0
  {
  }

  /** A message followed by its own CRC, low byte first, leaves the register at zero. */
  lemma ResidueZero(w: Wiring, adu: seq<bv8>)
    requires |adu| >= 2 && Accepts(w, adu)
    ensures Run(w, 0xFFFF, adu) == 0
  {
    hide Update, Low, High;
    var m := adu[..|adu| - 2];
    var c := Run(w, 0xFFFF, m);
    assert adu == m + [Low(c), High(c)];
    RunConcat(w, 0xFFFF, m, [Low(c), High(c)]);
    UpdateOwnBytes(w, c);
  }

  /** Every accepted ADU has an even number of one bits. */
  lemma AcceptedIsEven(w: Wiring, adu: seq<bv8>)
    requires |adu| >= 2 && Accepts(w, adu)
    ensures !OddSeq(adu)
  {
    hide Update, Low, High, Odd;
    ResidueZero(w, adu);
    OddRun(w, 0xFFFF, adu);
    OddUnfold(0);
    OddAllOnes();
  }

  lemma OddAllOnes()
    ensures !Odd(0xFFFF)
  {
    hide Odd;
    StepBits(0xFFFF);
    assert 0xFFFF == Xor(0xFF << 8, 0xFF);
    OddXor(0xFF << 8, 0xFF);
    OddShl8(0xFF);
  }

  lemma {:induction false} OddXorSeq(a: seq<bv8>, b: seq<bv8>)
    requires |a| == |b|
    ensures OddSeq(XorSeq(a, b)) == (OddSeq(a) != OddSeq(b))
  {
    hide OddByte, Xor8;
    if |a| > 0 {
      OddByteXor(a[0], b[0]);
      OddXorSeq(a[1..], b[1..]);
      assert XorSeq(a, b)[1..] == XorSeq(a[1..], b[1..]);
    }
  }

  /** Flipping an odd number of bits of an accepted ADU makes it a rejected one, under either wiring. */
  lemma OddErrorsRejected(w: Wiring, adu: seq<bv8>, e: seq<bv8>)
    requires |adu| == |e| >= 2 && Accepts(w, adu) && OddSeq(e)
    ensures !Accepts(w, XorSeq(adu, e))
  {
    hide Update, Low, High, Odd, Accepts;
    AcceptedIsEven(w, adu);
    OddXorSeq(adu, e);
    if Accepts(w, XorSeq(adu, e)) {
      AcceptedIsEven(w, XorSeq(adu, e));
    }
  }

  /** An error pattern that turns accepted ADUs into accepted ADUs: it carries its own linear check bytes. */
  predicate Unseen(w: Wiring, e: seq<bv8>)
    requires |e| >= 2
  {
    var c := Run(w, 0, e[..|e| - 2]);
    e[|e| - 2] == Low(c) && e[|e| - 1] == High(c)
  }

  lemma XorCancel(a: bv8, e: bv8, x: bv8)
    ensures Xor8(a, e) == Xor8(a, x) <==> e == x
  {
  }

  lemma HighXor(c: bv16, d: bv16)
    ensures High(Xor(c, d)) == Xor8(High(c), High(d))
  {
  }

  /** Whether an error goes unseen depends on the error alone, never on the message it hits. */
  lemma UnseenIff(w: Wiring, adu: seq<bv8>, e: seq<bv8>)
    requires |adu| == |e| >= 2 && Accepts(w, adu)
    ensures Accepts(w, XorSeq(adu, e)) <==> Unseen(w, e)
  {
    hide Update, Low, High, Xor, Xor8;
    var n := |adu| - 2;
    var m, f := adu[..n], e[..n];
    var c, d := Run(w, 0xFFFF, m), Run(w, 0, f);
    assert XorSeq(adu, e)[..n] == XorSeq(m, f);
    XorZero(0xFFFF);
    RunXor(w, 0xFFFF, 0, m, f);
    LowXor(c, d);
    HighXor(c, d);
    XorCancel(Low(c), e[n], Low(d));
    XorCancel(High(c), e[n + 1], High(d));
  }

  lemma UnseenLeavesZero(w: Wiring, e: seq<bv8>)
    requires |e| >= 2 && Unseen(w, e)
    ensures Run(w, 0, e) == 0
  {
    hide Update, Low, High;
    var f := e[..|e| - 2];
    var c := Run(w, 0, f);
    assert e == f + [Low(c), High(c)];
    RunConcat(w, 0, f, [Low(c), High(c)]);
    UpdateOwnBytes(w, c);
  }

  /** With the reads exchanged no burst of up to 16 line bits goes unseen. */
  lemma ExchangedSeesBursts(e: seq<bv8>, before: nat, burst: seq<bool>, after: nat)
    requires |e| >= 2 && Line(e) == Zeros(before) + burst + Zeros(after)
    requires |burst| <= 16 && exists i | 0 <= i < |burst| :: burst[i]
    ensures !Unseen(Exchanged, e)
  {
    hide Update, Low, High, Xor, Line, Zeros, Unseen, Run, RunBits;
    BurstLeavesMark(before, burst, after);
    ExchangedIsBitwise(0, e);
    if Unseen(Exchanged, e) {
      UnseenLeavesZero(Exchanged, e);
    }
  }

  // ------------------------------------------------------------ what the loop as written misses

  predicate OddFold(i: bv16) {
    var a := i ^ (i >> 4);
    var b := a ^ (a >> 2);
    (b ^ (b >> 1)) & 1 == 1
  }

  /** The table entry in closed form. */
  function Closed(i: bv16): bv16 {
    (i << 6) ^ (i << 7) ^ (if OddFold(i) then 0xC001 else 0)
  }

  lemma EightSteps(c: bv16)
    requires c < 0x100
    ensures Step(Step(Step(Step(Step(Step(Step(Step(c)))))))) == Closed(c)
  {
  }

  lemma EntryClosed(i: bv8)
    ensures Entry(i) == Closed(i as bv16)
  {
    hide Step, Closed;
    var c := i as bv16;
    EightSteps(c);
    var d := Step(Step(Step(Step(c))));
    assert StepN(8, c) == StepN(6, Step(Step(c)));
    assert StepN(6, Step(Step(c))) == StepN(4, d);
    assert StepN(4, d) == StepN(2, Step(Step(d)));
    assert StepN(1, Step(Step(Step(d)))) == Step(Step(Step(Step(d))));
  }

  /** The register after one more zero byte, in closed form. */
  function ZeroByte(c: bv16): bv16 {
    Xor(c >> 8, Swap(Closed(c & 0xFF)))
  }

  lemma ZeroByteIs(c: bv16)
    ensures Update(AsWritten, c, 0) == ZeroByte(c)
  {
    assert Index(c, 0) as bv16 == c & 0xFF;
    hide Closed, StepN, Swap, Xor, Index;
    EntryClosed(Index(c, 0));
  }

  lemma ZeroByteStable(c: bv16)
    requires ZeroByte(ZeroByte(c)) != 0
    ensures ZeroByte(ZeroByte(ZeroByte(c))) != 0 && c != 0
  {
  }

  lemma ByteMark(a: bv16)
    requires 0 < a < 0x100
    ensures ZeroByte(ZeroByte(Swap(Closed(a)))) != 0
  {
  }

  /** The two-byte errors that bring the register back to zero. */
  predicate Invisible(a: bv8, b: bv8) {
    var t := a & 1 == 1;
    (a & 2 == 2) == t && OddFold(a as bv16) == t && b == (a >> 1) ^ (a >> 2) ^ (if t then 0x3C else 0)
  }

  lemma InvisibleClosed(a: bv8, b: bv8)
    ensures (var c := Swap(Closed(a as bv16)); Xor(c >> 8, Swap(Closed(Xor(c & 0xFF, b as bv16)))) == 0)
            <==> Invisible(a, b)
  {
  }

  function ZeroBytes(n: nat): seq<bv8> {
    seq(n, i => 0)
  }

  lemma {:induction false} RunZeroBytes(w: Wiring, n: nat)
    ensures Run(w, 0, ZeroBytes(n)) == 0
  {
    if n > 0 {
      UpdateZero(w);
      assert ZeroBytes(n)[1..] == ZeroBytes(n - 1);
      hide Update;
      RunZeroBytes(w, n - 1);
    }
  }

  lemma UpdateZero(w: Wiring)
    ensures Update(w, 0, 0) == 0
  {
    StepNZero(8);
  }

  /** Once two further zero bytes cannot clear the register, no number of them can. */
  lemma {:induction false} MarkStays(c: bv16, n: nat)
    requires ZeroByte(ZeroByte(c)) != 0
    ensures Run(AsWritten, c, ZeroBytes(n)) != 0
    decreases n
  {
    hide ZeroByte, Update;
    ZeroByteStable(c);
    if n > 0 {
      ZeroByteIs(c);
      assert ZeroBytes(n)[1..] == ZeroBytes(n - 1);
      MarkStays(ZeroByte(c), n - 1);
    }
  }

  lemma FirstByte(a: bv8)
    ensures Update(AsWritten, 0, a) == Swap(Closed(a as bv16))
  {
    hide Closed, StepN;
    assert Index(0, a) == a;
    EntryClosed(a);
    XorZero(Swap(Entry(a)));
  }

  lemma WideIndex(c: bv16, b: bv8)
    ensures Index(c, b) as bv16 == Xor(c & 0xFF, b as bv16)
  {
  }

  lemma SecondByte(a: bv8, b: bv8)
    ensures Run(AsWritten, 0, [a, b]) == 0 <==> Invisible(a, b)
  {
    hide Closed, StepN, Invisible, Swap, Xor, Index;
    RunTwo(AsWritten, 0, a, b);
    FirstByte(a);
    var c := Swap(Closed(a as bv16));
    EntryClosed(Index(c, b));
    WideIndex(c, b);
    InvisibleClosed(a, b);
  }

  /** An error in the message part of an ADU: `hit` after k intact bytes, n intact ones behind it, CRC intact. */
  function MessageError(k: nat, hit: seq<bv8>, n: nat): (e: seq<bv8>)
    ensures |e| == k + |hit| + n + 2
  {
    ZeroBytes(k) + hit + ZeroBytes(n) + [0, 0]
  }

  lemma MessageErrorSeen(w: Wiring, k: nat, hit: seq<bv8>, n: nat)
    ensures Unseen(w, MessageError(k, hit, n)) <==> Run(w, Run(w, 0, hit), ZeroBytes(n)) == 0
  {
    hide Update;
    var e := MessageError(k, hit, n);
    assert e[..|e| - 2] == ZeroBytes(k) + hit + ZeroBytes(n);
    RunConcat(w, 0, ZeroBytes(k) + hit, ZeroBytes(n));
    RunConcat(w, 0, ZeroBytes(k), hit);
    RunZeroBytes(w, k);
    ZeroHalves(Run(w, 0, e[..|e| - 2]));
  }

  lemma ZeroHalves(c: bv16)
    ensures Low(c) == 0 && High(c) == 0 <==> c == 0
  {
  }

  /** Damage to a single message byte is always seen, whatever follows it. */
  lemma SingleByteSeen(k: nat, a: bv8, n: nat)
    requires a != 0
    ensures !Unseen(AsWritten, MessageError(k, [a], n))
  {
    hide Update, Closed, ZeroByte;
    MessageErrorSeen(AsWritten, k, [a], n);
    assert Run(AsWritten, Update(AsWritten, 0, a), [a][1..]) == Update(AsWritten, 0, a);
    assert Run(AsWritten, 0, [a]) == Update(AsWritten, 0, a);
    FirstByte(a);
    ByteMark(a as bv16);
    MarkStays(Swap(Closed(a as bv16)), n);
  }
}
