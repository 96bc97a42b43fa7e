/** When the CRC as written is the CRC of section 2.5.1.2 of Modbus over Serial Line V1.02. */
module CrcAgreement {
  import opened Crc
  import opened CrcBursts

  /** The message gets the standard's CRC. */
  predicate Agrees(m: seq<bv8>) {
    Run(AsWritten, 0xFFFF, m) == Run(Exchanged, 0xFFFF, m)
  }

  /** The standard's CRC is the one of the exchanged reads. */
  lemma AgreesIsStandard(m: seq<bv8>)
    ensures Agrees(m) <==> Run(AsWritten, 0xFFFF, m) == RunBits(0xFFFF, Line(m))
  {
    hide Update, RunBits;
    ExchangedIsBitwise(0xFFFF, m);
  }

  /** How far the two CRCs are apart. */
  function Gap(m: seq<bv8>): bv16 {
    Xor(Run(AsWritten, 0xFFFF, m), Run(Exchanged, 0xFFFF, m))
  }

  lemma NoGap(m: seq<bv8>)
    ensures Agrees(m) <==> Gap(m) == 0
  {
    XorIsZero(Run(AsWritten, 0xFFFF, m), Run(Exchanged, 0xFFFF, m));
  }

  lemma XorIsZero(a: bv16, b: bv16)
    ensures Xor(a, b) == 0 <==> a == b
  {
  }

  /** What a byte adds to the gap, in each half of it. */
  function Fold(b: bv8): bv8 {
    Xor8(Carry(b), Spill(b))
  }

  function Twice(x: bv8): bv16 {
    ((x as bv16) << 8) | (x as bv16)
  }

  lemma TwiceFacts(x: bv8, y: bv8)
    ensures Twice(x) == Twice(y) <==> x == y
    ensures Twice(0) == 0
    ensures Xor(Twice(x), Twice(y)) == Twice(Xor8(x, y))
  {
  }

  lemma SwapGap(i: bv8)
    ensures Xor(Swap(Closed(i as bv16)), Closed(i as bv16)) == Twice(Fold(i))
  {
  }

  /** Two bytes add the same if and only if they are equal or complements. */
  lemma FoldTwins(a: bv8, b: bv8)
    ensures Fold(a) == Fold(b) <==> b == a || b == Xor8(a, 0xFF)
    ensures Fold(0) == 0
  {
  }

  lemma ZeroRegister(w: Wiring, b: bv8)
    ensures Update(w, 0, b) == Cross(w, Closed(b as bv16))
  {
    hide Closed, StepN, Swap;
    assert Index(0, b) == b;
    EntryClosed(b);
    XorZero(Cross(w, Entry(b)));
  }

  lemma NextByteGap(m: seq<bv8>, b: bv8)
    ensures Gap(m + [b]) == Xor(Gap(m + [0]), Twice(Fold(b)))
  {
    hide Update, Run, Closed, Swap, Xor, Xor8, Fold, Twice;
    var c, d := Run(AsWritten, 0xFFFF, m), Run(Exchanged, 0xFFFF, m);
    RunSnoc(AsWritten, 0xFFFF, m, b);
    RunSnoc(AsWritten, 0xFFFF, m, 0);
    RunSnoc(Exchanged, 0xFFFF, m, b);
    RunSnoc(Exchanged, 0xFFFF, m, 0);
    AddByte(AsWritten, c, b);
    AddByte(Exchanged, d, b);
    ZeroRegister(AsWritten, b);
    ZeroRegister(Exchanged, b);
    SwapGap(b);
    Shuffle(Update(AsWritten, c, 0), Update(AsWritten, 0, b), Update(Exchanged, d, 0), Update(Exchanged, 0, b));
  }

  lemma AddByte(w: Wiring, c: bv16, b: bv8)
    ensures Update(w, c, b) == Xor(Update(w, c, 0), Update(w, 0, b))
  {
    hide Update, Xor;
    UpdateXor(w, c, 0, 0, b);
    XorZero(c);
    assert Xor8(0, b) == b;
  }

  /** For every message and next byte: the longer message gets the standard's CRC if and only if the byte closes the
      gap that a zero byte in its place would leave. */
  lemma NextByteAgrees(m: seq<bv8>, b: bv8)
    ensures Agrees(m + [b]) <==> Gap(m + [0]) == Twice(Fold(b))
  {
    hide Agrees, Gap, Xor, Twice, Fold;
    NextByteGap(m, b);
    NoGap(m + [b]);
    XorIsZero(Gap(m + [0]), Twice(Fold(b)));
  }

  /** At most two next bytes, a byte and its complement, give the standard's CRC. */
  lemma AtMostTwoAgree(m: seq<bv8>, b: bv8, other: bv8)
    requires Agrees(m + [b])
    ensures Agrees(m + [other]) <==> other == b || other == Xor8(b, 0xFF)
  {
    hide Agrees, Gap, Xor8, Twice, Fold;
    NextByteAgrees(m, b);
    NextByteAgrees(m, other);
    TwiceFacts(Fold(b), Fold(other));
    FoldTwins(b, other);
  }

  /** Behind a message that gets the standard's CRC, the longer one gets it if and only if the table index the next
      byte makes is 0 or 0xFF. */
  lemma AgreementGoesOn(m: seq<bv8>, b: bv8)
    requires Agrees(m)
    ensures Agrees(m + [b]) <==> Index(Run(AsWritten, 0xFFFF, m), b) == 0 || Index(Run(AsWritten, 0xFFFF, m), b) == 0xFF
  {
    hide Update, Run, Closed, StepN, Swap, Xor, Index, Fold, Twice;
    var c := Run(AsWritten, 0xFFFF, m);
    var i := Index(c, b);
    RunSnoc(AsWritten, 0xFFFF, m, b);
    RunSnoc(Exchanged, 0xFFFF, m, b);
    SameRegister(c, b);
    XorIsZero(Swap(Closed(i as bv16)), Closed(i as bv16));
    SwapGap(i);
    TwiceFacts(Fold(i), 0);
    FoldTwins(0, i);
    assert Xor8(0, 0xFF) == 0xFF;
  }

  lemma SameRegister(c: bv16, b: bv8)
    ensures var e := Closed(Index(c, b) as bv16);
            Update(AsWritten, c, b) == Update(Exchanged, c, b) <==> Swap(e) == e
  {
    hide Closed, StepN, Swap, Xor, Index;
    EntryClosed(Index(c, b));
    XorInjective(c >> 8, Swap(Closed(Index(c, b) as bv16)), Closed(Index(c, b) as bv16));
  }

  lemma XorInjective(h: bv16, x: bv16, y: bv16)
    ensures Xor(h, x) == Xor(h, y) <==> x == y
  {
  }

  /** Of the one-byte messages only 00 and FF get the standard's CRC. */
  lemma OneByteAgrees(b: bv8)
    ensures Agrees([b]) <==> b == 0 || b == 0xFF
  {
    hide Agrees, Run;
    EmptyAgrees();
    AgreementGoesOn([], b);
    assert [] + [b] == [b];
    assert Run(AsWritten, 0xFFFF, []) == 0xFFFF by {
      EmptyAgrees();
    }
    FullIndex(b);
  }

  lemma EmptyAgrees()
    ensures Agrees([]) && Run(AsWritten, 0xFFFF, []) == 0xFFFF
  {
  }

  lemma FullIndex(b: bv8)
    ensures Index(0xFFFF, b) == 0 <==> b == 0xFF
    ensures Index(0xFFFF, b) == 0xFF <==> b == 0
  {
  }

  /** A concrete message: 01 gets 0x817F, the standard has 0x807E. */
  lemma MessageOne()
    ensures Run(AsWritten, 0xFFFF, [1]) == 0x817F
    ensures Run(Exchanged, 0xFFFF, [1]) == 0x807E
  {
    EntryClosed(0xFE);
    assert [1 as bv8][1..] == [];
    assert Index(0xFFFF, 1) == 0xFE;
    assert Closed(0xFE) == 0x8081;
    hide StepN;
    assert Update(AsWritten, 0xFFFF, 1) == 0x817F;
    assert Update(Exchanged, 0xFFFF, 1) == 0x807E;
    hide Update;
    assert forall w, c :: Run(w, c, []) == c;
  }
}
