/** Which error bursts the CRC loop as written misses: an exact condition for every burst of up to 16 line bits,
    wherever it falls in an ADU. */
module CrcBursts {
  import opened Crc

  // ------------------------------------------------------------ the register by halves

  /** What a byte with all-zero register leaves in the low half, and in the high half. */
  function Carry(a: bv8): bv8 {
    (a >> 1) ^ (a >> 2) ^ (if OddFold(a as bv16) then 0xC0 else 0)
  }

  function Spill(a: bv8): bv8 {
    (a << 6) ^ (a << 7) ^ (if OddFold(a as bv16) then 1 else 0)
  }

  lemma EntryHalves(a: bv8)
    ensures High(Closed(a as bv16)) == Carry(a) && Low(Closed(a as bv16)) == Spill(a)
  {
  }

  lemma SwappedHalves(h: bv16, e: bv16)
    ensures Low(Xor(h >> 8, Swap(e))) == Xor8(High(h), High(e))
    ensures High(Xor(h >> 8, Swap(e))) == Low(e)
  {
  }

  /** One turn of the loop as written, half by half. */
  lemma NextHalves(c: bv16, b: bv8)
    ensures Low(Update(AsWritten, c, b)) == Xor8(High(c), Carry(Index(c, b)))
    ensures High(Update(AsWritten, c, b)) == Spill(Index(c, b))
  {
    hide StepN, Closed, Swap, Xor, Xor8, Low, High, Carry, Spill, Index;
    var i := Index(c, b);
    EntryClosed(i);
    EntryHalves(i);
    SwappedHalves(c, Closed(i as bv16));
  }

  /** The halves of the register after the error bytes a, b and c. */
  function Second(a: bv8, b: bv8): bv8 {
    Xor8(Carry(a), b)
  }

  function Third(a: bv8, b: bv8, c: bv8): bv8 {
    Xor8(Xor8(Spill(a), Carry(Second(a, b))), c)
  }

  lemma AfterOne(a: bv8)
    ensures var r := Run(AsWritten, 0, [a]);
            Low(r) == Carry(a) && High(r) == Spill(a)
  {
    hide Update, Carry, Spill;
    NextHalves(0, a);
    ZeroStart(a);
    assert [a][1..] == [];
    assert Run(AsWritten, Update(AsWritten, 0, a), []) == Update(AsWritten, 0, a);
  }

  lemma ZeroStart(a: bv8)
    ensures Index(0, a) == a && Xor8(High(0), Carry(a)) == Carry(a)
  {
  }

  lemma RunSnoc(w: Wiring, c: bv16, m: seq<bv8>, b: bv8)
    ensures Run(w, c, m + [b]) == Update(w, Run(w, c, m), b)
  {
    hide Update;
    RunConcat(w, c, m, [b]);
    var d := Run(w, c, m);
    assert [b][1..] == [];
    assert Run(w, Update(w, d, b), []) == Update(w, d, b);
  }

  lemma AfterTwo(a: bv8, b: bv8)
    ensures var r := Run(AsWritten, 0, [a, b]);
            Low(r) == Xor8(Spill(a), Carry(Second(a, b))) && High(r) == Spill(Second(a, b))
  {
    hide Update, Carry, Spill, Low, High, Xor8;
    AfterOne(a);
    assert [a, b] == [a] + [b];
    RunSnoc(AsWritten, 0, [a], b);
    NextHalves(Run(AsWritten, 0, [a]), b);
  }

  lemma AfterThree(a: bv8, b: bv8, c: bv8)
    ensures var r := Run(AsWritten, 0, [a, b, c]);
            && Low(r) == Xor8(Spill(Second(a, b)), Carry(Third(a, b, c)))
            && High(r) == Spill(Third(a, b, c))
  {
    hide Update, Carry, Spill, Low, High, Xor8, Second;
    AfterTwo(a, b);
    assert [a, b, c] == [a, b] + [c];
    RunSnoc(AsWritten, 0, [a, b], c);
    NextHalves(Run(AsWritten, 0, [a, b]), c);
  }

  // ------------------------------------------------------------ intact bytes behind the damage

  lemma FadesInTwo(r: bv16)
    ensures ZeroByte(ZeroByte(r)) == 0 <==> Invisible(Low(r), High(r))
    ensures ZeroByte(0) == 0
  {
  }

  lemma SpillBits(a: bv8)
    ensures Spill(a) & 0x3E == 0
  {
  }

  /** The loop never fills the middle of the high half, ... */
  lemma HighHalf(m: seq<bv8>)
    ensures High(Run(AsWritten, 0, m)) & 0x3E == 0
  {
    hide Update, Spill;
    if |m| == 0 {
      assert High(0) == 0;
    } else {
      var last := |m| - 1;
      assert m == m[..last] + [m[last]];
      RunSnoc(AsWritten, 0, m[..last], m[last]);
      NextHalves(Run(AsWritten, 0, m[..last]), m[last]);
      SpillBits(Index(Run(AsWritten, 0, m[..last]), m[last]));
    }
  }

  /** ... and so a register it has reached cannot fade away in intact bytes. */
  lemma NoFading(high: bv8, i: bv8)
    requires high & 0x3E == 0
    ensures Invisible(Xor8(high, Carry(i)), Spill(i)) ==> Xor8(high, Carry(i)) == 0 && Spill(i) == 0
  {
  }

  lemma MarkMade(m: seq<bv8>)
    ensures Run(AsWritten, 0, m) != 0 ==> ZeroByte(ZeroByte(Run(AsWritten, 0, m))) != 0
  {
    hide Update, ZeroByte, Invisible, Low, High, Carry, Spill, Xor8, Index;
    if |m| > 0 {
      var last := |m| - 1;
      var before := Run(AsWritten, 0, m[..last]);
      assert m == m[..last] + [m[last]];
      RunSnoc(AsWritten, 0, m[..last], m[last]);
      NextHalves(before, m[last]);
      HighHalf(m[..last]);
      NoFading(High(before), Index(before, m[last]));
      var r := Run(AsWritten, 0, m);
      FadesInTwo(r);
      ZeroHalves(r);
    }
  }

  /** Damage of any length goes unseen if and only if the register is zero right behind it: no number of intact
      message bytes makes up for it. */
  lemma DamageSettles(k: nat, hit: seq<bv8>, n: nat)
    ensures Unseen(AsWritten, MessageError(k, hit, n)) <==> Run(AsWritten, 0, hit) == 0
  {
    hide Update, ZeroByte, Unseen;
    MessageErrorSeen(AsWritten, k, hit, n);
    RunZeroBytes(AsWritten, n);
    MarkMade(hit);
    if Run(AsWritten, 0, hit) != 0 {
      MarkStays(Run(AsWritten, 0, hit), n);
    }
  }

  /** Damage to two neighbouring message bytes goes unseen exactly for the Invisible pairs, however many intact
      bytes follow. */
  lemma TwoBytesSeen(k: nat, a: bv8, b: bv8, n: nat)
    ensures Unseen(AsWritten, MessageError(k, [a, b], n)) <==> Invisible(a, b)
  {
    hide Update, Invisible, Unseen;
    DamageSettles(k, [a, b], n);
    SecondByte(a, b);
  }

  // ------------------------------------------------------------ three neighbouring bytes

  lemma TripleClears(a: bv8, u: bv8, c: bv8)
    ensures var w := Xor8(Xor8(Spill(a), Carry(u)), c);
            Xor8(Spill(u), Carry(w)) == 0 && Spill(w) == 0 <==> Invisible(u, Xor8(c, Spill(a)))
  {
  }

  /** Damage to three neighbouring message bytes, however many intact bytes follow. */
  lemma ThreeBytesSeen(k: nat, a: bv8, b: bv8, c: bv8, n: nat)
    ensures Unseen(AsWritten, MessageError(k, [a, b, c], n)) <==> Invisible(Second(a, b), Xor8(c, Spill(a)))
  {
    hide Update, Invisible, Unseen, Low, High, Carry, Spill, Second, Xor8;
    DamageSettles(k, [a, b, c], n);
    AfterThree(a, b, c);
    TripleClears(a, Second(a, b), c);
    ZeroHalves(Run(AsWritten, 0, [a, b, c]));
  }

  // ------------------------------------------------------------ any place in an ADU

  /** An error in three neighbouring bytes of an ADU, after k intact bytes and with n intact ones behind; the last
      two bytes of the ADU are its check bytes. */
  function WindowError(k: nat, a: bv8, b: bv8, c: bv8, n: nat): (e: seq<bv8>)
    ensures |e| == k + 3 + n
  {
    ZeroBytes(k) + [a, b, c] + ZeroBytes(n)
  }

  /** The triples that go unseen: over the last message byte and both check bytes, over the last two message bytes
      and the first check byte, and over three message bytes. */
  predicate HiddenWindow(a: bv8, b: bv8, c: bv8, n: nat) {
    if n == 0 then b == Carry(a) && c == Spill(a)
    else if n == 1 then Spill(Second(a, b)) == 0 && c == Xor8(Spill(a), Carry(Second(a, b)))
    else Invisible(Second(a, b), Xor8(c, Spill(a)))
  }

  lemma RunBehindZeros(k: nat, hit: seq<bv8>)
    ensures Run(AsWritten, 0, ZeroBytes(k) + hit) == Run(AsWritten, 0, hit)
  {
    hide Update;
    RunConcat(AsWritten, 0, ZeroBytes(k), hit);
    RunZeroBytes(AsWritten, k);
  }

  /** An error within any three neighbouring bytes goes unseen if and only if they are a hidden triple. */
  lemma WindowSeen(k: nat, a: bv8, b: bv8, c: bv8, n: nat)
    ensures Unseen(AsWritten, WindowError(k, a, b, c, n)) <==> HiddenWindow(a, b, c, n)
  {
    hide Update, Invisible, Low, High, Carry, Spill, Second, Xor8, Run;
    var e := WindowError(k, a, b, c, n);
    var front := e[..|e| - 2];
    if n == 0 {
      assert front == ZeroBytes(k) + [a];
      RunBehindZeros(k, [a]);
      AfterOne(a);
    } else if n == 1 {
      assert front == ZeroBytes(k) + [a, b];
      RunBehindZeros(k, [a, b]);
      AfterTwo(a, b);
    } else {
      assert e == MessageError(k, [a, b, c], n - 2);
      ThreeBytesSeen(k, a, b, c, n - 2);
    }
  }

  // ------------------------------------------------------------ bursts on the line

  lemma {:induction false} LineOfByte(e: seq<bv8>, i: nat)
    requires i < |e|
    ensures Line(e)[8 * i..8 * i + 8] == LineBits(e[i])
    decreases |e|
  {
    hide LineBits;
    var head, rest := LineBits(e[0]), Line(e[1..]);
    assert Line(e) == head + rest;
    if i > 0 {
      LineOfByte(e[1..], i - 1);
      LaterByte(head, rest, i);
    }
  }

  lemma LaterByte(head: seq<bool>, rest: seq<bool>, i: nat)
    requires |head| == 8 && 0 < i && 8 * i <= |rest|
    ensures (head + rest)[8 * i..8 * i + 8] == rest[8 * (i - 1)..8 * (i - 1) + 8]
  {
  }

  lemma {:induction false} NoOnesNoValue(bits: seq<bool>)
    requires |bits| <= 16 && forall i | 0 <= i < |bits| :: !bits[i]
    ensures Val(bits) == 0
    decreases |bits|
  {
    if |bits| > 0 {
      NoOnesNoValue(bits[1..]);
    }
  }

  lemma WideZero(b: bv8)
    requires b as bv16 == 0
    ensures b == 0
  {
  }

  lemma ByteOutside(e: seq<bv8>, before: nat, burst: seq<bool>, after: nat, i: nat)
    requires Line(e) == Zeros(before) + burst + Zeros(after) && i < |e|
    requires 8 * i + 8 <= before || before + |burst| <= 8 * i
    ensures e[i] == 0
  {
    hide Line, LineBits, Val;
    LineOfByte(e, i);
    var bits := LineBits(e[i]);
    forall j | 0 <= j < 8
      ensures !bits[j]
    {
      assert bits[j] == Line(e)[8 * i + j];
    }
    NoOnesNoValue(bits);
    LineBitsVal(e[i]);
    WideZero(e[i]);
  }

  /** Where the three bytes lie that hold a burst starting after `before` bits of an ADU of `size` bytes. */
  function WindowAt(before: nat, size: nat): (k: nat)
    requires size >= 3
    ensures k + 3 <= size
  {
    if before / 8 + 3 <= size then before / 8 else size - 3
  }

  lemma WindowCovers(before: nat, length: nat, size: nat, i: nat)
    requires size >= 3 && length <= 16 && i < size
    requires i < WindowAt(before, size) || WindowAt(before, size) + 3 <= i
    ensures 8 * i + 8 <= before || before + length <= 8 * i
  {
    var q := before / 8;
    assert 8 * q <= before <= 8 * q + 7;
  }

  lemma OnlyWindow(e: seq<bv8>, k: nat)
    requires k + 3 <= |e| && forall i | 0 <= i < |e| && !(k <= i < k + 3) :: e[i] == 0
    ensures e == WindowError(k, e[k], e[k + 1], e[k + 2], |e| - 3 - k)
  {
  }

  /** The loop as written: a burst of up to 16 line bits, anywhere in an ADU, check bytes included, goes unseen if
      and only if the three bytes it falls on are a hidden triple. */
  lemma BurstUnseenIff(e: seq<bv8>, before: nat, burst: seq<bool>, after: nat)
    requires |e| >= 3 && Line(e) == Zeros(before) + burst + Zeros(after) && |burst| <= 16
    ensures var k := WindowAt(before, |e|);
            Unseen(AsWritten, e) <==> HiddenWindow(e[k], e[k + 1], e[k + 2], |e| - 3 - k)
  {
    hide Line, Unseen, HiddenWindow, WindowAt, WindowError, Zeros;
    var k := WindowAt(before, |e|);
    forall i | 0 <= i < |e| && !(k <= i < k + 3)
      ensures e[i] == 0
    {
      WindowCovers(before, |burst|, |e|, i);
      ByteOutside(e, before, burst, after, i);
    }
    OnlyWindow(e, k);
    WindowSeen(k, e[k], e[k + 1], e[k + 2], |e| - 3 - k);
  }

  /** The same of received ADUs: a burst turns an accepted ADU into an accepted one exactly for a hidden triple. */
  lemma DamagedAccepted(adu: seq<bv8>, e: seq<bv8>, before: nat, burst: seq<bool>, after: nat)
    requires |adu| == |e| >= 3 && Accepts(AsWritten, adu)
    requires Line(e) == Zeros(before) + burst + Zeros(after) && |burst| <= 16
    ensures var k := WindowAt(before, |e|);
            Accepts(AsWritten, XorSeq(adu, e)) <==> HiddenWindow(e[k], e[k + 1], e[k + 2], |e| - 3 - k)
  {
    hide Line, Unseen, Accepts, HiddenWindow, WindowAt, Zeros;
    UnseenIff(AsWritten, adu, e);
    BurstUnseenIff(e, before, burst, after);
  }

  // ------------------------------------------------------------ a burst the standard's CRC sees

  lemma {:induction false} ExchangedMarkStays(c: bv16, n: nat)
    requires c != 0
    ensures Run(Exchanged, c, ZeroBytes(n)) != 0
    decreases n
  {
    hide Update, Step, LineBits, Val, Xor;
    if n > 0 {
      ExchangedByte(c, 0);
      RunBitsVal(c, LineBits(0));
      LineBitsVal(0);
      XorZero(c);
      StepNNonzero(8, c);
      assert ZeroBytes(n)[1..] == ZeroBytes(n - 1);
      ExchangedMarkStays(Update(Exchanged, c, 0), n - 1);
    }
  }

  lemma ExchangedPair()
    ensures Run(Exchanged, 0, [0x0C, 0x05]) != 0
  {
    hide StepN;
    RunTwo(Exchanged, 0, 0x0C, 0x05);
    EntryClosed(0x0C);
    assert Index(0, 0x0C) == 0x0C;
    var c := Closed(0x0C);
    XorZero(c);
    assert Update(Exchanged, 0, 0x0C) == c;
    EntryClosed(Index(c, 0x05));
  }

  /** The burst 0C 05 on neighbouring message bytes, anywhere in a message, goes unseen as written and is seen with
      the reads exchanged. */
  lemma WrittenMissesABurst(k: nat, n: nat)
    ensures Unseen(AsWritten, MessageError(k, [0x0C, 0x05], n))
    ensures !Unseen(Exchanged, MessageError(k, [0x0C, 0x05], n))
  {
    TwoBytesSeen(k, 0x0C, 0x05, n);
    assert Invisible(0x0C, 0x05);
    hide Invisible, Update, Unseen;
    MessageErrorSeen(Exchanged, k, [0x0C, 0x05], n);
    ExchangedPair();
    ExchangedMarkStays(Run(Exchanged, 0, [0x0C, 0x05]), n);
  }
}
