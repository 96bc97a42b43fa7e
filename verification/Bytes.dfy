/** Bytes, 16-bit words and packed bits, as the Modbus and CANopen code lays them out in buffers. */
module Bytes {
  type byte = x: int | 0 <= x < 256
  type word = x: int | 0 <= x < 65536

  datatype Option<+T> = None | Some(value: T)

  function Be16(hi: byte, lo: byte): word {
    hi * 256 + lo
  }

  function Hi(w: word): byte {
    w / 256
  }

  function Lo(w: word): byte {
    w % 256
  }

  lemma BePair(hi: byte, lo: byte)
    ensures Hi(Be16(hi, lo)) == hi && Lo(Be16(hi, lo)) == lo
  {
  }

  lemma BeWord(w: word)
    ensures Be16(Hi(w), Lo(w)) == w
  {
  }

  /** A counter increment on a `uint16_t`. */
  function Inc16(w: word): word {
    (w + 1) % 65536
  }

  /** The big-endian image of a run of registers. */
  function WordBytes(ws: seq<word>): (bs: seq<byte>)
    ensures |bs| == 2 * |ws|
  {
    seq(2 * |ws|, i requires 0 <= i < 2 * |ws| => if i % 2 == 0 then Hi(ws[i / 2]) else Lo(ws[i / 2]))
  }

  /** The registers held in a big-endian byte run; an odd last byte is ignored. */
  function BytesWords(bs: seq<byte>): (ws: seq<word>)
    ensures |ws| == |bs| / 2
  {
    seq(|bs| / 2, i requires 0 <= i < |bs| / 2 => Be16(bs[2 * i], bs[2 * i + 1]))
  }

  lemma WordsRoundTrip(ws: seq<word>)
    ensures BytesWords(WordBytes(ws)) == ws
  {
    hide Hi, Lo, Be16;
    var bs := WordBytes(ws);
    forall i | 0 <= i < |ws|
      ensures BytesWords(bs)[i] == ws[i]
    {
      assert bs[2 * i] == Hi(ws[i]) && bs[2 * i + 1] == Lo(ws[i]);
      BeWord(ws[i]);
    }
  }

  lemma BytesRoundTrip(bs: seq<byte>)
    requires |bs| % 2 == 0
    ensures WordBytes(BytesWords(bs)) == bs
  {
    hide Hi, Lo, Be16;
    forall i | 0 <= i < |bs|
      ensures WordBytes(BytesWords(bs))[i] == bs[i]
    {
      var j := i / 2;
      assert i == 2 * j || i == 2 * j + 1;
      assert BytesWords(bs)[j] == Be16(bs[2 * j], bs[2 * j + 1]);
      BePair(bs[2 * j], bs[2 * j + 1]);
    }
  }

  /** Appending one register appends its high byte, then its low byte. */
  lemma WordBytesSnoc(ws: seq<word>, w: word)
    ensures WordBytes(ws + [w]) == WordBytes(ws) + [Hi(w), Lo(w)]
  {
  }

  // ------------------------------------------------------------ bits

  function Pow2(k: nat): (p: nat)
    requires k < 8
    ensures p > 0
  {
    [1, 2, 4, 8, 16, 32, 64, 128][k]
  }

  /** Bit k of a byte: `(b >> k) & 1`. */
  predicate Bit(b: byte, k: nat)
    requires k < 8
  {
    (b / Pow2(k)) % 2 == 1
  }

  /** `b | (1 << k)` when `on`, `b & ~(1 << k)` otherwise. */
  function PutBit(b: byte, k: nat, on: bool): (r: byte)
    requires k < 8
    ensures Bit(r, k) == on
    ensures forall j: nat | j < 8 && j != k :: Bit(r, j) == Bit(b, j)
  {
    PutBitFacts(b, k);
    if on == Bit(b, k) then b else if on then b + Pow2(k) else b - Pow2(k)
  }

  lemma BitHalf(b: byte, k: nat)
    requires 0 < k < 8
    ensures Bit(b, k) == Bit(b / 2, k - 1)
    ensures Pow2(k) == 2 * Pow2(k - 1)
  {
    if k == 1 {
    } else if k == 2 {
      assert b / 4 == b / 2 / 2;
    } else if k == 3 {
      assert b / 8 == b / 2 / 4;
    } else if k == 4 {
      assert b / 16 == b / 2 / 8;
    } else if k == 5 {
      assert b / 32 == b / 2 / 16;
    } else if k == 6 {
      assert b / 64 == b / 2 / 32;
    } else {
      assert b / 128 == b / 2 / 64;
    }
  }

  lemma {:induction false} SetBitFacts(b: byte, k: nat, j: nat)
    requires k < 8 && j < 8 && !Bit(b, k)
    ensures b + Pow2(k) < 256
    ensures Bit(b + Pow2(k), j) == (j == k || Bit(b, j))
  {
    assert Pow2(0) == 1;
    hide Pow2, Bit;
    LowestBit(b);
    if k == 0 {
      LowestBit(b + 1);
      if j > 0 {
        assert (b + 1) / 2 == b / 2;
        BitHalf(b, j);
        BitHalf(b + 1, j);
      }
    } else {
      var h: byte := b / 2;
      BitHalf(b, k);
      SetBitFacts(h, k - 1, if j == 0 then 0 else j - 1);
      BitBelow(h + Pow2(k - 1), h, k - 1);
      var c: byte := b + Pow2(k);
      assert c / 2 == h + Pow2(k - 1);
      if j > 0 {
        BitHalf(b, j);
        BitHalf(c, j);
      } else {
        LowestBit(c);
      }
    }
  }

  lemma LowestBit(b: byte)
    ensures Bit(b, 0) <==> b % 2 == 1
  {
  }

  /** A byte below 128 stays below 128 when a bit below 7 is set. */
  lemma BitBelow(s: byte, h: byte, k: nat)
    requires h < 128 && k < 7 && !Bit(h, k) && s == h + Pow2(k)
    ensures s < 128
  {
    if k == 6 {
      assert h / 64 < 2;
    }
  }

  lemma PutBitFacts(b: byte, k: nat)
    requires k < 8
    ensures Bit(b, k) ==> b - Pow2(k) >= 0 && !Bit(b - Pow2(k), k)
    ensures !Bit(b, k) ==> b + Pow2(k) < 256 && Bit(b + Pow2(k), k)
    ensures forall j: nat | j < 8 && j != k :: Bit(b, k) ==> Bit(b - Pow2(k), j) == Bit(b, j)
    ensures forall j: nat | j < 8 && j != k :: !Bit(b, k) ==> Bit(b + Pow2(k), j) == Bit(b, j)
  {
    if Bit(b, k) {
      ClearedBit(b, k);
      var c: byte := b - Pow2(k);
      forall j: nat | j < 8 {
        SetBitFacts(c, k, j);
      }
    } else {
      forall j: nat | j < 8 {
        SetBitFacts(b, k, j);
      }
    }
  }

  lemma {:induction false} ClearedBit(b: byte, k: nat)
    requires k < 8 && Bit(b, k)
    ensures b >= Pow2(k) && !Bit(b - Pow2(k), k)
  {
    if k > 0 {
      BitHalf(b, k);
      ClearedBit(b / 2, k - 1);
      BitHalf(b - Pow2(k), k);
      assert (b - Pow2(k)) / 2 == b / 2 - Pow2(k - 1);
    }
  }

  /** A byte is its eight bits. */
  lemma {:induction false} SameBits(a: byte, b: byte)
    requires forall k: nat | k < 8 :: Bit(a, k) == Bit(b, k)
    ensures a == b
  {
    SameLowBits(a, b, 8);
  }

  lemma {:induction false} SameLowBits(a: byte, b: byte, n: nat)
    requires n <= 8
    requires n == 8 || (a < Pow2(n) && b < Pow2(n))
    requires forall k: nat | k < n :: Bit(a, k) == Bit(b, k)
    ensures a == b
  {
    if n > 0 {
      assert Bit(a, 0) == Bit(b, 0);
      var m := n - 1;
      forall k: nat | k < m
        ensures Bit(a / 2, k) == Bit(b / 2, k)
      {
        BitHalf(a, k + 1);
        BitHalf(b, k + 1);
      }
      if m > 0 && n < 8 {
        BitHalf(a, n);
      }
      SameLowBits(a / 2, b / 2, m);
    }
  }

  /** Up to eight bits in one byte, the first in the lowest place, zero above. */
  function PackByte(bits: seq<bool>): (r: byte)
    requires |bits| <= 8
    ensures forall j: nat | j < 8 :: Bit(r, j) == (j < |bits| && bits[j])
  {
    if |bits| == 0 then 0
    else PutBit(PackByte(bits[..|bits| - 1]), |bits| - 1, bits[|bits| - 1])
  }

  function Min(a: int, b: int): int {
    if a <= b then a else b
  }

  /** Bits packed eight to a byte, LSB first, the last byte padded with zeros. */
  function PackBits(bits: seq<bool>): (bs: seq<byte>)
    ensures |bs| == (|bits| + 7) / 8
  {
    seq((|bits| + 7) / 8,
        i requires 0 <= i < (|bits| + 7) / 8 => PackByte(bits[8 * i..Min(8 * i + 8, |bits|)]))
  }

  function UnpackBits(bs: seq<byte>, n: nat): (bits: seq<bool>)
    requires n <= 8 * |bs|
    ensures |bits| == n
  {
    seq(n, i requires 0 <= i < n => Bit(bs[i / 8], i % 8))
  }

  lemma PackedBit(bits: seq<bool>, i: nat, j: nat)
    requires i < (|bits| + 7) / 8 && j < 8
    ensures Bit(PackBits(bits)[i], j) == (8 * i + j < |bits| && bits[8 * i + j])
  {
    var part := bits[8 * i..Min(8 * i + 8, |bits|)];
    assert PackBits(bits)[i] == PackByte(part);
  }
}
