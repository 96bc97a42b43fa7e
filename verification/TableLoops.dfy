/** The loops of modbus.c over register arrays and packed bit arrays. */
module TableLoops {
  import opened Bytes
  import opened SlaveTables

  /** The bits held in a packed table, LSB first. */
  ghost function BitsOf(bs: seq<byte>): (bits: seq<bool>)
    ensures |bits| == 8 * |bs|
  {
    UnpackBits(bs, 8 * |bs|)
  }

  // ------------------------------------------------------------ registers

  /** Big-endian data into consecutive registers. */
  method WriteRegisters(regs: array<word>, at: nat, data: seq<byte>)
    requires at + |data| / 2 <= regs.Length
    modifies regs
    ensures regs[..] == Splice(old(regs[..]), at, BytesWords(data))
  {
    for i := 0 to |data| / 2
      invariant forall k | 0 <= k < regs.Length ::
                  regs[k] == if at <= k < at + i then BytesWords(data)[k - at] else old(regs[k])
    {
      regs[at + i] := Be16(data[2 * i], data[2 * i + 1]);
    }
    ghost var goal := Splice(old(regs[..]), at, BytesWords(data));
    forall k | 0 <= k < regs.Length
      ensures regs[k] == goal[k]
    {
      if at <= k < at + |data| / 2 {
        assert goal[at..at + |data| / 2][k - at] == BytesWords(data)[k - at];
      } else {
        assert goal[k] == old(regs[..])[k];
      }
    }
    assert regs[..] == goal;
  }

  method ReadRegisters(regs: array<word>, from: nat, quantity: nat) returns (out: seq<byte>)
    requires from + quantity <= regs.Length
    ensures out == WordBytes(regs[from..from + quantity])
  {
    out := [];
    for i := 0 to quantity
      invariant out == WordBytes(regs[from..from + i])
    {
      WordBytesSnoc(regs[from..from + i], regs[from + i]);
      assert regs[from..from + i] + [regs[from + i]] == regs[from..from + i + 1];
      out := out + [Hi(regs[from + i])];
      out := out + [Lo(regs[from + i])];
    }
  }

  method CopyRegisters(source: array<word>, from: nat, target: array<word>, at: nat, quantity: nat)
    requires source != target && from + quantity <= source.Length && at + quantity <= target.Length
    modifies target
    ensures target[..] == Splice(old(target[..]), at, source[from..from + quantity])
  {
    for i := 0 to quantity
      invariant forall k | 0 <= k < target.Length ::
                  target[k] == if at <= k < at + i then source[from + k - at] else old(target[k])
    {
      target[at + i] := source[from + i];
    }
    ghost var goal := Splice(old(target[..]), at, source[from..from + quantity]);
    forall k | 0 <= k < target.Length
      ensures target[k] == goal[k]
    {
      if at <= k < at + quantity {
        assert goal[at..at + quantity][k - at] == source[from..from + quantity][k - at];
      } else {
        assert goal[k] == old(target[..])[k];
      }
    }
    assert target[..] == goal;
  }

  // ------------------------------------------------------------ packed bits

  /** `modbus_bit_read`. */
  method BitRead(table: array<byte>, addr: nat) returns (bit: bool)
    ensures bit == (addr < 8 * table.Length && BitsOf(table[..])[addr])
  {
    if addr >= 8 * table.Length {
      return false;
    }
    bit := Bit(table[addr / 8], addr % 8);
  }

  lemma OneBitStored(a: seq<byte>, addr: nat, value: bool)
    requires addr < 8 * |a|
    ensures BitsOf(a[addr / 8 := PutBit(a[addr / 8], addr % 8, value)]) == BitsOf(a)[addr := value]
  {
    hide Bit, PutBit;
    var b := a[addr / 8 := PutBit(a[addr / 8], addr % 8, value)];
    forall k | 0 <= k < 8 * |a|
      ensures BitsOf(b)[k] == BitsOf(a)[addr := value][k]
    {
      assert BitsOf(b)[k] == Bit(b[k / 8], k % 8);
      if k / 8 == addr / 8 && k != addr {
        assert k % 8 != addr % 8;
      }
    }
  }

  /** `modbus_bit_write`. */
  method BitWrite(table: array<byte>, addr: nat, value: bool)
    modifies table
    ensures addr < 8 * table.Length ==> BitsOf(table[..]) == old(BitsOf(table[..]))[addr := value]
    ensures addr >= 8 * table.Length ==> table[..] == old(table[..])
  {
    hide Bit, PutBit, UnpackBits;
    if addr >= 8 * table.Length {
      return;
    }
    OneBitStored(table[..], addr, value);
    table[addr / 8] := PutBit(table[addr / 8], addr % 8, value);
    assert table[..] == old(table[..])[addr / 8 := PutBit(old(table[addr / 8]), addr % 8, value)];
  }

  lemma SpliceSnoc(s: seq<bool>, at: nat, part: seq<bool>, b: bool)
    requires at + |part| < |s|
    ensures Splice(s, at, part + [b]) == Splice(s, at, part)[at + |part| := b]
  {
  }

  /** Packed data into consecutive bits. */
  method WriteBits(table: array<byte>, at: nat, data: seq<byte>, quantity: nat)
    requires at + quantity <= 8 * table.Length && quantity <= 8 * |data|
    modifies table
    ensures BitsOf(table[..]) == Splice(old(BitsOf(table[..])), at, UnpackBits(data, quantity))
  {
    hide Bit, BitsOf;
    ghost var was := BitsOf(table[..]);
    for i := 0 to quantity
      invariant BitsOf(table[..]) == Splice(was, at, UnpackBits(data, i))
    {
      var val := Bit(data[i / 8], i % 8);
      SpliceSnoc(was, at, UnpackBits(data, i), val);
      assert UnpackBits(data, i) + [val] == UnpackBits(data, i + 1);
      BitWrite(table, at + i, val);
    }
  }

  /** Up to eight consecutive bits into one byte. */
  method GatherByte(table: array<byte>, from: nat, count: nat) returns (val: byte)
    requires count <= 8 && from + count <= 8 * table.Length
    ensures val == PackByte(BitsOf(table[..])[from..from + count])
  {
    hide Bit, BitsOf;
    val := 0;
    ghost var bits := BitsOf(table[..]);
    for b := 0 to count
      invariant val == PackByte(bits[from..from + b])
    {
      var bit := BitRead(table, from + b);
      assert bits[from..from + b + 1][..b] == bits[from..from + b];
      if bit {
        val := PutBit(val, b, true);
      } else {
        NoBitYet(bits[from..from + b], val);
      }
    }
  }

  lemma NoBitYet(bits: seq<bool>, val: byte)
    requires |bits| < 8 && val == PackByte(bits)
    ensures PutBit(val, |bits|, false) == val
  {
    assert !Bit(val, |bits|);
  }

  lemma PackedSoFar(bits: seq<bool>, i: nat)
    requires i < (|bits| + 7) / 8
    ensures PackBits(bits)[..i + 1] == PackBits(bits)[..i] + [PackByte(bits[8 * i..Min(8 * i + 8, |bits|)])]
  {
  }

  lemma SliceOfSlice<T>(s: seq<T>, from: nat, to: nat, a: nat, b: nat)
    requires from <= to <= |s| && a <= b <= to - from
    ensures s[from..to][a..b] == s[from + a..from + b]
  {
    var part := s[from..to];
    assert forall k | 0 <= k < b - a :: part[a..b][k] == s[from + a..from + b][k];
  }

  /** Consecutive bits into packed data, zero in the places past the last one. */
  method ReadBits(table: array<byte>, from: nat, quantity: nat) returns (out: seq<byte>)
    requires from + quantity <= 8 * table.Length
    ensures out == PackBits(BitsOf(table[..])[from..from + quantity])
  {
    hide Bit, BitsOf, PackBits, PackByte;
    out := [];
    ghost var bits := BitsOf(table[..])[from..from + quantity];
    for i := 0 to (quantity + 7) / 8
      invariant out == PackBits(bits)[..i]
    {
      PackedSoFar(bits, i);
      var end := Min(8 * i + 8, quantity);
      SliceOfSlice(BitsOf(table[..]), from, from + quantity, 8 * i, end);
      var val := GatherByte(table, from + 8 * i, end - 8 * i);
      out := out + [val];
    }
    assert out == PackBits(bits);
  }
}
