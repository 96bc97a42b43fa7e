/** What every request comes to, read off its bytes with plain arithmetic and said table entry by table entry. */
module Requests {
  import opened Bytes
  import opened SlaveTables
  import Pdu
  import Effects

  /** The big-endian number at a position of a message. */
  function U16(bs: seq<byte>, at: nat): nat
    requires at + 2 <= |bs|
  {
    256 * (bs[at] as int) + bs[at + 1] as int
  }

  /** The request draws an exception and changes nothing. */
  predicate Refused(r: (Tables, seq<byte>), t: Tables, req: seq<byte>, code: byte)
    requires 1 <= |req| && req[0] < 128
  {
    r == (t, [req[0] + 128, code])
  }

  lemma RefusedByException(t: Tables, req: seq<byte>, code: byte)
    requires 1 <= |req| && req[0] < 128
    ensures Refused((t, Exception(req[0], code)), t, req, code)
  {
  }

  lemma Number(req: seq<byte>, at: nat)
    requires at + 2 <= |req|
    ensures Be16(req[at], req[at + 1]) == U16(req, at)
  {
  }

  lemma Range(start: word, quantity: word, size: nat)
    requires quantity >= 1
    ensures RangeValid(start, quantity, size) <==> start + quantity <= size
  {
  }

  // ------------------------------------------------------------ reads

  /** What a refresh leaves: the board inputs in discrete inputs 0 to 7. */
  predicate InputsRefreshed(t: Tables, u: Tables, di: byte)
    requires t.Valid() && u.Valid()
  {
    u == t.(discrete := u.discrete)
    && forall i | 0 <= i < 128 :: u.discrete[i] == if i < 8 then Bit(di, i) else t.discrete[i]
  }

  /** Holding registers 100 to 103 in input registers 0 to 3. */
  predicate AnalogRefreshed(t: Tables, u: Tables)
    requires t.Valid() && u.Valid()
  {
    u == t.(input := u.input)
    && forall i | 0 <= i < 256 :: u.input[i] == if i < 4 then t.holding[100 + i] else t.input[i]
  }

  lemma DiscreteIsRefreshed(t: Tables, di: byte)
    requires t.Valid()
    ensures InputsRefreshed(t, RefreshDiscrete(t, di), di)
  {
    hide Bit;
    var u := RefreshDiscrete(t, di);
    forall i | 0 <= i < 128
      ensures u.discrete[i] == if i < 8 then Bit(di, i) else t.discrete[i]
    {
      if i < 8 {
        assert u.discrete[i] == u.discrete[0..0 + 8][i];
      }
    }
  }

  lemma InputIsRefreshed(t: Tables)
    requires t.Valid()
    ensures AnalogRefreshed(t, RefreshInput(t))
  {
    var u := RefreshInput(t);
    forall i | 0 <= i < 256
      ensures u.input[i] == if i < 4 then t.holding[100 + i] else t.input[i]
    {
      if i < 4 {
        assert u.input[i] == u.input[0..0 + 4][i];
      }
    }
  }

  /** A read request for at most `most` items of a table of `size`: 03 for a bad length or quantity, 02 for a range
      that does not fit. */
  function ReadRefusal(req: seq<byte>, most: nat, size: nat): (code: Option<byte>) {
    if |req| != 5 || U16(req, 3) == 0 || U16(req, 3) > most then Some(3)
    else if U16(req, 1) + U16(req, 3) > size then Some(2)
    else None
  }

  lemma FaultIsRefusal(req: seq<byte>, most: nat, size: nat)
    ensures Pdu.RangeFault(req, most, size) == ReadRefusal(req, most, size)
  {
    hide Be16, RangeValid;
    if |req| == 5 {
      Number(req, 1);
      Number(req, 3);
      if Pdu.Quantity(req) >= 1 {
        Range(Pdu.Start(req), Pdu.Quantity(req), size);
      }
    }
  }

  /** The data bits of a reply, LSB first. */
  predicate DataBit(pdu: seq<byte>, k: nat)
    requires 2 + k / 8 < |pdu|
  {
    Bit(pdu[2 + k / 8], k % 8)
  }

  /** The bits of a reply are those of the table from `start`, with zeros behind them. */
  predicate CarriesBits(pdu: seq<byte>, fc: byte, table: seq<bool>, start: nat, count: nat) {
    && start + count <= |table| && count <= 2000
    && |pdu| == 2 + (count + 7) / 8 && pdu[0] == fc && pdu[1] == (count + 7) / 8
    && forall k: nat | k < 8 * (pdu[1] as int) :: DataBit(pdu, k) == (k < count && table[start + k])
  }

  /** The words of a reply are those of the table from `start`. */
  predicate CarriesWords(pdu: seq<byte>, fc: byte, table: seq<word>, start: nat, count: nat) {
    && start + count <= |table|
    && |pdu| == 2 + 2 * count && pdu[0] == fc && pdu[1] == 2 * count
    && forall i | 0 <= i < count :: U16(pdu, 2 + 2 * i) == table[start + i]
  }

  lemma BitsCarried(fc: byte, table: seq<bool>, start: nat, count: nat)
    requires start + count <= |table| && count <= 2000
    ensures CarriesBits(Pdu.BitsPdu(fc, table[start..start + count]), fc, table, start, count)
  {
    hide Bit, PackBits;
    var bits := table[start..start + count];
    var pdu := Pdu.BitsPdu(fc, bits);
    forall k: nat | k < 8 * (pdu[1] as int)
      ensures DataBit(pdu, k) == (k < count && table[start + k])
    {
      PackedBit(bits, k / 8, k % 8);
      assert pdu[2 + k / 8] == PackBits(bits)[k / 8];
    }
  }

  lemma WordsCarried(fc: byte, table: seq<word>, start: nat, count: nat)
    requires start + count <= |table| && count <= 125
    ensures CarriesWords(Pdu.RegistersPdu(fc, table[start..start + count]), fc, table, start, count)
  {
    var ws := table[start..start + count];
    var pdu := Pdu.RegistersPdu(fc, ws);
    forall i | 0 <= i < count
      ensures U16(pdu, 2 + 2 * i) == table[start + i]
    {
      assert pdu[2 + 2 * i] == WordBytes(ws)[2 * i] && pdu[2 + 2 * i + 1] == WordBytes(ws)[2 * i + 1];
      assert ws[i] == table[start + i];
    }
  }

  /** FC 0x01 answers with the coils. */
  lemma ReadCoils(t: Tables, req: seq<byte>, di: byte)
    requires t.Valid() && |req| >= 1 && req[0] == 0x01
    ensures var r := Pdu.Execute(t, req, di);
            match ReadRefusal(req, 2000, 128)
            case Some(code) => Refused(r, t, req, code)
            case None => r.0 == t && CarriesBits(r.1, 0x01, t.coils, U16(req, 1), U16(req, 3))
  {
    hide Be16, Pdu.BitsPdu, CarriesBits, Exception, Refused, RefreshDiscrete;
    FaultIsRefusal(req, 2000, 128);
    RefusedByException(t, req, 2);
    RefusedByException(t, req, 3);
    if ReadRefusal(req, 2000, 128) == None {
      Number(req, 1);
      Number(req, 3);
      BitsCarried(0x01, t.coils, U16(req, 1), U16(req, 3));
    }
  }

  /** FC 0x02 answers with the discrete inputs, the first eight of which are the board inputs of this moment. */
  lemma ReadDiscrete(t: Tables, req: seq<byte>, di: byte)
    requires t.Valid() && |req| >= 1 && req[0] == 0x02
    ensures var r := Pdu.Execute(t, req, di);
            match ReadRefusal(req, 2000, 128)
            case Some(code) => Refused(r, t, req, code)
            case None => InputsRefreshed(t, r.0, di)
                         && CarriesBits(r.1, 0x02, r.0.discrete, U16(req, 1), U16(req, 3))
  {
    hide Be16, Pdu.BitsPdu, CarriesBits, Exception, Refused, InputsRefreshed, RefreshDiscrete;
    FaultIsRefusal(req, 2000, 128);
    RefusedByException(t, req, 2);
    RefusedByException(t, req, 3);
    if ReadRefusal(req, 2000, 128) == None {
      Number(req, 1);
      Number(req, 3);
      DiscreteIsRefreshed(t, di);
      BitsCarried(0x02, RefreshDiscrete(t, di).discrete, U16(req, 1), U16(req, 3));
    }
  }

  /** FC 0x03 answers with the holding registers. */
  lemma ReadHolding(t: Tables, req: seq<byte>, di: byte)
    requires t.Valid() && |req| >= 1 && req[0] == 0x03
    ensures var r := Pdu.Execute(t, req, di);
            match ReadRefusal(req, 125, 256)
            case Some(code) => Refused(r, t, req, code)
            case None => r.0 == t && CarriesWords(r.1, 0x03, t.holding, U16(req, 1), U16(req, 3))
  {
    hide Be16, Pdu.RegistersPdu, CarriesWords, Exception, Refused, RefreshInput;
    FaultIsRefusal(req, 125, 256);
    RefusedByException(t, req, 2);
    RefusedByException(t, req, 3);
    if ReadRefusal(req, 125, 256) == None {
      Number(req, 1);
      Number(req, 3);
      WordsCarried(0x03, t.holding, U16(req, 1), U16(req, 3));
    }
  }

  /** FC 0x04 answers with the input registers, the first four of which mirror holding registers 100 to 103: for every
      start and quantity word i is holding register 100 + start + i below input register 4, and the input register as
      it stood above. */
  lemma ReadInput(t: Tables, req: seq<byte>, di: byte)
    requires t.Valid() && |req| >= 1 && req[0] == 0x04
    ensures var r := Pdu.Execute(t, req, di);
            match ReadRefusal(req, 125, 256)
            case Some(code) => Refused(r, t, req, code)
            case None =>
              var start, count := U16(req, 1), U16(req, 3);
              && AnalogRefreshed(t, r.0)
              && |r.1| == 2 + 2 * count && r.1[0] == 0x04 && r.1[1] == 2 * count
              && forall i | 0 <= i < count ::
                   U16(r.1, 2 + 2 * i) == if start + i < 4 then t.holding[100 + start + i] else t.input[start + i]
  {
    hide Be16, Pdu.RegistersPdu, Exception, Refused, RefreshInput;
    FaultIsRefusal(req, 125, 256);
    RefusedByException(t, req, 2);
    RefusedByException(t, req, 3);
    if ReadRefusal(req, 125, 256) == None {
      Number(req, 1);
      Number(req, 3);
      InputIsRefreshed(t);
      WordsCarried(0x04, RefreshInput(t).input, U16(req, 1), U16(req, 3));
    }
  }

  /** FC 0x07 answers with the board inputs, and refreshes their mirror. */
  lemma ReadStatus(t: Tables, req: seq<byte>, di: byte)
    requires t.Valid() && |req| >= 1 && req[0] == 0x07
    ensures var r := Pdu.Execute(t, req, di);
            if |req| != 1 then Refused(r, t, req, 3) else InputsRefreshed(t, r.0, di) && r.1 == [0x07, di]
  {
    hide InputsRefreshed, RefreshDiscrete, PackByte;
    DiscreteIsRefreshed(t, di);
    if |req| == 1 {
      Effects.StatusMirrorsInputs(t, di);
      assert req == [Pdu.READ_STATUS];
    }
  }

  // ------------------------------------------------------------ writes

  /** What the write hook does to everything else, given the new coils and holding registers: the outputs follow them,
      the inputs are refreshed, files and queues stay. */
  predicate Hooked(t: Tables, u: Tables, di: byte)
    requires t.Valid() && u.Valid()
  {
    && u.files == t.files && u.fifos == t.fifos
    && u.outputs.digital == u.coils[..8] && u.outputs.relays == u.coils[8..12] && u.outputs.analog == u.holding[..2]
    && (forall i | 0 <= i < 128 :: u.discrete[i] == if i < 8 then Bit(di, i) else t.discrete[i])
    && (forall i | 0 <= i < 256 :: u.input[i] == if i < 4 then u.holding[100 + i] else t.input[i])
  }

  lemma SyncIsHook(t: Tables, v: Tables, di: byte)
    requires t.Valid() && v.Valid() && v == t.(coils := v.coils, holding := v.holding)
    ensures var u := Sync(v, di); u.coils == v.coils && u.holding == v.holding && Hooked(t, u, di)
  {
    hide Bit, RefreshDiscrete, RefreshInput;
    var driven := v.(outputs := OutputsOf(v));
    DiscreteIsRefreshed(driven, di);
    InputIsRefreshed(RefreshDiscrete(driven, di));
  }

  /** FC 0x05 switches one coil; 03 for a bad length or a value other than 0000 and FF00, 02 past the table. */
  lemma WriteCoil(t: Tables, req: seq<byte>, di: byte)
    requires t.Valid() && |req| >= 1 && req[0] == 0x05
    ensures var r := Pdu.Execute(t, req, di);
            if |req| != 5 || (U16(req, 3) != 0 && U16(req, 3) != 0xFF00) then Refused(r, t, req, 3)
            else if U16(req, 1) >= 128 then Refused(r, t, req, 2)
            else
              && r.1 == req && Hooked(t, r.0, di) && r.0.holding == t.holding
              && forall c | 0 <= c < 128 ::
                   r.0.coils[c] == if c == U16(req, 1) then U16(req, 3) == 0xFF00 else t.coils[c]
  {
    hide Be16, Sync, Hooked, Exception, Refused;
    RefusedByException(t, req, 2);
    RefusedByException(t, req, 3);
    if |req| == 5 {
      Number(req, 1);
      Number(req, 3);
      if U16(req, 1) < 128 {
        SyncIsHook(t, t.(coils := t.coils[U16(req, 1) := U16(req, 3) == 0xFF00]), di);
      }
    }
  }

  /** FC 0x06 sets one register; 03 for a bad length, 02 past the table. */
  lemma WriteRegister(t: Tables, req: seq<byte>, di: byte)
    requires t.Valid() && |req| >= 1 && req[0] == 0x06
    ensures var r := Pdu.Execute(t, req, di);
            if |req| != 5 then Refused(r, t, req, 3)
            else if U16(req, 1) >= 256 then Refused(r, t, req, 2)
            else
              && r.1 == req && Hooked(t, r.0, di) && r.0.coils == t.coils
              && forall k | 0 <= k < 256 ::
                   r.0.holding[k] == if k == U16(req, 1) then U16(req, 3) else t.holding[k]
  {
    hide Be16, Sync, Hooked, Exception, Refused;
    RefusedByException(t, req, 2);
    RefusedByException(t, req, 3);
    if |req| == 5 {
      Number(req, 1);
      Number(req, 3);
      if U16(req, 1) < 256 {
        SyncIsHook(t, t.(holding := t.holding[U16(req, 1) := Pdu.Quantity(req)]), di);
      }
    }
  }

  /** A write-multiple request for at most `most` items into a table of `size`, taking `bytes` data bytes: the range is
      checked before the byte count. */
  function WriteRefusal(req: seq<byte>, most: nat, size: nat, bytes: nat): (code: Option<byte>) {
    if |req| < 6 || U16(req, 3) == 0 || U16(req, 3) > most then Some(3)
    else if U16(req, 1) + U16(req, 3) > size then Some(2)
    else if req[5] != bytes || |req| != 6 + bytes then Some(3)
    else None
  }

  lemma FaultIsWriteRefusal(req: seq<byte>, most: nat, size: nat, bytes: nat)
    ensures Pdu.WriteFault(req, most, size, bytes) == WriteRefusal(req, most, size, bytes)
  {
    hide Be16, RangeValid;
    if |req| >= 6 {
      Number(req, 1);
      Number(req, 3);
      if Pdu.Quantity(req) >= 1 {
        Range(Pdu.Start(req), Pdu.Quantity(req), size);
      }
    }
  }

  /** FC 0x0F switches a run of coils, LSB first. */
  lemma WriteCoils(t: Tables, req: seq<byte>, di: byte)
    requires t.Valid() && |req| >= 1 && req[0] == 0x0F
    ensures var r := Pdu.Execute(t, req, di);
            match WriteRefusal(req, 1968, 128, if |req| < 6 then 0 else (U16(req, 3) + 7) / 8)
            case Some(code) => Refused(r, t, req, code)
            case None =>
              var start, count := U16(req, 1), U16(req, 3);
              && r.1 == req[..5] && Hooked(t, r.0, di) && r.0.holding == t.holding
              && forall c | 0 <= c < 128 ::
                   r.0.coils[c] == if start <= c < start + count then Bit(req[6 + (c - start) / 8], (c - start) % 8)
                                   else t.coils[c]
  {
    hide Be16, Sync, Hooked, Exception, Refused, Bit, UnpackBits, Splice;
    var bytes := if |req| < 6 then 0 else (U16(req, 3) + 7) / 8;
    RefusedByException(t, req, 2);
    RefusedByException(t, req, 3);
    if |req| >= 5 {
      Number(req, 1);
      Number(req, 3);
    }
    if |req| >= 6 {
      assert Pdu.CoilBytes(req) == bytes;
    }
    FaultIsWriteRefusal(req, 1968, 128, Pdu.CoilBytes(req));
    if WriteRefusal(req, 1968, 128, bytes) == None {
      var start, count := U16(req, 1), U16(req, 3);
      var bits := UnpackBits(req[6..], Pdu.Quantity(req));
      SyncIsHook(t, t.(coils := Splice(t.coils, start, bits)), di);
      SplicedBits(t.coils, start, req[6..], count);
    }
  }

  lemma SplicedBits(coils: seq<bool>, start: nat, data: seq<byte>, count: nat)
    requires start + count <= |coils| && count <= 8 * |data|
    ensures var r := Splice(coils, start, UnpackBits(data, count));
            forall c | 0 <= c < |coils| ::
              r[c] == if start <= c < start + count then Bit(data[(c - start) / 8], (c - start) % 8) else coils[c]
  {
    hide Bit;
    var bits := UnpackBits(data, count);
    var r := Splice(coils, start, bits);
    forall c | start <= c < start + count
      ensures r[c] == Bit(data[(c - start) / 8], (c - start) % 8)
    {
      assert r[c] == r[start..start + |bits|][c - start] == bits[c - start];
    }
  }

  lemma SplicedWords(regs: seq<word>, start: nat, data: seq<byte>, count: nat)
    requires start + count <= |regs| && |data| == 2 * count
    ensures var r := Splice(regs, start, BytesWords(data));
            forall k | 0 <= k < |regs| ::
              r[k] == if start <= k < start + count then U16(data, 2 * (k - start)) else regs[k]
  {
    var ws := BytesWords(data);
    var r := Splice(regs, start, ws);
    forall k | start <= k < start + count
      ensures r[k] == U16(data, 2 * (k - start))
    {
      assert r[k] == r[start..start + |ws|][k - start] == ws[k - start];
    }
  }

  /** FC 0x10 sets a run of registers. */
  lemma WriteRegisters(t: Tables, req: seq<byte>, di: byte)
    requires t.Valid() && |req| >= 1 && req[0] == 0x10
    ensures var r := Pdu.Execute(t, req, di);
            match WriteRefusal(req, 123, 256, if |req| < 6 then 0 else 2 * U16(req, 3))
            case Some(code) => Refused(r, t, req, code)
            case None =>
              var start, count := U16(req, 1), U16(req, 3);
              && r.1 == req[..5] && Hooked(t, r.0, di) && r.0.coils == t.coils
              && forall k | 0 <= k < 256 ::
                   r.0.holding[k] == if start <= k < start + count then U16(req, 6 + 2 * (k - start))
                                     else t.holding[k]
  {
    hide Be16, Sync, Hooked, Exception, Refused, BytesWords, Splice;
    var bytes := if |req| < 6 then 0 else 2 * U16(req, 3);
    RefusedByException(t, req, 2);
    RefusedByException(t, req, 3);
    if |req| >= 5 {
      Number(req, 1);
      Number(req, 3);
    }
    if |req| >= 6 {
      assert Pdu.RegisterBytes(req) == bytes;
    }
    FaultIsWriteRefusal(req, 123, 256, Pdu.RegisterBytes(req));
    if WriteRefusal(req, 123, 256, bytes) == None {
      var start, count := U16(req, 1), U16(req, 3);
      SyncIsHook(t, t.(holding := Splice(t.holding, start, BytesWords(req[6..]))), di);
      SplicedWords(t.holding, start, req[6..], count);
    }
  }

  /** FC 0x16 changes one register: the bits the AND mask selects stay, the others come from the OR mask. */
  lemma MaskWrite(t: Tables, req: seq<byte>, di: byte)
    requires t.Valid() && |req| >= 1 && req[0] == 0x16
    ensures var r := Pdu.Execute(t, req, di);
            if |req| != 7 then Refused(r, t, req, 3)
            else if U16(req, 1) >= 256 then Refused(r, t, req, 2)
            else
              var at, andMask, orMask := U16(req, 1), U16(req, 3), U16(req, 5);
              && r.1 == req && Hooked(t, r.0, di) && r.0.coils == t.coils
              && Effects.Selected(r.0.holding[at], andMask) == Effects.Selected(t.holding[at], andMask)
              && Effects.Unselected(r.0.holding[at], andMask) == Effects.Unselected(orMask, andMask)
              && forall k | 0 <= k < 256 && k != at :: r.0.holding[k] == t.holding[k]
  {
    hide Be16, Sync, Hooked, Exception, Refused, Pdu.Masked, Effects.Selected, Effects.Unselected;
    RefusedByException(t, req, 2);
    RefusedByException(t, req, 3);
    if |req| == 7 {
      Number(req, 1);
      Number(req, 3);
      Number(req, 5);
      var at := U16(req, 1);
      if at < 256 {
        var w := Pdu.Masked(t.holding[at], Be16(req[3], req[4]), Be16(req[5], req[6]));
        SyncIsHook(t, t.(holding := t.holding[at := w]), di);
        Effects.MaskedSelects(t.holding[at], Be16(req[3], req[4]), Be16(req[5], req[6]));
      }
    }
  }

  /** FC 0x17 writes a run of registers and answers with another one as it stands afterwards. */
  lemma ReadWrite(t: Tables, req: seq<byte>, di: byte)
    requires t.Valid() && |req| >= 1 && req[0] == 0x17
    ensures var r := Pdu.Execute(t, req, di);
            if |req| < 10 then Refused(r, t, req, 3)
            else
              var from, count, to, n := U16(req, 1), U16(req, 3), U16(req, 5), U16(req, 7);
              if count == 0 || count > 125 || n == 0 || n > 121 || req[9] != 2 * n || |req| != 10 + 2 * n
              then Refused(r, t, req, 3)
              else if from + count > 256 || to + n > 256 then Refused(r, t, req, 2)
              else
                && Hooked(t, r.0, di) && r.0.coils == t.coils
                && (forall k | 0 <= k < 256 ::
                      r.0.holding[k] == if to <= k < to + n then U16(req, 10 + 2 * (k - to)) else t.holding[k])
                && CarriesWords(r.1, 0x17, r.0.holding, from, count)
  {
    hide Be16, Sync, Hooked, Exception, Refused, BytesWords, Splice, Pdu.RegistersPdu, CarriesWords;
    RefusedByException(t, req, 2);
    RefusedByException(t, req, 3);
    if |req| >= 10 {
      Number(req, 1);
      Number(req, 3);
      Number(req, 5);
      Number(req, 7);
      if Pdu.ReadWriteShape(req) && U16(req, 1) + U16(req, 3) <= 256 && U16(req, 5) + U16(req, 7) <= 256 {
        var v := t.(holding := Splice(t.holding, U16(req, 5), BytesWords(req[10..])));
        SyncIsHook(t, v, di);
        SplicedWords(t.holding, U16(req, 5), req[10..], U16(req, 7));
        WordsCarried(0x17, v.holding, U16(req, 1), U16(req, 3));
      }
    }
  }

  // ------------------------------------------------------------ queues, identification, everything else

  /** FC 0x18 answers with one of the two queues, oldest entry first, and leaves it. */
  lemma ReadQueue(t: Tables, req: seq<byte>, di: byte)
    requires t.Valid() && |req| >= 1 && req[0] == 0x18
    ensures var r := Pdu.Execute(t, req, di);
            if |req| != 3 then Refused(r, t, req, 3)
            else if U16(req, 1) >= 2 then Refused(r, t, req, 2)
            else
              var queue := t.fifos[U16(req, 1)];
              && r.0 == t && |r.1| == 5 + 2 * |queue| && r.1[0] == 0x18
              && U16(r.1, 1) == 2 + 2 * |queue| && U16(r.1, 3) == |queue|
              && forall i | 0 <= i < |queue| :: U16(r.1, 5 + 2 * i) == queue[i]
  {
    if |req| == 3 && U16(req, 1) < 2 {
      var queue := t.fifos[U16(req, 1)];
      var pdu := Pdu.FifoPdu(0x18, queue);
      forall i | 0 <= i < |queue|
        ensures U16(pdu, 5 + 2 * i) == queue[i]
      {
        assert pdu[5 + 2 * i] == WordBytes(queue)[2 * i] && pdu[5 + 2 * i + 1] == WordBytes(queue)[2 * i + 1];
      }
    }
  }

  /** The characters of a text. */
  function Ascii(text: string): (bs: seq<byte>)
    ensures |bs| == |text|
  {
    seq(|text|, i requires 0 <= i < |text| => if text[i] < 128 as char then text[i] as int else 0)
  }

  const VENDOR := "xAI"
  const PRODUCT := "STM32 Automation Board"
  const REVISION := "1.0.0"

  /** An identification object: its number, its length, its text. */
  function Object(id: byte, text: string): seq<byte>
    requires |text| < 256
  {
    [id, |text|] + Ascii(text)
  }

  /** The identification objects from `first` to the last one, or that one alone. */
  function Objects(first: nat, alone: bool): seq<byte> {
    if alone then
      if first == 0 then Object(0, VENDOR) else if first == 1 then Object(1, PRODUCT) else Object(2, REVISION)
    else if first == 0 then Object(0, VENDOR) + Object(1, PRODUCT) + Object(2, REVISION)
    else if first == 1 then Object(1, PRODUCT) + Object(2, REVISION)
    else Object(2, REVISION)
  }

  /** FC 0x2B answers a read of the device identification: one object by itself with code 4, else all from the one
      asked for, or from the first when it does not exist. */
  lemma Identify(t: Tables, req: seq<byte>, di: byte)
    requires t.Valid() && |req| >= 1 && req[0] == 0x2B
    ensures var r := Pdu.Execute(t, req, di);
            if |req| < 4 then Refused(r, t, req, 3)
            else if req[1] != 0x0E then Refused(r, t, req, 1)
            else if req[2] == 0 || req[2] > 4 then Refused(r, t, req, 3)
            else if req[2] == 4 && req[3] > 2 then Refused(r, t, req, 2)
            else
              var first := if req[3] > 2 then 0 else req[3];
              && r.0 == t
              && r.1 == [0x2B, 0x0E, req[2], 0x81, 0, 0, if req[2] == 4 then 1 else 3 - first]
                        + Objects(first, req[2] == 4)
  {
    hide Pdu.DeviceObjects, Objects;
    ObjectTexts();
    if |req| >= 4 && 1 <= req[2] <= 4 {
      var first := if req[3] > 2 then 0 else req[3];
      ObjectRuns(first);
    }
  }

  lemma ObjectTexts()
    ensures Ascii(VENDOR) == Pdu.DeviceObject(0)
    ensures Ascii(PRODUCT) == Pdu.DeviceObject(1)
    ensures Ascii(REVISION) == Pdu.DeviceObject(2)
  {
  }

  lemma ObjectRuns(first: nat)
    requires first <= 2
    ensures Pdu.DeviceObjects(first, first) == Objects(first, true)
    ensures Pdu.DeviceObjects(first, 2) == Objects(first, false)
  {
    hide Pdu.DeviceObject, Ascii;
    ObjectTexts();
  }

  /** Every other function code is refused with exception 01, its highest bit set. */
  lemma Unsupported(t: Tables, req: seq<byte>, di: byte)
    requires t.Valid() && |req| >= 1
    requires req[0] !in {0x01, 0x02, 0x03, 0x04, 0x05, 0x06, 0x07, 0x0F, 0x10, 0x14, 0x15, 0x16, 0x17, 0x18, 0x2B}
    ensures Pdu.Execute(t, req, di) == (t, [if req[0] < 128 then req[0] + 128 else req[0], 1])
  {
  }

  /** At power-up every register and coil reads as zero, and both queues are empty. */
  lemma PowerUpReadsZero(req: seq<byte>, di: byte)
    requires |req| == 5
    ensures req[0] in {0x03, 0x04} && ReadRefusal(req, 125, 256) == None ==>
              var pdu := Pdu.Execute(ZeroTables(), req, di).1;
              |pdu| == 2 + 2 * U16(req, 3) && forall i | 0 <= i < U16(req, 3) :: U16(pdu, 2 + 2 * i) == 0
    ensures req[0] == 0x01 && ReadRefusal(req, 2000, 128) == None ==>
              var pdu := Pdu.Execute(ZeroTables(), req, di).1;
              |pdu| == 2 + (U16(req, 3) + 7) / 8
              && forall k: nat | k < 8 * (pdu[1] as int) && 2 + k / 8 < |pdu| :: !DataBit(pdu, k)
    ensures Pdu.Execute(ZeroTables(), [0x18, 0, 0], di).1 == Pdu.Execute(ZeroTables(), [0x18, 0, 1], di).1
            == [0x18, 0, 2, 0, 0]
  {
    hide Pdu.Execute, DataBit;
    if req[0] == 0x03 {
      ReadHolding(ZeroTables(), req, di);
    } else if req[0] == 0x04 {
      ReadInput(ZeroTables(), req, di);
    } else if req[0] == 0x01 {
      ReadCoils(ZeroTables(), req, di);
    }
    EmptyQueues(di);
  }

  lemma EmptyQueues(di: byte)
    ensures Pdu.Execute(ZeroTables(), [0x18, 0, 0], di).1 == Pdu.Execute(ZeroTables(), [0x18, 0, 1], di).1
            == [0x18, 0, 2, 0, 0]
  {
  }
}
