/**
 * iobase.cpp over the bit-bang cable of iogpiodpi.cpp: TMS bits are collected in a buffer
 * and sent before the next data shift.
 */
module IoBase {
  import opened Bits
  import opened ScanChain

  /** A pointer argument that may be NULL and is only read. */
  datatype Source = Null | Bytes(bytes: seq<byte>)

  const CHUNK_SIZE: nat := 128

  /** The buffer is there and holds n bits. */
  predicate Provides(tdi: Source, n: nat) {
    tdi.Bytes? ==> n <= 8 * |tdi.bytes|
  }

  /** What a cable may drive on TDI: the bits of the buffer, or whatever it likes without one. */
  predicate Drives(data: BitString, tdi: Source, n: nat) {
    && |data| == n
    && Provides(tdi, n)
    && (tdi.Bytes? ==> data == BitsOf(tdi.bytes, n))
  }

  /** The whole bytes of the bits gathered so far. */
  function Whole(bits: BitString): seq<byte> {
    Pack(bits[..8 * (|bits| / 8)])
  }

  /** The byte under way: the bits gathered since the last whole byte. */
  function Partial(bits: BitString): (r: byte)
  {
    SmallNumber(bits[8 * (|bits| / 8)..]);
    NumberOf(bits[8 * (|bits| / 8)..])
  }

  lemma GatherNothing()
    ensures Whole([]) == [] && Partial([]) == 0
  {
  }

  /** One more bit either lengthens the byte under way or completes it. */
  lemma GatherStep(bits: BitString, v: bool)
    ensures Partial(bits) + Weight(v, |bits| % 8) < 256
    ensures var b := Partial(bits) + Weight(v, |bits| % 8);
      && (|bits| % 8 < 7 ==> Whole(bits + [v]) == Whole(bits) && Partial(bits + [v]) == b)
      && (|bits| % 8 == 7 ==> Whole(bits + [v]) == Whole(bits) + [b] && Partial(bits + [v]) == 0)
      && Whole(bits) + [b] == Pack(bits + [v])
  {
    hide Pack, Weight, NumberOf;
    var j := |bits| / 8;
    CollectBit(bits, j, v);
    PackSplit(bits + [v], j);
    NumberOfNothing();
    assert (bits + [v])[..8 * j] == bits[..8 * j];
    assert (|bits| + 1) / 8 == if |bits| % 8 == 7 then j + 1 else j;
    if |bits| % 8 == 7 {
      assert (bits + [v])[..8 * (j + 1)] == bits + [v];
      assert (bits + [v])[8 * (j + 1)..] == [];
    }
  }

  /** The byte under way after one of its bits has been shifted out. */
  function Halved(tdi: Source, tdiByte: byte): byte {
    if tdi.Bytes? then tdiByte / 2 else tdiByte
  }

  /** The byte under way at a byte boundary. */
  function Fetched(tdi: Source, tdiByte: byte, j: nat): byte
    requires tdi.Bytes? ==> j < |tdi.bytes|
  {
    if tdi.Bytes? then tdi.bytes[j] else tdiByte
  }

  /** The byte under way offers bit i of the data on TDI. */
  predicate Offers(tdiByte: byte, tdi: Source, data: BitString, i: nat) {
    && Drives(data, tdi, |data|)
    && i < |data|
    && Bit(tdiByte, 0) == data[i]
    && (tdi.Bytes? ==> tdiByte == ShiftRight(tdi.bytes[i / 8], i % 8))
    && (tdi.Null? ==> data == Repeat(Bit(tdiByte, 0), |data|))
  }

  lemma OffersNext(tdiByte: byte, tdi: Source, data: BitString, i: nat)
    requires i + 1 < |data| && Offers(tdiByte, tdi, data, i)
    ensures Bit(tdiByte, 0) == data[i]
    ensures tdi.Bytes? ==> (i + 1) / 8 < |tdi.bytes|
    ensures Offers(if (i + 1) % 8 != 0 then Halved(tdi, tdiByte) else Fetched(tdi, Halved(tdi, tdiByte), (i + 1) / 8),
                   tdi, data, i + 1)
  {
    hide Bit, ShiftRight, BitsOf;
    if tdi.Bytes? {
      NextPlace(i);
      DataFrom(data, tdi.bytes, i + 1);
      var b := tdi.bytes[(i + 1) / 8];
      if (i + 1) % 8 != 0 {
        ShiftRightOne(b, i % 8);
        ShiftRightBits(b, i % 8 + 1, 0);
      } else {
        NotShifted(b);
      }
    }
  }

  /** The next bit is in the same byte, or the first of the next one. */
  lemma NextPlace(i: nat)
    ensures if (i + 1) % 8 != 0 then (i + 1) / 8 == i / 8 && (i + 1) % 8 == i % 8 + 1 else (i + 1) / 8 == i / 8 + 1
  {
  }

  lemma DataFrom(data: BitString, bytes: seq<byte>, i: nat)
    requires Drives(data, Bytes(bytes), |data|) && i < |data|
    ensures i / 8 < |bytes| && data[i] == Bit(bytes[i / 8], i % 8)
  {
    hide Bit;
    assert data[i] == BitAt(bytes, i);
  }

  lemma NotShifted(b: byte)
    ensures ShiftRight(b, 0) == b
  {
  }

  /** What TDI carries: the bits of the buffer, or the low bit of a stray byte throughout. */
  function Driven(tdi: Source, stray: byte, n: nat): BitString
    requires Provides(tdi, n)
  {
    if tdi.Bytes? then BitsOf(tdi.bytes, n) else Repeat(Bit(stray, 0), n)
  }

  lemma OffersFirst(tdi: Source, stray: byte, n: nat)
    requires n >= 1 && Provides(tdi, n)
    ensures tdi.Bytes? ==> |tdi.bytes| > 0
    ensures Drives(Driven(tdi, stray, n), tdi, n)
    ensures Offers(Fetched(tdi, stray, 0), tdi, Driven(tdi, stray, n), 0)
  {
    if tdi.Bytes? {
      var b := tdi.bytes[0];
      assert Driven(tdi, stray, n)[0] == BitAt(tdi.bytes, 0) == Bit(b, 0);
      assert ShiftRight(b, 0) == b;
    }
  }

  lemma DrivesLength(data: BitString, tdi: Source, n: nat)
    requires Drives(data, tdi, n)
    ensures |data| == n
  {
  }

  lemma OffersBit(tdiByte: byte, tdi: Source, data: BitString, i: nat)
    requires Offers(tdiByte, tdi, data, i)
    ensures i < |data| && Bit(tdiByte, 0) == data[i]
  {
  }

  /** The byte under way of a bit pattern, before bit i is sent from it. */
  predicate Sends(b: byte, pat: seq<byte>, i: nat) {
    i / 8 < |pat| && b == ShiftRight(pat[i / 8], i % 8)
  }

  lemma SendsNext(b: byte, pat: seq<byte>, i: nat)
    requires i / 8 < |pat|
    requires if i % 8 == 0 then b == pat[i / 8] else Sends(b, pat, i)
    ensures Bit(b, 0) == BitAt(pat, i)
    ensures (i + 1) % 8 != 0 ==> Sends(b / 2, pat, i + 1)
  {
    assert ShiftRight(pat[i / 8], 0) == pat[i / 8];
    ShiftRightBits(pat[i / 8], i % 8, 0);
    ShiftRightOne(pat[i / 8], i % 8);
  }

  /** Setting the next bit of a pattern whose unused bits are zero appends it. */
  lemma SetAppends(buf: seq<byte>, n: nat, v: bool)
    requires n < 8 * |buf|
    requires forall i :: n <= i < 8 * |buf| ==> !BitAt(buf, i)
    ensures var buf' := if v then buf[n / 8 := SetByteBit(buf[n / 8], n % 8, true)] else buf;
      && BitsOf(buf', n + 1) == BitsOf(buf, n) + [v]
      && forall i :: n + 1 <= i < 8 * |buf| ==> !BitAt(buf', i)
  {
    var buf' := if v then buf[n / 8 := SetByteBit(buf[n / 8], n % 8, true)] else buf;
    forall i | 0 <= i < 8 * |buf|
      ensures BitAt(buf', i) == if i == n then v else BitAt(buf, i)
    {
      SetBitBits(buf[n / 8], n % 8, true, i % 8);
    }
  }

  /** A transfer of the clocks ks from a given start, after the first i of them. */
  predicate Midway(start: Chain, before: seq<Clock>, ks: seq<Clock>, i: nat, outs: BitString, chain: Chain,
                   sent: seq<Clock>) {
    && i <= |ks|
    && outs == Outs(start, ks[..i])
    && chain == Run(start, ks[..i])
    && sent == before + ks[..i]
  }

  lemma MidwayBegins(start: Chain, before: seq<Clock>, ks: seq<Clock>)
    ensures Midway(start, before, ks, 0, [], start, before)
  {
    assert ks[..0] == [];
  }

  lemma MidwayStep(start: Chain, before: seq<Clock>, ks: seq<Clock>, i: nat, outs: BitString, chain: Chain,
                   sent: seq<Clock>)
    requires i < |ks| && Midway(start, before, ks, i, outs, chain, sent)
    ensures |outs| == i
    ensures Midway(start, before, ks, i + 1, outs + [Tdo(chain, ks[i])], Tick(chain, ks[i]), sent + [ks[i]])
  {
    RunPrefix(start, ks, i);
    hide Run, Outs, Tick, Tdo;
    assert before + ks[..i + 1] == before + ks[..i] + [ks[i]];
  }

  lemma MidwayEnds(start: Chain, before: seq<Clock>, ks: seq<Clock>, outs: BitString, chain: Chain, sent: seq<Clock>)
    requires Midway(start, before, ks, |ks|, outs, chain, sent)
    ensures outs == Outs(start, ks) && chain == Run(start, ks) && sent == before + ks
  {
    assert ks[..|ks|] == ks;
  }

  /**
   * The last clock left TMS low. Cables that hold the line between transfers shift data at
   * that level, so every data shift has to start with it.
   */
  predicate TmsLow(clocks: seq<Clock>) {
    clocks != [] && !clocks[|clocks| - 1].tms
  }

  class IOBase {
    var chain: Chain
    const tmsBuf: array<byte>
    var tmsLen: nat

    /** The hardware when the cable was opened, and every clock it has received since. */
    ghost const origin: Chain
    ghost var sent: seq<Clock>

    /** The hardware is where the clocks have taken it. */
    ghost predicate Wired()
      reads this
    {
      chain == Run(origin, sent)
    }

    ghost predicate Valid()
      reads this, tmsBuf
    {
      && tmsBuf.Length == CHUNK_SIZE
      && tmsLen <= 8 * CHUNK_SIZE
      && (forall i :: tmsLen <= i < 8 * CHUNK_SIZE ==> !BitAt(tmsBuf[..], i))
      && Wired()
    }

    /** The TMS bits that wait in the buffer. */
    ghost function Pending(): BitString
      reads this, tmsBuf
      requires Valid()
    {
      BitsOf(tmsBuf[..], tmsLen)
    }

    /** All clocks the callers asked for: those sent and those that wait. */
    ghost function Stream(): seq<Clock>
      reads this, tmsBuf
      requires Valid()
    {
      sent + TmsClocks(Pending())
    }

    constructor (hardware: Chain)
      ensures Valid() && fresh(tmsBuf)
      ensures origin == chain == hardware && Stream() == []
    {
      chain := hardware;
      origin := hardware;
      sent := [];
      tmsLen := 0;
      tmsBuf := new byte[CHUNK_SIZE](_ => 0);
      new;
      forall i: nat | i < 8 * CHUNK_SIZE
        ensures !BitAt(tmsBuf[..], i)
      {
        ZeroHasNoBit(i % 8);
      }
    }

    /** One clock on the pins; TDO is sampled while TCK is high. */
    method TxRx(tms: bool, tdi: bool) returns (tdo: bool)
      requires Wired()
      modifies this`chain, this`sent
      ensures Wired()
      ensures sent == old(sent) + [Clock(tms, tdi)]
      ensures tdo == Tdo(old(chain), Clock(tms, tdi))
      ensures chain == Tick(old(chain), Clock(tms, tdi))
    {
      var k := Clock(tms, tdi);
      tdo := Tdo(chain, k);
      RunOne(origin, sent, k);
      chain := Tick(chain, k);
      sent := sent + [k];
    }

    /**
     * The bit-bang transfer: each bit is put on the pins in turn and TDO is collected bytewise.
     * `data` is what TDI carried.
     */
    method TxrxBlock(tdi: Source, read: bool, length: nat, last: bool) returns (tdo: seq<byte>, ghost data: BitString)
      requires Wired() && length >= 1 && TmsLow(sent)
      requires Provides(tdi, length)
      modifies this`chain, this`sent
      ensures Wired()
      ensures Drives(data, tdi, length)
      ensures sent == old(sent) + DataClocks(data, last)
      ensures tdo == if read then Pack(Outs(old(chain), DataClocks(data, last))) else []
    {
      hide Run, Outs, Tick, Tdo, Midway, Bit, Whole, Partial, Pack, Offers, Weight, Drives, Driven, Halved, Fetched,
           DataClocks;
      var i, j := 0, 0;
      var tdoByte: byte := 0;
      var tdiByte: byte :| 0 <= tdiByte < 256;  // uninitialised in the source
      OffersFirst(tdi, tdiByte, length);
      data := Driven(tdi, tdiByte, length);
      DrivesLength(data, tdi, length);
      tdiByte := Fetched(tdi, tdiByte, j);
      tdo := [];
      ghost var start, before, ks := chain, sent, DataClocks(data, last);
      ghost var outs := [];
      MidwayBegins(start, before, ks);
      GatherNothing();
      while i < length - 1
        invariant 0 <= i <= length - 1 && j == i / 8
        invariant Wired() && Midway(start, before, ks, i, outs, chain, sent)
        invariant |outs| == i && Offers(tdiByte, tdi, data, i)
        invariant tdoByte == Partial(outs)
        invariant tdo == if read then Whole(outs) else []
      {
        OffersNext(tdiByte, tdi, data, i);
        MidwayStep(start, before, ks, i, outs, chain, sent);
        var bit := TxRx(false, Bit(tdiByte, 0));
        GatherStep(outs, bit);
        tdoByte := tdoByte + Weight(bit, i % 8);
        outs := outs + [bit];
        tdiByte := Halved(tdi, tdiByte);
        i := i + 1;
        if i % 8 == 0 {
          tdo := if read then tdo + [tdoByte] else tdo;
          tdoByte := 0;
          j := j + 1;
          tdiByte := Fetched(tdi, tdiByte, j);
        }
      }
      OffersBit(tdiByte, tdi, data, i);
      MidwayStep(start, before, ks, i, outs, chain, sent);
      var bit := TxRx(last, Bit(tdiByte, 0));
      GatherStep(outs, bit);
      tdoByte := tdoByte + Weight(bit, i % 8);
      tdo := if read then tdo + [tdoByte] else tdo;
      MidwayEnds(start, before, ks, outs + [bit], chain, sent);
    }

    /** The bit-bang TMS transfer, TDI held high. */
    method TxTms(pat: seq<byte>, length: nat, force: bool)
      requires Wired() && length <= 8 * |pat|
      modifies this`chain, this`sent
      ensures Wired()
      ensures sent == old(sent) + TmsClocks(BitsOf(pat, length))
    {
      hide Run, Outs, Tick, Tdo, Midway, Bit, Sends, ShiftRight, BitAt;
      ghost var start, before, ks := chain, sent, TmsClocks(BitsOf(pat, length));
      ghost var outs := [];
      var tms: byte := 0;
      MidwayBegins(start, before, ks);
      for i := 0 to length
        invariant Wired() && Midway(start, before, ks, i, outs, chain, sent)
        invariant i % 8 != 0 ==> Sends(tms, pat, i)
      {
        if i % 8 == 0 {
          tms := pat[i / 8];
        }
        SendsNext(tms, pat, i);
        MidwayStep(start, before, ks, i, outs, chain, sent);
        var bit := TxRx(Bit(tms, 0), true);
        outs := outs + [bit];
        tms := tms / 2;
      }
      MidwayEnds(start, before, ks, outs, chain, sent);
    }

    method FlushTms(force: bool)
      requires Valid()
      modifies this, tmsBuf
      ensures Valid() && tmsLen == 0
      ensures sent == Stream() == old(Stream())
    {
      hide Run, Bit;
      if tmsLen != 0 {
        TxTms(tmsBuf[..], tmsLen, force);
      }
      forall i | 0 <= i < tmsBuf.Length {
        tmsBuf[i] := 0;
      }
      tmsLen := 0;
      forall i: nat | i < 8 * CHUNK_SIZE
        ensures !BitAt(tmsBuf[..], i)
      {
        ZeroHasNoBit(i % 8);
      }
      assert Stream() == sent;
      assert old(tmsLen) == 0 ==> old(Stream()) == sent;
    }

    /** One more TMS bit for the buffer; a full buffer is sent first. */
    method SetTms(val: bool)
      requires Valid()
      modifies this, tmsBuf
      ensures Valid()
      ensures Stream() == old(Stream()) + [Clock(val, true)]
    {
      hide Run, Bit, SetBit;
      if tmsLen + 1 > 8 * CHUNK_SIZE {
        FlushTms(false);
      }
      ghost var buf, stream := tmsBuf[..], Stream();
      SetAppends(buf, tmsLen, val);
      if val {
        tmsBuf[tmsLen / 8] := SetByteBit(tmsBuf[tmsLen / 8], tmsLen % 8, true);
      }
      assert tmsBuf[..] == if val then buf[tmsLen / 8 := SetByteBit(buf[tmsLen / 8], tmsLen % 8, true)] else buf;
      tmsLen := tmsLen + 1;
      assert TmsClocks(BitsOf(buf, tmsLen - 1) + [val]) == TmsClocks(BitsOf(buf, tmsLen - 1)) + [Clock(val, true)];
    }

    /** A data shift: waiting TMS bits go first. */
    method ShiftTdiTdo(tdi: Source, read: bool, length: nat, last: bool) returns (tdo: seq<byte>, ghost data: BitString)
      requires Valid() && (length > 0 ==> TmsLow(Stream()))
      requires Provides(tdi, length)
      modifies this, tmsBuf
      ensures Valid()
      ensures Drives(data, tdi, length)
      ensures Stream() == old(Stream()) + DataClocks(data, last)
      ensures length > 0 ==> tmsLen == 0
      ensures tdo == if read then Pack(Outs(Run(origin, old(Stream())), DataClocks(data, last))) else []
    {
      hide Run, Outs, Bit, Pack;
      if length == 0 {
        data := [];
        tdo := [];
        EmptyScan(Run(origin, Stream()), last);
        assert Stream() + DataClocks([], last) == Stream();
        return;
      }
      FlushTms(false);
      tdo, data := TxrxBlock(tdi, read, length, last);
      assert Stream() == sent;
    }

    /** `length` copies of one bit, in pieces of at most a chunk. */
    method Shift(tdi: bool, length: nat, last: bool)
      requires Valid() && (length > 0 ==> TmsLow(Stream()))
      modifies this, tmsBuf
      ensures Valid()
      ensures Stream() == old(Stream()) + DataClocks(Repeat(tdi, length), last)
    {
      hide Run, Outs, Bit, Pack, BitsOf, DataClocks, Repeat, Drives, TmsClocks;
      var len: nat := length;
      var block := Bytes(Repeat<byte>(if tdi then 255 else 0, CHUNK_SIZE));
      FlushTms(false);
      ghost var stream := Stream();
      JoinFills(stream, tdi, 0, 0, false);
      while len > 8 * CHUNK_SIZE
        invariant len <= length && (length > 0 ==> len > 0)
        invariant Valid() && tmsLen == 0 && (length > 0 ==> TmsLow(Stream()))
        invariant Stream() == stream + DataClocks(Repeat(tdi, length - len), false)
      {
        var none, data := TxrxBlock(block, false, 8 * CHUNK_SIZE, false);
        FillBits(data, tdi, 8 * CHUNK_SIZE);
        JoinFills(stream, tdi, length - len, 8 * CHUNK_SIZE, false);
        assert Stream() == sent;
        len := len - 8 * CHUNK_SIZE;
      }
      var none, data := ShiftTdiTdo(block, false, len, last);
      FillBits(data, tdi, len);
      JoinFills(stream, tdi, length - len, len, last);
    }
  }

  lemma EmptyScan(c: Chain, last: bool)
    ensures Pack(Outs(c, DataClocks([], last))) == []
  {
  }

  lemma FillBits(data: BitString, v: bool, n: nat)
    requires n <= 8 * CHUNK_SIZE
    requires Drives(data, Bytes(Repeat<byte>(if v then 255 else 0, CHUNK_SIZE)), n)
    ensures data == Repeat(v, n)
  {
    forall i | 0 <= i < n
      ensures data[i] == v
    {
      AllBits(v, i % 8);
    }
  }

  lemma FillsJoin(v: bool, a: nat, b: nat, last: bool)
    requires last && a > 0 ==> b > 0
    ensures DataClocks(Repeat(v, a), false) + DataClocks(Repeat(v, b), last) == DataClocks(Repeat(v, a + b), last)
  {
  }

  lemma NoFill(v: bool)
    ensures DataClocks(Repeat(v, 0), false) == []
  {
  }

  lemma JoinFills(stream: seq<Clock>, v: bool, a: nat, b: nat, last: bool)
    requires last && a > 0 ==> b > 0
    ensures stream + DataClocks(Repeat(v, a), false) + DataClocks(Repeat(v, b), last)
            == stream + DataClocks(Repeat(v, a + b), last)
    ensures a == 0 ==> stream + DataClocks(Repeat(v, a), false) == stream
  {
    hide DataClocks, Repeat;
    FillsJoin(v, a, b, last);
    if a == 0 {
      NoFill(v);
    }
  }
}
