/** ioftdi.cpp: scans packed into MPSSE commands, buffered for USB, and the returned bits realigned. */
module IoFtdi {
  import opened Bits
  import opened ScanChain
  import opened IoBase
  import opened Mpsse

  const TX_BUF: nat := 4096

  // The bits of a command byte, and the command that has answers sent at once.
  const MPSSE_WRITE_NEG: nat := 0x01
  const MPSSE_BITMODE: nat := 0x02
  const MPSSE_READ_NEG: nat := 0x04
  const MPSSE_LSB: nat := 0x08
  const MPSSE_DO_WRITE: nat := 0x10
  const MPSSE_DO_READ: nat := 0x20
  const MPSSE_WRITE_TMS: nat := 0x40
  const SEND_IMMEDIATE: byte := 0x87

  /** The command byte of a data transfer. */
  function DataOp(write: bool, read: bool, bits: bool): byte {
    (if read then MPSSE_DO_READ + MPSSE_READ_NEG else 0)
    + (if write then MPSSE_DO_WRITE else 0)
    + MPSSE_LSB + (if bits then MPSSE_BITMODE else 0) + MPSSE_WRITE_NEG
  }

  function TmsOp(read: bool): byte {
    MPSSE_WRITE_TMS + (if read then MPSSE_DO_READ + MPSSE_READ_NEG else 0)
    + MPSSE_LSB + MPSSE_BITMODE + MPSSE_WRITE_NEG
  }

  /** The payload of a data command: nothing is sent without a buffer. */
  function Sent(payload: Source): seq<byte> {
    if payload.Bytes? then payload.bytes else []
  }

  /** The engine goes on from where the stream so far took it. */
  lemma Continue(o: Engine, s: seq<byte>, cmd: seq<byte>)
    requires Execute(o, s).1 == [] && Complete(cmd) && Need(cmd) == |cmd|
    ensures Execute(o, s + cmd) == (Step(Execute(o, s).0, cmd), [])
  {
    hide Execute, Step, Complete, Need;
    ExecuteAppend(o, s, cmd);
    assert [] + cmd == cmd;
    ExecuteOne(Execute(o, s).0, cmd);
  }

  lemma ByteCommand(o: Engine, s: seq<byte>, payload: Source, n: nat, read: bool)
    requires Execute(o, s).1 == [] && 1 <= n <= TX_BUF && (payload.Bytes? ==> |payload.bytes| == n)
    ensures var header := [DataOp(payload.Bytes?, read, false), (n - 1) % 256, (n - 1) / 256];
      Execute(o, s + header + Sent(payload)) == (ByteRun(Execute(o, s).0, payload, n, read), [])
  {
    hide Execute, Step, Complete, Need, DataOp, ByteRun;
    var header: seq<byte> := [DataOp(payload.Bytes?, read, false), (n - 1) % 256, (n - 1) / 256];
    var cmd := header + Sent(payload);
    assert s + header + Sent(payload) == s + cmd;
    ByteStep(Execute(o, s).0, payload, n, read, cmd);
    Continue(o, s, cmd);
  }

  /** What the command byte of a data transfer says. */
  lemma OpFlags(write: bool, read: bool, bits: bool)
    ensures var op := DataOp(write, read, bits);
      && Understood(op) && LsbFirst(op) && !WritesTms(op)
      && CountsBits(op) == bits && Writes(op) == write && Reads(op) == read
  {
  }

  lemma ByteStep(e: Engine, payload: Source, n: nat, read: bool, cmd: seq<byte>)
    requires 1 <= n <= TX_BUF && (payload.Bytes? ==> |payload.bytes| == n)
    requires cmd == [DataOp(payload.Bytes?, read, false), (n - 1) % 256, (n - 1) / 256] + Sent(payload)
    ensures Complete(cmd) && Need(cmd) == |cmd| && Step(e, cmd) == ByteRun(e, payload, n, read)
  {
    hide DataOp, ByteRun, Understood, LsbFirst, WritesTms, CountsBits, Writes, Reads;
    OpFlags(payload.Bytes?, read, false);
    LengthField(n, cmd);
    if payload.Bytes? {
      assert cmd[3..4 + (n - 1)] == payload.bytes;
    }
  }

  lemma LengthField(n: nat, cmd: seq<byte>)
    requires 1 <= n && |cmd| >= 3 && cmd[1] as int == (n - 1) % 256 && cmd[2] as int == (n - 1) / 256
    ensures ByteCount(cmd) == n - 1
  {
  }

  lemma BitCommand(o: Engine, s: seq<byte>, payload: Source, n: nat, read: bool)
    requires Execute(o, s).1 == [] && 1 <= n <= 7 && (payload.Bytes? ==> |payload.bytes| == 1)
    ensures var header := [DataOp(payload.Bytes?, read, true), n - 1];
      Execute(o, s + header + Sent(payload)) == (BitRun(Execute(o, s).0, payload, n, read), [])
  {
    hide Execute, BitRun, DataOp, Understood, LsbFirst, WritesTms, CountsBits, Writes, Reads;
    OpFlags(payload.Bytes?, read, true);
    var header: seq<byte> := [DataOp(payload.Bytes?, read, true), n - 1];
    var cmd := header + Sent(payload);
    assert s + header + Sent(payload) == s + cmd;
    assert payload.Bytes? ==> [cmd[2]] == payload.bytes;
    Continue(o, s, cmd);
  }

  lemma TmsCommand(o: Engine, s: seq<byte>, b: byte, n: nat, read: bool)
    requires Execute(o, s).1 == [] && 1 <= n <= 7
    ensures Execute(o, s + [TmsOp(read), n - 1, b]) == (TmsRun(Execute(o, s).0, b, n, read), [])
  {
    hide Execute, TmsRun;
    Continue(o, s, [TmsOp(read), n - 1, b]);
  }

  /** What TDI carries: the buffer's bits, or the level it has, and a zero with the bit that moves the state. */
  function FtdiData(hold: bool, tdi: Source, length: nat, last: bool): BitString
    requires length >= 1 && Provides(tdi, length)
  {
    if tdi.Bytes? then BitsOf(tdi.bytes, length)
    else if last then Repeat(hold, length - 1) + [false]
    else Repeat(hold, length)
  }

  /** n bytes of the source from byte p on. */
  function Part(tdi: Source, p: nat, n: nat): Source
    requires tdi.Bytes? ==> p + n <= |tdi.bytes|
  {
    if tdi.Bytes? then Bytes(tdi.bytes[p..p + n]) else Null
  }

  /** A transfer in progress: the chain it started on, its clocks, and the level of TDI if nothing is written. */
  datatype Transfer = Transfer(c: Chain, tdi: Source, length: nat, last: bool, hold: bool)
  {
    predicate Sound() {
      length >= 1 && Provides(tdi, length)
    }

    function Data(): (r: BitString)
      requires Sound()
      ensures |r| == length
    {
      FtdiData(hold, tdi, length, last)
    }

    function Clocks(): (r: seq<Clock>)
      requires Sound()
      ensures |r| == length
    {
      DataClocks(Data(), last)
    }

    function Bits(): (r: BitString)
      requires Sound()
      ensures |r| == length
    {
      Outs(c, Clocks())
    }

    /** The number of bits that keep the state. */
    function Plain(): nat
      requires Sound()
    {
      if last then length - 1 else length
    }

    /** The engine has clocked the first d bits. */
    predicate At(d: nat, e: Engine)
      requires Sound()
    {
      && d <= Plain()
      && e.chain == Run(c, Clocks()[..d])
      && !e.tms
      && (tdi.Null? ==> e.tdi == hold)
    }
  }

  lemma OutsSlice(c: Chain, ks: seq<Clock>, d: nat, m: nat)
    requires d + m <= |ks|
    ensures Outs(Run(c, ks[..d]), ks[d..d + m]) == Outs(c, ks)[d..d + m]
    ensures Run(c, ks[..d + m]) == Run(Run(c, ks[..d]), ks[d..d + m])
  {
    hide Run, Outs;
    RunAppend(c, ks[..d], ks[d..d + m]);
    assert ks[..d + m] == ks[..d] + ks[d..d + m];
    RunAppend(c, ks[..d + m], ks[d + m..]);
    assert ks == ks[..d + m] + ks[d + m..];
  }

  lemma TransferBegins(t: Transfer, e: Engine)
    requires t.Sound() && e.chain == t.c && !e.tms && e.tdi == t.hold
    ensures t.At(0, e)
  {
    hide Run, Outs;
    assert t.Clocks()[..0] == [];
    RunNothing(t.c, false);
  }

  lemma PartPayload(t: Transfer, e: Engine, p: nat, n: nat, m: nat)
    requires t.Sound() && t.At(8 * p, e) && m <= 8 * n && 8 * p + m <= t.Plain()
    requires t.tdi.Bytes? ==> p + n <= |t.tdi.bytes|
    ensures Provides(Part(t.tdi, p, n), m)
    ensures Level(false, Payload(e, Part(t.tdi, p, n), m)) == t.Clocks()[8 * p..8 * p + m]
  {
    hide Run, Outs, Bit;
    var data := Payload(e, Part(t.tdi, p, n), m);
    assert data == t.Data()[8 * p..8 * p + m];
  }

  /** A command for whole bytes advances the transfer and answers with its part of what is read. */
  lemma BytesAdvance(t: Transfer, e: Engine, p: nat, n: nat, read: bool)
    requires t.Sound() && t.At(8 * p, e) && 8 * p + 8 * n <= t.Plain()
    requires t.tdi.Bytes? ==> p + n <= |t.tdi.bytes|
    ensures Provides(Part(t.tdi, p, n), 8 * n)
    ensures var r := ByteRun(e, Part(t.tdi, p, n), n, read);
      && t.At(8 * (p + n), r)
      && r.reply == e.reply + if read then Pack(t.Bits()[8 * p..8 * (p + n)]) else []
  {
    hide Run, Outs, Pack, ByteRun, Level, Transfer.Data, FtdiData;
    PartPayload(t, e, p, n, 8 * n);
    ByteRunIs(e, Part(t.tdi, p, n), n, read);
    OutsSlice(t.c, t.Clocks(), 8 * p, 8 * n);
    HoldsStill(e, n);
  }

  lemma HoldsStill(e: Engine, n: nat)
    ensures n > 0 ==> Payload(e, Null, 8 * n)[8 * n - 1] == e.tdi
    ensures 0 < n <= 7 ==> Payload(e, Null, n)[n - 1] == e.tdi
  {
  }

  lemma BitsAdvance(t: Transfer, e: Engine, p: nat, n: nat, read: bool)
    requires t.Sound() && t.At(8 * p, e) && 8 * p + n <= t.Plain() && 1 <= n <= 7
    requires t.tdi.Bytes? ==> p < |t.tdi.bytes|
    ensures Provides(Part(t.tdi, p, 1), n)
    ensures var r := BitRun(e, Part(t.tdi, p, 1), n, read);
      && t.At(8 * p + n, r)
      && r.reply == (if read then e.reply + [r.reg] else e.reply)
      && (read ==> ShiftRight(r.reg, 8 - n) == NumberOf(t.Bits()[8 * p..8 * p + n]))
  {
    hide Run, Outs, Pack, BitRun, Level, Transfer.Data, FtdiData, ShiftRight, NumberOf;
    PartPayload(t, e, p, 1, n);
    BitRunIs(e, Part(t.tdi, p, 1), n, read);
    OutsSlice(t.c, t.Clocks(), 8 * p, n);
    HoldsStill(e, n);
  }

  /** The TMS byte for the last bit. */
  function LastByte(tdi: Source, p: nat, r: nat): byte
    requires tdi.Bytes? ==> p < |tdi.bytes|
  {
    if tdi.Bytes? && Bit(tdi.bytes[p], r) then 0x81 else 1
  }

  lemma LastByteBits(v: bool)
    ensures var b: byte := if v then 0x81 else 1;
      Bit(b, 0) && Bit(b, 7) == v
  {
    SmallHasNoBit(1, 1);
    if v {
      AddBit(1, 7, true);
      SetBitBits(1, 7, true, 7);
      SetBitBits(1, 7, true, 0);
      assert Exp2(7) == 128;
    }
  }

  lemma LastAdvances(t: Transfer, e: Engine, p: nat, m: nat, read: bool)
    requires t.Sound() && t.last && t.At(8 * p + m, e) && 8 * p + m == t.length - 1 && m < 8
    ensures t.tdi.Bytes? ==> p < |t.tdi.bytes|
    ensures var r := TmsRun(e, LastByte(t.tdi, p, m), 1, read);
      && r.chain == Run(t.c, t.Clocks())
      && r.tms
      && r.reply == (if read then e.reply + [r.reg] else e.reply)
      && (read ==> Bit(r.reg, 7) == t.Bits()[t.length - 1])
  {
    hide Run, Outs, TmsRun, Bit;
    var v := t.tdi.Bytes? && Bit(t.tdi.bytes[p], m);
    LastByteBits(v);
    var b := LastByte(t.tdi, p, m);
    TmsRunIs(e, b, 1, read);
    var d := t.length - 1;
    assert TmsLevels(b, 1) == t.Clocks()[d..d + 1];
    OutsSlice(t.c, t.Clocks(), d, 1);
    assert t.Clocks()[..d + 1] == t.Clocks();
    SliceOfOne(t.Bits(), d);
  }

  /** p bytes have gone in whole chunks, and a byte at least is left after one. */
  predicate ChunksLeft(p: nat, rem: nat) {
    p % 4093 == 0 && (p > 0 ==> rem / 8 >= 1)
  }

  lemma NoChunks(rem: nat)
    ensures ChunksLeft(0, rem)
  {
  }

  lemma OneChunk(p: nat, rem: nat)
    requires ChunksLeft(p, rem) && rem / 8 > 4093
    ensures rem >= 8 * 4093 && ChunksLeft(p + 4093, rem - 8 * 4093)
  {
  }

  lemma ChunksDone(p: nat, rem: nat)
    requires ChunksLeft(p, rem)
    ensures p % 4093 == 0 && (p > 0 ==> rem / 8 >= 1)
  {
  }

  lemma SliceOfOne(bits: BitString, d: nat)
    requires d < |bits|
    ensures bits[d..d + 1] == [bits[d]]
  {
  }

  // ---- Realigning what comes back ----

  function ShrByte(b: byte, m: nat): byte {
    ShrIsSmaller(b, m);
    ShiftRight(b, m)
  }

  lemma {:induction false} ShrIsSmaller(n: nat, m: nat)
    ensures ShiftRight(n, m) <= n
  {
    if m > 0 {
      ShrIsSmaller(n / 2, m - 1);
    }
  }

  /** The value of `b | (v << r)`. */
  function OrBit(b: byte, r: nat, v: bool): byte
    requires r < 8
  {
    if v then SetByteBit(b, r, true) else b
  }

  /**
   * The bytes of an answer moved into place: bits of an incomplete byte arrive at its top, and
   * the bit read with the state change arrives as the top bit of a byte of its own.
   */
  function Realigned(raw: seq<byte>, r: nat, last: bool): seq<byte>
    requires r < 8
    requires |raw| >= (if r > 0 then 1 else 0) + (if last then 1 else 0)
  {
    var n := |raw|;
    if !last then
      if r > 0 then raw[n - 1 := ShrByte(raw[n - 1], 8 - r)] else raw
    else if r == 0 then raw[n - 1 := if Bit(raw[n - 1], 7) then 1 else 0]
    else raw[..n - 1][n - 2 := OrBit(ShrByte(raw[n - 2], 8 - r), r, Bit(raw[n - 1], 7))]
  }

  lemma PackJoin(a: BitString, b: BitString)
    requires |a| % 8 == 0
    ensures Pack(a + b) == Pack(a) + Pack(b)
  {
    hide ByteOf;
    var j := |a| / 8;
    WholeBytes(j, |b|);
    forall m | 0 <= m < j
      ensures ByteOf(a + b, m) == ByteOf(a, m)
    {
      FirstByteOf(a, b, m);
    }
    forall m | 0 <= m < BytesFor(|b|)
      ensures ByteOf(a + b, j + m) == ByteOf(b, m)
    {
      LaterByteOf(a, b, j, m);
    }
  }

  lemma WholeBytes(j: nat, n: nat)
    ensures BytesFor(8 * j) == j && BytesFor(8 * j + n) == j + BytesFor(n)
  {
  }

  lemma FirstByteOf(a: BitString, b: BitString, m: nat)
    requires 8 * m + 8 <= |a|
    ensures ByteOf(a + b, m) == ByteOf(a, m)
  {
    hide ByteOf;
    assert (a + b)[..|a|] == a;
    ByteOfPrefix(a + b, |a|, m);
  }

  lemma LaterByteOf(a: BitString, b: BitString, j: nat, m: nat)
    requires |a| == 8 * j && 8 * m <= |b|
    ensures ByteOf(a + b, j + m) == ByteOf(b, m)
  {
    hide NumberOf;
    assert (a + b)[8 * (j + m)..] == b[8 * m..];
    if 8 * m + 8 <= |b| {
      assert (a + b)[8 * (j + m)..8 * (j + m) + 8] == b[8 * m..8 * m + 8];
    }
  }

  lemma OneBitNumber(v: bool)
    ensures NumberOf([v]) == ValueOf(v)
  {
    assert [v][1..] == [];
    NumberOfNothing();
  }

  /** Or-ing a bit above a number of r bits appends it. */
  lemma OrAppends(bits: BitString, v: bool)
    requires |bits| < 8
    ensures NumberOf(bits) < 256 && OrBit(NumberOf(bits), |bits|, v) == NumberOf(bits + [v])
  {
    hide NumberOf, Bit, SetBit;
    SmallNumber(bits);
    NumberAppend(bits, v);
    if v {
      NoBit(NumberOf(bits), |bits|, |bits|);
      AddBit(NumberOf(bits), |bits|, v);
    }
  }

  /** The tail of a transfer: the unread bytes, realigned, complete what was read before. */
  lemma RealignedIs(bits: BitString, q: nat, p: nat, r: nat, last: bool, x: byte, y: byte)
    requires q <= p && r < 8 && |bits| == 8 * p + r + (if last then 1 else 0)
    requires r > 0 ==> ShiftRight(x, 8 - r) == NumberOf(bits[8 * p..8 * p + r])
    requires last ==> Bit(y, 7) == bits[|bits| - 1]
    ensures var raw := Pack(bits[8 * q..8 * p]) + (if r > 0 then [x] else []) + (if last then [y] else []);
      Pack(bits[..8 * q]) + Realigned(raw, r, last) == Pack(bits)
  {
    hide NumberOf, Bit, ShiftRight, Pack, OrBit;
    var w := Pack(bits[8 * q..8 * p]);
    assert bits[..8 * p] == bits[..8 * q] + bits[8 * q..8 * p];
    PackJoin(bits[..8 * q], bits[8 * q..8 * p]);
    if r == 0 && !last {
      assert bits[..8 * p] == bits;
      assert w + [] + [] == w;
    } else {
      PackSplit(bits, p);
      var z: byte := NumberOf(bits[8 * p..]);
      var raw := w + (if r > 0 then [x] else []) + (if last then [y] else []);
      assert Realigned(raw, r, last) == w + [z] by {
        if !last {
          assert bits[8 * p..8 * p + r] == bits[8 * p..];
          assert raw == w + [x];
        } else if r == 0 {
          assert bits[8 * p..] == [bits[8 * p]];
          OneBitNumber(bits[8 * p]);
          assert raw == w + [y];
        } else {
          var b := bits[8 * p..8 * p + r];
          assert bits[8 * p..] == b + [bits[|bits| - 1]];
          OrAppends(b, bits[|bits| - 1]);
          assert raw == w + [x] + [y];
        }
      }
    }
  }

  /** An engine has clocked what was asked for, and holds TMS at the last level. */
  ghost predicate InStep(c: Chain, e: Engine, asked: seq<Clock>) {
    e.chain == Run(c, asked) && (asked != [] ==> e.tms == asked[|asked| - 1].tms)
  }

  lemma TmsInStep(c: Chain, e: Engine, asked: seq<Clock>, pat: seq<byte>, n: nat, r: Engine)
    requires InStep(c, e, asked) && n <= 8 * |pat|
    requires r.chain == Run(e.chain, TmsClocks(BitsOf(pat, n)))
    requires r.tms == if n > 0 then BitAt(pat, n - 1) else e.tms
    ensures InStep(c, r, asked + TmsClocks(BitsOf(pat, n)))
  {
    hide Run, Outs, BitAt;
    RunAppend(c, asked, TmsClocks(BitsOf(pat, n)));
  }

  lemma LowInStep(c: Chain, e: Engine, asked: seq<Clock>)
    requires InStep(c, e, asked) && TmsLow(asked)
    ensures !e.tms
  {
  }

  lemma DataInStep(c: Chain, e: Engine, asked: seq<Clock>, data: BitString, last: bool, r: Engine)
    requires InStep(c, e, asked) && data != []
    requires r.chain == Run(e.chain, DataClocks(data, last)) && r.tms == last
    ensures InStep(c, r, asked + DataClocks(data, last))
  {
    hide Run, Outs;
    RunAppend(c, asked, DataClocks(data, last));
  }

  class IOFtdi {
    const usbuf: array<byte>
    var bptr: nat

    /** The device at the other end of USB, the bytes of a command it has not got whole, and the reply bytes taken. */
    var engine: Engine
    var waiting: seq<byte>
    var taken: nat

    ghost const origin: Engine
    ghost var wire: seq<byte>

    /** Every clock the callers asked for. */
    ghost var asked: seq<Clock>

    ghost predicate Valid()
      reads this, usbuf
    {
      && usbuf.Length == TX_BUF
      && bptr <= TX_BUF
      && (engine, waiting) == Execute(origin, wire)
    }

    /** All command bytes given so far: those sent and those that wait in the buffer. */
    ghost function Commands(): seq<byte>
      reads this, usbuf
      requires Valid()
    {
      wire + usbuf[..bptr]
    }

    /** The engine once everything is sent. */
    ghost function Target(): Engine
      reads this, usbuf
      requires Valid()
    {
      Execute(origin, Commands()).0
    }

    /** No command is incomplete and no answer is outstanding. */
    ghost predicate Idle()
      reads this, usbuf
      requires Valid()
    {
      Execute(origin, Commands()).1 == [] && |Target().reply| == taken
    }

    /** Between transfers the commands given so far make up the clocks asked for, and hold TMS at the last level. */
    ghost predicate Ready()
      reads this, usbuf
      requires Valid()
    {
      Idle() && InStep(origin.chain, Target(), asked)
    }

    constructor (device: Engine)
      ensures Valid() && fresh(usbuf)
      ensures origin == device && Commands() == [] && taken == 0 && asked == []
      ensures device.reply == [] ==> Ready()
    {
      usbuf := new byte[TX_BUF](_ => 0);
      bptr := 0;
      engine := device;
      waiting := [];
      taken := 0;
      origin := device;
      wire := [];
      asked := [];
    }

    method MpsseSend()
      requires Valid()
      modifies this`bptr, this`engine, this`waiting, this`wire
      ensures Valid() && bptr == 0
      ensures wire == Commands() == old(Commands())
      ensures (engine, waiting) == Execute(origin, Commands())
    {
      hide Execute;
      if bptr == 0 {
        assert Commands() == wire;
        return;
      }
      ExecuteAppend(origin, wire, usbuf[..bptr]);
      var r := Execute(engine, waiting + usbuf[..bptr]);
      engine, waiting := r.0, r.1;
      wire := wire + usbuf[..bptr];
      bptr := 0;
    }

    method MpsseAddCmd(buf: seq<byte>)
      requires Valid() && |buf| <= TX_BUF
      modifies this`bptr, this`engine, this`waiting, this`wire, usbuf
      ensures Valid()
      ensures Commands() == old(Commands()) + buf
    {
      hide Execute;
      if bptr + |buf| + 1 >= TX_BUF {
        MpsseSend();
      }
      ghost var before := usbuf[..bptr];
      forall i | 0 <= i < |buf| {
        usbuf[bptr + i] := buf[i];
      }
      bptr := bptr + |buf|;
      assert usbuf[..bptr] == before + buf;
    }

    /** Sends what waits and takes the given number of answer bytes. */
    method ReadUsb(len: nat) returns (r: seq<byte>)
      requires Valid() && Execute(origin, Commands()).1 == []
      requires taken + len <= |Target().reply|
      modifies this`bptr, this`engine, this`waiting, this`wire, this`taken, usbuf
      ensures Valid() && Execute(origin, Commands()).1 == []
      ensures Target() == old(Target())
      ensures taken == old(taken) + len && r == Target().reply[old(taken)..taken]
    {
      hide Execute;
      ImmediateIsSilent(origin, Commands());
      MpsseAddCmd([SEND_IMMEDIATE]);
      MpsseSend();
      r := engine.reply[taken..taken + len];
      taken := taken + len;
    }

    /** A command for whole bytes, header first. */
    method AddBytes(payload: Source, n: nat, read: bool)
      requires Valid() && 1 <= n < TX_BUF - 2 && (payload.Bytes? ==> |payload.bytes| == n)
      requires Execute(origin, Commands()).1 == []
      modifies this`bptr, this`engine, this`waiting, this`wire, usbuf
      ensures Valid() && Execute(origin, Commands()).1 == []
      ensures Target() == ByteRun(old(Target()), payload, n, read)
      ensures payload.Bytes? && !read ==>
        Commands() == old(Commands()) + [0x19, (n - 1) % 256, (n - 1) / 256] + payload.bytes
      ensures payload.Bytes? && read ==>
        Commands() == old(Commands()) + [0x3D, (n - 1) % 256, (n - 1) / 256] + payload.bytes
      ensures payload.Null? && read ==> Commands() == old(Commands()) + [0x2D, (n - 1) % 256, (n - 1) / 256]
    {
      hide Execute, ByteRun;
      ByteCommand(origin, Commands(), payload, n, read);
      MpsseAddCmd([DataOp(payload.Bytes?, read, false), (n - 1) % 256, (n - 1) / 256]);
      ghost var s := Commands();
      if payload.Bytes? {
        MpsseAddCmd(payload.bytes);
      } else {
        assert s + [] == s;
      }
    }

    /** A command for the bits of an incomplete byte. */
    method AddBits(payload: Source, n: nat, read: bool)
      requires Valid() && 1 <= n <= 7 && (payload.Bytes? ==> |payload.bytes| == 1)
      requires Execute(origin, Commands()).1 == []
      modifies this`bptr, this`engine, this`waiting, this`wire, usbuf
      ensures Valid() && Execute(origin, Commands()).1 == []
      ensures Target() == BitRun(old(Target()), payload, n, read)
      ensures payload.Bytes? && !read ==> Commands() == old(Commands()) + [0x1B, n - 1] + payload.bytes
      ensures payload.Bytes? && read ==> Commands() == old(Commands()) + [0x3F, n - 1] + payload.bytes
      ensures payload.Null? && read ==> Commands() == old(Commands()) + [0x2F, n - 1]
    {
      hide Execute, BitRun;
      BitCommand(origin, Commands(), payload, n, read);
      MpsseAddCmd([DataOp(payload.Bytes?, read, true), n - 1]);
      ghost var s := Commands();
      if payload.Bytes? {
        MpsseAddCmd(payload.bytes);
      } else {
        assert s + [] == s;
      }
    }

    method AddTms(b: byte, n: nat, read: bool)
      requires Valid() && 1 <= n <= 7
      requires Execute(origin, Commands()).1 == []
      modifies this`bptr, this`engine, this`waiting, this`wire, usbuf
      ensures Valid() && Execute(origin, Commands()).1 == []
      ensures Target() == TmsRun(old(Target()), b, n, read)
      ensures Commands() == old(Commands()) + [if read then 0x6F else 0x4B, n - 1, b]
    {
      hide Execute, TmsRun;
      TmsCommand(origin, Commands(), b, n, read);
      MpsseAddCmd([TmsOp(read), n - 1, b]);
    }

    /** TMS bits in groups of at most six, TDI high. */
    method TxTms(pat: seq<byte>, length: nat, force: bool)
      requires Valid() && Ready() && length <= 8 * |pat|
      modifies this`bptr, this`engine, this`waiting, this`wire, this`asked, usbuf
      ensures Valid() && Ready()
      ensures asked == old(asked) + TmsClocks(BitsOf(pat, length))
      ensures force ==> wire == Commands()
    {
      hide Execute, Run, TmsClocks, BitsOf, BitAt, InStep;
      ghost var e := Target();
      TmsGroups(pat, length);
      if force {
        MpsseSend();
      }
      TmsInStep(origin.chain, e, asked, pat, length, Target());
      asked := asked + TmsClocks(BitsOf(pat, length));
    }

    method TmsGroups(pat: seq<byte>, length: nat)
      requires Valid() && Idle() && length <= 8 * |pat|
      modifies this`bptr, this`engine, this`waiting, this`wire, usbuf
      ensures Valid() && Idle()
      ensures Target().chain == Run(old(Target().chain), TmsClocks(BitsOf(pat, length)))
      ensures Target().tms == if length > 0 then BitAt(pat, length - 1) else old(Target().tms)
    {
      hide Execute, TmsRun, TmsLevels, Run, Outs, TmsClocks, BitsOf, BitAt;
      var len: nat, j: nat := length, 0;
      ghost var e := Target();
      TmsNothing(e.chain, pat);
      while len > 0
        invariant j + len == length
        invariant Valid() && Idle()
        invariant Target().chain == Run(e.chain, TmsClocks(BitsOf(pat, j)))
        invariant Target().tms == if j > 0 then BitAt(pat, j - 1) else e.tms
      {
        var n := if len > 6 then 6 else len;
        var b := TmsByte(pat, j, n);
        TmsGroup(e.chain, Target(), pat, j, n, b);
        AddTms(b, n, false);
        j := j + n;
        len := len - n;
      }
    }

    /** A byte with TDI high and the given pattern bits for TMS. */
    method TmsByte(pat: seq<byte>, j: nat, n: nat) returns (b: byte)
      requires 1 <= n <= 6 && j + n <= 8 * |pat|
      ensures Bit(b, 7) && forall m :: 0 <= m < n ==> Bit(b, m) == BitAt(pat, j + m)
    {
      hide Bit, SetBit, BitAt;
      b := 0x80;
      TopOnly();
      for i := 0 to n
        invariant Bit(b, 7)
        invariant forall m :: 0 <= m < i ==> Bit(b, m) == BitAt(pat, j + m)
        invariant forall m :: i <= m < 7 ==> !Bit(b, m)
      {
        if BitAt(pat, j + i) {
          SetByteBits(b, i);
          b := SetByteBit(b, i, true);
        }
      }
    }

    /** The chunks of a long transfer, each read back before the next is sent. */
    method TxrxChunks(ghost t: Transfer, tdi: Source, read: bool, plain: nat) returns (tdo: seq<byte>, p: nat, rem: nat)
      requires Valid() && Idle()
      requires t.Sound() && t.tdi == tdi && plain == t.Plain() && t.At(0, Target())
      modifies this`bptr, this`engine, this`waiting, this`wire, this`taken, usbuf
      ensures Valid() && Idle()
      ensures 8 * p + rem == plain && rem / 8 <= 4093 && p % 4093 == 0 && (p > 0 ==> rem / 8 >= 1)
      ensures t.At(8 * p, Target())
      ensures tdo == if read then Pack(t.Bits()[..8 * p]) else []
    {
      hide Execute, Transfer.At, Transfer.Bits, Transfer.Plain, ByteRun, Pack, ChunksLeft;
      var buflen := TX_BUF - 3;
      tdo, p, rem := [], 0, plain;
      BitsLength(t);
      NoChunks(plain);
      while rem / 8 > buflen
        invariant Valid() && Idle()
        invariant 8 * p + rem == plain && ChunksLeft(p, rem)
        invariant t.At(8 * p, Target())
        invariant tdo == if read then Pack(t.Bits()[..8 * p]) else []
      {
        BytesAdvance(t, Target(), p, buflen, read);
        AddBytes(Part(tdi, p, buflen), buflen, read);
        OneChunk(p, rem);
        rem := rem - buflen * 8;
        if read {
          var part := ReadUsb(buflen);
          PackSlices(t.Bits(), 8 * p, 8 * (p + buflen));
          tdo := tdo + part;
        }
        p := p + buflen;
      }
      ChunksDone(p, rem);
    }

    /** The end of a transfer: the bits of an incomplete byte and the bit that moves the state. */
    method TxrxTail(ghost t: Transfer, tdi: Source, read: bool, ghost q: nat, p: nat, unread: nat, rembits: nat,
                    last: bool)
        returns (tail: seq<byte>)
      requires Valid() && Execute(origin, Commands()).1 == []
      requires t.Sound() && t.tdi == tdi && t.last == last && rembits < 8 && 8 * p + rembits == t.Plain()
      requires t.At(8 * p, Target()) && q <= p && unread == p - q
      requires taken <= |Target().reply|
      requires Target().reply[taken..] == if read then Pack(t.Bits()[8 * q..8 * p]) else []
      modifies this`bptr, this`engine, this`waiting, this`wire, this`taken, usbuf
      ensures Valid() && Idle()
      ensures Target().chain == Run(t.c, t.Clocks()) && Target().tms == last
      ensures if read then Pack(t.Bits()[..8 * q]) + tail == Pack(t.Bits()) else tail == []
    {
      hide Execute, Transfer.At, Transfer.Bits, Transfer.Data, Transfer.Clocks, BitRun, TmsRun, Pack, Run, Outs,
           ShiftRight, NumberOf, Bit, Realigned, LastByte;
      ghost var bits := t.Bits();
      BitsLength(t);
      var buflen;
      ghost var x, y;
      buflen, x, y := SendTail(t, tdi, read, q, p, unread, rembits, last);
      tail := [];
      if read {
        tail := ReadTail(bits, q, p, buflen, rembits, last, x, y);
      }
    }

    /** The commands for the bits of an incomplete byte and for the last bit; the answer bytes they add. */
    method SendTail(ghost t: Transfer, tdi: Source, read: bool, ghost q: nat, p: nat, unread: nat, rembits: nat,
                    last: bool)
        returns (buflen: nat, ghost x: byte, ghost y: byte)
      requires Valid() && Execute(origin, Commands()).1 == []
      requires t.Sound() && t.tdi == tdi && t.last == last && rembits < 8 && 8 * p + rembits == t.Plain()
      requires t.At(8 * p, Target()) && q <= p && unread == p - q
      requires taken <= |Target().reply|
      requires |t.Bits()| == 8 * p + rembits + (if last then 1 else 0)
      requires Target().reply[taken..] == if read then Pack(t.Bits()[8 * q..8 * p]) else []
      modifies this`bptr, this`engine, this`waiting, this`wire, usbuf
      ensures Valid() && Execute(origin, Commands()).1 == []
      ensures Target().chain == Run(t.c, t.Clocks()) && Target().tms == last
      ensures buflen == unread + (if rembits > 0 then 1 else 0) + (if last then 1 else 0)
      ensures taken <= |Target().reply|
      ensures !read ==> Target().reply[taken..] == []
      ensures read ==>
        && taken + buflen == |Target().reply|
        && Target().reply[taken..]
           == Pack(t.Bits()[8 * q..8 * p]) + (if rembits > 0 then [x] else []) + (if last then [y] else [])
        && (rembits > 0 ==> ShiftRight(x, 8 - rembits) == NumberOf(t.Bits()[8 * p..8 * p + rembits]))
        && (last ==> Bit(y, 7) == t.Bits()[|t.Bits()| - 1])
    {
      hide Execute, Transfer.At, Transfer.Bits, Transfer.Data, Transfer.Clocks, BitRun, TmsRun, Pack, Run, Outs,
           ShiftRight, NumberOf, Bit, Realigned, LastByte;
      PackLength(t.Bits(), q, p);
      ghost var r := Target().reply;
      x := SendBits(t, tdi, read, p, rembits);
      y := SendLast(t, tdi, read, p, rembits, last);
      buflen := unread + (if rembits != 0 then 1 else 0) + (if last then 1 else 0);
      ReplyGrows(r, taken, if read && rembits > 0 then [x] else [], if read && last then [y] else []);
    }

    /** The bits of an incomplete byte, if there are any. */
    method SendBits(ghost t: Transfer, tdi: Source, read: bool, p: nat, rembits: nat) returns (ghost x: byte)
      requires Valid() && Execute(origin, Commands()).1 == []
      requires t.Sound() && t.tdi == tdi && rembits < 8 && 8 * p + rembits == t.Plain() && t.At(8 * p, Target())
      requires 8 * p + rembits <= |t.Bits()|
      modifies this`bptr, this`engine, this`waiting, this`wire, usbuf
      ensures Valid() && Execute(origin, Commands()).1 == []
      ensures t.At(8 * p + rembits, Target())
      ensures Target().reply == old(Target().reply) + if read && rembits > 0 then [x] else []
      ensures read && rembits > 0 ==> ShiftRight(x, 8 - rembits) == NumberOf(t.Bits()[8 * p..8 * p + rembits])
    {
      hide Execute, Transfer.At, Transfer.Bits, Transfer.Data, Transfer.Clocks, BitRun, Run, Outs, ShiftRight,
           NumberOf, Bit;
      SourceCovers(t, p, rembits);
      x := 0;
      if rembits != 0 {
        BitsAdvance(t, Target(), p, rembits, read);
        AddBits(Part(tdi, p, 1), rembits, read);
        x := Target().reg;
      }
    }

    /** The last bit with its TMS level, if the state is to move. */
    method SendLast(ghost t: Transfer, tdi: Source, read: bool, p: nat, rembits: nat, last: bool)
        returns (ghost y: byte)
      requires Valid() && Execute(origin, Commands()).1 == []
      requires t.Sound() && t.tdi == tdi && t.last == last && rembits < 8 && 8 * p + rembits == t.Plain()
      requires t.At(8 * p + rembits, Target()) && |t.Bits()| == 8 * p + rembits + (if last then 1 else 0)
      modifies this`bptr, this`engine, this`waiting, this`wire, usbuf
      ensures Valid() && Execute(origin, Commands()).1 == []
      ensures Target().chain == Run(t.c, t.Clocks()) && Target().tms == last
      ensures Target().reply == old(Target().reply) + if read && last then [y] else []
      ensures read && last ==> Bit(y, 7) == t.Bits()[|t.Bits()| - 1]
    {
      hide Execute, Transfer.At, Transfer.Bits, Transfer.Data, Transfer.Clocks, TmsRun, Run, Outs, Bit, LastByte;
      BitsLength(t);
      AtTheEnd(t, Target());
      y := 0;
      if last {
        LastAdvances(t, Target(), p, rembits, read);
        AddTms(LastByte(tdi, p, rembits), 1, read);
        y := Target().reg;
      }
    }

    /** Reads the bytes that are due and moves their bits into place. */
    method ReadTail(ghost bits: BitString, ghost q: nat, ghost p: nat, buflen: nat, rembits: nat, last: bool,
                    ghost x: byte, ghost y: byte)
        returns (tail: seq<byte>)
      requires Valid() && Execute(origin, Commands()).1 == []
      requires q <= p && rembits < 8 && |bits| == 8 * p + rembits + (if last then 1 else 0)
      requires rembits > 0 ==> ShiftRight(x, 8 - rembits) == NumberOf(bits[8 * p..8 * p + rembits])
      requires last ==> Bit(y, 7) == bits[|bits| - 1]
      requires taken + buflen == |Target().reply|
      requires Target().reply[taken..]
               == Pack(bits[8 * q..8 * p]) + (if rembits > 0 then [x] else []) + (if last then [y] else [])
      modifies this`bptr, this`engine, this`waiting, this`wire, this`taken, usbuf
      ensures Valid() && Execute(origin, Commands()).1 == [] && Target() == old(Target()) && taken == |Target().reply|
      ensures Pack(bits[..8 * q]) + tail == Pack(bits)
    {
      hide Execute, BitRun, TmsRun, Pack, Run, Outs, ShiftRight, NumberOf, Bit, Realigned;
      SliceToEnd(Target().reply, taken, buflen);
      RealignedIs(bits, q, p, rembits, last, x, y);
      var raw := ReadUsb(buflen);
      tail := Realigned(raw, rembits, last);
    }

    /** What is left of a transfer after its chunks. */
    method TxrxRest(ghost t: Transfer, tdi: Source, read: bool, p0: nat, rem: nat, last: bool) returns (rest: seq<byte>)
      requires Valid() && Idle()
      requires t.Sound() && t.tdi == tdi && t.last == last && 8 * p0 + rem == t.Plain() && rem / 8 <= 4093
      requires t.At(8 * p0, Target())
      modifies this`bptr, this`engine, this`waiting, this`wire, this`taken, usbuf
      ensures Valid() && Idle()
      ensures Target().chain == Run(t.c, t.Clocks()) && Target().tms == last
      ensures 8 * p0 <= |t.Bits()|
      ensures if read then Pack(t.Bits()[..8 * p0]) + rest == Pack(t.Bits()) else rest == []
    {
      hide Execute, Transfer.At, Transfer.Bits, Transfer.Data, Transfer.Clocks, ByteRun, Pack, Run, Outs;
      ghost var bits := t.Bits();
      BitsLength(t);
      SourceCovers(t, p0, rem);
      rest := [];
      var p := p0;
      ghost var q := p0;
      var rembits := rem % 8;
      var buflen := rem / 8;
      PackNothing(bits, p0);
      if buflen > 0 {
        BytesAdvance(t, Target(), p, buflen, read);
        AddBytes(Part(tdi, p, buflen), buflen, read);
        p := p + buflen;
      }
      PackLength(bits, p0, p);
      PackSlices(bits, 8 * p0, 8 * p);
      if buflen >= TX_BUF - 4 {
        if read {
          rest := ReadUsb(buflen);
        }
        q := p;
        buflen := 0;
        PackNothing(bits, p);
      }
      var tail := TxrxTail(t, tdi, read, q, p, buflen, rembits, last);
      RestJoins(bits, p0, q, rest, tail, read);
      rest := rest + tail;
    }

    /** A transfer in MPSSE commands, the bit that moves the state sent as a TMS command. */
    method TxrxBlock(tdi: Source, read: bool, length: nat, last: bool) returns (tdo: seq<byte>, ghost data: BitString)
      requires Valid() && Ready() && length >= 1 && Provides(tdi, length) && (tdi.Bytes? || read)
      requires TmsLow(asked)
      modifies this`bptr, this`engine, this`waiting, this`wire, this`taken, this`asked, usbuf
      ensures Valid() && Ready()
      ensures Drives(data, tdi, length)
      ensures asked == old(asked) + DataClocks(data, last)
      ensures tdo == if read then Pack(Outs(old(Target().chain), DataClocks(data, last))) else []
    {
      hide Execute, Transfer.At, ByteRun, BitRun, TmsRun, Pack, Run, Outs, FtdiData, InStep;
      ghost var e := Target();
      LowInStep(origin.chain, e, asked);
      ghost var t := Transfer(Target().chain, tdi, length, last, Target().tdi);
      data := t.Data();
      TransferBegins(t, Target());
      var plain := if last then length - 1 else length;
      var p, rem;
      tdo, p, rem := TxrxChunks(t, tdi, read, plain);
      var rest := TxrxRest(t, tdi, read, p, rem, last);
      tdo := tdo + rest;
      FtdiDataDrives(t);
      DataInStep(origin.chain, e, asked, data, last, Target());
      asked := asked + DataClocks(data, last);
    }
  }

  lemma ImmediateIsSilent(o: Engine, s: seq<byte>)
    requires Execute(o, s).1 == []
    ensures Execute(o, s + [SEND_IMMEDIATE]) == Execute(o, s)
  {
    hide Execute;
    ExecuteAppend(o, s, [SEND_IMMEDIATE]);
    assert [] + [SEND_IMMEDIATE] == [SEND_IMMEDIATE];
    ExecuteOne(Execute(o, s).0, [SEND_IMMEDIATE]);
  }

  lemma TopOnly()
    ensures Bit(0x80, 7) && forall m :: 0 <= m < 7 ==> !Bit(0x80, m)
  {
    ZeroHasNoBit(7);
    AddBit(0, 7, true);
    assert Exp2(7) == 128;
    forall m | 0 <= m < 7
      ensures !Bit(0x80, m)
    {
      SetBitBits(0, 7, true, m);
      ZeroHasNoBit(m);
    }
    SetBitBits(0, 7, true, 7);
  }

  lemma SetByteBits(b: byte, i: nat)
    requires i < 8
    ensures forall m: nat :: Bit(SetByteBit(b, i, true), m) == if m == i then true else Bit(b, m)
  {
    forall m: nat
      ensures Bit(SetByteBit(b, i, true), m) == if m == i then true else Bit(b, m)
    {
      SetBitBits(b, i, true, m);
    }
  }

  lemma TmsNothing(c: Chain, pat: seq<byte>)
    ensures Run(c, TmsClocks(BitsOf(pat, 0))) == c
  {
    assert TmsClocks(BitsOf(pat, 0)) == [];
  }

  /** One TMS command clocks the next bits of the pattern. */
  lemma TmsGroup(c: Chain, e: Engine, pat: seq<byte>, j: nat, n: nat, b: byte)
    requires 1 <= n <= 6 && j + n <= 8 * |pat|
    requires e.chain == Run(c, TmsClocks(BitsOf(pat, j)))
    requires Bit(b, 7) && forall m :: 0 <= m < n ==> Bit(b, m) == BitAt(pat, j + m)
    ensures var r := TmsRun(e, b, n, false);
      && r.chain == Run(c, TmsClocks(BitsOf(pat, j + n)))
      && r.tms == BitAt(pat, j + n - 1)
      && r.reply == e.reply
  {
    hide Run, Outs, TmsRun, Bit, BitAt;
    TmsRunIs(e, b, n, false);
    assert TmsClocks(BitsOf(pat, j + n)) == TmsClocks(BitsOf(pat, j)) + TmsLevels(b, n);
    RunAppend(c, TmsClocks(BitsOf(pat, j)), TmsLevels(b, n));
    assert Bit(b, n - 1) == BitAt(pat, j + (n - 1));
  }

  lemma BitsLength(t: Transfer)
    requires t.Sound()
    ensures |t.Bits()| == t.length && t.Plain() <= t.length
  {
  }

  lemma PackSlices(bits: BitString, a: nat, b: nat)
    requires a <= b <= |bits| && a % 8 == 0
    ensures Pack(bits[..b]) == Pack(bits[..a]) + Pack(bits[a..b])
  {
    hide Pack;
    assert bits[..b] == bits[..a] + bits[a..b];
    PackJoin(bits[..a], bits[a..b]);
  }

  lemma FtdiDataDrives(t: Transfer)
    requires t.Sound()
    ensures Drives(t.Data(), t.tdi, t.length)
  {
  }

  lemma SourceCovers(t: Transfer, p: nat, rem: nat)
    requires t.Sound() && 8 * p + rem == t.Plain()
    ensures t.tdi.Bytes? ==> p + rem / 8 <= |t.tdi.bytes| && (rem % 8 > 0 || t.last ==> p + rem / 8 < |t.tdi.bytes|)
  {
  }

  lemma PackNothing(bits: BitString, p: nat)
    requires 8 * p <= |bits|
    ensures Pack(bits[8 * p..8 * p]) == []
  {
  }

  lemma PackLength(bits: BitString, q: nat, p: nat)
    requires q <= p && 8 * p <= |bits|
    ensures |Pack(bits[8 * q..8 * p])| == p - q
  {
  }

  lemma AtTheEnd(t: Transfer, e: Engine)
    requires t.Sound()
    ensures !t.last && t.At(t.length, e) ==> e.chain == Run(t.c, t.Clocks()) && !e.tms
  {
    hide Run, Outs;
    assert t.Clocks()[..t.length] == t.Clocks();
  }

  lemma ReplyGrows(r: seq<byte>, taken: nat, a: seq<byte>, b: seq<byte>)
    requires taken <= |r|
    ensures (r + a + b)[taken..] == r[taken..] + a + b
  {
  }

  lemma SliceToEnd(s: seq<byte>, a: nat, n: nat)
    requires a + n == |s|
    ensures s[a..a + n] == s[a..]
  {
  }

  lemma RestJoins(bits: BitString, p0: nat, q: nat, rest: seq<byte>, tail: seq<byte>, read: bool)
    requires p0 <= q && 8 * q <= |bits|
    requires read ==> Pack(bits[..8 * q]) + tail == Pack(bits)
    requires read ==> (q == p0 && rest == []) || rest == Pack(bits[8 * p0..8 * q])
    ensures read ==> Pack(bits[..8 * p0]) + (rest + tail) == Pack(bits)
  {
    hide Pack;
    PackSlices(bits, 8 * p0, 8 * q);
    if read {
      var a := Pack(bits[..8 * p0]);
      assert a + (rest + tail) == a + rest + tail;
      assert a + [] == a;
    }
  }
}
