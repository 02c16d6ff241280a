/** The FTDI command processor, as FTDI's application note AN_108 describes the commands that ioftdi.cpp uses. */
module Mpsse {
  import opened Bits
  import opened ScanChain
  import opened IoBase

  /**
   * The engine between USB and the pins: the hardware it drives, the levels its pins keep
   * between commands, the shift register TDO enters from the top, and the bytes for the host.
   */
  datatype Engine = Engine(chain: Chain, tms: bool, tdi: bool, reg: byte, reply: seq<byte>)

  // ---- Command bytes ----

  predicate WritesFalling(op: byte) { op % 2 == 1 }
  predicate CountsBits(op: byte) { op / 2 % 2 == 1 }
  predicate ReadsFalling(op: byte) { op / 4 % 2 == 1 }
  predicate LsbFirst(op: byte) { op / 8 % 2 == 1 }
  predicate Writes(op: byte) { op / 16 % 2 == 1 }
  predicate Reads(op: byte) { op / 32 % 2 == 1 }
  predicate WritesTms(op: byte) { op / 64 % 2 == 1 }

  /**
   * The data and TMS commands that are modelled: levels change with the falling edge of TCK and
   * are sampled with it. TMS bits always go out least significant bit first.
   */
  predicate Understood(op: byte) {
    && op < 0x80 && WritesFalling(op) && (Reads(op) ==> ReadsFalling(op))
    && (WritesTms(op) ==> LsbFirst(op) && CountsBits(op) && !Writes(op))
  }

  // ---- Clocking ----

  /** The shift register after one more sample. */
  function Rotated(reg: byte, v: bool): byte {
    reg / 2 + if v then 128 else 0
  }

  function Collected(reg: byte, bits: BitString): byte {
    if bits == [] then reg else Rotated(Collected(reg, bits[..|bits| - 1]), bits[|bits| - 1])
  }

  function Pulse(e: Engine, k: Clock, read: bool): Engine {
    e.(chain := Tick(e.chain, k), tms := k.tms, tdi := k.tdi,
       reg := if read then Rotated(e.reg, Tdo(e.chain, k)) else e.reg)
  }

  function Pulses(e: Engine, ks: seq<Clock>, read: bool): Engine {
    if ks == [] then e else Pulse(Pulses(e, ks[..|ks| - 1], read), ks[|ks| - 1], read)
  }

  lemma {:induction false} PulsesAre(e: Engine, ks: seq<Clock>, read: bool)
    ensures Pulses(e, ks, read) == Engine(
      Run(e.chain, ks),
      if ks == [] then e.tms else ks[|ks| - 1].tms,
      if ks == [] then e.tdi else ks[|ks| - 1].tdi,
      if read then Collected(e.reg, Outs(e.chain, ks)) else e.reg,
      e.reply)
  {
    hide Tick, Tdo, Rotated;
    if ks != [] {
      var n := |ks| - 1;
      PulsesAre(e, ks[..n], read);
      var o := Outs(e.chain, ks[..n]);
      var v := Tdo(Run(e.chain, ks[..n]), ks[n]);
      assert (o + [v])[..|o + [v]| - 1] == o;
    }
  }

  /** Once eight bits have been collected nothing of the old contents is left; fewer sit at the top. */
  lemma {:induction false} CollectedBits(reg: byte, bits: BitString, i: nat)
    requires i < |bits| <= 8
    ensures Bit(Collected(reg, bits), 8 - |bits| + i) == bits[i]
  {
    var n := |bits| - 1;
    var c := Collected(reg, bits[..n]);
    if i == n {
      TopBit(c, bits[n]);
    } else {
      CollectedBits(reg, bits[..n], i);
      LowerBits(c, bits[n], 8 - n + i - 1);
    }
  }

  lemma TopBit(c: byte, v: bool)
    ensures Bit(Rotated(c, v), 7) == v
  {
    HalfIsSmall(c);
    AddBit(c / 2, 7, v);
    SetBitBits(c / 2, 7, v, 7);
    assert Exp2(7) == 128;
  }

  lemma HalfIsSmall(c: byte)
    ensures !Bit(c / 2, 7)
  {
    assert Exp2(7) == 128;
    NoBit(c / 2, 7, 7);
  }

  lemma LowerBits(c: byte, v: bool, k: nat)
    requires k < 7
    ensures Bit(Rotated(c, v), k) == Bit(c, k + 1)
  {
    HalfIsSmall(c);
    AddBit(c / 2, 7, v);
    SetBitBits(c / 2, 7, v, k);
    assert Exp2(7) == 128;
  }

  /** Shifted down, the register is the number of the bits collected. */
  lemma CollectedNumber(reg: byte, bits: BitString)
    requires |bits| <= 8
    ensures ShiftRight(Collected(reg, bits), 8 - |bits|) == NumberOf(bits)
  {
    hide Collected, NumberOf, Bit, ShiftRight;
    var c, n := Collected(reg, bits), |bits|;
    ShiftRightRange(c, 8 - n, n);
    forall k: nat | k < n
      ensures Bit(ShiftRight(c, 8 - n), k) == Bit(NumberOf(bits), k)
    {
      ShiftRightBits(c, 8 - n, k);
      CollectedBits(reg, bits, k);
      NumberBits(bits, k);
    }
    SameBits(ShiftRight(c, 8 - n), NumberOf(bits), n);
  }

  lemma {:induction false} ShiftRightRange(n: nat, m: nat, w: nat)
    requires n < Exp2(m + w)
    ensures ShiftRight(n, m) < Exp2(w)
  {
    if m > 0 {
      ShiftRightRange(n / 2, m - 1, w);
    }
  }

  // ---- Commands ----

  /** Clocks at a constant TMS level. */
  function Level(tms: bool, data: BitString): (r: seq<Clock>)
    ensures |r| == |data|
    ensures forall i :: 0 <= i < |data| ==> r[i] == Clock(tms, data[i])
  {
    seq(|data|, i requires 0 <= i < |data| => Clock(tms, data[i]))
  }

  /** The bits that the command puts on TDI: those of its payload, or the level the pin has. */
  function Payload(e: Engine, payload: Source, n: nat): BitString
    requires Provides(payload, n)
  {
    if payload.Bytes? then BitsOf(payload.bytes, n) else Repeat(e.tdi, n)
  }

  function Answered(e: Engine, read: bool): Engine {
    if read then e.(reply := e.reply + [e.reg]) else e
  }

  /** Whole bytes, each answered as soon as it is complete. */
  function ByteRun(e: Engine, payload: Source, n: nat, read: bool): Engine
    requires Provides(payload, 8 * n)
  {
    if n == 0 then e
    else
      var p := ByteRun(e, payload, n - 1, read);
      Answered(Pulses(p, Level(p.tms, Payload(p, payload, 8 * n)[8 * (n - 1)..]), read), read)
  }

  function BitRun(e: Engine, payload: Source, n: nat, read: bool): Engine
    requires Provides(payload, n)
  {
    Answered(Pulses(e, Level(e.tms, Payload(e, payload, n)), read), read)
  }

  /** Clocks that put the low bits of a byte on TMS while its top bit stands on TDI. */
  function TmsLevels(b: byte, n: nat): (r: seq<Clock>)
    ensures |r| == n
  {
    seq(n, i requires 0 <= i < n => Clock(Bit(b, i), Bit(b, 7)))
  }

  function TmsRun(e: Engine, b: byte, n: nat, read: bool): Engine {
    Answered(Pulses(e, TmsLevels(b, n), read), read)
  }

  /** The length of the command that a byte stream starts with, as far as it can be told. */
  function Need(s: seq<byte>): (n: nat)
    requires s != []
    ensures n >= 1
  {
    if s[0] >= 0x80 then 1
    else if WritesTms(s[0]) then 3
    else if CountsBits(s[0]) then (if Writes(s[0]) then 3 else 2)
    else if |s| < 3 || !Writes(s[0]) then 3
    else 4 + ByteCount(s)
  }

  /** The length field of a byte command: one less than the number of bytes. */
  function ByteCount(s: seq<byte>): nat
    requires |s| >= 3
  {
    var lo: int, hi: int := s[1], s[2];
    lo + 256 * hi
  }

  predicate Complete(s: seq<byte>) {
    s != [] && Need(s) <= |s|
  }

  /** A data command on its payload, least significant bit first. */
  function DataRun(e: Engine, s: seq<byte>, payload: Source): Engine
    requires Complete(s) && s[0] < 0x80 && !WritesTms(s[0])
    requires payload.Bytes? ==> |payload.bytes| == |Carried(s)|
    requires payload.Bytes? <==> Writes(s[0])
  {
    if CountsBits(s[0]) then BitRun(e, payload, (s[1] as nat) % 8 + 1, Reads(s[0]))
    else ByteRun(e, payload, ByteCount(s) + 1, Reads(s[0]))
  }

  /** The payload bytes of a data command. */
  function Carried(s: seq<byte>): seq<byte>
    requires Complete(s) && s[0] < 0x80 && !WritesTms(s[0])
  {
    if !Writes(s[0]) then [] else if CountsBits(s[0]) then [s[2]] else s[3..4 + ByteCount(s)]
  }

  /** Every byte with its bits the other way round. */
  function Mirrored(bytes: seq<byte>): (r: seq<byte>)
    ensures |r| == |bytes|
  {
    seq(|bytes|, i requires 0 <= i < |bytes| => Reverse(bytes[i]))
  }

  /**
   * One command. Most significant bit first is the same as least significant bit first with the bits
   * of every byte sent, of every byte answered and of the register the other way round. A command
   * that is not modelled clocks nothing and is answered with 0xFA and its first byte.
   */
  function Step(e: Engine, s: seq<byte>): Engine
    requires Complete(s)
  {
    var op := s[0];
    if op == 0x87 then e
    else if !Understood(op) then e.(reply := e.reply + [0xFA, op])
    else if WritesTms(op) then TmsRun(e, s[2], (s[1] as nat) + 1, Reads(op))
    else if LsbFirst(op) then DataRun(e, s, if Writes(op) then Bytes(Carried(s)) else Null)
    else
      var r := DataRun(e.(reg := Reverse(e.reg), reply := []), s,
                       if Writes(op) then Bytes(Mirrored(Carried(s))) else Null);
      r.(reg := Reverse(r.reg), reply := e.reply + Mirrored(r.reply))
  }

  /** Most significant bit first, the bits of a byte go out from the top. */
  lemma MsbFirst(e: Engine, b: byte)
    ensures Step(e, [0x11, 0, 0, b]).chain == Run(e.chain, Level(e.tms, ReversedBits(b)))
  {
    hide Run, Outs, Bit, Reverse, ByteRun, ReversedBits, Understood, LsbFirst, WritesTms, CountsBits, Writes, Reads,
         Pack;
    var s: seq<byte> := [0x11, 0, 0, b];
    MsbFlags();
    assert ByteCount(s) == 0 && s[3..4] == [b];
    ByteRunIs(e.(reg := Reverse(e.reg), reply := []), Bytes(Mirrored([b])), 1, false);
    MirroredByte(b);
  }

  lemma MsbFlags()
    ensures Understood(0x11) && !LsbFirst(0x11) && !WritesTms(0x11) && !CountsBits(0x11) && Writes(0x11) && !Reads(0x11)
  {
  }

  lemma MirroredByte(b: byte)
    ensures BitsOf(Mirrored([b]), 8) == ReversedBits(b)
  {
    hide Bit, Reverse;
    forall k: nat | k < 8
      ensures Bit(Reverse(b), k) == ReversedBits(b)[k]
    {
      ReverseBits(b, k);
    }
  }

  /** Executes every complete command; what is left waits for more bytes. */
  function Execute(e: Engine, s: seq<byte>): (r: (Engine, seq<byte>))
    decreases |s|
  {
    if Complete(s) then Execute(Step(e, s[..Need(s)]), s[Need(s)..]) else (e, s)
  }

  lemma NeedAppend(a: seq<byte>, b: seq<byte>)
    requires Complete(a)
    ensures Complete(a + b) && Need(a + b) == Need(a)
    ensures Complete(a[..Need(a)]) && Need(a[..Need(a)]) == Need(a)
    ensures (a + b)[..Need(a)] == a[..Need(a)]
    ensures (a + b)[Need(a)..] == a[Need(a)..] + b
  {
  }

  /** Splitting the byte stream anywhere changes nothing: an incomplete command waits for its rest. */
  lemma {:induction false} ExecuteAppend(e: Engine, a: seq<byte>, b: seq<byte>)
    ensures Execute(e, a + b) == Execute(Execute(e, a).0, Execute(e, a).1 + b)
    decreases |a|
  {
    hide Step, Need;
    if Complete(a) {
      NeedAppend(a, b);
      ExecuteAppend(Step(e, a[..Need(a)]), a[Need(a)..], b);
    }
  }

  lemma ExecuteOne(e: Engine, s: seq<byte>)
    requires Complete(s) && Need(s) == |s|
    ensures Execute(e, s) == (Step(e, s), [])
  {
    hide Step;
    assert s[..|s|] == s && s[|s|..] == [];
    assert !Complete([]);
  }

  lemma PayloadSplit(e: Engine, p: Engine, payload: Source, n: nat)
    requires n > 0 && Provides(payload, 8 * n)
             && p.tdi == (if n == 1 then e.tdi else Payload(e, payload, 8 * (n - 1))[8 * (n - 1) - 1])
    ensures var data := Payload(e, payload, 8 * n);
      && data[..8 * (n - 1)] == Payload(e, payload, 8 * (n - 1))
      && data[8 * (n - 1)..] == Payload(p, payload, 8 * n)[8 * (n - 1)..]
  {
  }

  lemma LevelSplit(tms: bool, data: BitString, m: nat)
    requires m <= |data|
    ensures Level(tms, data) == Level(tms, data[..m]) + Level(tms, data[m..])
  {
  }

  /** A byte command clocks its payload and answers with the whole bytes read. */
  lemma {:induction false} ByteRunIs(e: Engine, payload: Source, n: nat, read: bool)
    requires Provides(payload, 8 * n)
    ensures var (r, data) := (ByteRun(e, payload, n, read), Payload(e, payload, 8 * n));
      var ks := Level(e.tms, data);
      && |data| == 8 * n
      && r.chain == Run(e.chain, ks)
      && r.tms == e.tms
      && r.tdi == (if n == 0 then e.tdi else data[8 * n - 1])
      && r.reply == e.reply + if read then Pack(Outs(e.chain, ks)) else []
  {
    hide Run, Outs, Pulses, Pack, Collected, Level, Payload, Answered;
    PayloadLength(e, payload, 8 * n);
    if n == 0 {
      RunNothing(e.chain, e.tms);
      assert Payload(e, payload, 0) == [];
    } else {
      var p := ByteRun(e, payload, n - 1, read);
      ByteRunIs(e, payload, n - 1, read);
      PayloadSplit(e, p, payload, n);
      var data := Payload(e, payload, 8 * n);
      OneMoreByte(e, p, data, 8 * (n - 1), read);
    }
  }

  /** One byte more after whole bytes. */
  lemma OneMoreByte(e: Engine, p: Engine, data: BitString, m: nat, read: bool)
    requires |data| == m + 8 && m % 8 == 0 && p.tms == e.tms
    requires p.chain == Run(e.chain, Level(e.tms, data[..m]))
    requires p.reply == e.reply + if read then Pack(Outs(e.chain, Level(e.tms, data[..m]))) else []
    ensures var (r, ks) := (Answered(Pulses(p, Level(p.tms, data[m..]), read), read), Level(e.tms, data));
      && r.chain == Run(e.chain, ks) && r.tms == e.tms && r.tdi == data[m + 7]
      && r.reply == e.reply + if read then Pack(Outs(e.chain, ks)) else []
  {
    hide Run, Outs, Pulses, Pack, Collected;
    var (k0, k1) := (Level(e.tms, data[..m]), Level(e.tms, data[m..]));
    LevelSplit(e.tms, data, m);
    RunAppend(e.chain, k0, k1);
    PulsesAre(p, k1, read);
    assert k1[7] == Clock(e.tms, data[m..][7]);
    if read {
      var (o0, o1) := (Outs(e.chain, k0), Outs(p.chain, k1));
      PackOneByte(o0, o1, p.reg);
      assert e.reply + Pack(o0) + [Collected(p.reg, o1)] == e.reply + (Pack(o0) + [Collected(p.reg, o1)]);
    }
  }

  lemma RunNothing(c: Chain, tms: bool)
    ensures Level(tms, []) == [] && Run(c, []) == c && Outs(c, []) == [] && Pack([]) == []
  {
  }

  lemma PayloadLength(e: Engine, payload: Source, n: nat)
    requires Provides(payload, n)
    ensures |Payload(e, payload, n)| == n
  {
  }

  lemma PackOneByte(a: BitString, b: BitString, reg: byte)
    requires |a| % 8 == 0 && |b| == 8
    ensures Pack(a + b) == Pack(a) + [Collected(reg, b)]
  {
    hide Pack, NumberOf, Collected;
    var j := |a| / 8;
    assert (a + b)[..8 * j] == a && (a + b)[8 * j..] == b;
    PackSplit(a + b, j);
    CollectedNumber(reg, b);
    assert ShiftRight(Collected(reg, b), 0) == Collected(reg, b);
  }

  /** A bit command clocks the low bits of its payload byte and answers with the register, bits at the top. */
  lemma BitRunIs(e: Engine, payload: Source, n: nat, read: bool)
    requires 1 <= n <= 8 && Provides(payload, n)
    ensures var (r, data) := (BitRun(e, payload, n, read), Payload(e, payload, n));
      var ks := Level(e.tms, data);
      && |data| == n
      && r.chain == Run(e.chain, ks)
      && r.tms == e.tms
      && r.tdi == data[n - 1]
      && r.reply == (if read then e.reply + [r.reg] else e.reply)
      && (read ==> ShiftRight(r.reg, 8 - n) == NumberOf(Outs(e.chain, ks)))
  {
    hide Run, Outs, Tick, Pulses, NumberOf, ShiftRight, Collected, Bit;
    var ks := Level(e.tms, Payload(e, payload, n));
    PulsesAre(e, ks, read);
    CollectedNumber(e.reg, Outs(e.chain, ks));
  }

  /** A TMS command; a single TDO sample comes back as the top bit. */
  lemma TmsRunIs(e: Engine, b: byte, n: nat, read: bool)
    requires 1 <= n <= 7
    ensures var r := TmsRun(e, b, n, read);
      && r.chain == Run(e.chain, TmsLevels(b, n))
      && r.tms == Bit(b, n - 1)
      && r.tdi == Bit(b, 7)
      && r.reply == (if read then e.reply + [r.reg] else e.reply)
      && (read && n == 1 ==> [Bit(r.reg, 7)] == Outs(e.chain, TmsLevels(b, n)))
  {
    hide Run, Outs, Tick, Pulses, Collected, Bit;
    var ks := TmsLevels(b, n);
    PulsesAre(e, ks, read);
    if n == 1 {
      CollectedBits(e.reg, Outs(e.chain, ks), 0);
    }
  }
}
