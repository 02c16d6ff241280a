/** The hardware: a chain of devices with one TAP controller state (IEEE Std 1149.1, clauses 6, 7, 10 and 12). */
module ScanChain {
  import opened Bits
  import opened Tap

  /** One TCK cycle: the levels of TMS and TDI at its rising edge. */
  datatype Clock = Clock(tms: bool, tdi: bool)

  /**
   * One device. `stage` is the shift register between its TDI and TDO pins, with element 0
   * next to TDO; `sense` gives, for each instruction that selects a register other than
   * bypass, the value that register loads in Capture-DR; `held` what Update-DR last put there.
   */
  datatype Device = Device(
    irLength: nat,
    status: BitString,
    resetCode: BitString,
    sense: map<BitString, BitString>,
    ir: BitString,
    held: map<BitString, BitString>,
    stage: BitString)

  /** The chain: device 0 is the one next to the cable's TDI, the last one drives TDO. */
  datatype Chain = Chain(tap: Known, devices: seq<Device>)

  function Ones(n: nat): BitString {
    Repeat(true, n)
  }

  /** The register the current instruction puts between TDI and TDO, as it captures. */
  function Selected(d: Device): BitString {
    if d.ir in d.sense then d.sense[d.ir] else [false]
  }

  predicate ValidDevice(d: Device) {
    && d.irLength >= 1
    && |d.status| == |d.resetCode| == |d.ir| == d.irLength
    && Ones(d.irLength) !in d.sense
    && (forall code :: code in d.sense ==> |d.sense[code]| >= 1)
    && |d.stage| >= 1
  }

  /** In a column, past its capture, the stage has the length of the selected register. */
  predicate StageFits(d: Device, s: Known) {
    && (InIrColumn(s) && s != CaptureIr ==> |d.stage| == d.irLength)
    && (InDrColumn(s) && s != CaptureDr ==> |d.stage| == |Selected(d)|)
  }

  predicate ValidChain(c: Chain) {
    forall i :: 0 <= i < |c.devices| ==> ValidDevice(c.devices[i]) && StageFits(c.devices[i], c.tap)
  }

  // ---- One clock ----

  predicate Shifting(s: TapState) {
    s.ShiftDr? || s.ShiftIr?
  }

  /** The level at the end of a run of devices while they shift. */
  function ShiftedOut(ds: seq<Device>, tdi: bool): bool {
    if ds == [] then tdi
    else
      var n := |ds| - 1;
      if ds[n].stage == [] then ShiftedOut(ds[..n], tdi) else ds[n].stage[0]
  }

  /** Every stage moves one place towards TDO and takes its neighbour's bit. */
  function Shifted(ds: seq<Device>, tdi: bool): (r: seq<Device>)
    ensures |r| == |ds|
  {
    if ds == [] then []
    else
      var n := |ds| - 1;
      var d := ds[n];
      var stage := if d.stage == [] then [] else d.stage[1..] + [ShiftedOut(ds[..n], tdi)];
      Shifted(ds[..n], tdi) + [d.(stage := stage)]
  }

  function Captured(d: Device, s: Known): Device {
    if s == CaptureIr then d.(stage := d.status)
    else if s == CaptureDr then d.(stage := Selected(d))
    else d
  }

  /** What the falling edge does in the state just entered. */
  function Updated(d: Device, s: Known): Device {
    if s == TestLogicReset then d.(ir := d.resetCode)
    else if s == UpdateIr then d.(ir := d.stage)
    else if s == UpdateDr && d.ir in d.sense then d.(held := d.held[d.ir := d.stage])
    else d
  }

  function Risen(c: Chain, tdi: bool): (r: seq<Device>)
    ensures |r| == |c.devices|
  {
    if Shifting(c.tap) then Shifted(c.devices, tdi)
    else seq(|c.devices|, i requires 0 <= i < |c.devices| => Captured(c.devices[i], c.tap))
  }

  /** The rising edge captures or shifts and moves the controller; the falling edge updates. */
  function Tick(c: Chain, k: Clock): Chain {
    var s := Next(c.tap, k.tms);
    var ds := Risen(c, k.tdi);
    Chain(s, seq(|ds|, i requires 0 <= i < |ds| => Updated(ds[i], s)))
  }

  /** The level of TDO during the clock; the line is released, and reads as one, outside the shift states. */
  function Tdo(c: Chain, k: Clock): bool {
    if Shifting(c.tap) then ShiftedOut(c.devices, k.tdi) else true
  }

  // ---- Runs ----

  function Run(c: Chain, ks: seq<Clock>): Chain {
    if ks == [] then c else Tick(Run(c, ks[..|ks| - 1]), ks[|ks| - 1])
  }

  /** The levels of TDO seen along a run. */
  function Outs(c: Chain, ks: seq<Clock>): (r: BitString)
    ensures |r| == |ks|
  {
    if ks == [] then []
    else
      var n := |ks| - 1;
      Outs(c, ks[..n]) + [Tdo(Run(c, ks[..n]), ks[n])]
  }

  function TmsOf(ks: seq<Clock>): (r: BitString)
    ensures |r| == |ks|
  {
    seq(|ks|, i requires 0 <= i < |ks| => ks[i].tms)
  }

  function TdiOf(ks: seq<Clock>): (r: BitString)
    ensures |r| == |ks|
  {
    seq(|ks|, i requires 0 <= i < |ks| => ks[i].tdi)
  }

  /** Clocks that only steer the controller; every cable holds TDI high during them. */
  function TmsClocks(tms: BitString): (r: seq<Clock>)
    ensures |r| == |tms|
    ensures forall i :: 0 <= i < |r| ==> r[i] == Clock(tms[i], true)
  {
    seq(|tms|, i requires 0 <= i < |tms| => Clock(tms[i], true))
  }

  /** Clocks that shift data, with TMS high only on the last one and only if asked. */
  function DataClocks(data: BitString, last: bool): (r: seq<Clock>)
    ensures |r| == |data|
    ensures forall i :: 0 <= i < |r| ==> r[i] == Clock(last && i == |data| - 1, data[i])
  {
    seq(|data|, i requires 0 <= i < |data| => Clock(last && i == |data| - 1, data[i]))
  }

  lemma RunOne(c: Chain, ks: seq<Clock>, k: Clock)
    ensures Run(c, ks + [k]) == Tick(Run(c, ks), k)
    ensures Outs(c, ks + [k]) == Outs(c, ks) + [Tdo(Run(c, ks), k)]
  {
    assert (ks + [k])[..|ks|] == ks;
  }

  lemma RunPrefix(c: Chain, ks: seq<Clock>, i: nat)
    requires i < |ks|
    ensures ks[..i + 1] == ks[..i] + [ks[i]]
    ensures Run(c, ks[..i + 1]) == Tick(Run(c, ks[..i]), ks[i])
    ensures Outs(c, ks[..i + 1]) == Outs(c, ks[..i]) + [Tdo(Run(c, ks[..i]), ks[i])]
  {
    hide *;
    RunOne(c, ks[..i], ks[i]);
    assert ks[..i + 1] == ks[..i] + [ks[i]];
  }

  lemma {:induction false} RunAppend(c: Chain, a: seq<Clock>, b: seq<Clock>)
    ensures Run(c, a + b) == Run(Run(c, a), b)
    ensures Outs(c, a + b) == Outs(c, a) + Outs(Run(c, a), b)
  {
    hide Tick, Tdo;
    if b == [] {
      assert a + b == a;
    } else {
      var n := |b| - 1;
      RunAppend(c, a, b[..n]);
      RunOne(c, a + b[..n], b[n]);
      assert a + b == a + b[..n] + [b[n]];
    }
  }

  /** The chain's controller walks the TMS bits and nothing else. */
  lemma {:induction false} RunWalks(c: Chain, ks: seq<Clock>)
    ensures Run(c, ks).tap == Walk(c.tap, TmsOf(ks))
    ensures |Run(c, ks).devices| == |c.devices|
  {
    hide Walk, Tick;
    if ks != [] {
      var n := |ks| - 1;
      RunWalks(c, ks[..n]);
      WalkOne(c.tap, TmsOf(ks[..n]), ks[n].tms);
      assert TmsOf(ks) == TmsOf(ks[..n]) + [ks[n].tms];
      TickMoves(Run(c, ks[..n]), ks[n]);
    } else {
      WalkNothing(c.tap);
      assert TmsOf(ks) == [];
    }
  }

  lemma TickMoves(c: Chain, k: Clock)
    ensures Tick(c, k).tap == Next(c.tap, k.tms) && |Tick(c, k).devices| == |c.devices|
  {
  }

  lemma WalkNothing(s: Known)
    ensures Walk(s, []) == s
  {
  }

  // ---- Validity is kept ----

  lemma {:induction false} ShiftedKeeps(ds: seq<Device>, tdi: bool, i: nat)
    requires i < |ds|
    ensures Shifted(ds, tdi)[i] == ds[i].(stage := Shifted(ds, tdi)[i].stage)
    ensures |Shifted(ds, tdi)[i].stage| == |ds[i].stage|
  {
    var n := |ds| - 1;
    if i < n {
      ShiftedKeeps(ds[..n], tdi, i);
    }
  }

  /** In a column the stage that is about to be updated has the length of its register. */
  predicate StageReady(d: Device, s: Known) {
    && (InIrColumn(s) ==> |d.stage| == d.irLength)
    && (InDrColumn(s) ==> |d.stage| == |Selected(d)|)
  }

  lemma CapturedReady(d: Device, s: Known)
    requires ValidDevice(d) && StageFits(d, s)
    ensures ValidDevice(Captured(d, s)) && StageReady(Captured(d, s), s)
  {
  }

  lemma UpdatedFits(d: Device, s: Known, tms: bool)
    requires ValidDevice(d) && StageReady(d, s)
    ensures ValidDevice(Updated(d, Next(s, tms))) && StageFits(Updated(d, Next(s, tms)), Next(s, tms))
  {
  }

  lemma RisenReady(c: Chain, tdi: bool, i: nat)
    requires ValidChain(c) && i < |c.devices|
    ensures ValidDevice(Risen(c, tdi)[i]) && StageReady(Risen(c, tdi)[i], c.tap)
  {
    if Shifting(c.tap) {
      hide Shifted;
      ShiftedKeeps(c.devices, tdi, i);
    } else {
      CapturedReady(c.devices[i], c.tap);
    }
  }

  lemma TickValid(c: Chain, k: Clock)
    requires ValidChain(c)
    ensures ValidChain(Tick(c, k))
  {
    hide Risen, Next, Updated, ValidDevice, StageFits, StageReady;
    forall i | 0 <= i < |c.devices|
      ensures ValidDevice(Tick(c, k).devices[i]) && StageFits(Tick(c, k).devices[i], Tick(c, k).tap)
    {
      RisenReady(c, k.tdi, i);
      UpdatedFits(Risen(c, k.tdi)[i], c.tap, k.tms);
    }
  }

  lemma {:induction false} RunValid(c: Chain, ks: seq<Clock>)
    requires ValidChain(c)
    ensures ValidChain(Run(c, ks))
  {
    hide Tick, ValidChain;
    if ks != [] {
      var n := |ks| - 1;
      RunValid(c, ks[..n]);
      TickValid(Run(c, ks[..n]), ks[n]);
    }
  }

  // ---- The chain as one long register ----

  /** The stages as one register, from the bit that leaves first to the one that entered last. */
  function Register(ds: seq<Device>): BitString {
    if ds == [] then [] else ds[|ds| - 1].stage + Register(ds[..|ds| - 1])
  }

  /** Nothing but the contents of the stages differs. */
  predicate SameButStages(ds: seq<Device>, ds': seq<Device>) {
    && |ds| == |ds'|
    && forall i :: 0 <= i < |ds| ==> ds'[i] == ds[i].(stage := ds'[i].stage) && |ds'[i].stage| == |ds[i].stage|
  }

  lemma Regroup(h: bool, t: BitString, x: bool, r: BitString, rest: BitString, tdi: bool)
    requires [x] + r == rest + [tdi]
    ensures [h] + ((t + [x]) + r) == ([h] + t + rest) + [tdi]
  {
    assert [h] + ((t + [x]) + r) == ([h] + t) + ([x] + r);
  }

  lemma {:induction false} ShiftLaw(ds: seq<Device>, tdi: bool)
    ensures [ShiftedOut(ds, tdi)] + Register(Shifted(ds, tdi)) == Register(ds) + [tdi]
  {
    hide Shifted, ShiftedOut, Register;
    if ds == [] {
      ShiftNothing(tdi);
    } else {
      var n := |ds| - 1;
      ShiftLaw(ds[..n], tdi);
      ShiftParts(ds, tdi);
      var (out, st, rest) := (ShiftedOut(ds[..n], tdi), ds[n].stage, Register(ds[..n]));
      if st == [] {
        assert [] + Register(Shifted(ds[..n], tdi)) == Register(Shifted(ds[..n], tdi));
        assert [] + rest == rest;
      } else {
        Regroup(st[0], st[1..], out, Register(Shifted(ds[..n], tdi)), rest, tdi);
        assert [st[0]] + st[1..] == st;
      }
    }
  }

  lemma ShiftNothing(tdi: bool)
    ensures ShiftedOut([], tdi) == tdi && Register(Shifted([], tdi)) == [] == Register([])
  {
  }

  /** The device nearest TDO and the rest of the chain. */
  lemma ShiftParts(ds: seq<Device>, tdi: bool)
    requires ds != []
    ensures var (rest, st) := (ds[..|ds| - 1], ds[|ds| - 1].stage);
      && Register(ds) == st + Register(rest)
      && ShiftedOut(ds, tdi) == (if st == [] then ShiftedOut(rest, tdi) else st[0])
      && Register(Shifted(ds, tdi))
         == (if st == [] then [] else st[1..] + [ShiftedOut(rest, tdi)]) + Register(Shifted(rest, tdi))
  {
    var after := Shifted(ds, tdi);
    assert after[..|ds| - 1] == Shifted(ds[..|ds| - 1], tdi);
  }

  /** Clocks that shift: TMS low on all but possibly the last. */
  predicate ShiftClocks(ks: seq<Clock>) {
    forall i :: 0 <= i < |ks| - 1 ==> !ks[i].tms
  }

  /**
   * The law of a scan: what comes out followed by what stays in is what was in followed by
   * what goes in. The scan changes nothing but the stages.
   */
  lemma ShiftTick(c: Chain, k: Clock)
    requires Shifting(c.tap)
    ensures Tick(c, k).devices == Shifted(c.devices, k.tdi)
    ensures Tick(c, k).tap == if k.tms then Next(c.tap, true) else c.tap
  {
    hide Shifted;
    var s := Next(c.tap, k.tms);
    assert forall d :: Updated(d, s) == d;
  }

  lemma Append3(a: BitString, b: BitString, c: BitString)
    ensures (a + b) + c == a + (b + c)
  {
  }

  lemma {:induction false} ScanLaw(c: Chain, ks: seq<Clock>)
    requires Shifting(c.tap) && ShiftClocks(ks)
    ensures Outs(c, ks) + Register(Run(c, ks).devices) == Register(c.devices) + TdiOf(ks)
    ensures SameButStages(c.devices, Run(c, ks).devices)
    ensures Run(c, ks).tap == if ks != [] && ks[|ks| - 1].tms then Next(c.tap, true) else c.tap
  {
    hide Tick, Tdo, Next, Shifted, ShiftedOut, Register;
    if ks == [] {
      assert Outs(c, ks) + Register(c.devices) == Register(c.devices) + TdiOf(ks);
    } else {
      var n := |ks| - 1;
      var init, k := ks[..n], ks[n];
      ScanLaw(c, init);
      var m := Run(c, init);
      assert m.tap == c.tap;
      ScanLawStep(m, k, Outs(c, init), Register(c.devices) + TdiOf(init));
      ShiftTick(m, k);
      assert TdiOf(ks) == TdiOf(init) + [k.tdi];
      Append3(Register(c.devices), TdiOf(init), [k.tdi]);
      forall i | 0 <= i < |c.devices|
        ensures Tick(m, k).devices[i] == c.devices[i].(stage := Tick(m, k).devices[i].stage)
        ensures |Tick(m, k).devices[i].stage| == |c.devices[i].stage|
      {
        ShiftedKeeps(m.devices, k.tdi, i);
      }
    }
  }

  lemma ScanLawStep(m: Chain, k: Clock, out: BitString, before: BitString)
    requires Shifting(m.tap)
    requires out + Register(m.devices) == before
    ensures (out + [Tdo(m, k)]) + Register(Tick(m, k).devices) == before + [k.tdi]
  {
    ShiftTick(m, k);
    ShiftLaw(m.devices, k.tdi);
    hide *;
    var r := Register(Tick(m, k).devices);
    Append3(out, [Tdo(m, k)], r);
    Append3(out, Register(m.devices), [k.tdi]);
  }

  /** Bits of the register that lie between a device's stage and TDO. */
  function Offset(ds: seq<Device>, i: nat): nat
    requires i < |ds|
    decreases |ds| - i
  {
    if i == |ds| - 1 then 0 else Offset(ds, i + 1) + |ds[i + 1].stage|
  }

  lemma {:induction false} OffsetInit(ds: seq<Device>, i: nat)
    requires i < |ds| - 1
    ensures Offset(ds, i) == |ds[|ds| - 1].stage| + Offset(ds[..|ds| - 1], i)
    decreases |ds| - i
  {
    if i < |ds| - 2 {
      OffsetInit(ds, i + 1);
    }
  }

  /** Each device's stage is a slice of the long register. */
  lemma {:induction false} StageIsSlice(ds: seq<Device>, i: nat)
    requires i < |ds|
    ensures Offset(ds, i) + |ds[i].stage| <= |Register(ds)|
    ensures Register(ds)[Offset(ds, i)..Offset(ds, i) + |ds[i].stage|] == ds[i].stage
  {
    var n := |ds| - 1;
    if i < n {
      var rest := ds[..n];
      OffsetInit(ds, i);
      StageIsSlice(rest, i);
      var o, l := Offset(rest, i), |ds[i].stage|;
      assert (ds[n].stage + Register(rest))[|ds[n].stage| + o..|ds[n].stage| + o + l] == Register(rest)[o..o + l];
    }
  }

  lemma {:induction false} SameOffsets(ds: seq<Device>, ds': seq<Device>, i: nat)
    requires SameButStages(ds, ds') && i < |ds|
    ensures Offset(ds, i) == Offset(ds', i)
    decreases |ds| - i
  {
    if i < |ds| - 1 {
      SameOffsets(ds, ds', i + 1);
    }
  }

  lemma {:induction false} SameRegisterLength(ds: seq<Device>, ds': seq<Device>)
    requires SameButStages(ds, ds')
    ensures |Register(ds)| == |Register(ds')|
  {
    if ds != [] {
      SameRegisterLength(ds[..|ds| - 1], ds'[..|ds| - 1]);
    }
  }
}
