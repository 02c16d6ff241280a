/** What the scans of jtag.cpp do to the hardware: one device of a chain is addressed. */
module ChainTheorems {
  import opened Bits
  import opened Tap
  import opened ScanChain
  import opened IoBase
  import opened Jtag

  // ---- What a run cannot change ----

  predicate SameParts(d: Device, d': Device) {
    && d'.irLength == d.irLength
    && d'.status == d.status
    && d'.resetCode == d.resetCode
    && d'.sense == d.sense
  }

  lemma TickParts(c: Chain, k: Clock, i: nat)
    requires i < |c.devices|
    ensures SameParts(c.devices[i], Tick(c, k).devices[i])
  {
    hide Shifted, Next;
    if Shifting(c.tap) {
      ShiftedKeeps(c.devices, k.tdi, i);
    }
  }

  lemma {:induction false} RunParts(c: Chain, ks: seq<Clock>)
    ensures |Run(c, ks).devices| == |c.devices|
    ensures forall i :: 0 <= i < |c.devices| ==> SameParts(c.devices[i], Run(c, ks).devices[i])
  {
    hide Tick;
    RunWalks(c, ks);
    if ks != [] {
      var n := |ks| - 1;
      RunParts(c, ks[..n]);
      forall i | 0 <= i < |c.devices|
        ensures SameParts(c.devices[i], Run(c, ks).devices[i])
      {
        RunWalks(c, ks[..n]);
        TickParts(Run(c, ks[..n]), ks[n], i);
      }
    }
  }

  // ---- The way into a shift state ----

  /** From outside the column, the way to its shift state ends with the clock that leaves its capture state. */
  lemma {:induction false} RouteViaCaptureIr(s: Known)
    requires !InIrColumn(s) || s == CaptureIr
    ensures Route(s, ShiftIr) == Route(s, CaptureIr) + [false]
    decreases |Route(s, CaptureIr)|
  {
    hide Hop, Distance;
    if s == CaptureIr {
      assert Route(ShiftIr, ShiftIr) == [];
      LastHopIr();
    } else {
      SameHopIr(s);
      RouteViaCaptureIr(Hop(s, CaptureIr).1);
    }
  }

  lemma LastHopIr()
    ensures Hop(CaptureIr, ShiftIr) == (false, ShiftIr)
  {
  }

  lemma SameHopIr(s: Known)
    requires !InIrColumn(s)
    ensures Hop(s, ShiftIr) == Hop(s, CaptureIr)
    ensures var t := Hop(s, CaptureIr).1; !InIrColumn(t) || t == CaptureIr
  {
  }

  function MapCaptureIr(ds: seq<Device>): (r: seq<Device>)
    ensures |r| == |ds|
    ensures forall i :: 0 <= i < |ds| ==> r[i] == ds[i].(stage := ds[i].status)
  {
    seq(|ds|, i requires 0 <= i < |ds| => ds[i].(stage := ds[i].status))
  }

  function MapCaptureDr(ds: seq<Device>): (r: seq<Device>)
    ensures |r| == |ds|
    ensures forall i :: 0 <= i < |ds| ==> r[i] == ds[i].(stage := Selected(ds[i]))
  {
    seq(|ds|, i requires 0 <= i < |ds| => ds[i].(stage := Selected(ds[i])))
  }

  lemma CaptureIrTick(c: Chain)
    requires c.tap == CaptureIr
    ensures Tick(c, Clock(false, true)) == Chain(ShiftIr, MapCaptureIr(c.devices))
  {
  }

  lemma CaptureDrTick(c: Chain)
    requires c.tap == CaptureDr
    ensures Tick(c, Clock(false, true)) == Chain(ShiftDr, MapCaptureDr(c.devices))
  {
  }

  /** A clock between states that neither capture, shift nor update leaves the devices alone. */
  lemma PlainTick(c: Chain, tms: bool)
    requires !Shifting(c.tap) && c.tap != CaptureDr && c.tap != CaptureIr
    requires var s := Next(c.tap, tms); s != TestLogicReset && s != UpdateIr && s != UpdateDr
    ensures Tick(c, Clock(tms, true)) == Chain(Next(c.tap, tms), c.devices)
  {
  }

  lemma UpdateTick(c: Chain)
    requires c.tap == Exit1Dr || c.tap == Exit1Ir
    ensures var s := Next(c.tap, true);
      Tick(c, Clock(true, true))
        == Chain(s, seq(|c.devices|, i requires 0 <= i < |c.devices| => Updated(c.devices[i], s)))
  {
  }

  lemma RunTwo(c: Chain, a: bool, b: bool)
    ensures Run(c, TmsClocks([a, b])) == Tick(Tick(c, Clock(a, true)), Clock(b, true))
  {
    hide Tick;
    RunOne(c, [], Clock(a, true));
    RunOne(c, [] + [Clock(a, true)], Clock(b, true));
    assert TmsClocks([a, b]) == [] + [Clock(a, true)] + [Clock(b, true)];
  }

  /** Whatever the shadow knew, entering Shift-IR from outside its column loads every status. */
  lemma EnterIr(c: Chain, from: TapState)
    requires from != Unknown ==> c.tap == from && !InIrColumn(from)
    ensures var a := Run(c, Approach(from, ShiftIr, 0));
      && a.tap == ShiftIr
      && |a.devices| == |c.devices|
      && forall i :: 0 <= i < |c.devices| ==>
           SameParts(c.devices[i], a.devices[i]) && a.devices[i].stage == c.devices[i].status
  {
    hide Run, Tick, Route, Walk, Next, FullRoute, TmsClocks, Approach, SameParts, InIrColumn;
    var w := EnterIrWalk(c, from);
    var m := Run(c, TmsClocks(w));
    RunOne(c, TmsClocks(w), Clock(false, true));
    TmsClocksWalk(c, w);
    CaptureIrTick(m);
    RunParts(c, TmsClocks(w));
    RunParts(c, Approach(from, ShiftIr, 0));
    forall i | 0 <= i < |c.devices|
      ensures m.devices[i].status == c.devices[i].status
    {
      StatusSame(c.devices[i], m.devices[i]);
    }
  }

  lemma StatusSame(d: Device, d': Device)
    requires SameParts(d, d')
    ensures d'.status == d.status
  {
  }

  /** The way into Shift-IR is a way into Capture-IR and one more clock. */
  lemma EnterIrWalk(c: Chain, from: TapState) returns (w: BitString)
    requires from != Unknown ==> c.tap == from && !InIrColumn(from)
    ensures Approach(from, ShiftIr, 0) == TmsClocks(w) + [Clock(false, true)]
    ensures Walk(c.tap, w) == CaptureIr
  {
    hide Route, Walk, Next, InIrColumn;
    var s := if from == Unknown then TestLogicReset else from;
    var ones := if from == Unknown then Repeat(true, 6) else [];
    ResetIsOutside();
    RouteViaCaptureIr(s);
    w := ones + Route(s, CaptureIr);
    assert FullRoute(from, ShiftIr) + Repeat(false, 0) == w + [false];
    assert Approach(from, ShiftIr, 0) == TmsClocks(w) + [Clock(false, true)];
    RouteArrives(s, CaptureIr);
    if from == Unknown {
      OnesReset(c.tap, 6);
      WalkAppend(c.tap, ones, Route(s, CaptureIr));
    } else {
      assert w == Route(s, CaptureIr);
    }
  }

  lemma ResetIsOutside()
    ensures !InIrColumn(TestLogicReset)
  {
  }

  // ---- Instruction scans ----

  /** The software's list of instruction register lengths is that of the hardware. */
  predicate LengthsKnown(params: seq<ChainParam>, ds: seq<Device>) {
    && |ds| <= |params|
    && forall i :: 0 <= i < |ds| ==> params[i].irlen == ds[i].irLength
  }

  /** Every stage has the length of its instruction register. */
  predicate IrStages(ds: seq<Device>) {
    forall i :: 0 <= i < |ds| ==> |ds[i].stage| == ds[i].irLength
  }

  lemma {:induction false} IrBitsIsOffset(params: seq<ChainParam>, ds: seq<Device>, i: nat)
    requires LengthsKnown(params, ds) && IrStages(ds) && i < |ds|
    ensures IrBits(params, i + 1, |ds|) == Offset(ds, i)
    decreases |ds| - i
  {
    if i < |ds| - 1 {
      IrBitsIsOffset(params, ds, i + 1);
      IrBitsFirst(params, i + 1, |ds|);
    }
  }

  lemma {:induction false} IrBitsFirst(params: seq<ChainParam>, lo: nat, hi: nat)
    requires lo < hi <= |params|
    ensures IrBits(params, lo, hi) == params[lo].irlen + IrBits(params, lo + 1, hi)
    decreases hi
  {
    if lo < hi - 1 {
      IrBitsFirst(params, lo, hi - 1);
    }
  }

  lemma {:induction false} IrBitsSplit(params: seq<ChainParam>, m: nat, hi: nat)
    requires m <= hi <= |params|
    ensures IrBits(params, 0, hi) == IrBits(params, 0, m) + IrBits(params, m, hi)
    decreases hi
  {
    if m < hi {
      IrBitsSplit(params, m, hi - 1);
    }
  }

  lemma {:induction false} IrBitsIsLength(params: seq<ChainParam>, ds: seq<Device>)
    requires LengthsKnown(params, ds) && IrStages(ds)
    ensures IrBits(params, 0, |ds|) == |Register(ds)|
  {
    if ds != [] {
      IrBitsIsLength(params, ds[..|ds| - 1]);
    }
  }

  /** A slice of the register that belongs to another device lies before or behind the target's. */
  lemma {:induction false} OffsetsApart(ds: seq<Device>, i: nat, j: nat)
    requires i < j < |ds|
    ensures Offset(ds, j) + |ds[j].stage| <= Offset(ds, i)
    decreases j - i
  {
    if i + 1 < j {
      OffsetsApart(ds, i + 1, j);
    }
  }

  /** The bits an instruction scan shifts in. */
  function IrPattern(pre: nat, data: BitString, post: nat): BitString {
    Ones(pre) + data + Ones(post)
  }

  /** After a scan as long as the register, each stage holds its part of what was shifted in. */
  lemma FullScan(c: Chain, ks: seq<Clock>, i: nat)
    requires Shifting(c.tap) && ShiftClocks(ks) && |ks| == |Register(c.devices)| && i < |c.devices|
    ensures Outs(c, ks) == Register(c.devices)
    ensures var l := |c.devices[i].stage|;
      && Offset(c.devices, i) + l <= |ks|
      && SameButStages(c.devices, Run(c, ks).devices)
      && Run(c, ks).devices[i].stage == TdiOf(ks)[Offset(c.devices, i)..Offset(c.devices, i) + l]
  {
    hide Run, Outs, Register, Offset, Next;
    ScanLaw(c, ks);
    var e := Run(c, ks);
    SameRegisterLength(c.devices, e.devices);
    SplitEqual(Outs(c, ks), Register(e.devices), Register(c.devices), TdiOf(ks));
    StageIsSlice(e.devices, i);
    SameOffsets(c.devices, e.devices, i);
  }

  lemma SplitEqual<T>(a: seq<T>, b: seq<T>, x: seq<T>, y: seq<T>)
    requires a + b == x + y && |a| == |x|
    ensures a == x && b == y
  {
    assert a == (a + b)[..|a|] && x == (x + y)[..|x|];
    assert b == (a + b)[|a|..] && y == (x + y)[|x|..];
  }

  /** What the instruction scan leaves in the stages, and what it reads. */
  lemma IrScan(c: Chain, params: seq<ChainParam>, k: nat, data: BitString, ks: seq<Clock>)
    requires c.tap == ShiftIr && k < |c.devices|
    requires LengthsKnown(params, c.devices) && IrStages(c.devices) && |data| == c.devices[k].irLength
    requires var pre, post := IrBits(params, k + 1, |c.devices|), IrBits(params, 0, k);
      ShiftClocks(ks) && TdiOf(ks) == IrPattern(pre, data, post)
    ensures SameButStages(c.devices, Run(c, ks).devices)
    ensures forall i :: 0 <= i < |c.devices| ==>
      Run(c, ks).devices[i].stage == if i == k then data else Ones(c.devices[i].irLength)
    ensures var pre := IrBits(params, k + 1, |c.devices|);
      && pre + |data| <= |Outs(c, ks)|
      && Outs(c, ks)[pre..pre + |data|] == c.devices[k].stage
  {
    hide Run, Outs, Register, Offset;
    var ds := c.devices;
    var pre, post := IrBits(params, k + 1, |ds|), IrBits(params, 0, k);
    IrBitsIsLength(params, ds);
    IrBitsSplit(params, k + 1, |ds|);
    assert |ks| == |TdiOf(ks)| == pre + |data| + post;
    IrBitsIsOffset(params, ds, k);
    StageIsSlice(ds, k);
    forall i | 0 <= i < |ds|
      ensures SameButStages(ds, Run(c, ks).devices) && Outs(c, ks) == Register(ds)
      ensures Run(c, ks).devices[i].stage == if i == k then data else Ones(ds[i].irLength)
    {
      FullScan(c, ks, i);
      IrPart(ds, k, i, pre, data, post);
    }
    FullScan(c, ks, k);
  }

  /** The part of the scanned pattern that ends up in device i. */
  lemma IrPart(ds: seq<Device>, k: nat, i: nat, pre: nat, data: BitString, post: nat)
    requires k < |ds| && i < |ds| && IrStages(ds) && |data| == ds[k].irLength
    requires pre == Offset(ds, k) && pre + |data| + post == |Register(ds)|
    ensures Offset(ds, i) + ds[i].irLength <= pre + |data| + post
    ensures IrPattern(pre, data, post)[Offset(ds, i)..Offset(ds, i) + ds[i].irLength]
            == if i == k then data else Ones(ds[i].irLength)
  {
    hide Register, Offset;
    var o, l := Offset(ds, i), ds[i].irLength;
    StageIsSlice(ds, i);
    StageIsSlice(ds, k);
    if i == k {
      assert IrPattern(pre, data, post)[pre..pre + |data|] == data;
    } else {
      if i < k {
        OffsetsApart(ds, i, k);
      } else {
        OffsetsApart(ds, k, i);
      }
      assert IrPattern(pre, data, post)[o..o + l] == Ones(l);
    }
  }

  /** The clocks of shiftIR's data are one scan of ones, the instruction, and ones. */
  lemma IrClocksJoin(pre: nat, data: BitString, post: nat)
    requires |data| >= 1
    ensures var ks := DataClocks(Repeat(true, pre), false) + DataClocks(data, post == 0)
            + DataClocks(Repeat(true, post), true);
      && ks == DataClocks(IrPattern(pre, data, post), true)
      && ShiftClocks(ks) && TdiOf(ks) == IrPattern(pre, data, post)
  {
  }

  /** From Exit1-IR to Run-Test/Idle every device takes its stage as its instruction. */
  lemma LeaveIr(c: Chain)
    requires c.tap == Exit1Ir
    ensures var e := Run(c, Approach(Exit1Ir, RunTestIdle, 0));
      && e.tap == RunTestIdle
      && |e.devices| == |c.devices|
      && forall i :: 0 <= i < |c.devices| ==> e.devices[i] == c.devices[i].(ir := c.devices[i].stage)
  {
    hide Run, Tick;
    HomeRoutes();
    RunTwo(c, true, false);
    UpdateTick(c);
    PlainTick(Tick(c, Clock(true, true)), false);
  }

  lemma HomeRoutes()
    ensures Approach(Exit1Ir, RunTestIdle, 0) == TmsClocks([true, false])
    ensures Approach(Exit1Dr, RunTestIdle, 0) == TmsClocks([true, false])
  {
    hide Route, Hop, TmsClocks;
    HomeHops();
    HopThenRoute(Exit1Ir, RunTestIdle);
    HopThenRoute(UpdateIr, RunTestIdle);
    HopThenRoute(Exit1Dr, RunTestIdle);
    HopThenRoute(UpdateDr, RunTestIdle);
    ArrivedRoute(RunTestIdle);
    assert [true] + ([false] + []) + Repeat(false, 0) == [true, false];
  }

  lemma HomeHops()
    ensures Hop(Exit1Ir, RunTestIdle) == (true, UpdateIr) && Hop(UpdateIr, RunTestIdle) == (false, RunTestIdle)
    ensures Hop(Exit1Dr, RunTestIdle) == (true, UpdateDr) && Hop(UpdateDr, RunTestIdle) == (false, RunTestIdle)
  {
  }

  /**
   * The clocks of shiftIR put the instruction into the selected device and BYPASS into every
   * other one, from any state of the hardware outside the instruction column, and what they
   * read is the status that device captured.
   */
  lemma ShiftIrAddressesOne(c: Chain, from: TapState, params: seq<ChainParam>, k: nat, data: BitString)
    requires ValidChain(c) && (from != Unknown ==> c.tap == from && !InIrColumn(from))
    requires LengthsKnown(params, c.devices) && k < |c.devices| && |data| == params[k].irlen
    ensures var pre, post := IrBits(params, k + 1, |c.devices|), IrBits(params, 0, k);
      var m := Run(c, Approach(from, ShiftIr, 0) + DataClocks(Repeat(true, pre), false));
      var e := Run(m, IrData(data, post, RunTestIdle));
      && Outs(m, DataClocks(data, post == 0)) == c.devices[k].status
      && e.tap == RunTestIdle
      && |e.devices| == |c.devices|
      && forall i :: 0 <= i < |c.devices| ==>
           SameParts(c.devices[i], e.devices[i])
           && e.devices[i].ir == (if i == k then data else Ones(c.devices[i].irLength))
           && (from == RunTestIdle ==> e.devices[i].held == c.devices[i].held)
  {
    hide Run, Outs, Approach, Register, DataClocks, TdiOf, Ones, Repeat, IrBits, IrPattern, ShiftClocks;
    var n := |c.devices|;
    var pre, post := IrBits(params, k + 1, n), IrBits(params, 0, k);
    var entry := Approach(from, ShiftIr, 0);
    var k0 := DataClocks(Repeat(true, pre), false);
    var (k1, k2) := (DataClocks(data, post == 0), DataClocks(Repeat(true, post), true));
    var home := Approach(Exit1Ir, RunTestIdle, 0);
    var a := Run(c, entry);
    EnterIr(c, from);
    if from == RunTestIdle {
      EnterIrFromIdle(c);
    }
    RunAppend(c, entry, k0);
    var m := Run(a, k0);
    assert ValidDevice(c.devices[k]);
    IrClocksJoin(pre, data, post);
    var ks := k0 + k1 + k2;
    StatusLengths(c);
    IrScan(a, params, k, data, ks);
    var e := Run(a, ks);
    // what the data clocks read is the middle part of what the scan reads
    RunAppend(a, k0, k1);
    RunAppend(a, k0 + k1, k2);
    assert Outs(a, ks) == Outs(a, k0) + Outs(m, k1) + Outs(Run(a, k0 + k1), k2);
    assert |k0| == pre && |k1| == |data|;
    assert Outs(a, ks)[pre..pre + |data|] == Outs(m, k1);
    // the way home
    ScanEnds(a, ks, IrPattern(pre, data, post));
    LeaveIr(e);
    IrDataJoins([], data, post, RunTestIdle);
    assert IrData(data, post, RunTestIdle) == (k1 + k2) + home by {
      assert [] + IrData(data, post, RunTestIdle) == IrData(data, post, RunTestIdle);
      assert [] + k1 == k1;
    }
    RunAppend(m, k1, k2);
    RunAppend(m, k1 + k2, home);
    RunParts(c, entry);
    RunParts(a, ks);
    RunParts(e, home);
  }

  lemma StatusLengths(c: Chain)
    requires ValidChain(c)
    ensures forall i :: 0 <= i < |c.devices| ==> |c.devices[i].status| == c.devices[i].irLength
  {
    forall i | 0 <= i < |c.devices|
      ensures |c.devices[i].status| == c.devices[i].irLength
    {
      assert ValidDevice(c.devices[i]);
    }
  }

  /** A non-empty scan with TMS high on its last clock ends in the Exit1 state. */
  lemma ScanEnds(c: Chain, ks: seq<Clock>, pattern: BitString)
    requires Shifting(c.tap) && pattern != [] && ks == DataClocks(pattern, true)
    ensures Run(c, ks).tap == Next(c.tap, true)
  {
    hide Run, Outs, Register, Next;
    ScanLaw(c, ks);
  }

  /** From Run-Test/Idle the way into Shift-IR only loads the stages. */
  lemma EnterIrFromIdle(c: Chain)
    requires c.tap == RunTestIdle
    ensures Run(c, Approach(RunTestIdle, ShiftIr, 0)) == Chain(ShiftIr, MapCaptureIr(c.devices))
  {
    hide Run, Tick, Route, Hop, TmsClocks, FullRoute;
    IrRoute();
    TmsClocksAppend([true, true], [false, false]);
    RunAppend(c, TmsClocks([true, true]), TmsClocks([false, false]));
    SelectIrTwo(c);
    CaptureIrTwo(Chain(SelectIrScan, c.devices));
  }

  lemma SelectIrTwo(c: Chain)
    requires c.tap == RunTestIdle
    ensures Run(c, TmsClocks([true, true])) == Chain(SelectIrScan, c.devices)
  {
    hide Run, Tick, TmsClocks;
    RunTwo(c, true, true);
    PlainTick(c, true);
    PlainTick(Tick(c, Clock(true, true)), true);
  }

  lemma CaptureIrTwo(d: Chain)
    requires d.tap == SelectIrScan
    ensures Run(d, TmsClocks([false, false])) == Chain(ShiftIr, MapCaptureIr(d.devices))
  {
    hide Run, Tick, TmsClocks;
    RunTwo(d, false, false);
    PlainTick(d, false);
    CaptureIrTick(Tick(d, Clock(false, true)));
  }

  lemma IrRoute()
    ensures FullRoute(RunTestIdle, ShiftIr) + Repeat(false, 0) == [true, true] + [false, false]
  {
    hide Route, Hop;
    IrHops();
    HopThenRoute(RunTestIdle, ShiftIr);
    HopThenRoute(SelectDrScan, ShiftIr);
    HopThenRoute(SelectIrScan, ShiftIr);
    HopThenRoute(CaptureIr, ShiftIr);
    ArrivedRoute(ShiftIr);
  }

  lemma IrHops()
    ensures Hop(RunTestIdle, ShiftIr) == (true, SelectDrScan)
    ensures Hop(SelectDrScan, ShiftIr) == (true, SelectIrScan)
    ensures Hop(SelectIrScan, ShiftIr) == (false, CaptureIr)
    ensures Hop(CaptureIr, ShiftIr) == (false, ShiftIr)
  {
  }

  // ---- Data scans ----

  /** Every device but the k-th has BYPASS as its instruction. */
  predicate OthersBypassed(ds: seq<Device>, k: nat) {
    forall i :: 0 <= i < |ds| && i != k ==> ds[i].ir == Ones(ds[i].irLength)
  }

  /** From Run-Test/Idle the way into Shift-DR loads every selected register and changes nothing else. */
  lemma EnterDr(c: Chain)
    requires c.tap == RunTestIdle
    ensures Run(c, TmsClocks([true, false, false])) == Chain(ShiftDr, MapCaptureDr(c.devices))
  {
    hide Run, Tick;
    RunTwo(c, true, false);
    RunOne(c, TmsClocks([true, false]), Clock(false, true));
    assert TmsClocks([true, false, false]) == TmsClocks([true, false]) + [Clock(false, true)];
    PlainTick(c, true);
    PlainTick(Tick(c, Clock(true, true)), false);
    CaptureDrTick(Tick(Tick(c, Clock(true, true)), Clock(false, true)));
  }

  lemma DrRoute()
    ensures FullRoute(RunTestIdle, ShiftDr) == [true, false, false]
  {
    hide Route, Hop;
    DrHops();
    HopThenRoute(RunTestIdle, ShiftDr);
    HopThenRoute(SelectDrScan, ShiftDr);
    HopThenRoute(CaptureDr, ShiftDr);
    ArrivedRoute(ShiftDr);
    assert [true] + ([false] + ([false] + [])) == [true, false, false];
  }

  lemma DrHops()
    ensures Hop(RunTestIdle, ShiftDr) == (true, SelectDrScan)
    ensures Hop(SelectDrScan, ShiftDr) == (false, CaptureDr)
    ensures Hop(CaptureDr, ShiftDr) == (false, ShiftDr)
  {
  }

  /** The bits a data scan shifts in: the pad that goes with TMS, the data, and zeros. */
  function DrPattern(lead: nat, data: BitString, post: nat): BitString {
    Repeat(true, lead) + data + Repeat(false, post)
  }

  lemma DrClocksJoin(lead: nat, data: BitString, post: nat)
    requires |data| >= 1
    ensures Approach(RunTestIdle, ShiftDr, lead) == TmsClocks([true, false, false]) + TmsClocks(Repeat(false, lead))
    ensures var ks := TmsClocks(Repeat(false, lead)) + DataClocks(data, post == 0)
            + DataClocks(Repeat(false, post), true);
      && ks == TmsClocks(Repeat(false, lead)) + (DataClocks(data, post == 0) + DataClocks(Repeat(false, post), true))
      && ShiftClocks(ks) && TdiOf(ks) == DrPattern(lead, data, post)
      && ks[|ks| - 1].tms
  {
    DrRoute();
    TmsClocksAppend([true, false, false], Repeat(false, lead));
  }

  /** With the others in bypass, the target's register lies as many bits from TDO as devices follow it. */
  lemma {:induction false} BypassOffset(ds: seq<Device>, k: nat, i: nat)
    requires k <= i < |ds| && OthersBypassed(ds, k)
    requires forall j :: 0 <= j < |ds| ==> ValidDevice(ds[j]) && ds[j].stage == Selected(ds[j])
    ensures Offset(ds, i) == |ds| - 1 - i
    decreases |ds| - i
  {
    if i < |ds| - 1 {
      BypassOffset(ds, k, i + 1);
      assert ValidDevice(ds[i + 1]);
    }
  }

  lemma {:induction false} BypassLength(ds: seq<Device>, k: nat)
    requires OthersBypassed(ds, k)
    requires forall j :: 0 <= j < |ds| ==> ValidDevice(ds[j]) && ds[j].stage == Selected(ds[j])
    ensures |Register(ds)| == if k < |ds| then |ds| - 1 + |ds[k].stage| else |ds|
  {
    if ds != [] {
      var n := |ds| - 1;
      BypassLength(ds[..n], k);
      assert ValidDevice(ds[n]);
      assert n != k ==> ds[n].stage == [false];
    }
  }

  /** The scan itself: where the data ends up, and what is read meanwhile. */
  lemma DrScan(c: Chain, k: nat, lead: nat, data: BitString, ks: seq<Clock>)
    requires c.tap == ShiftDr && k < |c.devices| && OthersBypassed(c.devices, k)
    requires forall j :: 0 <= j < |c.devices| ==>
             ValidDevice(c.devices[j]) && c.devices[j].stage == Selected(c.devices[j])
    requires ShiftClocks(ks) && TdiOf(ks) == DrPattern(lead, data, k)
    requires |data| >= |c.devices[k].stage|
    ensures SameButStages(c.devices, Run(c, ks).devices)
    ensures Run(c, ks).devices[k].stage == data[|data| - |c.devices[k].stage|..]
    ensures lead + |data| <= |Outs(c, ks)|
    ensures lead == |c.devices| - 1 - k ==>
      Outs(c, ks)[lead..lead + |c.devices[k].stage|] == c.devices[k].stage
  {
    hide Run, Outs, Register, Offset, Next, Selected, ValidDevice;
    var ds := c.devices;
    ScanLaw(c, ks);
    var e := Run(c, ks);
    SameRegisterLength(ds, e.devices);
    BypassLength(ds, k);
    BypassOffset(ds, k, k);
    StageIsSlice(ds, k);
    StageIsSlice(e.devices, k);
    SameOffsets(ds, e.devices, k);
    var (o, l) := (Offset(ds, k), |ds[k].stage|);
    assert DrPattern(lead, data, k)[lead..lead + |data|] == data;
    ScanSlices(Outs(c, ks), Register(e.devices), Register(ds), TdiOf(ks), o, l, lead, data, k);
  }

  /** Where the data of a scan is when everything before and after it has been shifted too. */
  lemma ScanSlices(outs: BitString, after: BitString, before: BitString, ins: BitString, o: nat, l: nat, lead: nat,
                   data: BitString, post: nat)
    requires outs + after == before + ins
    requires |outs| == |ins| == lead + |data| + post && |before| == |after| == o + l + post
    requires ins[lead..lead + |data|] == data && |data| >= l
    ensures after[o..o + l] == data[|data| - l..]
    ensures lead == o ==> outs[o..o + l] == before[o..o + l]
  {
    var all := before + ins;
    var part := after[o..o + l];
    forall i | 0 <= i < |part|
      ensures part[i] == data[|data| - l..][i]
    {
      assert part[i] == after[o + i] == (outs + after)[|outs| + o + i] == all[|outs| + o + i];
      assert all[|outs| + o + i] == ins[|outs| + o + i - |before|];
      assert ins[lead..lead + |data|][|data| - l + i] == data[|data| - l + i];
    }
    if lead == o {
      assert outs[o..o + l] == (outs + after)[o..o + l];
      assert before[o..o + l] == all[o..o + l];
    }
  }

  /** From Exit1-DR to Run-Test/Idle every device latches its stage in the register its instruction selects. */
  lemma LeaveDr(c: Chain)
    requires c.tap == Exit1Dr
    ensures var e := Run(c, Approach(Exit1Dr, RunTestIdle, 0));
      && e.tap == RunTestIdle
      && |e.devices| == |c.devices|
      && forall i :: 0 <= i < |c.devices| ==> e.devices[i] == Updated(c.devices[i], UpdateDr)
  {
    hide Run, Tick;
    HomeRoutes();
    RunTwo(c, true, false);
    UpdateTick(c);
    PlainTick(Tick(c, Clock(true, true)), false);
  }

  /** What Update-DR leaves in the registers of a device. */
  function HeldAfter(d: Device, value: BitString): map<BitString, BitString> {
    if d.ir in d.sense then d.held[d.ir := value] else d.held
  }

  lemma CapturedDevices(c: Chain, k: nat)
    requires ValidChain(c) && OthersBypassed(c.devices, k)
    ensures var ds := MapCaptureDr(c.devices);
      && OthersBypassed(ds, k)
      && forall j :: 0 <= j < |ds| ==> ValidDevice(ds[j]) && ds[j].stage == Selected(ds[j])
  {
    forall j | 0 <= j < |c.devices|
      ensures ValidDevice(MapCaptureDr(c.devices)[j])
    {
      assert ValidDevice(c.devices[j]);
    }
  }

  lemma UpdatedHeld(d: Device, d0: Device, bypassed: bool)
    requires ValidDevice(d0) && d == d0.(stage := d.stage) && (bypassed ==> d0.ir == Ones(d0.irLength))
    ensures var u := Updated(d, UpdateDr);
      && u.ir == d0.ir
      && SameParts(d0, u)
      && u.held == if bypassed then d0.held else HeldAfter(d0, d.stage)
  {
  }

  /** The scan up to Exit1-DR, seen from Run-Test/Idle. */
  lemma DrScanned(c: Chain, k: nat, lead: nat, data: BitString)
    requires ValidChain(c) && c.tap == RunTestIdle
    requires k < |c.devices| && OthersBypassed(c.devices, k)
    requires |data| >= |Selected(c.devices[k])|
    ensures var d, l := c.devices[k], |Selected(c.devices[k])|;
      var m := Run(c, Approach(RunTestIdle, ShiftDr, lead));
      var out := Outs(m, DataClocks(data, k == 0));
      var e := Run(m, DataClocks(data, k == 0) + DataClocks(Repeat(false, k), true));
      && (lead == |c.devices| - 1 - k ==> out[..l] == Selected(d))
      && e.tap == Exit1Dr
      && SameButStages(MapCaptureDr(c.devices), e.devices)
      && e.devices[k].stage == data[|data| - l..]
  {
    hide Run, Outs, Approach, Register, DataClocks, TdiOf, Repeat, DrPattern, ShiftClocks, TmsClocks, OthersBypassed,
         SameParts, ValidDevice, Selected;
    var (start, lead0) := (TmsClocks([true, false, false]), TmsClocks(Repeat(false, lead)));
    var (k1, k2) := (DataClocks(data, k == 0), DataClocks(Repeat(false, k), true));
    assert ValidDevice(c.devices[k]);
    SelectedNonEmpty(c.devices[k]);
    DrClocksJoin(lead, data, k);
    var a := Run(c, start);
    EnterDr(c);
    CapturedDevices(c, k);
    RunAppend(c, start, lead0);
    var m := Run(a, lead0);
    var ks := lead0 + (k1 + k2);
    DrScan(a, k, lead, data, ks);
    ExitScan(a, ks);
    RunAppend(a, lead0, k1 + k2);
    RunAppend(m, k1, k2);
    var l := |Selected(c.devices[k])|;
    MiddlePart(Outs(a, lead0), Outs(m, k1), Outs(Run(m, k1), k2), l);
  }

  lemma MiddlePart(a: BitString, b: BitString, c: BitString, l: nat)
    requires l <= |b|
    ensures (a + (b + c))[|a|..|a| + l] == b[..l]
  {
  }

  /**
   * With every other device in BYPASS, the clocks of shiftDR from Run-Test/Idle leave the last
   * bits of the data in the selected register of the target, whatever the lead; all other
   * registers and every instruction stay. With the lead of an unaligned scan the first bits
   * read are the value that register captured.
   */
  lemma ShiftDrAddressesOne(c: Chain, k: nat, lead: nat, data: BitString)
    requires ValidChain(c) && c.tap == RunTestIdle
    requires k < |c.devices| && OthersBypassed(c.devices, k)
    requires |data| >= |Selected(c.devices[k])|
    ensures var d, l := c.devices[k], |Selected(c.devices[k])|;
      var m := Run(c, Approach(RunTestIdle, ShiftDr, lead));
      var out := Outs(m, DataClocks(data, k == 0));
      var e := Run(m, DrData(data, k, true, RunTestIdle));
      && (lead == |c.devices| - 1 - k ==> out[..l] == Selected(d))
      && e.tap == RunTestIdle
      && |e.devices| == |c.devices|
      && forall i :: 0 <= i < |c.devices| ==>
           SameParts(c.devices[i], e.devices[i])
           && e.devices[i].ir == c.devices[i].ir
           && e.devices[i].held == if i == k then HeldAfter(d, data[|data| - l..]) else c.devices[i].held
  {
    hide Run, Outs, Approach, DataClocks, Repeat, OthersBypassed, HeldAfter, Updated, SameParts, ValidDevice, Selected,
         DrData;
    assert forall i :: 0 <= i < |c.devices| ==> ValidDevice(c.devices[i]);
    var (k1, k2) := (DataClocks(data, k == 0), DataClocks(Repeat(false, k), true));
    var home := Approach(Exit1Dr, RunTestIdle, 0);
    DrScanned(c, k, lead, data);
    var m := Run(c, Approach(RunTestIdle, ShiftDr, lead));
    var e := Run(m, k1 + k2);
    LeaveDr(e);
    DrDataIs(data, k);
    RunAppend(m, k1 + k2, home);
    forall i | 0 <= i < |c.devices|
      ensures var f := Run(e, home).devices[i];
        && SameParts(c.devices[i], f)
        && f.ir == c.devices[i].ir
        && f.held == if i == k then HeldAfter(c.devices[k], e.devices[k].stage) else c.devices[i].held
    {
      BypassedAt(c.devices, k, i);
      UpdatedHeld(e.devices[i], c.devices[i], i != k);
    }
  }

  lemma DrDataIs(data: BitString, k: nat)
    ensures DrData(data, k, true, RunTestIdle)
            == DataClocks(data, k == 0) + DataClocks(Repeat(false, k), true) + Approach(Exit1Dr, RunTestIdle, 0)
  {
    hide DataClocks, Approach;
  }

  lemma BypassedAt(ds: seq<Device>, k: nat, i: nat)
    requires OthersBypassed(ds, k) && i < |ds|
    ensures i != k ==> ds[i].ir == Ones(ds[i].irLength)
  {
  }

  lemma SelectedNonEmpty(d: Device)
    requires ValidDevice(d)
    ensures |Selected(d)| >= 1
  {
  }

  lemma ExitScan(c: Chain, ks: seq<Clock>)
    requires c.tap == ShiftDr && ShiftClocks(ks) && ks != [] && ks[|ks| - 1].tms
    ensures Run(c, ks).tap == Exit1Dr
  {
    hide Run, Outs, Register;
    ScanLaw(c, ks);
  }

  // ---- A scan in pieces ----

  function Joined(pieces: seq<BitString>): BitString {
    if pieces == [] then [] else pieces[0] + Joined(pieces[1..])
  }

  predicate NonEmptyPieces(pieces: seq<BitString>) {
    pieces != [] && forall i :: 0 <= i < |pieces| ==> pieces[i] != []
  }

  /** The clocks of a series of shiftDR calls: only the last one leaves the shift state. */
  function PiecesClocks(from: TapState, continued: bool, lead: int, pieces: seq<BitString>, post: nat,
                        home: Known): seq<Clock>
    requires pieces != []
    decreases |pieces|
  {
    Entry(from, continued, lead)
    + if |pieces| == 1 then DrData(pieces[0], post, true, home)
      else DrData(pieces[0], post, false, home) + PiecesClocks(ShiftDr, true, lead, pieces[1..], post, home)
  }

  /** What those calls read, one after the other, once the scan has been entered. */
  function PiecesOuts(c: Chain, pieces: seq<BitString>, post: nat): BitString
    requires pieces != []
    decreases |pieces|
  {
    var ks := DataClocks(pieces[0], post == 0 && |pieces| == 1);
    if |pieces| == 1 then Outs(c, ks) else Outs(c, ks) + PiecesOuts(Run(c, ks), pieces[1..], post)
  }

  lemma {:induction false} JoinedNonEmpty(pieces: seq<BitString>)
    requires NonEmptyPieces(pieces)
    ensures Joined(pieces) != []
  {
    assert pieces[0] != [];
  }

  lemma DataClocksJoin(a: BitString, b: BitString, last: bool)
    requires b != []
    ensures DataClocks(a, false) + DataClocks(b, last) == DataClocks(a + b, last)
  {
  }

  lemma ContinuedEntry(from: TapState, lead: int)
    ensures Entry(from, true, lead) == []
  {
  }

  /** A scan split into pieces gives the clocks of one scan of the concatenation; the pre bits are sent once. */
  lemma {:induction false} PiecesAreOneScan(from: TapState, continued: bool, lead: int, pieces: seq<BitString>,
                                            post: nat, home: Known)
    requires NonEmptyPieces(pieces)
    ensures PiecesClocks(from, continued, lead, pieces, post, home)
            == Entry(from, continued, lead) + DrData(Joined(pieces), post, true, home)
    decreases |pieces|
  {
    hide Entry, DrData;
    if |pieces| == 1 {
      assert Joined(pieces) == pieces[0] + [] == pieces[0];
    } else {
      var rest := pieces[1..];
      assert forall i :: 0 <= i < |rest| ==> rest[i] == pieces[i + 1];
      PiecesAreOneScan(ShiftDr, true, lead, rest, post, home);
      ContinuedEntry(ShiftDr, lead);
      JoinedNonEmpty(rest);
      DrDataJoin(pieces[0], Joined(rest), post, home);
    }
  }

  lemma DrDataJoin(a: BitString, b: BitString, post: nat, home: Known)
    requires b != []
    ensures DrData(a, post, false, home) + ([] + DrData(b, post, true, home)) == DrData(a + b, post, true, home)
  {
    hide DataClocks, Approach, Repeat;
    DataClocksJoin(a, b, post == 0);
    assert DrData(a, post, false, home) == DataClocks(a, false);
  }

  /** What the pieces read is what one scan of the concatenation reads. */
  lemma {:induction false} PiecesReadOneScan(c: Chain, pieces: seq<BitString>, post: nat)
    requires NonEmptyPieces(pieces)
    ensures PiecesOuts(c, pieces, post) == Outs(c, DataClocks(Joined(pieces), post == 0))
    decreases |pieces|
  {
    hide Run, Outs, DataClocks;
    if |pieces| == 1 {
      assert Joined(pieces) == pieces[0] + [] == pieces[0];
    } else {
      var rest := pieces[1..];
      assert forall i :: 0 <= i < |rest| ==> rest[i] == pieces[i + 1];
      var d0 := DataClocks(pieces[0], false);
      PiecesReadOneScan(Run(c, d0), rest, post);
      JoinedNonEmpty(rest);
      DataClocksJoin(pieces[0], Joined(rest), post == 0);
      RunAppend(c, d0, DataClocks(Joined(rest), post == 0));
    }
  }

  // ---- Detection ----

  /** Every device selects a 32-bit identification register on reset (its lowest bit is one). */
  predicate Identified(ds: seq<Device>) {
    forall i :: 0 <= i < |ds| ==>
      && ds[i].resetCode in ds[i].sense
      && |ds[i].sense[ds[i].resetCode]| == 32
      && ds[i].sense[ds[i].resetCode][0]
  }

  /** The identification code of a device as the software's number. */
  function Idcode(d: Device): nat {
    if d.resetCode in d.sense then NumberOf(d.sense[d.resetCode]) else 0
  }

  /** The codes that detection can find: from TDO on, up to the first that is all ones. */
  function Detectable(ds: seq<Device>, limit: nat): seq<nat> {
    if ds == [] || limit == 0 || Idcode(ds[|ds| - 1]) == 0xffffffff then []
    else [Idcode(ds[|ds| - 1])] + Detectable(ds[..|ds| - 1], limit - 1)
  }

  /** The identification registers as one register, from TDO on. */
  function IdBits(ds: seq<Device>): BitString {
    if ds == [] then []
    else
      var d := ds[|ds| - 1];
      (if d.resetCode in d.sense then d.sense[d.resetCode] else []) + IdBits(ds[..|ds| - 1])
  }

  lemma ZeroWordShifts(c: Chain)
    requires c.tap == ShiftDr
    ensures var a := Run(c, ZeroWord());
      && a.tap == ShiftDr
      && Outs(c, ZeroWord()) + Register(a.devices) == Register(c.devices) + Repeat(false, 32)
  {
    hide Run, Outs, Register;
    ScanLaw(c, ZeroWord());
    assert TdiOf(ZeroWord()) == Repeat(false, 32);
  }

  lemma {:induction false} ZeroNumber(bits: BitString)
    requires forall i :: 0 <= i < |bits| ==> !bits[i]
    ensures NumberOf(bits) == 0
  {
    if bits != [] {
      ZeroNumber(bits[1..]);
    }
  }

  lemma ZerosOut(out: BitString, after: BitString, zeros: nat)
    requires |out| == 32 && out + after == Repeat(false, zeros) + Repeat(false, 32)
    ensures NumberOf(out) == 0
  {
    forall i | 0 <= i < 32
      ensures !out[i]
    {
      assert out[i] == (out + after)[i];
    }
    ZeroNumber(out);
  }

  lemma WordOut(out: BitString, after: BitString, id: BitString, rest: BitString, zeros: nat)
    requires |out| == |id| == 32 && out + after == id + rest + Repeat(false, zeros) + Repeat(false, 32)
    ensures out == id && after == rest + Repeat(false, zeros + 32)
  {
    assert Repeat(false, zeros + 32) == Repeat(false, zeros) + Repeat(false, 32);
    assert id + rest + Repeat(false, zeros) + Repeat(false, 32) == id + (rest + Repeat(false, zeros + 32));
    SplitEqual(out, after, id, rest + Repeat(false, zeros + 32));
  }

  /** One word of detection: the code nearest TDO comes out, or zeros once there is none left. */
  lemma DetectWord(c: Chain, ds: seq<Device>, zeros: nat)
    requires c.tap == ShiftDr && Identified(ds)
    requires Register(c.devices) == IdBits(ds) + Repeat(false, zeros)
    ensures var (id, after) := (NumberOf(Outs(c, ZeroWord())), Run(c, ZeroWord()));
      if ds == [] then id == 0
      else
        && id != 0 && id == Idcode(ds[|ds| - 1])
        && after.tap == ShiftDr && Register(after.devices) == IdBits(ds[..|ds| - 1]) + Repeat(false, zeros + 32)
  {
    hide Run, Outs, Register, DataClocks, NumberOf, ZeroWord, Repeat;
    var (out, after) := (Outs(c, ZeroWord()), Run(c, ZeroWord()));
    ZeroWordShifts(c);
    ZeroWordLength();
    if ds == [] {
      assert [] + Repeat(false, zeros) == Repeat(false, zeros);
      ZerosOut(out, Register(after.devices), zeros);
    } else {
      var n := |ds| - 1;
      var id := ds[n].sense[ds[n].resetCode];
      WordOut(out, Register(after.devices), id, IdBits(ds[..n]), zeros);
      OddNumber(id);
    }
  }

  /** While detection runs, the register holds the codes still to come, then the zeros shifted in. */
  lemma {:induction false} DetectFinds(c: Chain, ds: seq<Device>, zeros: nat, limit: nat)
    requires c.tap == ShiftDr && Identified(ds)
    requires Register(c.devices) == IdBits(ds) + Repeat(false, zeros)
    ensures Detect(c, limit) == Detectable(ds, limit)
    decreases limit
  {
    hide Run, Outs, Register, DataClocks, NumberOf, ZeroWord, Repeat, IdBits, Idcode;
    if limit > 0 {
      DetectWord(c, ds, zeros);
      if ds != [] && Idcode(ds[|ds| - 1]) != 0xffffffff {
        DetectFinds(Run(c, ZeroWord()), ds[..|ds| - 1], zeros + 32, limit - 1);
      }
    }
  }

  lemma ZeroWordLength()
    ensures |ZeroWord()| == 32
  {
  }

  lemma OddNumber(bits: BitString)
    requires bits != [] && bits[0]
    ensures NumberOf(bits) != 0
  {
  }

  /** After a reset every device has its reset instruction. */
  lemma ResetDevices(c: Chain)
    ensures var r := Run(c, TmsClocks(Repeat(true, 5)));
      && r.tap == TestLogicReset
      && |r.devices| == |c.devices|
      && forall i :: 0 <= i < |c.devices| ==>
           SameParts(c.devices[i], r.devices[i]) && r.devices[i].ir == c.devices[i].resetCode
  {
    hide Run, Walk, Outs;
    var four := TmsClocks(Repeat(true, 4));
    var k := Clock(true, true);
    assert TmsClocks(Repeat(true, 5)) == four + [k];
    RunOne(c, four, k);
    RunWalks(c, TmsClocks(Repeat(true, 5)));
    TmsClocksWalk(c, Repeat(true, 5));
    FiveOnesReset(c.tap);
    RunParts(c, TmsClocks(Repeat(true, 5)));
    RunParts(c, four);
    ResetTick(Run(c, four), k);
  }

  lemma ResetTick(c: Chain, k: Clock)
    requires Next(c.tap, k.tms) == TestLogicReset
    ensures forall i :: 0 <= i < |c.devices| ==> Tick(c, k).devices[i].ir == Tick(c, k).devices[i].resetCode
  {
    hide Risen;
  }

  lemma {:induction false} IdRegister(ds: seq<Device>, ds0: seq<Device>)
    requires |ds| == |ds0| && Identified(ds0)
    requires forall i :: 0 <= i < |ds| ==> SameParts(ds0[i], ds[i]) && ds[i].ir == ds0[i].resetCode
    ensures Register(MapCaptureDr(ds)) == IdBits(ds0)
  {
    if ds != [] {
      var n := |ds| - 1;
      IdRegister(ds[..n], ds0[..n]);
      assert MapCaptureDr(ds)[..n] == MapCaptureDr(ds[..n]);
      assert SameParts(ds0[n], ds[n]);
    }
  }

  /** Entering Shift-DR after a reset connects all identification registers. */
  lemma DetectEntered(c: Chain)
    requires Identified(c.devices)
    ensures var a := Run(c, DetectEntry());
      a.tap == ShiftDr && Register(a.devices) == IdBits(c.devices)
  {
    hide Run, Register, IdBits, Tick, Identified, TmsClocks, SameParts, MapCaptureDr, Next;
    var reset := TmsClocks(Repeat(true, 5));
    var w := [true, false, false];
    var r := Run(c, reset);
    ResetDevices(c);
    DetectRoute();
    RunAppend(c, reset, TmsClocks([false]) + TmsClocks(w));
    RunAppend(r, TmsClocks([false]), TmsClocks(w));
    IdleTick(r);
    EnterDr(Chain(RunTestIdle, r.devices));
    IdRegister(r.devices, c.devices);
  }

  lemma DetectRoute()
    ensures DetectEntry() == TmsClocks(Repeat(true, 5)) + (TmsClocks([false]) + TmsClocks([true, false, false]))
  {
    hide Route, Hop;
    DrRoute();
    ResetHop();
    HopThenRoute(TestLogicReset, ShiftDr);
    var w := [true, false, false];
    assert FullRoute(TestLogicReset, ShiftDr) == [false] + w;
    assert [false] + w + Repeat(false, 0) == [false] + w;
    TmsClocksAppend([false], w);
  }

  lemma ResetHop()
    ensures Hop(TestLogicReset, ShiftDr) == (false, RunTestIdle)
  {
  }

  /** The clock that leaves Test-Logic-Reset changes no device. */
  lemma IdleTick(r: Chain)
    requires r.tap == TestLogicReset
    ensures Run(r, TmsClocks([false])) == Chain(RunTestIdle, r.devices)
  {
    hide Run, Tick;
    RunOne(r, [], Clock(false, true));
    assert TmsClocks([false]) == [] + [Clock(false, true)];
    RunNone(r);
    PlainTick(r, false);
  }

  lemma RunNone(c: Chain)
    ensures Run(c, []) == c
  {
  }

  /** On hardware whose devices all have identification registers, detection finds exactly the detectable codes. */
  lemma DetectionIsExact(c: Chain, limit: nat)
    requires Identified(c.devices)
    ensures Detect(Run(c, DetectEntry()), limit) == Detectable(c.devices, limit)
  {
    hide Run, Register, Detect, DetectEntry, Detectable, Identified;
    DetectEntered(c);
    assert IdBits(c.devices) + Repeat(false, 0) == IdBits(c.devices);
    DetectFinds(Run(c, DetectEntry()), c.devices, 0, limit);
  }

  /** It finds all of them exactly when none reads as all ones and there are no more than it will list. */
  lemma {:induction false} AllDetectableExactlyWhen(ds: seq<Device>, limit: nat)
    ensures |Detectable(ds, limit)| <= |ds|
    ensures |Detectable(ds, limit)| == |ds|
            <==> |ds| <= limit && forall i :: 0 <= i < |ds| ==> Idcode(ds[i]) != 0xffffffff
    ensures forall j :: 0 <= j < |Detectable(ds, limit)| ==> Detectable(ds, limit)[j] == Idcode(ds[|ds| - 1 - j])
  {
    hide Idcode;
    if ds != [] && limit > 0 {
      var n := |ds| - 1;
      AllDetectableExactlyWhen(ds[..n], limit - 1);
      assert forall i :: 0 <= i < n ==> ds[..n][i] == ds[i];
    }
  }

  /** Then a first detection lists every device with its code, in the order of the chain from TDI. */
  lemma DevicesListed(c: Chain, devices: seq<ChainParam>)
    requires Identified(c.devices) && |c.devices| <= 1000
    requires forall i :: 0 <= i < |c.devices| ==> Idcode(c.devices[i]) != 0xffffffff
    requires Listed(devices, Detect(Run(c, DetectEntry()), 1000), [])
    ensures |devices| == |c.devices|
    ensures forall i :: 0 <= i < |devices| ==> devices[i].idcode == Idcode(c.devices[i])
  {
    hide Run, Detect, DetectEntry, Detectable, Identified, Idcode;
    DetectionIsExact(c, 1000);
    AllDetectableExactlyWhen(c.devices, 1000);
    var n := |c.devices|;
    var ids := Detect(Run(c, DetectEntry()), 1000);
    forall i | 0 <= i < n
      ensures devices[i].idcode == Idcode(c.devices[i])
    {
      assert ids[n - 1 - i] == Idcode(c.devices[n - 1 - (n - 1 - i)]);
    }
  }

  /**
   * The first call of `getChain` on hardware whose devices all have identification registers: it counts
   * every device if and only if there are at most 1000 and no code is all ones, and then has each one's code.
   */
  method FirstGetChain(jtag: Jtag, detect: bool) returns (n: int)
    requires jtag.Valid() && jtag.numDevices == -1 && jtag.devices == []
    modifies jtag`currentState, jtag`numDevices, jtag`devices, jtag.io, jtag.io.tmsBuf
    ensures jtag.Valid() && n == jtag.numDevices
    ensures var ds := Run(jtag.io.origin, old(jtag.io.Stream())).devices;
      Identified(ds) ==>
        && (n == |ds| <==> |ds| <= 1000 && forall i :: 0 <= i < |ds| ==> Idcode(ds[i]) != 0xffffffff)
        && (n == |ds| ==> |jtag.devices| == n && forall i :: 0 <= i < n ==> jtag.devices[i].idcode == Idcode(ds[i]))
  {
    hide Run, Detect, DetectEntry, DetectWords, Approach, Identified, Idcode, Listed, IOBase.Stream, IOBase.Valid;
    ghost var s := jtag.io.Stream();
    n := jtag.GetChain(detect);
    RunAppend(jtag.io.origin, s, DetectEntry());
    if Identified(Run(jtag.io.origin, s).devices) {
      FirstDetection(Run(jtag.io.origin, s), n, jtag.devices);
    }
  }

  lemma FirstDetection(c: Chain, n: int, devices: seq<ChainParam>)
    requires Identified(c.devices)
    requires var ids := Detect(Run(c, DetectEntry()), 1000); n == |ids| && Listed(devices, ids, [])
    ensures n == |c.devices|
            <==> |c.devices| <= 1000 && forall i :: 0 <= i < |c.devices| ==> Idcode(c.devices[i]) != 0xffffffff
    ensures n == |c.devices| ==> |devices| == n && forall i :: 0 <= i < n ==> devices[i].idcode == Idcode(c.devices[i])
  {
    hide Run, Detect, DetectEntry, Identified, Idcode, Listed;
    DetectionIsExact(c, 1000);
    AllDetectableExactlyWhen(c.devices, 1000);
    if n == |c.devices| {
      DevicesListed(c, devices);
    }
  }
}
