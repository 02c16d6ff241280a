/** The TAP controller (IEEE Std 1149.1, clause 6.1) and the navigation of jtag.cpp. */
module Tap {
  import opened Bits

  /** The states of the controller, and `Unknown` for the software's shadow before the first reset. */
  datatype TapState =
    | TestLogicReset | RunTestIdle
    | SelectDrScan | CaptureDr | ShiftDr | Exit1Dr | PauseDr | Exit2Dr | UpdateDr
    | SelectIrScan | CaptureIr | ShiftIr | Exit1Ir | PauseIr | Exit2Ir | UpdateIr
    | Unknown

  /** A state the hardware can be in. */
  type Known = s: TapState | s != Unknown witness TestLogicReset

  // ---- The automaton ----

  function Next(s: Known, tms: bool): Known {
    match s
    case TestLogicReset => if tms then TestLogicReset else RunTestIdle
    case RunTestIdle => if tms then SelectDrScan else RunTestIdle
    case SelectDrScan => if tms then SelectIrScan else CaptureDr
    case CaptureDr => if tms then Exit1Dr else ShiftDr
    case ShiftDr => if tms then Exit1Dr else ShiftDr
    case Exit1Dr => if tms then UpdateDr else PauseDr
    case PauseDr => if tms then Exit2Dr else PauseDr
    case Exit2Dr => if tms then UpdateDr else ShiftDr
    case UpdateDr => if tms then SelectDrScan else RunTestIdle
    case SelectIrScan => if tms then TestLogicReset else CaptureIr
    case CaptureIr => if tms then Exit1Ir else ShiftIr
    case ShiftIr => if tms then Exit1Ir else ShiftIr
    case Exit1Ir => if tms then UpdateIr else PauseIr
    case PauseIr => if tms then Exit2Ir else PauseIr
    case Exit2Ir => if tms then UpdateIr else ShiftIr
    case UpdateIr => if tms then SelectDrScan else RunTestIdle
  }

  /** The state after clocking in a whole TMS sequence. */
  function Walk(s: Known, tms: BitString): Known {
    if tms == [] then s else Next(Walk(s, tms[..|tms| - 1]), tms[|tms| - 1])
  }

  lemma {:induction false} WalkAppend(s: Known, a: BitString, b: BitString)
    ensures Walk(s, a + b) == Walk(Walk(s, a), b)
  {
    if b == [] {
      assert a + b == a;
    } else {
      var n := |b| - 1;
      assert (a + b)[..|a + b| - 1] == a + b[..n];
      WalkAppend(s, a, b[..n]);
    }
  }

  lemma WalkOne(s: Known, w: BitString, b: bool)
    ensures Walk(s, w + [b]) == Next(Walk(s, w), b)
  {
    assert (w + [b])[..|w|] == w;
  }

  /** Clocks with TMS high that a state is away from Test-Logic-Reset. */
  function OnesToReset(s: Known): nat {
    match s
    case TestLogicReset => 0
    case SelectIrScan => 1
    case SelectDrScan => 2
    case RunTestIdle | UpdateDr | UpdateIr => 3
    case Exit1Dr | Exit2Dr | Exit1Ir | Exit2Ir => 4
    case CaptureDr | ShiftDr | PauseDr | CaptureIr | ShiftIr | PauseIr => 5
  }

  lemma {:induction false} OnesReset(s: Known, n: nat)
    requires n >= OnesToReset(s)
    ensures Walk(s, Repeat(true, n)) == TestLogicReset
    decreases n
  {
    hide Walk, Next, Repeat, OnesToReset;
    FirstOne(s);
    if n == 0 {
      NoOnes();
    } else {
      OneMore(n - 1);
      WalkAppend(s, [true], Repeat(true, n - 1));
      OnesReset(Next(s, true), n - 1);
    }
  }

  lemma FirstOne(s: Known)
    ensures Walk(s, [true]) == Next(s, true) && Walk(s, []) == s
    ensures OnesToReset(s) == 0 ==> s == TestLogicReset
    ensures OnesToReset(Next(s, true)) == if OnesToReset(s) == 0 then 0 else OnesToReset(s) - 1
  {
    WalkOne(s, [], true);
    assert [] + [true] == [true];
  }

  lemma NoOnes()
    ensures Repeat(true, 0) == []
  {
  }

  lemma OneMore(n: nat)
    ensures Repeat(true, n + 1) == [true] + Repeat(true, n)
  {
  }

  /** Five clocks with TMS high reset the controller from any state. */
  lemma FiveOnesReset(s: Known)
    ensures Walk(s, Repeat(true, 5)) == TestLogicReset
  {
    OnesReset(s, 5);
  }

  // ---- Navigation ----

  predicate InDrColumn(s: TapState) {
    s.CaptureDr? || s.ShiftDr? || s.Exit1Dr? || s.PauseDr? || s.Exit2Dr? || s.UpdateDr?
  }

  predicate InIrColumn(s: TapState) {
    s.CaptureIr? || s.ShiftIr? || s.Exit1Ir? || s.PauseIr? || s.Exit2Ir? || s.UpdateIr?
  }

  /** One turn of the navigation loop: the TMS bit to send and the new shadow state. */
  function Hop(current: Known, target: Known): (bool, Known)
    requires current != target
  {
    match current
    case TestLogicReset => (false, RunTestIdle)
    case RunTestIdle => (true, SelectDrScan)
    case SelectDrScan =>
      if InDrColumn(target) then (false, CaptureDr) else (true, SelectIrScan)
    case CaptureDr => if target == ShiftDr then (false, ShiftDr) else (true, Exit1Dr)
    case ShiftDr => (true, Exit1Dr)
    case Exit1Dr =>
      if target.PauseDr? || target.Exit2Dr? || target.ShiftDr? then (false, PauseDr) else (true, UpdateDr)
    case PauseDr => (true, Exit2Dr)
    case Exit2Dr =>
      if target.ShiftDr? || target.Exit1Dr? || target.PauseDr? then (false, ShiftDr) else (true, UpdateDr)
    case UpdateDr => if target == RunTestIdle then (false, RunTestIdle) else (true, SelectDrScan)
    case SelectIrScan =>
      if InIrColumn(target) then (false, CaptureIr) else (true, TestLogicReset)
    case CaptureIr => if target == ShiftIr then (false, ShiftIr) else (true, Exit1Ir)
    case ShiftIr => (true, Exit1Ir)
    case Exit1Ir =>
      if target.PauseIr? || target.Exit2Ir? || target.ShiftIr? then (false, PauseIr) else (true, UpdateIr)
    case PauseIr => (true, Exit2Ir)
    case Exit2Ir =>
      if target.ShiftIr? || target.Exit1Ir? || target.PauseIr? then (false, ShiftIr) else (true, UpdateIr)
    case UpdateIr => if target == RunTestIdle then (false, RunTestIdle) else (true, SelectDrScan)
  }

  /** The place of a state in its column: Capture, Shift, Exit1, Pause, Exit2, Update. */
  function Rung(s: TapState): (r: nat)
    ensures r <= 5
  {
    if s.CaptureDr? || s.CaptureIr? then 0
    else if s.ShiftDr? || s.ShiftIr? then 1
    else if s.Exit1Dr? || s.Exit1Ir? then 2
    else if s.PauseDr? || s.PauseIr? then 3
    else if s.Exit2Dr? || s.Exit2Ir? then 4
    else 5
  }

  /** Fewest clocks between two rungs without leaving the column, if there is a way. */
  function Climb(p: nat, q: nat): nat
    requires p <= 5 && q <= 5 && (p == q || (p != 5 && q != 0))
  {
    if p == q then 0
    else if p == 0 then (if q <= 2 then 1 else if q == 4 then 3 else 2)
    else if p == 1 then (if q == 2 then 1 else if q == 4 then 3 else 2)
    else if p == 2 then (if q == 1 then 3 else if q == 4 then 2 else 1)
    else if p == 3 then (if q == 4 then 1 else if q == 2 then 3 else 2)
    else (if q == 2 then 2 else if q == 3 then 3 else 1)
  }

  /** Fewest clocks from Select-DR-Scan to a state. */
  function FromSelect(t: Known): nat {
    if t.SelectDrScan? then 0
    else if t.SelectIrScan? then 1
    else if t.TestLogicReset? then 2
    else if t.RunTestIdle? then 3
    else (if InDrColumn(t) then 1 else 2) + Climb(0, Rung(t))
  }

  /** Fewest clocks from a rung out of its column, through Update. */
  function Leave(p: nat): nat {
    if p == 0 || p == 1 || p == 3 then 3 else if p == 5 then 1 else 2
  }

  /** The distance between two states, in clocks. */
  function Distance(s: Known, t: Known): nat {
    if s == t then 0
    else if s.TestLogicReset? then (if t.RunTestIdle? then 1 else 2 + FromSelect(t))
    else if s.RunTestIdle? then 1 + FromSelect(t)
    else if s.SelectDrScan? then FromSelect(t)
    else if s.SelectIrScan? then
      if InIrColumn(t) then 1 + Climb(0, Rung(t))
      else if t.TestLogicReset? then 1
      else if t.RunTestIdle? then 2
      else 3 + FromSelect(t)
    else if ((InDrColumn(s) && InDrColumn(t)) || (InIrColumn(s) && InIrColumn(t)))
            && Rung(s) != 5 && Rung(t) != 0 then
      Climb(Rung(s), Rung(t))
    else if t.RunTestIdle? then Leave(Rung(s))
    else Leave(Rung(s)) + FromSelect(t)
  }

  /** Each hop is a transition of the automaton. */
  lemma HopIsTransition(current: Known, target: Known)
    requires current != target
    ensures Hop(current, target).1 == Next(current, Hop(current, target).0)
  {
  }

  lemma HopNearsFromTop(current: Known, target: Known)
    requires current != target && !InDrColumn(current) && !InIrColumn(current)
    ensures Distance(current, target) == 1 + Distance(Hop(current, target).1, target)
  {
  }

  lemma HopNearsWithinDr(current: Known, target: Known)
    requires current != target && InDrColumn(current) && InDrColumn(target)
    ensures Distance(current, target) == 1 + Distance(Hop(current, target).1, target)
  {
  }

  lemma HopNearsOutOfDr(current: Known, target: Known)
    requires current != target && InDrColumn(current) && !InDrColumn(target)
    ensures Distance(current, target) == 1 + Distance(Hop(current, target).1, target)
  {
  }

  lemma HopNearsWithinIr(current: Known, target: Known)
    requires current != target && InIrColumn(current) && InIrColumn(target)
    ensures Distance(current, target) == 1 + Distance(Hop(current, target).1, target)
  {
  }

  lemma HopNearsOutOfIr(current: Known, target: Known)
    requires current != target && InIrColumn(current) && !InIrColumn(target)
    ensures Distance(current, target) == 1 + Distance(Hop(current, target).1, target)
  {
  }

  /** Each hop brings the target one clock nearer. */
  lemma HopNears(current: Known, target: Known)
    requires current != target
    ensures Distance(current, target) == 1 + Distance(Hop(current, target).1, target)
  {
    if InDrColumn(current) {
      if InDrColumn(target) {
        HopNearsWithinDr(current, target);
      } else {
        HopNearsOutOfDr(current, target);
      }
    } else if InIrColumn(current) {
      if InIrColumn(target) {
        HopNearsWithinIr(current, target);
      } else {
        HopNearsOutOfIr(current, target);
      }
    } else {
      HopNearsFromTop(current, target);
    }
  }

  /** The whole TMS sequence that navigation sends from one known state to another. */
  function Route(current: Known, target: Known): BitString
    decreases Distance(current, target)
  {
    if current == target then []
    else
      HopNears(current, target);
      [Hop(current, target).0] + Route(Hop(current, target).1, target)
  }

  lemma {:induction false} RouteArrives(current: Known, target: Known)
    ensures Walk(current, Route(current, target)) == target
    decreases |Route(current, target)|
  {
    hide Hop, Next, Distance;
    if current != target {
      var tms := Hop(current, target).0;
      var next := Hop(current, target).1;
      HopIsTransition(current, target);
      RouteArrives(next, target);
      WalkOne(current, [], tms);
      assert [] + [tms] == [tms];
      WalkAppend(current, [tms], Route(next, target));
    }
  }

  lemma {:induction false} RouteLength(current: Known, target: Known)
    ensures |Route(current, target)| == Distance(current, target)
    decreases |Route(current, target)|
  {
    if current != target {
      RouteLength(Hop(current, target).1, target);
      HopNears(current, target);
    }
  }

  /** One clock changes the distance travelled by at most one. */
  lemma ClockGainsAtMostOne(s: Known, m: Known, tms: bool)
    ensures Distance(s, Next(m, tms)) <= Distance(s, m) + 1
  {
    if InDrColumn(s) && InDrColumn(m) {
      ClockGainsWithinDr(s, m, tms);
    } else if InDrColumn(s) {
      ClockGainsOutsideDr(s, m, tms);
    } else if InIrColumn(s) && InIrColumn(m) {
      ClockGainsWithinIr(s, m, tms);
    } else if InIrColumn(s) {
      ClockGainsOutsideIr(s, m, tms);
    } else {
      ClockGainsFromTop(s, m, tms);
    }
  }

  lemma ClockGainsFromTop(s: Known, m: Known, tms: bool)
    requires !InDrColumn(s) && !InIrColumn(s)
    ensures Distance(s, Next(m, tms)) <= Distance(s, m) + 1
  {
    hide Distance, Next;
    if tms {
      ClockGainsFromTopHigh(s, m);
    } else {
      ClockGainsFromTopLow(s, m);
    }
  }

  lemma ClockGainsFromTopHigh(s: Known, m: Known)
    requires !InDrColumn(s) && !InIrColumn(s)
    ensures Distance(s, Next(m, true)) <= Distance(s, m) + 1
  {
  }

  lemma ClockGainsFromTopLow(s: Known, m: Known)
    requires !InDrColumn(s) && !InIrColumn(s)
    ensures Distance(s, Next(m, false)) <= Distance(s, m) + 1
  {
  }

  lemma ClockGainsWithinDr(s: Known, m: Known, tms: bool)
    requires InDrColumn(s) && InDrColumn(m)
    ensures Distance(s, Next(m, tms)) <= Distance(s, m) + 1
  {
    hide Distance, Next;
    if tms {
      ClockGainsWithinDrHigh(s, m);
    } else {
      ClockGainsWithinDrLow(s, m);
    }
  }

  lemma ClockGainsWithinDrHigh(s: Known, m: Known)
    requires InDrColumn(s) && InDrColumn(m)
    ensures Distance(s, Next(m, true)) <= Distance(s, m) + 1
  {
  }

  lemma ClockGainsWithinDrLow(s: Known, m: Known)
    requires InDrColumn(s) && InDrColumn(m)
    ensures Distance(s, Next(m, false)) <= Distance(s, m) + 1
  {
  }

  lemma ClockGainsOutsideDr(s: Known, m: Known, tms: bool)
    requires InDrColumn(s) && !InDrColumn(m)
    ensures Distance(s, Next(m, tms)) <= Distance(s, m) + 1
  {
    hide Distance, Next;
    if tms {
      ClockGainsOutsideDrHigh(s, m);
    } else {
      ClockGainsOutsideDrLow(s, m);
    }
  }

  lemma ClockGainsOutsideDrHigh(s: Known, m: Known)
    requires InDrColumn(s) && !InDrColumn(m)
    ensures Distance(s, Next(m, true)) <= Distance(s, m) + 1
  {
  }

  lemma ClockGainsOutsideDrLow(s: Known, m: Known)
    requires InDrColumn(s) && !InDrColumn(m)
    ensures Distance(s, Next(m, false)) <= Distance(s, m) + 1
  {
  }

  lemma ClockGainsWithinIr(s: Known, m: Known, tms: bool)
    requires InIrColumn(s) && InIrColumn(m)
    ensures Distance(s, Next(m, tms)) <= Distance(s, m) + 1
  {
    hide Distance, Next;
    if tms {
      ClockGainsWithinIrHigh(s, m);
    } else {
      ClockGainsWithinIrLow(s, m);
    }
  }

  lemma ClockGainsWithinIrHigh(s: Known, m: Known)
    requires InIrColumn(s) && InIrColumn(m)
    ensures Distance(s, Next(m, true)) <= Distance(s, m) + 1
  {
  }

  lemma ClockGainsWithinIrLow(s: Known, m: Known)
    requires InIrColumn(s) && InIrColumn(m)
    ensures Distance(s, Next(m, false)) <= Distance(s, m) + 1
  {
  }

  lemma ClockGainsOutsideIr(s: Known, m: Known, tms: bool)
    requires InIrColumn(s) && !InIrColumn(m)
    ensures Distance(s, Next(m, tms)) <= Distance(s, m) + 1
  {
    if InDrColumn(m) {
      ClockGainsIrToDr(s, m, tms);
    }
  }

  lemma ClockGainsIrToDr(s: Known, m: Known, tms: bool)
    requires InIrColumn(s) && InDrColumn(m)
    ensures Distance(s, Next(m, tms)) <= Distance(s, m) + 1
  {
    DistanceIrToDr(s, m);
    var next := Next(m, tms);
    if InDrColumn(next) {
      DistanceIrToDr(s, next);
      ClimbGains(m, tms);
    }
  }

  lemma DistanceIrToDr(s: Known, m: Known)
    requires InIrColumn(s) && InDrColumn(m)
    ensures Distance(s, m) == Leave(Rung(s)) + 1 + Climb(0, Rung(m))
  {
  }

  lemma ClimbGains(m: Known, tms: bool)
    requires InDrColumn(m) && InDrColumn(Next(m, tms))
    ensures Climb(0, Rung(Next(m, tms))) <= Climb(0, Rung(m)) + 1
  {
  }

  lemma {:induction false} WalkIsNoShorter(s: Known, w: BitString)
    ensures Distance(s, Walk(s, w)) <= |w|
  {
    if w != [] {
      var n := |w| - 1;
      WalkIsNoShorter(s, w[..n]);
      ClockGainsAtMostOne(s, Walk(s, w[..n]), w[n]);
    }
  }

  /** No TMS sequence of any length reaches the target sooner than the navigation does. */
  lemma RouteIsShortest(s: Known, target: Known, w: BitString)
    requires Walk(s, w) == target
    ensures |Route(s, target)| <= |w|
  {
    RouteLength(s, target);
    WalkIsNoShorter(s, w);
  }

  /** The route passes through (or ends in) Test-Logic-Reset at some clock. */
  ghost predicate EntersReset(s: Known, w: BitString) {
    exists i :: 1 <= i <= |w| && Walk(s, w[..i]) == TestLogicReset
  }

  /** When navigation may reset the chain. */
  predicate ResetsOnTheWay(s: Known, target: Known) {
    s != target
    && (target == TestLogicReset
        || (s == SelectDrScan && target == RunTestIdle)
        || (s == SelectIrScan && !InIrColumn(target)))
  }

  lemma ResetsAfterHop(s: Known, target: Known)
    requires s != target
    ensures ResetsOnTheWay(s, target)
            <==> Hop(s, target).1 == TestLogicReset || ResetsOnTheWay(Hop(s, target).1, target)
  {
  }

  /** The walk from s passes reset iff its first step does or the rest of it does. */
  lemma EntersResetFirst(s: Known, tms: bool, w: BitString)
    ensures EntersReset(s, [tms] + w)
            <==> Next(s, tms) == TestLogicReset || EntersReset(Next(s, tms), w)
  {
    var v := [tms] + w;
    forall i | 0 <= i <= |w|
      ensures Walk(s, v[..i + 1]) == Walk(Next(s, tms), w[..i])
    {
      assert v[..i + 1] == [tms] + w[..i];
      WalkOne(s, [], tms);
      assert [] + [tms] == [tms];
      WalkAppend(s, [tms], w[..i]);
    }
    assert w[..0] == [];
    if EntersReset(s, v) {
      var i :| 1 <= i <= |v| && Walk(s, v[..i]) == TestLogicReset;
      assert Walk(s, v[..(i - 1) + 1]) == Walk(Next(s, tms), w[..i - 1]);
    }
    if Next(s, tms) == TestLogicReset {
      assert Walk(s, v[..0 + 1]) == TestLogicReset;
    } else if EntersReset(Next(s, tms), w) {
      var i :| 1 <= i <= |w| && Walk(Next(s, tms), w[..i]) == TestLogicReset;
      assert Walk(s, v[..i + 1]) == TestLogicReset;
    }
  }

  /** Navigation resets the chain in exactly these cases. */
  lemma {:induction false} RouteResetsExactlyWhen(s: Known, target: Known)
    ensures EntersReset(s, Route(s, target)) <==> ResetsOnTheWay(s, target)
    decreases |Route(s, target)|
  {
    if s != target {
      HopIsTransition(s, target);
      RouteResetsExactlyWhen(Hop(s, target).1, target);
      EntersResetFirst(s, Hop(s, target).0, Route(Hop(s, target).1, target));
      ResetsAfterHop(s, target);
    }
  }
}
