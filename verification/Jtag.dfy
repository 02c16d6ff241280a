/** jtag.cpp: the shadow of the controller state, navigation, and scans that address one device of a chain. */
module Jtag {
  import opened Bits
  import opened Tap
  import opened ScanChain
  import opened IoBase

  /** What the software knows of one device. */
  datatype ChainParam = ChainParam(idcode: nat, irlen: nat)

  const MAXNUMDEVICES: nat := 1000

  /** The TMS bits that take the controller from the shadow state to a target. */
  function FullRoute(current: TapState, target: Known): BitString {
    if current == Unknown then Repeat(true, 6) + Route(TestLogicReset, target) else Route(current, target)
  }

  /** The clocks of a navigation with some extra clocks at TMS low in the target state. */
  function Approach(current: TapState, target: Known, pre: int): seq<Clock> {
    TmsClocks(FullRoute(current, target) + Repeat(false, if pre < 0 then 0 else pre))
  }

  /** Total instruction register length of devices lo to hi - 1. */
  function IrBits(devices: seq<ChainParam>, lo: nat, hi: nat): nat
    requires hi <= |devices|
    decreases hi - lo
  {
    if lo >= hi then 0 else IrBits(devices, lo, hi - 1) + devices[hi - 1].irlen
  }

  /** Clocks a data register scan spends before its data, for `post` devices behind the target. */
  function Lead(numDevices: int, post: nat, align: nat): int {
    if align == 0 then numDevices - post - 1 else align - post % align
  }

  /** With an alignment, it is the least positive count that makes the clocks around the data a multiple of it. */
  lemma LeadIsLeast(numDevices: int, post: nat, align: nat, p: nat)
    requires align > 0
    ensures 0 < Lead(numDevices, post, align) && (Lead(numDevices, post, align) + post) % align == 0
    ensures 0 < p && (p + post) % align == 0 ==> Lead(numDevices, post, align) <= p
  {
    var q, r := post / align, post % align;
    assert post == q * align + r;
    assert align - r + post == (q + 1) * align;
    MultipleHasNoRest(q + 1, align);
    if 0 < p < align - r && (p + post) % align == 0 {
      assert p + post == q * align + (p + r);
      DivideUnique(p + post, align, q, p + r);
      assert false;
    }
  }

  lemma LeadFromMultiple(numDevices: int, post: nat, align: nat, pre: int, m: nat)
    requires align > 0 && 0 < pre <= align && pre + post == m * align
    ensures pre == Lead(numDevices, post, align)
  {
    var q, r := post / align, post % align;
    assert post == q * align + r;
    assert (m - q - 1) * align == pre + r - align;
    SmallMultiple(m - q - 1, align);
  }

  /** The loop that finds the lead of an aligned scan. */
  method AlignedLead(numDevices: int, post: nat, align: nat) returns (pre: int)
    requires align > 0
    ensures pre == Lead(numDevices, post, align)
  {
    pre := 0 - post;
    ghost var m := 0;
    while pre <= 0
      invariant pre <= align && m >= 0 && pre + post == m * align
    {
      pre := pre + align;
      m := m + 1;
    }
    LeadFromMultiple(numDevices, post, align, pre, m);
  }

  lemma MultipleHasNoRest(q: nat, d: nat)
    requires d > 0
    ensures (q * d) % d == 0
  {
    DivideUnique(q * d, d, q, 0);
  }

  /** The way into Shift-DR, unless the scan continues one that was left there. */
  function Entry(from: TapState, continued: bool, lead: int): seq<Clock> {
    if continued then [] else Approach(from, ShiftDr, lead)
  }

  /** The data of a call of shiftDR and, if it ends the scan, the way home. */
  function DrData(data: BitString, post: nat, exit: bool, home: Known): seq<Clock> {
    DataClocks(data, post == 0 && exit)
    + if exit then DataClocks(Repeat(false, post), true) + Approach(Exit1Dr, home, 0) else []
  }

  /** The instruction, ones for the devices behind the target, and the way home. */
  function IrData(data: BitString, post: nat, home: Known): seq<Clock> {
    DataClocks(data, post == 0) + (DataClocks(Repeat(true, post), true) + Approach(Exit1Ir, home, 0))
  }

  lemma DrDataJoins(before: seq<Clock>, data: BitString, post: nat, exit: bool, home: Known)
    ensures var d := before + DataClocks(data, post == 0 && exit);
      before + DrData(data, post, exit, home)
      == if exit then d + (DataClocks(Repeat(false, post), true) + Approach(Exit1Dr, home, 0)) else d
  {
    hide DataClocks, Approach;
  }

  lemma IrDataJoins(before: seq<Clock>, data: BitString, post: nat, home: Known)
    ensures before + IrData(data, post, home)
            == before + DataClocks(data, post == 0) + DataClocks(Repeat(true, post), true) + Approach(Exit1Ir, home, 0)
  {
    hide DataClocks, Approach;
  }

  lemma EntryJoins(start: seq<Clock>, from: TapState, continued: bool, lead: int)
    ensures start + Entry(from, continued, lead) == if continued then start else start + Approach(from, ShiftDr, lead)
  {
    hide Approach;
  }

  // ---- Detection ----

  /** The value of `byteArrayToLong`. */
  function WordOf(b: seq<byte>): nat
    requires |b| == 4
  {
    var b0: int, b1: int, b2: int, b3: int := b[0], b[1], b[2], b[3];
    b0 + 256 * (b1 + 256 * (b2 + 256 * b3))
  }

  /** Reset, then Shift-DR. */
  function DetectEntry(): seq<Clock> {
    TmsClocks(Repeat(true, 5)) + Approach(TestLogicReset, ShiftDr, 0)
  }

  /** Thirty-two clocks that shift in zeros. */
  function ZeroWord(): seq<Clock> {
    DataClocks(Repeat(false, 32), false)
  }

  /** The identification codes that detection takes from a chain, in the order they arrive. */
  function Detect(c: Chain, limit: nat): seq<nat>
    decreases limit
  {
    if limit == 0 then []
    else
      var id := NumberOf(Outs(c, ZeroWord()));
      if id == 0 || id == 0xffffffff then [] else [id] + Detect(Run(c, ZeroWord()), limit - 1)
  }

  /** The words read for n codes: the one that ends the loop counts too. */
  function Reads(n: nat): nat {
    if n < 1000 then n + 1 else n
  }

  /** The devices known after n codes arrived: the latest code first, then what was known before. */
  predicate Listed(devices: seq<ChainParam>, ids: seq<nat>, known: seq<ChainParam>) {
    && |devices| == |ids| + |known|
    && devices[|ids|..] == known
    && forall i :: 0 <= i < |ids| ==> devices[i].idcode == ids[|ids| - 1 - i]
  }

  lemma ListNone(known: seq<ChainParam>)
    ensures Listed(known, [], known)
  {
  }

  lemma ListLength(devices: seq<ChainParam>, ids: seq<nat>, known: seq<ChainParam>)
    requires Listed(devices, ids, known)
    ensures |ids| <= |devices|
  {
  }

  lemma ListOne(devices: seq<ChainParam>, ids: seq<nat>, known: seq<ChainParam>, p: ChainParam)
    requires Listed(devices, ids, known)
    ensures Listed([p] + devices, ids + [p.idcode], known)
  {
  }

  lemma DetectEntryJoins(start: seq<Clock>)
    ensures start + TmsClocks(Repeat(true, 5)) + Approach(TestLogicReset, ShiftDr, 0) == start + DetectEntry()
  {
    hide TmsClocks, Approach;
  }

  /** The clocks of n reads. */
  function DetectWords(n: nat): seq<Clock> {
    DataClocks(Repeat(false, 32 * n), false)
  }

  /** What a scan of four zero bytes is. */
  lemma ZeroScan(c: Chain, data: BitString)
    requires Drives(data, Bytes([0, 0, 0, 0]), 32)
    ensures DataClocks(data, false) == ZeroWord()
    ensures |Pack(Outs(c, ZeroWord()))| == 4
    ensures WordOf(Pack(Outs(c, ZeroWord()))) == NumberOf(Outs(c, ZeroWord()))
  {
    hide Run, Outs, Pack, WordOf, NumberOf, Bit;
    forall i | 0 <= i < 32
      ensures data[i] == false
    {
      ZeroHasNoBit(i % 8);
    }
    assert data == Repeat(false, 32);
    WordOfPack(Outs(c, ZeroWord()));
  }

  lemma MoreZeros(c: Chain, before: seq<Clock>, n: nat)
    ensures n == 0 ==> before + DetectWords(n) == before
    ensures before + DetectWords(n) + ZeroWord() == before + DetectWords(n + 1)
    ensures Run(c, before + DetectWords(n) + ZeroWord()) == Run(Run(c, before + DetectWords(n)), ZeroWord())
  {
    hide Run, Outs;
    assert DetectWords(n) + ZeroWord() == DetectWords(n + 1);
    RunAppend(c, before + DetectWords(n), ZeroWord());
  }

  /** One turn of the detection loop on the codes still to come. */
  lemma DetectStep(c: Chain, ids: seq<nat>, limit: nat)
    requires limit > 0
    ensures var id := NumberOf(Outs(c, ZeroWord()));
      ids + Detect(c, limit)
      == if id == 0 || id == 0xffffffff then ids else ids + [id] + Detect(Run(c, ZeroWord()), limit - 1)
    ensures Detect(c, 0) == []
  {
    hide Run, Outs, NumberOf, ZeroWord;
  }

  /** Four bytes packed from 32 bits make the number those bits stand for. */
  lemma WordOfPack(bits: BitString)
    requires |bits| == 32
    ensures WordOf(Pack(bits)) == NumberOf(bits)
  {
    hide NumberOf;
    NumberOfByteFirst(bits);
    NumberOfByteFirst(bits[8..]);
    NumberOfByteFirst(bits[16..]);
    assert bits[8..][8..] == bits[16..] && bits[16..][8..] == bits[24..];
    assert bits[8..][..8] == bits[8..16] && bits[16..][..8] == bits[16..24] && bits[..8] == bits[0..8];
    assert bits[24..32] == bits[24..];
  }

  function Doubled(x: nat, n: nat): nat {
    if n == 0 then x else 2 * Doubled(x, n - 1)
  }

  lemma {:induction false} NumberSplit(bits: BitString, n: nat)
    requires n <= |bits|
    ensures NumberOf(bits) == NumberOf(bits[..n]) + Doubled(NumberOf(bits[n..]), n)
  {
    if n == 0 {
      assert bits[0..] == bits;
    } else {
      NumberSplit(bits[1..], n - 1);
      assert bits[1..][..n - 1] == bits[..n][1..];
      assert bits[1..][n - 1..] == bits[n..];
    }
  }

  lemma NumberOfByteFirst(bits: BitString)
    requires |bits| >= 8
    ensures NumberOf(bits) == NumberOf(bits[..8]) + 256 * NumberOf(bits[8..])
  {
    hide NumberOf, Doubled;
    NumberSplit(bits, 8);
    DoubledEight(NumberOf(bits[8..]));
  }

  lemma DoubledEight(x: nat)
    ensures Doubled(x, 8) == 256 * x
  {
    assert Doubled(x, 1) == 2 * x;
    assert Doubled(x, 2) == 4 * x;
    assert Doubled(x, 3) == 8 * x;
    assert Doubled(x, 4) == 16 * x;
    assert Doubled(x, 5) == 32 * x;
    assert Doubled(x, 6) == 64 * x;
    assert Doubled(x, 7) == 128 * x;
  }

  /** A state that TMS low leads to is reached with TMS low. */
  lemma TmsWasLow(c: Chain, ks: seq<Clock>)
    requires ks != []
    requires var s := Run(c, ks).tap; Shifting(s) || s.RunTestIdle? || s.PauseDr? || s.PauseIr?
    ensures TmsLow(ks)
  {
    hide Run, Next, Shifting;
    var n := |ks| - 1;
    RunWalks(c, ks);
    assert TmsOf(ks)[n] == ks[n].tms;
    if ks[n].tms {
      HighLeaves(Walk(c.tap, TmsOf(ks)[..n]));
    }
  }

  lemma HighLeaves(s: Known)
    ensures var t := Next(s, true); !Shifting(t) && !t.RunTestIdle? && !t.PauseDr? && !t.PauseIr?
  {
  }

  /** Shifting data keeps the controller, or takes it to Exit1 with the last bit. */
  lemma DataArrives(c: Chain, before: seq<Clock>, data: BitString, last: bool)
    requires data == [] || Shifting(Run(c, before).tap)
    ensures Run(c, before + DataClocks(data, last)).tap
            == if last && data != [] then Next(Run(c, before).tap, true) else Run(c, before).tap
  {
    hide Run, Next, Outs, Register;
    if data == [] {
      assert before + DataClocks(data, last) == before;
    } else {
      RunAppend(c, before, DataClocks(data, last));
      ScanLaw(Run(c, before), DataClocks(data, last));
    }
  }

  lemma AnythingDrives(tdi: Source, n: nat)
    requires tdi.Null?
    ensures Drives(Repeat(false, n), tdi, n)
  {
  }

  lemma DataKeepsLow(before: seq<Clock>, data: BitString)
    requires TmsLow(before)
    ensures TmsLow(before + DataClocks(data, false))
  {
  }

  lemma TmsOfTmsClocks(w: BitString)
    ensures TmsOf(TmsClocks(w)) == w
  {
  }

  lemma TmsClocksAppend(a: BitString, b: BitString)
    ensures TmsClocks(a + b) == TmsClocks(a) + TmsClocks(b)
  {
  }

  /** Clocking TMS bits walks the controller of the chain. */
  lemma TmsClocksWalk(c: Chain, w: BitString)
    ensures Run(c, TmsClocks(w)).tap == Walk(c.tap, w)
  {
    hide Run, Walk;
    RunWalks(c, TmsClocks(w));
    TmsOfTmsClocks(w);
  }

  lemma ResetArrives(c: Chain, before: seq<Clock>)
    ensures Run(c, before + TmsClocks(Repeat(true, 5))).tap == TestLogicReset
  {
    hide Run, Walk;
    RunAppend(c, before, TmsClocks(Repeat(true, 5)));
    TmsClocksWalk(Run(c, before), Repeat(true, 5));
    FiveOnesReset(Run(c, before).tap);
  }

  lemma {:induction false} StaysLow(s: Known, n: nat)
    requires Next(s, false) == s
    ensures Walk(s, Repeat(false, n)) == s
  {
    if n > 0 {
      StaysLow(s, n - 1);
      WalkOne(s, Repeat(false, n - 1), false);
      assert Repeat(false, n) == Repeat(false, n - 1) + [false];
    }
  }

  /** The full route takes the hardware to the target, from any state if the shadow is unknown. */
  lemma FullRouteArrives(s: Known, current: TapState, target: Known)
    requires current != Unknown ==> s == current
    ensures Walk(s, FullRoute(current, target)) == target
  {
    hide Walk, Route;
    if current == Unknown {
      OnesReset(s, 6);
      WalkAppend(s, Repeat(true, 6), Route(TestLogicReset, target));
      RouteArrives(TestLogicReset, target);
    } else {
      RouteArrives(current, target);
    }
  }

  lemma ApproachArrives(c: Chain, before: seq<Clock>, current: TapState, target: Known, pre: int)
    requires current != Unknown ==> before != [] && Run(c, before).tap == current
    requires pre > 0 ==> Next(target, false) == target
    ensures before + Approach(current, target, pre) != []
    ensures Run(c, before + Approach(current, target, pre)).tap == target
  {
    hide Run, Walk, Route;
    assert current == Unknown ==> FullRoute(current, target)[0];
    var m := Run(c, before);
    var n := if pre < 0 then 0 else pre;
    RunAppend(c, before, Approach(current, target, pre));
    TmsClocksWalk(m, FullRoute(current, target) + Repeat(false, n));
    WalkAppend(m.tap, FullRoute(current, target), Repeat(false, n));
    FullRouteArrives(m.tap, current, target);
    if pre > 0 {
      StaysLow(target, n);
    } else {
      assert Repeat(false, n) == [];
      assert FullRoute(current, target) + [] == FullRoute(current, target);
    }
  }

  lemma HopThenRoute(current: Known, target: Known)
    requires current != target
    ensures FullRoute(current, target) == [Hop(current, target).0] + FullRoute(Hop(current, target).1, target)
  {
    hide Hop;
  }

  lemma ResetThenRoute(target: Known)
    ensures FullRoute(Unknown, target) == Repeat(true, 5) + [true] + FullRoute(TestLogicReset, target)
  {
    hide Route;
    assert Repeat(true, 6) == Repeat(true, 5) + [true];
  }

  lemma ArrivedRoute(target: Known)
    ensures FullRoute(target, target) == []
  {
  }

  lemma NoTms(before: seq<Clock>)
    ensures before + TmsClocks([]) == before
  {
  }

  /** The bits sent, and those still to come from the state reached, are the whole route. */
  ghost predicate Navigating(w: BitString, current: TapState, from: TapState, target: Known) {
    w + FullRoute(current, target) == FullRoute(from, target)
  }

  lemma NavigationBegins(from: TapState, target: Known)
    ensures Navigating([], from, from, target)
  {
    hide FullRoute;
  }

  lemma NavigationHops(w: BitString, current: Known, from: TapState, target: Known)
    requires current != target && Navigating(w, current, from, target)
    ensures var (bit, next) := Hop(current, target);
      Navigating(w + [bit], next, from, target) && |FullRoute(next, target)| < |FullRoute(current, target)|
  {
    hide FullRoute, Hop;
    HopThenRoute(current, target);
    BitStringsJoin(w, [Hop(current, target).0], FullRoute(Hop(current, target).1, target));
  }

  lemma NavigationResets(w: BitString, from: TapState, target: Known)
    requires Navigating(w, Unknown, from, target)
    ensures Navigating(w + Repeat(true, 5) + [true], TestLogicReset, from, target)
  {
    hide FullRoute, Repeat;
    ResetThenRoute(target);
    BitStringsJoin(w + Repeat(true, 5), [true], FullRoute(TestLogicReset, target));
    BitStringsJoin(w, Repeat(true, 5), [true] + FullRoute(TestLogicReset, target));
    BitStringsJoin(Repeat(true, 5), [true], FullRoute(TestLogicReset, target));
  }

  lemma BitStringsJoin(a: BitString, b: BitString, c: BitString)
    ensures a + b + c == a + (b + c)
  {
  }

  lemma NavigationEnds(w: BitString, from: TapState, target: Known)
    requires Navigating(w, target, from, target)
    ensures w == FullRoute(from, target)
  {
    hide FullRoute;
    ArrivedRoute(target);
  }

  lemma MoreTms(before: seq<Clock>, w: BitString, v: BitString)
    ensures before + TmsClocks(w + v) == before + TmsClocks(w) + TmsClocks(v)
  {
    hide TmsClocks;
    TmsClocksAppend(w, v);
  }

  lemma FiveMoreTms(before: seq<Clock>, w: BitString)
    ensures before + TmsClocks(w + Repeat(true, 5)) == before + TmsClocks(w) + TmsClocks(Repeat(true, 5))
  {
    assert TmsClocks(w + Repeat(true, 5)) == TmsClocks(w) + TmsClocks(Repeat(true, 5));
  }

  lemma OneMoreTms(before: seq<Clock>, w: BitString, tms: bool)
    ensures before + TmsClocks(w + [tms]) == before + TmsClocks(w) + [Clock(tms, true)]
  {
    assert TmsClocks(w + [tms]) == TmsClocks(w) + [Clock(tms, true)];
  }

  class Jtag {
    const io: IOBase
    var currentState: TapState
    var postDrState: Known
    var postIrState: Known
    var deviceIndex: int
    var numDevices: int
    var devices: seq<ChainParam>
    var shiftDrIncomplete: bool

    /** Once known, the shadow state is where the clocks asked for take the hardware. */
    ghost predicate Synced()
      reads this, io, io.tmsBuf
      requires io.Valid()
    {
      currentState != Unknown ==>
        io.Stream() != [] && Run(io.origin, io.Stream()).tap == currentState
    }

    ghost predicate Valid()
      reads this, io, io.tmsBuf
    {
      && io.Valid()
      && Synced()
      && numDevices <= |devices|
    }

    constructor (iob: IOBase)
      requires iob.Valid()
      ensures Valid() && io == iob && currentState == Unknown
      ensures deviceIndex == numDevices == -1 && devices == [] && !shiftDrIncomplete
      ensures postDrState == postIrState == RunTestIdle
    {
      io := iob;
      currentState := Unknown;
      postDrState := RunTestIdle;
      postIrState := RunTestIdle;
      deviceIndex := -1;
      numDevices := -1;
      devices := [];
      shiftDrIncomplete := false;
    }

    method TapTestLogicReset()
      requires io.Valid()
      modifies this`currentState, io, io.tmsBuf
      ensures io.Valid() && Synced()
      ensures currentState == TestLogicReset
      ensures io.Stream() == old(io.Stream()) + TmsClocks(Repeat(true, 5))
    {
      hide Run, TmsClocks, IOBase.Valid, IOBase.Stream;
      ghost var before := io.Stream();
      assert before + TmsClocks([]) == before;
      ghost var w := [];
      for i := 0 to 5
        invariant io.Valid()
        invariant io.Stream() == before + TmsClocks(w) && w == Repeat(true, i)
      {
        io.SetTms(true);
        OneMoreTms(before, w, true);
        w := w + [true];
      }
      currentState := TestLogicReset;
      io.FlushTms(true);
      ResetArrives(io.origin, before);
    }

    /** Navigates to a known state and stays there for `pre` more clocks. */
    method SetTapState(state: Known, pre: int)
      requires Valid()
      requires pre > 0 ==> Next(state, false) == state
      modifies this`currentState, io, io.tmsBuf
      ensures Valid()
      ensures currentState == state
      ensures io.Stream() == old(io.Stream()) + Approach(old(currentState), state, pre)
    {
      hide Run, TmsClocks, FullRoute, Hop, Next, Repeat, Navigating, IOBase.Valid, IOBase.Stream;
      ghost var before, from, w: BitString := io.Stream(), currentState, [];
      NoTms(before);
      NavigationBegins(from, state);
      while currentState != state
        invariant io.Valid()
        invariant io.Stream() == before + TmsClocks(w)
        invariant Navigating(w, currentState, from, state)
        decreases currentState == Unknown, |FullRoute(currentState, state)|
      {
        var tms: bool;
        if currentState == Unknown {
          TapTestLogicReset();
          tms := true;
          NavigationResets(w, from, state);
          FiveMoreTms(before, w);
          w := w + Repeat(true, 5);
        } else {
          NavigationHops(w, currentState, from, state);
          var (bit, next) := Hop(currentState, state);
          tms, currentState := bit, next;
        }
        OneMoreTms(before, w, tms);
        w := w + [tms];
        io.SetTms(tms);
      }
      NavigationEnds(w, from, state);
      var extra := if pre < 0 then 0 else pre;
      SendLow(extra);
      MoreTms(before, w, Repeat(false, extra));
      ApproachArrives(io.origin, before, from, state, pre);
    }

    /** Some more clocks at TMS low. */
    method SendLow(n: nat)
      requires io.Valid()
      modifies io, io.tmsBuf
      ensures io.Valid() && io.Stream() == old(io.Stream()) + TmsClocks(Repeat(false, n))
    {
      hide Run, TmsClocks, IOBase.Valid, IOBase.Stream;
      ghost var before, w: BitString := io.Stream(), [];
      NoTms(before);
      for i := 0 to n
        invariant io.Valid()
        invariant io.Stream() == before + TmsClocks(w) && w == Repeat(false, i)
      {
        OneMoreTms(before, w, false);
        w := w + [false];
        io.SetTms(false);
      }
    }

    /** After the data of a scan: TMS moves the shadow on; any other state means trouble. */
    method NextTapState(tms: bool)
      requires io.Valid()
      modifies this`currentState, io, io.tmsBuf
      ensures io.Valid()
      ensures Shifting(old(currentState)) ==>
        currentState == (if tms then Next(old(currentState), true) else old(currentState))
        && io.Stream() == old(io.Stream()) && io.sent == old(io.sent)
      ensures !Shifting(old(currentState)) ==> Synced() && currentState == TestLogicReset
    {
      hide Run, TmsClocks, Repeat, IOBase.Valid, IOBase.Stream;
      if currentState.ShiftDr? {
        if tms {
          currentState := Exit1Dr;
        }
      } else if currentState.ShiftIr? {
        if tms {
          currentState := Exit1Ir;
        }
      } else {
        TapTestLogicReset();
      }
    }

    /** Idle clocks; they keep the state only where TMS low does. */
    method CycleTck(n: nat, tdi: bool)
      requires Valid()
      requires currentState.RunTestIdle? || Shifting(currentState) || currentState.PauseDr? || currentState.PauseIr?
      modifies io, io.tmsBuf
      ensures Valid()
      ensures io.Stream() == old(io.Stream()) + DataClocks(Repeat(tdi, n), false)
    {
      hide Run, Outs, IOBase.Valid, IOBase.Stream;
      TmsWasLow(io.origin, io.Stream());
      IdleArrives(io.origin, io.Stream(), Repeat(tdi, n));
      io.Shift(tdi, n, false);
    }

    method SelectDevice(dev: int) returns (r: int)
      requires Valid()
      modifies this`deviceIndex
      ensures Valid()
      ensures r == deviceIndex == if dev >= numDevices then -1 else dev
    {
      if dev >= numDevices {
        deviceIndex := -1;
      } else {
        deviceIndex := dev;
      }
      return deviceIndex;
    }

    method SetDeviceIrLength(dev: int, len: nat) returns (r: int)
      requires Valid()
      modifies this`devices
      ensures Valid()
      ensures if 0 <= dev < numDevices
              then r == dev && devices == old(devices)[dev := old(devices)[dev].(irlen := len)]
              else r == -1 && devices == old(devices)
    {
      if dev >= numDevices || dev < 0 {
        return -1;
      }
      devices := devices[dev := devices[dev].(irlen := len)];
      return dev;
    }

    /** The data of a scan, and the step out of the shift state with its last bit. */
    method ShiftData(tdi: Source, read: bool, length: nat, last: bool) returns (tdo: seq<byte>, ghost data: BitString)
      requires Valid() && length >= 1 && Provides(tdi, length) && Shifting(currentState)
      modifies this`currentState, io, io.tmsBuf
      ensures Valid()
      ensures Drives(data, tdi, length)
      ensures io.Stream() == old(io.Stream()) + DataClocks(data, last)
      ensures tdo == if read then Pack(Outs(Run(io.origin, old(io.Stream())), DataClocks(data, last))) else []
      ensures currentState == if last then Next(old(currentState), true) else old(currentState)
    {
      hide Run, Outs, Pack, TmsLow, Drives, DataClocks, BitAt, TmsClocks, IOBase.Valid, IOBase.Stream;
      ghost var ready := io.Stream();
      TmsWasLow(io.origin, ready);
      if tdi.Bytes? || read {
        tdo, data := io.ShiftTdiTdo(tdi, read, length, last);
      } else {
        io.Shift(false, length, last);
        data := Repeat(false, length);
        AnythingDrives(tdi, length);
        tdo := [];
      }
      DrivesLength(data, tdi, length);
      DataArrives(io.origin, ready, data, last);
      NextTapState(last);
    }

    /** Zeros for the devices behind the target, then the way home. */
    method LeaveDr(post: nat, moved: bool)
      requires Valid() && !currentState.Unknown?
      requires if moved then currentState.Exit1Dr? && post == 0 else currentState.ShiftDr? && post > 0
      modifies this`currentState, io, io.tmsBuf
      ensures Valid() && currentState == postDrState
      ensures io.Stream() == old(io.Stream())
              + (DataClocks(Repeat(false, post), true) + Approach(Exit1Dr, postDrState, 0))
    {
      hide Run, Outs, Pack, TmsLow, Approach, DataClocks, BitAt, TmsClocks, IOBase.Valid, IOBase.Stream;
      ghost var ready := io.Stream();
      if !moved {
        TmsWasLow(io.origin, ready);
      }
      io.Shift(false, post, true);
      DataArrives(io.origin, ready, Repeat(false, post), true);
      if !moved {
        NextTapState(true);
      }
      SetTapState(postDrState, 0);
    }

    /** Scans a data register of the selected device, the others being in bypass. */
    method ShiftDr(tdi: Source, read: bool, length: nat, align: nat, exit: bool)
        returns (tdo: seq<byte>, ghost data: BitString)
      requires Valid() && length >= 1 && Provides(tdi, length)
      requires shiftDrIncomplete ==> currentState.ShiftDr?
      modifies this`currentState, this`shiftDrIncomplete, io, io.tmsBuf
      ensures Valid()
      ensures deviceIndex < 0 ==>
        io.Stream() == old(io.Stream()) && currentState == old(currentState)
        && shiftDrIncomplete == old(shiftDrIncomplete)
      ensures deviceIndex >= 0 ==>
        var lead := Lead(numDevices, deviceIndex, align);
        var before := old(io.Stream()) + Entry(old(currentState), old(shiftDrIncomplete), lead);
        && Drives(data, tdi, length)
        && io.Stream() == before + DrData(data, deviceIndex, exit, postDrState)
        && tdo == (if read then Pack(Outs(Run(io.origin, before), DataClocks(data, deviceIndex == 0 && exit))) else [])
        && shiftDrIncomplete == !exit
        && currentState == if exit then postDrState else TapState.ShiftDr
    {
      hide Run, Outs, Pack, Approach, Drives, TmsLow, DataClocks, BitAt, TmsClocks, Entry, DrData, IOBase.Valid,
           IOBase.Stream;
      tdo, data := [], [];
      if deviceIndex < 0 {
        return;
      }
      var post := deviceIndex;
      ghost var lead, start := Lead(numDevices, post, align), io.Stream();
      if !shiftDrIncomplete {
        var pre := numDevices - deviceIndex - 1;
        if align != 0 {
          pre := AlignedLead(numDevices, post, align);
        }
        SetTapState(TapState.ShiftDr, pre);
      }
      EntryJoins(start, old(currentState), old(shiftDrIncomplete), lead);
      ghost var before := io.Stream();
      tdo, data := ShiftData(tdi, read, length, post == 0 && exit);
      DrDataJoins(before, data, post, exit, postDrState);
      if exit {
        LeaveDr(post, post == 0 && exit);
        shiftDrIncomplete := false;
      } else {
        shiftDrIncomplete := true;
      }
    }

    /** Instruction register bits of the devices before and behind the selected one. */
    method BypassBits() returns (pre: nat, post: nat)
      requires Valid() && 0 <= deviceIndex < numDevices
      ensures pre == IrBits(devices, deviceIndex + 1, numDevices)
      ensures post == IrBits(devices, 0, deviceIndex)
    {
      pre := 0;
      for dev := deviceIndex + 1 to numDevices
        invariant pre == IrBits(devices, deviceIndex + 1, dev)
      {
        pre := pre + devices[dev].irlen;
      }
      post := 0;
      for dev := 0 to deviceIndex
        invariant post == IrBits(devices, 0, dev)
      {
        post := post + devices[dev].irlen;
      }
    }

    /** Ones for the devices behind the target, then the way home. */
    method LeaveIr(post: nat)
      requires io.Valid() && currentState.ShiftIr? && numDevices <= |devices|
      requires io.Stream() != [] && (post > 0 ==> TmsLow(io.Stream()))
      requires Run(io.origin, io.Stream()).tap == if post == 0 then Exit1Ir else TapState.ShiftIr
      modifies this`currentState, io, io.tmsBuf
      ensures Valid() && currentState == postIrState
      ensures io.Stream()
              == old(io.Stream()) + DataClocks(Repeat(true, post), true) + Approach(Exit1Ir, postIrState, 0)
    {
      hide Run, Outs, Pack, Approach, TmsLow, DataClocks, BitAt, TmsClocks, IOBase.Valid, IOBase.Stream;
      ghost var s2 := io.Stream();
      io.Shift(true, post, true);
      DataArrives(io.origin, s2, Repeat(true, post), true);
      NextTapState(true);
      SetTapState(postIrState, 0);
    }

    /** Scans the instruction register of the selected device; the others get ones, which is BYPASS. */
    method ShiftIr(tdi: Source, read: bool) returns (tdo: seq<byte>, ghost data: BitString)
      requires Valid()
      requires deviceIndex >= 0 ==>
        deviceIndex < numDevices && devices[deviceIndex].irlen >= 1 && tdi.Bytes?
        && Provides(tdi, devices[deviceIndex].irlen)
      modifies this`currentState, io, io.tmsBuf
      ensures Valid()
      ensures deviceIndex < 0 ==> io.Stream() == old(io.Stream()) && currentState == old(currentState)
      ensures deviceIndex >= 0 ==>
        var pre, post := IrBits(devices, deviceIndex + 1, numDevices), IrBits(devices, 0, deviceIndex);
        var before := old(io.Stream()) + Approach(old(currentState), TapState.ShiftIr, 0)
                      + DataClocks(Repeat(true, pre), false);
        && data == BitsOf(tdi.bytes, devices[deviceIndex].irlen)
        && io.Stream() == before + IrData(data, post, postIrState)
        && tdo == (if read then Pack(Outs(Run(io.origin, before), DataClocks(data, post == 0))) else [])
        && currentState == postIrState
    {
      hide Run, Outs, Pack, Approach, TmsLow, DataClocks, BitsOf, TmsClocks, IrData, IrBits,
           IOBase.Valid, IOBase.Stream;
      tdo, data := [], [];
      if deviceIndex < 0 {
        return;
      }
      SetTapState(TapState.ShiftIr, 0);
      var pre, post := BypassBits();
      ghost var s0 := io.Stream();
      TmsWasLow(io.origin, s0);
      io.Shift(true, pre, false);
      DataArrives(io.origin, s0, Repeat(true, pre), false);
      DataKeepsLow(s0, Repeat(true, pre));
      ghost var s1 := io.Stream();
      tdo, data := io.ShiftTdiTdo(tdi, read, devices[deviceIndex].irlen, post == 0);
      DataArrives(io.origin, s1, data, post == 0);
      if post > 0 {
        DataKeepsLow(s1, data);
      }
      LeaveIr(post);
      IrDataJoins(s1, data, post, postIrState);
    }

    /** Shifts in 32 zeros and returns what came out as a number. */
    method ReadIdcode() returns (id: nat)
      requires Valid() && currentState.ShiftDr?
      modifies io, io.tmsBuf
      ensures Valid()
      ensures io.Stream() == old(io.Stream()) + ZeroWord()
      ensures id == NumberOf(Outs(Run(io.origin, old(io.Stream())), ZeroWord()))
    {
      hide Run, Outs, Pack, TmsLow, DataClocks, BitsOf, TmsClocks, WordOf, NumberOf, IOBase.Valid, IOBase.Stream;
      ghost var s := io.Stream();
      TmsWasLow(io.origin, s);
      var idx, data := io.ShiftTdiTdo(Bytes([0, 0, 0, 0]), true, 32, false);
      ZeroScan(Run(io.origin, s), data);
      DataArrives(io.origin, s, data, false);
      id := WordOf(idx);
    }

    /**
     * The detection loop: a code that is neither zero nor all ones is a device nearer to TDI than those
     * found before.
     */
    method ListDevices(ghost before: seq<Clock>)
      requires Valid() && currentState.ShiftDr? && io.Stream() == before
      modifies this`numDevices, this`devices, io, io.tmsBuf
      ensures Valid()
      ensures var ids := Detect(Run(io.origin, before), 1000);
        && numDevices == |ids| && Listed(devices, ids, old(devices))
        && io.Stream() == before + DetectWords(Reads(|ids|))
    {
      hide Run, Outs, Pack, TmsLow, DataClocks, BitsOf, TmsClocks, Detect, ZeroWord, NumberOf, Listed, DetectWords,
           IOBase.Valid, IOBase.Stream;
      ghost var known, ids, words := devices, [], 0;
      ghost var all := Detect(Run(io.origin, before), 1000);
      numDevices := 0;
      MoreZeros(io.origin, before, 0);
      ListNone(known);
      while true
        invariant Valid() && numDevices == |ids| == words < 1000
        invariant io.Stream() == before + DetectWords(words)
        invariant all == ids + Detect(Run(io.origin, io.Stream()), 1000 - words)
        invariant Listed(devices, ids, known)
        decreases 1000 - words
      {
        ghost var s := io.Stream();
        var id := ReadIdcode();
        MoreZeros(io.origin, before, words);
        DetectStep(Run(io.origin, s), ids, 1000 - words);
        words := words + 1;
        if id != 0 && id != 0xffffffff {
          numDevices := numDevices + 1;
          var irlen: nat :| irlen >= 0;  // uninitialised in the source
          ListOne(devices, ids, known, ChainParam(id, irlen));
          devices := [ChainParam(id, irlen)] + devices;
          ids := ids + [id];
          if numDevices >= MAXNUMDEVICES {
            DetectStep(Run(io.origin, io.Stream()), ids, 1);
            break;
          }
        } else {
          break;
        }
      }
      ListLength(devices, ids, known);
      assert ids == all && words == Reads(|ids|);
    }

    /** Reads identification codes until the zeros it shifts in come back. */
    method DetectDevices()
      requires Valid()
      modifies this`currentState, this`numDevices, this`devices, io, io.tmsBuf
      ensures Valid() && currentState == TestLogicReset
      ensures var before := old(io.Stream()) + DetectEntry();
        var ids := Detect(Run(io.origin, before), 1000);
        && numDevices == |ids| && Listed(devices, ids, old(devices))
        && io.Stream() == before + DetectWords(Reads(|ids|)) + Approach(TapState.ShiftDr, TestLogicReset, 0)
    {
      hide Run, Approach, TmsClocks, Detect, DetectEntry, Listed, DetectWords, IOBase.Valid, IOBase.Stream;
      ghost var start := io.Stream();
      TapTestLogicReset();
      SetTapState(TapState.ShiftDr, 0);
      DetectEntryJoins(start);
      ListDevices(io.Stream());
      SetTapState(TestLogicReset, 0);
    }

    /** The number of devices; detection runs on the first call and whenever it is asked for. */
    method GetChain(detect: bool) returns (r: int)
      requires Valid()
      modifies this`currentState, this`numDevices, this`devices, io, io.tmsBuf
      ensures Valid() && r == numDevices
      ensures old(numDevices) != -1 && !detect ==>
        io.Stream() == old(io.Stream()) && currentState == old(currentState)
        && numDevices == old(numDevices) && devices == old(devices)
      ensures old(numDevices) == -1 || detect ==>
        var before := old(io.Stream()) + DetectEntry();
        var ids := Detect(Run(io.origin, before), 1000);
        && numDevices == |ids| && Listed(devices, ids, old(devices))
        && io.Stream() == before + DetectWords(Reads(|ids|)) + Approach(TapState.ShiftDr, TestLogicReset, 0)
        && currentState == TestLogicReset
    {
      hide Run, Approach, Detect, DetectEntry, Listed, DetectWords, IOBase.Valid, IOBase.Stream;
      if numDevices == -1 || detect {
        DetectDevices();
      }
      r := numDevices;
    }
  }

  lemma IdleArrives(c: Chain, before: seq<Clock>, data: BitString)
    requires before != []
    requires var s := Run(c, before).tap; Shifting(s) || s.RunTestIdle? || s.PauseDr? || s.PauseIr?
    ensures before + DataClocks(data, false) != []
    ensures Run(c, before + DataClocks(data, false)).tap == Run(c, before).tap
  {
    hide Run, Walk, Outs;
    var ks := DataClocks(data, false);
    RunAppend(c, before, ks);
    RunWalks(Run(c, before), ks);
    assert TmsOf(ks) == Repeat(false, |data|);
    StaysLow(Run(c, before).tap, |data|);
  }
}
