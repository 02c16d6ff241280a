/** progalgspiflash.cpp, xc_user: one exchange with the user register of the selected device, end to end. */
module UserRegister {
  import opened Bits
  import opened Tap
  import opened ScanChain
  import opened IoBase
  import opened Jtag
  import opened ChainTheorems

  const USER1: byte := 0x02

  /** The instruction as the selected device receives it. */
  function UserCode(irlen: nat): BitString
    requires irlen <= 8
  {
    BitsOf([0x02], irlen)
  }

  /** The selected device has a user register of the given length. */
  predicate HasUserRegister(d: Device, len: nat) {
    && d.irLength <= 8
    && UserCode(d.irLength) in d.sense
    && |d.sense[UserCode(d.irLength)]| == len
  }

  /** The hardware as the software sees it from Run-Test/Idle. */
  ghost predicate Ready(j: Jtag)
    reads j, j.io, j.io.tmsBuf
  {
    && j.Valid()
    && j.currentState == j.postIrState == j.postDrState == RunTestIdle
    && !j.shiftDrIncomplete
    && var c := Run(j.io.origin, j.io.Stream());
      && ValidChain(c)
      && LengthsKnown(j.devices, c.devices)
      && 0 <= j.deviceIndex < j.numDevices == |c.devices|
  }

  /**
   * What an exchange does to the devices of a chain: the register that the instruction selects takes
   * the data, nothing else is written.
   */
  predicate Exchanged(before: Chain, after: Chain, k: nat, code: BitString, data: BitString)
    requires k < |before.devices|
  {
    && |after.devices| == |before.devices|
    && forall i :: 0 <= i < |before.devices| ==>
         var (d, d') := (before.devices[i], after.devices[i]);
         && SameParts(d, d')
         && d'.ir == (if i == k then code else Ones(d.irLength))
         && d'.held == if i == k then d.held[code := data] else d.held
  }

  /** An instruction scan and a data scan of the register it selects, for any instruction with a register. */
  lemma ExchangeOnChain(c: Chain, params: seq<ChainParam>, k: nat, code: BitString, data: BitString)
    requires ValidChain(c) && c.tap == RunTestIdle && LengthsKnown(params, c.devices)
    requires k < |c.devices| && |code| == c.devices[k].irLength
    requires code in c.devices[k].sense && |data| == |c.devices[k].sense[code]|
    ensures var (d, n) := (c.devices[k], |c.devices|);
      var (pre, post) := (IrBits(params, k + 1, n), IrBits(params, 0, k));
      var i := Run(c, Approach(RunTestIdle, ShiftIr, 0) + DataClocks(Repeat(true, pre), false));
      var m := Run(i, IrData(code, post, RunTestIdle));
      var s := Run(m, Approach(RunTestIdle, ShiftDr, n - 1 - k));
      var e := Run(s, DrData(data, k, true, RunTestIdle));
      && Outs(i, DataClocks(code, post == 0)) == d.status
      && Outs(s, DataClocks(data, k == 0)) == d.sense[code]
      && ValidChain(e) && e.tap == RunTestIdle
      && Exchanged(c, e, k, code, data)
  {
    hide Run, Outs, Approach, DataClocks, IrData, DrData, Repeat, IrBits, ValidChain, Ones;
    var (d, n) := (c.devices[k], |c.devices|);
    var len := |data|;
    var (pre, post) := (IrBits(params, k + 1, n), IrBits(params, 0, k));
    var entry := Approach(RunTestIdle, ShiftIr, 0) + DataClocks(Repeat(true, pre), false);
    IdleIsOutside();
    ShiftIrAddressesOne(c, RunTestIdle, params, k, code);
    var m0 := Run(c, entry);
    var m := Run(m0, IrData(code, post, RunTestIdle));
    RunValid(c, entry);
    RunValid(m0, IrData(code, post, RunTestIdle));
    ShiftDrAddressesOne(m, k, n - 1 - k, data);
    var s := Run(m, Approach(RunTestIdle, ShiftDr, n - 1 - k));
    RunValid(m, Approach(RunTestIdle, ShiftDr, n - 1 - k));
    RunValid(s, DrData(data, k, true, RunTestIdle));
    var out := Outs(s, DataClocks(data, k == 0));
    DataClocksLength(data, k == 0);
    assert out[..len] == out;
    assert data[|data| - len..] == data;
  }

  lemma IdleIsOutside()
    ensures !InIrColumn(RunTestIdle)
  {
  }

  lemma CodeLength(irlen: nat)
    requires irlen <= 8
    ensures |UserCode(irlen)| == irlen
  {
  }

  lemma DataClocksLength(data: BitString, last: bool)
    ensures |DataClocks(data, last)| == |data|
  {
  }

  /** The parts of a stream, run one after the other. */
  lemma StreamParts(o: Chain, s: seq<Clock>, a: seq<Clock>, b: seq<Clock>, d: seq<Clock>)
    ensures Run(o, s + a + b) == Run(Run(o, s), a + b)
    ensures Run(o, s + a + b + d) == Run(Run(Run(o, s), a + b), d)
  {
    hide Run, Outs;
    assert s + a + b == s + (a + b);
    RunAppend(o, s, a + b);
    RunAppend(o, s + a + b, d);
  }

  lemma FirstEntry(s: seq<Clock>, lead: int)
    ensures s + Entry(RunTestIdle, false, lead) == s + Approach(RunTestIdle, ShiftDr, lead) + []
  {
  }

  lemma CodeFits(d: Device, params: seq<ChainParam>, ds: seq<Device>, k: nat)
    requires LengthsKnown(params, ds) && k < |ds| && d == ds[k] && ValidDevice(d) && d.irLength <= 8
    ensures 1 <= params[k].irlen <= 8 && params[k].irlen == d.irLength
    ensures BitsOf([USER1], params[k].irlen) == UserCode(d.irLength)
  {
  }

  lemma DeviceValid(c: Chain, k: nat)
    requires ValidChain(c) && k < |c.devices|
    ensures ValidDevice(c.devices[k])
  {
  }

  /** Selects the user register of the selected device and exchanges its contents with the buffer. */
  method XcUser(j: Jtag, tdi: Source, read: bool, len: nat) returns (tdo: seq<byte>, ghost data: BitString)
    requires Ready(j) && Provides(tdi, len)
    requires len >= 1 && HasUserRegister(Run(j.io.origin, j.io.Stream()).devices[j.deviceIndex], len)
    modifies j`currentState, j`shiftDrIncomplete, j.io, j.io.tmsBuf
    ensures Ready(j)
    ensures Drives(data, tdi, len)
    ensures var before := old(Run(j.io.origin, j.io.Stream()));
      var d := before.devices[j.deviceIndex];
      && Exchanged(before, Run(j.io.origin, j.io.Stream()), j.deviceIndex, UserCode(d.irLength), data)
      && tdo == if read then Pack(d.sense[UserCode(d.irLength)]) else []
  {
    hide Run, Outs, Approach, DataClocks, IrData, DrData, Repeat, IrBits, UserCode, ValidChain, ValidDevice, Ones,
         Drives, Pack, BitsOf, Entry, IOBase.Valid, IOBase.Stream, Exchanged, LengthsKnown;
    ghost var (o, k, s0) := (j.io.origin, j.deviceIndex, j.io.Stream());
    ghost var c := Run(o, s0);
    DeviceValid(c, k);
    CodeFits(c.devices[k], j.devices, c.devices, k);
    var none, code := j.ShiftIr(Bytes([USER1]), false);
    ghost var (pre, post) := (IrBits(j.devices, k + 1, j.numDevices), IrBits(j.devices, 0, k));
    StreamParts(o, s0, Approach(RunTestIdle, ShiftIr, 0), DataClocks(Repeat(true, pre), false),
                IrData(code, post, RunTestIdle));
    ghost var s1 := j.io.Stream();
    tdo, data := j.ShiftDr(tdi, read, len, 0, true);
    DrivesLength(data, tdi, len);
    ghost var lead := j.numDevices - 1 - k;
    FirstEntry(s1, lead);
    StreamParts(o, s1, Approach(RunTestIdle, ShiftDr, lead), [], DrData(data, k, true, RunTestIdle));
    assert Approach(RunTestIdle, ShiftDr, lead) + [] == Approach(RunTestIdle, ShiftDr, lead);
    CodeLength(c.devices[k].irLength);
    ExchangeOnChain(c, j.devices, k, code, data);
    ExchangeKeepsCount(c, Run(o, j.io.Stream()), j.devices, k, code, data);
  }

  lemma ExchangeKeepsCount(c: Chain, e: Chain, params: seq<ChainParam>, k: nat, code: BitString, data: BitString)
    requires k < |c.devices| && Exchanged(c, e, k, code, data) && LengthsKnown(params, c.devices)
    ensures |e.devices| == |c.devices| && LengthsKnown(params, e.devices)
  {
    forall i | 0 <= i < |c.devices|
      ensures params[i].irlen == e.devices[i].irLength
    {
      assert SameParts(c.devices[i], e.devices[i]);
    }
  }
}
