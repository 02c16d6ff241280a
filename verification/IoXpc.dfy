/** ioxpc.cpp, external mode: scans as state changes for the cable's CPLD, and the returned words realigned. */
module IoXpc {
  import opened Bits
  import opened ScanChain
  import opened IoBase

  const CPLD_MAX_BYTES: nat := 4096

  /** State changes sent at most in one request. */
  const MAX_CHANGES: nat := 2 * CPLD_MAX_BYTES - 1

  // ---- The CPLD ----

  /** One state change of a request: levels, whether TCK moves and whether TDO is sampled. */
  datatype Change = Change(tdi: bool, tms: bool, tck: bool, read: bool)

  /** The j-th change of a request: every two bytes describe four. */
  function ChangeAt(buf: seq<byte>, j: nat): Change
    requires 2 * (j / 4) + 1 < |buf|
  {
    var lo, hi, b := buf[2 * (j / 4)], buf[2 * (j / 4) + 1], j % 4;
    Change(Bit(lo, b), Bit(lo, 4 + b), Bit(hi, b), Bit(hi, 4 + b))
  }

  function Changes(buf: seq<byte>, n: nat): (r: seq<Change>)
    requires n <= 2 * |buf| && |buf| % 2 == 0
    ensures |r| == n
  {
    seq(n, j requires 0 <= j < n => ChangeAt(buf, j))
  }

  function Replayed(c: Chain, xs: seq<Change>): Chain {
    if xs == [] then c
    else
      var p, x := Replayed(c, xs[..|xs| - 1]), xs[|xs| - 1];
      if x.tck then Tick(p, Clock(x.tms, x.tdi)) else p
  }

  function Sampled(c: Chain, xs: seq<Change>): BitString {
    if xs == [] then []
    else
      var p, x := Replayed(c, xs[..|xs| - 1]), xs[|xs| - 1];
      Sampled(c, xs[..|xs| - 1]) + if x.tck && x.read then [Tdo(p, Clock(x.tms, x.tdi))] else []
  }

  /** How far the bits of an incomplete word are from its low end. */
  function Gap(n: nat): nat {
    if n % 16 == 0 then 0 else 16 - n % 16
  }

  /**
   * The words that come back: full 32-bit words as they are; the bits of the last, incomplete
   * one (16 bits wide if that is enough) at its top, with something unspecified below them.
   */
  function Answer(bits: BitString, junk: BitString): seq<byte>
    requires |junk| == 16
  {
    var q := 32 * (|bits| / 32);
    if q == |bits| then Pack(bits)
    else Pack(bits[..q] + junk[..Gap(|bits|)] + bits[q..])
  }

  /** The clocks of a scan as state changes. */
  function Requested(ks: seq<Clock>, read: bool): (r: seq<Change>)
    ensures |r| == |ks|
  {
    seq(|ks|, i requires 0 <= i < |ks| => Change(ks[i].tdi, ks[i].tms, true, read))
  }

  const DUMMY := Change(false, false, false, false)

  lemma {:induction false} RequestedRuns(c: Chain, ks: seq<Clock>, read: bool)
    ensures Replayed(c, Requested(ks, read)) == Run(c, ks)
    ensures Sampled(c, Requested(ks, read)) == if read then Outs(c, ks) else []
  {
    hide Tick, Tdo;
    if ks != [] {
      var n := |ks| - 1;
      assert Requested(ks, read)[..n] == Requested(ks[..n], read);
      RequestedRuns(c, ks[..n], read);
    }
  }

  /** A change that moves nothing, added to keep the count off the multiples of four, has no effect. */
  lemma DummyIsSilent(c: Chain, xs: seq<Change>)
    ensures Replayed(c, xs + [DUMMY]) == Replayed(c, xs)
    ensures Sampled(c, xs + [DUMMY]) == Sampled(c, xs)
  {
    hide Tick, Tdo;
    assert (xs + [DUMMY])[..|xs|] == xs;
  }

  // ---- The transfer under way ----

  /** Bits from place n on within the word of change n are clear. */
  predicate Clear(buf: seq<byte>, n: nat)
    requires 2 * (n / 4) + 1 < |buf|
  {
    forall j :: n <= j < 4 * (n / 4) + 4 ==> ChangeAt(buf, j) == DUMMY
  }

  lemma WithBitsBits(b: byte, i: nat, lo: bool, hi: bool)
    requires i < 4
    ensures forall m: nat :: Bit(WithBits(b, i, lo, hi), m) == ((m == i && lo) || (m == 4 + i && hi) || Bit(b, m))
  {
    hide Bit, SetBit;
    var b' := if lo then SetByteBit(b, i, true) else b;
    forall m: nat
      ensures Bit(WithBits(b, i, lo, hi), m) == ((m == i && lo) || (m == 4 + i && hi) || Bit(b, m))
    {
      SetBitBits(b, i, true, m);
      SetBitBits(b', 4 + i, true, m);
    }
  }

  /** A new word starts cleared. */
  function Opened(buf: seq<byte>, n: nat): (r: seq<byte>)
    requires n < 2 * |buf| && |buf| % 2 == 0
    ensures |r| == |buf|
  {
    if n % 4 == 0 then buf[2 * (n / 4) := 0][2 * (n / 4) + 1 := 0] else buf
  }

  /** The buffer after one more change was written into its word. */
  function Extended(buf: seq<byte>, n: nat, x: Change): seq<byte>
    requires n < 2 * |buf| && |buf| % 2 == 0
  {
    var k, i, b := 2 * (n / 4), n % 4, Opened(buf, n);
    if x.tck then b[k := WithBits(b[k], i, x.tdi, x.tms)][k + 1 := WithBits(b[k + 1], i, true, x.read)] else b
  }

  lemma ExtendedChange(buf: seq<byte>, n: nat, x: Change, j: nat)
    requires n < 2 * |buf| && |buf| % 2 == 0 && (x.tck || x == DUMMY)
    requires n % 4 != 0 ==> Clear(buf, n)
    requires j < 4 * (n / 4) + 4
    ensures ChangeAt(Extended(buf, n, x), j) == if j < n then ChangeAt(buf, j) else if j == n then x else DUMMY
  {
    hide Bit, WithBits;
    if j / 4 == n / 4 {
      var k, i := 2 * (n / 4), n % 4;
      WithBitsBits(Opened(buf, n)[k], i, x.tdi, x.tms);
      WithBitsBits(Opened(buf, n)[k + 1], i, true, x.read);
      ZeroHasNoBit(j % 4);
      ZeroHasNoBit(4 + j % 4);
      if i != 0 && j >= n {
        assert ChangeAt(buf, j) == DUMMY;
      }
    }
  }

  lemma Extends(buf: seq<byte>, n: nat, x: Change)
    requires n < 2 * |buf| && |buf| % 2 == 0 && (x.tck || x == DUMMY)
    requires n % 4 != 0 ==> Clear(buf, n)
    ensures |Extended(buf, n, x)| == |buf|
    ensures Changes(Extended(buf, n, x), n + 1) == Changes(buf, n) + [x]
    ensures (n + 1) % 4 != 0 ==> Clear(Extended(buf, n, x), n + 1)
  {
    hide ChangeAt;
    forall j | 0 <= j < 4 * (n / 4) + 4
      ensures ChangeAt(Extended(buf, n, x), j) == if j < n then ChangeAt(buf, j) else if j == n then x else DUMMY
    {
      ExtendedChange(buf, n, x, j);
    }
  }

  class ExtTransfer {
    const buf: array<byte>
    var inBits: nat
    var outBits: nat
    var outDone: nat
    /** Whether a buffer for TDO was given, and its contents. */
    const wanted: bool
    var out: seq<byte>

    ghost predicate Valid()
      reads this, buf
    {
      && buf.Length == CPLD_MAX_BYTES
      && inBits <= 2 * CPLD_MAX_BYTES
      && (inBits % 4 != 0 ==> Clear(buf[..], inBits))
    }

    /** The state changes collected so far. */
    ghost function Collected(): seq<Change>
      reads this, buf
      requires Valid()
    {
      Changes(buf[..], inBits)
    }

    constructor (wanted: bool, out: seq<byte>)
      ensures Valid() && fresh(buf)
      ensures Collected() == [] && inBits == outBits == outDone == 0 && this.wanted == wanted && this.out == out
    {
      buf := new byte[CPLD_MAX_BYTES](_ => 0);
      inBits, outBits, outDone := 0, 0, 0;
      this.wanted, this.out := wanted, out;
    }

    /** Adds one state change, a real one or a filler. */
    method AddBit(tdi: bool, tms: bool, isReal: bool)
      requires Valid() && inBits <= MAX_CHANGES
      modifies this`inBits, this`outBits, buf
      ensures Valid() && inBits == old(inBits) + 1
      ensures Collected() == old(Collected()) + [if isReal then Change(tdi, tms, true, wanted) else DUMMY]
      ensures outBits == if isReal && wanted then old(outBits) + 1 else old(outBits)
    {
      hide Bit, SetBit, WithBits, ChangeAt, Changes, Clear, SetByteBit;
      var bitIdx := inBits % 4;
      var bufIdx := (inBits - bitIdx) / 2;
      ghost var was, n := buf[..], inBits;
      ghost var x := if isReal then Change(tdi, tms, true, wanted) else DUMMY;
      if bitIdx == 0 {
        buf[bufIdx] := 0;
        buf[bufIdx + 1] := 0;
      }
      assert buf[..] == Opened(was, n);
      inBits := inBits + 1;
      if isReal {
        buf[bufIdx] := WithBits(buf[bufIdx], bitIdx, tdi, tms);
        buf[bufIdx + 1] := WithBits(buf[bufIdx + 1], bitIdx, true, wanted);
        if wanted {
          outBits := outBits + 1;
        }
      }
      assert buf[..] == Extended(was, n, x);
      Extends(was, n, x);
    }
  }

  /** The value of `b | (lo << i) | (hi << (4 + i))`. */
  function WithBits(b: byte, i: nat, lo: bool, hi: bool): byte
    requires i < 4
  {
    var b' := if lo then SetByteBit(b, i, true) else b;
    if hi then SetByteBit(b', 4 + i, true) else b'
  }

  // ---- Storing what was read ----

  /** A buffer after the given bits were stored at its start. */
  function Stored(was: seq<byte>, bits: BitString): (r: seq<byte>)
    requires BytesFor(|bits|) <= |was|
    ensures |r| == |was|
  {
    Pack(bits) + was[BytesFor(|bits|)..]
  }

  /** Storing one more bit: a fresh byte is cleared first. */
  function PutBit(out: seq<byte>, i: nat, v: bool): (r: seq<byte>)
    requires i / 8 < |out|
    ensures |r| == |out|
  {
    var b := if i % 8 == 0 then 0 else out[i / 8];
    out[i / 8 := if v then SetByteBit(b, i % 8, true) else b]
  }

  lemma StoreOne(was: seq<byte>, bits: BitString, v: bool)
    requires BytesFor(|bits| + 1) <= |was|
    ensures PutBit(Stored(was, bits), |bits|, v) == Stored(was, bits + [v])
  {
    hide NumberOf, Bit, SetBit, Pack;
    var (j, r) := (|bits| / 8, |bits| % 8);
    PackSplit(bits + [v], j);
    assert (bits + [v])[..8 * j] == bits[..8 * j];
    assert (bits + [v])[8 * j..] == bits[8 * j..] + [v];
    var part := bits[8 * j..];
    SmallNumber(part);
    NumberAppend(part, v);
    NoBit(NumberOf(part), r, r);
    if v {
      AddBit(NumberOf(part), r, v);
    }
    if r == 0 {
      NumberOfNothing();
      assert part == [];
      assert bits[..8 * j] == bits;
    } else {
      PackSplit(bits, j);
    }
  }

  /** The bits of an incomplete word are found above its gap. */
  lemma AnswerBit(bits: BitString, junk: BitString, i: nat)
    requires |junk| == 16 && 32 * (|bits| / 32) <= i < |bits|
    ensures (i + Gap(|bits|)) / 8 < |Answer(bits, junk)|
    ensures BitAt(Answer(bits, junk), i + Gap(|bits|)) == bits[i]
  {
    hide Bit, Pack, Gap;
    var q, g := 32 * (|bits| / 32), Gap(|bits|);
    GapSmall(|bits|);
    var all := bits[..q] + junk[..g] + bits[q..];
    assert |all| == |bits| + g && all[i + g] == bits[i];
    PackBit(all, i + g);
  }

  lemma GapSmall(n: nat)
    ensures Gap(n) < 16
  {
  }

  /** Full words need no realignment. */
  lemma AnswerWords(bits: BitString, junk: BitString)
    requires |junk| == 16
    ensures var q := 32 * (|bits| / 32);
      4 * (|bits| / 32) <= |Answer(bits, junk)| && Answer(bits, junk)[..4 * (|bits| / 32)] == Pack(bits[..q])
  {
    hide NumberOf;
    var n := |bits| / 32;
    var q := 32 * n;
    var all := if q == |bits| then bits else bits[..q] + junk[..Gap(|bits|)] + bits[q..];
    assert all[..q] == bits[..q];
    forall m | 0 <= m < 4 * n
      ensures Pack(all)[m] == Pack(bits[..q])[m]
    {
      ByteOfPrefix(all, q, m);
    }
  }

  /** The answer is as long as the host expects: 16-bit words for every 16 bits or part of them. */
  lemma AnswerLength(bits: BitString, junk: BitString)
    requires |junk| == 16
    ensures |Answer(bits, junk)| == 2 * (|bits| / 16) + if |bits| % 16 != 0 then 2 else 0
  {
    hide ByteOf;
    var (n, w, r) := (|bits|, |bits| / 32, |bits| % 32);
    assert n == 32 * w + r;
    if r == 0 {
      assert n / 16 == 2 * w;
    } else {
      var q := 32 * w;
      assert |bits[..q] + junk[..Gap(n)] + bits[q..]| == n + Gap(n);
      if r < 16 {
        assert n / 16 == 2 * w && n % 16 == r && n + Gap(n) == 8 * (4 * w + 2);
      } else if r == 16 {
        assert n / 16 == 2 * w + 1 && n % 16 == 0 && n == 8 * (4 * w + 2);
      } else {
        assert n / 16 == 2 * w + 1 && n % 16 == r - 16 && n + Gap(n) == 8 * (4 * w + 4);
      }
    }
  }

  lemma RequestRuns(c: Chain, ks: seq<Clock>, wanted: bool, filled: bool)
    ensures var xs := Requested(ks, wanted) + if filled then [DUMMY] else [];
      Replayed(c, xs) == Run(c, ks) && Sampled(c, xs) == if wanted then Outs(c, ks) else []
  {
    hide Replayed, Sampled, Run, Outs, Requested;
    RequestedRuns(c, ks, wanted);
    var xs := Requested(ks, wanted);
    if filled {
      DummyIsSilent(c, xs);
    } else {
      assert xs + [] == xs;
    }
  }

  /** The bytes that are sent hold all the changes. */
  lemma RequestFits(buf: seq<byte>, n: nat, len: nat)
    requires |buf| == CPLD_MAX_BYTES && n <= 2 * CPLD_MAX_BYTES
    requires len == 2 * (n / 4) + if n % 4 != 0 then 2 else 0
    ensures len <= |buf| && len % 2 == 0 && n <= 2 * len
    ensures Changes(buf[..len], n) == Changes(buf, n)
  {
    hide Bit;
  }

  lemma StoredNothing(was: seq<byte>)
    ensures Stored(was, []) == was
  {
  }

  lemma StoredWords(was: seq<byte>, bits: BitString, answer: seq<byte>)
    requires BytesFor(|bits|) <= |was|
    requires var n := |bits| / 32; 4 * n <= |answer| && answer[..4 * n] == Pack(bits[..32 * n])
    ensures var n := |bits| / 32; 4 * n <= |was| && answer[..4 * n] + was[4 * n..] == Stored(was, bits[..32 * n])
  {
    hide Pack;
  }

  // ---- Whole scans ----

  /** What the caller's buffer holds after a scan: every transfer starts at its beginning. */
  function Overlaid(was: seq<byte>, bits: BitString): (r: seq<byte>)
    requires BytesFor(|bits|) <= |was|
    ensures |r| == |was|
    decreases |bits|
  {
    if |bits| < MAX_CHANGES then Stored(was, bits)
    else Overlaid(Stored(was, bits[..MAX_CHANGES]), bits[MAX_CHANGES..])
  }

  /** A read that fits one request arrives whole. */
  lemma ShortReadArrives(was: seq<byte>, bits: BitString)
    requires |bits| <= 8191 && BytesFor(|bits|) <= |was|
    ensures Overlaid(was, bits) == Pack(bits) + was[BytesFor(|bits|)..]
  {
    hide Pack;
    if |bits| == MAX_CHANGES {
      assert bits[..MAX_CHANGES] == bits && bits[MAX_CHANGES..] == [];
      StoredNothing(Stored(was, bits));
    }
  }

  lemma StoredBit(was: seq<byte>, bits: BitString, i: nat)
    requires BytesFor(|bits|) <= |was| && |bits| <= i < 8 * |was|
    ensures !BitAt(Stored(was, bits), i) || (i / 8 >= BytesFor(|bits|) && BitAt(was, i))
  {
    hide Bit;
    if i / 8 < BytesFor(|bits|) {
      PackBit(bits, i);
    }
  }

  /** A longer one never delivers the bit that follows the first request. */
  lemma {:induction false} LongReadDropsBit(was: seq<byte>, bits: BitString)
    requires BytesFor(|bits|) <= |was| && 8191 < 8 * |was|
    requires |bits| > 8191 || !BitAt(was, 8191)
    ensures !BitAt(Overlaid(was, bits), 8191)
    decreases |bits|
  {
    hide Bit, Stored;
    if |bits| < MAX_CHANGES {
      StoredBit(was, bits, 8191);
    } else {
      StoredBit(was, bits[..MAX_CHANGES], 8191);
      LongReadDropsBit(Stored(was, bits[..MAX_CHANGES]), bits[MAX_CHANGES..]);
    }
  }

  /** The buffer holds what was read, whatever that was, exactly when the scan fits one request. */
  lemma ReadArrivesExactlyWhen(was: seq<byte>, n: nat)
    requires BytesFor(n) <= |was|
    ensures (forall bits: BitString :: |bits| == n ==> Overlaid(was, bits)[..BytesFor(n)] == Pack(bits))
            <==> n <= 8191
  {
    hide Overlaid, Pack, Bit;
    if n <= 8191 {
      forall bits: BitString | |bits| == n
        ensures Overlaid(was, bits)[..BytesFor(n)] == Pack(bits)
      {
        ShortReadArrives(was, bits);
      }
    } else {
      var bits := Repeat(true, n);
      LongReadDropsBit(was, bits);
      PackBit(bits, 8191);
      assert Overlaid(was, bits)[..BytesFor(n)][8191 / 8] == Overlaid(was, bits)[8191 / 8];
    }
  }

  /** A scan in progress: the clocks sent, the changes collected for those up to the i-th, the buffer so far. */
  predicate Underway(start: Chain, ks: seq<Clock>, done: nat, i: nat, wanted: bool, was: seq<byte>, chain: Chain,
                     collected: seq<Change>, outBits: nat, out: seq<byte>) {
    && done <= i <= |ks|
    && (wanted ==> BytesFor(|ks|) <= |was|)
    && |out| == |was|
    && chain == Run(start, ks[..done])
    && collected == Requested(ks[done..i], wanted)
    && outBits == (if wanted then i - done else 0)
    && (if wanted then Overlaid(was, Outs(start, ks)) == Overlaid(out, Outs(start, ks)[done..]) else out == was)
  }

  lemma Begins(start: Chain, ks: seq<Clock>, wanted: bool, was: seq<byte>)
    requires wanted ==> BytesFor(|ks|) <= |was|
    ensures Underway(start, ks, 0, 0, wanted, was, start, [], 0, was)
  {
    hide Run, Outs, Overlaid;
    RunOfNothing(start);
    assert ks[..0] == [] && Outs(start, ks)[0..] == Outs(start, ks);
  }

  lemma RunOfNothing(c: Chain)
    ensures Run(c, []) == c
  {
  }

  lemma UnderwayCounts(start: Chain, ks: seq<Clock>, done: nat, i: nat, wanted: bool, was: seq<byte>, chain: Chain,
                       collected: seq<Change>, outBits: nat, out: seq<byte>)
    requires Underway(start, ks, done, i, wanted, was, chain, collected, outBits, out)
    ensures done <= i <= |ks| && |collected| == |ks[done..i]| == i - done && collected == Requested(ks[done..i], wanted)
    ensures outBits == if wanted then i - done else 0
    ensures |out| == |was| && (wanted ==> BytesFor(|ks[done..i]|) <= |out|)
    ensures !wanted ==> out == was
  {
  }

  lemma Added(start: Chain, ks: seq<Clock>, done: nat, i: nat, wanted: bool, was: seq<byte>, chain: Chain,
              collected: seq<Change>, outBits: nat, out: seq<byte>)
    requires Underway(start, ks, done, i, wanted, was, chain, collected, outBits, out) && i < |ks|
    ensures Underway(start, ks, done, i + 1, wanted, was, chain,
                     collected + [Change(ks[i].tdi, ks[i].tms, true, wanted)],
                     if wanted then outBits + 1 else outBits, out)
  {
    hide Run, Outs, Overlaid;
    assert ks[done..i + 1] == ks[done..i] + [ks[i]];
  }

  lemma PartRuns(start: Chain, ks: seq<Clock>, done: nat, i: nat)
    requires done <= i <= |ks|
    ensures Run(start, ks[..i]) == Run(Run(start, ks[..done]), ks[done..i])
    ensures Outs(start, ks)[done..i] == Outs(Run(start, ks[..done]), ks[done..i])
  {
    hide Run, Outs;
    assert ks[..i] == ks[..done] + ks[done..i];
    RunAppend(start, ks[..done], ks[done..i]);
    assert ks == ks[..i] + ks[i..];
    RunAppend(start, ks[..i], ks[i..]);
  }

  /** A full request is sent and the next one begins. */
  lemma Transferred(start: Chain, ks: seq<Clock>, done: nat, i: nat, wanted: bool, was: seq<byte>, chain: Chain,
                    collected: seq<Change>, outBits: nat, out: seq<byte>)
    requires Underway(start, ks, done, i, wanted, was, chain, collected, outBits, out) && i - done == MAX_CHANGES
    ensures var part := ks[done..i];
      && (wanted ==> BytesFor(|part|) <= |out|)
      && Underway(start, ks, i, i, wanted, was, Run(chain, part), [], 0,
                  if wanted then Stored(out, Outs(chain, part)) else out)
  {
    hide Run, Outs, Stored;
    PartRuns(start, ks, done, i);
    assert ks[i..i] == [];
    var rest := Outs(start, ks)[done..];
    assert rest[..MAX_CHANGES] == Outs(start, ks)[done..i];
    assert rest[MAX_CHANGES..] == Outs(start, ks)[i..];
  }

  /** After the last request the scan is complete. */
  lemma Finished(start: Chain, ks: seq<Clock>, done: nat, wanted: bool, was: seq<byte>, chain: Chain,
                 collected: seq<Change>, outBits: nat, out: seq<byte>)
    requires Underway(start, ks, done, |ks|, wanted, was, chain, collected, outBits, out) && |ks| - done < MAX_CHANGES
    ensures var part := ks[done..|ks|];
      && Run(chain, part) == Run(start, ks)
      && (part == [] ==> chain == Run(start, ks))
      && (wanted ==> BytesFor(|part|) <= |out| && Stored(out, Outs(chain, part)) == Overlaid(was, Outs(start, ks)))
      && (wanted && part == [] ==> out == Overlaid(was, Outs(start, ks)))
  {
    hide Run, Outs, Stored;
    PartRuns(start, ks, done, |ks|);
    assert ks[..|ks|] == ks;
    RunOfNothing(chain);
    assert Outs(start, ks)[done..|ks|] == Outs(start, ks)[done..];
    StoredNothing(out);
  }

  /** TDI is low without a buffer. */
  function XpcData(tdi: Source, n: nat): BitString
    requires Provides(tdi, n)
  {
    if tdi.Bytes? then BitsOf(tdi.bytes, n) else Repeat(false, n)
  }

  lemma XpcDataDrives(tdi: Source, n: nat)
    requires Provides(tdi, n)
    ensures Drives(XpcData(tdi, n), tdi, n) && |XpcData(tdi, n)| == n
  {
  }

  /** The byte under way before bit i is taken from it. */
  predicate Offering(b: byte, tdi: Source, i: nat) {
    if tdi.Null? then b == 0 else i / 8 < |tdi.bytes| && b == ShiftRight(tdi.bytes[i / 8], i % 8)
  }

  lemma OfferBit(b: byte, tdi: Source, n: nat, i: nat)
    requires Provides(tdi, n) && i < n
    requires i % 8 == 0 ==> b == if tdi.Bytes? then tdi.bytes[i / 8] else 0
    requires i % 8 != 0 ==> Offering(b, tdi, i)
    ensures |XpcData(tdi, n)| == n && Bit(b, 0) == XpcData(tdi, n)[i]
    ensures (i + 1) % 8 != 0 ==> Offering(b / 2, tdi, i + 1)
  {
    hide Bit, ShiftRight, XpcData;
    if tdi.Bytes? {
      Unshifted(tdi.bytes[i / 8]);
      OfferFromBytes(b, tdi.bytes, n, i);
    } else {
      OfferNothing(b, n, i);
    }
  }

  lemma OfferFromBytes(b: byte, bytes: seq<byte>, n: nat, i: nat)
    requires i < n <= 8 * |bytes|
    requires b == ShiftRight(bytes[i / 8], i % 8)
    ensures |XpcData(Bytes(bytes), n)| == n && Bit(b, 0) == XpcData(Bytes(bytes), n)[i]
    ensures (i + 1) % 8 != 0 ==> Offering(b / 2, Bytes(bytes), i + 1)
  {
    hide Bit, ShiftRight, XpcData, Offering;
    var (w, r) := (bytes[i / 8], i % 8);
    ShiftedByte(b, w, r);
    DataBit(bytes, n, i);
    OfferNext(b / 2, bytes, i);
  }

  lemma OfferNext(b: byte, bytes: seq<byte>, i: nat)
    requires i / 8 < |bytes| && b == ShiftRight(bytes[i / 8], i % 8 + 1)
    ensures (i + 1) % 8 != 0 ==> Offering(b, Bytes(bytes), i + 1)
  {
    hide ShiftRight;
    NextByteBit(i);
  }

  lemma ShiftedByte(b: byte, w: byte, r: nat)
    requires b == ShiftRight(w, r)
    ensures Bit(b, 0) == Bit(w, r) && b / 2 == ShiftRight(w, r + 1)
  {
    hide Bit, ShiftRight;
    ShiftRightBits(w, r, 0);
    ShiftRightOne(w, r);
  }

  lemma DataBit(bytes: seq<byte>, n: nat, i: nat)
    requires i < n <= 8 * |bytes|
    ensures |XpcData(Bytes(bytes), n)| == n && XpcData(Bytes(bytes), n)[i] == Bit(bytes[i / 8], i % 8)
  {
    hide Bit;
    assert BitsOf(bytes, n)[i] == BitAt(bytes, i);
  }

  lemma OfferNothing(b: byte, n: nat, i: nat)
    requires i < n && b == 0
    ensures |XpcData(Null, n)| == n && Bit(b, 0) == XpcData(Null, n)[i]
    ensures Offering(b / 2, Null, i + 1)
  {
    hide Bit;
    ZeroHasNoBit(0);
  }

  lemma NextByteBit(i: nat)
    ensures (i + 1) % 8 != 0 ==> (i + 1) / 8 == i / 8 && (i + 1) % 8 == i % 8 + 1
  {
  }

  lemma Unshifted(w: nat)
    ensures ShiftRight(w, 0) == w
  {
  }

  class IOXpc {
    /** The hardware behind the CPLD. */
    var chain: Chain

    /** A request to the CPLD, which cannot handle multiples of four. */
    method Shift(bits: nat, data: seq<byte>) returns (answer: seq<byte>, ghost junk: BitString)
      requires |data| % 2 == 0 && bits <= 2 * |data|
      requires bits % 4 != 0
      modifies this
      ensures chain == Replayed(old(chain), Changes(data, bits))
      ensures |junk| == 16 && answer == Answer(Sampled(old(chain), Changes(data, bits)), junk)
    {
      hide Replayed, Sampled, Answer;
      var xs := Changes(data, bits);
      var noise: BitString :| |noise| == 16 by {
        assert |Repeat(false, 16)| == 16;
      }
      junk := noise;
      answer := Answer(Sampled(chain, xs), noise);
      chain := Replayed(chain, xs);
    }

    /** Sends the collected changes and moves what comes back into the caller's buffer. */
    method DoTransfer(xts: ExtTransfer, ghost ks: seq<Clock>, ghost filled: bool)
      requires xts.Valid() && xts.inBits <= MAX_CHANGES && xts.inBits % 4 != 0
      requires xts.Collected() == Requested(ks, xts.wanted) + if filled then [DUMMY] else []
      requires xts.outBits == if xts.wanted then |ks| else 0
      requires xts.wanted ==> BytesFor(|ks|) <= |xts.out|
      modifies this, xts`inBits, xts`outBits, xts`outDone, xts`out, xts.buf
      ensures xts.Valid() && xts.Collected() == [] && xts.inBits == xts.outBits == 0
      ensures chain == Run(old(chain), ks)
      ensures xts.out == if xts.wanted then Stored(old(xts.out), Outs(old(chain), ks)) else old(xts.out)
    {
      hide Replayed, Sampled, Run, Outs, Requested, Changes, Answer, Stored, Clear;
      ghost var outs := if xts.wanted then Outs(chain, ks) else [];
      RequestRuns(chain, ks, xts.wanted, filled);
      var inLen := 2 * (xts.inBits / 4) + if xts.inBits % 4 != 0 then 2 else 0;
      RequestFits(xts.buf[..], xts.inBits, inLen);
      var answer, junk := Shift(xts.inBits, xts.buf[..inLen]);
      AnswerLength(outs, junk);
      if xts.wanted && xts.outBits > 0 {
        Realign(xts, answer, outs, junk);
      }
      StoredNothing(xts.out);
      xts.inBits := 0;
      xts.outBits := 0;
    }

    /** Full words are copied; the bits of an incomplete one are taken from above its gap. */
    method Realign(xts: ExtTransfer, answer: seq<byte>, ghost outs: BitString, ghost junk: BitString)
      requires xts.Valid() && |junk| == 16 && answer == Answer(outs, junk)
      requires xts.outBits == |outs| > 0 && BytesFor(|outs|) <= |xts.out|
      modifies xts`outDone, xts`out
      ensures xts.out == Stored(old(xts.out), outs)
    {
      hide Answer, Stored, PutBit, Bit, BitAt, Pack;
      var alignedBytes := 4 * (xts.outBits / 32);
      AnswerWords(outs, junk);
      StoredWords(xts.out, outs, answer);
      ghost var was := xts.out;
      xts.out := answer[..alignedBytes] + xts.out[alignedBytes..];
      xts.outDone := alignedBytes * 8;
      assert outs[..|outs|] == outs;
      if xts.outBits % 32 != 0 {
        var shift := xts.outBits % 16;
        if shift != 0 {
          shift := 16 - shift;
        }
        for i := alignedBytes * 8 to xts.outBits
          invariant xts.outDone == i && xts.outBits == |outs|
          invariant xts.out == Stored(was, outs[..i])
        {
          AnswerBit(outs, junk, i);
          StoreOne(was, outs[..i], outs[i]);
          assert outs[..i + 1] == outs[..i] + [outs[i]];
          var bitNum := i + shift;
          var bitVal := BitAt(answer, bitNum);
          xts.out := PutBit(xts.out, xts.outDone, bitVal);
          xts.outDone := xts.outDone + 1;
        }
      }
    }

    /** A scan as requests of at most 8191 changes, TDI low without a buffer. */
    method TxrxBlock(tdi: Source, wanted: bool, was: seq<byte>, length: nat, last: bool)
        returns (out: seq<byte>, ghost data: BitString)
      requires Provides(tdi, length) && (wanted ==> BytesFor(length) <= |was|)
      modifies this
      ensures Drives(data, tdi, length)
      ensures chain == Run(old(chain), DataClocks(data, last))
      ensures out == if wanted then Overlaid(was, Outs(old(chain), DataClocks(data, last))) else was
      ensures wanted && length <= 8191 ==>
        out == Pack(Outs(old(chain), DataClocks(data, last))) + was[BytesFor(length)..]
    {
      hide Run, Outs, Bit, BitAt, BitsOf, XpcData, Underway, Overlaid, Stored, Offering, Drives, Requested, Pack,
           ExtTransfer.Valid, ExtTransfer.Collected;
      var xts := new ExtTransfer(wanted, was);
      ghost var start := chain;
      data := XpcData(tdi, length);
      XpcDataDrives(tdi, length);
      ghost var ks := DataClocks(data, last);
      ghost var done := 0;
      var b: byte := 0;
      Begins(start, ks, wanted, was);
      for i := 0 to length
        invariant fresh(xts) && fresh(xts.buf) && xts.wanted == wanted && xts.Valid()
        invariant Underway(start, ks, done, i, wanted, was, chain, xts.Collected(), xts.outBits, xts.out)
        invariant done <= i && xts.inBits == i - done < MAX_CHANGES
        invariant i % 8 != 0 ==> Offering(b, tdi, i)
      {
        if i % 8 == 0 {
          b := if tdi.Bytes? then tdi.bytes[i / 8] else 0;
        }
        OfferBit(b, tdi, length, i);
        Added(start, ks, done, i, wanted, was, chain, xts.Collected(), xts.outBits, xts.out);
        xts.AddBit(Bit(b, 0), if i == length - 1 then last else false, true);
        b := b / 2;
        if xts.inBits == 2 * CPLD_MAX_BYTES - 1 {
          UnderwayCounts(start, ks, done, i + 1, wanted, was, chain, xts.Collected(), xts.outBits, xts.out);
          Transferred(start, ks, done, i + 1, wanted, was, chain, xts.Collected(), xts.outBits, xts.out);
          NoFiller(xts.Collected());
          DoTransfer(xts, ks[done..i + 1], false);
          done := i + 1;
        }
      }
      LastTransfer(xts, start, ks, done, was);
      out := xts.out;
      if wanted && length <= 8191 {
        ShortReadArrives(was, Outs(start, ks));
      }
    }

    /** What is left is sent with a filler if the count is a multiple of four. */
    method LastTransfer(xts: ExtTransfer, ghost start: Chain, ghost ks: seq<Clock>, ghost done: nat,
                        ghost was: seq<byte>)
      requires xts.Valid() && done <= |ks| && xts.inBits == |ks| - done < MAX_CHANGES
      requires Underway(start, ks, done, |ks|, xts.wanted, was, chain, xts.Collected(), xts.outBits, xts.out)
      modifies this, xts`inBits, xts`outBits, xts`outDone, xts`out, xts.buf
      ensures chain == Run(start, ks)
      ensures xts.wanted ==> BytesFor(|ks|) <= |was|
      ensures xts.out == if xts.wanted then Overlaid(was, Outs(start, ks)) else was
    {
      hide Run, Outs, Overlaid, Stored, Requested, ExtTransfer.Valid, ExtTransfer.Collected;
      UnderwayCounts(start, ks, done, |ks|, xts.wanted, was, chain, xts.Collected(), xts.outBits, xts.out);
      Finished(start, ks, done, xts.wanted, was, chain, xts.Collected(), xts.outBits, xts.out);
      if xts.inBits > 0 {
        ghost var filled := xts.inBits % 4 == 0;
        ghost var collected := xts.Collected();
        assert collected + [] == collected;
        if xts.inBits % 4 == 0 {
          xts.AddBit(false, false, false);
        }
        DoTransfer(xts, ks[done..|ks|], filled);
      }
    }

    /** TMS bits with TDI high. */
    method TxTms(pat: seq<byte>, len: nat, force: bool)
      requires len <= 8 * |pat|
      modifies this
      ensures chain == Run(old(chain), TmsClocks(BitsOf(pat, len)))
    {
      hide Run, Outs, Bit, BitAt, Underway, Overlaid, Stored, Requested, ExtTransfer.Valid, ExtTransfer.Collected;
      var xts := new ExtTransfer(false, []);
      ghost var start := chain;
      ghost var ks := TmsClocks(BitsOf(pat, len));
      ghost var done := 0;
      Begins(start, ks, false, []);
      for i := 0 to len
        invariant fresh(xts) && fresh(xts.buf) && !xts.wanted && xts.Valid()
        invariant Underway(start, ks, done, i, false, [], chain, xts.Collected(), xts.outBits, xts.out)
        invariant done <= i && xts.inBits == i - done < MAX_CHANGES
      {
        Added(start, ks, done, i, false, [], chain, xts.Collected(), xts.outBits, xts.out);
        xts.AddBit(true, BitAt(pat, i), true);
        if xts.inBits == 2 * CPLD_MAX_BYTES - 1 {
          UnderwayCounts(start, ks, done, i + 1, false, [], chain, xts.Collected(), xts.outBits, xts.out);
          Transferred(start, ks, done, i + 1, false, [], chain, xts.Collected(), xts.outBits, xts.out);
          NoFiller(xts.Collected());
          DoTransfer(xts, ks[done..i + 1], false);
          done := i + 1;
        }
      }
      LastTransfer(xts, start, ks, done, []);
    }
  }

  lemma NoFiller(xs: seq<Change>)
    ensures xs + [] == xs
  {
  }
}
