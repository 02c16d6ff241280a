/**
 * progalgxc95x.cpp: programming, reading and verifying an XC9500 array. A read scan returns
 * the row that the scan before it addressed, and rows are eight or six bits wide.
 */
module Xc95x {
  import opened Bits
  import opened Flash
  import Jedec

  const SECTORS: nat := 108

  /** Fifteen rows in each sector: three groups of five. */
  const ROWS: nat := 1620

  // ---- Where things are ----

  /** The address the programmer sends for a row. */
  function Address(t: nat): nat {
    t / 15 * 0x20 + t % 15 / 5 * 0x08 + t % 15 % 5
  }

  lemma AddressesDiffer(s: nat, t: nat)
    requires Address(s) == Address(t)
    ensures s == t
  {
    PlacesDiffer(s / 15, s % 15 / 5, s % 15 % 5, t / 15, t % 15 / 5, t % 15 % 5);
  }

  lemma PlacesDiffer(x: nat, y: nat, z: nat, x': nat, y': nat, z': nat)
    requires y < 3 && z < 5 && y' < 3 && z' < 5
    requires x * 0x20 + y * 0x08 + z == x' * 0x20 + y' * 0x08 + z'
    ensures x == x' && y == y' && z == z'
  {
  }

  lemma RowOfCounters(sec: nat, l: nat, m: nat)
    requires l < 3 && m < 5
    ensures Address(sec * 15 + l * 5 + m) == sec * 0x20 + l * 0x08 + m
    ensures (sec * 15 + l * 5 + m) % 15 == l * 5 + m
  {
    DivideUnique(sec * 15 + l * 5 + m, 15, sec, l * 5 + m);
    DivideUnique(l * 5 + m, 5, l, m);
  }

  function Width(t: nat): nat {
    if t % 15 >= 9 then 6 else 8
  }

  /** The first fuse of a row. */
  function Start(dreg: nat, t: nat): nat {
    if t == 0 then 0 else Start(dreg, t - 1) + dreg * Width(t - 1)
  }

  lemma {:induction false} StartGrows(dreg: nat, s: nat, t: nat)
    requires s <= t
    ensures Start(dreg, s) <= Start(dreg, t)
  {
    if s < t {
      StartGrows(dreg, s, t - 1);
    }
  }

  lemma {:induction false} StartOfRun(dreg: nat, b: nat, w: nat, k: nat)
    requires forall t :: b <= t < b + k ==> Width(t) == w
    ensures Start(dreg, b + k) == Start(dreg, b) + k * (dreg * w)
  {
    hide Width;
    if k > 0 {
      StartOfRun(dreg, b, w, k - 1);
      assert k * (dreg * w) == (k - 1) * (dreg * w) + dreg * w;
    }
  }

  lemma WidthInSector(sec: nat, i: nat)
    requires i < 15
    ensures Width(15 * sec + i) == if i >= 9 then 6 else 8
  {
    DivideUnique(15 * sec + i, 15, sec, i);
  }

  lemma {:induction false} SectorStart(dreg: nat, sec: nat)
    ensures Start(dreg, 15 * sec) == sec * (108 * dreg)
  {
    hide Width, Start;
    StartZero(dreg);
    if sec > 0 {
      SectorStart(dreg, sec - 1);
      var b := 15 * (sec - 1);
      forall t | b <= t < b + 9
        ensures Width(t) == 8
      {
        WidthInSector(sec - 1, t - b);
      }
      StartOfRun(dreg, b, 8, 9);
      forall t | b + 9 <= t < b + 15
        ensures Width(t) == 6
      {
        WidthInSector(sec - 1, t - b);
      }
      StartOfRun(dreg, b + 9, 6, 6);
      assert sec * (108 * dreg) == (sec - 1) * (108 * dreg) + 108 * dreg;
    }
  }

  lemma StartZero(dreg: nat)
    ensures Start(dreg, 0) == 0
  {
  }

  /** All fuses: what array_read makes room for. */
  lemma TotalFuses(dreg: nat)
    ensures Start(dreg, ROWS) == 108 * 108 * dreg
  {
    SectorStart(dreg, SECTORS);
  }

  // ---- Fuses and row bytes ----

  function LowBits(b: byte, w: nat): (r: BitString)
    ensures |r| == w
  {
    seq(w, k requires 0 <= k < w => Bit(b, k))
  }

  /** The fuses in a row, the low w bits of each of its bytes. */
  function RowBits(row: seq<byte>, w: nat): BitString {
    if row == [] then [] else RowBits(row[..|row| - 1], w) + LowBits(row[|row| - 1], w)
  }

  /** The bytes that carry some fuses, w to a byte. */
  function RowOf(bits: BitString, w: nat): seq<byte>
    requires 1 <= w <= 8
  {
    if |bits| < w then []
    else
      SmallNumber(bits[|bits| - w..]);
      RowOf(bits[..|bits| - w], w) + [NumberOf(bits[|bits| - w..])]
  }

  lemma RowOfNothing(w: nat)
    requires 1 <= w <= 8
    ensures RowOf([], w) == [] && RowBits([], w) == []
  {
  }

  lemma RowGrows(fuses: BitString, idx: nat, start: nat, w: nat, row: seq<byte>, j: nat, data: byte)
    requires 1 <= w <= 8 && idx <= start && start + w <= |fuses| && j < |row|
    requires row[..j] == RowOf(fuses[idx..start], w) && data == NumberOf(fuses[start..start + w])
    ensures row[j := data][..j + 1] == RowOf(fuses[idx..start + w], w)
  {
    RowOfAppend(fuses[idx..start], fuses[start..start + w]);
    assert fuses[idx..start + w] == fuses[idx..start] + fuses[start..start + w];
    assert row[j := data][..j + 1] == row[..j] + [data];
  }

  lemma ByteGrows(fuses: BitString, idx: nat, i: nat, v: bool)
    requires i < 8 && idx + i < |fuses| && fuses[idx + i] == v
    ensures NumberOf(fuses[idx..idx + i]) + Weight(v, i) == NumberOf(fuses[idx..idx + i + 1]) < 256
  {
    NumberAppend(fuses[idx..idx + i], v);
    assert fuses[idx..idx + i + 1] == fuses[idx..idx + i] + [v];
    SmallNumber(fuses[idx..idx + i + 1]);
  }

  lemma NoBits()
    ensures NumberOf([]) == 0
  {
  }

  lemma RowBitsAppend(row: seq<byte>, b: byte, w: nat)
    ensures RowBits(row + [b], w) == RowBits(row, w) + LowBits(b, w)
  {
    assert (row + [b])[..|row|] == row;
  }

  lemma RowOfAppend(bits: BitString, part: BitString)
    requires 1 <= |part| <= 8
    ensures NumberOf(part) < 256
    ensures RowOf(bits + part, |part|) == RowOf(bits, |part|) + [NumberOf(part)]
  {
    SmallNumber(part);
    assert (bits + part)[..|bits|] == bits && (bits + part)[|bits|..] == part;
  }

  lemma {:induction false} RowBitsLength(row: seq<byte>, w: nat)
    ensures |RowBits(row, w)| == |row| * w
  {
    if row != [] {
      RowBitsLength(row[..|row| - 1], w);
      assert |row| * w == (|row| - 1) * w + w;
    }
  }

  lemma NumberLowBits(part: BitString)
    requires |part| <= 8
    ensures NumberOf(part) < 256 && LowBits(NumberOf(part), |part|) == part
  {
    SmallNumber(part);
    forall k | 0 <= k < |part|
      ensures LowBits(NumberOf(part), |part|)[k] == part[k]
    {
      NumberBits(part, k);
    }
  }

  lemma RowTurnsAround(head: BitString, part: BitString)
    requires 1 <= |part| <= 8 && RowBits(RowOf(head, |part|), |part|) == head
    ensures |RowOf(head + part, |part|)| == |RowOf(head, |part|)| + 1
    ensures RowBits(RowOf(head + part, |part|), |part|) == head + part
  {
    hide RowOf, RowBits, NumberOf, LowBits;
    NumberLowBits(part);
    RowOfAppend(head, part);
    RowBitsAppend(RowOf(head, |part|), NumberOf(part), |part|);
  }

  /** The row made from some fuses carries them. */
  lemma {:induction false} RowRoundTrip(bits: BitString, w: nat, n: nat)
    requires 1 <= w <= 8 && |bits| == n * w
    ensures |RowOf(bits, w)| == n && RowBits(RowOf(bits, w), w) == bits
  {
    hide RowOf, RowBits;
    if n == 0 {
      RowOfNothing(w);
      assert bits == [];
    } else {
      Products(n - 1, n, w);
      var k: nat := |bits| - w;
      RowRoundTrip(bits[..k], w, n - 1);
      RowTurnsAround(bits[..k], bits[k..]);
      assert bits == bits[..k] + bits[k..];
    }
  }

  // ---- The device ----

  /** The rows, and the row addressed last, which the next read scan returns. */
  datatype Cpld = Cpld(rows: map<nat, seq<byte>>, latch: seq<byte>)

  ghost predicate Sound(c: Cpld, dreg: nat) {
    && (forall t :: 0 <= t < ROWS ==> Address(t) in c.rows && |c.rows[Address(t)]| == dreg)
    && |c.latch| == dreg
  }

  /** A row in the array, as a fuse string. */
  function BitsInRow(rows: map<nat, seq<byte>>, t: nat): BitString {
    if Address(t) in rows then RowBits(rows[Address(t)], Width(t)) else []
  }

  /** The fuses of the first t rows of the device. */
  function ArrayBits(rows: map<nat, seq<byte>>, t: nat): BitString {
    if t == 0 then [] else ArrayBits(rows, t - 1) + BitsInRow(rows, t - 1)
  }

  lemma {:induction false} ArrayLength(c: Cpld, dreg: nat, t: nat)
    requires Sound(c, dreg) && t <= ROWS
    ensures |ArrayBits(c.rows, t)| == Start(dreg, t)
  {
    hide Address;
    if t > 0 {
      ArrayLength(c, dreg, t - 1);
      RowBitsLength(c.rows[Address(t - 1)], Width(t - 1));
    }
  }

  /** The fuses a file has for row t. */
  function FusesOfRow(fuses: BitString, dreg: nat, t: nat): BitString
    requires Start(dreg, t + 1) <= |fuses|
  {
    fuses[Start(dreg, t)..Start(dreg, t + 1)]
  }

  /** The bytes the programmer sends for row t. */
  function RowData(fuses: BitString, dreg: nat, t: nat): (r: seq<byte>)
    requires Start(dreg, t + 1) <= |fuses|
    ensures |r| == dreg
  {
    RowRoundTrip(FusesOfRow(fuses, dreg, t), Width(t), dreg);
    RowOf(FusesOfRow(fuses, dreg, t), Width(t))
  }

  /** The first n rows have been programmed with the file and every other row is as it was. */
  ghost predicate RowsDone(before: map<nat, seq<byte>>, after: map<nat, seq<byte>>, fuses: BitString, dreg: nat,
                           n: nat) {
    && Start(dreg, n) <= |fuses|
    && after.Keys == before.Keys
    && (forall t :: 0 <= t < n ==> RowDone(before, after, fuses, dreg, t))
    && (forall a :: a in before && (forall t :: 0 <= t < n ==> a != Address(t)) ==> after[a] == before[a])
  }

  ghost predicate RowDone(before: map<nat, seq<byte>>, after: map<nat, seq<byte>>, fuses: BitString, dreg: nat,
                          t: nat) {
    var a := Address(t);
    && a in before && a in after && |before[a]| == dreg
    && Start(dreg, t + 1) <= |fuses|
    && after[a] == BurnAll(before[a], RowData(fuses, dreg, t))
  }

  lemma RowsDoneStep(before: map<nat, seq<byte>>, rows: map<nat, seq<byte>>, fuses: BitString, dreg: nat, n: nat)
    requires RowsDone(before, rows, fuses, dreg, n) && Start(dreg, n + 1) <= |fuses|
    requires Address(n) in before && |before[Address(n)]| == dreg
    ensures rows[Address(n)] == before[Address(n)]
    ensures RowsDone(before, rows[Address(n) := BurnAll(before[Address(n)], RowData(fuses, dreg, n))], fuses, dreg,
                     n + 1)
  {
    hide Address, BurnAll, RowData, Start;
    var a := Address(n);
    forall t | 0 <= t < n
      ensures a != Address(t)
    {
      if a == Address(t) {
        AddressesDiffer(n, t);
      }
    }
    var after := rows[a := BurnAll(before[a], RowData(fuses, dreg, n))];
    forall t | 0 <= t < n + 1
      ensures RowDone(before, after, fuses, dreg, t)
    {
      assert t < n ==> RowDone(before, rows, fuses, dreg, t);
    }
  }

  /** A row that was erased carries the file's fuses afterwards. */
  lemma ErasedRowDone(before: map<nat, seq<byte>>, after: map<nat, seq<byte>>, fuses: BitString, dreg: nat, t: nat)
    requires RowDone(before, after, fuses, dreg, t)
    requires before[Address(t)] == Repeat<byte>(BLANK, dreg)
    ensures after[Address(t)] == RowData(fuses, dreg, t)
    ensures BitsInRow(after, t) == FusesOfRow(fuses, dreg, t)
  {
    hide Address, BurnAll;
    BurnAllErased(before[Address(t)], RowData(fuses, dreg, t));
    RowRoundTrip(FusesOfRow(fuses, dreg, t), Width(t), dreg);
  }

  /** A row of the device carries the fuses the file has for it. */
  predicate RowAgrees(c: Cpld, fuses: BitString, dreg: nat, t: nat) {
    Start(dreg, t + 1) <= |fuses| && BitsInRow(c.rows, t) == FusesOfRow(fuses, dreg, t)
  }

  lemma SameParts(a: BitString, a': BitString, b: BitString, b': BitString)
    requires |a| == |a'|
    ensures a + b == a' + b' <==> a == a' && b == b'
  {
    if a + b == a' + b' {
      assert (a + b)[..|a|] == a && (a' + b')[..|a|] == a';
      assert (a + b)[|a|..] == b && (a' + b')[|a|..] == b';
    }
  }

  /** The device carries the file exactly when each of its rows does. */
  lemma {:induction false} ArrayIsFile(c: Cpld, fuses: BitString, dreg: nat, n: nat)
    requires Sound(c, dreg) && n <= ROWS && Start(dreg, n) <= |fuses|
    ensures ArrayBits(c.rows, n) == fuses[..Start(dreg, n)] <==> forall t :: 0 <= t < n ==> RowAgrees(c, fuses, dreg, t)
  {
    hide Address, Sound, BitsInRow, Start;
    StartZero(dreg);
    if n > 0 {
      StartGrows(dreg, n - 1, n);
      ArrayIsFile(c, fuses, dreg, n - 1);
      ArrayLength(c, dreg, n - 1);
      var (p, q) := (Start(dreg, n - 1), Start(dreg, n));
      assert fuses[..q] == fuses[..p] + fuses[p..q];
      SameParts(ArrayBits(c.rows, n - 1), fuses[..p], BitsInRow(c.rows, n - 1), fuses[p..q]);
      assert RowAgrees(c, fuses, dreg, n - 1) <==> BitsInRow(c.rows, n - 1) == fuses[p..q];
    }
  }

  /** Every row of the array is erased. */
  ghost predicate Erased(c: Cpld, dreg: nat) {
    forall t :: 0 <= t < ROWS ==> Address(t) in c.rows && c.rows[Address(t)] == Repeat<byte>(BLANK, dreg)
  }

  /** Programming a file into an erased device makes the device carry, and verify against, exactly its fuses. */
  lemma ProgramThenRead(before: Cpld, after: Cpld, fuses: BitString, dreg: nat)
    requires Sound(after, dreg) && Erased(before, dreg)
    requires RowsDone(before.rows, after.rows, fuses, dreg, ROWS)
    ensures 108 * 108 * dreg <= |fuses|
    ensures ArrayBits(after.rows, ROWS) == fuses[..108 * 108 * dreg]
    ensures Verdict(fuses, 0, ArrayBits(after.rows, ROWS)) == Ok
  {
    hide Verdict, Sound, Address, BurnAll, RowData, FusesOfRow, Start, BitsInRow, ArrayBits;
    TotalFuses(dreg);
    forall t | 0 <= t < ROWS
      ensures RowAgrees(after, fuses, dreg, t)
    {
      assert RowDone(before.rows, after.rows, fuses, dreg, t);
      ErasedRowDone(before.rows, after.rows, fuses, dreg, t);
    }
    ArrayIsFile(after, fuses, dreg, ROWS);
    VerifiedExactlyWhen(after, fuses, dreg);
  }

  // ---- Verdicts ----

  datatype Outcome = Ok | Failed | Threw

  /** A fuse the file has differs from the given bits. */
  predicate Conflicts(fuses: BitString, at: nat, bits: BitString) {
    exists i :: 0 <= i < |bits| && at + i < |fuses| && fuses[at + i] != bits[i]
  }

  /** Comparing in order stops at a difference, or with an exception where the file ends. */
  function Verdict(fuses: BitString, at: nat, bits: BitString): Outcome {
    if Conflicts(fuses, at, bits) then Failed
    else if bits != [] && at + |bits| > |fuses| then Threw
    else Ok
  }

  lemma VerdictAppend(fuses: BitString, at: nat, a: BitString, b: BitString)
    ensures Verdict(fuses, at, a + b)
            == if Verdict(fuses, at, a) == Ok then Verdict(fuses, at + |a|, b) else Verdict(fuses, at, a)
  {
    var c := a + b;
    if Conflicts(fuses, at, a) {
      var i :| 0 <= i < |a| && at + i < |fuses| && fuses[at + i] != a[i];
      assert c[i] == a[i];
    }
    if Conflicts(fuses, at + |a|, b) {
      var i :| 0 <= i < |b| && at + |a| + i < |fuses| && fuses[at + |a| + i] != b[i];
      assert c[|a| + i] == b[i];
    }
    if Conflicts(fuses, at, c) {
      var i :| 0 <= i < |c| && at + i < |fuses| && fuses[at + i] != c[i];
      if i < |a| {
        assert c[i] == a[i];
      } else {
        assert c[i] == b[i - |a|] && fuses[at + |a| + (i - |a|)] != b[i - |a|];
      }
    }
  }

  lemma VerdictOne(fuses: BitString, at: nat, v: bool)
    ensures Verdict(fuses, at, [v]) == if at >= |fuses| then Threw else if fuses[at] != v then Failed else Ok
  {
    assert [v][0] == v;
    if at < |fuses| && fuses[at] != v {
      assert fuses[at + 0] != [v][0];
    }
  }

  /**
   * Verification returns 0 exactly when the file has all the fuses and every row carries those
   * the file has for it.
   */
  lemma VerifiedExactlyWhen(c: Cpld, fuses: BitString, dreg: nat)
    requires Sound(c, dreg)
    ensures Verdict(fuses, 0, ArrayBits(c.rows, ROWS)) == Ok
            <==> 108 * 108 * dreg <= |fuses| && forall t :: 0 <= t < ROWS ==> RowAgrees(c, fuses, dreg, t)
  {
    hide Address, Start, RowAgrees, ArrayBits, Sound;
    var bits := ArrayBits(c.rows, ROWS);
    TotalFuses(dreg);
    ArrayLength(c, dreg, ROWS);
    if |bits| <= |fuses| {
      ArrayIsFile(c, fuses, dreg, ROWS);
      NoConflicts(fuses, bits);
    }
  }

  lemma NoConflicts(fuses: BitString, bits: BitString)
    requires |bits| <= |fuses|
    ensures !Conflicts(fuses, 0, bits) <==> bits == fuses[..|bits|]
  {
    if !Conflicts(fuses, 0, bits) {
      forall i | 0 <= i < |bits|
        ensures bits[i] == fuses[..|bits|][i]
      {
        assert fuses[0 + i] == bits[i];
      }
    }
    if bits == fuses[..|bits|] {
      assert forall i :: 0 <= i < |bits| ==> fuses[0 + i] == fuses[..|bits|][i];
    }
  }

  // ---- Filling a fuse map ----

  /** Fuses from `at` on replaced. */
  function Patch(fuses: BitString, at: nat, bits: BitString): (r: BitString)
    requires at + |bits| <= |fuses|
    ensures |r| == |fuses|
  {
    fuses[..at] + bits + fuses[at + |bits|..]
  }

  lemma PatchNothing(fuses: BitString, at: nat)
    requires at <= |fuses|
    ensures Patch(fuses, at, []) == fuses
  {
  }

  lemma PatchOne(fuses: BitString, at: nat, bits: BitString, v: bool)
    requires at + |bits| < |fuses|
    ensures Patch(fuses, at, bits)[at + |bits| := v] == Patch(fuses, at, bits + [v])
  {
  }

  lemma PatchAppend(fuses: BitString, at: nat, a: BitString, b: BitString)
    requires at + |a| + |b| <= |fuses|
    ensures Patch(Patch(fuses, at, a), at + |a|, b) == Patch(fuses, at, a + b)
  {
  }

  lemma Products(j: nat, n: nat, w: nat)
    requires j < n
    ensures (j + 1) * w == j * w + w && j * w + w <= n * w
  {
    assert n * w == (j + 1) * w + (n - j - 1) * w;
  }

  // ---- The scans ----

  /** The address in the two bytes behind the row data. */
  function AddressIn(iData: seq<byte>, dreg: nat): nat
    requires |iData| == dreg + 2
  {
    var high: nat := iData[dreg + 1];
    iData[dreg] + 0x100 * high
  }

  /** The row data with the address of row t behind it. */
  predicate Addressed(iData: seq<byte>, dreg: nat, t: nat) {
    |iData| == dreg + 2 && AddressIn(iData, dreg) == Address(t)
  }

  function WithAddress(iData: seq<byte>, dreg: nat, addr: nat): (r: seq<byte>)
    requires |iData| == dreg + 2
    ensures |r| == |iData| && r[..dreg] == iData[..dreg]
    ensures addr < 0x10000 ==> AddressIn(r, dreg) == addr
  {
    iData[dreg := addr % 0x100][dreg + 1 := addr / 0x100 % 0x100]
  }

  /** What goes in front of a row: the last one of its sector, at offset 0x14, has the sector written. */
  function PreambleFor(address: nat): nat {
    if address % 0x20 == 0x14 then 3 else 1
  }

  lemma PreambleOf(t: nat)
    ensures PreambleFor(Address(t)) == if t % 15 == 14 then 3 else 1
  {
    LastInSector(t % 15);
    DivideUnique(Address(t), 0x20, t / 15, t % 15 / 5 * 0x08 + t % 15 % 5);
  }

  lemma LastInSector(k: nat)
    requires k < 15
    ensures k / 5 * 0x08 + k % 5 < 0x20 && (k / 5 * 0x08 + k % 5 == 0x14 <==> k == 14)
  {
  }

  /**
   * A program scan takes effect with the preamble for its row; with zero it only asks for the state of
   * the last one.
   */
  function Programmed(rows: map<nat, seq<byte>>, dreg: nat, preamble: nat, iData: seq<byte>): map<nat, seq<byte>>
    requires |iData| == dreg + 2
  {
    var a := AddressIn(iData, dreg);
    if preamble != PreambleFor(a) || a !in rows || |rows[a]| != dreg then rows
    else rows[a := BurnAll(rows[a], iData[..dreg])]
  }

  lemma ProgrammedSound(c: Cpld, dreg: nat, preamble: nat, iData: seq<byte>)
    requires Sound(c, dreg) && |iData| == dreg + 2
    ensures Sound(c.(rows := Programmed(c.rows, dreg, preamble, iData)), dreg)
  {
    hide Address, PreambleFor;
  }

  /** A read scan replaces the latched row by the one now addressed. */
  function Latched(c: Cpld, dreg: nat, iData: seq<byte>): Cpld
    requires |iData| == dreg + 2
  {
    var a := AddressIn(iData, dreg);
    if a in c.rows && |c.rows[a]| == dreg then c.(latch := c.rows[a]) else c
  }

  /** How a programming run may end. */
  ghost predicate ProgramEnds(before: Cpld, after: Cpld, fuses: BitString, dreg: nat, confirmed: nat, r: Outcome) {
    match r
    case Ok => RowsDone(before.rows, after.rows, fuses, dreg, ROWS) && confirmed == SECTORS
    case Failed => confirmed < SECTORS && RowsDone(before.rows, after.rows, fuses, dreg, 15 * (confirmed + 1))
    case Threw =>
      exists t :: 0 <= t < ROWS && t / 15 == confirmed
        && |fuses| < Start(dreg, t + 1) && RowsDone(before.rows, after.rows, fuses, dreg, t)
  }

  /** The run has reached row t. */
  ghost predicate ProgramAt(before: Cpld, now: Cpld, fuses: BitString, dreg: nat, t: nat, idx: nat) {
    && Sound(now, dreg)
    && idx == Start(dreg, t)
    && RowsDone(before.rows, now.rows, fuses, dreg, t)
  }

  lemma ProgramBegins(c: Cpld, fuses: BitString, dreg: nat)
    requires Sound(c, dreg)
    ensures ProgramAt(c, c, fuses, dreg, 0, 0)
  {
  }

  /** One more row programmed. */
  lemma ProgramStep(before: Cpld, now: Cpld, fuses: BitString, dreg: nat, t: nat, idx: nat, preamble: nat,
                    iData: seq<byte>)
    requires t < ROWS && Sound(before, dreg) && ProgramAt(before, now, fuses, dreg, t, idx)
    requires idx + dreg * Width(t) <= |fuses| && preamble == if t % 15 == 14 then 3 else 1
    requires Addressed(iData, dreg, t)
    requires iData[..dreg] == RowOf(fuses[idx..idx + dreg * Width(t)], Width(t))
    ensures ProgramAt(before, now.(rows := Programmed(now.rows, dreg, preamble, iData)), fuses, dreg, t + 1,
                      idx + dreg * Width(t))
  {
    hide Address, BurnAll, RowOf, Width, RowsDone, PreambleFor;
    PreambleOf(t);
    ProgrammedSound(now, dreg, preamble, iData);
    RowsDoneStep(before.rows, now.rows, fuses, dreg, t);
  }

  lemma ProgramThrows(before: Cpld, now: Cpld, fuses: BitString, dreg: nat, t: nat, idx: nat, sec: nat)
    requires t < ROWS && t / 15 == sec && ProgramAt(before, now, fuses, dreg, t, idx)
    requires idx + dreg * Width(t) > |fuses|
    ensures ProgramEnds(before, now, fuses, dreg, sec, Threw)
  {
    hide RowsDone, Width;
  }

  lemma ProgramFails(before: Cpld, now: Cpld, fuses: BitString, dreg: nat, t: nat, idx: nat, sec: nat)
    requires sec < SECTORS && t == 15 * (sec + 1) && ProgramAt(before, now, fuses, dreg, t, idx)
    ensures ProgramEnds(before, now, fuses, dreg, sec, Failed)
  {
    hide RowsDone;
  }

  lemma ProgramSucceeds(before: Cpld, now: Cpld, fuses: BitString, dreg: nat, idx: nat)
    requires ProgramAt(before, now, fuses, dreg, ROWS, idx)
    ensures ProgramEnds(before, now, fuses, dreg, SECTORS, Ok)
  {
    hide RowsDone;
  }

  /** What a reading or verifying run that has addressed t rows has taken: all of them but the last. */
  function Taken(rows: map<nat, seq<byte>>, t: nat): BitString {
    if t == 0 then [] else ArrayBits(rows, t - 1)
  }

  ghost predicate ReadAt(c: Cpld, dreg: nat, t: nat, idx: nat, bitlen: nat) {
    && Sound(c, dreg)
    && idx == |Taken(c.rows, t)|
    && (t > 0 ==> t <= ROWS && bitlen == Width(t - 1) && c.latch == c.rows[Address(t - 1)])
  }

  lemma ReadBegins(c: Cpld, dreg: nat, bitlen: nat)
    requires Sound(c, dreg)
    ensures ReadAt(c, dreg, 0, 0, bitlen) && Taken(c.rows, 0) == []
  {
  }

  /** The latched row completes the fuses of the rows addressed so far. */
  lemma ReadTakes(c: Cpld, dreg: nat, t: nat, idx: nat, bitlen: nat)
    requires t > 0 && ReadAt(c, dreg, t, idx, bitlen)
    ensures idx == |Taken(c.rows, t)|
    ensures Taken(c.rows, t) + RowBits(c.latch, bitlen) == ArrayBits(c.rows, t) == Taken(c.rows, t + 1)
    ensures idx + |RowBits(c.latch, bitlen)| == Start(dreg, t) <= Start(dreg, ROWS)
    ensures |c.latch| == dreg && 1 <= bitlen <= 8
  {
    hide Address, RowBits;
    ArrayLength(c, dreg, t);
    StartGrows(dreg, t, ROWS);
  }

  /** The next row addressed. */
  lemma ReadStep(c: Cpld, dreg: nat, t: nat, iData: seq<byte>)
    requires t < ROWS && Sound(c, dreg) && Addressed(iData, dreg, t)
    ensures Latched(c, dreg, iData).rows == c.rows
    ensures ReadAt(Latched(c, dreg, iData), dreg, t + 1, |Taken(c.rows, t + 1)|, Width(t))
  {
    hide Address, RowBits, ArrayBits, Width;
    assert |c.rows[Address(t)]| == dreg;
  }

  /** Before the first reply nothing has been taken, and after it neither. */
  lemma ReadFirst(c: Cpld, dreg: nat, idx: nat, bitlen: nat)
    requires ReadAt(c, dreg, 0, idx, bitlen)
    ensures idx == 0 && Taken(c.rows, 0) == [] == Taken(c.rows, 1)
  {
  }

  /** Addressing the latched row once more changes nothing. */
  lemma ReadAgain(c: Cpld, dreg: nat, idx: nat, bitlen: nat, iData: seq<byte>)
    requires ReadAt(c, dreg, ROWS, idx, bitlen) && Addressed(iData, dreg, ROWS - 1)
    ensures Latched(c, dreg, iData) == c
  {
    hide Address, ArrayBits, RowBits;
    assert |c.rows[Address(ROWS - 1)]| == dreg;
  }

  lemma WidthHere(t: nat, r: nat)
    requires t % 15 == r
    ensures Width(t) == if r >= 9 then 6 else 8
  {
  }

  lemma AddressedNow(iData: seq<byte>, dreg: nat, t: nat)
    requires t < ROWS && |iData| == dreg + 2 && (Address(t) < 0x10000 ==> AddressIn(iData, dreg) == Address(t))
    ensures Addressed(iData, dreg, t)
  {
  }

  lemma NextLowBit(b: byte, i: nat)
    ensures LowBits(b, i) + [Bit(ShiftRight(b, i), 0)] == LowBits(b, i + 1)
    ensures ShiftRight(b, i) / 2 == ShiftRight(b, i + 1)
  {
    hide Bit;
    ShiftRightBits(b, i, 0);
    ShiftRightOne(b, i);
  }

  lemma RowBitsBegin(row: seq<byte>, w: nat)
    ensures RowBits(row[..0], w) == []
  {
  }

  lemma RowBitsGrow(row: seq<byte>, j: nat, w: nat)
    requires j < |row|
    ensures RowBits(row[..j + 1], w) == RowBits(row[..j], w) + LowBits(row[j], w)
    ensures LowBits(row[j], 0) == []
  {
    hide RowBits, LowBits;
    assert row[..j + 1] == row[..j] + [row[j]];
    RowBitsAppend(row[..j], row[j], w);
    assert |LowBits(row[j], 0)| == 0;
  }

  lemma PatchAll(fuses: BitString, bits: BitString)
    requires |bits| == |fuses|
    ensures Patch(fuses, 0, bits) == bits
  {
  }

  /** A verdict other than success stands, whatever rows follow. */
  lemma {:induction false} VerdictStands(fuses: BitString, rows: map<nat, seq<byte>>, t: nat, n: nat)
    requires t <= n && Verdict(fuses, 0, ArrayBits(rows, t)) != Ok
    ensures Verdict(fuses, 0, ArrayBits(rows, n)) == Verdict(fuses, 0, ArrayBits(rows, t))
  {
    hide Verdict, BitsInRow;
    if t < n {
      VerdictStands(fuses, rows, t, n - 1);
      VerdictAppend(fuses, 0, ArrayBits(rows, n - 1), BitsInRow(rows, n - 1));
    }
  }

  /** The verdict on a row from the first bit in it that is not in the file. */
  lemma VerdictOfRow(fuses: BitString, at: nat, row: seq<byte>, w: nat, j: nat, i: nat)
    requires j < |row| && i < w
    requires Verdict(fuses, at, RowBits(row[..j], w) + LowBits(row[j], i + 1)) != Ok
    ensures Verdict(fuses, at, RowBits(row, w)) == Verdict(fuses, at, RowBits(row[..j], w) + LowBits(row[j], i + 1))
  {
    hide RowBits, Verdict, LowBits;
    var part := RowBits(row[..j], w) + LowBits(row[j], i + 1);
    RowBitsFrom(row, w, j, i + 1);
    assert part + RowBits(row, w)[|part|..] == RowBits(row, w);
    VerdictAppend(fuses, at, part, RowBits(row, w)[|part|..]);
  }

  lemma {:induction false} RowBitsFrom(row: seq<byte>, w: nat, j: nat, i: nat)
    requires j < |row| && i <= w
    ensures RowBits(row[..j], w) + LowBits(row[j], i) <= RowBits(row, w)
  {
    hide LowBits;
    if j == |row| - 1 {
      LowBitsPrefix(row[j], i, w);
    } else {
      var init := row[..|row| - 1];
      RowBitsFrom(init, w, j, i);
      assert init[..j] == row[..j];
    }
  }

  lemma LowBitsPrefix(b: byte, i: nat, w: nat)
    requires i <= w
    ensures LowBits(b, i) <= LowBits(b, w)
  {
  }

  lemma NothingShifted(b: byte)
    ensures ShiftRight(b, 0) == b && LowBits(b, 0) == []
  {
  }

  lemma VerdictNothing(fuses: BitString, at: nat)
    ensures Verdict(fuses, at, []) == Ok
  {
  }

  class ProgAlgXC95X {
    const dReg: nat
    var device: Cpld

    /** The status replies so far that confirmed a sector, and those that did not. */
    ghost var confirmed: nat
    ghost var refused: nat

    ghost predicate Valid()
      reads this
    {
      1 <= dReg <= 16 && Sound(device, dReg)
    }

    constructor (hardware: Cpld, dreg: nat)
      requires 1 <= dreg <= 16 && Sound(hardware, dreg)
      ensures Valid() && device == hardware && dReg == dreg
    {
      device, dReg := hardware, dreg;
    }

    /** ISC_PROGRAM with a two-bit preamble in front of the row. */
    method ProgramScan(preamble: nat, iData: seq<byte>)
      requires Valid() && |iData| == dReg + 2
      modifies this`device
      ensures Valid()
      ensures device == old(device).(rows := Programmed(old(device.rows), dReg, preamble, iData))
    {
      hide Sound;
      ProgrammedSound(device, dReg, preamble, iData);
      device := device.(rows := Programmed(device.rows, dReg, preamble, iData));
    }

    /** The status in the low two bits, as the device chooses to report it. */
    method StatusScan() returns (status: nat)
      modifies this`confirmed, this`refused
      ensures status < 4
      ensures confirmed == old(confirmed) + (if status == 1 then 1 else 0)
      ensures refused == old(refused) + (if status == 1 then 0 else 1)
    {
      status :| status < 4;
      if status == 1 {
        confirmed := confirmed + 1;
      } else {
        refused := refused + 1;
      }
    }

    /** ISC_READ: the reply is the row of the read scan before. */
    method ReadScan(iData: seq<byte>) returns (oData: seq<byte>)
      requires Valid() && |iData| == dReg + 2
      modifies this`device
      ensures Valid()
      ensures |oData| == dReg + 2 && oData[..dReg] == old(device.latch)
      ensures device == Latched(old(device), dReg, iData)
    {
      hide Address;
      oData := device.latch + iData[dReg..];
      device := Latched(device, dReg, iData);
    }

    /** Fuses from idx on, bitlen to a byte. */
    method LoadRow(file: Jedec.JedecFile, idx: nat, bitlen: nat, iData: seq<byte>)
        returns (ok: bool, row: seq<byte>, next: nat)
      requires Valid() && file.Valid() && 1 <= bitlen <= 8 && |iData| == dReg + 2
      ensures ok == (idx + dReg * bitlen <= |file.Fuses()|)
      ensures |row| == |iData|
      ensures ok ==> next == idx + dReg * bitlen && row[..dReg] == RowOf(file.Fuses()[idx..next], bitlen)
    {
      hide Sound, RowOf, Jedec.JedecFile.Fuses, Jedec.JedecFile.Valid;
      row, next := iData, idx;
      ghost var fuses := file.Fuses();
      RowOfNothing(bitlen);
      assert idx <= |fuses| ==> fuses[idx..idx] == [];
      for j := 0 to dReg
        invariant |row| == dReg + 2 && next == idx + j * bitlen
        invariant j > 0 ==> next <= |fuses|
        invariant next <= |fuses| ==> row[..j] == RowOf(fuses[idx..next], bitlen)
      {
        Products(j, dReg, bitlen);
        ghost var start := next;
        var fits, data := LoadByte(file, next, bitlen);
        if !fits {
          return false, row, next;
        }
        next := next + bitlen;
        RowGrows(fuses, idx, start, bitlen, row, j, data);
        row := row[j := data];
      }
      ok := true;
    }

    method LoadByte(file: Jedec.JedecFile, idx: nat, bitlen: nat) returns (ok: bool, data: byte)
      requires file.Valid() && 1 <= bitlen <= 8
      ensures ok == (idx + bitlen <= |file.Fuses()|)
      ensures ok ==> data == NumberOf(file.Fuses()[idx..idx + bitlen])
    {
      hide Sound, Jedec.JedecFile.Fuses, Jedec.JedecFile.Valid, Weight, NumberOf;
      NoBits();
      ghost var fuses := file.Fuses();
      data := 0;
      assert idx <= |fuses| ==> fuses[idx..idx] == [];
      for i := 0 to bitlen
        invariant i > 0 ==> idx + i <= |fuses|
        invariant if idx + i <= |fuses| then data == NumberOf(fuses[idx..idx + i]) else data == 0
      {
        var fuse := file.GetFuse(idx + i);
        if fuse.OutOfRange? {
          return false, data;
        }
        ByteGrows(fuses, idx, i, fuse.v);
        data := data + Weight(fuse.v, i);
      }
      ok := true;
    }

    /** Asks up to 32 times whether the sector has been written. */
    method CommitSector(iData: seq<byte>) returns (ok: bool)
      requires Valid() && |iData| == dReg + 2
      modifies this
      ensures Valid() && device == old(device)
      ensures confirmed == old(confirmed) + (if ok then 1 else 0)
      ensures if ok then old(refused) <= refused < old(refused) + 32 else refused == old(refused) + 32
    {
      hide Sound;
      var k := 0;
      ok := false;
      while k < 32 && !ok
        invariant k <= 32 && (ok ==> k > 0) && Valid() && device == old(device)
        invariant confirmed == old(confirmed) + (if ok then 1 else 0)
        invariant refused == old(refused) + (if ok then k - 1 else k)
      {
        ProgramScan(0x00, iData);
        var status := StatusScan();
        ok := status == 1;
        k := k + 1;
      }
    }

    /** Programs the rows in order; the last row of a sector has it written. */
    method FlowArrayProgram(file: Jedec.JedecFile) returns (r: Outcome)
      requires Valid() && file.Valid()
      modifies this
      ensures Valid()
      ensures confirmed >= old(confirmed)
      ensures ProgramEnds(old(device), device, file.Fuses(), dReg, confirmed - old(confirmed), r)
      ensures r == Failed ==> refused >= old(refused) + 32
    {
      hide Sound, Jedec.JedecFile.Fuses, Jedec.JedecFile.Valid, ProgramAt, ProgramEnds, Address, Width, RowOf,
           Programmed, Addressed;
      ghost var before, fuses := device, file.Fuses();
      var idx := 0;
      var iData: seq<byte> := seq(dReg + 2, _ => 0);
      ProgramBegins(before, fuses, dReg);
      for sec := 0 to SECTORS
        invariant Valid() && |iData| == dReg + 2
        invariant ProgramAt(before, device, fuses, dReg, sec * 15, idx)
        invariant confirmed == old(confirmed) + sec && refused >= old(refused)
      {
        var preamble := 0x01;
        for l := 0 to 3
          invariant Valid() && |iData| == dReg + 2 && (l < 3 ==> preamble == 0x01)
          invariant ProgramAt(before, device, fuses, dReg, sec * 15 + l * 5, idx)
          invariant confirmed == old(confirmed) + sec + (if l == 3 then 1 else 0) && refused >= old(refused)
        {
          for m := 0 to 5
            invariant Valid() && |iData| == dReg + 2 && (l < 2 || m < 5 ==> preamble == 0x01)
            invariant ProgramAt(before, device, fuses, dReg, sec * 15 + l * 5 + m, idx)
            invariant confirmed == old(confirmed) + sec + (if l == 2 && m == 5 then 1 else 0) && refused >= old(refused)
          {
            ghost var t := sec * 15 + l * 5 + m;
            RowOfCounters(sec, l, m);
            var bitlen := if l * 5 + m >= 9 then 6 else 8;
            WidthHere(t, l * 5 + m);
            var ok, row, next := LoadRow(file, idx, bitlen, iData);
            if !ok {
              ProgramThrows(before, device, fuses, dReg, t, idx, sec);
              return Threw;
            }
            iData := WithAddress(row, dReg, sec * 0x20 + l * 0x08 + m);
            AddressedNow(iData, dReg, t);
            if l == 2 && m == 4 {
              preamble := 0x03;
            }
            ProgramStep(before, device, fuses, dReg, t, idx, preamble, iData);
            ProgramScan(preamble, iData);
            idx := next;
            if l == 2 && m == 4 {
              preamble := 0x00;
              var written := CommitSector(iData);
              if !written {
                ProgramFails(before, device, fuses, dReg, t + 1, idx, sec);
                return Failed;
              }
            }
          }
        }
      }
      ProgramSucceeds(before, device, fuses, dReg, idx);
      return Ok;
    }

    /** Takes a row into the file. */
    method StoreRow(file: Jedec.JedecFile, idx: nat, oData: seq<byte>, bitlen: nat) returns (next: nat)
      requires Valid() && file.Valid() && 1 <= bitlen <= 8 && |oData| == dReg + 2
      requires idx + |RowBits(oData[..dReg], bitlen)| <= |file.Fuses()|
      modifies file.fuseList
      ensures file.Valid() && next == idx + |RowBits(oData[..dReg], bitlen)|
      ensures file.Fuses() == Patch(old(file.Fuses()), idx, RowBits(oData[..dReg], bitlen))
    {
      hide Sound, Jedec.JedecFile.Fuses, Jedec.JedecFile.Valid, RowBits, Patch, Bit, ShiftRight, SetByteBit, LowBits;
      ghost var fuses, row := file.Fuses(), oData[..dReg];
      ghost var got: BitString := [];
      next := idx;
      RowBitsBegin(row, bitlen);
      RowBitsLength(row, bitlen);
      PatchNothing(fuses, idx);
      for j := 0 to dReg
        invariant file.Valid() && got == RowBits(row[..j], bitlen)
        invariant |got| == j * bitlen && next == idx + |got| <= |fuses|
        invariant file.Fuses() == Patch(fuses, idx, got)
      {
        Products(j, dReg, bitlen);
        RowBitsGrow(row, j, bitlen);
        var data := oData[j];
        ghost var base := got;
        NothingShifted(data);
        for i := 0 to bitlen
          invariant file.Valid() && got == base + LowBits(row[j], i)
          invariant data == ShiftRight(row[j], i)
          invariant next == idx + |got| <= |fuses|
          invariant file.Fuses() == Patch(fuses, idx, got)
        {
          NextLowBit(row[j], i);
          PatchOne(fuses, idx, got, Bit(data, 0));
          var ok := file.SetFuse(next, Bit(data, 0));
          got := got + [Bit(data, 0)];
          data := data / 2;
          next := next + 1;
        }
      }
      assert row[..dReg] == row;
    }

    /** Fills a map that has room for exactly the array. */
    method FlowArrayRead(file: Jedec.JedecFile)
      requires Valid() && file.Valid() && |file.Fuses()| == 108 * 108 * dReg
      modifies this`device, file.fuseList
      ensures Valid() && device.rows == old(device.rows)
      ensures file.Valid() && file.Fuses() == ArrayBits(device.rows, ROWS)
    {
      hide Sound, Jedec.JedecFile.Fuses, Jedec.JedecFile.Valid, ReadAt, Address, Width, ArrayBits, Taken, Addressed,
           Latched, RowBits, Start, Patch;
      ghost var rows, fuses := device.rows, file.Fuses();
      var idx, bitlen: nat := 0, 0;  // bitlen is uninitialised in the source
      var iData: seq<byte> := seq(dReg + 2, _ => 0);
      TotalFuses(dReg);
      ReadBegins(device, dReg, bitlen);
      PatchNothing(fuses, 0);
      for sec := 0 to SECTORS
        invariant Valid() && file.Valid() && device.rows == rows && |iData| == dReg + 2
        invariant ReadAt(device, dReg, sec * 15, idx, bitlen) && (sec > 0 ==> Addressed(iData, dReg, sec * 15 - 1))
        invariant |Taken(rows, sec * 15)| <= |fuses| && file.Fuses() == Patch(fuses, 0, Taken(rows, sec * 15))
      {
        for l := 0 to 3
          invariant Valid() && file.Valid() && device.rows == rows && |iData| == dReg + 2
          invariant ReadAt(device, dReg, sec * 15 + l * 5, idx, bitlen)
          invariant l > 0 ==> Addressed(iData, dReg, sec * 15 + l * 5 - 1)
          invariant |Taken(rows, sec * 15 + l * 5)| <= |fuses|
          invariant file.Fuses() == Patch(fuses, 0, Taken(rows, sec * 15 + l * 5))
        {
          for m := 0 to 5
            invariant Valid() && file.Valid() && device.rows == rows && |iData| == dReg + 2
            invariant ReadAt(device, dReg, sec * 15 + l * 5 + m, idx, bitlen)
            invariant m > 0 ==> Addressed(iData, dReg, sec * 15 + l * 5 + m - 1)
            invariant |Taken(rows, sec * 15 + l * 5 + m)| <= |fuses|
            invariant file.Fuses() == Patch(fuses, 0, Taken(rows, sec * 15 + l * 5 + m))
          {
            ghost var t := sec * 15 + l * 5 + m;
            RowOfCounters(sec, l, m);
            iData := WithAddress(iData, dReg, sec * 0x20 + l * 0x08 + m);
            AddressedNow(iData, dReg, t);
            ReadStep(device, dReg, t, iData);
            ghost var was := device;
            var oData := ReadScan(iData);
            if sec != 0 || l != 0 || m != 0 {
              ReadTakes(was, dReg, t, idx, bitlen);
              PatchAppend(fuses, 0, Taken(rows, t), RowBits(was.latch, bitlen));
              idx := StoreRow(file, idx, oData, bitlen);
            } else {
              ReadFirst(was, dReg, idx, bitlen);
            }
            bitlen := if l * 5 + m >= 9 then 6 else 8;
            WidthHere(t, l * 5 + m);
          }
        }
      }
      // the row addressed last, its scan sent once more
      ReadAgain(device, dReg, idx, bitlen, iData);
      ReadTakes(device, dReg, ROWS, idx, bitlen);
      PatchAppend(fuses, 0, Taken(rows, ROWS), RowBits(device.latch, bitlen));
      var oData := ReadScan(iData);
      idx := StoreRow(file, idx, oData, bitlen);
      PatchAll(fuses, ArrayBits(rows, ROWS));
    }

    /** The whole array, read into a map made to its size. */
    method ArrayRead(file: Jedec.JedecFile)
      requires Valid() && file.Valid()
      modifies this`device, file`fuseList, file`fuseCount, file`listed, file.fuseList
      ensures Valid() && device.rows == old(device.rows)
      ensures file.Valid() && file.fuseCount == 108 * 108 * dReg
      ensures file.Fuses() == ArrayBits(device.rows, ROWS)
    {
      hide Sound, Jedec.JedecFile.Valid, ArrayBits;
      file.SetLength(108 * 108 * dReg);
      FlowArrayRead(file);
    }

    /** Compares the fuses from idx on with a row, stopping at the first difference. */
    method CompareRow(file: Jedec.JedecFile, idx: nat, oData: seq<byte>, bitlen: nat) returns (r: Outcome, next: nat)
      requires Valid() && file.Valid() && 1 <= bitlen <= 8 && |oData| == dReg + 2
      ensures r == Verdict(file.Fuses(), idx, RowBits(oData[..dReg], bitlen))
      ensures r == Ok ==> next == idx + |RowBits(oData[..dReg], bitlen)|
    {
      hide Sound, Jedec.JedecFile.Fuses, Jedec.JedecFile.Valid, RowBits, Verdict, Bit, ShiftRight, LowBits;
      ghost var fuses, row := file.Fuses(), oData[..dReg];
      ghost var got: BitString := [];
      next := idx;
      RowBitsBegin(row, bitlen);
      VerdictNothing(fuses, idx);
      for j := 0 to dReg
        invariant got == RowBits(row[..j], bitlen) && next == idx + |got|
        invariant Verdict(fuses, idx, got) == Ok
      {
        RowBitsGrow(row, j, bitlen);
        var data := oData[j];
        ghost var base := got;
        NothingShifted(data);
        for i := 0 to bitlen
          invariant got == base + LowBits(row[j], i) && next == idx + |got|
          invariant data == ShiftRight(row[j], i)
          invariant Verdict(fuses, idx, got) == Ok
        {
          NextLowBit(row[j], i);
          var v := Bit(data, 0);
          VerdictAppend(fuses, idx, got, [v]);
          VerdictOne(fuses, next, v);
          var fuse := file.GetFuse(next);
          if fuse.OutOfRange? || fuse.v != v {
            r := if fuse.OutOfRange? then Threw else Failed;
            assert got + [v] == RowBits(row[..j], bitlen) + LowBits(row[j], i + 1);
            VerdictOfRow(fuses, idx, row, bitlen, j, i);
            return;
          }
          got := got + [v];
          data := data / 2;
          next := next + 1;
        }
      }
      assert row[..dReg] == row;
      r := Ok;
    }

    /** Compares the device with the file. */
    method FlowArrayVerify(file: Jedec.JedecFile) returns (r: Outcome)
      requires Valid() && file.Valid()
      modifies this`device
      ensures Valid() && device.rows == old(device.rows)
      ensures r == Verdict(file.Fuses(), 0, ArrayBits(device.rows, ROWS))
    {
      hide Sound, Jedec.JedecFile.Fuses, Jedec.JedecFile.Valid, ReadAt, Address, Width, ArrayBits, Taken, Addressed,
           Latched, RowBits, Start, Verdict;
      ghost var rows, fuses := device.rows, file.Fuses();
      var idx, bitlen: nat := 0, 0;  // bitlen is uninitialised in the source
      var iData: seq<byte> := seq(dReg + 2, _ => 0);
      ReadBegins(device, dReg, bitlen);
      VerdictNothing(fuses, 0);
      for sec := 0 to SECTORS
        invariant Valid() && device.rows == rows && |iData| == dReg + 2
        invariant ReadAt(device, dReg, sec * 15, idx, bitlen) && (sec > 0 ==> Addressed(iData, dReg, sec * 15 - 1))
        invariant Verdict(fuses, 0, Taken(rows, sec * 15)) == Ok
      {
        for l := 0 to 3
          invariant Valid() && device.rows == rows && |iData| == dReg + 2
          invariant ReadAt(device, dReg, sec * 15 + l * 5, idx, bitlen)
          invariant l > 0 ==> Addressed(iData, dReg, sec * 15 + l * 5 - 1)
          invariant Verdict(fuses, 0, Taken(rows, sec * 15 + l * 5)) == Ok
        {
          for m := 0 to 5
            invariant Valid() && device.rows == rows && |iData| == dReg + 2
            invariant ReadAt(device, dReg, sec * 15 + l * 5 + m, idx, bitlen)
            invariant m > 0 ==> Addressed(iData, dReg, sec * 15 + l * 5 + m - 1)
            invariant Verdict(fuses, 0, Taken(rows, sec * 15 + l * 5 + m)) == Ok
          {
            ghost var t := sec * 15 + l * 5 + m;
            RowOfCounters(sec, l, m);
            iData := WithAddress(iData, dReg, sec * 0x20 + l * 0x08 + m);
            AddressedNow(iData, dReg, t);
            ReadStep(device, dReg, t, iData);
            ghost var was := device;
            var oData := ReadScan(iData);
            if sec != 0 || l != 0 || m != 0 {
              ReadTakes(was, dReg, t, idx, bitlen);
              VerdictAppend(fuses, 0, Taken(rows, t), RowBits(was.latch, bitlen));
              r, idx := CompareRow(file, idx, oData, bitlen);
              if r != Ok {
                VerdictStands(fuses, rows, t, ROWS);
                return;
              }
            } else {
              ReadFirst(was, dReg, idx, bitlen);
            }
            bitlen := if l * 5 + m >= 9 then 6 else 8;
            WidthHere(t, l * 5 + m);
          }
        }
      }
      // the row addressed last, its scan sent once more
      ReadAgain(device, dReg, idx, bitlen, iData);
      ReadTakes(device, dReg, ROWS, idx, bitlen);
      VerdictAppend(fuses, 0, Taken(rows, ROWS), RowBits(device.latch, bitlen));
      var oData := ReadScan(iData);
      r, idx := CompareRow(file, idx, oData, bitlen);
    }
  }
}
