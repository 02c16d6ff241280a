/**
 * mapfile_xc2c.cpp: the permutation between the fuse numbers of a JEDEC file and the bits of a
 * CoolRunner-II programming image.
 */
module FuseMap {
  import opened Bits
  import opened Flash
  import opened Pages
  import opened BitFiles
  import opened Jedec

  /** A map entry that is no fuse: a transfer bit, which is programmed as 0, or any other bit, programmed as 1. */
  const TRANSFER: int := -1

  // ---- Which bit, which entry ----

  /** A device's image: `num` blocks of `size` bits, and the entry for each bit. */
  datatype Geometry = Geometry(size: nat, num: nat, entries: seq<int>)

  function Total(g: Geometry): nat {
    g.size * g.num
  }

  predicate Sound(g: Geometry) {
    g.size > 0 && g.num > 0 && |g.entries| >= Total(g)
  }

  /** The bit that entry j of block i stands for. */
  function BitNumber(g: Geometry, i: nat, j: nat): int {
    (i + 1) * g.size - j - 1
  }

  function MapIndex(g: Geometry, i: nat, j: nat): nat {
    j * g.num + i
  }

  /** The block and the entry in it that a bit belongs to. */
  function BlockOf(g: Geometry, b: nat): nat
    requires g.size > 0
  {
    b / g.size
  }

  function PlaceIn(g: Geometry, b: nat): (j: nat)
    requires g.size > 0
    ensures j < g.size
  {
    g.size - 1 - b % g.size
  }

  /** The entry of a bit. */
  function EntryOf(g: Geometry, b: nat): int
    requires g.size > 0
  {
    var m := MapIndex(g, BlockOf(g, b), PlaceIn(g, b));
    if m < |g.entries| then g.entries[m] else 0
  }

  /** Each bit belongs to exactly one entry of one block, and each such pair to one bit and one map cell. */
  lemma EveryBitOnce(g: Geometry, i: nat, j: nat)
    requires Sound(g) && i < g.num && j < g.size
    ensures 0 <= BitNumber(g, i, j) < Total(g)
    ensures BlockOf(g, BitNumber(g, i, j)) == i && PlaceIn(g, BitNumber(g, i, j)) == j
    ensures MapIndex(g, i, j) < Total(g)
    ensures EntryOf(g, BitNumber(g, i, j)) == g.entries[MapIndex(g, i, j)]
  {
    hide Total;
    TotalBounds(g, i, j);
    NextMultiple(i, g.size);
    DivideUnique(BitNumber(g, i, j), g.size, i, g.size - 1 - j);
  }

  lemma TotalBounds(g: Geometry, i: nat, j: nat)
    requires i < g.num && j < g.size
    ensures j * g.num + i < Total(g) && 0 < (i + 1) * g.size <= Total(g)
  {
    BelowMultiple(j, i, g.size, g.num);
    MultiplesAscend(i + 1, g.num, g.size);
    NextMultiple(i, g.size);
  }

  lemma EveryBitHasPlace(g: Geometry, b: nat)
    requires Sound(g) && b < Total(g)
    ensures BlockOf(g, b) < g.num && BitNumber(g, BlockOf(g, b), PlaceIn(g, b)) == b
  {
    Euclid(b, g.size);
    QuotientBelow(b / g.size, b % g.size, g.num, g.size);
    NextMultiple(b / g.size, g.size);
  }

  /** The bits the loops have been through before entry j of block i. */
  predicate Passed(g: Geometry, i: nat, j: nat, b: nat) {
    b < i * g.size || BitNumber(g, i, j) < b < (i + 1) * g.size
  }

  lemma PassedStep(g: Geometry, i: nat, j: nat, b: nat)
    requires Sound(g) && i < g.num && j < g.size
    ensures Passed(g, i, j + 1, b) <==> Passed(g, i, j, b) || b == BitNumber(g, i, j)
    ensures !Passed(g, i, j, BitNumber(g, i, j))
  {
    NextMultiple(i, g.size);
  }

  lemma PassedBlock(g: Geometry, i: nat, b: nat)
    ensures Passed(g, i, g.size, b) <==> b < (i + 1) * g.size
    ensures Passed(g, i, 0, b) <==> b < i * g.size
  {
    NextMultiple(i, g.size);
  }

  // ---- What the conversions mean ----

  /** The programming bit for a map entry. */
  function BitFor(entry: int, fuses: BitString): bool {
    if 0 <= entry < |fuses| then fuses[entry] else entry != TRANSFER
  }

  /** The image of a fuse map. */
  function Scattered(g: Geometry, fuses: BitString): (r: BitString)
    requires g.size > 0
    ensures |r| == Total(g)
  {
    seq(Total(g), b requires 0 <= b < Total(g) => BitFor(EntryOf(g, b), fuses))
  }

  /** No fuse has two bits. */
  ghost predicate Injective(g: Geometry) {
    g.size > 0 && forall a, b :: 0 <= a < Total(g) && 0 <= b < Total(g) && EntryOf(g, a) == EntryOf(g, b) >= 0 ==>
      a == b
  }

  /** Some bit stands for fuse e. */
  ghost predicate HasBit(g: Geometry, e: int)
    requires g.size > 0
  {
    exists b :: 0 <= b < Total(g) && EntryOf(g, b) == e
  }

  /** Exactly the fuses 0..top have a bit. */
  ghost predicate Onto(g: Geometry, top: nat) {
    g.size > 0
    && (forall b :: 0 <= b < Total(g) ==> EntryOf(g, b) <= top)
    && (forall e :: 0 <= e <= top ==> HasBit(g, e))
  }

  /** What the reading back leaves: every fuse with a bit has that bit's value. */
  ghost predicate Gathered(g: Geometry, bits: BitString, fuses: BitString) {
    g.size > 0 && |bits| == Total(g)
    && forall b :: 0 <= b < Total(g) && EntryOf(g, b) >= 0 ==>
      EntryOf(g, b) < |fuses| && fuses[EntryOf(g, b)] == bits[b]
  }

  /** In any map, every fuse with a bit has the value of one of its bits. */
  ghost predicate GatheredFrom(g: Geometry, bits: BitString, fuses: BitString) {
    g.size > 0 && |bits| == Total(g)
    && forall b :: 0 <= b < Total(g) && EntryOf(g, b) >= 0 ==> HasValue(g, bits, fuses, EntryOf(g, b))
  }

  ghost predicate HasValue(g: Geometry, bits: BitString, fuses: BitString, e: nat)
    requires g.size > 0 && |bits| == Total(g)
  {
    e < |fuses| && exists a :: 0 <= a < Total(g) && EntryOf(g, a) == e && fuses[e] == bits[a]
  }

  lemma InjectiveGathers(g: Geometry, bits: BitString, fuses: BitString)
    requires GatheredFrom(g, bits, fuses) && Injective(g)
    ensures Gathered(g, bits, fuses)
  {
    hide EntryOf, Total;
  }

  /** To the image and back: every fuse with a bit comes back, as set if the file did not have it. */
  lemma RoundTrip(g: Geometry, fuses: BitString, back: BitString)
    requires g.size > 0 && GatheredFrom(g, Scattered(g, fuses), back)
    ensures forall e: nat :: HasBit(g, e) ==> e < |back| && back[e] == if e < |fuses| then fuses[e] else true
  {
    hide EntryOf, Total;
    forall e: nat | HasBit(g, e)
      ensures e < |back| && back[e] == if e < |fuses| then fuses[e] else true
    {
      var b :| 0 <= b < Total(g) && EntryOf(g, b) == e;
      assert HasValue(g, Scattered(g, fuses), back, e);
      forall a: nat | a < Total(g) && EntryOf(g, a) == e
        ensures Scattered(g, fuses)[a] == BitFor(e, fuses)
      {
      }
    }
  }

  /** The whole map comes back exactly when it has as many fuses as the geometry has bits for. */
  lemma RoundTripExactlyWhen(g: Geometry, fuses: BitString, back: BitString, top: nat)
    requires Onto(g, top) && |back| == top + 1
    requires GatheredFrom(g, Scattered(g, fuses), back)
    ensures back == fuses <==> |fuses| == top + 1
  {
    hide EntryOf, Total, GatheredFrom, HasBit;
    RoundTrip(g, fuses, back);
  }

  // ---- Which bit is which fuse, by block and entry ----

  /** Entry j of block i is in cell j * num + i of the map, and stands for bit (i + 1) * size - j - 1 of the image. */
  ghost predicate CellWritten(g: Geometry, fuses: BitString, image: BitString, i: nat, j: nat)
    requires i < g.num && j < g.size
  {
    var (cell, bit) := (j * g.num + i, (i + 1) * g.size - j - 1);
    && cell < |g.entries| && 0 <= bit < |image|
    && image[bit] == (if 0 <= g.entries[cell] < |fuses| then fuses[g.entries[cell]] else g.entries[cell] != -1)
  }

  /** That bit, read back, is in the fuse, or another bit of the same fuse is. */
  ghost predicate CellRead(g: Geometry, image: BitString, fuses: BitString, i: nat, j: nat)
    requires i < g.num && j < g.size
  {
    var (cell, bit) := (j * g.num + i, (i + 1) * g.size - j - 1);
    && cell < |g.entries| && 0 <= bit < |image|
    && (g.entries[cell] >= 0 ==>
          && g.entries[cell] < |fuses|
          && (fuses[g.entries[cell]] == image[bit] || SharesFuse(g, i, j)))
  }

  /** Another cell of the map has the entry of this one. */
  ghost predicate SharesFuse(g: Geometry, i: nat, j: nat)
    requires i < g.num && j < g.size
  {
    exists k: nat, l: nat :: k < g.num && l < g.size && (k, l) != (i, j) && SameFuse(g, i, j, k, l)
  }

  ghost predicate SameFuse(g: Geometry, i: nat, j: nat, k: nat, l: nat) {
    var (a, b) := (j * g.num + i, l * g.num + k);
    a < |g.entries| && b < |g.entries| && g.entries[a] == g.entries[b]
  }

  /** The image of a fuse map, bit by bit. */
  lemma WrittenByPlace(g: Geometry, fuses: BitString, i: nat, j: nat)
    requires Sound(g) && i < g.num && j < g.size
    ensures CellWritten(g, fuses, Scattered(g, fuses), i, j)
  {
    EveryBitOnce(g, i, j);
  }

  lemma ReadByPlace(g: Geometry, image: BitString, fuses: BitString, i: nat, j: nat)
    requires Sound(g) && GatheredFrom(g, image, fuses) && i < g.num && j < g.size
    ensures CellRead(g, image, fuses, i, j)
  {
    hide EntryOf, Total, SharesFuse;
    EveryBitOnce(g, i, j);
    var (b, e) := (BitNumber(g, i, j), g.entries[MapIndex(g, i, j)]);
    if e >= 0 && fuses[e] != image[b] {
      assert HasValue(g, image, fuses, e);
      var a :| 0 <= a < Total(g) && EntryOf(g, a) == e && fuses[e] == image[a];
      OtherPlace(g, i, j, a);
    }
  }

  /** A different bit with the same entry is in a different place. */
  lemma OtherPlace(g: Geometry, i: nat, j: nat, a: nat)
    requires Sound(g) && i < g.num && j < g.size && a < Total(g)
    requires a != BitNumber(g, i, j) && EntryOf(g, a) == EntryOf(g, BitNumber(g, i, j))
    ensures SharesFuse(g, i, j)
  {
    hide EntryOf, Total;
    var (k, l) := (BlockOf(g, a), PlaceIn(g, a));
    EveryBitHasPlace(g, a);
    EveryBitOnce(g, i, j);
    EveryBitOnce(g, k, l);
    assert SameFuse(g, i, j, k, l);
  }

  // ---- The conversions ----

  /** The image has the bits passed so far, and ones elsewhere. */
  ghost predicate Scattering(g: Geometry, fuses: BitString, i: nat, j: nat, data: seq<byte>) {
    && Sound(g) && |data| == BytesFor(Total(g))
    && forall b :: 0 <= b < Total(g) ==>
      BitAt(data, b) == if Passed(g, i, j, b) then BitFor(EntryOf(g, b), fuses) else true
  }

  lemma ScatteringBegins(g: Geometry, fuses: BitString, data: seq<byte>)
    requires Sound(g) && data == Repeat<byte>(BLANK, BytesFor(Total(g)))
    ensures Scattering(g, fuses, 0, 0, data)
  {
    hide Bit, Total, EntryOf;
    forall b | 0 <= b < Total(g)
      ensures BitAt(data, b) && !Passed(g, 0, 0, b)
    {
      AllBits(true, b % 8);
      PassedBlock(g, 0, b);
    }
  }

  lemma ScatteringStep(g: Geometry, fuses: BitString, i: nat, j: nat, data: seq<byte>, v: bool)
    requires Scattering(g, fuses, i, j, data) && i < g.num && j < g.size
    requires 0 <= BitNumber(g, i, j) && BitNumber(g, i, j) / 8 < |data|
    requires v == BitFor(EntryOf(g, BitNumber(g, i, j)), fuses)
    ensures var n := BitNumber(g, i, j);
      Scattering(g, fuses, i, j + 1, data[n / 8 := SetByteBit(data[n / 8], n % 8, v)])
  {
    hide Bit, SetBit, Total, EntryOf, BitFor, Passed;
    var n := BitNumber(g, i, j);
    var after := data[n / 8 := SetByteBit(data[n / 8], n % 8, v)];
    forall b | 0 <= b < Total(g)
      ensures BitAt(after, b) == if Passed(g, i, j + 1, b) then BitFor(EntryOf(g, b), fuses) else true
    {
      PassedStep(g, i, j, b);
      SetBitBits(data[n / 8], n % 8, v, b % 8);
      SamePlace(b, n);
    }
  }

  lemma SamePlace(a: nat, b: nat)
    ensures a / 8 == b / 8 && a % 8 == b % 8 ==> a == b
  {
  }

  lemma ScatteringBlock(g: Geometry, fuses: BitString, i: nat, data: seq<byte>)
    requires Scattering(g, fuses, i, g.size, data)
    ensures Scattering(g, fuses, i + 1, 0, data)
  {
    hide Bit, Total, EntryOf, BitFor, Passed;
    forall b | 0 <= b < Total(g)
      ensures Passed(g, i, g.size, b) <==> Passed(g, i + 1, 0, b)
    {
      PassedBlock(g, i, b);
      PassedBlock(g, i + 1, b);
    }
  }

  lemma ScatteringEnds(g: Geometry, fuses: BitString, data: seq<byte>)
    requires Scattering(g, fuses, g.num, 0, data)
    ensures BitsOf(data, Total(g)) == Scattered(g, fuses)
  {
    hide Bit, EntryOf, BitFor, Passed;
    forall b | 0 <= b < Total(g)
      ensures Passed(g, g.num, 0, b)
    {
      PassedBlock(g, g.num, b);
    }
  }

  /** Fuse e has the value of a bit that has been passed. */
  ghost predicate Held(g: Geometry, data: seq<byte>, i: nat, j: nat, fuses: BitString, e: nat) {
    g.size > 0 && e < |fuses|
    && exists a :: 0 <= a < Total(g) && HeldBy(g, data, i, j, fuses, e, a)
  }

  ghost predicate HeldBy(g: Geometry, data: seq<byte>, i: nat, j: nat, fuses: BitString, e: nat, a: nat)
    requires g.size > 0 && e < |fuses|
  {
    Passed(g, i, j, a) && a / 8 < |data| && EntryOf(g, a) == e && fuses[e] == BitAt(data, a)
  }

  /** The fuses whose bits have been passed are set, and `maxnum` is the highest of them. */
  ghost predicate Gathering(g: Geometry, data: seq<byte>, i: nat, j: nat, fuses: BitString, maxnum: nat) {
    && Sound(g) && maxnum < |fuses| == Total(g)
    && (forall b :: 0 <= b < Total(g) && Passed(g, i, j, b) ==>
          && b / 8 < |data|
          && (EntryOf(g, b) >= 0 ==> EntryOf(g, b) <= maxnum && Held(g, data, i, j, fuses, EntryOf(g, b))))
    && (maxnum > 0 ==> HasBit(g, maxnum))
  }

  lemma GatheringBegins(g: Geometry, data: seq<byte>, fuses: BitString)
    requires Sound(g) && |fuses| == Total(g)
    ensures Gathering(g, data, 0, 0, fuses, 0)
  {
    hide Bit, Total, EntryOf;
    TotalPositive(g);
    forall b | 0 <= b < Total(g)
      ensures !Passed(g, 0, 0, b)
    {
      PassedBlock(g, 0, b);
    }
  }

  /** What the loop body makes of the bit at n. */
  lemma GatheringStep(g: Geometry, data: seq<byte>, i: nat, j: nat, n: nat, fuses: BitString, maxnum: nat,
                      now: BitString, top: nat)
    requires Gathering(g, data, i, j, fuses, maxnum) && i < g.num && j < g.size
    requires n == BitNumber(g, i, j) && n < Total(g) && n / 8 < |data|
    requires var e := EntryOf(g, n);
      if e < 0 then now == fuses && top == maxnum
      else e < |fuses| && now == fuses[e := BitAt(data, n)] && top == if e > maxnum then e else maxnum
    ensures Gathering(g, data, i, j + 1, now, top)
  {
    hide Bit, Total, EntryOf, Passed, BitNumber, HasBit, BitAt, Held;
    forall b | 0 <= b < Total(g) && Passed(g, i, j + 1, b)
      ensures b / 8 < |data|
      ensures EntryOf(g, b) >= 0 ==> EntryOf(g, b) <= top && Held(g, data, i, j + 1, now, EntryOf(g, b))
    {
      PassedStep(g, i, j, b);
      PassedStep(g, i, j, n);
      if EntryOf(g, b) >= 0 {
        if EntryOf(g, b) == EntryOf(g, n) {
          HeldNow(g, data, i, j + 1, now, EntryOf(g, n), n);
        } else {
          HeldStill(g, data, i, j, n, fuses, now, EntryOf(g, b));
        }
      }
    }
    if EntryOf(g, n) >= 0 {
      FuseHasBit(g, n);
    }
  }

  lemma HeldNow(g: Geometry, data: seq<byte>, i: nat, j: nat, now: BitString, e: nat, n: nat)
    requires g.size > 0 && n < Total(g) && n / 8 < |data| && EntryOf(g, n) == e < |now| && now[e] == BitAt(data, n)
    requires Passed(g, i, j, n)
    ensures Held(g, data, i, j, now, e)
  {
    hide Bit, Total, EntryOf, Passed;
    assert HeldBy(g, data, i, j, now, e, n);
  }

  lemma HeldStill(g: Geometry, data: seq<byte>, i: nat, j: nat, n: nat, fuses: BitString, now: BitString, e: nat)
    requires Sound(g) && i < g.num && j < g.size && n == BitNumber(g, i, j) && Held(g, data, i, j, fuses, e)
    requires e < |now| && now[e] == fuses[e]
    ensures Held(g, data, i, j + 1, now, e)
  {
    hide Bit, Total, EntryOf, Passed, BitNumber;
    var a :| 0 <= a < Total(g) && HeldBy(g, data, i, j, fuses, e, a);
    PassedStep(g, i, j, a);
    assert HeldBy(g, data, i, j + 1, now, e, a);
  }

  lemma FuseHasBit(g: Geometry, b: nat)
    requires g.size > 0 && b < Total(g)
    ensures HasBit(g, EntryOf(g, b))
  {
  }

  lemma GatheringBlock(g: Geometry, data: seq<byte>, i: nat, fuses: BitString, maxnum: nat)
    requires Gathering(g, data, i, g.size, fuses, maxnum)
    ensures Gathering(g, data, i + 1, 0, fuses, maxnum)
  {
    hide Bit, BitAt, Total, EntryOf, Passed, HasBit, Held;
    forall b | 0 <= b < Total(g) && Passed(g, i + 1, 0, b)
      ensures b / 8 < |data|
      ensures EntryOf(g, b) >= 0 ==> EntryOf(g, b) <= maxnum && Held(g, data, i + 1, 0, fuses, EntryOf(g, b))
    {
      PassedBlock(g, i, b);
      PassedBlock(g, i + 1, b);
      assert Passed(g, i, g.size, b);
      if EntryOf(g, b) >= 0 {
        HeldInBlock(g, data, i, fuses, EntryOf(g, b));
      }
    }
  }

  lemma HeldInBlock(g: Geometry, data: seq<byte>, i: nat, fuses: BitString, e: nat)
    requires Held(g, data, i, g.size, fuses, e)
    ensures Held(g, data, i + 1, 0, fuses, e)
  {
    hide Bit, BitAt, Total, EntryOf, Passed;
    var a :| 0 <= a < Total(g) && HeldBy(g, data, i, g.size, fuses, e, a);
    PassedBlock(g, i, a);
    PassedBlock(g, i + 1, a);
    assert HeldBy(g, data, i + 1, 0, fuses, e, a);
  }

  lemma GatheringEnds(g: Geometry, data: seq<byte>, fuses: BitString, maxnum: nat)
    requires Gathering(g, data, g.num, 0, fuses, maxnum)
    ensures maxnum < |fuses| && Total(g) <= 8 * |data|
    ensures GatheredFrom(g, BitsOf(data, Total(g)), fuses[..maxnum + 1])
    ensures forall b :: 0 <= b < Total(g) ==> EntryOf(g, b) <= maxnum
    ensures maxnum > 0 ==> HasBit(g, maxnum)
  {
    hide Bit, BitAt, EntryOf, Passed, HasBit, Held, HasValue;
    forall b | 0 <= b < Total(g)
      ensures Passed(g, g.num, 0, b)
    {
      PassedBlock(g, g.num, b);
    }
    TotalPositive(g);
    assert Passed(g, g.num, 0, Total(g) - 1);
    forall b | 0 <= b < Total(g) && EntryOf(g, b) >= 0
      ensures HasValue(g, BitsOf(data, Total(g)), fuses[..maxnum + 1], EntryOf(g, b))
    {
      ValueAtEnd(g, data, fuses, maxnum, EntryOf(g, b));
    }
  }

  lemma ValueAtEnd(g: Geometry, data: seq<byte>, fuses: BitString, maxnum: nat, e: nat)
    requires Total(g) <= 8 * |data| && e <= maxnum < |fuses| && Held(g, data, g.num, 0, fuses, e)
    ensures HasValue(g, BitsOf(data, Total(g)), fuses[..maxnum + 1], e)
  {
    hide Bit, BitAt, Total, EntryOf, Held;
    var a := Holder(g, data, g.num, 0, fuses, e);
    assert fuses[..maxnum + 1][e] == BitsOf(data, Total(g))[a];
  }

  lemma Holder(g: Geometry, data: seq<byte>, i: nat, j: nat, fuses: BitString, e: nat) returns (a: nat)
    requires Held(g, data, i, j, fuses, e)
    ensures a < Total(g) && a / 8 < |data| && EntryOf(g, a) == e && fuses[e] == BitAt(data, a)
  {
    hide Bit, BitAt, Total, EntryOf, Passed;
    a :| 0 <= a < Total(g) && HeldBy(g, data, i, j, fuses, e, a);
  }

  lemma TotalPositive(g: Geometry)
    requires Sound(g)
    ensures Total(g) > 0
  {
    TotalBounds(g, 0, 0);
  }

  lemma AllWritten(g: Geometry, fuses: BitString, data: seq<byte>)
    requires Sound(g) && |data| == BytesFor(Total(g)) && BitsOf(data, Total(g)) == Scattered(g, fuses)
    ensures forall i: nat, j: nat :: i < g.num && j < g.size ==>
      CellWritten(g, fuses, BitsOf(data, g.size * g.num), i, j)
  {
    hide CellWritten, Scattered, BitsOf;
    forall i: nat, j: nat | i < g.num && j < g.size
      ensures CellWritten(g, fuses, BitsOf(data, Total(g)), i, j)
    {
      WrittenByPlace(g, fuses, i, j);
    }
  }

  lemma AllRead(g: Geometry, data: seq<byte>, fuses: BitString)
    requires Sound(g) && Total(g) <= 8 * |data| && GatheredFrom(g, BitsOf(data, Total(g)), fuses)
    ensures forall i: nat, j: nat :: i < g.num && j < g.size ==>
      CellRead(g, BitsOf(data, g.size * g.num), fuses, i, j)
  {
    hide CellRead, GatheredFrom, BitsOf;
    forall i: nat, j: nat | i < g.num && j < g.size
      ensures CellRead(g, BitsOf(data, Total(g)), fuses, i, j)
    {
      ReadByPlace(g, BitsOf(data, Total(g)), fuses, i, j);
    }
  }

  class MapFile {
    const geometry: Geometry

    constructor (g: Geometry)
      requires Sound(g)
      ensures geometry == g
    {
      geometry := g;
    }

    /** Fills an image of the geometry's size. */
    method Jedecfile2Bitfile(fuses: JedecFile, bits: BitFile)
      requires Sound(geometry) && Total(geometry) < WORD && fuses.Valid() && bits.Valid()
      modifies bits`buffer, bits`length
      ensures bits.Valid() && bits.length == BytesFor(Total(geometry))
      ensures BitsOf(bits.Data(), Total(geometry)) == Scattered(geometry, fuses.Fuses())
      ensures forall i: nat, j: nat :: i < geometry.num && j < geometry.size ==>
        CellWritten(geometry, fuses.Fuses(), BitsOf(bits.Data(), geometry.size * geometry.num), i, j)
    {
      hide Bit, EntryOf, BitFor, Scattering, BitNumber, MapIndex, Scattered, CellWritten, JedecFile.Fuses,
           JedecFile.Valid;
      var g := geometry;
      ghost var all := fuses.Fuses();
      bits.SetLength(Total(g));
      ScatteringBegins(g, all, bits.Data());
      for i := 0 to g.num
        invariant bits.Valid() && fresh(bits.buffer) && Scattering(g, all, i, 0, bits.Data())
      {
        for j := 0 to g.size
          invariant bits.Valid() && fresh(bits.buffer) && Scattering(g, all, i, j, bits.Data())
        {
          EveryBitOnce(g, i, j);
          ScatteringLength(g, all, i, j, bits.Data());
          var entry := g.entries[MapIndex(g, i, j)];
          var v := entry != TRANSFER;
          if entry >= 0 && entry < fuses.fuseCount {
            var fuse := fuses.GetFuse(entry);
            v := fuse.v;
          }
          BitForIs(entry, all, v);
          ScatteringStep(g, all, i, j, bits.Data(), v);
          var ok := bits.SetBit(BitNumber(g, i, j), v);
        }
        ScatteringBlock(g, all, i, bits.Data());
      }
      ScatteringLength(g, all, g.num, 0, bits.Data());
      ScatteringEnds(g, all, bits.Data());
      AllWritten(g, all, bits.Data());
    }

    /** Fills a fuse map from an image; a bit or a fuse out of range is an exception. */
    method Bitfile2Jedecfile(bits: BitFile, fuses: JedecFile) returns (ok: bool)
      requires Sound(geometry) && bits.Valid() && fuses.Valid()
      requires fuses.fuseList != bits.buffer
      modifies fuses`fuseList, fuses`fuseCount, fuses`listed, fuses.fuseList
      ensures fuses.Valid() && (fuses.fuseList == old(fuses.fuseList) || fresh(fuses.fuseList))
      ensures ok <==> Total(geometry) <= 8 * bits.length
                      && forall b :: 0 <= b < Total(geometry) ==> EntryOf(geometry, b) < Total(geometry)
      ensures ok ==>
        && fuses.fuseCount > 0
        && GatheredFrom(geometry, BitsOf(bits.Data(), Total(geometry)), fuses.Fuses())
        && (forall i: nat, j: nat :: i < geometry.num && j < geometry.size ==>
              CellRead(geometry, BitsOf(bits.Data(), geometry.size * geometry.num), fuses.Fuses(), i, j))
        && (Injective(geometry) ==> Gathered(geometry, BitsOf(bits.Data(), Total(geometry)), fuses.Fuses()))
        && (forall b :: 0 <= b < Total(geometry) ==> EntryOf(geometry, b) < fuses.fuseCount)
        && (fuses.fuseCount > 1 ==> HasBit(geometry, fuses.fuseCount - 1))
    {
      hide Bit, EntryOf, Gathering, BitNumber, MapIndex, Injective, Gathered, GatheredFrom, HasBit, CellRead,
           JedecFile.Fuses, JedecFile.Valid;
      var g := geometry;
      ghost var data := bits.Data();
      fuses.SetLength(Total(g));
      var maxnum := 0;
      GatheringBegins(g, data, fuses.Fuses());
      for i := 0 to g.num
        invariant bits.Data() == data && fuses.Valid()
                  && (fuses.fuseList == old(fuses.fuseList) || fresh(fuses.fuseList))
        invariant fuses.fuseCount == Total(g) && Gathering(g, data, i, 0, fuses.Fuses(), maxnum)
      {
        for j := 0 to g.size
          invariant bits.Data() == data && fuses.Valid()
                    && (fuses.fuseList == old(fuses.fuseList) || fresh(fuses.fuseList))
          invariant fuses.fuseCount == Total(g) && Gathering(g, data, i, j, fuses.Fuses(), maxnum)
        {
          EveryBitOnce(g, i, j);
          ghost var (n, was, before) := (BitNumber(g, i, j), fuses.Fuses(), maxnum);
          var inside, bit := bits.GetBit(BitNumber(g, i, j));
          if !inside {
            return false;
          }
          var entry := g.entries[MapIndex(g, i, j)];
          if entry >= 0 {
            if entry > maxnum {
              maxnum := entry;
            }
            var stored := fuses.SetFuse(entry, bit);
            if !stored {
              assert EntryOf(g, n) >= Total(g);
              return false;
            }
          }
          GatheringStep(g, data, i, j, n, was, before, fuses.Fuses(), maxnum);
        }
        GatheringBlock(g, data, i, fuses.Fuses(), maxnum);
      }
      GatheringEnds(g, data, fuses.Fuses(), maxnum);
      fuses.SetLength(maxnum + 1);
      AllRead(g, data, fuses.Fuses());
      if Injective(g) {
        InjectiveGathers(g, BitsOf(data, Total(g)), fuses.Fuses());
      }
      return true;
    }
  }

  lemma ScatteringLength(g: Geometry, fuses: BitString, i: nat, j: nat, data: seq<byte>)
    requires Scattering(g, fuses, i, j, data)
    ensures |data| == BytesFor(Total(g))
  {
  }

  lemma BitForIs(entry: int, fuses: BitString, v: bool)
    requires v == if 0 <= entry < |fuses| then fuses[entry] else entry != TRANSFER
    ensures v == BitFor(entry, fuses)
  {
  }
}
