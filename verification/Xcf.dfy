/**
 * progalgxcf.cpp: programming, reading and verifying a platform flash PROM in blocks of 2048 or
 * 4096 bits, each 32 address frames long.
 */
module Xcf {
  import opened Bits
  import opened Flash
  import opened Pages
  import opened BitFiles

  const FRAMES_PER_BLOCK: nat := 32
  const PROGRAM_POLLS: nat := 28

  // ---- The device ----

  /** The array, the data register with what is being shifted into it, and the address register. */
  datatype Prom = Prom(blockBytes: nat, blocks: seq<seq<byte>>, shifting: seq<byte>, data: seq<byte>, address: nat)

  ghost predicate Sound(f: Prom) {
    && f.blockBytes >= 1
    && Uniform(f.blocks, f.blockBytes)
    && |f.blocks| * 32 <= 0x10000
  }

  /** A data scan, which may come in pieces. */
  function DataShifted(f: Prom, bytes: seq<byte>, exit: bool): Prom {
    if exit then f.(data := f.shifting + bytes, shifting := []) else f.(shifting := f.shifting + bytes)
  }

  /** The block the address register selects. */
  function Selected(f: Prom): nat {
    f.address / 32
  }

  /** ISC_PROGRAM. */
  function ProgrammedBlock(f: Prom): Prom {
    var b := Selected(f);
    if b < |f.blocks| && |f.data| == |f.blocks[b]| then f.(blocks := f.blocks[b := BurnAll(f.blocks[b], f.data)]) else f
  }

  // ---- Ranges ----

  /** Where block k starts, in bytes. */
  function At(bs: nat, k: nat): nat {
    k * bs
  }

  lemma AtSteps(bs: nat, k: nat)
    ensures At(bs, k + 1) == At(bs, k) + bs && At(bs, 0) == 0
    ensures k * (8 * bs) == 8 * At(bs, k)
  {
  }

  lemma AtAdds(bs: nat, j: nat, k: nat)
    ensures At(bs, j + k) == At(bs, j) + At(bs, k)
  {
  }

  lemma AtAscends(bs: nat, j: nat, k: nat)
    requires j <= k
    ensures At(bs, j) <= At(bs, k)
  {
    AtAdds(bs, j, k - j);
  }

  lemma AtBelow(bs: nat, j: nat, k: nat)
    requires At(bs, j) < At(bs, k)
    ensures j < k
  {
    hide At;
    if k <= j {
      AtAscends(bs, k, j);
    }
  }

  /** The blocks of n bytes. */
  function BlocksFor(bs: nat, n: nat): nat
    requires bs > 0
  {
    (n + bs - 1) / bs
  }

  lemma BlocksBound(bs: nat, n: nat)
    requires bs > 0
    ensures At(bs, BlocksFor(bs, n)) >= n && (BlocksFor(bs, n) > 0 ==> At(bs, BlocksFor(bs, n) - 1) < n)
    ensures (8 * n + 8 * bs - 1) / (8 * bs) == BlocksFor(bs, n)
  {
    var q := BlocksFor(bs, n);
    Euclid(n + bs - 1, bs);
    if q > 0 {
      NextMultiple(q - 1, bs);
    }
    DivideUnique(8 * n + 8 * bs - 1, 8 * bs, q, 8 * ((n + bs - 1) % bs) + 7);
  }

  /** What a request amounts to: offsets and lengths are counted in bits, in 32-bit numbers. */
  datatype Range = Misaligned | Outside | Within(first: nat, n: nat)

  function RangeOf(f: Prom, offset: nat, bytes: nat): Range
    requires f.blockBytes > 0
  {
    var (skip, total) := (offset % MAX_BYTES, At(f.blockBytes, |f.blocks|));
    if skip % f.blockBytes != 0 then Misaligned
    else if skip > total then Outside
    else Within(skip / f.blockBytes, if bytes > total - skip then total - skip else bytes)
  }

  /** The length asked for, or all there is. */
  function Requested(rlength: nat, all: nat): nat {
    if rlength != 0 then rlength % MAX_BYTES else all
  }

  lemma InBits(x: nat)
    ensures x * 8 % WORD == 8 * (x % MAX_BYTES)
  {
    DivideUnique(x * 8, WORD, x / MAX_BYTES, 8 * (x % MAX_BYTES));
  }

  lemma AlignedInBits(x: nat, bs: nat)
    requires bs > 0
    ensures 8 * x % (8 * bs) == 8 * (x % bs) && 8 * x / (8 * bs) == x / bs
  {
    Euclid(x, bs);
    Eightfold(x / bs, x % bs, bs);
    DivideUnique(8 * x, 8 * bs, x / bs, 8 * (x % bs));
  }

  lemma Eightfold(q: nat, r: nat, bs: nat)
    ensures 8 * (q * bs + r) == q * (8 * bs) + 8 * r
  {
  }

  lemma RangeFits(f: Prom, offset: nat, bytes: nat)
    requires Sound(f) && RangeOf(f, offset, bytes).Within?
    ensures var w := RangeOf(f, offset, bytes);
      && At(f.blockBytes, w.first) == offset % MAX_BYTES
      && At(f.blockBytes, w.first) + w.n <= At(f.blockBytes, |f.blocks|) == |Linear(f.blocks)|
      && w.first + BlocksFor(f.blockBytes, w.n) <= |f.blocks|
  {
    hide Linear;
    var (bs, w) := (f.blockBytes, RangeOf(f, offset, bytes));
    Euclid(offset % MAX_BYTES, bs);
    LinearLength(f.blocks, bs);
    BlocksBound(bs, w.n);
    var q := BlocksFor(bs, w.n);
    if q > 0 {
      AtAdds(bs, w.first, q - 1);
      AtBelow(bs, w.first + (q - 1), |f.blocks|);
    } else {
      QuotientsAscend(w.first, 0, |f.blocks|, 0, bs);
    }
  }

  // ---- Programming ----

  /** What block k of the data is, the last one filled up with ones. */
  function BlockData(bs: nat, data: seq<byte>, k: nat): (r: seq<byte>)
    requires At(bs, k) <= |data|
    ensures |r| == bs
  {
    Padded(data[At(bs, k)..], bs)
  }

  /** Of blocks first.. the first j have been programmed with the data; every other block is as it was. */
  ghost predicate Burnt(f: Prom, blocks: seq<seq<byte>>, first: nat, j: nat, data: seq<byte>) {
    && |blocks| == |f.blocks|
    && forall b :: 0 <= b < |f.blocks| ==>
         if first <= b < first + j then BlockBurnt(f, blocks[b], b, b - first, data) else blocks[b] == f.blocks[b]
  }

  ghost predicate BlockBurnt(f: Prom, block: seq<byte>, b: nat, k: nat, data: seq<byte>)
    requires b < |f.blocks|
  {
    && At(f.blockBytes, k) <= |data| && |f.blocks[b]| == f.blockBytes
    && block == BurnAll(f.blocks[b], BlockData(f.blockBytes, data, k))
  }

  /** The data register holds block k of the data, the address register its block, and both are used. */
  lemma BurntStep(f: Prom, g: Prom, first: nat, j: nat, data: seq<byte>)
    requires Sound(f) && Sound(g) && g.blockBytes == f.blockBytes && Burnt(f, g.blocks, first, j, data)
    requires first + j < |f.blocks| && At(f.blockBytes, j) <= |data|
    requires g.address == (first + j) * FRAMES_PER_BLOCK && g.data == BlockData(f.blockBytes, data, j)
    ensures Burnt(f, ProgrammedBlock(g).blocks, first, j + 1, data) && Sound(ProgrammedBlock(g))
    ensures SameSize(f, ProgrammedBlock(g)) && ProgrammedBlock(g).shifting == g.shifting
  {
    hide BurnAll, BlockData, At;
    var b := first + j;
    DivideUnique(g.address, FRAMES_PER_BLOCK, b, 0);
    assert g.blocks[b] == f.blocks[b];
    assert BlockBurnt(f, BurnAll(f.blocks[b], g.data), b, j, data);
  }

  /** How programming ends. */
  ghost predicate ProgramEnds(f: Prom, g: Prom, image: seq<byte>, offset: nat, rlength: nat, r: int)
    requires f.blockBytes > 0
  {
    match RangeOf(f, offset, Requested(rlength, |image|))
    case Misaligned => r == -1 && g.blocks == f.blocks
    case Outside => r == -1 && g.blocks == f.blocks
    case Within(first, n) =>
      n <= |image| &&
      if r == 0 then Burnt(f, g.blocks, first, BlocksFor(f.blockBytes, n), image[..n])
      else r == 1 && exists j :: 0 < j <= BlocksFor(f.blockBytes, n) && Burnt(f, g.blocks, first, j, image[..n])
  }

  /** A block's part of a mask over the whole array. */
  lemma MaskBlock(bs: nat, count: nat, first: nat, data: seq<byte>, b: nat)
    requires bs > 0 && b < count && At(bs, first) + |data| <= At(bs, count)
    ensures At(bs, b) + bs <= At(bs, count)
    ensures first <= b < first + BlocksFor(bs, |data|) ==> At(bs, b - first) <= |data|
    ensures Mask(At(bs, count), At(bs, first), data)[At(bs, b)..At(bs, b) + bs]
            == if first <= b < first + BlocksFor(bs, |data|) then BlockData(bs, data, b - first)
               else Repeat<byte>(BLANK, bs)
  {
    hide At, BlocksFor, Mask;
    var (q, total) := (BlocksFor(bs, |data|), At(bs, count));
    BlocksBound(bs, |data|);
    AtSteps(bs, b);
    AtAscends(bs, b + 1, count);
    if b < first {
      AtAscends(bs, b + 1, first);
    } else if b < first + q {
      AtAdds(bs, first, b - first);
      AtAscends(bs, b - first, q - 1);
    } else {
      AtAdds(bs, first, q);
      AtAscends(bs, first + q, b);
    }
    MaskSlice(total, At(bs, first), data, At(bs, b), bs);
    if first <= b < first + q {
      assert At(bs, b) - At(bs, first) == At(bs, b - first);
    }
  }

  /** Programming a range burns it into the array and leaves everything else alone. */
  lemma BurntSpace(f: Prom, g: Prom, first: nat, data: seq<byte>)
    requires Sound(f) && Sound(g) && SameSize(f, g)
    requires At(f.blockBytes, first) + |data| <= At(f.blockBytes, |f.blocks|)
    requires Burnt(f, g.blocks, first, BlocksFor(f.blockBytes, |data|), data)
    ensures |Linear(f.blocks)| == |Linear(g.blocks)| == At(f.blockBytes, |f.blocks|)
    ensures Linear(g.blocks)
            == BurnAll(Linear(f.blocks), Mask(At(f.blockBytes, |f.blocks|), At(f.blockBytes, first), data))
  {
    hide Linear, At, Burnt, Mask, BlocksFor, BurnAll;
    var n := |f.blocks|;
    var mask := Mask(At(f.blockBytes, n), At(f.blockBytes, first), data);
    BurntPrefix(f, g, first, data, n);
    assert f.blocks[..n] == f.blocks && g.blocks[..n] == g.blocks && mask[..|mask|] == mask;
  }

  lemma {:induction false} BurntPrefix(f: Prom, g: Prom, first: nat, data: seq<byte>, j: nat)
    requires Sound(f) && Sound(g) && SameSize(f, g) && j <= |f.blocks|
    requires At(f.blockBytes, first) + |data| <= At(f.blockBytes, |f.blocks|)
    requires Burnt(f, g.blocks, first, BlocksFor(f.blockBytes, |data|), data)
    ensures |Linear(f.blocks[..j])| == |Linear(g.blocks[..j])| == At(f.blockBytes, j) <= At(f.blockBytes, |f.blocks|)
    ensures Linear(g.blocks[..j])
            == BurnAll(Linear(f.blocks[..j]),
                       Mask(At(f.blockBytes, |f.blocks|), At(f.blockBytes, first), data)[..At(f.blockBytes, j)])
  {
    hide Linear, At, Burnt, Mask, BlocksFor, BurnAll, BlockData;
    var (bs, total) := (f.blockBytes, At(f.blockBytes, |f.blocks|));
    var mask := Mask(total, At(bs, first), data);
    AtAscends(bs, j, |f.blocks|);
    PrefixBytes(f, j);
    PrefixBytes(g, j);
    if j == 0 {
      AtSteps(bs, 0);
    } else {
      var b := j - 1;
      BurntPrefix(f, g, first, data, b);
      AtSteps(bs, b);
      PrefixGrowsBy(f, b);
      PrefixGrowsBy(g, b);
      BlockBurns(f, g, first, data, b);
      var part := mask[At(bs, b)..At(bs, b) + bs];
      assert mask[..At(bs, j)] == mask[..At(bs, b)] + part;
      BurnAllAppend(Linear(f.blocks[..b]), f.blocks[b], mask[..At(bs, b)], part);
    }
  }

  lemma PrefixBytes(f: Prom, j: nat)
    requires Sound(f) && j <= |f.blocks|
    ensures |Linear(f.blocks[..j])| == At(f.blockBytes, j)
  {
    hide Linear;
    LinearLength(f.blocks[..j], f.blockBytes);
  }

  lemma PrefixGrowsBy(f: Prom, b: nat)
    requires b < |f.blocks|
    ensures Linear(f.blocks[..b + 1]) == Linear(f.blocks[..b]) + f.blocks[b]
  {
    assert f.blocks[..b + 1][..b] == f.blocks[..b];
  }

  /** What programming has done to one block, by the mask. */
  lemma BlockBurns(f: Prom, g: Prom, first: nat, data: seq<byte>, b: nat)
    requires Sound(f) && SameSize(f, g) && b < |f.blocks|
    requires At(f.blockBytes, first) + |data| <= At(f.blockBytes, |f.blocks|)
    requires Burnt(f, g.blocks, first, BlocksFor(f.blockBytes, |data|), data)
    ensures |f.blocks[b]| == f.blockBytes && At(f.blockBytes, b) + f.blockBytes <= At(f.blockBytes, |f.blocks|)
    ensures g.blocks[b]
            == BurnAll(f.blocks[b], Mask(At(f.blockBytes, |f.blocks|), At(f.blockBytes, first), data)
                                        [At(f.blockBytes, b)..At(f.blockBytes, b) + f.blockBytes])
  {
    hide At, Mask, BlocksFor, BurnAll, BlockData;
    MaskBlock(f.blockBytes, |f.blocks|, first, data, b);
    BurnAllBlank(f.blocks[b]);
  }

  ghost predicate BlankBlocks(f: Prom, first: nat, k: nat) {
    forall b :: first <= b < first + k ==> b < |f.blocks| && f.blocks[b] == Repeat<byte>(BLANK, f.blockBytes)
  }

  /**
   * Blocks that were erased carry the data and then ones; all others are unchanged. A read of
   * the same range returns the data.
   */
  lemma ProgramThenRead(f: Prom, g: Prom, first: nat, n: nat, data: seq<byte>)
    requires Sound(f) && Sound(g) && g.blockBytes == f.blockBytes && n == |data|
    requires first + BlocksFor(f.blockBytes, n) <= |f.blocks| && BlankBlocks(f, first, BlocksFor(f.blockBytes, n))
    requires Burnt(f, g.blocks, first, BlocksFor(f.blockBytes, n), data)
    ensures var (bs, q) := (f.blockBytes, BlocksFor(f.blockBytes, n));
      && n <= At(bs, q) && At(bs, first) + At(bs, q) <= |Linear(g.blocks)|
      && Linear(g.blocks)[At(bs, first)..At(bs, first) + At(bs, q)] == Padded(data, At(bs, q))
      && Linear(g.blocks)[At(bs, first)..At(bs, first) + n] == data
      && forall b :: 0 <= b < |f.blocks| && !(first <= b < first + q) ==> g.blocks[b] == f.blocks[b]
  {
    hide Linear, BlankBlocks, Burnt, At, BlocksFor, Sound, Padded;
    SoundSize(f);
    var (bs, q) := (f.blockBytes, BlocksFor(f.blockBytes, n));
    BlocksBound(bs, n);
    BurntLength(f, g, first, q, data);
    BurntIsData(f, g, first, q, q, data);
    SliceOfBlocks(g, first, q);
    PrefixOfSlice(Linear(g.blocks), At(bs, first), At(bs, q), n);
    PaddedPrefix(data, At(bs, q));
  }

  lemma SoundSize(f: Prom)
    requires Sound(f)
    ensures f.blockBytes > 0
  {
  }

  lemma PaddedPrefix(data: seq<byte>, n: nat)
    requires |data| <= n
    ensures Padded(data, n)[..|data|] == data
  {
  }

  /** A run of blocks is a range of bytes. */
  lemma SliceOfBlocks(g: Prom, first: nat, q: nat)
    requires Sound(g) && first + q <= |g.blocks|
    ensures var (a, b) := (At(g.blockBytes, first), At(g.blockBytes, q));
      a + b <= |Linear(g.blocks)| && Linear(g.blocks[first..first + q]) == Linear(g.blocks)[a..a + b]
  {
    hide Linear, Uniform;
    LinearSlice(g.blocks, g.blockBytes, first, first + q);
    AtAdds(g.blockBytes, first, q);
  }

  lemma BurntLength(f: Prom, g: Prom, first: nat, q: nat, data: seq<byte>)
    requires Burnt(f, g.blocks, first, q, data)
    ensures |g.blocks| == |f.blocks|
    ensures forall b :: 0 <= b < |f.blocks| && !(first <= b < first + q) ==> g.blocks[b] == f.blocks[b]
  {
    hide BlockBurnt;
  }

  lemma {:induction false} BurntIsData(f: Prom, g: Prom, first: nat, q: nat, j: nat, data: seq<byte>)
    requires Sound(f) && g.blockBytes == f.blockBytes && Burnt(f, g.blocks, first, q, data)
    requires j <= q && first + q <= |f.blocks| && BlankBlocks(f, first, q)
    requires q > 0 ==> At(f.blockBytes, q - 1) < |data|
    ensures |g.blocks| == |f.blocks| && Linear(g.blocks[first..first + j]) == Padded(data, At(f.blockBytes, j))
  {
    hide Linear, At, BlockData;
    if j > 0 {
      var (bs, k) := (f.blockBytes, j - 1);
      BurntIsData(f, g, first, q, k, data);
      AtSteps(bs, k);
      AtAscends(bs, k, q - 1);
      var b := first + k;
      assert BlockBurnt(f, g.blocks[b], b, k, data);
      assert f.blocks[b] == Repeat<byte>(BLANK, bs);
      BurnAllErased(f.blocks[b], BlockData(bs, data, k));
      assert g.blocks[first..first + j] == g.blocks[first..b] + [g.blocks[b]];
      LinearAppend(g.blocks[first..b], [g.blocks[b]]);
      LinearOne(g.blocks[b]);
      BlockDataIs(bs, data, k);
    } else {
      AtSteps(f.blockBytes, 0);
      assert g.blocks[first..first] == [];
      assert Linear([]) == [] by {
        LinearLength([], 0);
      }
    }
  }

  lemma BlockDataIs(bs: nat, data: seq<byte>, k: nat)
    requires At(bs, k) < |data|
    ensures Padded(data, At(bs, k)) + BlockData(bs, data, k) == Padded(data, At(bs, k) + bs)
  {
  }

  // ---- The programmer ----

  lemma ShiftBlock(f: Prom, part: seq<byte>, pad: seq<byte>)
    requires f.shifting == []
    ensures DataShifted(DataShifted(f, part, false), pad, true) == f.(data := part + pad)
    ensures DataShifted(f, part, true) == f.(data := part)
  {
    assert [] + part == part;
  }

  /** The bytes that are shifted in for block k. */
  lemma WholeBlock(bs: nat, data: seq<byte>, k: nat)
    requires At(bs, k + 1) <= |data|
    ensures At(bs, k) + bs <= |data| && BlockData(bs, data, k) == data[At(bs, k)..At(bs, k) + bs]
  {
    AtSteps(bs, k);
  }

  lemma PartialBlock(bs: nat, data: seq<byte>, k: nat)
    requires At(bs, k) < |data| < At(bs, k + 1)
    ensures 0 < |data| - At(bs, k) < bs
    ensures BlockData(bs, data, k) == data[At(bs, k)..] + Repeat<byte>(BLANK, bs - (|data| - At(bs, k)))
  {
    AtSteps(bs, k);
  }

  /** The low two bytes of a number. */
  lemma TwoBytes(n: nat)
    ensures n % 0x100 + n / 0x100 % 0x100 * 0x100 == n % 0x10000
  {
    var (a, b) := (n / 0x100, n / 0x100 / 0x100);
    DivideUnique(n, 0x10000, b, n % 0x100 + a % 0x100 * 0x100);
  }

  lemma FrameFits(f: Prom, block: nat)
    requires Sound(f) && block < |f.blocks|
    ensures block * FRAMES_PER_BLOCK < 0x10000
    ensures block * FRAMES_PER_BLOCK / FRAMES_PER_BLOCK == block
  {
    DivideUnique(block * FRAMES_PER_BLOCK, FRAMES_PER_BLOCK, block, 0);
  }

  /** All 2^32 bit counts come back as bytes. */
  lemma RequestInBits(f: Prom, offset: nat, rlength: nat, all: nat)
    requires f.blockBytes > 0 && all < MAX_BYTES
    ensures var (bs, total) := (f.blockBytes, At(f.blockBytes, |f.blocks|));
      var skipbits := offset * 8 % WORD;
      var nbits := if rlength != 0 then rlength * 8 % WORD else 8 * all;
      && (skipbits % (8 * bs) != 0 <==> RangeOf(f, offset, Requested(rlength, all)) == Misaligned)
      && (skipbits % (8 * bs) == 0 ==>
            (skipbits > 8 * total <==> RangeOf(f, offset, Requested(rlength, all)) == Outside))
      && (skipbits % (8 * bs) == 0 && skipbits <= 8 * total ==>
            RangeOf(f, offset, Requested(rlength, all))
            == Within(skipbits / (8 * bs), (if nbits > 8 * total - skipbits then 8 * total - skipbits else nbits) / 8)
            && nbits % 8 == 0)
  {
    hide At;
    InBits(offset);
    InBits(rlength);
    AlignedInBits(offset % MAX_BYTES, f.blockBytes);
  }

  /** Block i in bits and in bytes. */
  lemma BlockInBits(bs: nat, i: nat, n: nat)
    requires bs > 0
    ensures i * (8 * bs) / 8 == At(bs, i) && i * (8 * bs) == 8 * At(bs, i) && (i + 1) * (8 * bs) == 8 * At(bs, i + 1)
    ensures At(bs, i + 1) == At(bs, i) + bs
    ensures (8 * n + 8 * bs - 1) / (8 * bs) == BlocksFor(bs, n)
    ensures i < BlocksFor(bs, n) ==> At(bs, i) < n
    ensures i >= BlocksFor(bs, n) ==> At(bs, i) >= n
  {
    hide At;
    AtSteps(bs, i);
    AtSteps(bs, i + 1);
    BlocksBound(bs, n);
    if i < BlocksFor(bs, n) {
      AtAscends(bs, i, BlocksFor(bs, n) - 1);
    } else {
      AtAscends(bs, BlocksFor(bs, n), i);
    }
  }

  lemma Unburnt(f: Prom, first: nat, data: seq<byte>)
    ensures Burnt(f, f.blocks, first, 0, data)
  {
  }

  lemma ProgramStopsAt(f: Prom, g: Prom, image: seq<byte>, offset: nat, rlength: nat, first: nat, n: nat, j: nat,
                       r: int)
    requires f.blockBytes > 0 && RangeOf(f, offset, Requested(rlength, |image|)) == Within(first, n) && n <= |image|
    requires j <= BlocksFor(f.blockBytes, n) && Burnt(f, g.blocks, first, j, image[..n])
    requires (r == 1 && j > 0) || (r == 0 && j == BlocksFor(f.blockBytes, n))
    ensures ProgramEnds(f, g, image, offset, rlength, r)
  {
    hide Burnt, BlocksFor, RangeOf;
  }

  lemma ProgramRefused(f: Prom, image: seq<byte>, offset: nat, rlength: nat)
    requires f.blockBytes > 0 && !RangeOf(f, offset, Requested(rlength, |image|)).Within?
    ensures ProgramEnds(f, f, image, offset, rlength, -1)
  {
    hide Burnt, BlocksFor, RangeOf;
  }

  /** The part of the image that has been read when i blocks have arrived. */
  ghost function Arrived(f: Prom, first: nat, n: nat, i: nat): seq<byte>
    requires At(f.blockBytes, first) + n <= |Linear(f.blocks)|
  {
    var at := At(f.blockBytes, first);
    Linear(f.blocks)[at..at + if At(f.blockBytes, i) < n then At(f.blockBytes, i) else n]
  }

  lemma NothingArrived(f: Prom, first: nat, n: nat)
    requires At(f.blockBytes, first) + n <= |Linear(f.blocks)|
    ensures Arrived(f, first, n, 0) == []
  {
    hide Linear;
  }

  /** One more block, as far as the range goes. */
  lemma BlockArrives(f: Prom, first: nat, n: nat, i: nat, c: nat)
    requires Sound(f) && At(f.blockBytes, first) + n <= |Linear(f.blocks)| && At(f.blockBytes, i) < n
    requires c == if At(f.blockBytes, i + 1) > n then n - At(f.blockBytes, i) else f.blockBytes
    ensures first + i < |f.blocks| && c <= |f.blocks[first + i]| == f.blockBytes
    ensures |Arrived(f, first, n, i)| == At(f.blockBytes, i)
    ensures Arrived(f, first, n, i + 1) == Arrived(f, first, n, i) + f.blocks[first + i][..c]
  {
    hide Linear, At, Uniform;
    var bs := f.blockBytes;
    AtSteps(bs, i);
    AtAdds(bs, first, i);
    AllBytes(f);
    AtBelow(bs, first + i, |f.blocks|);
    OneBlock(f, first + i);
    var (lin, a, b) := (Linear(f.blocks), At(bs, first), At(bs, first + i));
    assert f.blocks[first + i][..c] == lin[b..b + c];
    assert lin[a..b + c] == lin[a..b] + lin[b..b + c];
  }

  lemma AllBytes(f: Prom)
    requires Sound(f)
    ensures |Linear(f.blocks)| == At(f.blockBytes, |f.blocks|)
  {
    hide Linear;
    LinearLength(f.blocks, f.blockBytes);
  }

  lemma OneBlock(f: Prom, b: nat)
    requires Sound(f) && b < |f.blocks|
    ensures |f.blocks[b]| == f.blockBytes && At(f.blockBytes, b) + f.blockBytes <= |Linear(f.blocks)|
    ensures f.blocks[b] == Linear(f.blocks)[At(f.blockBytes, b)..At(f.blockBytes, b) + f.blockBytes]
  {
    hide Linear;
    AtSteps(f.blockBytes, b);
    LinearSlice(f.blocks, f.blockBytes, b, b + 1);
    assert f.blocks[b..b + 1] == [f.blocks[b]];
    LinearOne(f.blocks[b]);
  }

  lemma AllArrived(f: Prom, first: nat, n: nat, i: nat)
    requires At(f.blockBytes, first) + n <= |Linear(f.blocks)| && At(f.blockBytes, i) >= n
    ensures Arrived(f, first, n, i) == Linear(f.blocks)[At(f.blockBytes, first)..At(f.blockBytes, first) + n]
  {
    hide Linear, At;
  }

  /** How reading ends: the image is the range of the device. */
  ghost predicate ReadEnds(f: Prom, was: seq<byte>, now: seq<byte>, offset: nat, rlength: nat, r: int)
    requires f.blockBytes > 0
  {
    match RangeOf(f, offset, Requested(rlength, At(f.blockBytes, |f.blocks|)))
    case Misaligned => r == -1 && now == was
    case Outside => r == -1 && now == was
    case Within(first, n) =>
      var at := At(f.blockBytes, first);
      r == 0 && at + n <= |Linear(f.blocks)| && now == Linear(f.blocks)[at..at + n]
  }

  /** How verifying ends: with 0 exactly when device and file agree on the range. */
  ghost predicate VerifyEnds(f: Prom, image: seq<byte>, offset: nat, rlength: nat, r: int)
    requires f.blockBytes > 0
  {
    match RangeOf(f, offset, Requested(rlength, |image|))
    case Misaligned => r == 1
    case Outside => r == -1
    case Within(first, n) =>
      var at := At(f.blockBytes, first);
      at + n <= |Linear(f.blocks)| && n <= |image| && (r == 0 <==> Linear(f.blocks)[at..at + n] == image[..n])
  }

  /** Status bytes up to the first with the done bit, at most `limit`. */
  ghost predicate Polled(s: seq<byte>, limit: nat, done: bool) {
    && |s| <= limit && (done ==> s != [] && Bit(s[|s| - 1], 2))
    && (forall k :: 0 <= k < |s| - 1 ==> !Bit(s[k], 2))
    && (!done ==> |s| == limit && (s != [] ==> !Bit(s[limit - 1], 2)))
  }

  /** The device has not confirmed in its last n answers. */
  ghost predicate Unconfirmed(s: seq<byte>, n: nat) {
    n <= |s| && forall k :: |s| - n <= k < |s| ==> !Bit(s[k], 2)
  }

  class ProgAlgXCF {
    const size: nat
    const blockSize: nat
    const useOptimizedAlgs: bool
    var prom: Prom

    /** Every status byte that has come back, and what the bypass instructions before erasing captured. */
    ghost var statuses: seq<byte>
    ghost var captured: seq<byte>

    ghost predicate Valid()
      reads this
    {
      && Sound(prom) && prom.shifting == []
      && blockSize == 8 * prom.blockBytes && size == 8 * At(prom.blockBytes, |prom.blocks|)
      && blockSize > 0 && size < WORD
    }

    constructor (device: Prom, optimized: bool)
      requires Sound(device) && device.shifting == [] && 8 * At(device.blockBytes, |device.blocks|) < WORD
      ensures Valid() && prom == device
    {
      prom := device;
      blockSize, size := 8 * device.blockBytes, 8 * At(device.blockBytes, |device.blocks|);
      useOptimizedAlgs := optimized;
    }

    method ShiftData(bytes: seq<byte>, exit: bool)
      modifies this`prom
      ensures prom == DataShifted(old(prom), bytes, exit)
    {
      prom := DataShifted(prom, bytes, exit);
    }

    /** The frame goes out in 16 bits. */
    method ShiftAddress(frame: nat)
      modifies this`prom
      ensures prom == old(prom).(address := frame % 0x10000)
    {
      TwoBytes(frame);
      prom := prom.(address := frame % 0x100 + frame / 0x100 % 0x100 * 0x100);
    }

    /** Whether the device reports success within some polls. */
    method Poll(limit: nat) returns (done: bool)
      modifies this`statuses
      ensures old(statuses) <= statuses && Polled(statuses[|old(statuses)|..], limit, done)
      ensures !done ==> Unconfirmed(statuses, limit)
    {
      hide Bit;
      var j := 0;
      done := false;
      while j < limit && !done
        invariant j <= limit && old(statuses) <= statuses && |statuses| == |old(statuses)| + j
        invariant forall k :: |old(statuses)| <= k < |statuses| ==>
                  (Bit(statuses[k], 2) <==> done && k == |statuses| - 1)
        invariant done ==> j > 0
      {
        var xcstatus: byte :| 0 <= xcstatus < 0x100;
        statuses := statuses + [xcstatus];
        done := Bit(xcstatus, 2);
        j := j + 1;
      }
    }

    /** Erases the whole array, unless bit 3 of what the instruction register captured says that it is protected. */
    method Erase() returns (r: int)
      requires Valid()
      modifies this`prom, this`statuses, this`captured
      ensures Valid()
      ensures (r == 0 || r == 1) && SameSize(old(prom), prom)
      ensures r == 0 ==> BlankBlocks(prom, 0, |prom.blocks|) && |prom.blocks| == |old(prom.blocks)|
      ensures |captured| == |old(captured)| + 1 && old(statuses) <= statuses
      ensures Bit(captured[|captured| - 1], 3) ==> r == 1 && prom == old(prom) && statuses == old(statuses)
      ensures !Bit(captured[|captured| - 1], 3) && !useOptimizedAlgs ==> r == 0 && statuses == old(statuses)
      ensures !Bit(captured[|captured| - 1], 3) && useOptimizedAlgs ==> Polled(statuses[|old(statuses)|..], 32, r == 0)
    {
      hide Bit, Polled;
      var ircap: byte :| 0 <= ircap < 0x100;
      captured := captured + [ircap];
      if Bit(ircap, 3) {
        return 1;
      }
      var blank := Repeat<byte>(BLANK, prom.blockBytes);
      prom := prom.(address := 1, blocks := seq(|prom.blocks|, _ => blank));
      var done := true;
      if useOptimizedAlgs {
        done := Poll(32);
      }
      r := if done then 0 else 1;
    }

    /** Shifts block i of the file into the data register, filled up with ones. */
    method LoadBlock(file: BitFile, i: nat, nbits: nat)
      requires Valid() && file.Valid()
      requires nbits % 8 == 0 && nbits / 8 <= file.length && At(prom.blockBytes, i) < nbits / 8
      modifies this`prom
      ensures Valid()
      ensures prom == old(prom).(data := BlockData(prom.blockBytes, file.Data()[..nbits / 8], i))
    {
      hide Sound, At, BlockData, DataShifted, BlocksFor;
      ghost var (f, image, n) := (prom, file.Data(), nbits / 8);
      BlockInBits(f.blockBytes, i, n);
      var at := i * blockSize / 8;
      if (i + 1) * blockSize <= nbits {
        WholeBlock(f.blockBytes, image[..n], i);
        SliceOfPrefix(image, n, at, at + f.blockBytes);
        var block := file.Load(at, blockSize / 8);
        ShiftBlock(f, block, []);
        ShiftData(block, true);
      } else {
        PartialBlock(f.blockBytes, image[..n], i);
        SliceOfPrefix(image, n, at, n);
        var rembytes := (nbits - i * blockSize + 7) / 8;
        var padbytes := blockSize / 8 - rembytes;
        var part := file.Load(at, rembytes);
        ShiftBlock(f, part, Repeat<byte>(0xff, padbytes));
        ShiftData(part, false);
        ShiftData(Repeat<byte>(0xff, padbytes), true);
      }
      SoundAgain(f, prom);
    }

    /** Checks and clips a request; it is counted in bits, in 32-bit numbers. */
    method Locate(offset: nat, rlength: nat, all: nat) returns (range: Range)
      requires Valid() && all < MAX_BYTES
      ensures range == RangeOf(prom, offset, Requested(rlength, all))
    {
      hide Sound, At, RangeOf;
      RequestInBits(prom, offset, rlength, all);
      var skipbits := offset * 8 % WORD;
      if skipbits % blockSize != 0 {
        return Misaligned;
      }
      if skipbits > size {
        return Outside;
      }
      var nbits := if rlength != 0 then rlength * 8 % WORD else all * 8;
      if nbits > size - skipbits {
        nbits := size - skipbits;
      }
      range := Within(skipbits / blockSize, nbits / 8);
    }

    /** Programs the blocks of the range in order. */
    method Program(file: BitFile) returns (r: int)
      requires Valid() && file.Valid() && file.length < MAX_BYTES && file.rlength <= file.length
      modifies this`prom, this`statuses
      ensures Valid()
      ensures ProgramEnds(old(prom), prom, file.Data(), file.offset, file.rlength, r)
      ensures SameSize(old(prom), prom)
      ensures r == 1 ==> Unconfirmed(statuses, 28)
    {
      hide Sound, At, Burnt, ProgramEnds, RangeOf, BlocksFor;
      ghost var f, image := prom, file.Data();
      var range := Locate(file.offset, file.rlength, file.length);
      if !range.Within? {
        ProgramRefused(f, image, file.offset, file.rlength);
        return -1;
      }
      RangeFits(f, file.offset, Requested(file.rlength, |image|));
      RangeClips(f, file.offset, Requested(file.rlength, |image|));
      ghost var j;
      r, j := ProgramBlocks(file, range.first, range.n);
      ProgramStopsAt(f, prom, image, file.offset, file.rlength, range.first, range.n, j, r);
    }

    method ProgramBlocks(file: BitFile, skipblocks: nat, n: nat) returns (r: int, ghost j: nat)
      requires Valid() && file.Valid() && n <= file.length
      requires skipblocks + BlocksFor(prom.blockBytes, n) <= |prom.blocks|
      modifies this`prom, this`statuses
      ensures Valid() && SameSize(old(prom), prom) && j <= BlocksFor(old(prom).blockBytes, n)
      ensures (r == 1 && j > 0) || (r == 0 && j == BlocksFor(old(prom).blockBytes, n))
      ensures Burnt(old(prom), prom.blocks, skipblocks, j, file.Data()[..n])
      ensures r == 1 ==> Unconfirmed(statuses, 28)
    {
      hide Sound, At, Burnt, BlocksFor;
      ghost var f, image := prom, file.Data();
      BlockInBits(f.blockBytes, 0, n);
      var nblocks := (8 * n + blockSize - 1) / blockSize;
      Unburnt(f, skipblocks, image[..n]);
      j := 0;
      for i := 0 to nblocks
        invariant Valid() && SameSize(f, prom) && j == i
        invariant Burnt(f, prom.blocks, skipblocks, i, image[..n])
      {
        BlockInBits(f.blockBytes, i, n);
        var done := ProgramBlock(file, skipblocks, n, i, f);
        j := i + 1;
        if !done {
          return 1, j;
        }
      }
      r := 0;
    }

    /** Data, address, programming, and the polls that follow. */
    method ProgramBlock(file: BitFile, skipblocks: nat, n: nat, i: nat, ghost f: Prom) returns (done: bool)
      requires Valid() && file.Valid() && n <= file.length && Sound(f) && SameSize(f, prom)
      requires At(f.blockBytes, i) < n && skipblocks + i < |f.blocks|
      requires Burnt(f, prom.blocks, skipblocks, i, file.Data()[..n])
      modifies this`prom, this`statuses
      ensures Valid() && SameSize(f, prom)
      ensures Burnt(f, prom.blocks, skipblocks, i + 1, file.Data()[..n])
      ensures |statuses| <= |old(statuses)| + 28 && (!done ==> Unconfirmed(statuses, 28))
    {
      hide Sound, At, Burnt, BlocksFor, BlockData, ProgrammedBlock;
      ghost var before := prom;
      LoadBlock(file, i, 8 * n);
      FrameFits(prom, skipblocks + i);
      ShiftAddress((skipblocks + i) * FRAMES_PER_BLOCK);
      SoundAgain(before, prom);
      BurntStep(f, prom, skipblocks, i, file.Data()[..n]);
      prom := ProgrammedBlock(prom);
      done := true;
      if useOptimizedAlgs {
        done := Poll(PROGRAM_POLLS);
      }
    }

    /** One block of the device. */
    method ReadBlock(frame: nat) returns (data: seq<byte>)
      requires Valid() && frame < 0x10000
      modifies this`prom
      ensures Valid() && prom == old(prom).(address := frame)
      ensures frame / 32 < |prom.blocks| ==> data == prom.blocks[frame / 32]
    {
      hide Sound, At;
      ghost var f := prom;
      ShiftAddress(frame);
      SoundAgain(f, prom);
      data := if Selected(prom) < |prom.blocks| then prom.blocks[Selected(prom)] else [];
    }

    /** Reads the blocks of the range into an image made to its size. */
    method Read(file: BitFile) returns (r: int)
      requires Valid() && file.Valid()
      modifies this`prom, file`buffer, file`length
      ensures Valid() && file.Valid()
      ensures prom == old(prom).(address := prom.address)
      ensures ReadEnds(old(prom), old(file.Data()), file.Data(), file.offset, file.rlength, r)
    {
      hide Sound, At, ReadEnds, RangeOf, BlocksFor, Arrived, Linear, Padded;
      ghost var f, was := prom, file.Data();
      var range := Locate(file.offset, file.rlength, size / 8);
      if !range.Within? {
        ReadRefused(f, was, file.offset, file.rlength);
        return -1;
      }
      RangeFits(f, file.offset, Requested(file.rlength, size / 8));
      var skipblocks, n := range.first, range.n;
      file.SetLength(8 * n);
      var nblocks := (8 * n + blockSize - 1) / blockSize;
      NothingArrived(f, skipblocks, n);
      PaddedNothing(n);
      BlockInBits(f.blockBytes, nblocks, n);
      for i := 0 to nblocks
        invariant Valid() && file.Valid() && fresh(file.buffer)
        invariant prom == f.(address := prom.address)
        invariant file.Data() == Padded(Arrived(f, skipblocks, n, i), n)
      {
        BlockInBits(f.blockBytes, i, n);
        FrameFits(f, skipblocks + i);
        var data := ReadBlock((skipblocks + i) * FRAMES_PER_BLOCK);
        var blkbytes := if (i + 1) * blockSize > 8 * n then (8 * n - i * blockSize + 7) / 8 else blockSize / 8;
        BlockArrives(f, skipblocks, n, i, blkbytes);
        PaddedOverwrite(Arrived(f, skipblocks, n, i), data[..blkbytes], n);
        file.Store(i * blockSize / 8, data[..blkbytes]);
      }
      AllArrived(f, skipblocks, n, nblocks);
      ReadFinishes(f, was, file.Data(), file.offset, file.rlength, skipblocks, n);
      r := 0;
    }

    /** Some number other than 0 for different bytes. */
    method Memcmp(a: seq<byte>, b: seq<byte>) returns (r: int)
      ensures r == 0 <==> a == b
    {
      r := *;
      if a == b || r == 0 {
        r := if a == b then 0 else 1;
      }
    }

    /** Compares the blocks of the range with the file, stopping at the first that differs. */
    method Verify(file: BitFile) returns (r: int)
      requires Valid() && file.Valid() && file.length < MAX_BYTES && file.rlength <= file.length
      modifies this`prom
      ensures Valid() && prom == old(prom).(address := prom.address)
      ensures VerifyEnds(old(prom), file.Data(), file.offset, file.rlength, r)
    {
      hide Sound, At, VerifyEnds, RangeOf, BlocksFor, Arrived, Linear;
      ghost var f, image := prom, file.Data();
      var range := Locate(file.offset, file.rlength, file.length);
      if !range.Within? {
        r := if range == Misaligned then 1 else -1;
        VerifyRefused(f, image, file.offset, file.rlength, r);
        return;
      }
      RangeFits(f, file.offset, Requested(file.rlength, |image|));
      RangeClips(f, file.offset, Requested(file.rlength, |image|));
      r := CompareBlocks(file, range.first, range.n);
      VerifyFinishes(f, image, file.offset, file.rlength, range.first, range.n, r);
    }

    method CompareBlocks(file: BitFile, skipblocks: nat, n: nat) returns (r: int)
      requires Valid() && file.Valid() && n <= file.length
      requires skipblocks + BlocksFor(prom.blockBytes, n) <= |prom.blocks|
      requires At(prom.blockBytes, skipblocks) + n <= |Linear(prom.blocks)|
      modifies this`prom
      ensures Valid() && prom == old(prom).(address := prom.address)
      ensures var at := At(old(prom).blockBytes, skipblocks);
        r == 0 <==> Linear(old(prom).blocks)[at..at + n] == file.Data()[..n]
    {
      hide Sound, At, BlocksFor, Agrees, Linear;
      ghost var f, image := prom, file.Data();
      var nblocks := (8 * n + blockSize - 1) / blockSize;
      NothingArrived(f, skipblocks, n);
      BlockInBits(f.blockBytes, nblocks, n);
      ArrivedDecides(f, skipblocks, n, 0, image);
      for i := 0 to nblocks
        invariant Valid() && prom == f.(address := prom.address)
        invariant Agrees(f, skipblocks, n, i, image)
      {
        BlockInBits(f.blockBytes, i, n);
        FrameFits(f, skipblocks + i);
        var data := ReadBlock((skipblocks + i) * FRAMES_PER_BLOCK);
        var blkbytes := if (i + 1) * blockSize > 8 * n then (8 * n - i * blockSize + 7) / 8 else blockSize / 8;
        BlockCompares(f, skipblocks, n, i, blkbytes, image);
        var part := file.Load(i * blockSize / 8, blkbytes);
        r := Memcmp(data[..blkbytes], part);
        ArrivedDecides(f, skipblocks, n, i + 1, image);
        if r != 0 {
          return;
        }
      }
      ArrivedDecides(f, skipblocks, n, nblocks, image);
      r := 0;
    }
  }

  /** What has arrived agrees with the file. */
  ghost predicate Agrees(f: Prom, first: nat, n: nat, i: nat, image: seq<byte>) {
    && At(f.blockBytes, first) + n <= |Linear(f.blocks)| && n <= |image|
    && Arrived(f, first, n, i) <= image[..n]
  }

  lemma BlockCompares(f: Prom, first: nat, n: nat, i: nat, c: nat, image: seq<byte>)
    requires Sound(f) && Agrees(f, first, n, i, image) && At(f.blockBytes, i) < n
    requires c == if At(f.blockBytes, i + 1) > n then n - At(f.blockBytes, i) else f.blockBytes
    ensures first + i < |f.blocks| && c <= |f.blocks[first + i]| && At(f.blockBytes, i) + c <= n <= |image|
    ensures Agrees(f, first, n, i + 1, image)
            <==> f.blocks[first + i][..c] == image[At(f.blockBytes, i)..At(f.blockBytes, i) + c]
  {
    hide At, Linear, Sound, Arrived;
    var at := At(f.blockBytes, i);
    SoundSize(f);
    AtSteps(f.blockBytes, i);
    BlockArrives(f, first, n, i, c);
    PrefixGrows(image[..n], Arrived(f, first, n, i), f.blocks[first + i][..c]);
    SliceOfPrefix(image, n, at, at + c);
  }

  predicate SameSize(f: Prom, g: Prom) {
    g.blockBytes == f.blockBytes && |g.blocks| == |f.blocks|
  }

  lemma RangeClips(f: Prom, offset: nat, bytes: nat)
    requires f.blockBytes > 0 && RangeOf(f, offset, bytes).Within?
    ensures RangeOf(f, offset, bytes).n <= bytes
  {
    hide At;
  }

  lemma PaddedNothing(n: nat)
    ensures Padded([], n) == Repeat<byte>(BLANK, n)
  {
  }

  lemma ReadRefused(f: Prom, was: seq<byte>, offset: nat, rlength: nat)
    requires f.blockBytes > 0 && !RangeOf(f, offset, Requested(rlength, At(f.blockBytes, |f.blocks|))).Within?
    ensures ReadEnds(f, was, was, offset, rlength, -1)
  {
    hide RangeOf, At;
  }

  lemma ReadFinishes(f: Prom, was: seq<byte>, now: seq<byte>, offset: nat, rlength: nat, first: nat, n: nat)
    requires f.blockBytes > 0 && At(f.blockBytes, first) + n <= |Linear(f.blocks)|
    requires RangeOf(f, offset, Requested(rlength, At(f.blockBytes, |f.blocks|))) == Within(first, n)
    requires now == Padded(Linear(f.blocks)[At(f.blockBytes, first)..At(f.blockBytes, first) + n], n)
    ensures ReadEnds(f, was, now, offset, rlength, 0)
  {
    hide RangeOf, At, Linear;
  }

  lemma VerifyRefused(f: Prom, image: seq<byte>, offset: nat, rlength: nat, r: int)
    requires f.blockBytes > 0 && !RangeOf(f, offset, Requested(rlength, |image|)).Within?
    requires r == if RangeOf(f, offset, Requested(rlength, |image|)) == Misaligned then 1 else -1
    ensures VerifyEnds(f, image, offset, rlength, r)
  {
    hide RangeOf, At;
  }

  lemma VerifyFinishes(f: Prom, image: seq<byte>, offset: nat, rlength: nat, first: nat, n: nat, r: int)
    requires f.blockBytes > 0 && At(f.blockBytes, first) + n <= |Linear(f.blocks)| && n <= |image|
    requires RangeOf(f, offset, Requested(rlength, |image|)) == Within(first, n)
    requires r == 0 <==> Linear(f.blocks)[At(f.blockBytes, first)..At(f.blockBytes, first) + n] == image[..n]
    ensures VerifyEnds(f, image, offset, rlength, r)
  {
    hide RangeOf, At, Linear;
  }

  lemma PrefixGrows(s: seq<byte>, a: seq<byte>, b: seq<byte>)
    requires a <= s && |a| + |b| <= |s|
    ensures a + b <= s <==> b == s[|a|..|a| + |b|]
  {
    assert s == a + s[|a|..];
    if a + b <= s {
      assert s[|a|..|a| + |b|] == (a + b)[|a|..];
    } else {
      assert s[..|a| + |b|] == a + s[|a|..|a| + |b|];
    }
  }

  /** What has arrived decides the comparison when it differs, and when it is all. */
  lemma ArrivedDecides(f: Prom, first: nat, n: nat, i: nat, image: seq<byte>)
    requires At(f.blockBytes, first) + n <= |Linear(f.blocks)| && n <= |image|
    ensures var all := Linear(f.blocks)[At(f.blockBytes, first)..At(f.blockBytes, first) + n];
      && (!Agrees(f, first, n, i, image) ==> all != image[..n])
      && (At(f.blockBytes, i) >= n && Agrees(f, first, n, i, image) ==> all == image[..n])
    ensures i == 0 ==> Agrees(f, first, n, i, image)
  {
    hide At, Linear;
    NothingArrived(f, first, n);
    var all := Linear(f.blocks)[At(f.blockBytes, first)..At(f.blockBytes, first) + n];
    var c := if At(f.blockBytes, i) < n then At(f.blockBytes, i) else n;
    PrefixOfSlice(Linear(f.blocks), At(f.blockBytes, first), n, c);
    assert Arrived(f, first, n, i) == all[..c];
  }

  /** Programming changes no sizes. */
  lemma ProgramKeepsSize(f: Prom, g: Prom, image: seq<byte>, offset: nat, rlength: nat, r: int)
    requires f.blockBytes > 0 && ProgramEnds(f, g, image, offset, rlength, r)
    ensures |g.blocks| == |f.blocks|
  {
    hide BlockBurnt, RangeOf, BlocksFor;
  }

  /** Address and data register do not matter. */
  lemma OnlyBlocksMatter(f: Prom, p: Prom, g: Prom, image: seq<byte>, offset: nat, rlength: nat, r: int)
    requires f.blockBytes > 0 && ProgramEnds(f, p, image, offset, rlength, r) && g.blocks == p.blocks
    ensures ProgramEnds(f, g, image, offset, rlength, r)
  {
    hide Burnt, RangeOf, BlocksFor;
  }

  lemma SoundAgain(f: Prom, g: Prom)
    requires Sound(f) && g.blockBytes == f.blockBytes && g.blocks == f.blocks
    ensures Sound(g)
  {
  }
}
