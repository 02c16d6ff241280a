/**
 * The loop of programXCF in xc3sprog.cpp that spreads one file over several PROMs: PROM by PROM
 * it decides which part of the requested range lies there and moves that part.
 */
module PromSplit {
  import opened Bits
  import opened Flash
  import opened Pages
  import opened BitFiles
  import Xcf

  /** What a PROM has to do with the range. An rlength of 0 stands for everything to the PROM's end. */
  datatype Cut = Before | Behind | Use(offset: nat, rlength: nat)

  /** The decision for the PROM of `len` bytes at position pos. */
  function CutOf(pos: nat, len: nat, offset: nat, rlength: nat): Cut {
    if pos + len <= offset then Before
    else if pos >= offset + rlength then Behind
    else
      var start := if pos < offset then offset - pos else 0;
      Use(start, if pos + len > offset + rlength then offset + rlength - pos - start else 0)
  }

  /** The bytes moved for a PROM that is used. */
  function Moved(c: Cut, len: nat): nat
    requires c.Use? && c.offset <= len
  {
    if c.rlength != 0 then c.rlength else len - c.offset
  }

  /** Where a PROM starts. */
  function Position(proms: seq<seq<byte>>, k: nat): nat
    requires k <= |proms|
  {
    |Linear(proms[..k])|
  }

  /** The range starts where some PROM starts. */
  ghost predicate OnBoundary(proms: seq<seq<byte>>, offset: nat) {
    exists k :: 0 <= k <= |proms| && Position(proms, k) == offset
  }

  lemma NextPosition(proms: seq<seq<byte>>, k: nat)
    requires k < |proms|
    ensures Position(proms, k + 1) == Position(proms, k) + |proms[k]|
    ensures Linear(proms[..k + 1]) == Linear(proms[..k]) + proms[k]
  {
    assert proms[..k + 1][..k] == proms[..k];
  }

  lemma {:induction false} PositionsAscend(proms: seq<seq<byte>>, j: nat, k: nat)
    requires j <= k <= |proms|
    ensures Position(proms, j) <= Position(proms, k)
  {
    if j < k {
      PositionsAscend(proms, j, k - 1);
      NextPosition(proms, k - 1);
    }
  }

  /** No PROM has its start inside the gap: on a boundary no used PROM starts before the range. */
  lemma BoundaryStarts(proms: seq<seq<byte>>, k: nat, offset: nat)
    requires k < |proms| && OnBoundary(proms, offset)
    ensures Position(proms, k) >= offset || Position(proms, k) + |proms[k]| <= offset
  {
    var b :| 0 <= b <= |proms| && Position(proms, b) == offset;
    NextPosition(proms, k);
    if b <= k {
      PositionsAscend(proms, b, k);
    } else {
      PositionsAscend(proms, k + 1, b);
    }
  }

  // ---- The file index ----

  /** The place in the file that the loop takes a PROM's part from: it ignores where in the PROM the part starts. */
  function FileIndex(pos: nat, offset: nat): int {
    pos - offset
  }

  /** The place it would have to be: that of the PROM's first byte in the range. */
  function TrueIndex(pos: nat, offset: nat): int {
    if pos < offset then 0 else pos - offset
  }

  /** Every part comes from its own place in the file exactly when the range starts on a PROM boundary. */
  lemma IndexedExactlyWhen(proms: seq<seq<byte>>, offset: nat, rlength: nat)
    requires rlength > 0 && offset + rlength <= |Linear(proms)|
    ensures OnBoundary(proms, offset)
            <==> forall k :: 0 <= k < |proms| && CutOf(Position(proms, k), |proms[k]|, offset, rlength).Use? ==>
                   FileIndex(Position(proms, k), offset) == TrueIndex(Position(proms, k), offset)
  {
    hide Linear, Position;
    if OnBoundary(proms, offset) {
      forall k | 0 <= k < |proms| && CutOf(Position(proms, k), |proms[k]|, offset, rlength).Use?
        ensures CutOf(Position(proms, k), |proms[k]|, offset, rlength).offset == 0
      {
        BoundaryStarts(proms, k, offset);
      }
    } else {
      assert proms[..|proms|] == proms;
      AllPositions(proms);
      var k := Containing(proms, offset, |proms|);
      assert CutOf(Position(proms, k), |proms[k]|, offset, rlength).Use?;
    }
  }

  lemma AllPositions(proms: seq<seq<byte>>)
    ensures Position(proms, |proms|) == |Linear(proms)| && Position(proms, 0) == 0
  {
    assert proms[..|proms|] == proms;
  }

  /** The PROM that a place off the boundaries lies in. */
  lemma {:induction false} Containing(proms: seq<seq<byte>>, offset: nat, n: nat) returns (k: nat)
    requires n <= |proms| && !OnBoundary(proms, offset) && offset <= Position(proms, n)
    ensures k < |proms| && Position(proms, k) < offset < Position(proms, k) + |proms[k]|
  {
    assert Position(proms, n) != offset;
    assert n > 0 by {
      assert Linear(proms[..0]) == [];
    }
    NextPosition(proms, n - 1);
    if Position(proms, n - 1) < offset {
      k := n - 1;
    } else {
      k := Containing(proms, offset, n - 1);
    }
  }

  // ---- The pieces ----

  /** The part of the file that a PROM receives. */
  function Piece(pos: nat, len: nat, file: seq<byte>, offset: nat, rlength: nat): seq<byte> {
    var c := CutOf(pos, len, offset, rlength);
    if c.Use? && c.offset <= len && 0 <= FileIndex(pos, offset) <= |file| - Moved(c, len) then
      file[FileIndex(pos, offset)..FileIndex(pos, offset) + Moved(c, len)]
    else []
  }

  /** On a boundary a piece fits its PROM, starts at the PROM's start, and lies in the range. */
  lemma PieceFits(pos: nat, len: nat, file: seq<byte>, offset: nat, rlength: nat)
    requires rlength <= |file| && (pos >= offset || pos + len <= offset)
    ensures var c := CutOf(pos, len, offset, rlength);
      c.Use? ==> && c.offset == 0 && Moved(c, len) <= len
                 && 0 <= FileIndex(pos, offset) <= rlength - Moved(c, len)
                 && |Piece(pos, len, file, offset, rlength)| == Moved(c, len)
    ensures |Piece(pos, len, file, offset, rlength)| <= len
  {
  }

  /** How much of the range lies before a position. */
  function Reached(pos: nat, offset: nat, rlength: nat): nat {
    if pos <= offset then 0 else if pos >= offset + rlength then rlength else pos - offset
  }

  /** A piece continues the file where the pieces before it ended. */
  lemma PieceContinues(pos: nat, len: nat, file: seq<byte>, offset: nat, rlength: nat)
    requires rlength <= |file| && (pos >= offset || pos + len <= offset)
    ensures Reached(pos, offset, rlength) <= Reached(pos + len, offset, rlength) <= rlength
    ensures Piece(pos, len, file, offset, rlength)
            == file[Reached(pos, offset, rlength)..Reached(pos + len, offset, rlength)]
  {
  }

  /** The pieces of the first n PROMs. */
  function Pieces(proms: seq<seq<byte>>, n: nat, file: seq<byte>, offset: nat, rlength: nat): seq<seq<byte>>
    requires n <= |proms|
  {
    seq(n, k requires 0 <= k < n => Piece(Position(proms, k), |proms[k]|, file, offset, rlength))
  }

  /** The pieces, in the order of the PROMs, are the file data that was asked for, each byte once. */
  lemma PiecesAreFile(proms: seq<seq<byte>>, file: seq<byte>, offset: nat, rlength: nat)
    requires OnBoundary(proms, offset) && rlength <= |file| && offset + rlength <= |Linear(proms)|
    ensures Linear(Pieces(proms, |proms|, file, offset, rlength)) == file[..rlength]
    ensures forall k :: 0 <= k < |proms| ==>
            |Piece(Position(proms, k), |proms[k]|, file, offset, rlength)| <= |proms[k]|
  {
    hide Linear, Position, OnBoundary, Piece;
    AllPositions(proms);
    PiecesSoFar(proms, |proms|, file, offset, rlength);
    forall k | 0 <= k < |proms|
      ensures |Piece(Position(proms, k), |proms[k]|, file, offset, rlength)| <= |proms[k]|
    {
      BoundaryStarts(proms, k, offset);
      PieceFits(Position(proms, k), |proms[k]|, file, offset, rlength);
    }
  }

  lemma {:induction false} PiecesSoFar(proms: seq<seq<byte>>, n: nat, file: seq<byte>, offset: nat, rlength: nat)
    requires OnBoundary(proms, offset) && rlength <= |file| && n <= |proms|
    ensures Reached(Position(proms, n), offset, rlength) <= rlength
    ensures Linear(Pieces(proms, n, file, offset, rlength)) == file[..Reached(Position(proms, n), offset, rlength)]
  {
    hide Linear, Position, OnBoundary, Piece, Reached;
    if n == 0 {
      AllPositions(proms);
      ReachedNothing(offset, rlength);
      assert Pieces(proms, 0, file, offset, rlength) == [];
      LinearNothing();
    } else {
      var k := n - 1;
      PiecesSoFar(proms, k, file, offset, rlength);
      BoundaryStarts(proms, k, offset);
      NextPosition(proms, k);
      var (pos, len) := (Position(proms, k), |proms[k]|);
      PieceContinues(pos, len, file, offset, rlength);
      var piece := Piece(pos, len, file, offset, rlength);
      assert Pieces(proms, n, file, offset, rlength) == Pieces(proms, k, file, offset, rlength) + [piece];
      LinearAppend(Pieces(proms, k, file, offset, rlength), [piece]);
      LinearOne(piece);
      var (x, y) := (Reached(pos, offset, rlength), Reached(pos + len, offset, rlength));
      assert file[..x] + file[x..y] == file[..y];
    }
  }

  lemma ReachedNothing(offset: nat, rlength: nat)
    ensures Reached(0, offset, rlength) == 0
  {
  }

  lemma LinearNothing()
    ensures Linear([]) == []
  {
  }

  /** A PROM's part of a mask over all PROMs is its piece, filled up with blanks. */
  lemma PieceOfMask(total: nat, pos: nat, len: nat, file: seq<byte>, offset: nat, rlength: nat)
    requires rlength <= |file| && offset + rlength <= total && pos + len <= total
    requires pos >= offset || pos + len <= offset
    ensures Mask(total, offset, file[..rlength])[pos..pos + len] == Padded(Piece(pos, len, file, offset, rlength), len)
  {
    hide Mask;
    var data := file[..rlength];
    MaskSlice(total, offset, data, pos, len);
    var c := CutOf(pos, len, offset, rlength);
    if c.Use? {
      assert pos >= offset;
      PieceFits(pos, len, file, offset, rlength);
      assert Padded(data[pos - offset..], len) == Padded(Piece(pos, len, file, offset, rlength), len);
    }
  }

  lemma PlaceOf(proms: seq<seq<byte>>, k: nat)
    requires k < |proms|
    ensures Position(proms, k) + |proms[k]| <= |Linear(proms)|
    ensures Linear(proms)[Position(proms, k)..Position(proms, k) + |proms[k]|] == proms[k]
  {
    hide Linear;
    var (a, b) := (proms[..k], proms[k + 1..]);
    assert proms == a + [proms[k]] + b;
    LinearAppend(a + [proms[k]], b);
    LinearAppend(a, [proms[k]]);
    LinearOne(proms[k]);
    assert Linear(proms) == Linear(a) + proms[k] + Linear(b);
  }

  // ---- What each action does to a PROM ----

  datatype Action = EraseAndWrite | Write | Verify

  /** The bytes in each PROM of a chain. */
  function Contents(chain: seq<Xcf.Prom>): (r: seq<seq<byte>>)
    ensures |r| == |chain|
  {
    seq(|chain|, k requires 0 <= k < |chain| => Linear(chain[k].blocks))
  }

  /** A chain of working PROMs whose size in bits is a 32-bit number. */
  ghost predicate SoundChain(chain: seq<Xcf.Prom>) {
    && (forall k :: 0 <= k < |chain| ==> Xcf.Sound(chain[k]) && chain[k].shifting == [])
    && |Linear(Contents(chain))| < MAX_BYTES
  }

  /** The file as it is handed on for one PROM: for a single PROM the file itself, otherwise a copy of the piece. */
  function Handed(count: nat, pos: nat, len: nat, image: seq<byte>, offset: nat, rlength: nat): seq<byte> {
    if count == 1 then image else Piece(pos, len, image, offset, rlength)
  }

  /** The length that is requested for it; 0 means all there is. */
  function HandedLength(count: nat, c: Cut, image: seq<byte>): nat
    requires c.Use?
  {
    if count == 1 then SingleRequest(c, |image|) else c.rlength
  }

  /** With one PROM the file itself is handed on, with this length request. */
  function SingleRequest(c: Cut, fileLength: nat): nat
    requires c.Use?
  {
    if c.rlength != fileLength then c.rlength else 0
  }

  /**
   * How the program ends: a refused request does nothing, 0 comes after the last PROM, and a PROM
   * that could not be erased (code 1) is told apart from one whose programming gave the code.
   */
  datatype Ended = Refused | NotErased | Code(code: int)

  /** How erasing and programming one PROM ends. */
  ghost predicate PartEnds(action: Action, f: Xcf.Prom, g: Xcf.Prom, image: seq<byte>, offset: nat, rlength: nat,
                           r: Ended)
    requires f.blockBytes > 0
  {
    match action
    case Verify => r == Code(0) && g.blocks == f.blocks
    case Write => r.Code? && Xcf.ProgramEnds(f, g, image, offset, rlength, r.code)
    case EraseAndWrite =>
      r == NotErased
      || (r.Code? && exists e: Xcf.Prom :: ErasedFrom(f, e) && Xcf.ProgramEnds(e, g, image, offset, rlength, r.code))
  }

  ghost predicate ErasedFrom(f: Xcf.Prom, e: Xcf.Prom) {
    Xcf.SameSize(f, e) && e.blockBytes > 0 && Xcf.Sound(e) && Xcf.BlankBlocks(e, 0, |e.blocks|)
  }

  /** What a PROM holds after an action, given its part of the mask. */
  function After(action: Action, was: seq<byte>, part: seq<byte>): seq<byte>
    requires |was| == |part|
  {
    match action
    case Verify => was
    case Write => BurnAll(was, part)
    case EraseAndWrite => part
  }

  /** A PROM when the loop is past it: used ones have their part, all others are as they were. */
  ghost predicate PromDone(action: Action, f: Xcf.Prom, g: Xcf.Prom, pos: nat, mask: seq<byte>, offset: nat,
                           rlength: nat) {
    var (was, now) := (Linear(f.blocks), Linear(g.blocks));
    && Xcf.SameSize(f, g) && g.shifting == [] && Xcf.Sound(g)
    && pos + |was| <= |mask|
    && if CutOf(pos, |was|, offset, rlength).Use? then now == After(action, was, mask[pos..pos + |was|])
       else g.blocks == f.blocks
  }

  /** A part that has been programmed is the mask of its data over the PROM. */
  lemma PartWritten(action: Action, f: Xcf.Prom, g: Xcf.Prom, image: seq<byte>, offset: nat, rlength: nat, first: nat,
                    n: nat)
    requires Xcf.Sound(f) && Xcf.Sound(g) && Xcf.SameSize(f, g)
    requires PartEnds(action, f, g, image, offset, rlength, Code(0))
    requires Xcf.RangeOf(f, offset, Xcf.Requested(rlength, |image|)) == Xcf.Within(first, n) && n <= |image|
    ensures var total := |Linear(f.blocks)|;
      && total == Xcf.At(f.blockBytes, |f.blocks|)
      && Xcf.At(f.blockBytes, first) + n <= total
      && Linear(g.blocks) == After(action, Linear(f.blocks), Mask(total, Xcf.At(f.blockBytes, first), image[..n]))
  {
    hide Linear, Xcf.At, Xcf.Burnt, Mask, BurnAll, Xcf.RangeOf, Xcf.BlankBlocks, Xcf.BlocksFor;
    SameFirst(f, g, offset, Xcf.Requested(rlength, |image|));
    match action
    case Verify =>
    case Write =>
      Xcf.BurntSpace(f, g, first, image[..n]);
    case EraseAndWrite =>
      var e: Xcf.Prom :| ErasedFrom(f, e) && Xcf.ProgramEnds(e, g, image, offset, rlength, 0);
      SameRange(f, e, offset, Xcf.Requested(rlength, |image|));
      SameFirst(e, g, offset, Xcf.Requested(rlength, |image|));
      Xcf.BurntSpace(e, g, first, image[..n]);
      BlankSpace(e);
      BurnAllErased(Linear(e.blocks), Mask(Xcf.At(f.blockBytes, |f.blocks|), Xcf.At(f.blockBytes, first), image[..n]));
  }

  /** Only the size of a PROM matters for what a request amounts to. */
  lemma SameRange(f: Xcf.Prom, e: Xcf.Prom, offset: nat, bytes: nat)
    requires f.blockBytes > 0 && Xcf.SameSize(f, e)
    ensures Xcf.RangeOf(e, offset, bytes) == Xcf.RangeOf(f, offset, bytes)
  {
  }

  lemma SameFirst(f: Xcf.Prom, g: Xcf.Prom, offset: nat, bytes: nat)
    requires Xcf.Sound(f) && Xcf.RangeOf(f, offset, bytes).Within?
    ensures var w := Xcf.RangeOf(f, offset, bytes);
      && Xcf.At(f.blockBytes, w.first) + w.n <= Xcf.At(f.blockBytes, |f.blocks|) == |Linear(f.blocks)|
      && w.first + Xcf.BlocksFor(f.blockBytes, w.n) <= |f.blocks|
  {
    hide Linear, Xcf.At, Xcf.RangeOf, Xcf.BlocksFor;
    Xcf.RangeFits(f, offset, bytes);
  }

  lemma BlankSpace(e: Xcf.Prom)
    requires Xcf.Sound(e) && Xcf.BlankBlocks(e, 0, |e.blocks|)
    ensures forall x :: 0 <= x < |Linear(e.blocks)| ==> Linear(e.blocks)[x] == BLANK
  {
    LinearOfBlanks(e.blocks, e.blockBytes);
  }

  lemma {:induction false} LinearOfBlanks(blocks: seq<seq<byte>>, n: nat)
    requires forall b :: 0 <= b < |blocks| ==> blocks[b] == Repeat<byte>(BLANK, n)
    ensures forall x :: 0 <= x < |Linear(blocks)| ==> Linear(blocks)[x] == BLANK
  {
    if blocks != [] {
      LinearOfBlanks(blocks[..|blocks| - 1], n);
    }
  }

  // ---- The request for one PROM ----

  /** Of several PROMs each gets its piece at its start. */
  lemma PieceRange(f: Xcf.Prom, count: nat, pos: nat, image: seq<byte>, offset: nat, rlength: nat)
    requires Xcf.Sound(f) && count > 1 && rlength <= |image|
    requires var len := |Linear(f.blocks)|;
      len < MAX_BYTES && (pos >= offset || pos + len <= offset) && CutOf(pos, len, offset, rlength).Use?
    ensures var (len, c) := (|Linear(f.blocks)|, CutOf(pos, |Linear(f.blocks)|, offset, rlength));
      var part := Handed(count, pos, len, image, offset, rlength);
      && c.offset == 0 && |part| <= len && Xcf.At(f.blockBytes, 0) == 0
      && Xcf.RangeOf(f, c.offset, Xcf.Requested(HandedLength(count, c, image), |part|)) == Xcf.Within(0, |part|)
  {
    hide Linear;
    PieceFits(pos, |Linear(f.blocks)|, image, offset, rlength);
    LinearLength(f.blocks, f.blockBytes);
    DivideUnique(0, f.blockBytes, 0, 0);
  }

  /** A single PROM gets exactly the range, if that starts on a block. */
  lemma SingleRange(f: Xcf.Prom, image: seq<byte>, offset: nat, rlength: nat)
    requires Xcf.Sound(f) && |image| < MAX_BYTES && rlength <= |image| && (rlength == 0 ==> |image| == 0)
    requires |Linear(f.blocks)| < MAX_BYTES && offset + rlength <= |Linear(f.blocks)|
    requires CutOf(0, |Linear(f.blocks)|, offset, rlength).Use?
    ensures var c := CutOf(0, |Linear(f.blocks)|, offset, rlength);
      && c.offset == offset
      && Xcf.RangeOf(f, offset, Xcf.Requested(SingleRequest(c, |image|), |image|))
         == (if offset % f.blockBytes != 0 then Xcf.Misaligned else Xcf.Within(offset / f.blockBytes, rlength))
      && (offset % f.blockBytes == 0 ==> Xcf.At(f.blockBytes, offset / f.blockBytes) == offset)
  {
    hide Linear;
    LinearLength(f.blocks, f.blockBytes);
    Euclid(offset, f.blockBytes);
  }

  /** The request as the loop knows it: lengths fit, and the range starts where it may. */
  ghost predicate Accepted(chain: seq<Xcf.Prom>, image: seq<byte>, offset: nat, rlength: nat) {
    && SoundChain(chain)
    && |image| < MAX_BYTES && rlength <= |image| && (rlength == 0 ==> |image| == 0)
    && offset + rlength <= |Linear(Contents(chain))|
    && (|chain| > 1 ==> OnBoundary(Contents(chain), offset))
  }

  /** The mask of the request over all PROMs. */
  ghost function RequestMask(chain: seq<Xcf.Prom>, image: seq<byte>, offset: nat, rlength: nat): (r: seq<byte>)
    requires Accepted(chain, image, offset, rlength)
    ensures |r| == |Linear(Contents(chain))|
  {
    Mask(|Linear(Contents(chain))|, offset, image[..rlength])
  }

  /** PROM k of a chain that accepted a request. */
  lemma PromOf(chain: seq<Xcf.Prom>, image: seq<byte>, offset: nat, rlength: nat, k: nat)
    requires Accepted(chain, image, offset, rlength) && k < |chain|
    ensures var (pos, len) := (Position(Contents(chain), k), |Linear(chain[k].blocks)|);
      && Xcf.Sound(chain[k]) && chain[k].shifting == []
      && pos + len <= |Linear(Contents(chain))| < MAX_BYTES
      && rlength <= |image| && offset + rlength <= |Linear(Contents(chain))|
      && Position(Contents(chain), k + 1) == pos + len
      && (|chain| > 1 ==> pos >= offset || pos + len <= offset)
      && (|chain| == 1 ==> pos == 0 && len == |Linear(Contents(chain))|)
      && len == Xcf.At(chain[k].blockBytes, |chain[k].blocks|)
  {
    hide Linear, Position, OnBoundary;
    var proms := Contents(chain);
    PlaceOf(proms, k);
    NextPosition(proms, k);
    AllPositions(proms);
    Xcf.AllBytes(chain[k]);
    if |chain| > 1 {
      BoundaryStarts(proms, k, offset);
    }
  }

  /** A used PROM whose action succeeded has its part of the mask. */
  lemma UsedDone(action: Action, chain: seq<Xcf.Prom>, g: Xcf.Prom, image: seq<byte>, offset: nat, rlength: nat, k: nat)
    requires Accepted(chain, image, offset, rlength) && k < |chain|
    requires Xcf.Sound(g) && Xcf.SameSize(chain[k], g) && g.shifting == []
    requires var (pos, len) := (Position(Contents(chain), k), |Linear(chain[k].blocks)|);
      var c := CutOf(pos, len, offset, rlength);
      && c.Use? && chain[k].blockBytes > 0
      && PartEnds(action, chain[k], g, Handed(|chain|, pos, len, image, offset, rlength), c.offset,
                  HandedLength(|chain|, c, image), Code(0))
    ensures PromDone(action, chain[k], g, Position(Contents(chain), k), RequestMask(chain, image, offset, rlength),
                     offset, rlength)
  {
    hide Linear, Position, OnBoundary, Mask, PartEnds, After, Contents, CutOf, Piece, Xcf.At, Xcf.RangeOf,
         Xcf.Requested, Xcf.Sound;
    PromOf(chain, image, offset, rlength, k);
    var (f, pos, len, total) :=
      (chain[k], Position(Contents(chain), k), |Linear(chain[k].blocks)|, |Linear(Contents(chain))|);
    var c := CutOf(pos, len, offset, rlength);
    var part := Handed(|chain|, pos, len, image, offset, rlength);
    if action == Verify {
      VerifiedOnly(f, g, part, c.offset, HandedLength(|chain|, c, image),
                   Mask(total, offset, image[..rlength])[pos..pos + len]);
    } else if |chain| > 1 {
      PieceRange(f, |chain|, pos, image, offset, rlength);
      PartWritten(action, f, g, part, 0, HandedLength(|chain|, c, image), 0, |part|);
      assert part[..|part|] == part;
      MaskAtStart(len, part);
      PieceOfMask(total, pos, len, image, offset, rlength);
    } else {
      SingleRange(f, image, offset, rlength);
      NotRefused(action, f, g, image, offset, HandedLength(1, c, image));
      PartWritten(action, f, g, image, offset, HandedLength(1, c, image), offset / f.blockBytes, rlength);
      assert Mask(total, offset, image[..rlength])[0..total] == Mask(total, offset, image[..rlength]);
    }
  }

  lemma VerifiedOnly(f: Xcf.Prom, g: Xcf.Prom, image: seq<byte>, offset: nat, rlength: nat, part: seq<byte>)
    requires f.blockBytes > 0 && PartEnds(Verify, f, g, image, offset, rlength, Code(0)) && |part| == |Linear(f.blocks)|
    ensures Linear(g.blocks) == After(Verify, Linear(f.blocks), part)
  {
    hide Linear;
  }

  /** Programming that succeeds was not refused. */
  lemma NotRefused(action: Action, f: Xcf.Prom, g: Xcf.Prom, image: seq<byte>, offset: nat, rlength: nat)
    requires Xcf.Sound(f) && action != Verify && PartEnds(action, f, g, image, offset, rlength, Code(0))
    ensures Xcf.RangeOf(f, offset, Xcf.Requested(rlength, |image|)).Within?
  {
    hide Linear, Xcf.RangeOf, Xcf.Burnt;
    if action == EraseAndWrite {
      var e: Xcf.Prom :| ErasedFrom(f, e) && Xcf.ProgramEnds(e, g, image, offset, rlength, 0);
      SameRange(f, e, offset, Xcf.Requested(rlength, |image|));
    }
  }

  // ---- The loop ----

  /** How the loop ends on PROM k when erasing or programming it fails. */
  ghost predicate StopsAt(action: Action, chain: seq<Xcf.Prom>, now: seq<Xcf.Prom>, image: seq<byte>, offset: nat,
                          rlength: nat, k: nat, r: Ended)
    requires Accepted(chain, image, offset, rlength) && |now| == |chain|
  {
    k < |chain| && chain[k].blockBytes > 0 && r != Refused && r != Code(0)
    && (forall j :: 0 <= j < k ==>
          PromDone(action, chain[j], now[j], Position(Contents(chain), j), RequestMask(chain, image, offset, rlength),
                   offset, rlength))
    && (forall j :: k < j < |chain| ==> now[j] == chain[j])
    && var (pos, len) := (Position(Contents(chain), k), |Linear(chain[k].blocks)|);
       var c := CutOf(pos, len, offset, rlength);
       c.Use? && PartEnds(action, chain[k], now[k], Handed(|chain|, pos, len, image, offset, rlength), c.offset,
                          HandedLength(|chain|, c, image), r)
  }

  /** The loop ran through: every PROM has what the action leaves in it. */
  ghost predicate AllDone(action: Action, chain: seq<Xcf.Prom>, now: seq<Xcf.Prom>, image: seq<byte>, offset: nat,
                          rlength: nat)
    requires Accepted(chain, image, offset, rlength)
  {
    |now| == |chain|
    && forall k :: 0 <= k < |chain| ==>
         PromDone(action, chain[k], now[k], Position(Contents(chain), k), RequestMask(chain, image, offset, rlength),
                  offset, rlength)
  }

  /** A PROM that the range does not reach is left alone. */
  lemma UnusedDone(action: Action, chain: seq<Xcf.Prom>, image: seq<byte>, offset: nat, rlength: nat, k: nat)
    requires Accepted(chain, image, offset, rlength) && k < |chain|
    requires !CutOf(Position(Contents(chain), k), |Linear(chain[k].blocks)|, offset, rlength).Use?
    ensures PromDone(action, chain[k], chain[k], Position(Contents(chain), k),
                     RequestMask(chain, image, offset, rlength), offset, rlength)
  {
    hide Linear, Position, OnBoundary, Mask, Contents, CutOf, Xcf.Sound;
    PromOf(chain, image, offset, rlength, k);
  }

  /** Once a PROM lies behind the range, all later ones do. */
  lemma RestUnused(action: Action, chain: seq<Xcf.Prom>, image: seq<byte>, offset: nat, rlength: nat, k: nat)
    requires Accepted(chain, image, offset, rlength) && k < |chain|
    requires CutOf(Position(Contents(chain), k), |Linear(chain[k].blocks)|, offset, rlength) == Behind
    ensures forall j :: k <= j < |chain| ==>
      PromDone(action, chain[j], chain[j], Position(Contents(chain), j), RequestMask(chain, image, offset, rlength),
               offset, rlength)
  {
    hide Linear, Position, OnBoundary, RequestMask, Contents, Accepted, PromDone;
    forall j | k <= j < |chain|
      ensures PromDone(action, chain[j], chain[j], Position(Contents(chain), j),
                       RequestMask(chain, image, offset, rlength), offset, rlength)
    {
      PositionsAscend(Contents(chain), k, j);
      UnusedDone(action, chain, image, offset, rlength, j);
    }
  }

  /** What one PROM is given: a copy of its piece, or the file itself when it is the only one. */
  method Hand(promfile: BitFile, single: bool, c: Cut, from: int, len: nat) returns (cur: BitFile)
    requires promfile.Valid() && promfile.length < MAX_BYTES && c.Use? && c.offset <= len
    requires c.offset < WORD && c.rlength <= promfile.length
    requires !single ==> 0 <= from && from + Moved(c, len) <= promfile.length
    modifies promfile`offset, promfile`rlength
    ensures promfile.Valid() && (cur == promfile || fresh(cur))
    ensures cur.Valid() && cur.length < MAX_BYTES && cur.rlength <= cur.length && cur.offset == c.offset
    ensures cur.Data() == if single then promfile.Data() else promfile.Data()[from..from + Moved(c, len)]
    ensures cur.rlength == if single then SingleRequest(c, promfile.length) else c.rlength
  {
    if single {
      cur := promfile;
    } else {
      cur := new BitFile();
    }
    cur.offset := c.offset;
    if c.rlength * 8 != cur.GetLength() {
      cur.rlength := c.rlength;
    } else {
      cur.rlength := 0;
    }
    if !single {
      CopyPart(promfile, from, Moved(c, len), cur);
    }
  }

  /** Copies a part of the file into an image of its own. */
  method CopyPart(promfile: BitFile, from: nat, n: nat, tmp: BitFile)
    requires promfile != tmp && promfile.Valid() && tmp.Valid() && from + n <= promfile.length < MAX_BYTES
    modifies tmp`buffer, tmp`length
    ensures tmp.Valid() && tmp.Data() == promfile.Data()[from..from + n]
  {
    var part := promfile.Load(from, n);
    tmp.SetLength(n * 8);
    tmp.Store(0, part);
  }

  /** Erases, programs and verifies one PROM as the action says; the result of verifying is not used. */
  method RunPart(action: Action, f: Xcf.Prom, optimized: bool, cur: BitFile) returns (r: Ended, g: Xcf.Prom)
    requires Xcf.Sound(f) && f.shifting == [] && 8 * Xcf.At(f.blockBytes, |f.blocks|) < WORD
    requires cur.Valid() && cur.length < MAX_BYTES && cur.rlength <= cur.length
    ensures Xcf.Sound(g) && Xcf.SameSize(f, g) && g.shifting == []
    ensures f.blockBytes > 0 && r != Refused && PartEnds(action, f, g, cur.Data(), cur.offset, cur.rlength, r)
  {
    hide Xcf.Sound, Xcf.At, Xcf.ProgramEnds, Xcf.BlankBlocks;
    Xcf.SoundSize(f);
    var alg := new Xcf.ProgAlgXCF(f, optimized);
    var res := 0;
    if action == EraseAndWrite {
      res := alg.Erase();
      if res != 0 {
        return NotErased, alg.prom;
      }
    }
    ghost var e := alg.prom;
    if action != Verify {
      res := alg.Program(cur);
      Xcf.ProgramKeepsSize(e, alg.prom, cur.Data(), cur.offset, cur.rlength, res);
      if res != 0 {
        return Code(res), alg.prom;
      }
    }
    ghost var p := alg.prom;
    var ignored := alg.Verify(cur);
    r, g := Code(0), alg.prom;
    if action != Verify {
      Xcf.OnlyBlocksMatter(e, p, g, cur.Data(), cur.offset, cur.rlength, res);
    }
  }

  /** Spreads a file over the PROMs of a chain, or checks them against it. */
  method ProgramXcf(action: Action, chain: seq<Xcf.Prom>, optimized: seq<bool>, promfile: BitFile)
      returns (r: Ended, now: seq<Xcf.Prom>)
    requires SoundChain(chain) && |chain| >= 1 && |optimized| == |chain|
    requires promfile.Valid() && promfile.length < MAX_BYTES
    requires |chain| > 1 ==> OnBoundary(Contents(chain), promfile.offset)
    modifies promfile`offset, promfile`rlength
    ensures promfile.Valid() && |now| == |chain|
    ensures var (image, offset) := (promfile.Data(), old(promfile.offset));
      var rlength := if old(promfile.rlength) == 0 then |image| else old(promfile.rlength);
      && (r == Refused <==> rlength > |image| || offset + rlength > |Linear(Contents(chain))|)
      && (r == Refused ==> now == chain)
      && (r != Refused ==> Accepted(chain, image, offset, rlength))
      && (r == Code(0) ==> AllDone(action, chain, now, image, offset, rlength))
      && (r != Refused && r != Code(0) ==> exists k :: StopsAt(action, chain, now, image, offset, rlength, k, r))
  {
    hide Linear, Position, OnBoundary, Contents, RequestMask, AllDone, StopsAt, SoundChain;
    var offset := promfile.offset;
    var rlength := if promfile.rlength == 0 then promfile.GetLength() / 8 else promfile.rlength;
    now := chain;
    var total := |Linear(Contents(chain))|;
    if rlength > promfile.GetLength() / 8 || offset > total || rlength > total - offset {
      return Refused, now;
    }
    ghost var k;
    r, now, k := RunChain(action, chain, optimized, promfile, offset, rlength);
  }

  method RunChain(action: Action, chain: seq<Xcf.Prom>, optimized: seq<bool>, promfile: BitFile, offset: nat,
                  rlength: nat)
      returns (r: Ended, now: seq<Xcf.Prom>, ghost k: nat)
    requires promfile.Valid() && |chain| >= 1 && |optimized| == |chain| && offset < WORD
    requires Accepted(chain, promfile.Data(), offset, rlength)
    modifies promfile`offset, promfile`rlength
    ensures promfile.Valid() && |now| == |chain|
    ensures r != Refused && (r == Code(0) ==> AllDone(action, chain, now, promfile.Data(), offset, rlength))
    ensures r != Code(0) ==> StopsAt(action, chain, now, promfile.Data(), offset, rlength, k, r)
  {
    hide Linear, Position, OnBoundary, Contents, PartEnds, CutOf, Piece, Xcf.Sound, Xcf.At, Accepted, StopsAt, AllDone,
         Underway, HandedLength, Handed, Moved;
    ghost var image := promfile.Data();
    now, k, r := chain, 0, Code(0);
    AcceptedLength(chain, image, offset, rlength);
    UnderwayBegins(action, chain, image, offset, rlength);
    var pos, i := 0, 0;
    while i < |chain|
      invariant i <= |chain| && r == Code(0) && promfile.Valid() && promfile.Data() == image
      invariant |now| == |chain| && pos == Position(Contents(chain), i)
      invariant Underway(action, chain, now, image, offset, rlength, i)
    {
      k := i;
      var len := |Linear(chain[i].blocks)|;
      PromOf(chain, image, offset, rlength, i);
      var c := CutOf(pos, len, offset, rlength);
      if c == Behind {
        UnderwayBreaks(action, chain, now, image, offset, rlength, i);
        return Code(0), now, k;
      }
      UnderwayUnused(action, chain, now, image, offset, rlength, i);
      if c.Use? {
        CutFits(|chain|, pos, len, image, offset, rlength);
        var cur := Hand(promfile, |chain| == 1, c, FileIndex(pos, offset), len);
        HandedIs(|chain|, pos, len, image, offset, rlength);
        var g;
        r, g := RunPart(action, chain[i], optimized[i], cur);
        if r != Code(0) {
          UnderwayStops(action, chain, now, image, offset, rlength, i, g, r);
          return r, now[i := g], k;
        }
        UnderwayUsed(action, chain, now, image, offset, rlength, i, g);
        now := now[i := g];
      }
      pos := pos + len;
      i := i + 1;
    }
    UnderwayEnds(action, chain, now, image, offset, rlength);
  }

  /** The loop has reached PROM k. */
  ghost predicate Underway(action: Action, chain: seq<Xcf.Prom>, now: seq<Xcf.Prom>, image: seq<byte>, offset: nat,
                           rlength: nat, k: nat)
  {
    && Accepted(chain, image, offset, rlength) && |now| == |chain|
    && (forall j :: k <= j < |chain| ==> now[j] == chain[j])
    && (forall j :: 0 <= j < k && j < |chain| ==>
          PromDone(action, chain[j], now[j], Position(Contents(chain), j), RequestMask(chain, image, offset, rlength),
                   offset, rlength))
  }

  lemma AcceptedLength(chain: seq<Xcf.Prom>, image: seq<byte>, offset: nat, rlength: nat)
    requires Accepted(chain, image, offset, rlength)
    ensures rlength <= |image| < MAX_BYTES && Position(Contents(chain), 0) == 0
  {
    hide Linear, SoundChain, OnBoundary, Contents, Position;
    AllPositions(Contents(chain));
  }

  lemma UnderwayBegins(action: Action, chain: seq<Xcf.Prom>, image: seq<byte>, offset: nat, rlength: nat)
    requires Accepted(chain, image, offset, rlength)
    ensures Underway(action, chain, chain, image, offset, rlength, 0)
  {
    hide Accepted, PromDone, RequestMask;
  }

  lemma UnderwayUnused(action: Action, chain: seq<Xcf.Prom>, now: seq<Xcf.Prom>, image: seq<byte>, offset: nat,
                       rlength: nat, k: nat)
    requires Underway(action, chain, now, image, offset, rlength, k) && k < |chain|
    ensures !CutOf(Position(Contents(chain), k), |Linear(chain[k].blocks)|, offset, rlength).Use? ==>
      Underway(action, chain, now, image, offset, rlength, k + 1)
  {
    hide Accepted, PromDone, RequestMask, Position, Contents, CutOf, Linear;
    if !CutOf(Position(Contents(chain), k), |Linear(chain[k].blocks)|, offset, rlength).Use? {
      UnusedDone(action, chain, image, offset, rlength, k);
    }
  }

  lemma UnderwayBreaks(action: Action, chain: seq<Xcf.Prom>, now: seq<Xcf.Prom>, image: seq<byte>, offset: nat,
                       rlength: nat, k: nat)
    requires Underway(action, chain, now, image, offset, rlength, k) && k < |chain|
    requires CutOf(Position(Contents(chain), k), |Linear(chain[k].blocks)|, offset, rlength) == Behind
    ensures AllDone(action, chain, now, image, offset, rlength)
  {
    hide Accepted, PromDone, RequestMask, Position, Contents, CutOf, Linear;
    RestUnused(action, chain, image, offset, rlength, k);
  }

  lemma UnderwayUsed(action: Action, chain: seq<Xcf.Prom>, now: seq<Xcf.Prom>, image: seq<byte>, offset: nat,
                     rlength: nat, k: nat, g: Xcf.Prom)
    requires Underway(action, chain, now, image, offset, rlength, k) && k < |chain|
    requires Xcf.Sound(g) && Xcf.SameSize(chain[k], g) && g.shifting == []
    requires var (pos, len) := (Position(Contents(chain), k), |Linear(chain[k].blocks)|);
      var c := CutOf(pos, len, offset, rlength);
      && c.Use? && chain[k].blockBytes > 0
      && PartEnds(action, chain[k], g, Handed(|chain|, pos, len, image, offset, rlength), c.offset,
                  HandedLength(|chain|, c, image), Code(0))
    ensures Underway(action, chain, now[k := g], image, offset, rlength, k + 1)
  {
    hide Accepted, PromDone, RequestMask, Position, Contents, CutOf, Linear, PartEnds, Handed, HandedLength, Xcf.Sound,
         Xcf.SameSize;
    UsedDone(action, chain, g, image, offset, rlength, k);
  }

  lemma UnderwayStops(action: Action, chain: seq<Xcf.Prom>, now: seq<Xcf.Prom>, image: seq<byte>, offset: nat,
                      rlength: nat, k: nat, g: Xcf.Prom, r: Ended)
    requires Underway(action, chain, now, image, offset, rlength, k) && k < |chain| && r != Refused && r != Code(0)
    requires var (pos, len) := (Position(Contents(chain), k), |Linear(chain[k].blocks)|);
      var c := CutOf(pos, len, offset, rlength);
      && c.Use? && chain[k].blockBytes > 0
      && PartEnds(action, chain[k], g, Handed(|chain|, pos, len, image, offset, rlength), c.offset,
                  HandedLength(|chain|, c, image), r)
    ensures StopsAt(action, chain, now[k := g], image, offset, rlength, k, r)
  {
    hide Accepted, PromDone, RequestMask, Position, Contents, CutOf, Linear, PartEnds, Handed, HandedLength;
  }

  lemma UnderwayEnds(action: Action, chain: seq<Xcf.Prom>, now: seq<Xcf.Prom>, image: seq<byte>, offset: nat,
                     rlength: nat)
    requires Underway(action, chain, now, image, offset, rlength, |chain|)
    ensures AllDone(action, chain, now, image, offset, rlength)
  {
    hide Accepted, PromDone, RequestMask;
  }

  /** What is handed on is what the specification says. */
  lemma HandedIs(count: nat, pos: nat, len: nat, image: seq<byte>, offset: nat, rlength: nat)
    requires CutOf(pos, len, offset, rlength).Use? && rlength <= |image|
    requires count > 1 ==> pos >= offset || pos + len <= offset
    requires count == 1 ==> pos == 0 && offset + rlength <= len
    requires count >= 1
    ensures var c := CutOf(pos, len, offset, rlength);
      && (count == 1 ==> Handed(count, pos, len, image, offset, rlength) == image
                         && HandedLength(count, c, image) == SingleRequest(c, |image|))
      && (count != 1 ==> c.offset <= len && 0 <= FileIndex(pos, offset) <= |image| - Moved(c, len)
                         && Handed(count, pos, len, image, offset, rlength)
                            == image[FileIndex(pos, offset)..FileIndex(pos, offset) + Moved(c, len)]
                         && HandedLength(count, c, image) == c.rlength)
  {
  }

  /** The bounds that handing a part on relies on. */
  lemma CutFits(count: nat, pos: nat, len: nat, image: seq<byte>, offset: nat, rlength: nat)
    requires CutOf(pos, len, offset, rlength).Use? && rlength <= |image|
    requires count > 1 ==> pos >= offset || pos + len <= offset
    requires count == 1 ==> pos == 0 && offset + rlength <= len
    requires count >= 1
    ensures var c := CutOf(pos, len, offset, rlength);
      && c.offset <= len && c.rlength <= rlength
      && (count > 1 ==> 0 <= FileIndex(pos, offset) <= |image| - Moved(c, len)
                        && Piece(pos, len, image, offset, rlength)
                           == image[FileIndex(pos, offset)..FileIndex(pos, offset) + Moved(c, len)])
  {
  }

  // ---- What a finished run means for the whole space ----

  /** The joined contents grow PROM by PROM, before and after a run. */
  lemma SpaceGrows(action: Action, chain: seq<Xcf.Prom>, now: seq<Xcf.Prom>, image: seq<byte>, offset: nat,
                   rlength: nat, k: nat)
    requires Accepted(chain, image, offset, rlength) && AllDone(action, chain, now, image, offset, rlength)
             && k < |chain|
    ensures var (a, b, pos) := (Linear(chain[k].blocks), Linear(now[k].blocks), Position(Contents(chain), k));
      && |a| == |b| && pos + |a| <= |Linear(Contents(chain))| && Position(Contents(chain), k + 1) == pos + |a|
      && Linear(Contents(chain)[..k + 1]) == Linear(Contents(chain)[..k]) + a
      && Linear(Contents(now)[..k + 1]) == Linear(Contents(now)[..k]) + b
      && PromDone(action, chain[k], now[k], pos, RequestMask(chain, image, offset, rlength), offset, rlength)
      && (|chain| > 1 ==> pos >= offset || pos + |a| <= offset)
  {
    hide Linear, Position, OnBoundary, RequestMask, PromDone, Accepted;
    PromOf(chain, image, offset, rlength, k);
    NextPosition(Contents(chain), k);
    NextPosition(Contents(now), k);
    SameLength(action, chain[k], now[k], Position(Contents(chain), k), RequestMask(chain, image, offset, rlength),
               offset, rlength);
  }

  lemma SameLength(action: Action, f: Xcf.Prom, g: Xcf.Prom, pos: nat, mask: seq<byte>, offset: nat, rlength: nat)
    requires Xcf.Sound(f) && PromDone(action, f, g, pos, mask, offset, rlength)
    ensures |Linear(f.blocks)| == |Linear(g.blocks)|
  {
    hide Linear;
    Xcf.AllBytes(f);
    Xcf.AllBytes(g);
  }

  /** The mask is blank over a PROM that is not used. */
  lemma UnusedMask(chain: seq<Xcf.Prom>, image: seq<byte>, offset: nat, rlength: nat, k: nat)
    requires Accepted(chain, image, offset, rlength) && k < |chain|
    requires !CutOf(Position(Contents(chain), k), |Linear(chain[k].blocks)|, offset, rlength).Use?
    ensures var (pos, len) := (Position(Contents(chain), k), |Linear(chain[k].blocks)|);
      pos + len <= |Linear(Contents(chain))|
      && RequestMask(chain, image, offset, rlength)[pos..pos + len] == Repeat<byte>(BLANK, len)
  {
    hide Linear, Position, OnBoundary, Contents, Mask;
    PromOf(chain, image, offset, rlength, k);
    MaskSlice(|Linear(Contents(chain))|, offset, image[..rlength], Position(Contents(chain), k),
              |Linear(chain[k].blocks)|);
  }

  /** After writing without erasing, the joined contents have the data burnt into the range, and nothing else. */
  lemma WriteBurnsRange(chain: seq<Xcf.Prom>, now: seq<Xcf.Prom>, image: seq<byte>, offset: nat, rlength: nat)
    requires Accepted(chain, image, offset, rlength) && AllDone(Write, chain, now, image, offset, rlength)
    ensures Linear(Contents(now)) == BurnAll(Linear(Contents(chain)), RequestMask(chain, image, offset, rlength))
  {
    hide Linear, Position, OnBoundary, RequestMask, PromDone, Accepted, AllDone, BurnAll;
    DoneLength(Write, chain, now, image, offset, rlength);
    BurnsSoFar(chain, now, image, offset, rlength, |chain|);
    AllPositions(Contents(chain));
    var mask := RequestMask(chain, image, offset, rlength);
    assert Contents(chain)[..|chain|] == Contents(chain) && Contents(now)[..|chain|] == Contents(now)
           && mask[..|mask|] == mask;
  }

  lemma DoneLength(action: Action, chain: seq<Xcf.Prom>, now: seq<Xcf.Prom>, image: seq<byte>, offset: nat,
                   rlength: nat)
    requires Accepted(chain, image, offset, rlength) && AllDone(action, chain, now, image, offset, rlength)
    ensures |now| == |chain|
  {
  }

  lemma {:induction false} BurnsSoFar(chain: seq<Xcf.Prom>, now: seq<Xcf.Prom>, image: seq<byte>, offset: nat,
                                      rlength: nat, k: nat)
    requires Accepted(chain, image, offset, rlength) && AllDone(Write, chain, now, image, offset, rlength)
    requires k <= |chain| == |now|
    ensures |Linear(Contents(chain)[..k])| == Position(Contents(chain), k) <= |Linear(Contents(chain))|
    ensures Linear(Contents(now)[..k])
            == BurnAll(Linear(Contents(chain)[..k]),
                       RequestMask(chain, image, offset, rlength)[..Position(Contents(chain), k)])
  {
    hide Linear, OnBoundary, RequestMask, PromDone, Accepted, AllDone, BurnAll, Contents;
    var mask := RequestMask(chain, image, offset, rlength);
    if k == 0 {
      assert Contents(chain)[..0] == [] && Contents(now)[..0] == [];
      LinearNothing();
    } else {
      var j := k - 1;
      BurnsSoFar(chain, now, image, offset, rlength, j);
      SpaceGrows(Write, chain, now, image, offset, rlength, j);
      BurnsPart(chain, now, image, offset, rlength, j);
      var (a, pos) := (Linear(chain[j].blocks), Position(Contents(chain), j));
      BurnAllAppend(Linear(Contents(chain)[..j]), a, mask[..pos], mask[pos..pos + |a|]);
      assert mask[..pos] + mask[pos..pos + |a|] == mask[..pos + |a|];
    }
  }

  lemma BurnsPart(chain: seq<Xcf.Prom>, now: seq<Xcf.Prom>, image: seq<byte>, offset: nat, rlength: nat, k: nat)
    requires Accepted(chain, image, offset, rlength) && AllDone(Write, chain, now, image, offset, rlength)
             && k < |chain| == |now|
    ensures var (a, pos) := (Linear(chain[k].blocks), Position(Contents(chain), k));
      pos + |a| <= |Linear(Contents(chain))|
      && Linear(now[k].blocks) == BurnAll(a, RequestMask(chain, image, offset, rlength)[pos..pos + |a|])
  {
    hide Linear, OnBoundary, RequestMask, Accepted, AllDone, BurnAll, Contents, Position, CutOf;
    SpaceGrows(Write, chain, now, image, offset, rlength, k);
    if !CutOf(Position(Contents(chain), k), |Linear(chain[k].blocks)|, offset, rlength).Use? {
      UnusedMask(chain, image, offset, rlength, k);
      BurnAllBlank(Linear(chain[k].blocks));
    }
  }

  /** After erasing and writing, the range is the file. */
  lemma EraseAndWriteGivesFile(chain: seq<Xcf.Prom>, now: seq<Xcf.Prom>, image: seq<byte>, offset: nat, rlength: nat)
    requires Accepted(chain, image, offset, rlength) && AllDone(EraseAndWrite, chain, now, image, offset, rlength)
    ensures offset + rlength <= |Linear(Contents(now))| == |Linear(Contents(chain))| && rlength <= |image|
    ensures Linear(Contents(now))[offset..offset + rlength] == image[..rlength]
  {
    hide Linear, Position, OnBoundary, PromDone, AllDone, Contents, Mask;
    DoneLength(EraseAndWrite, chain, now, image, offset, rlength);
    FileSoFar(chain, now, image, offset, rlength, |chain|);
    AllPositions(Contents(chain));
    assert Contents(now)[..|chain|] == Contents(now);
    var (mask, space) := (RequestMask(chain, image, offset, rlength), Linear(Contents(now)));
    MaskSlice(|mask|, offset, image[..rlength], offset, rlength);
    assert mask[offset..offset + rlength] == image[..rlength];
    forall x | 0 <= x < rlength
      ensures space[offset..offset + rlength][x] == image[..rlength][x]
    {
      assert space[offset + x] == mask[offset + x];
      assert mask[offset..offset + rlength][x] == mask[offset + x];
    }
  }

  lemma {:induction false} FileSoFar(chain: seq<Xcf.Prom>, now: seq<Xcf.Prom>, image: seq<byte>, offset: nat,
                                     rlength: nat, k: nat)
    requires Accepted(chain, image, offset, rlength) && AllDone(EraseAndWrite, chain, now, image, offset, rlength)
    requires k <= |chain| == |now|
    ensures |Linear(Contents(now)[..k])| == Position(Contents(chain), k) <= |Linear(Contents(chain))|
    ensures forall x :: offset <= x < offset + rlength && x < Position(Contents(chain), k) ==>
      Linear(Contents(now)[..k])[x] == RequestMask(chain, image, offset, rlength)[x]
  {
    hide Linear, OnBoundary, RequestMask, PromDone, Accepted, AllDone, Contents;
    var mask := RequestMask(chain, image, offset, rlength);
    if k == 0 {
      assert Contents(chain)[..0] == [] && Contents(now)[..0] == [];
      LinearNothing();
    } else {
      var j := k - 1;
      FileSoFar(chain, now, image, offset, rlength, j);
      SpaceGrows(EraseAndWrite, chain, now, image, offset, rlength, j);
      var (b, pos) := (Linear(now[j].blocks), Position(Contents(chain), j));
      forall x | offset <= x < offset + rlength && pos <= x < pos + |b|
        ensures b[x - pos] == mask[x]
      {
        PartIsFile(chain[j], now[j], pos, mask, offset, rlength, x);
      }
    }
  }

  lemma PartIsFile(f: Xcf.Prom, g: Xcf.Prom, pos: nat, mask: seq<byte>, offset: nat, rlength: nat, x: nat)
    requires PromDone(EraseAndWrite, f, g, pos, mask, offset, rlength) && |Linear(f.blocks)| == |Linear(g.blocks)|
    requires offset <= x < offset + rlength && pos <= x < pos + |Linear(g.blocks)|
    ensures Linear(g.blocks)[x - pos] == mask[x]
  {
    hide Linear;
    var part := mask[pos..pos + |Linear(f.blocks)|];
    assert part[x - pos] == mask[x];
  }

  /** Of several PROMs, each one used holds its piece and then ones, and each other one is unchanged. */
  lemma EraseAndWriteParts(chain: seq<Xcf.Prom>, now: seq<Xcf.Prom>, image: seq<byte>, offset: nat, rlength: nat,
                           k: nat)
    requires Accepted(chain, image, offset, rlength) && AllDone(EraseAndWrite, chain, now, image, offset, rlength)
    requires |chain| > 1 && k < |chain| == |now|
    ensures var (pos, len) := (Position(Contents(chain), k), |Linear(chain[k].blocks)|);
      if CutOf(pos, len, offset, rlength).Use?
      then Linear(now[k].blocks) == Padded(Piece(pos, len, image, offset, rlength), len)
      else now[k].blocks == chain[k].blocks
  {
    hide Linear, Position, OnBoundary, Accepted, AllDone, Contents, CutOf, Piece, Mask, RequestMask;
    PromOf(chain, image, offset, rlength, k);
    SpaceGrows(EraseAndWrite, chain, now, image, offset, rlength, k);
    MaskIs(chain, image, offset, rlength);
    PieceOfMask(|Linear(Contents(chain))|, Position(Contents(chain), k), |Linear(chain[k].blocks)|, image, offset,
                rlength);
  }

  lemma MaskIs(chain: seq<Xcf.Prom>, image: seq<byte>, offset: nat, rlength: nat)
    requires Accepted(chain, image, offset, rlength)
    ensures rlength <= |image| && offset + rlength <= |Linear(Contents(chain))|
    ensures RequestMask(chain, image, offset, rlength) == Mask(|Linear(Contents(chain))|, offset, image[..rlength])
  {
    hide Linear, SoundChain, OnBoundary, Contents, Mask;
  }

  /** Of several PROMs none refuses its piece: a run that stops does so because a PROM did not confirm. */
  lemma SeveralNeverRefuse(action: Action, chain: seq<Xcf.Prom>, now: seq<Xcf.Prom>, image: seq<byte>, offset: nat,
                           rlength: nat, k: nat, r: Ended)
    requires Accepted(chain, image, offset, rlength) && |now| == |chain| > 1
    requires StopsAt(action, chain, now, image, offset, rlength, k, r)
    ensures if r == NotErased then action == EraseAndWrite else r == Code(1) && action != Verify
  {
    hide Linear, Position, OnBoundary, Contents, RequestMask, PromDone, CutOf, Piece, Handed, HandedLength,
         Xcf.RangeOf, Xcf.Burnt, Xcf.Requested, Xcf.BlocksFor;
    var (f, pos, len) := (chain[k], Position(Contents(chain), k), |Linear(chain[k].blocks)|);
    PromOf(chain, image, offset, rlength, k);
    PieceRange(f, |chain|, pos, image, offset, rlength);
    if action == EraseAndWrite && r != NotErased {
      var c := CutOf(pos, len, offset, rlength);
      var (part, n) := (Handed(|chain|, pos, len, image, offset, rlength), HandedLength(|chain|, c, image));
      var e: Xcf.Prom :| ErasedFrom(f, e) && Xcf.ProgramEnds(e, now[k], part, c.offset, n, r.code);
      SameRange(f, e, c.offset, Xcf.Requested(n, |part|));
    }
  }

  // ---- Reading ----

  /** What has been collected when the loop is at a position. */
  ghost function Collected(all: seq<byte>, offset: nat, rlength: nat, pos: nat): (r: seq<byte>)
    requires offset + rlength <= |all|
  {
    if pos <= offset then [] else if pos >= offset + rlength then all[offset..offset + rlength] else all[offset..pos]
  }

  lemma NothingCollected(all: seq<byte>, offset: nat, rlength: nat, pos: nat)
    requires offset + rlength <= |all| && pos == 0
    ensures Padded(Collected(all, offset, rlength, pos), rlength) == Repeat<byte>(0xff, rlength)
  {
  }

  lemma AllCollected(all: seq<byte>, offset: nat, rlength: nat)
    requires offset + rlength <= |all|
    ensures Padded(Collected(all, offset, rlength, |all|), rlength) == all[offset..offset + rlength]
  {
  }

  lemma PartCollected(all: seq<byte>, prom: seq<byte>, offset: nat, rlength: nat, pos: nat)
    requires offset + rlength <= |all| && pos + |prom| <= |all| && all[pos..pos + |prom|] == prom
    requires pos >= offset || pos + |prom| <= offset
    ensures var c := CutOf(pos, |prom|, offset, rlength);
      var was := Padded(Collected(all, offset, rlength, pos), rlength);
      var now := Padded(Collected(all, offset, rlength, pos + |prom|), rlength);
      && (c == Before ==> now == was)
      && (c == Behind ==> was == all[offset..offset + rlength])
      && (c.Use? ==> c.offset == 0 && Moved(c, |prom|) <= |prom|
                     && 0 <= FileIndex(pos, offset) <= rlength - Moved(c, |prom|)
                     && now == Overwrite(was, FileIndex(pos, offset), prom[c.offset..c.offset + Moved(c, |prom|)]))
  {
    var c := CutOf(pos, |prom|, offset, rlength);
    if c.Use? {
      var n := Moved(c, |prom|);
      assert prom[..n] == all[pos..pos + n];
      assert all[offset..pos + n] == all[offset..pos] + all[pos..pos + n];
    }
  }

  /** What is read of a PROM that starts in the range: its first bytes, as far as the range goes. */
  lemma ReadPart(f: Xcf.Prom, c: Cut, was: seq<byte>, now: seq<byte>, r: int)
    requires Xcf.Sound(f) && c.Use? && c.offset == 0 && Moved(c, |Linear(f.blocks)|) <= |Linear(f.blocks)| < MAX_BYTES
    requires Xcf.ReadEnds(f, was, now, 0, c.rlength, r)
    ensures r == 0 && now == Linear(f.blocks)[..Moved(c, |Linear(f.blocks)|)]
  {
    hide Linear;
    Xcf.AllBytes(f);
    DivideUnique(0, f.blockBytes, 0, 0);
  }

  /** One PROM into a file of its own. */
  method ReadTemporary(f: Xcf.Prom, optimized: bool, c: Cut) returns (got: seq<byte>)
    requires Xcf.Sound(f) && f.shifting == [] && |Linear(f.blocks)| < MAX_BYTES
    requires c.Use? && c.rlength < MAX_BYTES && c.offset == 0 && Moved(c, |Linear(f.blocks)|) <= |Linear(f.blocks)|
    ensures got == Linear(f.blocks)[..Moved(c, |Linear(f.blocks)|)]
  {
    hide Linear, Xcf.Sound, Xcf.ReadEnds, Xcf.At;
    Xcf.AllBytes(f);
    var tmp := new BitFile();
    tmp.offset := c.offset;
    if c.rlength * 8 != tmp.GetLength() {
      tmp.rlength := c.rlength;
    } else {
      tmp.rlength := 0;
    }
    var alg := new Xcf.ProgAlgXCF(f, optimized);
    ghost var was := tmp.Data();
    var r := alg.Read(tmp);
    ReadPart(f, c, was, tmp.Data(), r);
    got := tmp.Load(0, tmp.length);
  }

  /** Collects a range from the PROMs of a chain; a single PROM is read straight into the file. */
  method ReadXcf(chain: seq<Xcf.Prom>, optimized: seq<bool>, promfile: BitFile) returns (accepted: bool)
    requires SoundChain(chain) && |chain| >= 1 && |optimized| == |chain| && promfile.Valid()
    requires |chain| > 1 ==> OnBoundary(Contents(chain), promfile.offset)
    modifies promfile
    ensures promfile.Valid()
    ensures var (offset, space) := (old(promfile.offset), Linear(Contents(chain)));
      var rlength := if old(promfile.rlength) == 0 then |space| - offset else old(promfile.rlength);
      && (accepted <==> offset <= |space| && offset + rlength <= |space|)
      && (accepted && |chain| > 1 ==> promfile.Data() == space[offset..offset + rlength])
      && (accepted && |chain| == 1 ==> SingleReadEnds(chain[0], promfile.Data(), offset, rlength))
  {
    hide Linear, Position, OnBoundary, Contents, CutOf, SoundChain, SingleReadEnds;
    var offset, total := promfile.offset, |Linear(Contents(chain))|;
    ReadableChain(chain);
    if offset > total || (promfile.rlength != 0 && promfile.rlength > total - offset) {
      return false;
    }
    var rlength: nat := if promfile.rlength == 0 then total - offset else promfile.rlength;
    promfile.SetLength(rlength * 8);
    accepted := true;
    if |chain| == 1 {
      ReadSingle(chain, optimized[0], promfile, offset, rlength);
    } else {
      ReadSeveral(chain, optimized, promfile, offset, rlength);
    }
  }

  lemma ReadableChain(chain: seq<Xcf.Prom>)
    requires SoundChain(chain)
    ensures |Linear(Contents(chain))| < MAX_BYTES
    ensures forall k :: 0 <= k < |chain| ==>
      Xcf.Sound(chain[k]) && chain[k].shifting == [] && |Linear(chain[k].blocks)| < MAX_BYTES
      && Contents(chain)[k] == Linear(chain[k].blocks)
  {
    hide Linear, Position;
    forall k | 0 <= k < |chain|
      ensures |Linear(chain[k].blocks)| < MAX_BYTES
    {
      PlaceOf(Contents(chain), k);
    }
  }

  /** The file after a single PROM was read, with the length request as the loop leaves it. */
  ghost predicate SingleReadEnds(f: Xcf.Prom, now: seq<byte>, offset: nat, rlength: nat) {
    var c := CutOf(0, |Linear(f.blocks)|, offset, rlength);
    if c.Use? && f.blockBytes > 0 then
      exists r: int, was: seq<byte> ::
        |was| == rlength && Xcf.ReadEnds(f, was, now, offset, SingleRequest(c, rlength), r)
    else now == Repeat<byte>(BLANK, rlength)
  }

  method ReadSingle(chain: seq<Xcf.Prom>, optimized: bool, promfile: BitFile, offset: nat, rlength: nat)
    requires |chain| == 1 && Xcf.Sound(chain[0]) && chain[0].shifting == [] && |Linear(chain[0].blocks)| < MAX_BYTES
    requires promfile.Valid() && promfile.Data() == Repeat<byte>(BLANK, rlength) && rlength < MAX_BYTES && offset < WORD
    modifies promfile`buffer, promfile`length, promfile`offset, promfile`rlength
    ensures promfile.Valid() && SingleReadEnds(chain[0], promfile.Data(), offset, rlength)
  {
    hide Linear, Xcf.Sound, Xcf.ReadEnds, Xcf.At;
    Xcf.SoundSize(chain[0]);
    Xcf.AllBytes(chain[0]);
    var len := |Linear(chain[0].blocks)|;
    var c := CutOf(0, len, offset, rlength);
    if c.Use? {
      promfile.offset := c.offset;
      if c.rlength * 8 != promfile.GetLength() {
        promfile.rlength := c.rlength;
      } else {
        promfile.rlength := 0;
      }
      var alg := new Xcf.ProgAlgXCF(chain[0], optimized);
      ghost var was := promfile.Data();
      var r := alg.Read(promfile);
      assert Xcf.ReadEnds(chain[0], was, promfile.Data(), offset, SingleRequest(c, rlength), r);
    }
  }

  method ReadSeveral(chain: seq<Xcf.Prom>, optimized: seq<bool>, promfile: BitFile, offset: nat, rlength: nat)
    requires SoundChain(chain) && |chain| > 1 && |optimized| == |chain| && OnBoundary(Contents(chain), offset)
    requires offset + rlength <= |Linear(Contents(chain))|
    requires promfile.Valid() && promfile.Data() == Repeat<byte>(BLANK, rlength)
    modifies promfile.buffer
    ensures promfile.Data() == Linear(Contents(chain))[offset..offset + rlength]
  {
    hide Linear, Position, OnBoundary, Contents, CutOf, Moved, Overwrite, Padded, Collected, Xcf.Sound, SoundChain;
    ghost var all := Linear(Contents(chain));
    ReadableChain(chain);
    var pos := 0;
    AllPositions(Contents(chain));
    NothingCollected(all, offset, rlength, pos);
    for k := 0 to |chain|
      invariant promfile.Valid() && pos == Position(Contents(chain), k) <= |all|
      invariant promfile.Data() == Padded(Collected(all, offset, rlength, pos), rlength)
    {
      var len := |Linear(chain[k].blocks)|;
      var c := CutOf(pos, len, offset, rlength);
      BoundaryStarts(Contents(chain), k, offset);
      PlaceOf(Contents(chain), k);
      PartCollected(all, Linear(chain[k].blocks), offset, rlength, pos);
      CutIsSmall(pos, len, offset, rlength);
      if c == Behind {
        return;
      }
      if c.Use? {
        var got := ReadTemporary(chain[k], optimized[k], c);
        promfile.Store(FileIndex(pos, offset), got);
      }
      NextPosition(Contents(chain), k);
      pos := pos + len;
    }
    AllCollected(all, offset, rlength);
  }

  lemma CutIsSmall(pos: nat, len: nat, offset: nat, rlength: nat)
    ensures var c := CutOf(pos, len, offset, rlength); c.Use? ==> c.rlength <= len
  {
  }

  // ---- A single PROM ----

  /**
   * A single PROM is read to its end: the file was made as long as the request, and that takes the
   * request back. So a read returns the range asked for exactly when that starts on a block and
   * ends with the PROM.
   */
  lemma SingleReadExactlyWhen(f: Xcf.Prom, offset: nat, rlength: nat)
    requires Xcf.Sound(f) && |Linear(f.blocks)| < MAX_BYTES
    requires rlength > 0 && offset + rlength <= |Linear(f.blocks)|
    ensures var c := CutOf(0, |Linear(f.blocks)|, offset, rlength);
      && c.Use? && c.offset == offset
      && ((forall was: seq<byte>, now: seq<byte>, r: int ::
             |was| == rlength && Xcf.ReadEnds(f, was, now, offset, SingleRequest(c, rlength), r) ==>
               r == 0 && now == Linear(f.blocks)[offset..offset + rlength])
          <==> offset % f.blockBytes == 0 && offset + rlength == |Linear(f.blocks)|)
  {
    hide Linear, Xcf.At;
    var c := CutOf(0, |Linear(f.blocks)|, offset, rlength);
    Xcf.AllBytes(f);
    SingleStart(f, offset);
    var (total, blank) := (|Linear(f.blocks)|, Repeat<byte>(BLANK, rlength));
    if offset % f.blockBytes != 0 {
      assert Xcf.ReadEnds(f, blank, blank, offset, SingleRequest(c, rlength), -1);
    } else if offset + rlength < total {
      assert Xcf.ReadEnds(f, blank, Linear(f.blocks)[offset..total], offset, SingleRequest(c, rlength), 0);
    }
  }

  lemma SingleStart(f: Xcf.Prom, offset: nat)
    requires f.blockBytes > 0 && offset < MAX_BYTES
    ensures offset % MAX_BYTES == offset
    ensures offset % f.blockBytes == 0 ==> Xcf.At(f.blockBytes, offset / f.blockBytes) == offset
  {
    Euclid(offset, f.blockBytes);
  }

  /** A PROM of four blocks of 256 bytes: a read from byte 1 to its end is refused. */
  lemma MisalignedReadRefused() returns (f: Xcf.Prom)
    ensures Xcf.Sound(f) && f.blockBytes == 256 && |Linear(f.blocks)| == 1024
    ensures forall was: seq<byte>, now: seq<byte>, r: int ::
      |was| == 1023 && Xcf.ReadEnds(f, was, now, 1, SingleRequest(CutOf(0, 1024, 1, 1023), 1023), r) ==>
        r == -1 && now == was
  {
    var page := Repeat<byte>(BLANK, 256);
    f := Xcf.Prom(256, [page, page, page, page], [], [], 0);
    LinearLength(f.blocks, 256);
  }

  /**
   * On an erased single PROM a write ends with exactly the range programmed, whatever the file, if and
   * only if it starts on a block.
   */
  lemma SingleWriteExactlyWhen(f: Xcf.Prom, fileLength: nat, offset: nat, rlength: nat)
    requires Xcf.Sound(f) && |Linear(f.blocks)| < MAX_BYTES && Xcf.BlankBlocks(f, 0, |f.blocks|)
    requires 0 < rlength <= fileLength < MAX_BYTES && offset + rlength <= |Linear(f.blocks)|
    ensures var c := CutOf(0, |Linear(f.blocks)|, offset, rlength);
      && c.Use? && c.offset == offset
      && ((forall image: seq<byte>, g: Xcf.Prom, r: int ::
             |image| == fileLength && Xcf.Sound(g) && Xcf.SameSize(f, g) && r != 1
             && Xcf.ProgramEnds(f, g, image, offset, SingleRequest(c, fileLength), r) ==>
               Linear(g.blocks) == Mask(|Linear(f.blocks)|, offset, image[..rlength]))
          <==> offset % f.blockBytes == 0)
  {
    hide Linear, Xcf.At, Mask, Xcf.Burnt, Xcf.BlankBlocks, Xcf.RangeOf, Xcf.Requested;
    var (c, total) := (CutOf(0, |Linear(f.blocks)|, offset, rlength), |Linear(f.blocks)|);
    BlankSpace(f);
    if offset % f.blockBytes == 0 {
      forall image: seq<byte>, g: Xcf.Prom, r: int |
          |image| == fileLength && Xcf.Sound(g) && Xcf.SameSize(f, g) && r != 1
          && Xcf.ProgramEnds(f, g, image, offset, SingleRequest(c, fileLength), r)
        ensures Linear(g.blocks) == Mask(total, offset, image[..rlength])
      {
        SingleRange(f, image, offset, rlength);
        PartWritten(Write, f, g, image, offset, SingleRequest(c, fileLength), offset / f.blockBytes, rlength);
        BurnAllErased(Linear(f.blocks), Mask(total, offset, image[..rlength]));
      }
    } else {
      var image := Repeat<byte>(0, fileLength);
      SingleRange(f, image, offset, rlength);
      assert Xcf.ProgramEnds(f, f, image, offset, SingleRequest(c, fileLength), -1);
      MaskSlice(total, offset, image[..rlength], offset, rlength);
      assert Mask(total, offset, image[..rlength])[offset..offset + rlength][0] == 0;
    }
  }
}
