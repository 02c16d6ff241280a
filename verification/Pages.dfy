/** Memories organised in pages or blocks of one size, and the byte ranges they make up. */
module Pages {
  import opened Bits
  import opened Flash

  /** The bytes of consecutive pages. */
  function Linear(pages: seq<seq<byte>>): seq<byte> {
    if pages == [] then [] else Linear(pages[..|pages| - 1]) + pages[|pages| - 1]
  }

  ghost predicate Uniform(pages: seq<seq<byte>>, pgsize: nat) {
    forall p :: 0 <= p < |pages| ==> |pages[p]| == pgsize
  }

  lemma {:induction false} LinearLength(pages: seq<seq<byte>>, pgsize: nat)
    requires Uniform(pages, pgsize)
    ensures |Linear(pages)| == |pages| * pgsize
  {
    if pages != [] {
      LinearLength(pages[..|pages| - 1], pgsize);
      assert |pages| * pgsize == (|pages| - 1) * pgsize + pgsize;
    }
  }

  lemma {:induction false} LinearAppend(a: seq<seq<byte>>, b: seq<seq<byte>>)
    ensures Linear(a + b) == Linear(a) + Linear(b)
  {
    if b == [] {
      assert a + b == a;
    } else {
      var c := a + b;
      assert c[..|c| - 1] == a + b[..|b| - 1];
      LinearAppend(a, b[..|b| - 1]);
    }
  }

  /** A run of pages is a range of the device. */
  lemma LinearSlice(pages: seq<seq<byte>>, pgsize: nat, p: nat, q: nat)
    requires Uniform(pages, pgsize) && p <= q <= |pages|
    ensures p * pgsize <= q * pgsize <= |Linear(pages)|
    ensures Linear(pages[p..q]) == Linear(pages)[p * pgsize..q * pgsize]
  {
    var (a, b, c) := (pages[..p], pages[p..q], pages[q..]);
    assert pages == a + b + c;
    LinearAppend(a + b, c);
    LinearAppend(a, b);
    LinearLength(a, pgsize);
    LinearLength(a + b, pgsize);
    assert Linear(pages) == Linear(a) + Linear(b) + Linear(c);
  }

  lemma LinearAt(mem: seq<seq<byte>>, pgsize: nat, p: nat, k: nat)
    requires Uniform(mem, pgsize) && p < |mem| && k < pgsize
    ensures p * pgsize + k < |Linear(mem)| && Linear(mem)[p * pgsize + k] == mem[p][k]
  {
    hide Linear;
    LinearSlice(mem, pgsize, p, p + 1);
    NextMultiple(p, pgsize);
    assert mem[p..p + 1] == [mem[p]];
    LinearOne(mem[p]);
    assert Linear(mem)[p * pgsize..(p + 1) * pgsize][k] == mem[p][k];
  }

  lemma LinearOne(page: seq<byte>)
    ensures Linear([page]) == page
  {
    assert [page][..0] == [];
    assert Linear([]) == [];
  }

  /** Data for whole pages, the last one filled up with blank bytes. */
  function Padded(data: seq<byte>, n: nat): (r: seq<byte>)
    ensures |r| == n
  {
    if n <= |data| then data[..n] else data + Repeat<byte>(BLANK, n - |data|)
  }

  /** Bytes from `at` on replaced. */
  function Overwrite(was: seq<byte>, at: nat, part: seq<byte>): (r: seq<byte>)
    requires at + |part| <= |was|
    ensures |r| == |was|
  {
    was[..at] + part + was[at + |part|..]
  }

  lemma PaddedOverwrite(a: seq<byte>, b: seq<byte>, len: nat)
    requires |a| + |b| <= len
    ensures Overwrite(Padded(a, len), |a|, b) == Padded(a + b, len)
  {
  }

  lemma PrefixOfSlice(s: seq<byte>, at: nat, n: nat, c: nat)
    requires at + n <= |s| && c <= n
    ensures s[at..at + n][..c] == s[at..at + c]
  {
  }

  lemma SliceOfPrefix(s: seq<byte>, n: nat, a: nat, b: nat)
    requires a <= b <= n <= |s|
    ensures s[..n][a..b] == s[a..b] && s[..n][a..] == s[a..n]
  {
  }

  /** Blank bytes but for a range that carries some data. */
  function Mask(total: nat, at: nat, data: seq<byte>): (r: seq<byte>)
    requires at + |data| <= total
    ensures |r| == total
  {
    Overwrite(Repeat<byte>(BLANK, total), at, data)
  }

  lemma MaskAt(total: nat, at: nat, data: seq<byte>, x: nat)
    requires at + |data| <= total && x < total
    ensures Mask(total, at, data)[x] == if at <= x < at + |data| then data[x - at] else BLANK
  {
  }

  /** A piece of a mask beside its data, and one that starts in it. */
  lemma MaskSlice(total: nat, at: nat, data: seq<byte>, x: nat, n: nat)
    requires at + |data| <= total && x + n <= total
    ensures x + n <= at || x >= at + |data| ==> Mask(total, at, data)[x..x + n] == Repeat<byte>(BLANK, n)
    ensures at <= x <= at + |data| ==> Mask(total, at, data)[x..x + n] == Padded(data[x - at..], n)
  {
    hide Mask, Padded;
    var piece := Mask(total, at, data)[x..x + n];
    forall k | 0 <= k < |piece|
      ensures piece[k] == if at <= x + k < at + |data| then data[x + k - at] else BLANK
    {
      MaskAt(total, at, data, x + k);
    }
    if at <= x <= at + |data| {
      PieceInside(piece, data, x - at);
    }
  }

  lemma PieceInside(piece: seq<byte>, data: seq<byte>, y: nat)
    requires y <= |data|
    requires forall k :: 0 <= k < |piece| ==> piece[k] == if y + k < |data| then data[y + k] else BLANK
    ensures piece == Padded(data[y..], |piece|)
  {
    var rest := data[y..];
    forall k | 0 <= k < |piece|
      ensures piece[k] == Padded(rest, |piece|)[k]
    {
      assert k < |rest| ==> rest[k] == data[y + k];
    }
  }

  /** Data at the start of a mask, filled up with blanks. */
  lemma MaskAtStart(total: nat, data: seq<byte>)
    requires |data| <= total
    ensures Mask(total, 0, data) == Padded(data, total)
  {
  }

  // ---- Multiples ----

  lemma DivideAscends(a: nat, b: nat, d: nat)
    requires d > 0 && a <= b
    ensures a / d <= b / d
  {
    QuotientsAscend(a / d, a % d, b / d, b % d, d);
  }

  lemma QuotientsAscend(q: int, r: nat, q': int, r': nat, d: nat)
    requires q * d + r <= q' * d + r' && r' < d
    ensures q <= q'
  {
    MultipleBelow(q - q', d);
  }

  lemma MultipleBelow(e: int, d: nat)
    requires e * d < d
    ensures e <= 0
  {
  }

  lemma Euclid(x: nat, d: nat)
    requires d > 0
    ensures x == x / d * d + x % d && x % d < d
  {
  }

  lemma QuotientBelow(q: nat, r: nat, n: nat, d: nat)
    requires q * d + r < n * d
    ensures q < n
  {
  }

  lemma NextMultiple(a: nat, d: nat)
    ensures (a + 1) * d == a * d + d
  {
  }

  lemma BelowMultiple(r: nat, k: nat, m: nat, d: nat)
    requires r < m && k < d
    ensures r * d + k < m * d
  {
    assert m * d == (r + 1) * d + (m - r - 1) * d;
  }

  lemma MultiplesAscend(a: nat, b: nat, d: nat)
    requires a <= b
    ensures a * d <= b * d
  {
  }
}
