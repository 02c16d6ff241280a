/**
 * progalgspiflash.cpp over a NOR flash behind a bridge that returns the reply to one command
 * during the next: sector erase before page programming, and pipelined reading and verifying.
 */
module SpiFlash {
  import opened Bits
  import opened Flash
  import opened BitFiles
  import opened Pages

  const PAGE_PROGRAM: byte := 0x02
  const PAGE_READ: byte := 0x03
  const READ_STATUS_REGISTER: byte := 0x05
  const WRITE_ENABLE: byte := 0x06

  // ---- Page addresses ----

  /** How far a page number is moved up in the three address bytes, as a factor. */
  function Scale(pgsize: nat): nat {
    if pgsize > 512 then 4 else if pgsize > 256 then 2 else 1
  }

  /** The page that a command addresses. */
  function PageAt(header: seq<byte>, pgsize: nat): nat
    requires |header| >= 3
  {
    var high: nat := header[1];
    (high * 0x100 + header[2]) / Scale(pgsize)
  }

  /** A command for a page, as page2padd lays it out: the page number ends up in 16 bits. */
  predicate AddressesPage(header: seq<byte>, page: nat, pgsize: nat) {
    && |header| >= 4
    && header[1] == page * Scale(pgsize) / 0x100 % 0x100
    && header[2] == page * Scale(pgsize) % 0x100
    && header[3] == 0
  }

  /** A page number that fits comes out as it went in. */
  lemma PageArrives(header: seq<byte>, page: nat, pgsize: nat)
    requires AddressesPage(header, page, pgsize) && page * Scale(pgsize) < 0x10000
    ensures PageAt(header, pgsize) == page
  {
    var v := page * Scale(pgsize);
    assert v == v / 0x100 * 0x100 + v % 0x100;
  }

  /** On a power-of-two page size all pages of a device of up to 2^24 bytes fit. */
  lemma SmallDevicesFit(pages: nat, pgsize: nat)
    requires pgsize == 256 || pgsize == 512 || pgsize == 1024
    requires pages * pgsize <= 0x100_0000
    ensures pages * Scale(pgsize) <= 0x10000
  {
  }

  method Page2Padd(buf: array<byte>, page: nat, pgsize: nat)
    requires buf.Length >= 4
    modifies buf
    ensures buf[0] == old(buf[0]) && AddressesPage(buf[..4], page, pgsize)
  {
    var p := page;
    if pgsize > 512 {
      p := p * 4;
    } else if pgsize > 256 {
      p := p * 2;
    }
    buf[1] := p / 0x100 % 0x100;
    buf[2] := p % 0x100;
    buf[3] := 0;
  }

  // ---- Pages ----

  /** The page that begins at byte p * pgsize. */
  lemma PageNumber(p: nat, pgsize: nat)
    requires pgsize > 0
    ensures p * pgsize / pgsize == p && (p + 1) * pgsize == p * pgsize + pgsize
  {
    DivideUnique(p * pgsize, pgsize, p, 0);
  }

  // ---- The device ----

  datatype Event = Erased(sector: nat) | Programmed(page: nat)

  /**
   * A NOR flash: pages of cells, the write enable latch, the reply that the bridge holds back,
   * and what has been done to the array so far.
   */
  datatype Nor = Nor(
    pgsize: nat, sectorSize: nat, eraseCmd: byte,
    mem: seq<seq<byte>>, writable: bool, reply: seq<byte>, history: seq<Event>)

  /** Sectors are whole pages and every page number fits its address bytes. */
  ghost predicate Sound(f: Nor) {
    && f.pgsize >= 1 && f.sectorSize >= f.pgsize && f.sectorSize % f.pgsize == 0
    && f.eraseCmd > 0x06
    && Uniform(f.mem, f.pgsize)
    && |f.mem| * Scale(f.pgsize) <= 0x10000
  }

  /** The byte address of a page. */
  function At(f: Nor, p: nat): nat {
    p * f.pgsize
  }

  /** The bytes in pages p..q. */
  function Span(f: Nor, p: nat, q: nat): nat
    requires p <= q
  {
    (q - p) * f.pgsize
  }

  /** The page a byte lies in. */
  function PageOf(f: Nor, x: nat): nat
    requires f.pgsize > 0
  {
    x / f.pgsize
  }

  /** The sector a byte lies in. */
  function SectorOf(f: Nor, x: nat): nat
    requires f.sectorSize > 0
  {
    x / f.sectorSize
  }

  /** The sector a page lies in. */
  function Sector(f: Nor, p: nat): nat
    requires f.sectorSize > 0
  {
    SectorOf(f, At(f, p))
  }

  /** Page arithmetic. */
  lemma PageSteps(f: Nor, p: nat, q: nat)
    requires p <= q
    ensures At(f, q) == At(f, p) + Span(f, p, q)
    ensures At(f, q + 1) == At(f, q) + f.pgsize && Span(f, p, q + 1) == Span(f, p, q) + f.pgsize
    ensures Span(f, p, p) == 0
  {
  }

  function Blank(f: Nor): seq<byte> {
    Repeat<byte>(BLANK, f.pgsize)
  }

  function EraseSector(f: Nor, s: nat): seq<seq<byte>>
    requires f.sectorSize > 0
  {
    seq(|f.mem|, x requires 0 <= x < |f.mem| => if Sector(f, x) == s then Blank(f) else f.mem[x])
  }

  /** The start of a page programmed. */
  function BurnPage(page: seq<byte>, data: seq<byte>): seq<byte>
    requires |data| <= |page|
  {
    BurnAll(page[..|data|], data) + page[|data|..]
  }

  /** One command; erasing and programming need the latch set, and clear it. */
  function Execute(f: Nor, header: seq<byte>, payload: seq<byte>): Nor
    requires f.sectorSize > 0 && |header| >= 1
  {
    var g := f.(reply := []);
    if header[0] == 0x06 then g.(writable := true)
    else if |header| != 4 then g
    else
      var p := PageAt(header, f.pgsize);
      if p >= |f.mem| || |payload| > |f.mem[p]| then g
      else if header[0] == 0x03 then g.(reply := f.mem[p][..|payload|])
      else if !f.writable then g
      else if header[0] == 0x02 then
        g.(mem := f.mem[p := BurnPage(f.mem[p], payload)], writable := false, history := f.history + [Programmed(p)])
      else if header[0] == f.eraseCmd then
        g.(mem := EraseSector(f, Sector(f, p)), writable := false, history := f.history + [Erased(Sector(f, p))])
      else g
  }

  lemma ExecuteSound(f: Nor, header: seq<byte>, payload: seq<byte>)
    requires Sound(f) && |header| >= 1
    ensures var g := Execute(f, header, payload);
      Sound(g) && SameDevice(f, g)
  {
    hide Sector, PageAt;
  }

  /** The same part, whatever its cells hold. */
  predicate SameDevice(f: Nor, g: Nor) {
    f.pgsize == g.pgsize && f.sectorSize == g.sectorSize && f.eraseCmd == g.eraseCmd && |f.mem| == |g.mem|
  }

  lemma SectorsAscend(f: Nor, p: nat, q: nat)
    requires f.sectorSize > 0 && p <= q
    ensures Sector(f, p) <= Sector(f, q)
  {
    assert q * f.pgsize == p * f.pgsize + (q - p) * f.pgsize;
    DivideAscends(p * f.pgsize, q * f.pgsize, f.sectorSize);
  }

  /** No sector is skipped. */
  lemma NextSector(f: Nor, p: nat)
    requires f.sectorSize >= f.pgsize && f.sectorSize > 0
    ensures Sector(f, p + 1) <= Sector(f, p) + 1
  {
    hide At;
    PageSteps(f, p, p);
    DivideAscends(At(f, p + 1), At(f, p) + f.sectorSize, f.sectorSize);
    OneMore(At(f, p), f.sectorSize);
  }

  lemma OneMore(x: nat, d: nat)
    requires d > 0
    ensures (x + d) / d == x / d + 1
  {
    Euclid(x, d);
    DivideUnique(x + d, d, x / d + 1, x % d);
  }

  // ---- Erasing and programming ----

  /** What happens to the array while pages first..p are written: a sector is erased on entering it. */
  function Steps(f: Nor, first: nat, p: nat): seq<Event>
    requires f.sectorSize > 0
  {
    if p <= first then []
    else Steps(f, first, p - 1) + Entering(f, first, p - 1) + [Programmed(p - 1)]
  }

  function Entering(f: Nor, first: nat, p: nat): seq<Event>
    requires f.sectorSize > 0
  {
    if p == first || (p > 0 && Sector(f, p - 1) < Sector(f, p)) then [Erased(Sector(f, p))] else []
  }

  /** Pages first..p carry the data, pages in sectors from that of `first` to `last` are blank otherwise. */
  ghost predicate Holds(f: Nor, g: Nor, first: nat, p: nat, last: int, data: seq<byte>)
    requires f.sectorSize > 0
  {
    && SameDevice(f, g)
    && first <= p <= |g.mem|
    && Linear(g.mem[first..p]) == Padded(data, Span(f, first, p))
    && forall x :: 0 <= x < |f.mem| && (x < first || x >= p) ==>
         g.mem[x] == if Sector(f, first) <= Sector(f, x) <= last then Blank(f) else f.mem[x]
  }

  /** The last sector erased when page p is reached. */
  function LastErased(f: Nor, first: nat, p: nat): int
    requires f.sectorSize > 0
  {
    if p <= first then -1 else Sector(f, p - 1)
  }

  ghost predicate Writing(f: Nor, g: Nor, first: nat, p: nat, data: seq<byte>) {
    && Sound(f) && Sound(g)
    && Holds(f, g, first, p, LastErased(f, first, p), data)
    && g.history == f.history + Steps(f, first, p)
  }

  /** As before, with the sector of page p erased. */
  ghost predicate Ready(f: Nor, g: Nor, first: nat, p: nat, data: seq<byte>) {
    && Sound(f) && Sound(g)
    && Holds(f, g, first, p, Sector(f, p), data)
    && g.history == f.history + Steps(f, first, p) + Entering(f, first, p)
  }

  lemma WritingBegins(f: Nor, first: nat, data: seq<byte>)
    requires Sound(f) && first <= |f.mem|
    ensures Writing(f, f, first, first, data)
  {
    hide Sector;
    assert f.mem[first..first] == [];
  }

  /** Neither the reply nor the latch matters. */
  lemma OtherReply(f: Nor, g: Nor, first: nat, p: nat, data: seq<byte>, h: Nor)
    requires h == g.(reply := h.reply, writable := h.writable)
    ensures Writing(f, g, first, p, data) ==> Writing(f, h, first, p, data)
    ensures Ready(f, g, first, p, data) ==> Ready(f, h, first, p, data)
  {
    hide Sector, Linear, Padded, Steps, Entering, Uniform, Blank;
  }

  lemma EraseUnneeded(f: Nor, g: Nor, first: nat, p: nat, data: seq<byte>)
    requires Writing(f, g, first, p, data) && LastErased(f, first, p) >= Sector(f, p)
    ensures Ready(f, g, first, p, data) && LastErased(f, first, p) == Sector(f, p)
  {
    hide Linear, Sector, Steps, Padded;
    SectorsAscend(f, p - 1, p);
  }

  lemma SameSectors(f: Nor, g: Nor)
    requires SameDevice(f, g) && f.sectorSize > 0
    ensures Blank(f) == Blank(g)
    ensures forall x: nat :: Sector(f, x) == Sector(g, x) && At(f, x) == At(g, x) && SectorOf(f, x) == SectorOf(g, x)
  {
  }

  lemma EraseEffect(g: Nor, p: nat, header: seq<byte>)
    requires Sound(g) && p < |g.mem| && g.writable
    requires |header| == 4 && header[0] == g.eraseCmd && AddressesPage(header, p, g.pgsize)
    ensures Execute(g, header, [])
            == g.(reply := [], mem := EraseSector(g, Sector(g, p)), writable := false,
                  history := g.history + [Erased(Sector(g, p))])
  {
    hide Sector, PageAt, AddressesPage, EraseSector;
    PageFits(g, p, header);
  }

  /** Erasing one more sector blanks exactly its pages. */
  lemma ErasedPages(f: Nor, g: Nor, first: nat, p: nat, x: nat)
    requires SameDevice(f, g) && f.sectorSize >= f.pgsize && f.sectorSize > 0
    requires first <= p < |g.mem| && LastErased(f, first, p) < Sector(f, p) && x < |g.mem|
    ensures first <= x < p ==> EraseSector(g, Sector(f, p))[x] == g.mem[x]
    ensures (x < first || x >= p)
            && g.mem[x] == (if Sector(f, first) <= Sector(f, x) <= LastErased(f, first, p) then Blank(f) else f.mem[x])
            ==> EraseSector(g, Sector(f, p))[x]
                == if Sector(f, first) <= Sector(f, x) <= Sector(f, p) then Blank(f) else f.mem[x]
  {
    hide Sector, Blank;
    SameSectors(f, g);
    SectorFacts(f, first, p, x);
    SectorsAscend(f, first, p);
    if p > first {
      NextSector(f, p - 1);
    }
  }

  lemma EraseDone(f: Nor, g: Nor, first: nat, p: nat, data: seq<byte>, header: seq<byte>)
    requires Writing(f, g, first, p, data) && LastErased(f, first, p) < Sector(f, p) && p < |f.mem|
    requires |header| == 4 && header[0] == f.eraseCmd && AddressesPage(header, p, f.pgsize) && g.writable
    ensures Ready(f, Execute(g, header, []), first, p, data)
  {
    hide Linear, Sector, Steps, Padded, AddressesPage, Execute, EraseSector, Blank, LastErased;
    ExecuteSound(g, header, []);
    EraseEffect(g, p, header);
    SameSectors(f, g);
    var h := Execute(g, header, []);
    EnteringNew(f, first, p);
    forall x | 0 <= x < |f.mem|
      ensures first <= x < p ==> h.mem[x] == g.mem[x]
      ensures x < first || x >= p ==>
        h.mem[x] == if Sector(f, first) <= Sector(f, x) <= Sector(f, p) then Blank(f) else f.mem[x]
    {
      ErasedPages(f, g, first, p, x);
    }
    assert h.mem[first..p] == g.mem[first..p];
  }

  lemma EnteringNew(f: Nor, first: nat, p: nat)
    requires f.sectorSize > 0 && first <= p && LastErased(f, first, p) < Sector(f, p)
    ensures Entering(f, first, p) == [Erased(Sector(f, p))]
  {
  }

  lemma SectorFacts(f: Nor, first: nat, p: nat, x: nat)
    requires f.sectorSize > 0
    ensures x < p && first < p ==> Sector(f, x) <= LastErased(f, first, p)
    ensures x >= p ==> Sector(f, p) <= Sector(f, x)
    ensures first <= x ==> Sector(f, first) <= Sector(f, x)
    ensures x < first ==> Sector(f, x) <= Sector(f, first)
  {
    hide Sector;
    if x < p && first < p {
      SectorsAscend(f, x, p - 1);
    }
    if x >= p {
      SectorsAscend(f, p, x);
    }
    if first <= x {
      SectorsAscend(f, first, x);
    } else {
      SectorsAscend(f, x, first);
    }
  }

  lemma PageFits(f: Nor, p: nat, header: seq<byte>)
    requires Sound(f) && p < |f.mem| && AddressesPage(header, p, f.pgsize)
    ensures PageAt(header, f.pgsize) == p
  {
    hide Uniform, PageAt, AddressesPage;
    assert p * Scale(f.pgsize) < |f.mem| * Scale(f.pgsize);
    PageArrives(header, p, f.pgsize);
  }

  /** The part of the data that goes into page p. */
  function PageData(f: Nor, first: nat, p: nat, data: seq<byte>): seq<byte>
    requires first <= p && Span(f, first, p) <= |data|
  {
    var at := Span(f, first, p);
    if |data| - at > f.pgsize then data[at..at + f.pgsize] else data[at..]
  }

  lemma ProgramEffect(g: Nor, p: nat, header: seq<byte>, payload: seq<byte>)
    requires Sound(g) && p < |g.mem| && g.writable && |payload| <= |g.mem[p]|
    requires |header| == 4 && header[0] == PAGE_PROGRAM && AddressesPage(header, p, g.pgsize)
    ensures Execute(g, header, payload)
            == g.(reply := [], mem := g.mem[p := BurnPage(g.mem[p], payload)], writable := false,
                  history := g.history + [Programmed(p)])
  {
    hide Sector, PageAt, AddressesPage, EraseSector, BurnPage;
    PageFits(g, p, header);
  }

  lemma ProgramDone(f: Nor, g: Nor, first: nat, p: nat, data: seq<byte>, header: seq<byte>)
    requires Ready(f, g, first, p, data) && p < |f.mem| && Span(f, first, p) < |data|
    requires |header| == 4 && header[0] == PAGE_PROGRAM && AddressesPage(header, p, f.pgsize) && g.writable
    ensures Writing(f, Execute(g, header, PageData(f, first, p, data)), first, p + 1, data)
  {
    hide Linear, Sector, AddressesPage, BurnPage, Padded, Blank, Execute, PageData;
    var payload := PageData(f, first, p, data);
    SectorsAscend(f, first, p);
    assert g.mem[p] == Blank(f);
    PadPage(f, first, p, data);
    BlankPage(f);
    ExecuteSound(g, header, payload);
    ProgramEffect(g, p, header, payload);
    var h := Execute(g, header, payload);
    assert h.mem[first..p + 1] == g.mem[first..p] + [h.mem[p]];
    LinearAppend(g.mem[first..p], [h.mem[p]]);
    LinearOne(h.mem[p]);
    assert h.history == f.history + (Steps(f, first, p) + Entering(f, first, p) + [Programmed(p)]);
  }

  lemma BlankPage(f: Nor)
    ensures |Blank(f)| == f.pgsize
  {
  }

  lemma PadPage(f: Nor, first: nat, p: nat, data: seq<byte>)
    requires first <= p && Span(f, first, p) < |data|
    ensures |PageData(f, first, p, data)| <= |Blank(f)|
    ensures Padded(data, Span(f, first, p)) + BurnPage(Blank(f), PageData(f, first, p, data))
            == Padded(data, Span(f, first, p + 1))
  {
    hide Padded, BurnPage, Blank, Span;
    PageSteps(f, first, p);
    BlankPage(f);
    var payload := PageData(f, first, p, data);
    BurnBlankPage(f, payload);
    PaddedGrows(data, Span(f, first, p), f.pgsize, payload);
  }

  lemma BurnBlankPage(f: Nor, payload: seq<byte>)
    requires |payload| <= |Blank(f)|
    ensures BurnPage(Blank(f), payload) == Padded(payload, f.pgsize)
  {
    BurnAllErased(Blank(f)[..|payload|], payload);
  }

  lemma PaddedGrows(data: seq<byte>, at: nat, n: nat, payload: seq<byte>)
    requires at < |data| && payload == if |data| - at > n then data[at..at + n] else data[at..]
    ensures Padded(data, at) + Padded(payload, n) == Padded(data, at + n)
  {
  }

  // ---- What a whole programming run has done ----

  /** A byte of the device is a byte of a page, and in that page's sector. */
  lemma ByteAt(f: Nor, p: nat, k: nat)
    requires Sound(f) && p < |f.mem| && k < f.pgsize
    ensures At(f, p) + k < |Linear(f.mem)| && Linear(f.mem)[At(f, p) + k] == f.mem[p][k]
    ensures SectorOf(f, At(f, p) + k) == Sector(f, p)
  {
    hide Linear, Scale, Uniform;
    LinearAt(f.mem, f.pgsize, p, k);
    PageInSector(f, p, k);
  }

  /** Every byte is at some place in some page. */
  lemma PageOfByte(f: Nor, x: nat) returns (p: nat, k: nat)
    requires f.pgsize > 0
    ensures x == At(f, p) + k && k < f.pgsize
    ensures forall q: nat :: (x < At(f, q) ==> p < q) && (x >= At(f, q) ==> p >= q)
  {
    p, k := x / f.pgsize, x % f.pgsize;
    Euclid(x, f.pgsize);
    forall q: nat
      ensures (x < At(f, q) ==> p < q) && (x >= At(f, q) ==> p >= q)
    {
      if x < At(f, q) {
        QuotientBelow(p, k, q, f.pgsize);
      } else {
        QuotientsAscend(q, 0, p, k, f.pgsize);
      }
    }
  }

  lemma PageInSector(f: Nor, p: nat, k: nat)
    requires f.pgsize >= 1 && f.sectorSize >= 1 && f.sectorSize % f.pgsize == 0 && k < f.pgsize
    ensures SectorOf(f, At(f, p) + k) == Sector(f, p)
  {
    var (d, m) := (f.pgsize, f.sectorSize / f.pgsize);
    assert f.sectorSize == m * d;
    var (q, r) := (p / m, p % m);
    assert p == q * m + r;
    WithinMultiple(q, m, d, r, k);
    DivideUnique(p * d + k, m * d, q, r * d + k);
    DivideUnique(p * d, m * d, q, r * d);
  }

  lemma WithinMultiple(q: nat, m: nat, d: nat, r: nat, k: nat)
    requires r < m && k < d
    ensures r * d + k < m * d
    ensures (q * m + r) * d == q * (m * d) + r * d
  {
    Rearranged(q, m, d, r);
    BelowMultiple(r, k, m, d);
  }

  lemma Rearranged(q: nat, m: nat, d: nat, r: nat)
    ensures (q * m + r) * d == q * (m * d) + r * d
  {
    calc {
      (q * m + r) * d;
      (q * m) * d + r * d;
      q * (m * d) + r * d;
    }
  }

  /** A byte of the device after the range at `at` was given the data; the rest of its sectors is blank. */
  ghost predicate ByteRewritten(f: Nor, g: Nor, at: nat, data: seq<byte>, x: nat)
    requires f.sectorSize > 0 && x < |Linear(f.mem)| && x < |Linear(g.mem)|
  {
    Linear(g.mem)[x] ==
      if at <= x < at + |data| then data[x - at]
      else if |data| > 0 && SectorOf(f, at) <= SectorOf(f, x) <= SectorOf(f, at + |data| - 1) then BLANK
      else Linear(f.mem)[x]
  }

  ghost predicate Rewritten(f: Nor, g: Nor, at: nat, data: seq<byte>)
    requires f.sectorSize > 0
  {
    && |Linear(g.mem)| == |Linear(f.mem)|
    && at + |data| <= |Linear(f.mem)|
    && forall x :: 0 <= x < |Linear(f.mem)| ==> ByteRewritten(f, g, at, data, x)
  }

  lemma InsidePages(f: Nor, g: Nor, first: nat, p: nat, last: int, data: seq<byte>, x: nat)
    requires Sound(g) && f.sectorSize > 0 && Holds(f, g, first, p, last, data)
    requires At(f, first) <= x < At(f, p)
    ensures x < |Linear(g.mem)| && x - At(f, first) < Span(f, first, p)
    ensures Linear(g.mem)[x] == Padded(data, Span(f, first, p))[x - At(f, first)]
  {
    hide Linear, Sector, Scale, Uniform, Padded;
    LinearSlice(g.mem, g.pgsize, first, p);
    PageSteps(f, first, p);
    assert Linear(g.mem)[At(f, first)..At(f, p)][x - At(f, first)] == Linear(g.mem)[x];
  }

  lemma BesidePages(f: Nor, g: Nor, first: nat, p: nat, last: int, data: seq<byte>, x: nat)
    requires Sound(f) && Sound(g) && Holds(f, g, first, p, last, data)
    requires x < At(f, |f.mem|) && (x < At(f, first) || x >= At(f, p))
    ensures x < |Linear(f.mem)| && x < |Linear(g.mem)|
    ensures Linear(g.mem)[x] == if Sector(f, first) <= SectorOf(f, x) <= last then BLANK else Linear(f.mem)[x]
  {
    hide Linear, Sector, Scale, Uniform, Padded, At, SectorOf, Span;
    var q, k := PageOfByte(f, x);
    SameSectors(f, g);
    ByteAt(f, q, k);
    ByteAt(g, q, k);
  }

  /** The last byte of the data is in the last page written. */
  lemma LastTouched(f: Nor, first: nat, p: nat, n: nat)
    requires Sound(f) && first < p <= |f.mem| && Span(f, first, p - 1) < n <= Span(f, first, p)
    ensures SectorOf(f, At(f, first) + n - 1) == Sector(f, p - 1) == LastErased(f, first, p)
    ensures SectorOf(f, At(f, first)) == Sector(f, first)
  {
    hide Sector, Scale, Uniform, SectorOf, At, Span;
    PageSteps(f, first, p - 1);
    PageInSector(f, p - 1, At(f, first) + n - 1 - At(f, p - 1));
    PageInSector(f, first, 0);
  }

  lemma SectorRange(f: Nor, first: nat, p: nat, x: nat)
    requires Sound(f) && At(f, first) <= x < At(f, p) && first < p
    ensures Sector(f, first) <= SectorOf(f, x) <= Sector(f, p - 1)
  {
    hide Scale, Uniform, SectorOf, At, Sector;
    var q, k := PageOfByte(f, x);
    PageInSector(f, q, k);
    SectorsAscend(f, first, q);
    SectorsAscend(f, q, p - 1);
  }

  lemma RewrittenAt(f: Nor, g: Nor, first: nat, p: nat, data: seq<byte>, x: nat)
    requires Writing(f, g, first, p, data) && x < At(f, |f.mem|)
    requires Span(f, first, p) >= |data| && (p > first ==> Span(f, first, p - 1) < |data|)
    ensures x < |Linear(f.mem)| && x < |Linear(g.mem)|
    ensures ByteRewritten(f, g, At(f, first), data, x)
  {
    hide Linear, Sector, SectorOf, Scale, Steps, Uniform, Holds, At, Span, LastErased;
    var last := LastErased(f, first, p);
    DeviceLength(f, g, first, p, last, data);
    PageSteps(f, first, p);
    if p > first {
      LastTouched(f, first, p, |data|);
    }
    if At(f, first) <= x < At(f, p) {
      InsidePages(f, g, first, p, last, data, x);
      SectorRange(f, first, p, x);
    } else {
      BesidePages(f, g, first, p, last, data, x);
      if p == first {
        NothingErased(f, first, p);
      }
    }
  }

  lemma NothingErased(f: Nor, first: nat, p: nat)
    requires f.sectorSize > 0 && p == first
    ensures LastErased(f, first, p) == -1
  {
  }

  lemma WritingEnds(f: Nor, g: Nor, first: nat, p: nat, data: seq<byte>)
    requires Writing(f, g, first, p, data)
    requires Span(f, first, p) >= |data| && (p > first ==> Span(f, first, p - 1) < |data|)
    requires At(f, first) + |data| <= At(f, |f.mem|)
    ensures Rewritten(f, g, At(f, first), data)
  {
    hide Linear, Sector, Scale, Steps, Uniform, Holds, ByteRewritten, At, Span;
    DeviceLength(f, g, first, p, LastErased(f, first, p), data);
    forall x: nat | x < At(f, |f.mem|)
      ensures x < |Linear(f.mem)| && x < |Linear(g.mem)| && ByteRewritten(f, g, At(f, first), data, x)
    {
      RewrittenAt(f, g, first, p, data, x);
    }
  }

  lemma DeviceLength(f: Nor, g: Nor, first: nat, p: nat, last: int, data: seq<byte>)
    requires Sound(f) && Sound(g) && Holds(f, g, first, p, last, data)
    ensures |Linear(f.mem)| == |Linear(g.mem)| == At(f, |f.mem|)
    ensures first <= p <= |f.mem| == |g.mem|
  {
    hide Linear, Scale, Sector;
    LinearLength(f.mem, f.pgsize);
    LinearLength(g.mem, g.pgsize);
  }

  /** Event k of a list is the only erase of sector s, and nothing in s was programmed before it. */
  ghost predicate OnlyErase(f: Nor, events: seq<Event>, s: nat, k: nat)
    requires f.sectorSize > 0
  {
    && k < |events| && events[k] == Erased(s)
    && (forall i :: 0 <= i < |events| && events[i] == Erased(s) ==> i == k)
    && (forall i :: 0 <= i < k && events[i].Programmed? ==> Sector(f, events[i].page) != s)
  }

  /** Each sector touched is erased exactly once, before any of its pages is programmed; no other is erased. */
  lemma {:induction false} ErasedOnceFirst(f: Nor, first: nat, p: nat, s: nat) returns (k: nat)
    requires Sound(f) && first < p
    ensures Sector(f, first) <= s <= Sector(f, p - 1) ==> OnlyErase(f, Steps(f, first, p), s, k)
    ensures s < Sector(f, first) || s > Sector(f, p - 1) ==> Erased(s) !in Steps(f, first, p)
    ensures forall e :: e in Steps(f, first, p) && e.Programmed? ==> first <= e.page < p
  {
    hide Sector, Scale, Uniform;
    var q := p - 1;
    var before := Steps(f, first, q);
    var news := Entering(f, first, q) + [Programmed(q)];
    var all := Steps(f, first, p);
    assert all == before + news;
    if q == first {
      assert before == [] && all == [Erased(Sector(f, first)), Programmed(first)];
      return 0;
    }
    k := ErasedOnceFirst(f, first, q, s);
    SectorsAscend(f, q - 1, q);
    SectorsAscend(f, first, q - 1);
    NextSector(f, q - 1);
    if s == Sector(f, q) && Sector(f, q - 1) < Sector(f, q) {
      k := |before|;
      forall e | e in before && e.Programmed?
        ensures Sector(f, e.page) != s
      {
        SectorsAscend(f, e.page, q - 1);
      }
    }
  }

  // ---- Ranges ----

  function PagesFor(f: Nor, n: nat): nat
    requires f.pgsize > 0
  {
    (n + f.pgsize - 1) / f.pgsize
  }

  /** A page count whose last page is needed. */
  lemma PagesNeeded(f: Nor, n: nat, j: nat)
    requires f.pgsize > 0 && At(f, j) >= n && (j > 0 ==> At(f, j - 1) < n)
    ensures j == PagesFor(f, n)
  {
    if j > 0 {
      NextMultiple(j - 1, f.pgsize);
      DivideUnique(n + f.pgsize - 1, f.pgsize, j, n - 1 - At(f, j - 1));
    } else {
      DivideUnique(n + f.pgsize - 1, f.pgsize, 0, f.pgsize - 1);
    }
  }

  lemma PagesAscend(f: Nor, p: nat, q: nat)
    requires p <= q
    ensures At(f, p) <= At(f, q)
  {
    PageSteps(f, p, q);
  }

  lemma PageBelow(f: Nor, p: nat, q: nat)
    requires At(f, p) < At(f, q)
    ensures p < q
  {
    hide At;
    if q <= p {
      PagesAscend(f, q, p);
    }
  }

  /** The page number the programmer computes. */
  lemma PageIs(f: Nor, g: Nor, p: nat)
    requires f.pgsize == g.pgsize > 0
    ensures PageOf(g, At(f, p)) == p
  {
    PageNumber(p, f.pgsize);
  }

  /** The bytes of a request that lie in the device. */
  function Fits(f: Nor, first: nat, n: nat): nat {
    if At(f, first) + n > At(f, |f.mem|)
    then (if At(f, |f.mem|) >= At(f, first) then At(f, |f.mem|) - At(f, first) else 0)
    else n
  }

  /** What sectorerase_and_program does, and what it returns. */
  ghost predicate ProgramEnds(f: Nor, g: Nor, image: seq<byte>, offset: nat, rlength: nat, r: int)
    requires f.sectorSize > 0 && f.pgsize > 0 && rlength <= |image|
  {
    var first := PageOf(f, offset);
    if |image| == 0 || At(f, first) > At(f, |f.mem|) then
      r == -1 && g == f
    else
      var data := image[..Fits(f, first, if rlength != 0 then rlength else |image|)];
      if r == 0 then
        && Rewritten(f, g, At(f, first), data)
        && g.history == f.history + Steps(f, first, first + PagesFor(f, |data|))
      else
        r == -1 && exists p :: p >= first && At(f, p) < At(f, first) + |data|
                     && (Ready(f, g, first, p, data) || Writing(f, g, first, p + 1, data))
  }

  /** The length of a read, and where it ends: a length beyond the whole device is clipped. */
  function ReadLength(f: Nor, first: nat, rlength: nat): nat
    requires At(f, first) <= At(f, |f.mem|)
  {
    if rlength != 0 then rlength else At(f, |f.mem|) - At(f, first)
  }

  function ReadStops(f: Nor, first: nat, rlength: nat): nat
    requires At(f, first) <= At(f, |f.mem|)
  {
    var len := ReadLength(f, first, rlength);
    if len > At(f, |f.mem|) then At(f, |f.mem|) else At(f, first) + len
  }

  /**
   * What `read` returns and leaves in the image: the bytes of the device up to where it stops, then
   * blank bytes. A read that runs out of the device leaves anything behind the device's bytes.
   */
  ghost predicate ReadEnds(f: Nor, was: seq<byte>, now: seq<byte>, offset: nat, rlength: nat, r: int)
    requires f.pgsize > 0
  {
    var first := PageOf(f, offset);
    if At(f, first) > At(f, |f.mem|) then
      r == -1 && now == was
    else
      var (len, stop) := (ReadLength(f, first, rlength), ReadStops(f, first, rlength));
      r == 0 && At(f, first) <= stop && At(f, first) <= |Linear(f.mem)|
      && StartsWith(now, Linear(f.mem)[At(f, first)..Least(stop, |Linear(f.mem)|)], len, stop <= |Linear(f.mem)|)
  }

  /** A read gives the whole range from the start of its page on exactly when that lies in the device. */
  lemma ReadFromPageExactlyWhen(f: Nor, offset: nat, rlength: nat)
    requires Sound(f) && At(f, PageOf(f, offset)) <= At(f, |f.mem|)
    ensures var (at, len) := (At(f, PageOf(f, offset)), ReadLength(f, PageOf(f, offset), rlength));
      (forall was: seq<byte>, now: seq<byte>, r: int :: ReadEnds(f, was, now, offset, rlength, r) ==>
         r == 0 && at + len <= |Linear(f.mem)| && now == Linear(f.mem)[at..at + len])
      <==> at + len <= |Linear(f.mem)|
  {
    hide At, Linear, PageOf, Uniform, Scale;
    SoundLength(f);
    var first := PageOf(f, offset);
    var (at, len, stop) := (At(f, first), ReadLength(f, first, rlength), ReadStops(f, first, rlength));
    var lin := Linear(f.mem);
    if at + len <= |lin| {
      forall was: seq<byte>, now: seq<byte>, r: int | ReadEnds(f, was, now, offset, rlength, r)
        ensures r == 0 && now == lin[at..at + len]
      {
      }
    } else {
      var now := Padded(lin[at..Least(stop, |lin|)], len);
      assert ReadEnds(f, now, now, offset, rlength, 0);
    }
  }

  /** How much of page j of n bytes is compared: as much as the page after it has, if there is one. */
  function CompareLen(f: Nor, n: nat, j: nat): (c: nat)
    requires At(f, j) < n
  {
    PageSteps(f, j, j);
    if At(f, j + 1) < n then (if n - At(f, j + 1) > f.pgsize then f.pgsize else n - At(f, j + 1))
    else n - At(f, j)
  }

  lemma CompareLenFits(f: Nor, n: nat, j: nat)
    requires At(f, j) < n
    ensures 0 < CompareLen(f, n, j) <= n - At(f, j) || f.pgsize == 0
    ensures CompareLen(f, n, j) <= f.pgsize
  {
    PageSteps(f, j, j);
  }

  predicate Matches(f: Nor, image: seq<byte>, first: nat, n: nat, j: nat) {
    && At(f, j) < n <= |image| && first + j < |f.mem|
    && CompareLen(f, n, j) <= |f.mem[first + j]| && At(f, j) + CompareLen(f, n, j) <= |image|
    && f.mem[first + j][..CompareLen(f, n, j)] == image[At(f, j)..At(f, j) + CompareLen(f, n, j)]
  }

  /** The number of pages among the first j that compare unequal. */
  function Mismatches(f: Nor, image: seq<byte>, first: nat, n: nat, j: nat): nat {
    if j == 0 then 0 else Mismatches(f, image, first, n, j - 1) + if Matches(f, image, first, n, j - 1) then 0 else 1
  }

  /** The result of `verify`: the number of bad pages, at most six. */
  ghost predicate VerifyEnds(f: Nor, image: seq<byte>, offset: nat, rlength: nat, r: int)
    requires f.pgsize > 0
  {
    var first := PageOf(f, offset);
    if |image| == 0 then r == -1
    else if At(f, first) > At(f, |f.mem|) then r == 1
    else
      var n := Compared(f, first, image, rlength);
      var bad := Mismatches(f, image, first, n, PagesFor(f, n));
      r == if bad > 5 then 6 else bad
  }

  // ---- Steps of the programmer's loops ----

  lemma SoundFacts(f: Nor, first: nat)
    requires Sound(f) && At(f, first) <= At(f, |f.mem|)
    ensures first <= |f.mem| && |Linear(f.mem)| == At(f, |f.mem|)
  {
    hide Linear, Scale, Sector;
    LinearLength(f.mem, f.pgsize);
    QuotientsAscend(first, 0, |f.mem|, 0, f.pgsize);
  }

  lemma SameParts(f: Nor, g: Nor, first: nat, p: nat, data: seq<byte>)
    ensures Writing(f, g, first, p, data) || Ready(f, g, first, p, data) ==> SameDevice(f, g) && Sound(f) && Sound(g)
  {
    hide Sound, Linear, Sector, Steps, Entering;
  }

  lemma SectorIs(f: Nor, g: Nor, p: nat)
    requires f.sectorSize == g.sectorSize > 0
    ensures SectorOf(g, At(f, p)) == Sector(f, p)
  {
  }

  lemma PagePayload(f: Nor, first: nat, p: nat, data: seq<byte>, image: seq<byte>, rlen: nat)
    requires first <= p && Span(f, first, p) < |data| && data <= image
    requires rlen == if |data| - Span(f, first, p) > f.pgsize then f.pgsize else |data| - Span(f, first, p)
    ensures Span(f, first, p) + rlen <= |data|
    ensures PageData(f, first, p, data) == image[Span(f, first, p)..Span(f, first, p) + rlen]
  {
    hide Span;
  }

  lemma SectorAfter(f: Nor, first: nat, p: nat, sectorNr: nat)
    requires f.sectorSize > 0 && first <= p
    ensures LastErased(f, first, p + 1) == Sector(f, p)
  {
  }

  /** The range asked for. */
  predicate Asked(f: Nor, first: nat, data: seq<byte>, image: seq<byte>, rlength: nat) {
    && |image| > 0 && rlength <= |image| && At(f, first) <= At(f, |f.mem|)
    && Fits(f, first, if rlength != 0 then rlength else |image|) <= |image|
    && data == image[..Fits(f, first, if rlength != 0 then rlength else |image|)]
  }

  lemma AskedRange(f: Nor, first: nat, image: seq<byte>, rlength: nat)
    requires |image| > 0 && rlength <= |image| && At(f, first) <= At(f, |f.mem|)
    ensures var n := if rlength != 0 then rlength else |image|;
      var stop := Least(At(f, first) + n, At(f, |f.mem|));
      0 <= stop - At(f, first) <= |image| && Asked(f, first, image[..stop - At(f, first)], image, rlength)
  {
    hide At;
  }

  lemma AskedLength(f: Nor, first: nat, data: seq<byte>, image: seq<byte>, rlength: nat)
    requires Asked(f, first, data, image, rlength)
    ensures rlength <= |image|
  {
    hide At, Fits;
  }

  lemma ProgramStops(f: Nor, g: Nor, image: seq<byte>, offset: nat, rlength: nat, data: seq<byte>, p: nat)
    requires f.sectorSize > 0 && f.pgsize > 0 && Asked(f, PageOf(f, offset), data, image, rlength)
    requires p >= PageOf(f, offset) && At(f, p) < At(f, PageOf(f, offset)) + |data|
    requires Ready(f, g, PageOf(f, offset), p, data) || Writing(f, g, PageOf(f, offset), p + 1, data)
    ensures ProgramEnds(f, g, image, offset, rlength, -1)
  {
    hide At, Ready, Writing, Rewritten, Fits;
  }

  lemma ProgramFinishes(f: Nor, g: Nor, image: seq<byte>, offset: nat, rlength: nat, data: seq<byte>, p: nat)
    requires Sound(f) && Asked(f, PageOf(f, offset), data, image, rlength)
    requires var first := PageOf(f, offset);
      && p >= first && At(f, p) >= At(f, first) + |data| && (p > first ==> At(f, p - 1) < At(f, first) + |data|)
      && Writing(f, g, first, p, data)
    ensures ProgramEnds(f, g, image, offset, rlength, 0)
  {
    hide At, Fits, Span, PagesFor, Rewritten, Steps, Sound, Holds;
    SoundParts(f);
    var first := PageOf(f, offset);
    PageSteps(f, first, p);
    if p > first {
      PageSteps(f, first, p - 1);
    }
    FitsInside(f, first, if rlength != 0 then rlength else |image|);
    WritingEnds(f, g, first, p, data);
    SpanIsAt(f, first, p);
    if p > first {
      SpanIsAt(f, first, p - 1);
    }
    PagesNeeded(f, |data|, p - first);
  }

  lemma SoundParts(f: Nor)
    requires Sound(f)
    ensures f.pgsize > 0 && f.sectorSize > 0
  {
  }

  lemma FitsInside(f: Nor, first: nat, n: nat)
    requires At(f, first) <= At(f, |f.mem|)
    ensures At(f, first) + Fits(f, first, n) <= At(f, |f.mem|)
  {
    hide At;
  }

  lemma SpanIsAt(f: Nor, p: nat, q: nat)
    requires p <= q
    ensures Span(f, p, q) == At(f, q - p)
  {
  }

  function Least(a: nat, b: nat): nat {
    if a < b then a else b
  }

  /** The bytes of page p, as far as the range goes, wait for the next transfer. */
  ghost predicate Replying(f: Nor, g: Nor, p: nat, dataEnd: nat) {
    && g == f.(reply := g.reply)
    && (At(f, p) < dataEnd && At(f, p) < |Linear(f.mem)| ==>
          At(f, p) <= Least(At(f, p + 1), dataEnd) <= |Linear(f.mem)|
          && g.reply == Linear(f.mem)[At(f, p)..Least(At(f, p + 1), dataEnd)])
  }

  /** A page read command: the page answers during the next transfer. */
  lemma ReadEffect(f: Nor, g: Nor, p: nat, dataEnd: nat, header: seq<byte>, payload: seq<byte>)
    requires Sound(f) && g == f.(reply := g.reply)
    requires |header| == 4 && header[0] == PAGE_READ && AddressesPage(header, p, f.pgsize)
    requires At(f, p) < dataEnd ==> |payload| == Least(f.pgsize, dataEnd - At(f, p))
    ensures Replying(f, Execute(g, header, payload), p, dataEnd)
  {
    hide Linear, PageAt, AddressesPage, Scale, Sector, EraseSector, At, Uniform;
    ReadOnly(g, header, payload);
    if At(f, p) < dataEnd && At(f, p) < |Linear(f.mem)| {
      LinearLength(f.mem, f.pgsize);
      AllPages(f);
      PageBelow(f, p, |f.mem|);
      PageFits(f, p, header);
      PageSteps(f, p, p);
      PageBytes(f, p);
      var n := |payload|;
      PrefixOfSlice(Linear(f.mem), At(f, p), f.pgsize, n);
    }
  }

  lemma ReadOnly(g: Nor, header: seq<byte>, payload: seq<byte>)
    requires |header| == 4 && header[0] == PAGE_READ && g.sectorSize > 0
    ensures Execute(g, header, payload) == g.(reply := Execute(g, header, payload).reply)
    ensures var p := PageAt(header, g.pgsize);
      p < |g.mem| && |payload| <= |g.mem[p]| ==> Execute(g, header, payload).reply == g.mem[p][..|payload|]
  {
    hide PageAt;
  }

  lemma AllPages(f: Nor)
    requires |Linear(f.mem)| == |f.mem| * f.pgsize
    ensures |Linear(f.mem)| == At(f, |f.mem|)
  {
  }

  lemma PageBytes(f: Nor, p: nat)
    requires Sound(f) && p < |f.mem|
    ensures At(f, p) <= At(f, p) + f.pgsize <= |Linear(f.mem)| && |f.mem[p]| == f.pgsize
    ensures f.mem[p] == Linear(f.mem)[At(f, p)..At(f, p) + f.pgsize]
  {
    hide Linear, Scale;
    LinearSlice(f.mem, f.pgsize, p, p + 1);
    NextMultiple(p, f.pgsize);
    assert f.mem[p..p + 1] == [f.mem[p]];
    LinearOne(f.mem[p]);
  }

  /** An image that starts with some bytes, and is blank behind them if they are all that was asked for. */
  predicate StartsWith(now: seq<byte>, part: seq<byte>, len: nat, all: bool) {
    && |part| <= len == |now|
    && now[..|part|] == part
    && (all ==> now == Padded(part, len))
  }

  /** The image holds what precedes the page that is on its way. */
  ghost predicate Reading(f: Nor, g: Nor, first: nat, p: nat, dataEnd: nat, now: seq<byte>, len: nat) {
    && first <= p && At(f, first) <= dataEnd <= At(f, first) + len && At(f, first) <= |Linear(f.mem)|
    && g == f.(reply := g.reply)
    && (p > first ==> Replying(f, g, p - 1, dataEnd))
    && StartsWith(now, Taken(f, first, p, dataEnd), len, dataEnd <= |Linear(f.mem)|)
  }

  /** The bytes of the device that have been taken when page p is asked for. */
  ghost function Taken(f: Nor, first: nat, p: nat, dataEnd: nat): (r: seq<byte>)
    requires At(f, first) <= dataEnd && At(f, first) <= |Linear(f.mem)| && first <= p
    ensures p == first ==> r == []
    ensures p > first ==> |r| == Least(Least(At(f, p - 1), dataEnd), |Linear(f.mem)|) - At(f, first)
  {
    if p == first then []
    else
      PagesAscend(f, first, p - 1);
      Linear(f.mem)[At(f, first)..Least(Least(At(f, p - 1), dataEnd), |Linear(f.mem)|)]
  }

  lemma ReadingBegins(f: Nor, first: nat, dataEnd: nat, now: seq<byte>, len: nat)
    requires now == Repeat<byte>(BLANK, len) && At(f, first) <= dataEnd <= At(f, first) + len
    requires At(f, first) <= |Linear(f.mem)|
    ensures Reading(f, f, first, first, dataEnd, now, len)
  {
    hide Linear, At;
  }

  /** A page that arrives extends what has been taken, as far as it is in the device. */
  lemma PageArrived(f: Nor, g: Nor, first: nat, p: nat, dataEnd: nat, now: seq<byte>, len: nat, got: seq<byte>)
    requires Reading(f, g, first, p, dataEnd, now, len) && p > first && At(f, p - 1) < dataEnd
    requires |got| == Least(f.pgsize, dataEnd - At(f, p - 1))
    requires forall k :: 0 <= k < |got| && k < |g.reply| ==> got[k] == g.reply[k]
    ensures At(f, p - 1) - At(f, first) >= 0 && At(f, p - 1) - At(f, first) + |got| <= len == |now|
    ensures StartsWith(Overwrite(now, At(f, p - 1) - At(f, first), got), Taken(f, first, p + 1, dataEnd), len,
                       dataEnd <= |Linear(f.mem)|)
  {
    hide Linear, At, Overwrite, Padded;
    PagesAscend(f, first, p - 1);
    PageSteps(f, p - 1, p - 1);
    var lin := Linear(f.mem);
    var (a, b, c) := (At(f, first), At(f, p - 1), Least(At(f, p), dataEnd));
    if b < |lin| {
      assert got == g.reply == lin[b..c];
      assert lin[a..c] == lin[a..b] + lin[b..c];
      TakeMore(now, lin[a..b], got, len, dataEnd <= |lin|);
    } else {
      TakeNoMore(now, lin[a..], b - a, got, len);
    }
  }

  lemma TakeMore(now: seq<byte>, part: seq<byte>, got: seq<byte>, len: nat, all: bool)
    requires StartsWith(now, part, len, all) && |part| + |got| <= len
    ensures StartsWith(Overwrite(now, |part|, got), part + got, len, all)
  {
    if all {
      PaddedOverwrite(part, got, len);
    }
  }

  lemma TakeNoMore(now: seq<byte>, part: seq<byte>, at: nat, got: seq<byte>, len: nat)
    requires StartsWith(now, part, len, false) && |part| <= at && at + |got| <= len
    ensures StartsWith(Overwrite(now, at, got), part, len, false)
  {
  }

  /** After a transfer that asks for page p. */
  lemma ReadingStep(f: Nor, g: Nor, first: nat, p: nat, dataEnd: nat, now: seq<byte>, len: nat)
    requires first <= p && At(f, first) <= dataEnd <= At(f, first) + len && At(f, first) <= |Linear(f.mem)|
    requires Replying(f, g, p, dataEnd)
    requires StartsWith(now, Taken(f, first, p + 1, dataEnd), len, dataEnd <= |Linear(f.mem)|)
    ensures Reading(f, g, first, p + 1, dataEnd, now, len)
  {
    hide Linear, At, StartsWith;
  }

  lemma NothingTakenYet(f: Nor, first: nat, dataEnd: nat)
    requires At(f, first) <= dataEnd && At(f, first) <= |Linear(f.mem)|
    ensures Taken(f, first, first + 1, dataEnd) == [] == Taken(f, first, first, dataEnd)
  {
    hide Linear, At;
  }

  /** Nothing is asked for after the end. */
  lemma NoReply(f: Nor, g: Nor, p: nat, dataEnd: nat)
    requires g == f.(reply := g.reply) && At(f, p) >= dataEnd
    ensures Replying(f, g, p, dataEnd)
  {
  }

  lemma ReadRange(f: Nor, first: nat, rlength: nat)
    requires At(f, first) <= At(f, |f.mem|)
    ensures var len := if rlength != 0 then rlength else At(f, |f.mem|) - At(f, first);
      && len == ReadLength(f, first, rlength)
      && ReadStops(f, first, rlength) == if len > At(f, |f.mem|) then At(f, |f.mem|) else At(f, first) + len
  {
    hide At;
  }

  lemma ReadingKeeps(f: Nor, g: Nor, first: nat, p: nat, dataEnd: nat, now: seq<byte>, len: nat)
    requires Reading(f, g, first, p, dataEnd, now, len)
    ensures g == f.(reply := g.reply)
  {
    hide Linear, At;
  }

  lemma ReadingEnds(f: Nor, g: Nor, first: nat, p: nat, was: seq<byte>, now: seq<byte>, offset: nat, rlength: nat)
    requires f.pgsize > 0 && first == PageOf(f, offset) && p > first && At(f, first) <= At(f, |f.mem|)
    requires var stop := ReadStops(f, first, rlength);
      At(f, p - 1) >= stop && Reading(f, g, first, p, stop, now, ReadLength(f, first, rlength))
    ensures ReadEnds(f, was, now, offset, rlength, 0)
  {
    hide Linear, At;
  }

  /** The pages that have arrived have been compared. */
  ghost predicate Comparing(f: Nor, g: Nor, image: seq<byte>, first: nat, p: nat, dataEnd: nat, k: nat) {
    && first <= p && At(f, first) <= dataEnd && g == f.(reply := g.reply)
    && (p > first ==> Replying(f, g, p - 1, dataEnd))
    && k == Mismatches(f, image, first, dataEnd - At(f, first), if p > first then p - 1 - first else 0)
  }

  lemma ComparingBegins(f: Nor, image: seq<byte>, first: nat, dataEnd: nat)
    requires At(f, first) <= dataEnd
    ensures Comparing(f, f, image, first, first, dataEnd, 0)
  {
    hide At, Matches;
  }

  /** Comparing what arrived with the file compares the page, as far as it is compared at all. */
  lemma CompareIs(f: Nor, g: Nor, image: seq<byte>, first: nat, p: nat, dataEnd: nat, k: nat, got: seq<byte>, rlen: nat)
    requires Sound(f) && Comparing(f, g, image, first, p, dataEnd, k) && p > first
    requires At(f, p - 1) < dataEnd <= |Linear(f.mem)| && dataEnd - At(f, first) <= |image|
    requires rlen == if At(f, p) < dataEnd then Least(f.pgsize, dataEnd - At(f, p))
                     else Least(f.pgsize, dataEnd - At(f, p - 1))
    requires |got| == f.pgsize && forall k :: 0 <= k < |got| && k < |g.reply| ==> got[k] == g.reply[k]
    ensures var l := At(f, p - 1) - At(f, first);
      0 <= l && l + rlen <= |image| && rlen <= |got|
      && (got[..rlen] == image[l..l + rlen] <==> Matches(f, image, first, dataEnd - At(f, first), p - 1 - first))
  {
    hide Linear, At, Scale, Uniform, Sector, Mismatches, CompareLen;
    var (n, q) := (dataEnd - At(f, first), p - 1);
    var j := q - first;
    ShiftedPages(f, first, j);
    PageSteps(f, q, q);
    LinearLength(f.mem, f.pgsize);
    AllPages(f);
    PageBelow(f, q, |f.mem|);
    PageBytes(f, q);
    CompareLenIs(f, n, j);
    assert rlen == CompareLen(f, n, j);
    PrefixArrived(Linear(f.mem), At(f, q), Least(At(f, p), dataEnd), f.pgsize, got, g.reply, rlen);
  }

  lemma CompareLenIs(f: Nor, n: nat, j: nat)
    requires At(f, j) < n
    ensures CompareLen(f, n, j)
            == if At(f, j + 1) < n then Least(f.pgsize, n - At(f, j + 1)) else n - At(f, j)
  {
    hide At;
  }

  lemma PrefixArrived(lin: seq<byte>, a: nat, b: nat, n: nat, got: seq<byte>, reply: seq<byte>, c: nat)
    requires a <= b <= a + n <= |lin| && reply == lin[a..b] && c <= b - a && |got| == n
    requires forall k :: 0 <= k < |got| && k < |reply| ==> got[k] == reply[k]
    ensures got[..c] == lin[a..a + n][..c]
  {
  }

  lemma ShiftedPages(f: Nor, first: nat, j: nat)
    ensures At(f, first + j) == At(f, first) + At(f, j)
    ensures At(f, first + j + 1) == At(f, first) + At(f, j + 1) && At(f, j + 1) == At(f, j) + f.pgsize
  {
  }

  lemma ComparingStep(f: Nor, g: Nor, image: seq<byte>, first: nat, p: nat, dataEnd: nat, k: nat, h: Nor)
    requires Comparing(f, g, image, first, p, dataEnd, k) && Replying(f, h, p, dataEnd)
    ensures var j := p - 1 - first;
      Comparing(f, h, image, first, p + 1, dataEnd,
                if p == first || Matches(f, image, first, dataEnd - At(f, first), j) then k else k + 1)
  {
    hide At, Matches, Linear;
  }

  lemma {:induction false} MismatchesGrow(f: Nor, image: seq<byte>, first: nat, n: nat, i: nat, j: nat)
    requires i <= j
    ensures Mismatches(f, image, first, n, i) <= Mismatches(f, image, first, n, j)
  {
    hide Matches;
    if i < j {
      MismatchesGrow(f, image, first, n, i, j - 1);
    }
  }

  /** The range that is compared. */
  function Compared(f: Nor, first: nat, image: seq<byte>, rlength: nat): nat {
    Fits(f, first, if rlength != 0 && rlength < |image| then rlength else |image|)
  }

  lemma ComparedRange(f: Nor, first: nat, image: seq<byte>, rlength: nat)
    requires Sound(f) && At(f, first) <= At(f, |f.mem|)
    ensures var n := if rlength != 0 && rlength < |image| then rlength else |image|;
      && Least(At(f, first) + n, At(f, |f.mem|)) == At(f, first) + Compared(f, first, image, rlength) <= |Linear(f.mem)|
      && Compared(f, first, image, rlength) <= |image|
  {
    hide At, Linear, Scale;
    LinearLength(f.mem, f.pgsize);
    AllPages(f);
  }

  /** Where a comparison starts and stops. */
  predicate ComparesTo(f: Nor, image: seq<byte>, offset: nat, rlength: nat, first: nat, stop: nat) {
    && f.pgsize > 0 && |image| > 0 && first == PageOf(f, offset)
    && At(f, first) <= At(f, |f.mem|)
    && stop == At(f, first) + Compared(f, first, image, rlength)
  }

  lemma VerifyingEnds(f: Nor, g: Nor, image: seq<byte>, offset: nat, rlength: nat, first: nat, stop: nat, p: nat,
                      k: nat)
    requires ComparesTo(f, image, offset, rlength, first, stop)
    requires p > first && Comparing(f, g, image, first, p, stop, k)
    requires p > first + 1 ==> At(f, p - 2) < stop
    requires if k <= 5 then At(f, p - 1) >= stop else p > first + 1 && k == 6
    ensures VerifyEnds(f, image, offset, rlength, k)
  {
    hide At, Fits, Matches, PageOf, Linear, PagesFor;
    var n := Compared(f, first, image, rlength);
    var j := p - 1 - first;
    ShiftedPages(f, first, j);
    if j > 0 {
      ShiftedPages(f, first, j - 1);
    }
    if k <= 5 {
      PagesNeeded(f, n, j);
    } else {
      PagesEnough(f, n, j - 1);
      MismatchesGrow(f, image, first, n, j, PagesFor(f, n));
    }
  }

  lemma PagesEnough(f: Nor, n: nat, j: nat)
    requires f.pgsize > 0 && At(f, j) < n
    ensures j < PagesFor(f, n)
  {
    var q := PagesFor(f, n);
    Euclid(n + f.pgsize - 1, f.pgsize);
    QuotientBelow(j, 0, q, f.pgsize);
  }

  // ---- The programmer ----

  datatype Mosi = Nothing | Command(header: seq<byte>, payload: seq<byte>)

  function Transferred(f: Nor, mosi: Mosi): Nor
    requires f.sectorSize > 0 && (mosi.Command? ==> |mosi.header| >= 1)
  {
    if mosi.Command? then Execute(f, mosi.header, mosi.payload) else f.(reply := [])
  }

  lemma EnableEffect(f: Nor)
    requires f.sectorSize > 0
    ensures Execute(f, [WRITE_ENABLE], []) == f.(reply := [], writable := true)
  {
    hide Sector, EraseSector, PageAt;
  }

  lemma StatusEffect(f: Nor)
    requires f.sectorSize > 0
    ensures forall payload :: Execute(f, [READ_STATUS_REGISTER], payload) == f.(reply := [])
  {
    hide Sector, EraseSector, PageAt;
  }

  /** Status bytes up to the first without the busy bit, at most `limit`; reaching the limit is a failure. */
  ghost predicate Waited(s: seq<byte>, limit: nat, failed: bool) {
    && 1 <= |s| <= limit
    && (forall k :: 0 <= k < |s| - 1 ==> s[k] >= 0x80)
    && (|s| < limit ==> s[|s| - 1] < 0x80)
    && (failed <==> |s| == limit)
  }

  class ProgAlgSPIFlash {
    const pgsize: nat
    const pages: nat
    const sectorSize: nat
    const sectorEraseCmd: byte
    const buf: array<byte>
    var flash: Nor

    /** Every status byte that has come back. */
    ghost var statuses: seq<byte>

    ghost predicate Valid()
      reads this
    {
      && Sound(flash)
      && flash.pgsize == pgsize && flash.sectorSize == sectorSize && flash.eraseCmd == sectorEraseCmd
      && |flash.mem| == pages && pgsize > 0 && sectorSize > 0
      && buf.Length == pgsize + 16
    }

    constructor (device: Nor)
      requires Sound(device)
      ensures Valid() && flash == device && fresh(buf)
    {
      flash := device;
      pgsize, pages, sectorSize, sectorEraseCmd := device.pgsize, |device.mem|, device.sectorSize, device.eraseCmd;
      buf := new byte[device.pgsize + 16](_ => 0);
    }

    /** One exchange: the reply to the previous command comes back, as far as there is one. */
    method SpiXfer(misoLen: nat, mosi: Mosi) returns (miso: seq<byte>)
      requires Valid() && (mosi.Command? ==> |mosi.header| >= 1)
      modifies this`flash
      ensures Valid() && flash == Transferred(old(flash), mosi)
      ensures |miso| == misoLen
      ensures forall k :: 0 <= k < misoLen && k < |old(flash).reply| ==> miso[k] == old(flash).reply[k]
    {
      hide Execute, Linear, Scale;
      var stray: byte := *;
      var reply := flash.reply;
      miso := if misoLen <= |reply| then reply[..misoLen] else reply + Repeat<byte>(stray, misoLen - |reply|);
      if mosi.Command? {
        ExecuteSound(flash, mosi.header, mosi.payload);
      }
      flash := Transferred(flash, mosi);
    }

    /** Polls the status register; time running out is a failure. */
    method Wait(command: byte, limit: nat) returns (failed: bool)
      requires Valid() && command == READ_STATUS_REGISTER && limit >= 1
      modifies this`flash, this`statuses
      ensures Valid() && flash == old(flash).(reply := [])
      ensures old(statuses) <= statuses && Waited(statuses[|old(statuses)|..], limit, failed)
    {
      hide Sound, Execute;
      StatusEffect(flash);
      var none := SpiXfer(0, Command([command], [0]));
      var j, done := 0, false;
      while !done && j < limit
        invariant Valid() && flash == old(flash).(reply := [])
        invariant old(statuses) <= statuses && |statuses| == |old(statuses)| + j && j <= limit
        invariant forall k :: |old(statuses)| <= k < |statuses| ==>
                    (statuses[k] < 0x80 <==> done && k == |statuses| - 1)
        invariant done ==> j > 0
      {
        StatusEffect(flash);
        var rbuf := SpiXfer(1, Command([command], [0]));
        j := j + 1;
        done := rbuf[0] < 0x80;
        statuses := statuses + [rbuf[0]];
      }
      failed := j >= limit;
    }

    method EnableWrite()
      requires Valid()
      modifies this`flash
      ensures Valid() && flash == old(flash).(reply := [], writable := true)
    {
      hide Sound, Execute;
      EnableEffect(flash);
      var none := SpiXfer(0, Command([WRITE_ENABLE], []));
    }

    /** A command for a page, in a buffer of its own. */
    method PageCommand(command: byte, page: nat) returns (header: seq<byte>)
      ensures |header| == 4 && header[0] == command && AddressesPage(header, page, pgsize)
    {
      hide AddressesPage;
      var fbuf := new byte[4];
      fbuf[0] := command;
      Page2Padd(fbuf, page, pgsize);
      header := fbuf[..4];
    }

    /** Erases the sector of a page and waits. */
    method EraseFor(page: nat, ghost f: Nor, ghost first: nat, ghost data: seq<byte>) returns (failed: bool)
      requires Valid() && page < |flash.mem|
      requires Writing(f, flash, first, page, data) && LastErased(f, first, page) < Sector(f, page)
      modifies this`flash, this`statuses
      ensures Valid() && Ready(f, flash, first, page, data)
      ensures old(statuses) <= statuses && |statuses| <= |old(statuses)| + 3000
      ensures failed ==> |statuses| == |old(statuses)| + 3000
    {
      hide Sound, Execute, Writing, Ready, AddressesPage, LastErased, Sector;
      SameParts(f, flash, first, page, data);
      ghost var g := flash;
      EnableWrite();
      OtherReply(f, g, first, page, data, flash);
      var fbuf := PageCommand(sectorEraseCmd, page);
      EraseDone(f, flash, first, page, data, fbuf);
      var none := SpiXfer(0, Command(fbuf, []));
      g := flash;
      failed := Wait(READ_STATUS_REGISTER, 3000);
      OtherReply(f, g, first, page, data, flash);
    }

    /** Finds out whether the sector of the page at i has to be erased. */
    method EnterPage(i: nat, nr: nat, ghost f: Nor, ghost first: nat, ghost p: nat, ghost data: seq<byte>)
        returns (failed: bool, sectorNr: nat)
      requires Valid() && f.sectorSize > 0 && i == At(f, p) && first <= p < |flash.mem|
      requires Writing(f, flash, first, p, data) && nr == LastErased(f, first, p) + 1
      modifies this`flash, this`statuses
      ensures Valid() && Ready(f, flash, first, p, data) && sectorNr == Sector(f, p) + 1
      ensures old(statuses) <= statuses && |statuses| <= |old(statuses)| + 3000
      ensures failed ==> |statuses| == |old(statuses)| + 3000
    {
      hide Sound, Writing, Ready, LastErased, Sector, At, PageOf, SectorOf;
      SameParts(f, flash, first, p, data);
      PageIs(f, flash, p);
      SectorIs(f, flash, p);
      failed, sectorNr := false, nr;
      if sectorNr <= SectorOf(flash, i) {
        sectorNr := SectorOf(flash, i) + 1;
        failed := EraseFor(PageOf(flash, i), f, first, data);
      } else {
        EraseUnneeded(f, flash, first, p, data);
      }
    }

    /** Programs a page from the buffer and waits. */
    method ProgramPage(page: nat, payload: seq<byte>, ghost f: Nor, ghost first: nat, ghost data: seq<byte>)
        returns (failed: bool)
      requires Valid() && page < |flash.mem| && |payload| <= pgsize
      requires Ready(f, flash, first, page, data)
      requires first <= page && Span(f, first, page) < |data| && payload == PageData(f, first, page, data)
      modifies this`flash, this`statuses, buf
      ensures Valid() && Writing(f, flash, first, page + 1, data)
      ensures old(statuses) <= statuses && |statuses| <= |old(statuses)| + 50
      ensures failed ==> |statuses| == |old(statuses)| + 50
    {
      hide Sound, Execute, Writing, Ready, AddressesPage, LastErased, Sector, PageData, Span;
      SameParts(f, flash, first, page, data);
      ghost var g := flash;
      EnableWrite();
      OtherReply(f, g, first, page, data, flash);
      buf[0] := PAGE_PROGRAM;
      Page2Padd(buf, page, pgsize);
      ghost var header := buf[..4];
      forall k | 0 <= k < |payload| {
        buf[4 + k] := payload[k];
      }
      assert buf[..4] == header && buf[4..4 + |payload|] == payload;
      ProgramDone(f, flash, first, page, data, header);
      var none := SpiXfer(0, Command(buf[..4], buf[4..4 + |payload|]));
      g := flash;
      failed := Wait(READ_STATUS_REGISTER, 50);
      OtherReply(f, g, first, page + 1, data, flash);
    }

    /** Erases each sector on entering it and programs the pages of the range in order. */
    method SectorEraseAndProgram(pfile: BitFile) returns (r: int)
      requires Valid() && pfile.Valid() && pfile.length < MAX_BYTES && pfile.rlength <= pfile.length
      requires pfile.buffer != buf
      modifies this`flash, this`statuses, buf
      ensures Valid()
      ensures ProgramEnds(old(flash), flash, pfile.Data(), pfile.offset, pfile.rlength, r)
      ensures r == 0 || statuses == old(statuses) || |statuses| >= |old(statuses)| + 50
    {
      hide Sound, Writing, Ready, LastErased, Sector, PageData, Rewritten, Steps, At, Span, ProgramEnds, Linear, Asked,
           Fits, PageOf, SectorOf;
      ghost var f, image := flash, pfile.Data();
      if pfile.GetLength() / 8 == 0 {
        ProgramRefused(f, image, pfile.offset, pfile.rlength);
        return -1;
      }
      var first := PageOf(flash, pfile.offset);
      var offset, size := At(flash, first), At(flash, pages);
      if offset > size {
        ProgramRefused(f, image, pfile.offset, pfile.rlength);
        return -1;
      }
      var dataEnd := offset + (if pfile.rlength != 0 then pfile.rlength else pfile.GetLength() / 8);
      if dataEnd > size {
        dataEnd := size;
      }
      AskedRange(f, first, image, pfile.rlength);
      r := ProgramPages(pfile, first, offset, dataEnd);
    }

    /** The pages of the range in order. */
    method ProgramPages(pfile: BitFile, ghost first: nat, offset: nat, dataEnd: nat) returns (r: int)
      requires Valid() && pfile.Valid() && pfile.buffer != buf
      requires first == PageOf(flash, pfile.offset) && offset == At(flash, first)
      requires offset <= dataEnd <= At(flash, pages) && dataEnd - offset <= pfile.length
      requires Asked(flash, first, pfile.Data()[..dataEnd - offset], pfile.Data(), pfile.rlength)
      modifies this`flash, this`statuses, buf
      ensures Valid()
      ensures pfile.rlength <= pfile.length
              && ProgramEnds(old(flash), flash, pfile.Data(), pfile.offset, pfile.rlength, r)
      ensures r == 0 || |statuses| >= |old(statuses)| + 50
    {
      hide Sound, Writing, Ready, LastErased, Sector, PageData, Rewritten, Steps, At, Span, ProgramEnds, Linear, Asked,
           Fits, PageOf, SectorOf;
      ghost var f, image := flash, pfile.Data();
      ghost var data := image[..dataEnd - offset];
      AskedLength(f, first, data, image, pfile.rlength);
      var sectorNr := 0;
      var i := offset;
      ghost var p := first;
      SoundFacts(f, first);
      WritingBegins(f, first, data);
      NothingErased(f, first, first);
      while i < dataEnd
        invariant Valid() && pfile.Data() == image && old(statuses) <= statuses
        invariant first <= p && i == At(f, p) && (p > first ==> At(f, p - 1) < dataEnd)
        invariant sectorNr == LastErased(f, first, p) + 1
        invariant Writing(f, flash, first, p, data)
        decreases dataEnd + pgsize - i
      {
        PageSteps(f, first, p);
        PageBelow(f, p, pages);
        var rlen := if dataEnd - i > pgsize then pgsize else dataEnd - i;
        var failed;
        failed, sectorNr := EnterPage(i, sectorNr, f, first, p, data);
        if !failed {
          PagePayload(f, first, p, data, image, rlen);
          PageIs(f, flash, p);
          var payload := pfile.Load(i - offset, rlen);
          failed := ProgramPage(PageOf(flash, i), payload, f, first, data);
        }
        if failed {
          ProgramStops(f, flash, image, pfile.offset, pfile.rlength, data, p);
          return -1;
        }
        SectorAfter(f, first, p, sectorNr);
        i := i + pgsize;
        p := p + 1;
      }
      ProgramFinishes(f, flash, image, pfile.offset, pfile.rlength, data, p);
      return 0;
    }

    /** Reads the range page by page, each page arriving while the next is asked for. */
    method Read(rfile: BitFile) returns (r: int)
      requires Valid() && rfile.Valid() && rfile.rlength < MAX_BYTES && At(flash, pages) < MAX_BYTES
      modifies this`flash, rfile`buffer, rfile`length
      ensures Valid() && rfile.Valid()
      ensures flash == old(flash).(reply := flash.reply)
      ensures ReadEnds(old(flash), old(rfile.Data()), rfile.Data(), rfile.offset, rfile.rlength, r)
    {
      hide Sound, At, PageOf, Reading, Linear, ReadEnds, SectorOf, ReadStops, ReadLength;
      ghost var f, was := flash, rfile.Data();
      var first := PageOf(flash, rfile.offset);
      var offset, size := At(flash, first), At(flash, pages);
      if offset > size {
        ReadRefused(f, was, rfile.offset, rfile.rlength);
        return -1;
      }
      var len := if rfile.rlength != 0 then rfile.rlength else size - offset;
      var dataEnd := offset + len;
      if len > size {
        dataEnd := size;
      }
      rfile.SetLength(len * 8);
      var i, rlen: nat := offset, *;
      var l: int := 0 - (pgsize as int);
      ghost var p := first;
      SoundLength(f);
      ReadingBegins(f, first, dataEnd, rfile.Data(), len);
      ReadRange(f, first, rfile.rlength);
      while i < dataEnd + pgsize
        invariant Valid() && rfile.Valid() && fresh(rfile.buffer)
        invariant first <= p && i == At(f, p) && l == i - offset - pgsize
        invariant p > first && At(f, p - 1) < dataEnd ==> rlen == Least(pgsize, dataEnd - At(f, p - 1))
        invariant Reading(f, flash, first, p, dataEnd, rfile.Data(), len)
        decreases dataEnd + 2 * pgsize - i
      {
        PageIs(f, flash, p);
        PageSteps(f, first, p);
        if p > first {
          PageSteps(f, first, p - 1);
        }
        var last := rlen;
        if i < dataEnd {
          rlen := if dataEnd - i > pgsize then pgsize else dataEnd - i;
        }
        ReadPage(rfile, PageOf(flash, i), l, last, rlen, i >= dataEnd, f, first, p, dataEnd, len);
        l := l + pgsize;
        i := i + pgsize;
        p := p + 1;
      }
      PageSteps(f, first, p - 1);
      ReadingKeeps(f, flash, first, p, dataEnd, rfile.Data(), len);
      ReadingEnds(f, flash, first, p, was, rfile.Data(), rfile.offset, rfile.rlength);
      r := 0;
    }

    /** One transfer: the page before arrives, if there is one, and this one is asked for, unless past the end. */
    method ReadPage(rfile: BitFile, page: nat, l: int, last: nat, rlen: nat, atEnd: bool, ghost f: Nor,
                    ghost first: nat, ghost p: nat, ghost dataEnd: nat, ghost len: nat)
      requires Valid() && rfile.Valid() && page == p && first <= p && l == At(f, p) - At(f, first) - pgsize
      requires SameDevice(f, flash) && Sound(f)
      requires atEnd == (At(f, p) >= dataEnd) && (!atEnd ==> rlen == Least(pgsize, dataEnd - At(f, p)))
      requires p > first && At(f, p - 1) < dataEnd ==>
               last == Least(pgsize, dataEnd - At(f, p - 1)) && (atEnd ==> rlen == last)
      requires p > first ==> At(f, p - 1) < dataEnd && At(f, p) == At(f, p - 1) + pgsize
      requires Reading(f, flash, first, p, dataEnd, rfile.Data(), len)
      modifies this`flash, rfile.buffer
      ensures Valid() && rfile.Valid()
      ensures Reading(f, flash, first, p + 1, dataEnd, rfile.Data(), len)
    {
      hide Sound, At, Replying, Taken, AddressesPage, Execute, Linear, Padded, Overwrite;
      ghost var g, now := flash, rfile.Data();
      var buf := PageCommand(PAGE_READ, page);
      var ask := Command(buf, Repeat<byte>(0, rlen));
      ReadEffect(f, g, p, dataEnd, buf, Repeat<byte>(0, rlen));
      if l < 0 {
        NothingTakenYet(f, first, dataEnd);
        var none := SpiXfer(0, ask);
      } else {
        var got: seq<byte>;
        if atEnd {
          NoReply(f, g, p, dataEnd);
          got := SpiXfer(rlen, Nothing);
          NoReply(f, flash, p, dataEnd);
        } else {
          got := SpiXfer(pgsize, ask);
        }
        PageArrived(f, g, first, p, dataEnd, now, len, got);
        rfile.Store(l, got);
      }
      ReadingStep(f, flash, first, p, dataEnd, rfile.Data(), len);
    }

    /** Compares the device with the file; the result counts bad pages, and six end the run. */
    method Verify(vfile: BitFile) returns (r: int)
      requires Valid() && vfile.Valid() && vfile.length < MAX_BYTES
      modifies this`flash
      ensures Valid() && flash == old(flash).(reply := flash.reply)
      ensures VerifyEnds(old(flash), vfile.Data(), vfile.offset, vfile.rlength, r)
    {
      hide Sound, At, PageOf, Comparing, Linear, VerifyEnds, Compared, ComparesTo;
      ghost var f, image := flash, vfile.Data();
      VerifyFails(f, image, vfile.offset, vfile.rlength);
      if vfile.GetLength() / 8 == 0 {
        return -1;
      }
      var first := PageOf(flash, vfile.offset);
      var offset, size := At(flash, first), At(flash, pages);
      if offset > size {
        return 1;
      }
      var dataEnd := offset + (if vfile.rlength != 0 && vfile.rlength < vfile.GetLength() / 8 then vfile.rlength
                               else vfile.GetLength() / 8);
      if dataEnd > size {
        dataEnd := size;
      }
      ComparedRange(f, first, image, vfile.rlength);
      ComparesFromTo(f, image, vfile.offset, vfile.rlength, dataEnd);
      r := ComparePages(vfile, first, offset, dataEnd);
    }

    /** The pages of the range, one transfer after the last of them. */
    method ComparePages(vfile: BitFile, ghost first: nat, offset: nat, dataEnd: nat) returns (k: nat)
      requires Valid() && vfile.Valid() && offset == At(flash, first)
      requires ComparesTo(flash, vfile.Data(), vfile.offset, vfile.rlength, first, dataEnd)
      requires offset <= dataEnd <= |Linear(flash.mem)| && dataEnd - offset <= |vfile.Data()|
      modifies this`flash
      ensures Valid() && flash == old(flash).(reply := flash.reply)
      ensures VerifyEnds(old(flash), vfile.Data(), vfile.offset, vfile.rlength, k)
    {
      hide Sound, At, PageOf, Comparing, Linear, VerifyEnds, Compared, ComparesTo;
      ghost var f, image := flash, vfile.Data();
      ghost var (of, rl) := (vfile.offset, vfile.rlength);
      k := 0;
      var i, rlen: nat := offset, *;
      var l: int := 0 - (pgsize as int);
      ghost var p := first;
      ComparingBegins(f, image, first, dataEnd);
      while i < dataEnd + pgsize
        invariant Valid() && k <= 5
        invariant first <= p && i == At(f, p) && l == i - offset - pgsize
        invariant p > first && At(f, p - 1) < dataEnd ==> rlen == Least(pgsize, dataEnd - At(f, p - 1))
        invariant Comparing(f, flash, image, first, p, dataEnd, k)
        invariant p > first + 1 ==> At(f, p - 2) < dataEnd
        decreases dataEnd + 2 * pgsize - i
      {
        PageSteps(f, first, p);
        if p > first {
          PageSteps(f, first, p - 1);
        }
        if i < dataEnd {
          rlen := if dataEnd - i > pgsize then pgsize else dataEnd - i;
        }
        PageIs(f, flash, p);
        ComparingKeeps(f, flash, image, first, p, dataEnd, k);
        k := ComparePage(vfile, PageOf(flash, i), l, rlen, k, f, first, p, dataEnd);
        ComparingKeeps(f, flash, image, first, p + 1, dataEnd, k);
        if k > 5 {
          VerifyingEnds(f, flash, image, of, rl, first, dataEnd, p + 1, k);
          return k;
        }
        l := l + pgsize;
        i := i + pgsize;
        p := p + 1;
      }
      PageSteps(f, first, p - 1);
      ComparingKeeps(f, flash, image, first, p, dataEnd, k);
      VerifyingEnds(f, flash, image, of, rl, first, dataEnd, p, k);
      return k;
    }

    /** One transfer: asks for a page and compares the one before, if there is one. */
    method ComparePage(vfile: BitFile, page: nat, l: int, rlen: nat, was: nat, ghost f: Nor, ghost first: nat,
                       ghost p: nat, ghost dataEnd: nat) returns (k: nat)
      requires Valid() && vfile.Valid() && page == p && first <= p && l == At(f, p) - At(f, first) - pgsize
      requires SameDevice(f, flash) && Sound(f)
      requires dataEnd <= |Linear(f.mem)| && dataEnd - At(f, first) <= |vfile.Data()|
      requires p > first ==> At(f, p - 1) < dataEnd && At(f, p) == At(f, p - 1) + pgsize
      requires At(f, p) < dataEnd ==> rlen == Least(pgsize, dataEnd - At(f, p))
      requires p > first && At(f, p) >= dataEnd ==> rlen == Least(pgsize, dataEnd - At(f, p - 1))
      requires Comparing(f, flash, vfile.Data(), first, p, dataEnd, was)
      modifies this`flash
      ensures Valid() && was <= k <= was + 1 && (p == first ==> k == was)
      ensures Comparing(f, flash, vfile.Data(), first, p + 1, dataEnd, k)
    {
      hide Sound, At, Replying, AddressesPage, Execute, Linear, Comparing, Matches;
      ghost var g, image := flash, vfile.Data();
      ComparingKeeps(f, g, image, first, p, dataEnd, was);
      if p > first {
        PagesAscend(f, first, p - 1);
      }
      var buf := PageCommand(PAGE_READ, page);
      ReadEffect(f, g, p, dataEnd, buf, Repeat<byte>(0, rlen));
      var data := SpiXfer(pgsize, Command(buf, Repeat<byte>(0, rlen)));
      ComparingStep(f, g, image, first, p, dataEnd, was, flash);
      k := was;
      if l >= 0 {
        CompareIs(f, g, image, first, p, dataEnd, was, data, rlen);
        var part := vfile.Load(l, rlen);
        if data[..rlen] != part {
          k := k + 1;
        }
      }
    }
  }

  lemma ComparesFromTo(f: Nor, image: seq<byte>, offset: nat, rlength: nat, stop: nat)
    requires f.pgsize > 0 && |image| > 0 && At(f, PageOf(f, offset)) <= At(f, |f.mem|)
    requires stop == At(f, PageOf(f, offset)) + Compared(f, PageOf(f, offset), image, rlength)
    ensures ComparesTo(f, image, offset, rlength, PageOf(f, offset), stop)
  {
    hide At, PageOf, Compared;
  }

  lemma ComparingKeeps(f: Nor, g: Nor, image: seq<byte>, first: nat, p: nat, dataEnd: nat, k: nat)
    requires Comparing(f, g, image, first, p, dataEnd, k)
    ensures g == f.(reply := g.reply) && At(f, first) <= dataEnd
  {
    hide Linear, At, Replying;
  }

  lemma VerifyFails(f: Nor, image: seq<byte>, offset: nat, rlength: nat)
    requires f.pgsize > 0
    ensures |image| == 0 ==> VerifyEnds(f, image, offset, rlength, -1)
    ensures |image| > 0 && At(f, PageOf(f, offset)) > At(f, |f.mem|) ==> VerifyEnds(f, image, offset, rlength, 1)
  {
    hide At, PageOf, Matches, PagesFor, Compared;
  }

  lemma ReadRefused(f: Nor, was: seq<byte>, offset: nat, rlength: nat)
    requires f.pgsize > 0 && At(f, PageOf(f, offset)) > At(f, |f.mem|)
    ensures ReadEnds(f, was, was, offset, rlength, -1)
  {
    hide At;
  }

  lemma ProgramRefused(f: Nor, image: seq<byte>, offset: nat, rlength: nat)
    requires f.sectorSize > 0 && f.pgsize > 0 && rlength <= |image|
    requires |image| == 0 || At(f, PageOf(f, offset)) > At(f, |f.mem|)
    ensures ProgramEnds(f, f, image, offset, rlength, -1)
  {
    hide At, Fits;
  }

  // ---- What verification can and cannot see ----

  /** The bytes never compared: in the page before a partial last page, those beyond the last page's length. */
  predicate Blind(f: Nor, n: nat, x: nat)
    requires f.pgsize > 0
  {
    var q := PagesFor(f, n);
    q >= 2 && At(f, q - 1) < n && At(f, q - 2) + (n - At(f, q - 1)) <= x < At(f, q - 1)
  }

  lemma PagesBound(f: Nor, n: nat)
    requires f.pgsize > 0
    ensures At(f, PagesFor(f, n)) >= n && (PagesFor(f, n) > 0 ==> At(f, PagesFor(f, n) - 1) < n)
    ensures n > 0 <==> PagesFor(f, n) > 0
  {
    var q := PagesFor(f, n);
    Euclid(n + f.pgsize - 1, f.pgsize);
    if q > 0 {
      NextMultiple(q - 1, f.pgsize);
    }
  }

  /** Page j is compared exactly where it is not blind. */
  lemma Covered(f: Nor, n: nat, j: nat, k: nat)
    requires f.pgsize > 0 && k < f.pgsize && At(f, j) + k < n
    ensures j < PagesFor(f, n)
    ensures k < CompareLen(f, n, j) <==> !Blind(f, n, At(f, j) + k)
  {
    hide At, PagesFor, CompareLen;
    var q := PagesFor(f, n);
    PagesBound(f, n);
    PageBelow(f, j, q);
    CompareLenIs(f, n, j);
    PageSteps(f, j, j);
    PageSteps(f, j + 1, j + 1);
    PageSteps(f, q - 1, q - 1);
    if q >= 2 {
      PageSteps(f, q - 2, q - 2);
      if j < q - 2 {
        PagesAscend(f, j + 1, q - 2);
      }
    }
  }

  lemma {:induction false} NoMismatch(f: Nor, image: seq<byte>, first: nat, n: nat, j: nat)
    ensures Mismatches(f, image, first, n, j) == 0 <==> forall i :: 0 <= i < j ==> Matches(f, image, first, n, i)
  {
    hide Matches;
    if j > 0 {
      NoMismatch(f, image, first, n, j - 1);
    }
  }

  /** Byte x of the file is in the device, x bytes behind page `first`. */
  predicate Carries(f: Nor, image: seq<byte>, first: nat, x: nat) {
    x < |image| && At(f, first) + x < |Linear(f.mem)| && Linear(f.mem)[At(f, first) + x] == image[x]
  }

  lemma SameSlices(s: seq<byte>, t: seq<byte>, b: nat, a: nat, c: nat)
    requires b + a + c <= |s| && a + c <= |t|
    ensures s[b + a..b + a + c] == t[a..a + c] <==> forall x :: a <= x < a + c ==> s[b + x] == t[x]
  {
    var (u, v) := (s[b + a..b + a + c], t[a..a + c]);
    if u == v {
      forall x | a <= x < a + c
        ensures s[b + x] == t[x]
      {
        assert u[x - a] == v[x - a];
      }
    }
  }

  /** What is compared of page j, as a range of the device. */
  lemma ComparedBytes(f: Nor, first: nat, n: nat, j: nat)
    requires Sound(f) && At(f, first) + n <= |Linear(f.mem)| && At(f, j) < n
    ensures first + j < |f.mem| && CompareLen(f, n, j) <= |f.mem[first + j]| && At(f, j) + CompareLen(f, n, j) <= n
    ensures var (b, c) := (At(f, first) + At(f, j), CompareLen(f, n, j));
      b + c <= |Linear(f.mem)| && f.mem[first + j][..c] == Linear(f.mem)[b..b + c]
  {
    hide At, Linear, CompareLen, Uniform, Scale, Sector;
    CompareLenFits(f, n, j);
    ShiftedPages(f, first, j);
    LinearLength(f.mem, f.pgsize);
    AllPages(f);
    PageBelow(f, first + j, |f.mem|);
    PageBytes(f, first + j);
    PrefixOfSlice(Linear(f.mem), At(f, first + j), f.pgsize, CompareLen(f, n, j));
  }

  lemma MatchesBytes(f: Nor, image: seq<byte>, first: nat, n: nat, j: nat)
    requires Sound(f) && At(f, first) + n <= |Linear(f.mem)| && n <= |image| && At(f, j) < n
    ensures Matches(f, image, first, n, j)
            <==> forall x :: At(f, j) <= x < At(f, j) + CompareLen(f, n, j) ==> Carries(f, image, first, x)
  {
    hide At, Linear, CompareLen, Sound;
    var (a, b, c) := (At(f, j), At(f, first), CompareLen(f, n, j));
    ComparedBytes(f, first, n, j);
    SameSlices(Linear(f.mem), image, b, a, c);
    forall x | a <= x < a + c
      ensures Carries(f, image, first, x) <==> Linear(f.mem)[b + x] == image[x]
    {
    }
    assert Matches(f, image, first, n, j) <==> Linear(f.mem)[b + a..b + a + c] == image[a..a + c];
  }

  /** Verification finds no bad page exactly when device and file agree on every byte that is not blind. */
  lemma VerifyExactlyWhen(f: Nor, image: seq<byte>, first: nat, n: nat)
    requires Sound(f) && At(f, first) + n <= |Linear(f.mem)| && n <= |image|
    ensures Mismatches(f, image, first, n, PagesFor(f, n)) == 0
            <==> forall x :: 0 <= x < n && !Blind(f, n, x) ==> Carries(f, image, first, x)
  {
    hide At, Linear, CompareLen, Uniform, Scale, Matches, Blind, PagesFor, Mismatches, Carries;
    var q := PagesFor(f, n);
    NoMismatch(f, image, first, n, q);
    PagesBound(f, n);
    if forall i :: 0 <= i < q ==> Matches(f, image, first, n, i) {
      forall x: nat | x < n && !Blind(f, n, x)
        ensures Carries(f, image, first, x)
      {
        var j, k := PageOfByte(f, x);
        Covered(f, n, j, k);
        MatchesBytes(f, image, first, n, j);
        assert Matches(f, image, first, n, j);
      }
    }
    if forall x :: 0 <= x < n && !Blind(f, n, x) ==> Carries(f, image, first, x) {
      forall i | 0 <= i < q
        ensures Matches(f, image, first, n, i)
      {
        PagesAscend(f, i, q - 1);
        MatchesBytes(f, image, first, n, i);
        CompareLenFits(f, n, i);
        forall x | At(f, i) <= x < At(f, i) + CompareLen(f, n, i)
          ensures Carries(f, image, first, x)
        {
          Covered(f, n, i, x - At(f, i));
        }
      }
    }
  }

  /** What was programmed reads back and verifies. */
  lemma ProgramThenVerify(f: Nor, g: Nor, image: seq<byte>, first: nat, n: nat)
    requires Sound(g) && f.sectorSize > 0 && n <= |image| && Rewritten(f, g, At(g, first), image[..n])
    ensures At(g, first) + n <= |Linear(g.mem)| && Linear(g.mem)[At(g, first)..At(g, first) + n] == image[..n]
    ensures Mismatches(g, image, first, n, PagesFor(g, n)) == 0
  {
    hide At, Linear, Blind, Mismatches, Sector, PagesFor, SectorOf;
    forall x: nat | x < n
      ensures Carries(g, image, first, x)
    {
      assert ByteRewritten(f, g, At(g, first), image[..n], At(g, first) + x);
    }
    VerifyExactlyWhen(g, image, first, n);
    forall x: nat | x < n
      ensures Linear(g.mem)[At(g, first)..At(g, first) + n][x] == image[..n][x]
    {
      assert Carries(g, image, first, x);
    }
  }

  /** For whole pages nothing is blind. */
  lemma WholePagesSeen(f: Nor, j: nat, x: nat)
    requires f.pgsize > 0
    ensures !Blind(f, At(f, j), x)
  {
    if j > 0 {
      NextMultiple(j - 1, f.pgsize);
      PagesNeeded(f, At(f, j), j);
    }
    if j > 1 {
      NextMultiple(j - 2, f.pgsize);
    }
  }

  /** When the last page is partial, and when there is one before it, in terms of the length alone. */
  lemma LastPage(f: Nor, n: nat)
    requires f.pgsize > 0
    ensures At(f, PagesFor(f, n)) == n <==> n % f.pgsize == 0
    ensures PagesFor(f, n) >= 2 <==> n > f.pgsize
  {
    hide PagesFor;
    var (q, d) := (PagesFor(f, n), f.pgsize);
    PagesBound(f, n);
    if q > 0 {
      NextMultiple(q - 1, d);
      if At(f, q) == n {
        DivideUnique(n, d, q, 0);
      } else {
        DivideUnique(n, d, q - 1, n - At(f, q - 1));
      }
      if q >= 2 {
        MultiplesAscend(1, q - 1, d);
      }
    }
  }

  /** Some byte is blind exactly when a partial page follows a whole one. */
  lemma BlindExactlyWhen(f: Nor, n: nat)
    requires f.pgsize > 0
    ensures (exists x :: 0 <= x < n && Blind(f, n, x)) <==> n > f.pgsize && n % f.pgsize != 0
  {
    hide PagesFor, At;
    var q := PagesFor(f, n);
    LastPage(f, n);
    PagesBound(f, n);
    if q >= 2 {
      PageSteps(f, q - 2, q - 2);
      PageSteps(f, q - 1, q - 1);
      if At(f, q) != n {
        assert Blind(f, n, At(f, q - 2) + (n - At(f, q - 1)));
      }
    }
  }

  /** The range in the device, as a list of bytes. */
  lemma CarriesAll(f: Nor, image: seq<byte>, first: nat, n: nat)
    requires n <= |image| && At(f, first) + n <= |Linear(f.mem)|
    ensures image[..n] == Linear(f.mem)[At(f, first)..At(f, first) + n]
            <==> forall x :: 0 <= x < n ==> Carries(f, image, first, x)
  {
    hide Linear, At;
    var part := Linear(f.mem)[At(f, first)..At(f, first) + n];
    forall x | 0 <= x < n
      ensures Carries(f, image, first, x) <==> part[x] == image[..n][x]
    {
    }
  }

  /** The length asked for: an explicit one if it is shorter than the file. */
  function VerifyLength(size: nat, rlength: nat): nat {
    if rlength != 0 && rlength < size then rlength else size
  }

  /** What the comparison of a range in the device comes to. */
  lemma RangeVerified(f: Nor, image: seq<byte>, first: nat, rlength: nat, r: int)
    requires Sound(f) && |image| > 0 && At(f, first) + VerifyLength(|image|, rlength) <= At(f, |f.mem|)
    ensures VerifyEnds(f, image, At(f, first), rlength, r)
            <==> var n := VerifyLength(|image|, rlength);
                 var bad := Mismatches(f, image, first, n, PagesFor(f, n));
                 r == if bad > 5 then 6 else bad
  {
    hide At, PagesFor, Mismatches, PageOf;
    PageIs(f, f, first);
  }

  lemma SoundLength(f: Nor)
    requires Sound(f)
    ensures |Linear(f.mem)| == At(f, |f.mem|) && f.pgsize > 0
  {
    hide Linear, Scale;
    LinearLength(f.mem, f.pgsize);
  }

  /** After a partial last page there is a file that differs from the device and verifies. */
  lemma HiddenDifference(f: Nor, first: nat, size: nat, rlength: nat) returns (image: seq<byte>)
    requires var n := VerifyLength(size, rlength);
      Sound(f) && At(f, first) + n <= |Linear(f.mem)| && n > f.pgsize && n % f.pgsize != 0
    ensures |image| == size && VerifyEnds(f, image, At(f, first), rlength, 0)
    ensures var n := VerifyLength(size, rlength);
      image[..n] != Linear(f.mem)[At(f, first)..At(f, first) + n]
  {
    hide At, Linear, PagesFor, Mismatches, Blind, VerifyEnds, Uniform, Scale;
    var n := VerifyLength(size, rlength);
    SoundLength(f);
    BlindExactlyWhen(f, n);
    var x :| 0 <= x < n && Blind(f, n, x);
    var part := Linear(f.mem)[At(f, first)..At(f, first) + n];
    image := part[x := if part[x] == 0 then 1 else 0] + Repeat<byte>(0, size - n);
    forall y | 0 <= y < n && !Blind(f, n, y)
      ensures Carries(f, image, first, y)
    {
      assert image[y] == part[y];
    }
    VerifyExactlyWhen(f, image, first, n);
    RangeVerified(f, image, first, rlength, 0);
    assert image[..n][x] != part[x];
  }

  /** From a page on, the result is 0 when the device carries what is compared. */
  lemma CarriedVerifies(f: Nor, image: seq<byte>, first: nat, rlength: nat, r: int)
    requires Sound(f) && |image| > 0 && At(f, first) <= At(f, |f.mem|)
    requires var c := Compared(f, first, image, rlength);
      c <= |image| && At(f, first) + c <= |Linear(f.mem)|
      && image[..c] == Linear(f.mem)[At(f, first)..At(f, first) + c]
    ensures VerifyEnds(f, image, At(f, first), rlength, r) <==> r == 0
  {
    hide At, Linear, PagesFor, Mismatches, Blind, Carries, Uniform, Scale, PageOf, Compared;
    var c := Compared(f, first, image, rlength);
    SoundLength(f);
    PageIs(f, f, first);
    VerifyExactlyWhen(f, image, first, c);
    CarriesAll(f, image, first, c);
  }

  /**
   * From a page on, for a length: a result of 0 means that the flash has the file, whatever the
   * file, if and only if the length is a whole number of pages or at most one page.
   */
  lemma VerifyFromPageExactlyWhen(f: Nor, first: nat, size: nat, rlength: nat)
    requires Sound(f) && size > 0 && At(f, first) + VerifyLength(size, rlength) <= |Linear(f.mem)|
    ensures var n := VerifyLength(size, rlength);
      (forall image: seq<byte>, r: int :: |image| == size && VerifyEnds(f, image, At(f, first), rlength, r) ==>
         (r == 0 <==> image[..n] == Linear(f.mem)[At(f, first)..At(f, first) + n]))
      <==> n % f.pgsize == 0 || n <= f.pgsize
  {
    hide At, Linear, PagesFor, Mismatches, Blind, VerifyEnds, Carries, Uniform, Scale;
    var n := VerifyLength(size, rlength);
    SoundLength(f);
    BlindExactlyWhen(f, n);
    if n % f.pgsize == 0 || n <= f.pgsize {
      forall image: seq<byte>, r: int | |image| == size && VerifyEnds(f, image, At(f, first), rlength, r)
        ensures r == 0 <==> image[..n] == Linear(f.mem)[At(f, first)..At(f, first) + n]
      {
        RangeVerified(f, image, first, rlength, r);
        VerifyExactlyWhen(f, image, first, n);
        CarriesAll(f, image, first, n);
      }
    } else {
      var image := HiddenDifference(f, first, size, rlength);
      assert VerifyEnds(f, image, At(f, first), rlength, 0);
    }
  }

  /** A flash of one 64 KiB sector with pages of 256 bytes, and a file of 300 bytes that differs and verifies. */
  lemma PartialPageHidesDifference() returns (f: Nor, image: seq<byte>)
    ensures Sound(f) && f.pgsize == 256 && |image| == 300 <= |Linear(f.mem)|
    ensures VerifyEnds(f, image, 0, 0, 0) && image != Linear(f.mem)[..300]
  {
    hide Linear, VerifyEnds;
    var page: seq<byte> := Repeat<byte>(0, 256);
    f := Nor(256, 0x10000, 0xD8, seq(256, _ => page), false, [], []);
    LinearLength(f.mem, 256);
    image := HiddenDifference(f, 0, 300, 0);
    assert image[..300] == image;
  }

  // ---- Starts off a page ----

  /** Every operation starts at the start of the page that its offset lies in. */
  lemma StartInPage(f: Nor, offset: nat)
    requires f.pgsize > 0
    ensures At(f, PageOf(f, offset)) <= offset < At(f, PageOf(f, offset)) + f.pgsize
    ensures At(f, PageOf(f, offset)) == offset <==> offset % f.pgsize == 0
    ensures PageOf(f, At(f, PageOf(f, offset))) == PageOf(f, offset)
  {
    Euclid(offset, f.pgsize);
    PageIs(f, f, PageOf(f, offset));
  }

  lemma SamePages(f: Nor, g: Nor)
    requires SameDevice(f, g) && f.pgsize > 0
    ensures f.pgsize == g.pgsize && |f.mem| == |g.mem|
    ensures At(f, |f.mem|) == At(g, |g.mem|) && forall x: nat :: PageOf(f, x) == PageOf(g, x) && At(f, x) == At(g, x)
  {
  }

  lemma VerifyRounds(f: Nor, image: seq<byte>, offset: nat, rlength: nat, r: int)
    requires f.pgsize > 0
    ensures VerifyEnds(f, image, offset, rlength, r) <==> VerifyEnds(f, image, At(f, PageOf(f, offset)), rlength, r)
  {
    hide At, PageOf, Mismatches, PagesFor, Compared;
    StartInPage(f, offset);
  }

  /** The page that starts at byte `at` holds a one and then zeros. */
  ghost predicate Marked(f: Nor, at: nat) {
    && at + f.pgsize <= |Linear(f.mem)|
    && forall x :: at <= x < at + f.pgsize ==> Linear(f.mem)[x] == if x == at then 1 else 0
  }

  /** A page of a one and then zeros, and a device of such pages. */
  function MarkedBytes(n: nat): seq<byte> {
    if n == 0 then [] else [1] + Repeat<byte>(0, n - 1)
  }

  /** The same part with page p marked. */
  lemma MarkedPage(f0: Nor, p: nat) returns (f: Nor)
    requires Sound(f0) && p < |f0.mem|
    ensures Sound(f) && SameDevice(f0, f) && Marked(f, At(f0, p))
  {
    hide Linear, Scale, At;
    f := f0.(mem := seq(|f0.mem|, x => MarkedBytes(f0.pgsize)));
    SoundLength(f);
    SamePages(f0, f);
    PageSteps(f0, p, p);
    PagesAscend(f0, p + 1, |f0.mem|);
    forall x | At(f0, p) <= x < At(f0, p) + f0.pgsize
      ensures x < |Linear(f.mem)| && Linear(f.mem)[x] == if x == At(f0, p) then 1 else 0
    {
      ByteAt(f, p, x - At(f0, p));
    }
  }

  /** The length a read asks for: an explicit one, or up to the end of the device. */
  function ReadAsked(f: Nor, offset: nat, rlength: nat): nat {
    if rlength != 0 then rlength else if offset <= At(f, |f.mem|) then At(f, |f.mem|) - offset else 0
  }

  /** Some result of a read exists. */
  lemma SomeRead(f: Nor, offset: nat, rlength: nat) returns (was: seq<byte>, now: seq<byte>, r: int)
    requires Sound(f)
    ensures ReadEnds(f, was, now, offset, rlength, r)
  {
    hide Linear, At, PageOf, Uniform, Scale;
    SoundLength(f);
    var first := PageOf(f, offset);
    if At(f, first) > At(f, |f.mem|) {
      was, now, r := [], [], -1;
    } else {
      var (len, stop) := (ReadLength(f, first, rlength), ReadStops(f, first, rlength));
      now := Padded(Linear(f.mem)[At(f, first)..Least(stop, |Linear(f.mem)|)], len);
      was, r := now, 0;
    }
  }

  /**
   * For a part: every read from an offset returns exactly the bytes of the flash from that offset
   * on, whatever the flash holds, if and only if the offset is on a page and the range lies in the flash.
   */
  lemma ReadExactlyWhen(f0: Nor, offset: nat, rlength: nat)
    requires Sound(f0)
    ensures (forall f: Nor, was: seq<byte>, now: seq<byte>, r: int ::
               Sound(f) && SameDevice(f0, f) && ReadEnds(f, was, now, offset, rlength, r) ==>
                 ReadGives(f, now, offset, ReadAsked(f0, offset, rlength), r))
            <==> offset % f0.pgsize == 0 && offset + ReadAsked(f0, offset, rlength) <= At(f0, |f0.mem|)
  {
    hide Linear, At, PageOf, Uniform, Scale, ReadEnds, SameDevice;
    var asked := ReadAsked(f0, offset, rlength);
    StartInPage(f0, offset);
    if offset % f0.pgsize == 0 && offset + asked <= At(f0, |f0.mem|) {
      forall f: Nor, was: seq<byte>, now: seq<byte>, r: int |
          Sound(f) && SameDevice(f0, f) && ReadEnds(f, was, now, offset, rlength, r)
        ensures ReadGives(f, now, offset, asked, r)
      {
        SamePages(f0, f);
        SoundLength(f);
        ReadFromPageExactlyWhen(f, offset, rlength);
      }
    } else {
      var f, was, now, r := MisplacedRead(f0, offset, rlength);
    }
  }

  /** A read returned the bytes from an offset on. */
  ghost predicate ReadGives(f: Nor, now: seq<byte>, offset: nat, n: nat, r: int) {
    r == 0 && offset + n <= |Linear(f.mem)| && now == Linear(f.mem)[offset..offset + n]
  }

  /** Off a page, or out of the flash, some read does not give what was asked for. */
  lemma MisplacedRead(f0: Nor, offset: nat, rlength: nat) returns (f: Nor, was: seq<byte>, now: seq<byte>, r: int)
    requires Sound(f0)
    requires offset % f0.pgsize != 0 || offset + ReadAsked(f0, offset, rlength) > At(f0, |f0.mem|)
    ensures Sound(f) && SameDevice(f0, f) && ReadEnds(f, was, now, offset, rlength, r)
    ensures !ReadGives(f, now, offset, ReadAsked(f0, offset, rlength), r)
  {
    hide Linear, At, PageOf, Uniform, Scale, ReadEnds, SameDevice, Sound, Marked;
    SameItself(f0);
    SoundLength(f0);
    StartInPage(f0, offset);
    f := f0;
    if offset % f0.pgsize != 0 && offset + ReadAsked(f0, offset, rlength) <= At(f0, |f0.mem|) && rlength != 0 {
      PageBelow(f0, PageOf(f0, offset), |f0.mem|);
      f := MarkedPage(f0, PageOf(f0, offset));
      SamePages(f0, f);
    }
    was, now, r := SomeRead(f, offset, rlength);
    if offset + ReadAsked(f0, offset, rlength) <= At(f0, |f0.mem|) {
      SoundLength(f);
      ReadFromPageExactlyWhen(f, offset, rlength);
      if rlength != 0 {
        MarkMoves(f, At(f0, PageOf(f0, offset)), offset, rlength);
      }
    }
  }

  /** The bytes of a marked page are not those from a later byte of it on. */
  lemma MarkMoves(f: Nor, at: nat, offset: nat, n: nat)
    requires Marked(f, at) && at < offset < at + f.pgsize && 0 < n && offset + n <= |Linear(f.mem)|
    ensures Linear(f.mem)[at..at + n] != Linear(f.mem)[offset..offset + n]
  {
    hide Linear;
    assert Linear(f.mem)[at..at + n][0] == 1 && Linear(f.mem)[offset..offset + n][0] == 0;
  }

  lemma SameItself(f: Nor)
    ensures SameDevice(f, f)
  {
  }

  /** The flash holds the first n bytes of an image from an offset on. */
  ghost predicate HasFile(f: Nor, image: seq<byte>, offset: nat, n: nat) {
    offset + n <= |Linear(f.mem)| && n <= |image| && image[..n] == Linear(f.mem)[offset..offset + n]
  }

  /**
   * A file that verifies from byte `offset` on and is not there, for a start that is off a page or a
   * range out of the flash.
   */
  lemma MisplacedFile(f0: Nor, offset: nat, size: nat, rlength: nat) returns (f: Nor, image: seq<byte>)
    requires Sound(f0) && size > 0 && At(f0, PageOf(f0, offset)) <= At(f0, |f0.mem|)
    requires offset % f0.pgsize != 0 || offset + VerifyLength(size, rlength) > At(f0, |f0.mem|)
    ensures Sound(f) && SameDevice(f0, f) && |image| == size && VerifyEnds(f, image, offset, rlength, 0)
    ensures !HasFile(f, image, offset, VerifyLength(size, rlength))
  {
    hide Linear, At, PageOf, Uniform, Scale, VerifyEnds, SameDevice, Sound, Marked, Compared;
    SameItself(f0);
    SoundLength(f0);
    StartInPage(f0, offset);
    var (first, n) := (PageOf(f0, offset), VerifyLength(size, rlength));
    f := f0;
    if offset + n <= At(f0, |f0.mem|) {
      PageBelow(f0, first, |f0.mem|);
      f := MarkedPage(f0, first);
    }
    SamePages(f0, f);
    SoundLength(f);
    var c := Least(n, |Linear(f.mem)| - At(f, first));
    image := Linear(f.mem)[At(f, first)..At(f, first) + c] + Repeat<byte>(0, size - c);
    ComparedLeast(f, first, image, rlength);
    CarriedVerifies(f, image, first, rlength, 0);
    VerifyRounds(f, image, offset, rlength, 0);
    if offset + n <= At(f0, |f0.mem|) {
      MarkMoves(f, At(f, first), offset, n);
    }
  }

  lemma ComparedLeast(f: Nor, first: nat, image: seq<byte>, rlength: nat)
    requires At(f, first) <= At(f, |f.mem|)
    ensures Compared(f, first, image, rlength) == Least(VerifyLength(|image|, rlength), At(f, |f.mem|) - At(f, first))
  {
    hide At;
  }

  /**
   * For a part, an offset and a length: a result of 0 means exactly that the flash has the file from
   * that offset on, whatever file and flash, if and only if the offset is on a page, the range lies
   * in the flash, and the length is a whole number of pages or at most one page. A start beyond the
   * flash is always refused.
   */
  lemma VerifyCompleteExactlyWhen(f0: Nor, offset: nat, size: nat, rlength: nat)
    requires Sound(f0) && size > 0
    ensures var n := VerifyLength(size, rlength);
      (forall f: Nor, image: seq<byte>, r: int ::
         Sound(f) && SameDevice(f0, f) && |image| == size && VerifyEnds(f, image, offset, rlength, r) ==>
           (r == 0 <==> HasFile(f, image, offset, n)))
      <==> Beyond(f0, offset)
           || (offset % f0.pgsize == 0 && offset + n <= At(f0, |f0.mem|) && (n % f0.pgsize == 0 || n <= f0.pgsize))
  {
    hide Linear, At, PageOf, Uniform, Scale, VerifyEnds, SameDevice, HasFile;
    var n := VerifyLength(size, rlength);
    StartInPage(f0, offset);
    SameItself(f0);
    SoundLength(f0);
    if Beyond(f0, offset) {
      forall f: Nor, image: seq<byte>, r: int |
          Sound(f) && SameDevice(f0, f) && |image| == size && VerifyEnds(f, image, offset, rlength, r)
        ensures r == 0 <==> HasFile(f, image, offset, n)
      {
        BeyondFails(f0, f, image, offset, rlength, r);
      }
    } else if offset % f0.pgsize != 0 || offset + n > At(f0, |f0.mem|) {
      var f, image := MisplacedFile(f0, offset, size, rlength);
      assert VerifyEnds(f, image, offset, rlength, 0);
    } else if n % f0.pgsize == 0 || n <= f0.pgsize {
      forall f: Nor, image: seq<byte>, r: int |
          Sound(f) && SameDevice(f0, f) && |image| == size && VerifyEnds(f, image, offset, rlength, r)
        ensures r == 0 <==> HasFile(f, image, offset, n)
      {
        CompleteInPage(f0, f, image, offset, rlength, r);
      }
    } else {
      var image := HiddenDifference(f0, PageOf(f0, offset), size, rlength);
      Missing(f0, image, offset, n);
      assert VerifyEnds(f0, image, offset, rlength, 0);
    }
  }

  /** A start whose page lies beyond the end of the flash. */
  predicate Beyond(f: Nor, offset: nat)
    requires f.pgsize > 0
  {
    At(f, PageOf(f, offset)) > At(f, |f.mem|)
  }

  lemma BeyondFails(f0: Nor, f: Nor, image: seq<byte>, offset: nat, rlength: nat, r: int)
    requires Sound(f0) && Sound(f) && SameDevice(f0, f) && |image| > 0 && Beyond(f0, offset)
    requires VerifyEnds(f, image, offset, rlength, r)
    ensures r == 1 && !HasFile(f, image, offset, VerifyLength(|image|, rlength))
  {
    hide Linear, At, PageOf, Uniform, Scale, SameDevice, Mismatches;
    SamePages(f0, f);
    SoundLength(f);
    StartInPage(f, offset);
  }

  lemma Missing(f: Nor, image: seq<byte>, offset: nat, n: nat)
    requires n <= |image| && offset + n <= |Linear(f.mem)|
    ensures HasFile(f, image, offset, n) <==> image[..n] == Linear(f.mem)[offset..offset + n]
  {
  }

  lemma CompleteInPage(f0: Nor, f: Nor, image: seq<byte>, offset: nat, rlength: nat, r: int)
    requires Sound(f0) && Sound(f) && SameDevice(f0, f) && |image| > 0 && VerifyEnds(f, image, offset, rlength, r)
    requires var n := VerifyLength(|image|, rlength);
      offset % f0.pgsize == 0 && offset + n <= At(f0, |f0.mem|) && (n % f0.pgsize == 0 || n <= f0.pgsize)
    ensures r == 0 <==> HasFile(f, image, offset, VerifyLength(|image|, rlength))
  {
    hide Linear, At, PageOf, Uniform, Scale, VerifyEnds, SameDevice;
    SamePages(f0, f);
    SoundLength(f);
    StartInPage(f, offset);
    VerifyFromPageExactlyWhen(f, PageOf(f, offset), |image|, rlength);
  }

  /**
   * Equal contents never fail: for a part, an offset and a length, every verification of a file that
   * the flash has from that offset on returns 0 if and only if the offset is on a page, or the
   * range leaves the flash and there is no such file.
   */
  lemma EqualNeverFails(f0: Nor, offset: nat, size: nat, rlength: nat)
    requires Sound(f0) && size > 0
    ensures var n := VerifyLength(size, rlength);
      (forall f: Nor, image: seq<byte>, r: int ::
         && Sound(f) && SameDevice(f0, f) && |image| == size
         && HasFile(f, image, offset, n) && VerifyEnds(f, image, offset, rlength, r)
         ==> r == 0)
      <==> offset % f0.pgsize == 0 || offset + n > At(f0, |f0.mem|)
  {
    hide Linear, At, PageOf, Uniform, Scale, VerifyEnds, SameDevice, HasFile;
    var n := VerifyLength(size, rlength);
    if offset % f0.pgsize == 0 || offset + n > At(f0, |f0.mem|) {
      forall f: Nor, image: seq<byte>, r: int |
          Sound(f) && SameDevice(f0, f) && |image| == size
          && HasFile(f, image, offset, n) && VerifyEnds(f, image, offset, rlength, r)
        ensures r == 0
      {
        SamePages(f0, f);
        EqualOnPage(f, image, offset, rlength, r);
      }
    } else {
      var f, image, r := EqualFails(f0, offset, size, rlength);
    }
  }

  lemma EqualOnPage(f: Nor, image: seq<byte>, offset: nat, rlength: nat, r: int)
    requires Sound(f) && |image| > 0 && VerifyEnds(f, image, offset, rlength, r)
    requires HasFile(f, image, offset, VerifyLength(|image|, rlength))
    ensures offset + VerifyLength(|image|, rlength) <= At(f, |f.mem|)
    ensures offset % f.pgsize == 0 ==> r == 0
  {
    hide Linear, At, PageOf, Uniform, Scale, VerifyEnds, Compared;
    SoundLength(f);
    StartInPage(f, offset);
    if offset % f.pgsize == 0 {
      ComparedLeast(f, PageOf(f, offset), image, rlength);
      CarriedVerifies(f, image, PageOf(f, offset), rlength, r);
    }
  }

  /** Off a page, some flash that has the file is found to be bad. */
  lemma EqualFails(f0: Nor, offset: nat, size: nat, rlength: nat) returns (f: Nor, image: seq<byte>, r: int)
    requires Sound(f0) && size > 0
    requires offset % f0.pgsize != 0 && offset + VerifyLength(size, rlength) <= At(f0, |f0.mem|)
    ensures Sound(f) && SameDevice(f0, f) && |image| == size && HasFile(f, image, offset, VerifyLength(size, rlength))
    ensures VerifyEnds(f, image, offset, rlength, r) && r != 0
  {
    hide Linear, At, PageOf, Uniform, Scale, VerifyEnds, SameDevice, Mismatches, PagesFor, Blind;
    var (first, n) := (PageOf(f0, offset), VerifyLength(size, rlength));
    StartInPage(f0, offset);
    PageBelow(f0, first, |f0.mem|);
    f := MarkedPage(f0, first);
    SamePages(f0, f);
    SoundLength(f);
    image := Linear(f.mem)[offset..offset + n] + Repeat<byte>(0, size - n);
    assert image[..n] == Linear(f.mem)[offset..offset + n];
    var bad := Mismatches(f, image, first, n, PagesFor(f, n));
    r := if bad > 5 then 6 else bad;
    RangeVerified(f, image, first, rlength, r);
    VerifyRounds(f, image, offset, rlength, r);
    FirstByteSeen(f, image, offset, rlength, r);
  }

  /** A file whose first byte is not the one at the start of the page fails. */
  lemma FirstByteSeen(f: Nor, image: seq<byte>, offset: nat, rlength: nat, r: int)
    requires Sound(f) && |image| > 0 && VerifyEnds(f, image, offset, rlength, r)
    requires At(f, PageOf(f, offset)) + VerifyLength(|image|, rlength) <= |Linear(f.mem)|
    requires image[0] != Linear(f.mem)[At(f, PageOf(f, offset))]
    ensures r != 0
  {
    hide Linear, At, PageOf, Uniform, Scale, VerifyEnds, Mismatches, PagesFor, Blind;
    var (first, n) := (PageOf(f, offset), VerifyLength(|image|, rlength));
    SoundLength(f);
    VerifyRounds(f, image, offset, rlength, r);
    RangeVerified(f, image, first, rlength, r);
    VerifyExactlyWhen(f, image, first, n);
    FirstSeen(f, n);
    assert !Carries(f, image, first, 0);
  }

  lemma FirstSeen(f: Nor, n: nat)
    requires f.pgsize > 0
    ensures !Blind(f, n, 0)
  {
    hide PagesFor, At;
  }

  /** The number of bytes that programming is asked for. */
  function ProgramLength(size: nat, rlength: nat): nat {
    if rlength != 0 then rlength else size
  }

  predicate InBytes(bytes: seq<byte>, pgsize: nat, p: nat) {
    (p + 1) * pgsize <= |bytes|
  }

  /** A page of a memory that is given by its bytes. */
  function PageFrom(bytes: seq<byte>, pgsize: nat, p: nat): (r: seq<byte>)
    requires InBytes(bytes, pgsize, p)
    ensures |r| == pgsize
  {
    assert p * pgsize + pgsize == (p + 1) * pgsize;
    bytes[p * pgsize..p * pgsize + pgsize]
  }

  /** A part whose memory holds given bytes. */
  lemma PartWith(f0: Nor, bytes: seq<byte>) returns (f: Nor)
    requires Sound(f0) && |bytes| == At(f0, |f0.mem|)
    ensures f == f0.(mem := f.mem) && Sound(f) && SameDevice(f0, f) && Linear(f.mem) == bytes
  {
    hide Linear, Scale, PageOf;
    forall p: nat | p < |f0.mem|
      ensures InBytes(bytes, f0.pgsize, p)
    {
      MultiplesAscend(p + 1, |f0.mem|, f0.pgsize);
    }
    f := f0.(mem := seq(|f0.mem|, p requires 0 <= p < |f0.mem| => PageFrom(bytes, f0.pgsize, p)));
    SoundLength(f);
    forall x | 0 <= x < |bytes|
      ensures Linear(f.mem)[x] == bytes[x]
    {
      BytesCut(f, bytes, x);
    }
  }

  lemma BytesCut(f: Nor, bytes: seq<byte>, x: nat)
    requires Sound(f) && |bytes| == At(f, |f.mem|) == |Linear(f.mem)| && x < |bytes|
    requires forall p :: 0 <= p < |f.mem| ==>
               InBytes(bytes, f.pgsize, p) && f.mem[p] == PageFrom(bytes, f.pgsize, p)
    ensures Linear(f.mem)[x] == bytes[x]
  {
    hide Linear, Scale;
    var p, k := PageOfByte(f, x);
    ByteAt(f, p, k);
    assert f.mem[p] == PageFrom(bytes, f.pgsize, p);
  }

  /** A part before and after a file is programmed without an error from the page of an offset on. */
  lemma SomeProgram(f0: Nor, image: seq<byte>, offset: nat, rlength: nat) returns (f: Nor, g: Nor, data: seq<byte>)
    requires Sound(f0) && !Beyond(f0, offset) && |image| > 0 && rlength <= |image|
    ensures Sound(f) && Sound(g) && SameDevice(f0, f) && SameDevice(f, g)
    ensures ProgramEnds(f, g, image, offset, rlength, 0)
    ensures var (at, n) := (At(f0, PageOf(f0, offset)), ProgramLength(|image|, rlength));
      at + |data| <= At(f0, |f0.mem|) && (at + n <= At(f0, |f0.mem|) ==> data == image[..n])
      && Linear(g.mem) == Mask(At(f0, |f0.mem|), at, data)
  {
    hide Linear, Scale, Uniform, At, PageOf, Sector, SectorOf, Mask, Steps, PagesFor, ByteRewritten;
    var (first, total) := (PageOf(f0, offset), At(f0, |f0.mem|));
    f := PartWith(f0, Repeat<byte>(BLANK, total));
    SamePages(f0, f);
    data := image[..Fits(f, first, ProgramLength(|image|, rlength))];
    g := PartWith(f, Mask(total, At(f0, first), data));
    g := g.(history := f.history + Steps(f, first, first + PagesFor(f, |data|)));
    forall x | 0 <= x < |Linear(f.mem)|
      ensures ByteRewritten(f, g, At(f, first), data, x)
    {
      MaskRewritten(f, g, At(f, first), data, x);
    }
  }

  lemma MaskRewritten(f: Nor, g: Nor, at: nat, data: seq<byte>, x: nat)
    requires f.sectorSize > 0 && x < |Linear(f.mem)| && at + |data| <= |Linear(f.mem)|
    requires Linear(f.mem)[x] == BLANK && Linear(g.mem) == Mask(|Linear(f.mem)|, at, data)
    ensures ByteRewritten(f, g, at, data, x)
  {
    hide Linear, Mask, SectorOf;
    MaskAt(|Linear(f.mem)|, at, data, x);
  }

  /**
   * For a part, an offset and a length: after every run that reports success the flash has the file
   * from that offset on, if and only if the offset is on a page and the range lies in the flash. A
   * start beyond the flash is always refused.
   */
  lemma ProgramExactlyWhen(f0: Nor, offset: nat, size: nat, rlength: nat)
    requires Sound(f0) && 0 < size && rlength <= size
    ensures var n := ProgramLength(size, rlength);
      (forall f: Nor, g: Nor, image: seq<byte> ::
         && Sound(f) && Sound(g) && SameDevice(f0, f) && SameDevice(f, g) && |image| == size
         && ProgramEnds(f, g, image, offset, rlength, 0)
         ==> HasFile(g, image, offset, n))
      <==> Beyond(f0, offset) || (offset % f0.pgsize == 0 && offset + n <= At(f0, |f0.mem|))
  {
    hide Linear, At, PageOf, Uniform, Scale, ProgramEnds, SameDevice, HasFile, Mask;
    var (at, n) := (At(f0, PageOf(f0, offset)), ProgramLength(size, rlength));
    StartInPage(f0, offset);
    if Beyond(f0, offset) || (offset % f0.pgsize == 0 && offset + n <= At(f0, |f0.mem|)) {
      forall f: Nor, g: Nor, image: seq<byte> |
          && Sound(f) && Sound(g) && SameDevice(f0, f) && SameDevice(f, g) && |image| == size
          && ProgramEnds(f, g, image, offset, rlength, 0)
        ensures HasFile(g, image, offset, n)
      {
        SamePages(f0, f);
        ProgrammedOnPage(f, g, image, offset, rlength);
      }
    } else {
      var zeros := Repeat<byte>(0, size);
      var f, g, data := SomeProgram(f0, zeros, offset, rlength);
      NotThere(g, zeros, at, data, offset, n);
    }
  }

  lemma NotThere(g: Nor, zeros: seq<byte>, at: nat, data: seq<byte>, offset: nat, n: nat)
    requires 0 < n <= |zeros| && at <= offset && zeros == Repeat<byte>(0, |zeros|)
    requires at + |data| <= |Linear(g.mem)| && Linear(g.mem) == Mask(|Linear(g.mem)|, at, data)
    requires offset + n <= |Linear(g.mem)| ==> at < offset && data == zeros[..n]
    ensures !HasFile(g, zeros, offset, n)
  {
    hide Linear, Mask;
    var lin := Linear(g.mem);
    if offset + n <= |lin| {
      MaskAt(|lin|, at, data, offset + n - 1);
      assert lin[offset..offset + n][n - 1] == BLANK && zeros[..n][n - 1] == 0;
    }
  }

  lemma ProgrammedOnPage(f: Nor, g: Nor, image: seq<byte>, offset: nat, rlength: nat)
    requires Sound(f) && Sound(g) && SameDevice(f, g) && 0 < |image| && rlength <= |image|
    requires ProgramEnds(f, g, image, offset, rlength, 0)
    ensures !Beyond(f, offset)
    ensures var n := ProgramLength(|image|, rlength);
      offset % f.pgsize == 0 && offset + n <= At(f, |f.mem|) ==> HasFile(g, image, offset, n)
  {
    hide Linear, At, PageOf, Uniform, Scale, Rewritten, Mismatches, PagesFor, Steps;
    var n := ProgramLength(|image|, rlength);
    StartInPage(f, offset);
    SamePages(f, g);
    if offset % f.pgsize == 0 && offset + n <= At(f, |f.mem|) {
      ProgramThenVerify(f, g, image, PageOf(f, offset), n);
    }
  }

  lemma ZeroAfterMark(f: Nor)
    requires Marked(f, 0) && f.pgsize == 256
    ensures HasFile(f, [0], 1, 1)
  {
    hide Linear;
  }

  lemma PageAtZero(f: Nor, g: Nor)
    requires Sound(f) && Sound(g) && SameDevice(f, g) && f.pgsize == 256 && f.sectorSize == 0x10000 && |f.mem| == 256
    requires ProgramEnds(f, g, Repeat<byte>(0, 256), 1, 0, 0)
    ensures !HasFile(g, Repeat<byte>(0, 256), 1, 256)
  {
    hide Linear, Uniform, Scale, Steps, PagesFor;
    SoundLength(f);
    SoundLength(g);
    var (zeros, lin) := (Repeat<byte>(0, 256), Linear(g.mem));
    assert PageOf(f, 1) == 0 && At(f, 0) == 0 && Fits(f, 0, 256) == 256 && zeros[..256] == zeros;
    assert Rewritten(f, g, 0, zeros);
    assert ByteRewritten(f, g, 0, zeros, 256) && lin[256] == BLANK;
    assert lin[1..257][255] == BLANK && zeros[..256][255] == 0;
  }

  /**
   * From byte 1 on, with pages of 256 bytes: a read gives the bytes from 0 on, a file of one whole
   * page that is not there verifies, a byte that is there fails, and a page is programmed at 0.
   */
  lemma OffsetOneIsMisplaced() returns (f: Nor, image: seq<byte>)
    ensures Sound(f) && f.pgsize == 256 && |f.mem| == 256
    ensures forall was: seq<byte>, now: seq<byte>, r: int :: ReadEnds(f, was, now, 1, 10, r) ==>
              r == 0 && !ReadGives(f, now, 1, 10, r)
    ensures |image| == 256 && VerifyEnds(f, image, 1, 0, 0) && !HasFile(f, image, 1, 256)
    ensures HasFile(f, [0], 1, 1) && forall r: int :: VerifyEnds(f, [0], 1, 0, r) ==> r != 0
    ensures forall g: Nor :: Sound(g) && SameDevice(f, g) && ProgramEnds(f, g, Repeat<byte>(0, 256), 1, 0, 0) ==>
              !HasFile(g, Repeat<byte>(0, 256), 1, 256)
  {
    hide Linear, VerifyEnds, ReadEnds, ProgramEnds;
    var f0 := Nor(256, 0x10000, 0xD8, seq(256, _ => Repeat<byte>(0, 256)), false, [], []);
    f := MarkedPage(f0, 0);
    SoundLength(f);
    image := Linear(f.mem)[0..256];
    CarriedVerifies(f, image, 0, 0, 0);
    VerifyRounds(f, image, 1, 0, 0);
    MarkMoves(f, 0, 1, 256);
    MarkMoves(f, 0, 1, 10);
    ReadFromPageExactlyWhen(f, 1, 10);
    ZeroAfterMark(f);
    assert PageOf(f, 1) == 0 && At(f, 0) == 0;
    forall r: int | VerifyEnds(f, [0], 1, 0, r)
      ensures r != 0
    {
      FirstByteSeen(f, [0], 1, 0, r);
    }
    forall g: Nor | Sound(g) && SameDevice(f, g) && ProgramEnds(f, g, Repeat<byte>(0, 256), 1, 0, 0)
      ensures !HasFile(g, Repeat<byte>(0, 256), 1, 256)
    {
      PageAtZero(f, g);
    }
  }
}
