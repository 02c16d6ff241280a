/** jedecfile.cpp: fuse maps, the JEDEC file parser and printer, and the fuse checksum. */
module Jedec {
  import opened Bits
  import opened HexText

  /** Fuse numbers are printed as signed integers. */
  const INT_LIMIT: nat := 0x8000_0000

  // ---- Characters ----

  predicate IsSpace(ch: char) {
    ch == ' ' || ch == '\t' || ch == '\n' || ch == '\r' || ch == 11 as char || ch == 12 as char
  }

  const STX: char := 2 as char
  const ETX: char := 3 as char

  // ---- The parser as a state machine ----

  datatype State =
    | Startup | Header | Base | FieldC | FieldL | FuseList | FieldN | FieldQ | FieldQF | FieldQP | Skip
    | Failed   // the state pointer is null
    | Threw    // an exception left the parser

  /** The parser's state and the file it fills. */
  datatype Parser = Parser(
    state: State, curFuse: nat,
    fuseCount: nat, pinCount: nat, checksum: nat, fuses: BitString)

  const FRESH := Parser(Startup, 0, 0, 0, 0, [])

  /** Decimal accumulation in a 32-bit unsigned variable. */
  function Push10(n: nat, ch: char): nat
    requires IsDigit(ch)
  {
    (n * 10 + DigitValue(ch)) % WORD
  }

  /** A hexadecimal digit as the checksum field takes it; letters are masked with 0x5f first. */
  function HexValue(ch: char): (r: int)
    ensures -1 <= r < 16
  {
    var c := (ch as int) % 128;
    var masked := if (c / 32) % 2 == 1 then c - 32 else c;
    if IsDigit(ch) then DigitValue(ch)
    else if 'A' as int <= masked <= 'F' as int then masked - '7' as int
    else -1
  }

  function WithFuse(p: Parser, v: bool): Parser {
    if p.curFuse < |p.fuses| then p.(fuses := p.fuses[p.curFuse := v], curFuse := (p.curFuse + 1) % WORD)
    else p.(state := Threw)
  }

  function Step(p: Parser, ch: char): Parser {
    match p.state
    case Startup =>
      if ch == 2 as char then p.(state := Base) else if ch == 'D' then p.(state := Header) else p
    case Header =>
      if ch == '\n' || ch == '\r' then p.(state := Startup) else p
    case Base =>
      if IsSpace(ch) then p
      else if ch == 'L' then p.(state := FieldL, curFuse := 0)
      else if ch == 'Q' then p.(state := FieldQ)
      else if ch == 'C' then p.(state := FieldC, checksum := 0)
      else if ch == 'N' then p.(state := FieldN)
      else p.(state := Skip)
    case FieldC =>
      if IsSpace(ch) then p
      else if ch == '*' then p.(state := Base)
      else if HexValue(ch) >= 0 then p.(checksum := (p.checksum * 16 + HexValue(ch)) % WORD)
      else p.(state := Threw)
    case FieldL =>
      if IsDigit(ch) then p.(curFuse := Push10(p.curFuse, ch))
      else if IsSpace(ch) then p.(state := FuseList)
      else if ch == '*' then p.(state := Base)
      else p.(state := Failed)
    case FuseList =>
      if ch == '*' then p.(state := Base)
      else if ch == '0' then WithFuse(p, false)
      else if ch == '1' then WithFuse(p, true)
      else if ch == ' ' || ch == '\n' || ch == '\r' then p
      else p.(state := Failed)
    case FieldN =>
      if ch == '*' then p.(state := Base) else p
    case FieldQ =>
      if ch == 'F' then
        if p.fuseCount != 0 then p.(state := Failed) else p.(state := FieldQF)
      else if ch == 'P' then
        if p.pinCount != 0 then p.(state := Failed) else p.(state := FieldQP)
      else p.(state := Skip)
    case FieldQF =>
      if IsSpace(ch) then p
      else if IsDigit(ch) then p.(fuseCount := Push10(p.fuseCount, ch))
      else if ch == '*' then p.(state := Base, fuses := Repeat(false, p.fuseCount))
      else p.(state := Threw)
    case FieldQP =>
      if IsSpace(ch) then p
      else if IsDigit(ch) then p.(pinCount := Push10(p.pinCount, ch))
      else if ch == '*' then p.(state := Base)
      else p.(state := Threw)
    case Skip =>
      if ch == '*' then p.(state := Base) else p
    case Failed => p
    case Threw => p
  }

  /** The whole text; nothing is read after a failure. */
  function Parse(p: Parser, text: string): Parser
    decreases |text|
  {
    if text == [] || p.state == Failed || p.state == Threw then p
    else Parse(Step(p, text[0]), text[1..])
  }

  lemma {:induction false} ParseAppend(p: Parser, a: string, b: string)
    ensures Parse(p, a + b) == Parse(Parse(p, a), b)
    decreases |a|
  {
    hide Step;
    if a == [] {
      assert a + b == b;
    } else if p.state != Failed && p.state != Threw {
      assert (a + b)[0] == a[0] && (a + b)[1..] == a[1..] + b;
      ParseAppend(Step(p, a[0]), a[1..], b);
    }
  }

  lemma ParseOne(p: Parser, ch: char, rest: string)
    requires p.state != Failed && p.state != Threw
    ensures Parse(p, [ch] + rest) == Parse(Step(p, ch), rest)
  {
    hide Step;
    assert ([ch] + rest)[1..] == rest;
  }

  /** What readFile returns. */
  datatype ReadResult = Code(code: int) | Exception

  function ResultOf(p: Parser): ReadResult {
    if p.state == Threw then Exception
    else if p.state == Failed then Code(2)
    else if p.fuseCount == 0 then Code(3)
    else Code(0)
  }

  // ---- Numbers in text ----

  /** The output of `%d`. */
  function Decimal(n: nat): (r: string)
    ensures r != []
  {
    if n < 10 then [Digit(n)] else Decimal(n / 10) + [Digit(n % 10)]
  }

  /** The output of `%07d`. */
  function Decimal7(n: nat): (r: string)
    ensures r != []
  {
    var d := Decimal(n);
    if |d| < 7 then seq(7 - |d|, _ => '0') + d else d
  }

  lemma DigitRoundTrip(d: nat)
    requires d < 10
    ensures IsDigit(Digit(d)) && DigitValue(Digit(d)) == d && !IsSpace(Digit(d)) && Digit(d) != '*'
  {
  }

  lemma HexRoundTrip(d: nat)
    requires d < 16
    ensures HexValue(HexDigit(d)) == d && !IsSpace(HexDigit(d)) && HexDigit(d) != '*'
  {
  }

  /** The checksum field takes decimal digits, and letters of both cases with or without their top bit. */
  lemma HexDigitsTaken(ch: char, d: nat)
    requires d < 16 && ch < 256 as char
    ensures HexValue(ch) == d <==>
            if d < 10 then ch == "0123456789"[d]
            else ch as int == 55 + d || ch as int == 87 + d || ch as int == 183 + d || ch as int == 215 + d
  {
  }

  lemma {:induction false} ParseL(p: Parser, n: nat)
    requires p.state == FieldL && p.curFuse == 0 && n < WORD
    ensures Parse(p, Decimal(n)) == p.(curFuse := n)
  {
    if n < 10 {
      DigitRoundTrip(n);
      ParseOne(p, Digit(n), []);
      assert [Digit(n)] + [] == [Digit(n)];
    } else {
      var d := Digit(n % 10);
      ParseL(p, n / 10);
      ParseAppend(p, Decimal(n / 10), [d]);
      DigitRoundTrip(n % 10);
      ParseOne(p.(curFuse := n / 10), d, []);
      assert [d] + [] == [d];
    }
  }

  lemma {:induction false} ParseQF(p: Parser, n: nat)
    requires p.state == FieldQF && p.fuseCount == 0 && n < WORD
    ensures Parse(p, Decimal(n)) == p.(fuseCount := n)
  {
    if n < 10 {
      DigitRoundTrip(n);
      ParseOne(p, Digit(n), []);
      assert [Digit(n)] + [] == [Digit(n)];
    } else {
      var d := Digit(n % 10);
      ParseQF(p, n / 10);
      ParseAppend(p, Decimal(n / 10), [d]);
      DigitRoundTrip(n % 10);
      ParseOne(p.(fuseCount := n / 10), d, []);
      assert [d] + [] == [d];
    }
  }

  lemma {:induction false} ParseQP(p: Parser, n: nat)
    requires p.state == FieldQP && p.pinCount == 0 && n < WORD
    ensures Parse(p, Decimal(n)) == p.(pinCount := n)
  {
    if n < 10 {
      DigitRoundTrip(n);
      ParseOne(p, Digit(n), []);
      assert [Digit(n)] + [] == [Digit(n)];
    } else {
      var d := Digit(n % 10);
      ParseQP(p, n / 10);
      ParseAppend(p, Decimal(n / 10), [d]);
      DigitRoundTrip(n % 10);
      ParseOne(p.(pinCount := n / 10), d, []);
      assert [d] + [] == [d];
    }
  }

  /** A pin count is taken once; a second one, and a second fuse count, is refused with code 2. */
  lemma CountedOnce(p: Parser, n: nat)
    requires p.state == Base && n < WORD
    ensures var q := Parse(p, "QP" + Decimal(n) + "*");
      if p.pinCount == 0 then q == p.(pinCount := n) else ResultOf(q) == Code(2)
    ensures p.fuseCount != 0 ==> ResultOf(Parse(p, "QF" + Decimal(n) + "*")) == Code(2)
  {
    hide Decimal, Parse;
    var (d, q) := (Decimal(n), p.(state := FieldQ));
    assert "QP" + d + "*" == ['Q'] + (['P'] + (d + "*")) && "QF" + d + "*" == ['Q'] + (['F'] + (d + "*"));
    ParseOne(p, 'Q', ['P'] + (d + "*"));
    ParseOne(p, 'Q', ['F'] + (d + "*"));
    ParseOne(q, 'P', d + "*");
    ParseOne(q, 'F', d + "*");
    ParseStopped(p.(state := Failed), d + "*");
    if p.pinCount == 0 {
      ParseQP(p.(state := FieldQP), n);
      ParseAppend(p.(state := FieldQP), d, "*");
      ParseOne(p.(state := FieldQP, pinCount := n), '*', []);
      assert ['*'] + [] == "*";
      ParseEmpty(p.(pinCount := n));
    }
  }

  lemma ParseStopped(p: Parser, text: string)
    requires p.state == Failed || p.state == Threw
    ensures Parse(p, text) == p
  {
  }

  lemma {:induction false} ParseZeros(p: Parser, k: nat)
    requires p.state == FieldL && p.curFuse == 0
    ensures Parse(p, seq(k, _ => '0')) == p
  {
    var z := seq(k, _ => '0');
    if k > 0 {
      assert z == ['0'] + seq(k - 1, _ => '0');
      ParseOne(p, '0', seq(k - 1, _ => '0'));
      assert Step(p, '0') == p;
      ParseZeros(p, k - 1);
    }
  }

  /** A fuse list header leaves the parser ready for fuse n. */
  lemma ParseFuseHeader(p: Parser, n: nat)
    requires p.state == Base && n < WORD
    ensures Parse(p, "L" + Decimal7(n)) == p.(state := FieldL, curFuse := n)
  {
    hide Decimal;
    var q := p.(state := FieldL, curFuse := 0);
    ParseOne(p, 'L', Decimal7(n));
    var d := Decimal(n);
    if |d| < 7 {
      ParseZeros(q, 7 - |d|);
      ParseAppend(q, seq(7 - |d|, _ => '0'), d);
    }
    ParseL(q, n);
  }

  lemma HexStep(p: Parser, d: nat, rest: string)
    requires p.state == FieldC && d < 16 && p.checksum < 0x1000
    ensures Parse(p, [HexDigit(d)] + rest) == Parse(p.(checksum := p.checksum * 16 + d), rest)
  {
    hide HexDigit, Step, Parse;
    HexDigitStep(p, d);
    ParseOne(p, HexDigit(d), rest);
  }

  lemma HexDigitStep(p: Parser, d: nat)
    requires p.state == FieldC && d < 16 && p.checksum < 0x1000
    ensures Step(p, HexDigit(d)) == p.(checksum := p.checksum * 16 + d)
  {
    hide HexDigit, HexValue, IsSpace;
    HexRoundTrip(d);
    SmallRest(p.checksum * 16 + d);
  }

  lemma SmallRest(n: nat)
    requires n < WORD
    ensures n % WORD == n
  {
  }

  /** The checksum field is read back as it was printed. */
  lemma ParseHex4(p: Parser, n: nat)
    requires p.state == FieldC && p.checksum == 0 && n < 0x10000
    ensures Parse(p, Hex4(n)) == p.(checksum := n)
  {
    hide HexDigit, Step, Parse;
    HexParts(n);
    var (a, b, c, d) := (n / 0x1000, n / 0x100 % 16, n / 0x10 % 16, n % 16);
    var (x, y, z, w) := (HexDigit(a), HexDigit(b), HexDigit(c), HexDigit(d));
    assert Hex4(n) == [x] + ([y] + ([z] + ([w] + [])));
    HexStep(p, a, [y] + ([z] + ([w] + [])));
    HexStep(p.(checksum := a), b, [z] + ([w] + []));
    HexStep(p.(checksum := a * 16 + b), c, [w] + []);
    HexStep(p.(checksum := (a * 16 + b) * 16 + c), d, []);
    ParseEmpty(p.(checksum := n));
  }

  lemma HexParts(n: nat)
    requires n < 0x10000
    ensures ((n / 0x1000 * 16 + n / 0x100 % 16) * 16 + n / 0x10 % 16) * 16 + n % 16 == n
  {
    var (a, b) := (n / 0x10, n / 0x100);
    DivideUnique(n, 0x100, a / 16, a % 16 * 16 + n % 16);
    DivideUnique(n, 0x1000, b / 16, b % 16 * 256 + a % 16 * 16 + n % 16);
  }

  // ---- The printer's text ----

  function FuseChar(v: bool): char {
    if v then '1' else '0'
  }

  /** The counters of the XC95X printer: bit in its group, group in its row, row in its sector. */
  datatype Place = Place(b: nat, w: nat, l: nat)

  /** The counters after one fuse; whether a row ended. */
  function NextPlace(p: Place, dreg: nat): (Place, bool) {
    var b := if p.l < 9 then (if p.b == 7 then 0 else p.b + 1) else (if p.b == 5 then 0 else p.b + 1);
    var ends := b == 0 && p.w == dreg - 1;
    var w := if b != 0 then p.w else if ends then 0 else p.w + 1;
    var l := if ends then p.l + 1 else p.l;
    (Place(b, w, if l == 15 then 0 else l), ends)
  }

  /** What is printed for one fuse of an XC95X map. */
  function CellX(v: bool, i: nat, p: Place, dreg: nat): string {
    (if p.w == 0 && p.b == 0 then "L" + Decimal7(i) else "")
    + (if p.b == 0 then " " else "")
    + [FuseChar(v)]
    + (if NextPlace(p, dreg).1 then "*\n" else "")
  }

  /** The fuse lists of an XC95X map from fuse i on. */
  function BodyX(fuses: BitString, i: nat, p: Place, dreg: nat): string
    decreases |fuses| - i
  {
    if i >= |fuses| then "" else CellX(fuses[i], i, p, dreg) + BodyX(fuses, i + 1, NextPlace(p, dreg).0, dreg)
  }

  /** The counters when fuse i is reached. */
  function PlaceAt(i: nat, dreg: nat): Place {
    if i == 0 then Place(0, 0, 0) else NextPlace(PlaceAt(i - 1, dreg), dreg).0
  }

  /** What is printed for one fuse of an XC2C map: lists of 64. */
  function CellC(v: bool, i: nat): string {
    (if i % 64 == 0 then "L" + Decimal7(i) + " " else "")
    + [FuseChar(v)]
    + (if i % 64 == 63 then "*\n" else "")
  }

  function BodyC(fuses: BitString, i: nat): string
    decreases |fuses| - i
  {
    if i >= |fuses| then "" else CellC(fuses[i], i) + BodyC(fuses, i + 1)
  }

  /** A device family as far as the printer distinguishes them here. */
  datatype Family = XC95X(dreg: nat) | XC2C

  function Body(f: Family, fuses: BitString): string {
    match f
    case XC95X(dreg) => BodyX(fuses, 0, Place(0, 0, 0), dreg)
    case XC2C => BodyC(fuses, 0) + "*\n"
  }

  /** Everything before the fuse lists. */
  function Preamble(header: string, count: nat, version: string, device: string): string {
    header + [STX] + "QF" + Decimal(count) + "*\nQV0*\nF0*\nX0*\nJ0 0*\n"
    + "N VERSION " + version + "*\n" + "N DEVICE " + device + "*\n"
  }

  function Trailer(checksum: nat): string
    requires checksum < 0x10000
  {
    "C" + Hex4(checksum) + "*\n" + [3 as char] + "0000\n"
  }

  function JedText(f: Family, header: string, version: string, device: string, fuses: BitString, checksum: nat): string
    requires checksum < 0x10000
  {
    Preamble(header, |fuses|, version, device) + Body(f, fuses) + Trailer(checksum)
  }

  /** The text of an XC2C map of two fuses. */
  lemma TwoFuseFile()
    ensures JedText(XC2C, "", "V", "D", [true, false], 1)
            == [2 as char] + "QF2*\nQV0*\nF0*\nX0*\nJ0 0*\n" + "N VERSION V*\n" + "N DEVICE D*\n"
               + "L0000000 10*\n" + ("C0001*\n" + [3 as char] + "0000\n")
  {
    hide Preamble, Body, Trailer;
    TwoFusePreamble();
    TwoFuseBody();
    TwoFuseTrailer();
  }

  lemma TwoFusePreamble()
    ensures Preamble("", 2, "V", "D")
            == [2 as char] + "QF2*\nQV0*\nF0*\nX0*\nJ0 0*\n" + "N VERSION V*\n" + "N DEVICE D*\n"
  {
    assert Decimal(2) == "2";
    var first := "" + [2 as char] + "QF" + "2" + "*\nQV0*\nF0*\nX0*\nJ0 0*\n";
    assert first == [2 as char] + "QF2*\nQV0*\nF0*\nX0*\nJ0 0*\n";
    assert first + "N VERSION " + "V" + "*\n" == first + "N VERSION V*\n";
    var second := first + "N VERSION V*\n";
    assert second + "N DEVICE " + "D" + "*\n" == second + "N DEVICE D*\n";
  }

  lemma TwoFuseBody()
    ensures Body(XC2C, [true, false]) == "L0000000 10*\n"
  {
    hide Decimal7;
    ZeroInSeven();
    assert BodyC([true, false], 2) == "";
    assert BodyC([true, false], 1) == "0";
    assert BodyC([true, false], 0) == "L0000000 1" + "0";
  }

  lemma ZeroInSeven()
    ensures Decimal7(0) == "0000000"
  {
    assert Decimal(0) == "0";
    assert seq(6, _ => '0') == "000000";
  }

  lemma TwoFuseTrailer()
    ensures Trailer(1) == "C0001*\n" + [3 as char] + "0000\n"
  {
    assert Hex4(1) == "0001";
  }

  // ---- Reading it back ----

  /** A header the startup state skips: nothing, or one line and an empty one. */
  ghost predicate HeaderText(h: string) {
    h == ""
    || (exists line: string :: h == "Date Extracted" + line + "\n\n"
                               && forall ch :: ch in line ==> ch != '\n' && ch != '\r')
  }

  predicate NoStar(t: string) {
    forall ch :: ch in t ==> ch != '*'
  }

  /** In these states only a star ends the field. */
  lemma {:induction false} ParseStay(p: Parser, t: string)
    requires p.state == Skip || p.state == FieldN
    requires NoStar(t)
    ensures Parse(p, t) == p
    decreases |t|
  {
    if t != [] {
      assert t[0] in t && forall ch :: ch in t[1..] ==> ch in t;
      ParseStay(p, t[1..]);
    }
  }

  lemma {:induction false} ParseLine(p: Parser, t: string)
    requires p.state == Header && forall ch :: ch in t ==> ch != '\n' && ch != '\r'
    ensures Parse(p, t) == p
    decreases |t|
  {
    if t != [] {
      assert t[0] in t && forall ch :: ch in t[1..] ==> ch in t;
      ParseLine(p, t[1..]);
    }
  }

  /** The end of a field and of its line. */
  lemma ParseStarNewline(p: Parser)
    requires p.state == Skip || p.state == FieldN || p.state == FuseList || p.state == FieldC
    ensures Parse(p, "*\n") == p.(state := Base)
  {
    hide Parse, Step;
    StarSteps(p);
    assert "*\n" == ['*'] + (['\n'] + []);
    ParseOne(p, '*', ['\n'] + []);
    ParseOne(p.(state := Base), '\n', []);
    ParseEmpty(p.(state := Base));
  }

  lemma StarSteps(p: Parser)
    requires p.state == Skip || p.state == FieldN || p.state == FuseList || p.state == FieldC
    ensures Step(p, '*') == p.(state := Base) && Step(p.(state := Base), '\n') == p.(state := Base)
  {
  }

  lemma ParseHeader(p: Parser, h: string)
    requires p.state == Startup && HeaderText(h)
    ensures Parse(p, h) == p
  {
    hide Step, Parse;
    ParseEmpty(p);
    if h != "" {
      var line: string :| h == "Date Extracted" + line + "\n\n" && forall ch :: ch in line ==> ch != '\n' && ch != '\r';
      ParseDate(p, line);
    }
  }

  lemma ParseDate(p: Parser, line: string)
    requires p.state == Startup && forall ch :: ch in line ==> ch != '\n' && ch != '\r'
    ensures Parse(p, "Date Extracted" + line + "\n\n") == p
  {
    hide Step, Parse;
    var q := p.(state := Header);
    var mid := "ate Extracted" + line;
    HeaderSteps(p);
    assert "Date Extracted" + line + "\n\n" == ['D'] + (mid + "\n\n");
    ParseOne(p, 'D', mid + "\n\n");
    ParseAppend(q, mid, "\n\n");
    ParseLine(q, mid);
    assert ['\n'] + (['\n'] + []) == "\n\n";
    ParseOne(q, '\n', ['\n'] + []);
    ParseOne(p, '\n', []);
    ParseEmpty(p);
  }

  lemma HeaderSteps(p: Parser)
    requires p.state == Startup
    ensures Step(p, 'D') == p.(state := Header) && Step(p.(state := Header), '\n') == p && Step(p, '\n') == p
    ensures Step(p, STX) == p.(state := Base)
  {
  }

  /** The first characters of fields this reader has no use for. */
  predicate Ignored(c: char) {
    c == 'F' || c == 'X' || c == 'J' || c == ETX || c == 'N'
  }

  lemma IgnoredSteps(p: Parser)
    requires p.state == Base
    ensures forall c :: Ignored(c) ==> Step(p, c) == p.(state := if c == 'N' then FieldN else Skip)
    ensures Step(p, 'Q') == p.(state := FieldQ) && Step(p.(state := FieldQ), 'V') == p.(state := Skip)
  {
  }

  /** A field this reader has no use for. */
  lemma ParseIgnored(p: Parser, c: char, rest: string)
    requires p.state == Base && NoStar(rest) && Ignored(c)
    ensures Parse(p, [c] + rest + "*\n") == p
  {
    hide Step, Parse;
    assert [c] + rest + "*\n" == [c] + (rest + "*\n");
    ParseOne(p, c, rest + "*\n");
    IgnoredSteps(p);
    var k := p.(state := if c == 'N' then FieldN else Skip);
    ParseAppend(k, rest, "*\n");
    ParseStay(k, rest);
    ParseStarNewline(k);
  }

  lemma ParseQV(p: Parser)
    requires p.state == Base
    ensures Parse(p, "QV0*\n") == p
  {
    hide Step, Parse;
    assert "QV0*\n" == ['Q'] + (['V'] + ("0" + "*\n"));
    IgnoredSteps(p);
    ParseOne(p, 'Q', ['V'] + ("0" + "*\n"));
    ParseOne(p.(state := FieldQ), 'V', "0" + "*\n");
    var k := p.(state := Skip);
    ParseAppend(k, "0", "*\n");
    ParseStay(k, "0");
    ParseStarNewline(k);
  }

  lemma PreambleParts(header: string, d: string, version: string, device: string)
    ensures header + [STX] + "QF" + d + "*\nQV0*\nF0*\nX0*\nJ0 0*\n"
            + "N VERSION " + version + "*\n" + "N DEVICE " + device + "*\n"
            == header + (([STX] + "QF" + d + "*\n")
                         + (("QV0*\n" + ("F0*\n" + ("X0*\n" + "J0 0*\n")))
                            + ((['N'] + (" VERSION " + version) + "*\n") + (['N'] + (" DEVICE " + device) + "*\n"))))
  {
    var fixed := "QV0*\n" + ("F0*\n" + ("X0*\n" + "J0 0*\n"));
    var all := "*\nQV0*\nF0*\nX0*\nJ0 0*\n";
    assert all == "*\n" + fixed;
    Regroup(header, [STX], "QF", d, "*\n", fixed);
    var x := header + [STX] + "QF" + d + all;
    var (n1, n2) := ("N VERSION " + version + "*\n", "N DEVICE " + device + "*\n");
    NameParts(x, "N VERSION ", version, "*\n");
    NameParts(x + n1, "N DEVICE ", device, "*\n");
    StringsJoin(x, n1, n2);
    StringsJoin(header, [STX] + "QF" + d + "*\n" + fixed, n1 + n2);
    StringsJoin([STX] + "QF" + d + "*\n", fixed, n1 + n2);
    NField(" VERSION ", version);
    NField(" DEVICE ", device);
  }

  lemma StringsJoin(a: string, b: string, c: string)
    ensures a + b + c == a + (b + c)
  {
  }

  lemma NameParts(x: string, n: string, name: string, e: string)
    ensures x + n + name + e == x + (n + name + e)
  {
  }

  lemma Regroup(h: string, s: string, q: string, d: string, e: string, f: string)
    ensures h + s + q + d + (e + f) == h + (s + q + d + e + f)
  {
  }

  lemma NField(n: string, name: string)
    ensures ['N'] + n + name + "*\n" == ['N'] + (n + name) + "*\n"
    ensures n == " VERSION " ==> "N VERSION " == ['N'] + n
    ensures n == " DEVICE " ==> "N DEVICE " == ['N'] + n
  {
  }

  /** After the preamble the reader knows the fuse count and has a cleared map. */
  lemma ParsePreamble(header: string, count: nat, version: string, device: string)
    requires HeaderText(header) && NoStar(version) && NoStar(device) && count < WORD
    ensures Parse(FRESH, Preamble(header, count, version, device)) == Parser(Base, 0, count, 0, 0, Repeat(false, count))
  {
    hide Step, Parse, Decimal, Repeat, HeaderText, NoStar;
    var qf := [STX] + "QF" + Decimal(count) + "*\n";
    var fixed := "QV0*\n" + ("F0*\n" + ("X0*\n" + "J0 0*\n"));
    var n1 := ['N'] + (" VERSION " + version) + "*\n";
    var n2 := ['N'] + (" DEVICE " + device) + "*\n";
    var p := Parser(Base, 0, count, 0, 0, Repeat(false, count));
    PreambleParts(header, Decimal(count), version, device);
    ParseAppend(FRESH, header, qf + (fixed + (n1 + n2)));
    ParseHeader(FRESH, header);
    ParseAppend(FRESH, qf, fixed + (n1 + n2));
    ParseCount(count);
    ParseAppend(p, fixed, n1 + n2);
    ParseFixed(p);
    ParseAppend(p, n1, n2);
    NameHasNoStar(version, device);
    ParseIgnored(p, 'N', " VERSION " + version);
    ParseIgnored(p, 'N', " DEVICE " + device);
  }

  lemma NameHasNoStar(version: string, device: string)
    requires NoStar(version) && NoStar(device)
    ensures NoStar(" VERSION " + version) && NoStar(" DEVICE " + device)
  {
  }

  lemma ParseFixed(p: Parser)
    requires p.state == Base
    ensures Parse(p, "QV0*\n" + ("F0*\n" + ("X0*\n" + "J0 0*\n"))) == p
  {
    hide Step, Parse;
    ParseQV(p);
    ParseIgnored(p, 'F', "0");
    ParseIgnored(p, 'X', "0");
    ParseIgnored(p, 'J', "0 0");
    assert ['F'] + "0" + "*\n" == "F0*\n";
    assert ['X'] + "0" + "*\n" == "X0*\n" && ['J'] + "0 0" + "*\n" == "J0 0*\n";
    ParseAppend(p, "QV0*\n", "F0*\n" + ("X0*\n" + "J0 0*\n"));
    ParseAppend(p, "F0*\n", "X0*\n" + "J0 0*\n");
    ParseAppend(p, "X0*\n", "J0 0*\n");
  }

  lemma CountSteps(p: Parser)
    requires p.state == Base && p.fuseCount == 0
    ensures Step(p, 'Q') == p.(state := FieldQ)
    ensures Step(p.(state := FieldQ), 'F') == p.(state := FieldQF)
  {
  }

  lemma CountEnds(p: Parser)
    requires p.state == FieldQF
    ensures Step(p, '*') == p.(state := Base, fuses := Repeat(false, p.fuseCount))
    ensures Step(Step(p, '*'), '\n') == Step(p, '*')
  {
    hide Repeat;
  }

  lemma ParseCount(count: nat)
    requires count < WORD
    ensures Parse(FRESH, [STX] + "QF" + Decimal(count) + "*\n") == Parser(Base, 0, count, 0, 0, Repeat(false, count))
  {
    hide Decimal, Step, Repeat;
    var d := Decimal(count);
    assert [STX] + "QF" + d + "*\n" == [STX] + (['Q'] + (['F'] + (d + "*\n")));
    HeaderSteps(FRESH);
    ParseOne(FRESH, STX, ['Q'] + (['F'] + (d + "*\n")));
    var p0 := FRESH.(state := Base);
    CountSteps(p0);
    ParseOne(p0, 'Q', ['F'] + (d + "*\n"));
    ParseOne(p0.(state := FieldQ), 'F', d + "*\n");
    var p1 := FRESH.(state := FieldQF);
    ParseAppend(p1, d, "*\n");
    ParseQF(p1, count);
    var p2 := p1.(fuseCount := count);
    var p := Parser(Base, 0, count, 0, 0, Repeat(false, count));
    CountEnds(p2);
    ParseOne(p2, '*', "\n");
    ParseOne(p, '\n', []);
    assert ['*'] + "\n" == "*\n" && ['\n'] + [] == "\n";
  }

  // ---- Fuse lists ----

  /** The parser is ready for fuse i and has all before it. */
  predicate Holds(p: Parser, fuses: BitString, i: nat) {
    i <= |fuses| == |p.fuses| == p.fuseCount < WORD && p.fuses[..i] == fuses[..i]
  }

  /** Between rows the parser is between fields. */
  function ListState(x: Place): State {
    if x.b == 0 && x.w == 0 then Base else FuseList
  }

  lemma ParseFuse(p: Parser, v: bool)
    requires p.state == FuseList && p.curFuse < |p.fuses| < WORD
    ensures Parse(p, [FuseChar(v)]) == p.(fuses := p.fuses[p.curFuse := v], curFuse := p.curFuse + 1)
  {
    hide Step, Parse;
    FuseStep(p, v);
    ParseOne(p, FuseChar(v), []);
    assert [FuseChar(v)] + [] == [FuseChar(v)];
    ParseEmpty(p.(fuses := p.fuses[p.curFuse := v], curFuse := p.curFuse + 1));
  }

  lemma FuseStep(p: Parser, v: bool)
    requires p.state == FuseList && p.curFuse < |p.fuses| < WORD
    ensures Step(p, FuseChar(v)) == p.(fuses := p.fuses[p.curFuse := v], curFuse := p.curFuse + 1)
  {
    SmallRest(p.curFuse + 1);
  }

  lemma ParseBlank(p: Parser)
    requires p.state == FieldL || p.state == FuseList
    ensures Parse(p, " ") == p.(state := FuseList)
  {
    ParseOne(p, ' ', []);
    assert [' '] + [] == " ";
  }

  lemma ParseEmpty(p: Parser)
    ensures Parse(p, "") == p
  {
  }

  lemma ParseCellX(p: Parser, v: bool, i: nat, x: Place, dreg: nat)
    requires i < |p.fuses| < WORD && dreg >= 1
    requires p.state == ListState(x) && (p.state == FuseList ==> p.curFuse == i)
    ensures Parse(p, CellX(v, i, x, dreg))
            == p.(state := ListState(NextPlace(x, dreg).0), fuses := p.fuses[i := v], curFuse := i + 1)
  {
    hide Step, Parse, Decimal7;
    var (s1, s2, s4) := (if x.w == 0 && x.b == 0 then "L" + Decimal7(i) else "", if x.b == 0 then " " else "",
                         if NextPlace(x, dreg).1 then "*\n" else "");
    var s3 := [FuseChar(v)];
    assert CellX(v, i, x, dreg) == s1 + (s2 + (s3 + s4));
    ParseEmpty(p);
    ParseAppend(p, s1, s2 + (s3 + s4));
    if x.w == 0 && x.b == 0 {
      ParseFuseHeader(p, i);
    }
    var p1 := Parse(p, s1);
    ParseAppend(p1, s2, s3 + s4);
    if x.b == 0 {
      ParseBlank(p1);
    } else {
      ParseEmpty(p1);
    }
    var p2 := p.(state := FuseList, curFuse := i);
    assert Parse(p1, s2) == p2;
    ParseAppend(p2, s3, s4);
    ParseFuse(p2, v);
    var p3 := p.(state := FuseList, fuses := p.fuses[i := v], curFuse := i + 1);
    if NextPlace(x, dreg).1 {
      ParseStarNewline(p3);
    } else {
      ParseEmpty(p3);
    }
  }

  lemma {:induction false} ParseBodyX(p: Parser, fuses: BitString, i: nat, dreg: nat)
    requires dreg >= 1 && Holds(p, fuses, i)
    requires p.state == ListState(PlaceAt(i, dreg)) && (p.state == FuseList ==> p.curFuse == i)
    ensures var q := Parse(p, BodyX(fuses, i, PlaceAt(i, dreg), dreg));
      q == p.(state := ListState(PlaceAt(|fuses|, dreg)), fuses := fuses, curFuse := q.curFuse)
    decreases |fuses| - i
  {
    hide Step, Parse, CellX, NextPlace;
    ParseEmpty(p);
    if i < |fuses| {
      var x := PlaceAt(i, dreg);
      ParseCellX(p, fuses[i], i, x, dreg);
      var q := p.(state := ListState(NextPlace(x, dreg).0), fuses := p.fuses[i := fuses[i]], curFuse := i + 1);
      assert q.fuses[..i + 1] == fuses[..i + 1];
      ParseAppend(p, CellX(fuses[i], i, x, dreg), BodyX(fuses, i + 1, PlaceAt(i + 1, dreg), dreg));
      ParseBodyX(q, fuses, i + 1, dreg);
    } else {
      assert p.fuses == p.fuses[..i] && fuses == fuses[..i];
    }
  }

  lemma ParseCellC(p: Parser, v: bool, i: nat)
    requires i < |p.fuses| < WORD
    requires p.state == (if i % 64 == 0 then Base else FuseList) && (p.state == FuseList ==> p.curFuse == i)
    ensures Parse(p, CellC(v, i))
            == p.(state := if (i + 1) % 64 == 0 then Base else FuseList, fuses := p.fuses[i := v], curFuse := i + 1)
  {
    hide Step, Parse, Decimal7;
    Next64(i);
    var (first, final) := (i % 64 == 0, i % 64 == 63);
    var (s1, s3) := (if first then "L" + Decimal7(i) + " " else "", if final then "*\n" else "");
    var s2 := [FuseChar(v)];
    assert CellC(v, i) == s1 + (s2 + s3);
    var p2 := p.(state := FuseList, curFuse := i);
    OpenList(p, i, first);
    ParseAppend(p, s1, s2 + s3);
    ParseAppend(p2, s2, s3);
    ParseFuse(p2, v);
    var p3 := p.(state := FuseList, fuses := p.fuses[i := v], curFuse := i + 1);
    if final {
      ParseStarNewline(p3);
    } else {
      ParseEmpty(p3);
    }
  }

  lemma Next64(i: nat)
    ensures (i + 1) % 64 == 0 <==> i % 64 == 63
  {
  }

  lemma OpenList(p: Parser, i: nat, first: bool)
    requires i < WORD && p.state == (if first then Base else FuseList) && (p.state == FuseList ==> p.curFuse == i)
    ensures Parse(p, if first then "L" + Decimal7(i) + " " else "") == p.(state := FuseList, curFuse := i)
  {
    hide Step, Parse, Decimal7;
    ParseEmpty(p);
    if first {
      ParseAppend(p, "L" + Decimal7(i), " ");
      ParseFuseHeader(p, i);
      ParseBlank(p.(state := FieldL, curFuse := i));
    }
  }

  lemma {:induction false} ParseBodyC(p: Parser, fuses: BitString, i: nat)
    requires Holds(p, fuses, i)
    requires p.state == (if i % 64 == 0 then Base else FuseList) && (p.state == FuseList ==> p.curFuse == i)
    ensures var q := Parse(p, BodyC(fuses, i));
      q == p.(state := if |fuses| % 64 == 0 then Base else FuseList, fuses := fuses, curFuse := q.curFuse)
    decreases |fuses| - i
  {
    hide Step, Parse, CellC;
    ParseEmpty(p);
    if i < |fuses| {
      ParseCellC(p, fuses[i], i);
      var q := p.(state := if (i + 1) % 64 == 0 then Base else FuseList,
                  fuses := p.fuses[i := fuses[i]], curFuse := i + 1);
      assert q.fuses[..i + 1] == fuses[..i + 1];
      ParseAppend(p, CellC(fuses[i], i), BodyC(fuses, i + 1));
      ParseBodyC(q, fuses, i + 1);
    } else {
      assert p.fuses == p.fuses[..i] && fuses == fuses[..i];
    }
  }

  // ---- Where rows end ----

  /** A map of n fuses ends where a row ends: 9 rows of 8-bit groups and 6 of 6-bit groups make a sector. */
  predicate RowBoundary(n: nat, dreg: nat)
    requires dreg >= 1
  {
    var r := n % (108 * dreg);
    if r < 72 * dreg then r % (8 * dreg) == 0 else (r - 72 * dreg) % (6 * dreg) == 0
  }

  /** The fuses in l rows of k. */
  function Rows(k: nat, l: nat): nat {
    l * k
  }

  lemma RowsNext(k: nat, l: nat)
    ensures Rows(k, l + 1) == Rows(k, l) + k && Rows(k, 0) == 0
  {
  }

  lemma RowsAscend(k: nat, l: nat, m: nat)
    requires l <= m
    ensures Rows(k, l) <= Rows(k, m)
  {
  }

  lemma SectorRows(dreg: nat)
    ensures Rows(8 * dreg, 9) == 72 * dreg && Rows(6 * dreg, 6) == 36 * dreg
  {
  }

  /** The fuses of a sector before the given place. */
  function Before(x: Place, dreg: nat): nat {
    if x.l < 9 then Rows(8 * dreg, x.l) + 8 * x.w + x.b else 72 * dreg + Rows(6 * dreg, x.l - 9) + 6 * x.w + x.b
  }

  predicate InSector(x: Place, dreg: nat) {
    x.l < 15 && x.w < dreg && x.b < if x.l < 9 then 8 else 6
  }

  /** The next fuse of a sector, or the first of the next one. */
  lemma BeforeNext(x: Place, dreg: nat)
    requires InSector(x, dreg)
    ensures var y := NextPlace(x, dreg).0;
      && InSector(y, dreg)
      && Before(x, dreg) < 108 * dreg
      && Before(y, dreg) == if Before(x, dreg) + 1 == 108 * dreg then 0 else Before(x, dreg) + 1
  {
    if x.l < 9 {
      BeforeNext8(x, dreg);
    } else {
      BeforeNext6(x, dreg);
    }
  }

  lemma BeforeNext8(x: Place, dreg: nat)
    requires InSector(x, dreg) && x.l < 9
    ensures var y := NextPlace(x, dreg).0;
      && InSector(y, dreg)
      && Before(x, dreg) + 1 < 108 * dreg
      && Before(y, dreg) == Before(x, dreg) + 1
  {
    hide Rows;
    SectorRows(dreg);
    RowsNext(8 * dreg, x.l);
    RowsNext(6 * dreg, 0);
    RowsAscend(8 * dreg, x.l + 1, 9);
  }

  lemma BeforeNext6(x: Place, dreg: nat)
    requires InSector(x, dreg) && x.l >= 9
    ensures var y := NextPlace(x, dreg).0;
      && InSector(y, dreg)
      && Before(x, dreg) < 108 * dreg
      && Before(y, dreg) == if Before(x, dreg) + 1 == 108 * dreg then 0 else Before(x, dreg) + 1
  {
    hide Rows;
    SectorRows(dreg);
    RowsNext(6 * dreg, x.l - 9);
    RowsNext(8 * dreg, 0);
    RowsNext(6 * dreg, 5);
    if x.l < 14 {
      RowsAscend(6 * dreg, x.l - 9 + 1, 5);
    }
  }

  lemma {:induction false} PlaceIs(n: nat, dreg: nat)
    requires dreg >= 1
    ensures InSector(PlaceAt(n, dreg), dreg) && Before(PlaceAt(n, dreg), dreg) == n % (108 * dreg)
  {
    if n > 0 {
      PlaceIs(n - 1, dreg);
      BeforeNext(PlaceAt(n - 1, dreg), dreg);
      NextRest(n - 1, 108 * dreg);
    }
  }

  lemma NextRest(n: nat, g: nat)
    requires g > 0
    ensures (n + 1) % g == if n % g + 1 == g then 0 else n % g + 1
  {
    var q, r := n / g, n % g;
    assert n == q * g + r;
    if r + 1 == g {
      assert n + 1 == (q + 1) * g + 0;
      DivideUnique(n + 1, g, q + 1, 0);
    } else {
      DivideUnique(n + 1, g, q, r + 1);
    }
  }

  /** The printer is between rows exactly at the row boundaries of the map. */
  lemma BoundaryIs(n: nat, dreg: nat)
    requires dreg >= 1
    ensures ListState(PlaceAt(n, dreg)) == Base <==> RowBoundary(n, dreg)
  {
    hide PlaceAt, Before;
    PlaceIs(n, dreg);
    var x := PlaceAt(n, dreg);
    if x.l < 9 {
      Rest8(x, dreg);
    } else {
      Rest6(x, dreg);
    }
  }

  lemma Rest8(x: Place, dreg: nat)
    requires InSector(x, dreg) && x.l < 9
    ensures Before(x, dreg) < 72 * dreg && Before(x, dreg) % (8 * dreg) == 8 * x.w + x.b
  {
    RowsNext(8 * dreg, x.l);
    RowsAscend(8 * dreg, x.l + 1, 9);
    SectorRows(dreg);
    DivideUnique(Before(x, dreg), 8 * dreg, x.l, 8 * x.w + x.b);
  }

  lemma Rest6(x: Place, dreg: nat)
    requires InSector(x, dreg) && x.l >= 9
    ensures Before(x, dreg) >= 72 * dreg && (Before(x, dreg) - 72 * dreg) % (6 * dreg) == 6 * x.w + x.b
  {
    DivideUnique(Before(x, dreg) - 72 * dreg, 6 * dreg, x.l - 9, 6 * x.w + x.b);
  }

  // ---- The round trip ----

  lemma TrailerSteps(p: Parser)
    ensures p.state == Base ==> Step(p, 'C') == p.(state := FieldC, checksum := 0)
    ensures p.state == FuseList ==> Step(p, 'C') == p.(state := Failed)
    ensures p.state == Base ==> Step(p, ETX) == p.(state := Skip)
  {
  }

  lemma HexHasNoStar(n: nat)
    requires n < 0x10000
    ensures NoStar("C" + Hex4(n)) && NoStar("0000\n")
  {
    HexRoundTrip(n / 0x1000);
    HexRoundTrip(n / 0x100 % 16);
    HexRoundTrip(n / 0x10 % 16);
    HexRoundTrip(n % 16);
  }

  /** The end of the file from between fields, from inside a list, and from inside an ignored field. */
  lemma ParseTrailer(p: Parser, n: nat)
    requires n < 0x10000
    ensures p.state == Base ==> Parse(p, Trailer(n)) == p.(state := Skip, checksum := n)
    ensures p.state == Skip ==> Parse(p, Trailer(n)) == p
    ensures p.state == FuseList ==> Parse(p, Trailer(n)) == p.(state := Failed)
  {
    hide Step, Parse, Hex4, NoStar;
    var rest := "*\n" + ([ETX] + "0000\n");
    assert Trailer(n) == ['C'] + (Hex4(n) + rest);
    assert Trailer(n) == ("C" + Hex4(n)) + rest;
    TrailerSteps(p);
    HexHasNoStar(n);
    if p.state == Base {
      ParseOne(p, 'C', Hex4(n) + rest);
      var c := p.(state := FieldC, checksum := 0);
      ParseAppend(c, Hex4(n), rest);
      ParseHex4(c, n);
      ParseEnd(c.(checksum := n));
    } else if p.state == Skip {
      ParseAppend(p, "C" + Hex4(n), rest);
      ParseStay(p, "C" + Hex4(n));
      ParseEnd(p);
    } else if p.state == FuseList {
      ParseOne(p, 'C', Hex4(n) + rest);
      ParseFailed(p.(state := Failed), Hex4(n) + rest);
    }
  }

  lemma ParseFailed(p: Parser, t: string)
    requires p.state == Failed
    ensures Parse(p, t) == p
  {
  }

  lemma ParseEnd(p: Parser)
    requires p.state == FieldC || p.state == Skip
    ensures Parse(p, "*\n" + ([ETX] + "0000\n")) == p.(state := Skip)
  {
    hide Step, Parse, NoStar;
    ParseAppend(p, "*\n", [ETX] + "0000\n");
    ParseStarNewline(p);
    var b := p.(state := Base);
    TrailerSteps(b);
    ParseOne(b, ETX, "0000\n");
    HexHasNoStar(0);
    ParseStay(b.(state := Skip), "0000\n");
  }

  /** The state in which the fuse lists leave the reader. */
  function AfterBody(f: Family, n: nat): State
    requires f.XC95X? ==> f.dreg >= 1
  {
    match f
    case XC95X(dreg) => if RowBoundary(n, dreg) then Base else FuseList
    case XC2C => if n % 64 == 0 then Skip else Base
  }

  lemma ParseBody(p: Parser, f: Family, fuses: BitString)
    requires f.XC95X? ==> f.dreg >= 1
    requires p.state == Base && Holds(p, fuses, 0)
    ensures var q := Parse(p, Body(f, fuses));
      q == p.(state := AfterBody(f, |fuses|), fuses := fuses, curFuse := q.curFuse)
  {
    hide Step, Parse, BodyX, BodyC, RowBoundary;
    match f
    case XC95X(dreg) =>
      assert PlaceAt(0, dreg) == Place(0, 0, 0);
      ParseBodyX(p, fuses, 0, dreg);
      BoundaryIs(|fuses|, dreg);
    case XC2C =>
      ParseBodyC(p, fuses, 0);
      var q := Parse(p, BodyC(fuses, 0));
      ParseAppend(p, BodyC(fuses, 0), "*\n");
      LastStar(q);
  }

  /** The star after the lists closes an open list, but opens an ignored field after a closed one. */
  lemma LastStar(q: Parser)
    requires q.state == Base || q.state == FuseList
    ensures Parse(q, "*\n") == q.(state := if q.state == Base then Skip else Base)
  {
    if q.state == FuseList {
      ParseStarNewline(q);
    } else {
      ParseOne(q, '*', "\n");
      ParseOne(q.(state := Skip), '\n', []);
      assert ['*'] + "\n" == "*\n" && ['\n'] + [] == "\n";
    }
  }

  /**
   * Reading what was printed: an XC95X map comes back exactly when it ends on a row boundary
   * (otherwise the reader stops with 2), every XC2C map comes back, and an empty map is
   * refused with 3. The checksum field is read as printed unless the extra star of an XC2C
   * file whose lists are all full hides it.
   */
  lemma JedRoundTrip(f: Family, header: string, version: string, device: string, fuses: BitString, checksum: nat)
    requires f.XC95X? ==> f.dreg >= 1
    requires HeaderText(header) && NoStar(version) && NoStar(device)
    requires |fuses| < INT_LIMIT && checksum < 0x10000
    ensures var n, p := |fuses|, Parse(FRESH, JedText(f, header, version, device, fuses, checksum));
      && p.fuses == fuses && p.fuseCount == n
      && ResultOf(p) == Code(if f.XC95X? && !RowBoundary(n, f.dreg) then 2 else if n == 0 then 3 else 0)
      && (ResultOf(p) == Code(0) ==> p.checksum == if f.XC2C? && n % 64 == 0 then 0 else checksum)
  {
    hide Step, Parse, Preamble, Body, Trailer, RowBoundary, HeaderText, NoStar;
    var n := |fuses|;
    var p := Parser(Base, 0, n, 0, 0, Repeat(false, n));
    var pre := Preamble(header, n, version, device);
    ParsePreamble(header, n, version, device);
    assert p.fuses[..0] == fuses[..0];
    ParseAppend(FRESH, pre, Body(f, fuses));
    ParseAppend(FRESH, pre + Body(f, fuses), Trailer(checksum));
    ParseBody(p, f, fuses);
    ParseTrailer(Parse(p, Body(f, fuses)), checksum);
  }

  // ---- The fuse map in memory ----

  /** A fuse, or the exception for an index past the map. */
  datatype FuseRead = Fuse(v: bool) | OutOfRange

  function ByteSum(bytes: seq<byte>): nat {
    if bytes == [] then 0 else ByteSum(bytes[..|bytes| - 1]) + bytes[|bytes| - 1]
  }

  /** The sum that the format defines: fuse i counts 2^(i mod 8). */
  function WeightedSum(fuses: BitString): nat {
    if fuses == [] then 0
    else
      var n := |fuses| - 1;
      WeightedSum(fuses[..n]) + if fuses[n] then Exp2(n % 8) else 0
  }

  /** The bytes of a map whose padding is clear add up to it. */
  lemma {:induction false} ByteSumIsWeighted(fuses: BitString)
    ensures ByteSum(Pack(fuses)) == WeightedSum(fuses)
  {
    hide Pack, NumberOf;
    if fuses == [] {
      PackedNothing();
    } else {
      var n := |fuses| - 1;
      var (init, j) := (fuses[..n], n / 8);
      ByteSumIsWeighted(init);
      PackSplit(fuses, j);
      assert fuses[..8 * j] == init[..8 * j] && fuses[8 * j..] == init[8 * j..] + [fuses[n]];
      NumberAppend(init[8 * j..], fuses[n]);
      assert Pack(fuses)[..j] == Pack(init[..8 * j]);
      if n % 8 != 0 {
        PackSplit(init, j);
      } else {
        assert init[..8 * j] == init && init[8 * j..] == [];
        NumberOfNothing();
      }
    }
  }

  lemma PackedNothing()
    ensures Pack([]) == []
  {
  }

  lemma SetBitOfBuffer(buf: seq<byte>, idx: nat, v: bool, n: nat)
    requires idx < n <= 8 * |buf|
    ensures var buf' := buf[idx / 8 := SetByteBit(buf[idx / 8], idx % 8, v)];
      && BitsOf(buf', n) == BitsOf(buf, n)[idx := v]
      && forall i :: n <= i < 8 * |buf| ==> BitAt(buf', i) == BitAt(buf, i)
  {
    hide Bit, SetBit;
    var buf' := buf[idx / 8 := SetByteBit(buf[idx / 8], idx % 8, v)];
    forall i | 0 <= i < 8 * |buf|
      ensures BitAt(buf', i) == if i == idx then v else BitAt(buf, i)
    {
      SetBitBits(buf[idx / 8], idx % 8, v, i % 8);
    }
  }

  /** The parser is past, or not in, the field that announces the map. */
  predicate Settled(p: Parser) {
    p.state != FieldQF && p.state != Failed && p.state != Threw ==> |p.fuses| == p.fuseCount
  }

  lemma StepSettles(p: Parser, ch: char)
    requires Settled(p)
    ensures Settled(Step(p, ch))
  {
    hide HexValue;
  }

  class JedecFile {
    var fuseList: array<byte>
    var fuseCount: nat
    var pinCount: nat
    var checksum: nat

    /** The number of fuses the list was allocated for. */
    ghost var listed: nat

    ghost predicate Sized()
      reads this, fuseList
    {
      fuseList.Length == BytesFor(listed)
    }

    ghost predicate Valid()
      reads this, fuseList
    {
      BytesFor(fuseCount) <= fuseList.Length
    }

    ghost function Fuses(): (r: BitString)
      reads this, fuseList
      requires Valid()
      ensures |r| == fuseCount
    {
      BitsOf(fuseList[..], fuseCount)
    }

    /** The unused bits of the last byte are zero. */
    ghost predicate PaddingClear()
      reads this, fuseList
    {
      forall i :: listed <= i < 8 * fuseList.Length ==> !BitAt(fuseList[..], i)
    }

    /** This file together with a parser's state, as the state machine sees them. */
    ghost function View(state: State, curFuse: nat): Parser
      reads this, fuseList
      requires Sized()
    {
      Parser(state, curFuse, fuseCount, pinCount, checksum, BitsOf(fuseList[..], listed))
    }

    constructor ()
      ensures Valid() && Sized() && PaddingClear() && fresh(fuseList)
      ensures View(Startup, 0) == FRESH
    {
      fuseList := new byte[0];
      fuseCount, pinCount, checksum, listed := 0, 0, 0, 0;
    }

    method GetFuse(idx: nat) returns (r: FuseRead)
      requires Valid()
      ensures r == if idx < fuseCount then Fuse(Fuses()[idx]) else OutOfRange
    {
      if idx >= fuseCount {
        return OutOfRange;
      }
      r := Fuse(Bit(fuseList[idx / 8], idx % 8));
    }

    method SetFuse(idx: nat, blow: bool) returns (ok: bool)
      requires Valid()
      modifies fuseList
      ensures Valid() && ok == (idx < fuseCount)
      ensures Fuses() == if ok then old(Fuses())[idx := blow] else old(Fuses())
      ensures !ok ==> fuseList[..] == old(fuseList[..])
      ensures ok ==> fuseList[..] == old(fuseList[..])[idx / 8 := SetByteBit(old(fuseList[idx / 8]), idx % 8, blow)]
    {
      hide Bit, SetBit;
      if idx >= fuseCount {
        return false;
      }
      SetBitOfBuffer(fuseList[..], idx, blow, fuseCount);
      ghost var was := fuseList[..];
      fuseList[idx / 8] := SetByteBit(fuseList[idx / 8], idx % 8, blow);
      assert fuseList[..] == was[idx / 8 := SetByteBit(was[idx / 8], idx % 8, blow)];
      return true;
    }

    /** A longer map starts with all fuses set; a shorter one drops fuses after clearing them. */
    method SetLength(count: nat)
      requires Valid()
      modifies this`fuseList, this`fuseCount, this`listed, fuseList
      ensures Valid() && fuseCount == count
      ensures count > old(fuseCount) ==> fresh(fuseList) && Fuses() == Repeat(true, count)
      ensures count > old(fuseCount) ==> fuseList[..] == Repeat<byte>(0xff, BytesFor(count))
      ensures count <= old(fuseCount) ==> fuseList == old(fuseList) && Fuses() == old(Fuses())[..count]
    {
      hide Bit, SetBit;
      if count > fuseCount {
        fuseList := new byte[BytesFor(count)](_ => 0xff);
        listed := count;
        forall i: nat | i < count
          ensures BitAt(fuseList[..], i)
        {
          AllBits(true, i % 8);
        }
        fuseCount := count;
      } else {
        ghost var was := Fuses();
        for i := count to fuseCount
          invariant fuseList == old(fuseList) && fuseCount == |was| && Valid()
          invariant Fuses()[..count] == was[..count]
        {
          var ok := SetFuse(i, false);
        }
        fuseCount := count;
      }
    }

    method CalcChecksum() returns (r: nat)
      requires Valid()
      ensures r == ByteSum(fuseList[..BytesFor(fuseCount)]) % 0x10000
    {
      r := 0;
      for i := 0 to BytesFor(fuseCount)
        invariant r == ByteSum(fuseList[..i]) % 0x10000
      {
        assert fuseList[..i + 1][..i] == fuseList[..i];
        r := (r + fuseList[i]) % 0x10000;
      }
    }

    /** One character through the state machine, this file being filled as it goes. */
    method StepChar(state: State, curFuse: nat, ch: char) returns (next: State, cur: nat)
      requires Sized() && PaddingClear() && Settled(View(state, curFuse))
      modifies this, fuseList
      ensures Sized() && PaddingClear()
      ensures fuseList == old(fuseList) || fresh(fuseList)
      ensures View(next, cur) == Step(old(View(state, curFuse)), ch)
    {
      hide Bit, SetBit, HexValue;
      next, cur := state, curFuse;
      match state
      case Startup =>
        if ch == STX {
          next := Base;
        } else if ch == 'D' {
          next := Header;
        }
      case Header =>
        if ch == '\n' || ch == '\r' {
          next := Startup;
        }
      case Base =>
        if !IsSpace(ch) {
          next := if ch == 'L' then FieldL else if ch == 'Q' then FieldQ else if ch == 'C' then FieldC
                  else if ch == 'N' then FieldN else Skip;
          if ch == 'L' {
            cur := 0;
          } else if ch == 'C' {
            checksum := 0;
          }
        }
      case FieldC =>
        if !IsSpace(ch) {
          if ch == '*' {
            next := Base;
          } else if HexValue(ch) >= 0 {
            checksum := (checksum * 16 + HexValue(ch)) % WORD;
          } else {
            next := Threw;
          }
        }
      case FieldL =>
        if IsDigit(ch) {
          cur := Push10(curFuse, ch);
        } else {
          next := if IsSpace(ch) then FuseList else if ch == '*' then Base else Failed;
        }
      case FuseList =>
        if ch == '0' || ch == '1' {
          next, cur := PutFuse(curFuse, ch == '1');
        } else {
          next := if ch == '*' then Base else if ch == ' ' || ch == '\n' || ch == '\r' then FuseList else Failed;
        }
      case FieldN =>
        if ch == '*' {
          next := Base;
        }
      case FieldQ =>
        next := if ch == 'F' then (if fuseCount != 0 then Failed else FieldQF)
                else if ch == 'P' then (if pinCount != 0 then Failed else FieldQP)
                else Skip;
      case FieldQF =>
        if !IsSpace(ch) {
          if IsDigit(ch) {
            fuseCount := Push10(fuseCount, ch);
          } else if ch == '*' {
            next := Base;
            AllocateFuseMap();
          } else {
            next := Threw;
          }
        }
      case FieldQP =>
        if !IsSpace(ch) {
          if IsDigit(ch) {
            pinCount := Push10(pinCount, ch);
          } else {
            next := if ch == '*' then Base else Threw;
          }
        }
      case Skip =>
        if ch == '*' {
          next := Base;
        }
      case Failed =>
      case Threw =>
    }

    /** A cleared list for the announced number of fuses. */
    method AllocateFuseMap()
      modifies this`fuseList, this`listed
      ensures listed == fuseCount && Sized() && PaddingClear() && fresh(fuseList)
      ensures BitsOf(fuseList[..], listed) == Repeat(false, fuseCount)
    {
      hide Bit;
      fuseList := new byte[BytesFor(fuseCount)](_ => 0);
      listed := fuseCount;
      forall i: nat | i < 8 * fuseList.Length
        ensures !BitAt(fuseList[..], i)
      {
        ZeroHasNoBit(i % 8);
      }
    }

    method PutFuse(curFuse: nat, v: bool) returns (next: State, cur: nat)
      requires Sized() && PaddingClear() && listed == fuseCount
      modifies fuseList
      ensures Sized() && PaddingClear()
      ensures View(next, cur) == WithFuse(old(View(FuseList, curFuse)), v)
    {
      hide Bit, BitAt, SetBit, SetByteBit;
      ghost var was := fuseList[..];
      var ok := SetFuse(curFuse, v);
      if ok {
        SetBitOfBuffer(was, curFuse, v, listed);
        return FuseList, (curFuse + 1) % WORD;
      }
      assert fuseList[..] == was;
      return Threw, curFuse;
    }

    /** Reads a whole file; an exception or a failed state ends it. */
    method ReadFile(text: string) returns (r: ReadResult)
      requires Sized() && PaddingClear() && listed == fuseCount
      modifies this, fuseList
      ensures Sized() && PaddingClear()
      ensures fuseList == old(fuseList) || fresh(fuseList)
      ensures var p := Parse(old(View(Startup, 0)), text);
        View(p.state, p.curFuse) == p && r == ResultOf(p)
    {
      hide Step, Bit, Parse, Settled;
      var state, cur, i := Startup, 0, 0;
      ghost var start := View(Startup, 0);
      StartSettled(start);
      assert text[0..] == text;
      while i < |text| && state != Failed && state != Threw
        invariant i <= |text|
        invariant Sized() && PaddingClear() && Settled(View(state, cur))
        invariant fuseList == old(fuseList) || fresh(fuseList)
        invariant Parse(start, text) == Parse(View(state, cur), text[i..])
      {
        ghost var before := View(state, cur);
        ParseOne(before, text[i], text[i + 1..]);
        assert text[i..] == [text[i]] + text[i + 1..];
        StepSettles(before, text[i]);
        state, cur := StepChar(state, cur, text[i]);
        i := i + 1;
      }
      ParseStops(View(state, cur), text[i..]);
      r := if state == Threw then Exception
           else if state == Failed then Code(2)
           else if fuseCount == 0 then Code(3)
           else Code(0);
    }

    /** Prints the map: one list per device row for XC95X, one per 64 fuses for XC2C. */
    method SaveAsJed(f: Family, header: string, version: string, device: string) returns (text: string)
      requires Valid() && fuseCount < INT_LIMIT && (f.XC95X? ==> f.dreg >= 1)
      ensures text == JedText(f, header, version, device, Fuses(), ByteSum(fuseList[..BytesFor(fuseCount)]) % 0x10000)
    {
      hide Bit, Decimal, Decimal7, ByteSum, BodyX, BodyC;
      text := Preamble(header, fuseCount, version, device);
      match f {
        case XC95X(dreg) =>
          var lists := PrintRows(dreg);
          text := text + lists;
        case XC2C =>
          var lists := PrintLists();
          text := text + (lists + "*\n");
      }
      var chksum := CalcChecksum();
      text := text + ("C" + Hex4(chksum) + "*\n" + [ETX] + "0000\n");
    }

    /** The fuse lists of an XC95X map: counters for the bit of a group, the group of a row, the row of a sector. */
    method PrintRows(dreg: nat) returns (text: string)
      requires Valid() && dreg >= 1
      ensures text == BodyX(Fuses(), 0, Place(0, 0, 0), dreg)
    {
      hide Bit, Decimal7;
      ghost var fuses := Fuses();
      var b, l, w := 0, 0, 0;
      text := "";
      for i := 0 to fuseCount
        invariant w < dreg
        invariant text + BodyX(fuses, i, Place(b, w, l), dreg) == BodyX(fuses, 0, Place(0, 0, 0), dreg)
      {
        ghost var x, before := Place(b, w, l), text;
        var v := Bit(fuseList[i / 8], i % 8);
        assert v == fuses[i];
        var cell := "";
        if w == 0 && b == 0 {
          cell := "L" + Decimal7(i);
        }
        if b == 0 {
          cell := cell + " ";
        }
        cell := cell + [FuseChar(v)];
        if l < 9 {
          b := if b == 7 then 0 else b + 1;
        } else {
          b := if b == 5 then 0 else b + 1;
        }
        if b == 0 {
          if w == dreg - 1 {
            cell := cell + "*\n";
            w := 0;
            l := l + 1;
          } else {
            w := w + 1;
          }
        }
        if l == 15 {
          l := 0;
        }
        CellPrinted(cell, v, i, x, dreg);
        assert Place(b, w, l) == NextPlace(x, dreg).0;
        BodyStepX(before, fuses, i, x, dreg);
        text := text + cell;
      }
      assert text + "" == text;
    }

    /** The fuse lists of an XC2C map. */
    method PrintLists() returns (text: string)
      requires Valid()
      ensures text == BodyC(Fuses(), 0)
    {
      hide Bit, Decimal7;
      ghost var fuses := Fuses();
      text := "";
      for i := 0 to fuseCount
        invariant text + BodyC(fuses, i) == BodyC(fuses, 0)
      {
        var v := Bit(fuseList[i / 8], i % 8);
        assert v == fuses[i];
        ghost var before := text;
        var cell := "";
        if i % 64 == 0 {
          cell := "L" + Decimal7(i) + " ";
        }
        cell := cell + [FuseChar(v)];
        if i % 64 == 63 {
          cell := cell + "*\n";
        }
        assert cell == CellC(v, i);
        BodyStepC(before, fuses, i);
        text := text + cell;
      }
      assert text + "" == text;
    }
  }

  lemma CellPrinted(cell: string, v: bool, i: nat, x: Place, dreg: nat)
    requires var s := (if x.w == 0 && x.b == 0 then "L" + Decimal7(i) else "");
      var t := (if x.b == 0 then s + " " else s) + [FuseChar(v)];
      cell == if NextPlace(x, dreg).1 then t + "*\n" else t
    ensures cell == CellX(v, i, x, dreg)
  {
    hide Decimal7, NextPlace;
  }

  lemma BodyStepX(before: string, fuses: BitString, i: nat, x: Place, dreg: nat)
    requires i < |fuses|
    ensures before + BodyX(fuses, i, x, dreg)
            == before + CellX(fuses[i], i, x, dreg) + BodyX(fuses, i + 1, NextPlace(x, dreg).0, dreg)
  {
    hide CellX, NextPlace;
  }

  lemma BodyStepC(before: string, fuses: BitString, i: nat)
    requires i < |fuses|
    ensures before + BodyC(fuses, i) == before + CellC(fuses[i], i) + BodyC(fuses, i + 1)
  {
    hide CellC;
  }

  lemma StartSettled(p: Parser)
    requires |p.fuses| == p.fuseCount
    ensures Settled(p)
  {
  }

  lemma ParseStops(p: Parser, t: string)
    requires t == [] || p.state == Failed || p.state == Threw
    ensures Parse(p, t) == p
  {
  }

  // ---- Checksums ----

  /** A byte list for n fuses whose unused bits are zero. */
  ghost predicate Clear(list: seq<byte>, n: nat) {
    forall i :: n <= i < 8 * |list| ==> !BitAt(list, i)
  }

  lemma PackedBit(list: seq<byte>, n: nat, m: nat, k: nat)
    requires |list| == BytesFor(n) && m < |list| && k < 8
    ensures Bit(Pack(BitsOf(list, n))[m], k) == (8 * m + k < n && Bit(list[m], k))
  {
    hide Bit, Pack;
    var q := Pack(BitsOf(list, n));
    PackBit(BitsOf(list, n), 8 * m + k);
    assert (8 * m + k) / 8 == m && (8 * m + k) % 8 == k;
    assert BitAt(q, 8 * m + k) == Bit(q[m], k) && BitAt(list, 8 * m + k) == Bit(list[m], k);
  }

  /** The unused bits of byte m are zero. */
  ghost predicate ByteClear(list: seq<byte>, n: nat, m: nat)
    requires m < |list|
  {
    forall k: nat | k < 8 :: Bit(list[m], k) ==> 8 * m + k < n
  }

  lemma PackedByte(list: seq<byte>, n: nat, m: nat)
    requires |list| == BytesFor(n) && m < |list|
    ensures ByteClear(list, n, m) <==> Pack(BitsOf(list, n))[m] == list[m]
  {
    hide Bit, Pack, BitsOf;
    var q := Pack(BitsOf(list, n))[m];
    forall k: nat | k < 8
      ensures Bit(q, k) == (8 * m + k < n && Bit(list[m], k))
    {
      PackedBit(list, n, m, k);
    }
    assert Exp2(8) == 256;
    if ByteClear(list, n, m) {
      SameBits(q, list[m], 8);
    }
  }

  lemma ClearBytes(list: seq<byte>, n: nat)
    requires |list| == BytesFor(n)
    ensures Clear(list, n) <==> forall m | 0 <= m < |list| :: ByteClear(list, n, m)
  {
    hide Bit;
    if Clear(list, n) {
      forall m, k: nat | 0 <= m < |list| && k < 8 && Bit(list[m], k)
        ensures 8 * m + k < n
      {
        assert BitAt(list, 8 * m + k) == Bit(list[m], k);
      }
    }
    if forall m | 0 <= m < |list| :: ByteClear(list, n, m) {
      forall i | n <= i < 8 * |list|
        ensures !BitAt(list, i)
      {
        assert ByteClear(list, n, i / 8);
      }
    }
  }

  lemma PackedLength(bits: BitString)
    ensures |Pack(bits)| == BytesFor(|bits|)
  {
  }

  lemma {:induction false} SumsDiffer(a: seq<byte>, b: seq<byte>)
    requires |a| == |b| > 0 && a[..|a| - 1] == b[..|b| - 1]
    ensures ByteSum(a) % 0x10000 == ByteSum(b) % 0x10000 <==> a[|a| - 1] == b[|b| - 1]
  {
    var s := ByteSum(a[..|a| - 1]);
    var x: int, y: int := a[|a| - 1], b[|b| - 1];
    assert ByteSum(a) == s + x && ByteSum(b) == s + y;
  }

  /**
   * The checksum printed from a map is the one that the format defines for its fuses, and that its
   * reader computes afterwards, exactly when the unused bits of the map's last byte are zero.
   */
  lemma ChecksumSurvivesExactlyWhen(list: seq<byte>, n: nat)
    requires |list| == BytesFor(n)
    ensures ByteSum(list) % 0x10000 == WeightedSum(BitsOf(list, n)) % 0x10000 <==> Clear(list, n)
  {
    hide Bit, Pack, ByteSum, WeightedSum, Clear;
    var q := Pack(BitsOf(list, n));
    ByteSumIsWeighted(BitsOf(list, n));
    PackedLength(BitsOf(list, n));
    ClearBytes(list, n);
    forall m | 0 <= m < |list|
      ensures ByteClear(list, n, m) <==> q[m] == list[m]
      ensures m < |list| - 1 ==> ByteClear(list, n, m)
    {
      PackedByte(list, n, m);
    }
    if |list| > 0 {
      var k := |list| - 1;
      assert list[..k] == q[..k];
      SumsDiffer(list, q);
    } else {
      assert list == q;
    }
  }

  /** Printing a map and reading the text into a fresh file, with the checksums. */
  lemma SaveThenRead(f: Family, header: string, version: string, device: string, list: seq<byte>, n: nat)
    requires |list| == BytesFor(n) && n < INT_LIMIT && (f.XC95X? ==> f.dreg >= 1)
    requires HeaderText(header) && NoStar(version) && NoStar(device)
    ensures var fuses := BitsOf(list, n);
      var p := Parse(FRESH, JedText(f, header, version, device, fuses, ByteSum(list) % 0x10000));
      var complete := n > 0 && (f.XC95X? ==> RowBoundary(n, f.dreg));
      && (ResultOf(p) == Code(0) <==> complete)
      && (complete ==> p.fuseCount == n && p.fuses == fuses)
      && (complete && !(f.XC2C? && n % 64 == 0) ==>
            (p.checksum == WeightedSum(p.fuses) % 0x10000 <==> Clear(list, n)))
      && (complete && f.XC2C? && n % 64 == 0 ==>
            p.checksum == 0 && (p.checksum == WeightedSum(p.fuses) % 0x10000 <==> ByteSum(list) % 0x10000 == 0))
  {
    hide Parse, JedText, RowBoundary, ByteSum, WeightedSum, Bit, BitsOf, HeaderText, NoStar;
    JedRoundTrip(f, header, version, device, BitsOf(list, n), ByteSum(list) % 0x10000);
    ChecksumSurvivesExactlyWhen(list, n);
    if n % 64 == 0 {
      WholeBytesClear(list, n);
    }
  }

  lemma WholeBytesClear(list: seq<byte>, n: nat)
    requires |list| == BytesFor(n) && n % 64 == 0
    ensures Clear(list, n)
  {
  }

  /**
   * A map that setLength has grown to a count off a byte boundary has ones behind its last fuse, so
   * its checksum is not the one of the map that is read back.
   */
  lemma GrownMapLosesChecksum(n: nat)
    requires n % 8 != 0
    ensures var list := Repeat<byte>(0xff, BytesFor(n));
      && BitsOf(list, n) == Repeat(true, n) && !Clear(list, n)
      && ByteSum(list) % 0x10000 != WeightedSum(Repeat(true, n)) % 0x10000
  {
    hide Bit, ByteSum, WeightedSum;
    var list := Repeat<byte>(0xff, BytesFor(n));
    forall i | 0 <= i < 8 * |list|
      ensures BitAt(list, i)
    {
      AllBits(true, i % 8);
    }
    assert BitAt(list, n);
    ChecksumSurvivesExactlyWhen(list, n);
  }
}
