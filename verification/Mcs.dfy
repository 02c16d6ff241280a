/**
 * The Intel hexadecimal object format as bitfile.cpp writes and reads it: data records, extended
 * linear address records and the end of file record, each with its checksum.
 */
module Mcs {
  import opened Bits
  import opened HexText
  import opened Pages

  // ---- Bytes as text ----

  function HexBytes(bytes: seq<byte>): string {
    if bytes == [] then "" else Hex2(bytes[0]) + HexBytes(bytes[1..])
  }

  lemma {:induction false} HexAppend(a: seq<byte>, b: seq<byte>)
    ensures HexBytes(a + b) == HexBytes(a) + HexBytes(b)
  {
    hide Hex2;
    if a == [] {
      assert a + b == b;
    } else {
      assert (a + b)[1..] == a[1..] + b;
      HexAppend(a[1..], b);
    }
  }

  lemma {:induction false} HexLength(bytes: seq<byte>)
    ensures |HexBytes(bytes)| == 2 * |bytes|
    ensures forall ch :: ch in HexBytes(bytes) ==> ch != '\n'
  {
    if bytes != [] {
      HexLength(bytes[1..]);
      HexDigitValue(bytes[0] / 16);
      HexDigitValue(bytes[0] % 16);
    }
  }

  function Sum(bytes: seq<byte>): nat {
    if bytes == [] then 0 else bytes[0] + Sum(bytes[1..])
  }

  lemma {:induction false} SumAppend(a: seq<byte>, b: seq<byte>)
    ensures Sum(a + b) == Sum(a) + Sum(b)
  {
    if a == [] {
      assert a + b == b;
    } else {
      assert (a + b)[1..] == a[1..] + b;
      SumAppend(a[1..], b);
    }
  }

  /** The byte that makes a sum a multiple of 256. */
  function Complement(sum: nat): byte {
    (0x100 - sum % 0x100) % 0x100
  }

  /** A byte as two digits at the front of a text. */
  datatype Pair = None | Some(value: byte, rest: string)

  function PairOf(s: string): Pair {
    if |s| < 2 || HexValueOf(s[0]) < 0 || HexValueOf(s[1]) < 0 then None
    else Some(HexValueOf(s[0]) * 16 + HexValueOf(s[1]), s[2..])
  }

  lemma PairOfHex(b: byte, rest: string)
    ensures PairOf(Hex2(b) + rest) == Some(b, rest)
  {
    HexDigitValue(b / 16);
    HexDigitValue(b % 16);
    assert (Hex2(b) + rest)[2..] == rest;
  }

  lemma PairOfBytes(bytes: seq<byte>, rest: string)
    requires bytes != []
    ensures PairOf(HexBytes(bytes) + rest) == Some(bytes[0], HexBytes(bytes[1..]) + rest)
  {
    hide Hex2, PairOf;
    PairOfHex(bytes[0], HexBytes(bytes[1..]) + rest);
    assert HexBytes(bytes) + rest == Hex2(bytes[0]) + (HexBytes(bytes[1..]) + rest);
  }

  /** The checksum the writer takes from the text of a record. */
  function TextSum(s: string): nat
    decreases |s|
  {
    var p := PairOf(s);
    if p.Some? then p.value + TextSum(p.rest) else 0
  }

  lemma {:induction false} TextSumOfHex(bytes: seq<byte>)
    ensures TextSum(HexBytes(bytes)) == Sum(bytes)
  {
    hide PairOf;
    if bytes == [] {
      assert PairOf("") == None by {
        EmptyPair();
      }
    } else {
      PairOfBytes(bytes, "");
      assert HexBytes(bytes) + "" == HexBytes(bytes) && HexBytes(bytes[1..]) + "" == HexBytes(bytes[1..]);
      TextSumOfHex(bytes[1..]);
    }
  }

  lemma EmptyPair()
    ensures PairOf("") == None
  {
  }

  // ---- The writer's text ----

  /** The end of a record behind its colon: its bytes, their checksum and the end of the line. */
  function RecordTail(bytes: seq<byte>): string {
    HexBytes(bytes) + Hex2(Complement(Sum(bytes))) + "\r\n"
  }

  function Record(bytes: seq<byte>): string {
    ":" + RecordTail(bytes)
  }

  /** The bytes that select the upper half of an address. */
  function ExtendedAddress(base: nat): seq<byte>
    requires base < 0x10000
  {
    [2, 0, 0, 4, base / 0x100, base % 0x100]
  }

  const END_OF_FILE: seq<byte> := [0, 0, 0, 1]

  /** How many bytes a data record says it has: a last one of 15 says 16. */
  function Label(n: nat, s: nat): byte
    requires s < n
  {
    if n - s < 0xf then n - s else 0x10
  }

  function DataHeader(n: nat, s: nat): seq<byte>
    requires s < n
  {
    [Label(n, s), s % 0x10000 / 0x100, s % 0x100, 0]
  }

  /** The data bytes of the record at s. */
  function DataOf(data: seq<byte>, s: nat): seq<byte>
    requires s < |data|
  {
    if |data| - s < 16 then data[s..] else data[s..s + 16]
  }

  function AddressRecord(i: nat): string
    requires i < WORD
  {
    if i % 0x10000 == 0 then Record(ExtendedAddress(i / 0x10000)) else ""
  }

  /** Everything written from byte i on, i being the start of a data record. */
  function Chunks(data: seq<byte>, i: nat): string
    requires |data| <= WORD
    decreases |data| - i
  {
    if i >= |data| then Record(END_OF_FILE)
    else AddressRecord(i) + Record(DataHeader(|data|, i) + DataOf(data, i)) + Chunks(data, i + 16)
  }

  // ---- The reader ----

  /**
   * What reading comes to. Overrun is a write outside the buffer; Irregular a record whose
   * digits or type are not covered here, or one that makes the reader use an unset variable.
   */
  datatype Outcome = Running | Code(code: int) | Overrun | Irregular

  datatype Reader = Reader(full: nat, buffer: seq<byte>, length: nat, outcome: Outcome)

  /** The data bytes of a record, and their sum with what came before. */
  datatype TakenBytes = TakenBytes(r: Reader, sum: nat, rest: string)

  function Take(r: Reader, rest: string, count: nat, sum: nat): TakenBytes
    decreases count
  {
    if count == 0 then TakenBytes(r, sum, rest)
    else
      var p := PairOf(rest);
      if p.None? then TakenBytes(r.(outcome := Irregular), sum, rest)
      else if r.full >= |r.buffer| then TakenBytes(r.(outcome := Overrun), sum, rest)
      else
        Take(r.(buffer := r.buffer[r.full := p.value], full := (r.full + 1) % WORD), p.rest, count - 1, sum + p.value)
  }

  /** The checksum of a record. */
  function Check(r: Reader, rest: string, sum: nat): Reader {
    var p := PairOf(rest);
    if p.None? then r.(outcome := Irregular)
    else if p.value == Complement(sum) then r
    else r.(outcome := Code(3))
  }

  /** One record behind its count, address and type. */
  function ReadBody(r: Reader, count: nat, address: nat, kind: nat, rest: string, sum: nat): Reader {
    if kind == 0 then
      var at := if r.full % 0x10000 != address then r.full / 0x10000 * 0x10000 + address else r.full;
      var t := Take(r.(full := at), rest, count, sum);
      if t.r.outcome == Running then Check(t.r, t.rest, t.sum) else t.r
    else if kind == 1 then r.(length := r.full, outcome := Code(0))
    else if kind == 4 then
      var high := PairOf(rest);
      if high.None? then r.(outcome := Irregular)
      else
        var low := PairOf(high.rest);
        if low.None? then r.(outcome := Irregular)
        else
          var upper := high.value * 0x100 + low.value;
          var at := if r.full / 0x10000 != upper then r.full % 0x10000 + upper * 0x10000 else r.full;
          Check(r.(full := at), low.rest, sum + high.value + low.value)
    else if kind == 2 || kind == 3 || kind == 5 then r.(outcome := Irregular)
    else r.(outcome := Code(2))
  }

  function ReadRecord(r: Reader, line: string): Reader {
    if line == "" || line[0] != ':' then r.(outcome := Code(1))
    else
      var a := PairOf(line[1..]);
      if a.None? then r.(outcome := Irregular)
      else
        var b := PairOf(a.rest);
        if b.None? then r.(outcome := Irregular)
        else
          var c := PairOf(b.rest);
          if c.None? then r.(outcome := Irregular)
          else
            var d := PairOf(c.rest);
            if d.None? then r.(outcome := Irregular)
            else
              var high: nat := b.value;
              ReadBody(r, a.value, high * 0x100 + c.value, d.value, d.rest, a.value + high + c.value + d.value)
  }

  /** A line as fgets returns it with a buffer of 1024. */
  function LineLength(text: string, k: nat): (n: nat)
    requires k <= |text|
    ensures k <= n <= |text|
    ensures k < |text| && k < 1023 ==> n > k
    decreases |text| - k
  {
    if k == |text| || k >= 1023 then k
    else if text[k] == '\n' then k + 1
    else LineLength(text, k + 1)
  }

  function ReadText(r: Reader, text: string): Reader
    decreases |text|
  {
    if r.outcome != Running then r
    else if text == "" then r.(outcome := Code(4))
    else
      var n := LineLength(text, 0);
      ReadText(ReadRecord(r, text[..n]), text[n..])
  }

  // ---- What the reader accepts ----

  /** The digit pairs at the front of a text, as bytes. */
  function Decoded(s: string): seq<byte>
    decreases |s|
  {
    var p := PairOf(s);
    if p.Some? then [p.value] + Decoded(p.rest) else []
  }

  lemma DecodedFirst(s: string)
    ensures PairOf(s).None? <==> Decoded(s) == []
    ensures PairOf(s).Some? ==>
      Decoded(s) == [PairOf(s).value] + Decoded(PairOf(s).rest) && Decoded(s)[1..] == Decoded(PairOf(s).rest)
  {
  }

  /** The number of bytes that are read of a record, the checksum included: an address record has two data bytes. */
  function RecordSize(d: seq<byte>): nat
    requires |d| >= 4
  {
    var count: nat := d[0];
    if d[3] == 0 then count + 5 else 7
  }

  /** Where a data record goes: to its address in the 64 KiB that the reader is in. */
  function DataAt(r: Reader, d: seq<byte>): nat
    requires |d| >= 4
  {
    r.full / 0x10000 * 0x10000 + TwoBytes(d, 1)
  }

  /** The number that two bytes make, the higher one first. */
  function TwoBytes(d: seq<byte>, k: nat): (n: nat)
    requires k + 1 < |d|
    ensures n < 0x10000
  {
    var high: nat := d[k];
    high * 0x100 + d[k + 1]
  }

  predicate HasRoom(r: Reader, d: seq<byte>)
    requires |d| >= 4
  {
    d[3] == 0 && d[0] > 0 ==> DataAt(r, d) + d[0] <= |r.buffer|
  }

  /** Data bytes in terms of the pairs that a text starts with. */
  lemma {:induction false} TakeDecoded(r: Reader, rest: string, count: nat, sum: nat)
    requires |r.buffer| < WORD && r.outcome == Running
    ensures var (t, d) := (Take(r, rest, count, sum), Decoded(rest));
      if count <= |d| && (count == 0 || r.full + count <= |r.buffer|) then
        && t.r.outcome == Running && t.sum == sum + Sum(d[..count]) && Decoded(t.rest) == d[count..]
        && t.r.full == r.full + count
        && (count > 0 ==> t.r == r.(buffer := Overwrite(r.buffer, r.full, d[..count]), full := r.full + count))
        && (count == 0 ==> t.r == r)
      else t.r.outcome != Running
    decreases count
  {
    hide PairOf, Decoded, Overwrite, Sum, Take;
    var d := Decoded(rest);
    TakeOnce(r, rest, count, sum);
    if count == 0 {
      assert d[..0] == [] && d[0..] == d;
      SumOfNone();
    } else if d != [] && r.full < |r.buffer| {
      var q := r.(buffer := r.buffer[r.full := d[0]], full := r.full + 1);
      TakeDecoded(q, PairOf(rest).rest, count - 1, sum + d[0]);
      if count <= |d| && r.full + count <= |r.buffer| {
        SumOfMore(d[..count]);
        assert d[..count][1..] == d[1..][..count - 1] && d[1..][count - 1..] == d[count..];
        StoreMore(r.buffer, r.full, d[..count]);
      }
    }
  }

  /** The first data byte. */
  lemma TakeOnce(r: Reader, rest: string, count: nat, sum: nat)
    requires |r.buffer| < WORD && r.outcome == Running
    ensures var (t, d) := (Take(r, rest, count, sum), Decoded(rest));
      if count == 0 then t == TakenBytes(r, sum, rest)
      else if d == [] || r.full >= |r.buffer| then t.r.outcome != Running
      else
        && PairOf(rest).Some? && Decoded(PairOf(rest).rest) == d[1..]
        && t == Take(r.(buffer := r.buffer[r.full := d[0]], full := r.full + 1), PairOf(rest).rest, count - 1, sum
                     + d[0])
  {
    hide PairOf, Decoded;
    DecodedFirst(rest);
  }

  lemma SumOfNone()
    ensures Sum([]) == 0
  {
  }

  lemma SumOfMore(b: seq<byte>)
    requires b != []
    ensures Sum(b) == b[0] as int + Sum(b[1..])
  {
  }

  lemma StoreMore(buffer: seq<byte>, at: nat, bytes: seq<byte>)
    requires bytes != [] && at + |bytes| <= |buffer|
    ensures var was := buffer[at := bytes[0]];
      Overwrite(buffer, at, bytes) == if |bytes| == 1 then was else Overwrite(was, at + 1, bytes[1..])
  {
  }

  /** The four bytes in front of a record's data. */
  lemma HeaderDecoded(r: Reader, line: string) returns (rest: string)
    requires line != "" && line[0] == ':' && |Decoded(line[1..])| >= 4
    ensures var d := Decoded(line[1..]);
      && Decoded(rest) == d[4..]
      && ReadRecord(r, line) == ReadBody(r, d[0], TwoBytes(d, 1), d[3], rest, Sum(d[..4]))
  {
    hide PairOf, Decoded, ReadBody, Sum;
    var d := Decoded(line[1..]);
    DecodedFirst(line[1..]);
    var a := PairOf(line[1..]);
    DecodedFirst(a.rest);
    var b := PairOf(a.rest);
    DecodedFirst(b.rest);
    var c := PairOf(b.rest);
    DecodedFirst(c.rest);
    rest := PairOf(c.rest).rest;
    assert d[1..][1..] == d[2..] && d[2..][1..] == d[3..] && d[3..][1..] == d[4..];
    SumOfFour(d[..4]);
  }

  /** A checksum byte is accepted if it makes the sum a multiple of 256. */
  lemma CheckDecoded(r: Reader, rest: string, sum: nat)
    requires r.outcome == Running
    ensures var (q, d) := (Check(r, rest, sum), Decoded(rest));
      q == if d == [] then r.(outcome := Irregular) else if (sum + d[0]) % 0x100 == 0 then r else r.(outcome := Code(3))
  {
    hide PairOf, Decoded, Complement;
    DecodedFirst(rest);
    if Decoded(rest) != [] {
      Complements(sum, Decoded(rest)[0]);
    }
  }

  lemma SumUpTo(d: seq<byte>, a: nat, b: nat)
    requires a <= b < |d|
    ensures Sum(d[..a]) + Sum(d[a..][..b - a]) + d[b] as int == Sum(d[..b + 1])
  {
    hide Sum;
    assert d[..b] == d[..a] + d[a..][..b - a];
    SumAppend(d[..a], d[a..][..b - a]);
    assert d[..b + 1] == d[..b] + [d[b]];
    SumAppend(d[..b], [d[b]]);
    SumOfOne(d[b]);
  }

  lemma DataAccepted(r: Reader, d: seq<byte>, rest: string)
    requires r.outcome == Running && |r.buffer| < WORD && |d| >= 4 && d[3] == 0 && Decoded(rest) == d[4..]
    ensures var q := ReadBody(r, d[0], TwoBytes(d, 1), 0, rest, Sum(d[..4]));
      var n := RecordSize(d);
      && (q.outcome == Running <==> n <= |d| && HasRoom(r, d) && Sum(d[..n]) % 0x100 == 0)
      && (n <= |d| && HasRoom(r, d) && Sum(d[..n]) % 0x100 != 0 ==> q.outcome == Code(3))
      && (q.outcome == Running && d[0] > 0 ==>
            q == r.(buffer := Overwrite(r.buffer, DataAt(r, d), d[4..4 + d[0]]), full := DataAt(r, d) + d[0]))
  {
    hide PairOf, Decoded, Sum, Take, Check, Overwrite;
    var count: nat := d[0];
    if r.full % 0x10000 == TwoBytes(d, 1) {
      SegmentStart(r.full, TwoBytes(d, 1));
    }
    TakeDecoded(r.(full := DataAt(r, d)), rest, count, Sum(d[..4]));
    if count <= |d| - 4 && HasRoom(r, d) {
      var t := Take(r.(full := DataAt(r, d)), rest, count, Sum(d[..4]));
      assert d[4..][count..] == d[4 + count..] && d[4..][..count] == d[4..4 + count];
      CheckDecoded(t.r, t.rest, t.sum);
      if 4 + count < |d| {
        SumUpTo(d, 4, 4 + count);
      }
    }
  }

  lemma SegmentStart(full: nat, address: nat)
    requires full % 0x10000 == address
    ensures full / 0x10000 * 0x10000 + address == full
  {
  }

  lemma AddressAccepted(r: Reader, d: seq<byte>, rest: string)
    requires r.outcome == Running && |r.buffer| < WORD && |d| >= 4 && d[3] == 4 && Decoded(rest) == d[4..]
    ensures var q := ReadBody(r, d[0], TwoBytes(d, 1), 4, rest, Sum(d[..4]));
      && (q.outcome == Running <==> 7 <= |d| && Sum(d[..7]) % 0x100 == 0)
      && (7 <= |d| && Sum(d[..7]) % 0x100 != 0 ==> q.outcome == Code(3))
      && (q.outcome == Running ==> q == r.(full := TwoBytes(d, 4) * 0x10000 + r.full % 0x10000))
  {
    hide PairOf, Decoded, Sum, Check;
    DecodedFirst(rest);
    if |d| >= 5 {
      var high := PairOf(rest);
      DecodedFirst(high.rest);
      assert d[4..][1..] == d[5..];
      if |d| >= 6 {
        var low := PairOf(high.rest);
        assert d[5..][1..] == d[6..];
        CheckDecoded(r.(full := TwoBytes(d, 4) * 0x10000 + r.full % 0x10000), low.rest,
                     Sum(d[..4]) + high.value + low.value);
        if |d| >= 7 {
          SumUpTo(d, 4, 6);
          SumOfTwo(d[4..][..2]);
        }
      }
    }
  }

  /**
   * A data or address record is accepted if and only if it is complete, its data have room and all its
   * bytes with the checksum add up to a multiple of 256; a wrong sum alone gives code 3. Data are then
   * stored at the record's address, and an address record moves the upper half of the address.
   */
  lemma AcceptedExactlyWhen(r: Reader, line: string)
    requires r.outcome == Running && |r.buffer| < WORD && line != "" && line[0] == ':'
    requires var d := Decoded(line[1..]); |d| >= 4 && (d[3] == 0 || d[3] == 4)
    ensures var (d, q) := (Decoded(line[1..]), ReadRecord(r, line));
      var n := RecordSize(d);
      && (q.outcome == Running <==> n <= |d| && HasRoom(r, d) && Sum(d[..n]) % 0x100 == 0)
      && (n <= |d| && HasRoom(r, d) && Sum(d[..n]) % 0x100 != 0 ==> q.outcome == Code(3))
      && (q.outcome == Running && d[3] == 0 && d[0] > 0 ==>
            q == r.(buffer := Overwrite(r.buffer, DataAt(r, d), d[4..4 + d[0]]), full := DataAt(r, d) + d[0]))
      && (q.outcome == Running && d[3] == 4 ==>
            q == r.(full := TwoBytes(d, 4) * 0x10000 + r.full % 0x10000))
  {
    hide PairOf, Decoded, ReadRecord, Sum, Take, Check, Overwrite;
    var d := Decoded(line[1..]);
    var rest := HeaderDecoded(r, line);
    if d[3] == 0 {
      DataAccepted(r, d, rest);
    } else {
      AddressAccepted(r, d, rest);
    }
  }

  // ---- Reading back what was written ----

  lemma {:induction false} LineEnds(text: string, k: nat, n: nat)
    requires k <= n < |text| && n < 1023 && text[n] == '\n'
    requires forall i :: k <= i < n ==> text[i] != '\n'
    ensures LineLength(text, k) == n + 1
    decreases n - k
  {
    if k < n {
      LineEnds(text, k + 1, n);
    }
  }

  lemma RecordIsLine(bytes: seq<byte>, rest: string)
    requires |bytes| <= 260
    ensures |Record(bytes)| == 2 * |bytes| + 5
    ensures LineLength(Record(bytes) + rest, 0) == |Record(bytes)|
  {
    hide HexBytes, Hex2, LineLength, Sum, Complement;
    HexLength(bytes);
    HexLength([Complement(Sum(bytes))]);
    OneByte(Complement(Sum(bytes)));
    var (text, n) := (Record(bytes) + rest, 2 * |bytes| + 4);
    var (hex, chk) := (HexBytes(bytes), Hex2(Complement(Sum(bytes))));
    assert text == ":" + hex + chk + "\r\n" + rest;
    forall i | 0 <= i < n
      ensures text[i] != '\n'
    {
      if 1 <= i < 1 + |hex| {
        assert text[i] == hex[i - 1] && hex[i - 1] in hex;
      } else if 1 + |hex| <= i < 3 + |hex| {
        assert text[i] == chk[i - 1 - |hex|] && chk[i - 1 - |hex|] in chk;
      }
    }
    LineEnds(text, 0, n);
  }

  lemma OneByte(b: byte)
    ensures HexBytes([b]) == Hex2(b) && |Hex2(b)| == 2
  {
    assert [b][1..] == [];
    assert HexBytes([]) == "";
    assert Hex2(b) + "" == Hex2(b);
  }

  /** A record in front of a text is read first. */
  lemma ReadFirst(r: Reader, bytes: seq<byte>, rest: string)
    requires |bytes| <= 260 && r.outcome == Running
    ensures ReadText(r, Record(bytes) + rest) == ReadText(ReadRecord(r, Record(bytes)), rest)
  {
    hide Record, ReadRecord, LineLength;
    RecordIsLine(bytes, rest);
    var (text, n) := (Record(bytes) + rest, |Record(bytes)|);
    assert text[..n] == Record(bytes) && text[n..] == rest;
  }

  /** What follows the data bytes of a record. */
  function Ending(bytes: seq<byte>): string {
    Hex2(Complement(Sum(bytes))) + "\r\n"
  }

  lemma ReadHeader(r: Reader, bytes: seq<byte>)
    requires |bytes| >= 4
    ensures var high: nat := bytes[1];
      ReadRecord(r, Record(bytes))
      == ReadBody(r, bytes[0], high * 0x100 + bytes[2], bytes[3], HexBytes(bytes[4..]) + Ending(bytes), Sum(bytes[..4]))
  {
    hide HexBytes, Hex2, PairOf, ReadBody, Complement, Sum;
    var e := Ending(bytes);
    var line := Record(bytes);
    assert line[1..] == HexBytes(bytes) + e;
    PairOfBytes(bytes, e);
    PairOfBytes(bytes[1..], e);
    PairOfBytes(bytes[1..][1..], e);
    PairOfBytes(bytes[1..][1..][1..], e);
    assert bytes[1..][1..] == bytes[2..] && bytes[1..][1..][1..] == bytes[3..] && bytes[3..][1..] == bytes[4..];
    SumOfFour(bytes[..4]);
  }

  lemma SumOfFour(b: seq<byte>)
    requires |b| == 4
    ensures Sum(b) == b[0] as int + b[1] as int + b[2] as int + b[3] as int
  {
    assert b[1..][1..] == b[2..] && b[2..][1..] == b[3..] && b[3..][1..] == [];
    assert Sum([]) == 0;
    assert Sum(b[3..]) == b[3] as int + Sum(b[3..][1..]);
    assert Sum(b[2..]) == b[2] as int + Sum(b[3..]);
    assert Sum(b[1..]) == b[1] as int + Sum(b[2..]);
  }

  /** Data bytes that fit are stored in order; others overrun. */
  lemma {:induction false} TakeOf(r: Reader, bytes: seq<byte>, rest: string, sum: nat)
    requires |r.buffer| < WORD && r.outcome == Running
    ensures var t := Take(r, HexBytes(bytes) + rest, |bytes|, sum);
      if r.full + |bytes| <= |r.buffer| then
        t == TakenBytes(r.(buffer := Overwrite(r.buffer, r.full, bytes), full := r.full + |bytes|),
                        sum + Sum(bytes), rest)
      else bytes != [] ==> t.r.outcome == Overrun
    decreases |bytes|
  {
    hide PairOf, HexBytes, Take, Sum, Overwrite;
    if bytes == [] {
      TakeNothing(r, rest, sum);
    } else {
      TakeFirst(r, bytes, rest, sum);
      if r.full < |r.buffer| {
        var q := r.(buffer := r.buffer[r.full := bytes[0]], full := r.full + 1);
        TakeOf(q, bytes[1..], rest, sum + bytes[0]);
        if q.full + |bytes[1..]| <= |q.buffer| {
          OverwriteFirst(r.buffer, r.full, bytes);
        }
      }
    }
  }

  lemma TakeNothing(r: Reader, rest: string, sum: nat)
    ensures Take(r, HexBytes([]) + rest, 0, sum) == TakenBytes(r, sum, rest) && Sum([]) == 0
    ensures r.full <= |r.buffer| ==> Overwrite(r.buffer, r.full, []) == r.buffer
  {
    EmptyBytes(rest);
  }

  /** The first of some data bytes. */
  lemma TakeFirst(r: Reader, bytes: seq<byte>, rest: string, sum: nat)
    requires |r.buffer| < WORD && bytes != []
    ensures Sum(bytes) == bytes[0] as int + Sum(bytes[1..])
    ensures var t := Take(r, HexBytes(bytes) + rest, |bytes|, sum);
      if r.full < |r.buffer| then
        t == Take(r.(buffer := r.buffer[r.full := bytes[0]], full := r.full + 1),
                  HexBytes(bytes[1..]) + rest, |bytes| - 1, sum + bytes[0])
      else t.r.outcome == Overrun
  {
    hide PairOf, HexBytes;
    PairOfBytes(bytes, rest);
  }

  lemma EmptyBytes(rest: string)
    ensures HexBytes([]) + rest == rest
  {
  }

  lemma OverwriteFirst(buffer: seq<byte>, at: nat, bytes: seq<byte>)
    requires bytes != [] && at + |bytes| <= |buffer|
    ensures Overwrite(buffer[at := bytes[0]], at + 1, bytes[1..]) == Overwrite(buffer, at, bytes)
  {
  }

  /** The checksum the writer printed is the one the reader expects. */
  lemma CheckOf(r: Reader, bytes: seq<byte>)
    ensures Check(r, Ending(bytes), Sum(bytes)) == r
  {
    hide PairOf, Hex2, Sum, Complement;
    PairOfHex(Complement(Sum(bytes)), "\r\n");
  }

  lemma SumInParts(bytes: seq<byte>, k: nat)
    requires k <= |bytes|
    ensures Sum(bytes[..k]) + Sum(bytes[k..]) == Sum(bytes)
  {
    SumAppend(bytes[..k], bytes[k..]);
    assert bytes == bytes[..k] + bytes[k..];
  }

  /** At a 64 KiB boundary the address record leaves the address where it is. */
  lemma ReadAddressRecord(r: Reader, i: nat, rest: string)
    requires r.outcome == Running && r.full == i < WORD && i % 16 == 0
    ensures ReadText(r, AddressRecord(i) + rest) == ReadText(r, rest)
  {
    hide ReadText, ReadRecord, Record, HexBytes, PairOf, Check, Sum, Ending;
    if i % 0x10000 == 0 {
      var bytes := ExtendedAddress(i / 0x10000);
      ReadFirst(r, bytes, rest);
      ReadHeader(r, bytes);
      var e := Ending(bytes);
      assert bytes[4..] == [bytes[4], bytes[5]];
      PairOfBytes(bytes[4..], e);
      PairOfBytes(bytes[4..][1..], e);
      assert bytes[4..][1..][1..] == [];
      EmptyBytes(e);
      SumInParts(bytes, 4);
      SumOfTwo(bytes[4..]);
      CheckOf(r, bytes);
      assert i / 0x10000 == bytes[4] as int * 0x100 + bytes[5] as int;
    } else {
      assert "" + rest == rest;
    }
  }

  lemma SumOfTwo(b: seq<byte>)
    requires |b| == 2
    ensures Sum(b) == b[0] as int + b[1] as int
  {
    assert b[1..][1..] == [];
    assert Sum(b[1..]) == b[1] as int + Sum([]);
  }

  /** A data record whose label is right stores its bytes, if they fit. */
  lemma ReadDataRecord(r: Reader, data: seq<byte>, i: nat)
    requires r.outcome == Running && r.full == i < |data| < WORD && i % 16 == 0
    requires |r.buffer| < WORD && |data| - i != 15
    ensures var bytes := DataHeader(|data|, i) + DataOf(data, i);
      var q := ReadRecord(r, Record(bytes));
      if i + |DataOf(data, i)| <= |r.buffer| then
        q == r.(buffer := Overwrite(r.buffer, i, DataOf(data, i)), full := i + |DataOf(data, i)|)
      else q.outcome == Overrun
  {
    hide ReadText, Record, HexBytes, PairOf, Check, Sum, Ending, Take;
    var (head, part) := (DataHeader(|data|, i), DataOf(data, i));
    var bytes := head + part;
    ReadHeader(r, bytes);
    assert bytes[4..] == part && bytes[..4] == head;
    AddressBytes(i);
    SumInParts(bytes, 4);
    TakeOf(r, part, Ending(bytes), Sum(head));
    CheckOf(r.(buffer := if i + |part| <= |r.buffer| then Overwrite(r.buffer, i, part) else r.buffer,
               full := i + |part|), bytes);
  }

  lemma AddressBytes(i: nat)
    ensures i % 0x10000 / 0x100 * 0x100 + i % 0x100 == i % 0x10000
    ensures i % 0x10000 / 0x100 < 0x100
  {
    var (q, r) := (i / 0x10000, i % 0x10000);
    DivideUnique(i, 0x100, q * 0x100 + r / 0x100, r % 0x100);
  }

  /** A last record of 15 bytes, labelled 16, never reads successfully. */
  lemma ReadShortRecord(r: Reader, data: seq<byte>, i: nat)
    requires r.outcome == Running && r.full == i < |data| < WORD && i % 16 == 0 && |data| - i == 15
    requires |r.buffer| < WORD
    ensures var q := ReadRecord(r, Record(DataHeader(|data|, i) + DataOf(data, i)));
      q.outcome == Irregular || q.outcome == Overrun
  {
    hide ReadText, Record, HexBytes, PairOf, Check, Sum, Ending, Take, Hex2, Complement;
    var (head, part) := (DataHeader(|data|, i), DataOf(data, i));
    var bytes := head + part;
    ReadHeader(r, bytes);
    assert bytes[4..] == part && bytes[..4] == head;
    AddressBytes(i);
    var all := part + [Complement(Sum(bytes))];
    EndingAsByte(part, bytes);
    TakeOf(r, all, "\r\n", Sum(head));
    NoChecksum(r.(buffer := if i + 16 <= |r.buffer| then Overwrite(r.buffer, i, all) else r.buffer, full := i + 16),
               Sum(head) + Sum(all));
  }

  lemma EndingAsByte(part: seq<byte>, bytes: seq<byte>)
    ensures HexBytes(part) + Ending(bytes) == HexBytes(part + [Complement(Sum(bytes))]) + "\r\n"
  {
    hide HexBytes, Hex2, Complement, Sum;
    HexAppend(part, [Complement(Sum(bytes))]);
    OneByte(Complement(Sum(bytes)));
  }

  lemma NoChecksum(r: Reader, sum: nat)
    ensures Check(r, "\r\n", sum) == r.(outcome := Irregular)
  {
  }

  lemma ReadEnd(r: Reader)
    requires r.outcome == Running
    ensures ReadText(r, Record(END_OF_FILE)) == r.(length := r.full, outcome := Code(0))
  {
    hide Record, HexBytes, PairOf, Sum, Ending, ReadRecord, LineLength;
    assert Record(END_OF_FILE) + "" == Record(END_OF_FILE);
    ReadFirst(r, END_OF_FILE, "");
    ReadHeader(r, END_OF_FILE);
  }

  lemma ReadStops(r: Reader, text: string)
    requires r.outcome != Running
    ensures ReadText(r, text) == r
  {
  }

  /** The file can be read back into a buffer of its size. */
  predicate Readable(n: nat, size: nat) {
    n <= size && n % 16 != 15
  }

  /** The reader in the middle of a file. */
  ghost predicate ReadUpTo(r: Reader, data: seq<byte>, i: nat, size: nat) {
    && r.outcome == Running && r.full == i && |r.buffer| == size < WORD && i <= size && i <= |data|
    && r.buffer[..i] == data[..i]
  }

  lemma StoredPart(buffer: seq<byte>, data: seq<byte>, i: nat, part: seq<byte>)
    requires i + |part| <= |data| && i + |part| <= |buffer|
    requires buffer[..i] == data[..i] && part == data[i..i + |part|]
    ensures Overwrite(buffer, i, part)[..i + |part|] == data[..i + |part|]
  {
    assert Overwrite(buffer, i, part)[..i + |part|] == buffer[..i] + part;
    assert data[..i + |part|] == data[..i] + data[i..i + |part|];
  }

  lemma ReadChunk(r: Reader, data: seq<byte>, i: nat, size: nat)
    requires |data| < WORD && i < |data| && i % 16 == 0 && ReadUpTo(r, data, i, size)
    ensures var text := AddressRecord(i) + Record(DataHeader(|data|, i) + DataOf(data, i)) + Chunks(data, i + 16);
      var next := i + |DataOf(data, i)|;
      if next <= size && |data| - i != 15 then
        exists q :: ReadUpTo(q, data, next, size) && ReadText(r, text) == ReadText(q, Chunks(data, i + 16))
      else
        var q := ReadText(r, text);
        q.outcome == Overrun || (q.outcome == Irregular && |data| - i == 15)
  {
    hide ReadText, ReadRecord, Record, Chunks, AddressRecord;
    var bytes := DataHeader(|data|, i) + DataOf(data, i);
    var (rest, part) := (Chunks(data, i + 16), DataOf(data, i));
    assert AddressRecord(i) + Record(bytes) + rest == AddressRecord(i) + (Record(bytes) + rest);
    ReadAddressRecord(r, i, Record(bytes) + rest);
    ReadFirst(r, bytes, rest);
    var q := ReadRecord(r, Record(bytes));
    if |data| - i == 15 {
      ReadShortRecord(r, data, i);
      ReadStops(q, rest);
    } else {
      ReadDataRecord(r, data, i);
      if i + |part| <= size {
        StoredPart(r.buffer, data, i, part);
        assert ReadUpTo(q, data, i + |part|, size);
      } else {
        ReadStops(q, rest);
      }
    }
  }

  lemma {:induction false} ReadChunks(r: Reader, data: seq<byte>, i: nat, size: nat)
    requires |data| < WORD && i % 16 == 0 && i < |data| + 16
    requires ReadUpTo(r, data, if i <= |data| then i else |data|, size)
    requires i > |data| ==> |data| % 16 != 15
    ensures var q := ReadText(r, Chunks(data, i));
      if Readable(|data|, size) then
        q.outcome == Code(0) && q.length == |data| && |q.buffer| == size && q.buffer[..|data|] == data
      else q.outcome == Overrun || (q.outcome == Irregular && |data| % 16 == 15)
    decreases |data| + 16 - i
  {
    hide ReadText, ReadRecord, Record, AddressRecord, DataHeader;
    if i >= |data| {
      ReadEnd(r);
      assert data[..|data|] == data;
    } else {
      ReadChunk(r, data, i, size);
      var next := i + |DataOf(data, i)|;
      if next <= size && |data| - i != 15 {
        var q :| ReadUpTo(q, data, next, size)
          && ReadText(r, AddressRecord(i) + Record(DataHeader(|data|, i) + DataOf(data, i)) + Chunks(data, i + 16))
             == ReadText(q, Chunks(data, i + 16));
        ReadChunks(q, data, i + 16, size);
      }
    }
  }

  // ---- The size of a file, and the whole round trip ----

  /** The data records, and the 64 KiB segments, of n bytes. */
  function Records(n: nat): nat {
    (n + 15) / 16
  }

  function Segments(n: nat): nat {
    (n + 0xffff) / 0x10000
  }

  function TextLength(n: nat): nat {
    13 + 13 * Records(n) + 2 * n + 17 * Segments(n)
  }

  /** The length of what is written from byte i on. */
  function RestLength(n: nat, i: nat): int {
    TextLength(n) - 13 * Records(i) - 2 * i - 17 * Segments(i)
  }

  lemma RecordsStep(n: nat, i: nat)
    requires i < n && i % 16 == 0
    ensures Records(i + 16) == Records(i) + 1 && (i + 16 >= n ==> Records(n) == Records(i) + 1)
  {
    DivideUnique(i + 15, 16, i / 16, 15);
    DivideUnique(i + 31, 16, i / 16 + 1, 15);
    if i + 16 >= n {
      DivideUnique(n + 15, 16, i / 16 + 1, n - i - 1);
    }
  }

  lemma SegmentsStep(n: nat, i: nat)
    requires i < n && i % 16 == 0
    ensures Segments(i + 16) == Segments(i) + (if i % 0x10000 == 0 then 1 else 0)
    ensures i + 16 >= n ==> Segments(n) == Segments(i + 16)
  {
    var (q, r) := (i / 0x10000, i % 0x10000);
    AlignedRest(i);
    var m := if n < i + 16 then n else i + 16;
    if r == 0 {
      DivideUnique(i + 0xffff, 0x10000, q, 0xffff);
      DivideUnique(i + 16 + 0xffff, 0x10000, q + 1, 15);
      DivideUnique(m + 0xffff, 0x10000, q + 1, m - i - 1);
    } else {
      DivideUnique(i + 0xffff, 0x10000, q + 1, r - 1);
      DivideUnique(i + 16 + 0xffff, 0x10000, q + 1, r + 15);
      DivideUnique(m + 0xffff, 0x10000, q + 1, r - 1 + m - i);
    }
  }

  lemma RestLengthStep(n: nat, i: nat)
    requires i < n && i % 16 == 0
    ensures RestLength(n, i)
            == (if i % 0x10000 == 0 then 17 else 0) + 13 + 2 * (if n - i < 16 then n - i else 16)
               + if i + 16 >= n then 13 else RestLength(n, i + 16)
  {
    hide Records, Segments;
    RecordsStep(n, i);
    SegmentsStep(n, i);
  }

  lemma AlignedRest(i: nat)
    requires i % 16 == 0
    ensures i % 0x10000 <= 0x10000 - 16
  {
  }

  lemma {:induction false} ChunksLength(data: seq<byte>, i: nat)
    requires |data| < WORD && i % 16 == 0
    ensures |Chunks(data, i)| == if i >= |data| then 13 else RestLength(|data|, i)
    decreases |data| - i
  {
    hide Record, RestLength, ExtendedAddress;
    if i >= |data| {
      RecordLength(END_OF_FILE);
    } else {
      RestLengthStep(|data|, i);
      ChunksLength(data, i + 16);
      RecordLength(DataHeader(|data|, i) + DataOf(data, i));
      AddressRecordLength(i);
    }
  }

  lemma RecordLength(bytes: seq<byte>)
    ensures |Record(bytes)| == 2 * |bytes| + 5
  {
    hide HexBytes, Hex2, Sum, Complement;
    HexLength(bytes);
    OneByte(Complement(Sum(bytes)));
  }

  lemma AddressRecordLength(i: nat)
    requires i < WORD
    ensures |AddressRecord(i)| == if i % 0x10000 == 0 then 17 else 0
  {
    hide Record;
    if i % 0x10000 == 0 {
      RecordLength(ExtendedAddress(i / 0x10000));
    }
  }

  /** The buffer the reader makes: half the length of the text, in 32 bits. */
  function BufferSize(text: string): nat {
    |text| / 2 % WORD
  }

  /** Half the text has room for the bytes exactly up to this size, from which on its length needs more than 32 bits. */
  lemma RoomExactlyWhen(n: nat)
    requires 0 < n < 0x1_0000_0000
    ensures n <= TextLength(n) / 2 % WORD <==> n <= 0xB607_1467
  {
    hide TextLength;
    LengthAscends(n, 0xB607_1467);
    LengthAscends(0xB607_1468, n);
    LongestText();
    LengthBounds(n);
    var half := TextLength(n) / 2;
    if half < WORD {
      DivideUnique(half, WORD, 0, half);
    } else {
      DivideUnique(half, WORD, 1, half - WORD);
    }
  }

  lemma LengthAscends(m: nat, n: nat)
    ensures m <= n ==> TextLength(m) <= TextLength(n)
  {
    if m <= n {
      DivideAscends(m + 15, n + 15, 16);
      DivideAscends(m + 0xffff, n + 0xffff, 0x10000);
    }
  }

  lemma LongestText()
    ensures TextLength(0xB607_1467) == 0x1_ffff_fffe && TextLength(0xB607_1468) == 0x2_0000_0000
  {
  }

  lemma LengthBounds(n: nat)
    requires 0 < n < 0x1_0000_0000
    ensures n <= TextLength(n) / 2 < n + 0x1_0000_0000
  {
    var (a, b) := (Records(n), Segments(n));
    assert a <= 0x1000_0000 && b <= 0x10000;
  }

  /**
   * A file reads back successfully, with exactly the bytes saved, if and only if their number is
   * not 15 more than a multiple of 16 and at most 3053917287.
   */
  lemma ReadsBackExactlyWhen(data: seq<byte>, initial: seq<byte>)
    requires 0 < |data| < WORD && |initial| == BufferSize(Chunks(data, 0))
    ensures var text := Chunks(data, 0);
      var q := ReadText(Reader(0, initial, |initial|, Running), text);
      && |text| == TextLength(|data|)
      && (q.outcome == Code(0) <==> |data| % 16 != 15 && |data| <= 0xB607_1467)
      && (q.outcome == Code(0) ==> q.length == |data| <= |q.buffer| && q.buffer[..q.length] == data)
  {
    hide ReadText, Chunks, TextLength;
    ChunksLength(data, 0);
    WholeLength(|data|);
    RoomExactlyWhen(|data|);
    ReadChunks(Reader(0, initial, |initial|, Running), data, 0, |initial|);
  }

  lemma WholeLength(n: nat)
    ensures RestLength(n, 0) == TextLength(n)
  {
  }

  // ---- Bit order ----

  datatype Style = MCS | IHEX

  /** The bytes of an image as a file of a style has them, and the other way round. */
  function Converted(style: Style, data: seq<byte>): (r: seq<byte>)
    ensures |r| == |data|
  {
    if style == MCS then seq(|data|, i requires 0 <= i < |data| => Reverse(data[i])) else data
  }

  lemma ConvertedTwice(style: Style, data: seq<byte>)
    ensures Converted(style, Converted(style, data)) == data
  {
    hide Reverse;
    forall i | 0 <= i < |data|
      ensures Converted(style, Converted(style, data))[i] == data[i]
    {
      ReverseTwice(data[i]);
    }
  }

  // ---- Trailing blank bytes ----

  /** The length without trailing 0xff bytes, of which the first byte is kept. */
  function ClippedLength(data: seq<byte>): (n: nat)
    requires data != []
    ensures 1 <= n <= |data|
  {
    if |data| == 1 || data[|data| - 1] != 0xff then |data| else ClippedLength(data[..|data| - 1])
  }

  /** Only 0xff bytes are dropped, and none is left at the end. */
  lemma {:induction false} ClippedIsBlank(data: seq<byte>)
    requires data != []
    ensures var n := ClippedLength(data);
      (forall i :: n <= i < |data| ==> data[i] == 0xff) && (n > 1 ==> data[n - 1] != 0xff)
  {
    if |data| > 1 && data[|data| - 1] == 0xff {
      ClippedIsBlank(data[..|data| - 1]);
    }
  }

  /** Saving and reading an image in either style. */
  lemma SaveThenRead(style: Style, data: seq<byte>, initial: seq<byte>)
    requires 0 < |data| < WORD && |initial| == BufferSize(Chunks(Converted(style, data), 0))
    ensures var q := ReadText(Reader(0, initial, |initial|, Running), Chunks(Converted(style, data), 0));
      && (q.outcome == Code(0) <==> |data| % 16 != 15 && |data| <= 0xB607_1467)
      && (q.outcome == Code(0) ==> q.length <= |q.buffer| && Converted(style, q.buffer[..q.length]) == data)
  {
    hide ReadText, Chunks, Converted;
    ReadsBackExactlyWhen(Converted(style, data), initial);
    ConvertedTwice(style, data);
  }

  // ---- Steps of the writer's loop ----

  lemma HexFour(n: nat)
    requires n < 0x10000
    ensures Hex4(n) == Hex2(n / 0x100) + Hex2(n % 0x100)
  {
    var (high, low) := (n / 0x100, n % 0x100);
    HighDigits(n, high);
    LowDigits(n, low);
  }

  /** The digits of the high byte, and of the low one. */
  lemma HighDigits(n: nat, high: nat)
    requires n < 0x10000 && high == n / 0x100
    ensures high / 16 == n / 0x1000 % 16 && high % 16 == n / 0x100 % 16
  {
    DivideUnique(high, 16, n / 0x1000, high % 16);
  }

  lemma LowDigits(n: nat, low: nat)
    requires low == n % 0x100
    ensures low / 16 == n / 0x10 % 16 && low % 16 == n % 16
  {
    var q := n / 0x100;
    DivideUnique(n, 16, 16 * q + low / 16, low % 16);
    DivideUnique(16 * q + low / 16, 16, q, low / 16);
  }

  lemma {:induction false} HexFirst(b: byte, rest: seq<byte>)
    ensures HexBytes([b] + rest) == Hex2(b) + HexBytes(rest)
  {
    assert ([b] + rest)[1..] == rest;
  }

  lemma HexOf(b: byte)
    ensures b == 0 ==> Hex2(b) == "00"
    ensures b == 1 ==> Hex2(b) == "01"
    ensures b == 2 ==> Hex2(b) == "02"
    ensures b == 4 ==> Hex2(b) == "04"
    ensures b == 0x10 ==> Hex2(b) == "10"
    ensures b == 0xfa ==> Hex2(b) == "FA"
    ensures b == 0xff ==> Hex2(b) == "FF"
  {
  }

  /** The text of a data record's count, address and type. */
  lemma HeaderText(n: nat, s: nat)
    requires s < n
    ensures (if n - s < 0xf then Hex2(n - s) else "10") + Hex4(s % 0x10000) + "00" == HexBytes(DataHeader(n, s))
  {
    hide Hex2, Hex4, HexBytes;
    var h := DataHeader(n, s);
    AddressBytes(s);
    DivideUnique(s % 0x10000, 0x100, s % 0x10000 / 0x100, s % 0x100);
    HexFour(s % 0x10000);
    HexOf(0x10);
    HexOf(0);
    FourBytes(h[0], h[1], h[2], h[3]);
  }

  lemma FourBytes(a: byte, b: byte, c: byte, d: byte)
    ensures HexBytes([a, b, c, d]) == Hex2(a) + Hex2(b) + Hex2(c) + Hex2(d)
  {
    hide Hex2;
    HexFirst(a, [b, c, d]);
    HexFirst(b, [c, d]);
    HexFirst(c, [d]);
    OneByte(d);
    assert [a, b, c, d] == [a] + [b, c, d] && [b, c, d] == [b] + [c, d] && [c, d] == [c] + [d];
  }

  /** The text of an extended address record. */
  lemma AddressText(base: nat)
    requires base < 0x10000
    ensures "02000004" + Hex4(base) == HexBytes(ExtendedAddress(base))
  {
    hide Hex2, Hex4, HexBytes;
    var (a, b) := (base / 0x100, base % 0x100);
    FourBytes(2, 0, 0, 4);
    HexAppend([2, 0, 0, 4], [a, b]);
    HexAppend([a], [b]);
    OneByte(a);
    OneByte(b);
    HexFour(base);
    HexOf(2);
    HexOf(0);
    HexOf(4);
    assert [2, 0, 0, 4] + [a, b] == ExtendedAddress(base) && [a] + [b] == [a, b];
  }

  lemma EndText()
    ensures "00000001" == HexBytes(END_OF_FILE)
  {
    hide Hex2, HexBytes;
    FourBytes(0, 0, 0, 1);
    HexOf(0);
    HexOf(1);
  }

  /** A record as the writer finishes it: the checksum is taken from the text so far. */
  lemma RecordFrom(bytes: seq<byte>)
    ensures HexBytes(bytes) + Hex2(Complement(TextSum(HexBytes(bytes)))) + "\r\n" == RecordTail(bytes)
  {
    hide HexBytes, Hex2, TextSum, Sum;
    TextSumOfHex(bytes);
  }

  /** The bytes of a record and the checksum byte it ends with add up to a multiple of 256. */
  lemma RecordSumsToZero(bytes: seq<byte>) returns (checksum: byte)
    ensures Record(bytes) == ":" + HexBytes(bytes + [checksum]) + "\r\n"
    ensures Sum(bytes + [checksum]) % 0x100 == 0
  {
    hide HexBytes, Hex2, Sum, Complement;
    checksum := Complement(Sum(bytes));
    HexAppend(bytes, [checksum]);
    OneByte(checksum);
    SumAppend(bytes, [checksum]);
    SumOfOne(checksum);
    Complements(Sum(bytes), checksum);
  }

  lemma SumOfOne(b: byte)
    ensures Sum([b]) == b
  {
    assert [b][1..] == [];
  }

  lemma Complements(sum: nat, v: byte)
    ensures v == Complement(sum) <==> (sum + v) % 0x100 == 0
  {
  }

  /** The text of an image of one zero byte. */
  lemma OneByteFile()
    ensures Chunks([0], 0) == ":020000040000FA\r\n:0100000000FF\r\n:00000001FF\r\n"
  {
    hide Chunks, Record;
    OneByteRecords();
    AddressHex();
    DataHex();
    EndHex();
  }

  lemma OneByteRecords()
    ensures Chunks([0], 0) == Record([2, 0, 0, 4, 0, 0]) + Record([1, 0, 0, 0, 0]) + Record([0, 0, 0, 1])
  {
    hide Record;
    assert DataHeader(1, 0) + DataOf([0], 0) == [1, 0, 0, 0, 0] && ExtendedAddress(0) == [2, 0, 0, 4, 0, 0];
    assert Chunks([0], 16) == Record(END_OF_FILE);
  }

  lemma AddressHex()
    ensures Record([2, 0, 0, 4, 0, 0]) == ":020000040000FA\r\n"
  {
    hide HexBytes, Hex2, Sum;
    AddressDigits();
    AddressSum();
    HexOf(0xfa);
  }

  lemma AddressDigits()
    ensures HexBytes([2, 0, 0, 4, 0, 0]) == "020000040000"
  {
    hide HexBytes, Hex2;
    FourBytes(2, 0, 0, 4);
    TwoZeros();
    HexAppend([2, 0, 0, 4], [0, 0]);
    assert [2, 0, 0, 4] + [0, 0] == [2, 0, 0, 4, 0, 0];
    HexOf(2);
    HexOf(4);
    HexOf(0);
  }

  lemma AddressSum()
    ensures Sum([2, 0, 0, 4, 0, 0]) == 6
  {
    hide Sum;
    SumAppend([2, 0, 0, 4], [0, 0]);
    assert [2, 0, 0, 4] + [0, 0] == [2, 0, 0, 4, 0, 0];
    SumOfFour([2, 0, 0, 4]);
    SumOfTwo([0, 0]);
  }

  lemma TwoZeros()
    ensures HexBytes([0, 0]) == "0000"
  {
    hide HexBytes, Hex2;
    HexAppend([0], [0]);
    OneByte(0);
    HexOf(0);
    assert [0] + [0] == [0, 0];
  }

  lemma DataHex()
    ensures Record([1, 0, 0, 0, 0]) == ":0100000000FF\r\n"
  {
    hide HexBytes, Hex2;
    var b: seq<byte> := [1, 0, 0, 0, 0];
    FourBytes(1, 0, 0, 0);
    OneByte(0);
    HexAppend([1, 0, 0, 0], [0]);
    assert b == [1, 0, 0, 0] + [0] && b[..4] == [1, 0, 0, 0] && b[4..] == [0];
    HexOf(1);
    HexOf(0);
    SumInParts(b, 4);
    SumOfFour(b[..4]);
    SumOfOne(0);
    HexOf(0xff);
    assert HexBytes(b) == "0100000000" && Sum(b) == 1;
  }

  lemma EndHex()
    ensures Record([0, 0, 0, 1]) == ":00000001FF\r\n"
  {
    hide HexBytes, Hex2;
    FourBytes(0, 0, 0, 1);
    HexOf(0);
    HexOf(1);
    SumOfFour([0, 0, 0, 1]);
    HexOf(0xff);
  }

  /** The writer before byte i: the text so far, and the record under way. */
  ghost predicate WriterAt(data: seq<byte>, i: nat, text: string, buf: string) {
    && i <= |data| < WORD
    && (if i % 16 == 0 || i == |data| then text + Chunks(data, i) == Chunks(data, 0)
        else
          var s := i - i % 16;
          && text + RecordTail(DataHeader(|data|, s) + DataOf(data, s)) + Chunks(data, s + 16) == Chunks(data, 0)
          && buf == HexBytes(DataHeader(|data|, s) + data[s..i]))
  }

  lemma WriterBegins(data: seq<byte>)
    requires |data| < WORD
    ensures WriterAt(data, 0, "", "")
  {
    hide Chunks;
    assert "" + Chunks(data, 0) == Chunks(data, 0);
  }

  /** The start of a data record: the address record, if one is due, the colon and the header. */
  lemma RecordBegins(data: seq<byte>, i: nat, text: string, buf: string)
    requires i < |data| && i % 16 == 0 && WriterAt(data, i, text, buf)
    ensures text + AddressRecord(i) + ":" + RecordTail(DataHeader(|data|, i) + DataOf(data, i)) + Chunks(data, i + 16)
            == Chunks(data, 0)
  {
    hide RecordTail, AddressRecord, Chunks, DataHeader, DataOf;
    ChunksAt(data, i);
    Regroup(text, AddressRecord(i), RecordTail(DataHeader(|data|, i) + DataOf(data, i)), Chunks(data, i + 16));
  }

  lemma ChunksAt(data: seq<byte>, i: nat)
    requires i < |data| < WORD
    ensures Chunks(data, i)
            == AddressRecord(i) + (":" + RecordTail(DataHeader(|data|, i) + DataOf(data, i))) + Chunks(data, i + 16)
  {
    hide RecordTail, AddressRecord, DataHeader, DataOf;
  }

  lemma Regroup(a: string, b: string, c: string, d: string)
    ensures a + (b + (":" + c) + d) == a + b + ":" + c + d
  {
  }

  lemma BufferGrows(data: seq<byte>, i: nat, s: nat, buf: string)
    requires s <= i < |data| && buf == HexBytes(DataHeader(|data|, s) + data[s..i])
    ensures buf + Hex2(data[i]) == HexBytes(DataHeader(|data|, s) + data[s..i + 1])
  {
    hide Hex2, HexBytes, DataHeader;
    var head := DataHeader(|data|, s);
    HexAppend(head + data[s..i], [data[i]]);
    OneByte(data[i]);
    assert head + data[s..i] + [data[i]] == head + data[s..i + 1];
  }

  lemma RecordCompleted(text: string, bytes: seq<byte>, rest: string)
    ensures text + HexBytes(bytes) + Hex2(Complement(TextSum(HexBytes(bytes)))) + "\r\n" + rest
            == text + RecordTail(bytes) + rest
  {
    hide Hex2, HexBytes, TextSum, RecordTail, Complement;
    RecordFrom(bytes);
    Joined(text, HexBytes(bytes), Hex2(Complement(TextSum(HexBytes(bytes)))), "\r\n");
  }

  lemma Joined(a: string, b: string, c: string, d: string)
    ensures a + b + c + d == a + (b + c + d)
  {
  }

  /** One byte into the record that started at s; its last byte completes it. */
  lemma ByteWritten(data: seq<byte>, i: nat, s: nat, text: string, buf: string)
    requires i < |data| < WORD && s == i - i % 16
    requires text + RecordTail(DataHeader(|data|, s) + DataOf(data, s)) + Chunks(data, s + 16) == Chunks(data, 0)
    requires buf == HexBytes(DataHeader(|data|, s) + data[s..i])
    ensures var buf' := buf + Hex2(data[i]);
      if i % 16 == 15 || i == |data| - 1 then
        WriterAt(data, i + 1, text + buf' + Hex2(Complement(TextSum(buf'))) + "\r\n", buf')
      else WriterAt(data, i + 1, text, buf')
  {
    hide RecordTail, Chunks, Hex2, HexBytes, TextSum, DataHeader, Complement;
    BufferGrows(data, i, s, buf);
    if i % 16 == 15 || i == |data| - 1 {
      LastChunks(data, i, s);
      RecordCompleted(text, DataHeader(|data|, s) + DataOf(data, s), Chunks(data, s + 16));
    } else {
      SameRecord(i);
    }
  }

  lemma SameRecord(i: nat)
    requires i % 16 != 15
    ensures (i + 1) % 16 == i % 16 + 1
  {
  }

  lemma LastChunks(data: seq<byte>, i: nat, s: nat)
    requires i < |data| < WORD && s == i - i % 16 && (i % 16 == 15 || i == |data| - 1)
    ensures Chunks(data, s + 16) == Chunks(data, i + 1) && DataOf(data, s) == data[s..i + 1]
    ensures i % 16 == 15 ==> (i + 1) % 16 == 0
  {
    hide Record, AddressRecord, DataHeader;
  }

  lemma WriterEnds(data: seq<byte>, text: string, buf: string)
    requires WriterAt(data, |data|, text, buf)
    ensures text + ":" + RecordTail(END_OF_FILE) == Chunks(data, 0)
  {
    hide RecordTail;
    assert text + ":" + RecordTail(END_OF_FILE) == text + (":" + RecordTail(END_OF_FILE));
  }
}
