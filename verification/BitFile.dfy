/** bitfile.cpp: the byte image that is programmed, read back and converted, and its limits. */
module BitFiles {
  import opened Bits
  import opened Flash
  import opened Pages
  import opened HexText
  import opened Mcs

  /** The largest image whose length in bits fits. */
  const MAX_BYTES: nat := 0x2000_0000

  class BitFile {
    var buffer: array<byte>
    var length: nat

    /** Where the requested operation starts, and its length in bytes, or 0 for all there is. */
    var offset: nat
    var rlength: nat

    predicate Valid()
      reads this
    {
      length <= buffer.Length && length < WORD && offset < WORD && rlength < WORD
    }

    /** The image. */
    ghost function Data(): (r: seq<byte>)
      reads this, buffer
      requires Valid()
      ensures |r| == length
    {
      buffer[..length]
    }

    constructor ()
      ensures Valid() && fresh(buffer) && Data() == [] && offset == rlength == 0
    {
      buffer := new byte[0];
      length, offset, rlength := 0, 0, 0;
    }

    /** The length in bits, in 32 bits. */
    function GetLength(): (r: nat)
      reads this
    {
      length * 8 % WORD
    }

    /** Room for so many bits, all of them set. */
    method SetLength(size: nat)
      requires Valid() && size < WORD
      modifies this`buffer, this`length
      ensures Valid() && fresh(buffer)
      ensures Data() == Repeat<byte>(BLANK, BytesFor(size))
    {
      length := size / 8 + (if size % 8 != 0 then 1 else 0);
      buffer := new byte[length](_ => 0xff);
    }

    /** `memcpy` out of the image. */
    method Load(at: nat, n: nat) returns (part: seq<byte>)
      requires Valid() && at + n <= length
      ensures part == Data()[at..at + n]
    {
      part := buffer[at..at + n];
    }

    /** `memcpy` into the image. */
    method Store(at: nat, part: seq<byte>)
      requires Valid() && at + |part| <= length
      modifies buffer
      ensures Data() == Overwrite(old(Data()), at, part)
    {
      forall k | 0 <= k < |part| {
        buffer[at + k] := part[k];
      }
    }

    // ---- Single bits ----

    /** Sets one bit; outside the image it is an exception. */
    method SetBit(idx: nat, blow: bool) returns (ok: bool)
      requires Valid()
      modifies buffer
      ensures Valid() && ok == (idx / 8 < length)
      ensures Data() == if ok then old(Data())[idx / 8 := SetByteBit(old(Data())[idx / 8], idx % 8, blow)]
                        else old(Data())
    {
      hide Bits.SetBit;
      ok := idx / 8 < length;
      if ok {
        ghost var was := buffer[..];
        buffer[idx / 8] := SetByteBit(buffer[idx / 8], idx % 8, blow);
        assert buffer[..] == was[idx / 8 := SetByteBit(was[idx / 8], idx % 8, blow)];
      }
    }

    method GetBit(idx: nat) returns (ok: bool, v: bool)
      requires Valid()
      ensures ok == (idx / 8 < length)
      ensures ok ==> v == BitAt(Data(), idx)
    {
      ok := idx / 8 < length;
      v := ok && Bit(buffer[idx / 8], idx % 8);
    }

    // ---- Writing ----

    /** The length without trailing 0xff bytes. */
    method Clip() returns (clip: nat)
      requires Valid() && length > 0
      ensures clip == ClippedLength(Data())
    {
      clip := length - 1;
      ghost var data := Data();
      assert data[..length] == data;
      while buffer[clip] == 0xff && clip > 0
        invariant clip < length && ClippedLength(data[..clip + 1]) == ClippedLength(data)
      {
        assert data[..clip + 1][..clip] == data[..clip];
        clip := clip - 1;
      }
      assert data[..clip + 1][clip] == data[clip];
      clip := clip + 1;
    }

    /** Saves the image in hexadecimal; without an explicit length trailing 0xff bytes are left out. */
    method SaveAs(style: Style) returns (text: string, clip: nat)
      requires Valid() && rlength <= length
      ensures length == 0 ==> text == "" && clip == 0
      ensures length > 0 ==>
        && clip == (if rlength != 0 then rlength else ClippedLength(Data()))
        && text == Chunks(Converted(style, Data()[..clip]), 0)
    {
      hide Chunks, ClippedLength, Reverse;
      if length == 0 {
        return "", 0;
      }
      clip := Clip();
      if rlength != 0 {
        clip := rlength;
      }
      text := WriteRecords(style, clip);
    }

    /** The records of the first clip bytes. */
    method WriteRecords(style: Style, clip: nat) returns (text: string)
      requires Valid() && clip <= length
      ensures text == Chunks(Converted(style, Data()[..clip]), 0)
    {
      hide Chunks, Reverse, WriterAt, RecordTail, AddressRecord, Hex2, Hex4, TextSum, Complement, DataHeader;
      ghost var data := Converted(style, Data()[..clip]);
      var base, buf := WORD - 1, "";
      text := "";
      WriterBegins(data);
      for i := 0 to clip
        invariant base == if i == 0 then WORD - 1 else (i - 1) / 0x10000
        invariant WriterAt(data, i, text, buf)
      {
        var b := if style == MCS then Reverse(buffer[i]) else buffer[i];
        assert b == data[i];
        ghost var before := text;
        BaseChanges(i, base);
        if base != i / 0x10000 {
          base := i / 0x10000;
          var address := TextRecord("02000004" + Hex4(base));
          AddressPrinted(i, base);
          text := text + address;
        }
        ghost var s := i - i % 16;
        if i % 16 == 0 {
          NothingPrinted(i, before);
          assert text == before + AddressRecord(i);
          RecordBegins(data, i, before, buf);
          HeaderText(clip, i);
          HeaderAlone(data, i);
          text := text + ":";
          buf := (if clip - i < 0xf then Hex2(clip - i) else "10") + Hex4(i % 0x10000) + "00";
        } else {
          RecordUnderWay(data, i, s, text, buf);
        }
        ByteWritten(data, i, s, text, buf);
        buf := buf + Hex2(b);
        if i % 16 == 15 || i == clip - 1 {
          text := text + buf + Hex2(Complement(TextSum(buf))) + "\r\n";
        }
      }
      WriterEnds(data, text, buf);
      EndText();
      RecordFrom(END_OF_FILE);
      text := text + ":" + ("00000001" + Hex2(Complement(TextSum("00000001"))) + "\r\n");
    }

    /** A colon, the text of a record and its checksum. */
    method TextRecord(body: string) returns (text: string)
      ensures text == ":" + (body + Hex2(Complement(TextSum(body))) + "\r\n")
    {
      text := ":" + (body + Hex2(Complement(TextSum(body))) + "\r\n");
    }

    // ---- Reading ----

    /** The data bytes of a record into the buffer, with their checksum. */
    method StoreData(line: string, count: nat, sum: nat, full: nat)
        returns (r: Outcome, next: nat, rest: string, total: nat)
      modifies buffer
      ensures TakenBytes(Reader(next, buffer[..], length, r), total, rest)
              == Take(Reader(full, old(buffer[..]), length, Running), line, count, sum)
    {
      hide PairOf;
      rest, total, next, r := line, sum, full, Running;
      var left := count;
      ghost var goal := Take(Reader(full, buffer[..], length, Running), line, count, sum);
      while left > 0
        invariant 0 <= left <= count
        invariant Take(Reader(next, buffer[..], length, Running), rest, left, total) == goal
      {
        var p := PairOf(rest);
        if p.None? {
          r := Irregular;
          return;
        }
        if next >= buffer.Length {
          r := Overrun;
          return;
        }
        ghost var was := buffer[..];
        buffer[next] := p.value;
        assert buffer[..] == was[next := p.value];
        total := total + p.value;
        rest := p.rest;
        next := (next + 1) % WORD;
        left := left - 1;
      }
    }

    /** One record. */
    method ReadLine(line: string, full: nat) returns (r: Outcome, next: nat)
      modifies this`length, buffer
      ensures Reader(next, buffer[..], length, r)
              == ReadRecord(Reader(full, old(buffer[..]), old(length), Running), line)
    {
      hide PairOf, Take;
      next := full;
      if line == "" || line[0] != ':' {
        return Code(1), next;
      }
      var count, high, low, kind, rest := None, None, None, None, line[1..];
      count := PairOf(rest);
      if count.Some? {
        high := PairOf(count.rest);
      }
      if high.Some? {
        low := PairOf(high.rest);
      }
      if low.Some? {
        kind := PairOf(low.rest);
      }
      if kind.None? {
        return Irregular, next;
      }
      var upper: nat := high.value;
      var address, sum := upper * 0x100 + low.value, count.value + upper + low.value + kind.value;
      rest := kind.rest;
      match kind.value {
        case 0 =>
          if next % 0x10000 != address {
            next := next / 0x10000 * 0x10000 + address;
          }
          r, next, rest, sum := StoreData(rest, count.value, sum, next);
          if r == Running {
            r := Verdict(rest, sum);
          }
        case 1 =>
          length := next;
          r := Code(0);
        case 4 =>
          high := PairOf(rest);
          if high.None? {
            return Irregular, next;
          }
          low := PairOf(high.rest);
          if low.None? {
            return Irregular, next;
          }
          upper := high.value * 0x100 + low.value;
          if next / 0x10000 != upper {
            next := next % 0x10000 + upper * 0x10000;
          }
          r := Verdict(low.rest, sum + high.value + low.value);
        case _ =>
          r := if kind.value == 2 || kind.value == 3 || kind.value == 5 then Irregular else Code(2);
      }
    }

    /** Whether a record goes on to the next one after its checksum. */
    method Verdict(rest: string, sum: nat) returns (r: Outcome)
      ensures forall q: Reader :: q.outcome == Running ==> Check(q, rest, sum) == q.(outcome := r)
    {
      hide PairOf;
      var p := PairOf(rest);
      r := if p.None? then Irregular else if p.value == Complement(sum) then Running else Code(3);
    }

    /** Reads records into a buffer half as long as the text; initially it holds anything. */
    method ReadMcsFile(text: string) returns (r: Outcome, ghost initial: seq<byte>)
      modifies this`buffer, this`length
      ensures fresh(buffer) && |initial| == buffer.Length == BufferSize(text)
      ensures Reader(length, buffer[..], length, r)
              == ReadText(Reader(0, initial, |initial|, Running), text).(full := length)
    {
      hide ReadRecord;
      length := |text| / 2 % WORD;
      buffer := new byte[length];
      initial := buffer[..];
      var full, rest := 0, text;
      r := Running;
      ghost var goal := ReadText(Reader(0, initial, |initial|, Running), text);
      while r == Running && rest != ""
        invariant fresh(buffer) && |initial| == buffer.Length == BufferSize(text)
        invariant ReadText(Reader(full, buffer[..], length, r), rest) == goal
        decreases |rest|
      {
        var n := LineLength(rest, 0);
        r, full := ReadLine(rest[..n], full);
        rest := rest[n..];
      }
      if r == Running {
        r := Code(4);
      }
    }

    /** Reads a file of either style; MCS files have their bits in the other order. */
    method ReadFile(text: string, style: Style) returns (r: Outcome, ghost initial: seq<byte>)
      requires Valid()
      modifies this`buffer, this`length
      ensures |initial| == BufferSize(text)
      ensures var q := ReadText(Reader(0, initial, |initial|, Running), text);
        && r == (if q.outcome == Code(0) && style == MCS && q.length > |q.buffer| then Overrun else q.outcome)
        && (r == Code(0) && q.length <= |q.buffer| ==>
              length <= buffer.Length && buffer[..length] == Converted(style, q.buffer[..q.length]))
    {
      hide ReadText, Reverse;
      r, initial := ReadMcsFile(text);
      if r == Code(0) && style == MCS {
        if length > buffer.Length {
          return Overrun, initial;
        }
        ghost var was, n := buffer[..], length;
        for i := 0 to length
          invariant fresh(buffer) && n == length <= buffer.Length == |was|
          invariant forall k :: 0 <= k < i ==> buffer[k] == Reverse(was[k])
          invariant forall k :: i <= k < |was| ==> buffer[k] == was[k]
        {
          buffer[i] := Reverse(buffer[i]);
        }
        assert buffer[..n] == Converted(style, was[..n]);
      }
    }
  }

  /** The upper half of the address changes exactly at the 64 KiB boundaries. */
  lemma BaseChanges(i: nat, base: nat)
    requires i < WORD && base == if i == 0 then WORD - 1 else (i - 1) / 0x10000
    ensures base != i / 0x10000 <==> i % 0x10000 == 0
    ensures base == i / 0x10000 ==> i % 0x10000 != 0
  {
    var (q, r) := (i / 0x10000, i % 0x10000);
    if i > 0 {
      if r == 0 {
        DivideUnique(i - 1, 0x10000, q - 1, 0xffff);
      } else {
        DivideUnique(i - 1, 0x10000, q, r - 1);
      }
    }
  }

  lemma AddressPrinted(i: nat, base: nat)
    requires i < WORD && i % 0x10000 == 0 && base == i / 0x10000
    ensures ":" + ("02000004" + Hex4(base) + Hex2(Complement(TextSum("02000004" + Hex4(base)))) + "\r\n")
            == AddressRecord(i)
    ensures i % 16 == 0
  {
    hide Hex2, Hex4, TextSum, Complement, RecordTail;
    AddressText(base);
    RecordFrom(ExtendedAddress(base));
  }

  lemma NothingPrinted(i: nat, text: string)
    requires i < WORD
    ensures i % 0x10000 != 0 ==> text + AddressRecord(i) == text
  {
    assert text + "" == text;
  }

  lemma HeaderAlone(data: seq<byte>, i: nat)
    requires i < |data|
    ensures DataHeader(|data|, i) + data[i..i] == DataHeader(|data|, i)
  {
  }

  lemma RecordUnderWay(data: seq<byte>, i: nat, s: nat, text: string, buf: string)
    requires i < |data| < WORD && i % 16 != 0 && s == i - i % 16 && WriterAt(data, i, text, buf)
    ensures text + RecordTail(DataHeader(|data|, s) + DataOf(data, s)) + Chunks(data, s + 16) == Chunks(data, 0)
    ensures buf == HexBytes(DataHeader(|data|, s) + data[s..i])
  {
    hide RecordTail, Chunks, HexBytes, DataHeader, DataOf;
  }
}
