/** NOR cells: programming clears bits, only an erase sets them. */
module Flash {
  import opened Bits

  const BLANK: byte := 0xff

  function BothBits(a: byte, b: byte): BitString {
    seq(8, k requires 0 <= k < 8 => Bit(a, k) && Bit(b, k))
  }

  /** A cell after data has been programmed into it. */
  function Burn(was: byte, data: byte): (r: byte) {
    SmallNumber(BothBits(was, data));
    NumberOf(BothBits(was, data))
  }

  /** A bit survives only where the data keeps it. */
  lemma BurnBits(was: byte, data: byte, k: nat)
    requires k < 8
    ensures Bit(Burn(was, data), k) == (Bit(was, k) && Bit(data, k))
  {
    NumberBits(BothBits(was, data), k);
  }

  lemma SameByte(a: byte, b: byte)
    requires forall k: nat :: k < 8 ==> Bit(a, k) == Bit(b, k)
    ensures a == b
  {
    assert Exp2(8) == 256;
    SameBits(a, b, 8);
  }

  /** An erased cell takes the data. */
  lemma BurnErased(data: byte)
    ensures Burn(BLANK, data) == data
  {
    hide Bit, Burn;
    forall k: nat | k < 8
      ensures Bit(Burn(BLANK, data), k) == Bit(data, k)
    {
      BurnBits(BLANK, data, k);
      AllBits(true, k);
    }
    SameByte(Burn(BLANK, data), data);
  }

  /** Blank data changes nothing. */
  lemma BurnBlank(was: byte)
    ensures Burn(was, BLANK) == was
  {
    hide Bit, Burn;
    forall k: nat | k < 8
      ensures Bit(Burn(was, BLANK), k) == Bit(was, k)
    {
      BurnBits(was, BLANK, k);
      AllBits(true, k);
    }
    SameByte(Burn(was, BLANK), was);
  }

  /** Cells programmed side by side. */
  function BurnAll(was: seq<byte>, data: seq<byte>): (r: seq<byte>)
    requires |was| == |data|
    ensures |r| == |was|
  {
    seq(|was|, i requires 0 <= i < |was| => Burn(was[i], data[i]))
  }

  lemma BurnAllErased(was: seq<byte>, data: seq<byte>)
    requires |was| == |data| && forall i :: 0 <= i < |was| ==> was[i] == BLANK
    ensures BurnAll(was, data) == data
  {
    hide Burn;
    forall i | 0 <= i < |was|
      ensures BurnAll(was, data)[i] == data[i]
    {
      BurnErased(data[i]);
    }
  }

  /** Blank data side by side changes nothing. */
  lemma BurnAllBlank(was: seq<byte>)
    ensures BurnAll(was, Repeat<byte>(BLANK, |was|)) == was
  {
    hide Burn;
    forall i | 0 <= i < |was|
      ensures BurnAll(was, Repeat<byte>(BLANK, |was|))[i] == was[i]
    {
      BurnBlank(was[i]);
    }
  }

  lemma BurnAllAppend(a: seq<byte>, b: seq<byte>, x: seq<byte>, y: seq<byte>)
    requires |a| == |x| && |b| == |y|
    ensures BurnAll(a + b, x + y) == BurnAll(a, x) + BurnAll(b, y)
  {
    hide Burn;
  }
}
