/** Numbers as printf and scanf write and read them. */
module HexText {
  import opened Bits

  predicate IsDigit(ch: char) {
    '0' <= ch <= '9'
  }

  function DigitValue(ch: char): nat
    requires IsDigit(ch)
  {
    (ch as int) - ('0' as int)
  }

  function Digit(d: nat): char
    requires d < 10
  {
    ('0' as int + d) as char
  }

  function HexDigit(d: nat): char
    requires d < 16
  {
    if d < 10 then Digit(d) else ('7' as int + d) as char
  }

  /** The output of `%04X` for a 16-bit number. */
  function Hex4(n: nat): string
    requires n < 0x10000
  {
    [HexDigit(n / 0x1000), HexDigit(n / 0x100 % 16), HexDigit(n / 0x10 % 16), HexDigit(n % 16)]
  }

  /** The output of `%02X` for a byte. */
  function Hex2(b: byte): string {
    [HexDigit(b / 16), HexDigit(b % 16)]
  }

  /** The value of a hexadecimal digit, in either case, or -1. */
  function HexValueOf(ch: char): (r: int)
    ensures -1 <= r < 16
  {
    if IsDigit(ch) then DigitValue(ch)
    else if 'A' <= ch <= 'F' then ch as int - '7' as int
    else if 'a' <= ch <= 'f' then ch as int - 'W' as int
    else -1
  }

  lemma HexDigitValue(d: nat)
    requires d < 16
    ensures HexValueOf(HexDigit(d)) == d && HexDigit(d) != '\n'
  {
  }

  /** Both cases of a digit are read, and nothing else. */
  lemma HexDigitsRead(ch: char, d: nat)
    requires d < 16
    ensures HexValueOf(ch) == d <==> ch == "0123456789ABCDEF"[d] || ch == "0123456789abcdef"[d]
  {
  }
}
