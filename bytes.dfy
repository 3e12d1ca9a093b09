/** Bytes on the wire, ASCII text, and the decimal text of integers. */
module Bytes {

  /** One octet, as `socket.recv(1)` returns it. */
  newtype Byte = b: int | 0 <= b < 256

  /** The frame delimiter of the Line-us protocol. */
  const Nul: Byte := 0

  predicate IsAscii(s: string) {
    forall i :: 0 <= i < |s| ==> s[i] as int < 128
  }

  predicate AsciiBytes(b: seq<Byte>) {
    forall i :: 0 <= i < |b| ==> b[i] < 128
  }

  /** `str.encode()` of an ASCII string: one byte per character, same code. */
  function Encode(s: string): (r: seq<Byte>)
    requires IsAscii(s)
  {
    seq(|s|, i requires 0 <= i < |s| => s[i] as int as Byte)
  }

  /** `bytes.decode('utf-8')` of ASCII bytes: one character per byte, same code. */
  function Decode(b: seq<Byte>): (r: string)
    requires AsciiBytes(b)
  {
    seq(|b|, i requires 0 <= i < |b| => b[i] as int as char)
  }

  lemma EncodeDecode(s: string)
    requires IsAscii(s)
    ensures AsciiBytes(Encode(s)) && Decode(Encode(s)) == s
  {
  }

  lemma DecodeEncode(b: seq<Byte>)
    requires AsciiBytes(b)
    ensures IsAscii(Decode(b)) && Encode(Decode(b)) == b
  {
  }

  lemma EncodeConcat(s: string, t: string)
    requires IsAscii(s) && IsAscii(t)
    ensures IsAscii(s + t) && Encode(s + t) == Encode(s) + Encode(t)
  {
  }

  /** An ASCII string never encodes to a NUL byte unless it holds the NUL character. */
  lemma EncodeNulFree(s: string)
    requires IsAscii(s) && '\0' !in s
    ensures Nul !in Encode(s)
  {
  }

  /** The decimal digit character for `d`. */
  function DigitChar(d: nat): (c: char)
    requires d < 10
    ensures '0' <= c <= '9' && c as int - '0' as int == d
  {
    (48 + d) as char
  }

  /** `str(n)` for a natural number: its decimal digits, most significant first. */
  function NatToString(n: nat): (r: string)
    ensures 1 <= |r|
    ensures forall i :: 0 <= i < |r| ==> '0' <= r[i] <= '9'
    decreases n
  {
    if n < 10 then [DigitChar(n)] else NatToString(n / 10) + [DigitChar(n % 10)]
  }

  /** `str(i)` for an integer: a leading minus sign for negative values. */
  function IntToString(i: int): (r: string)
    ensures r != []
    ensures forall k :: 0 <= k < |r| ==> r[k] == '-' || '0' <= r[k] <= '9'
  {
    if i < 0 then "-" + NatToString(-i) else NatToString(i)
  }
}
