/** Text as bytes: UTF-8. */
module Texts {
  import opened Protocol

  /** UTF-8. */
  function Utf8Char(c: char): (b: bytes)
    ensures 1 <= |b| <= 4
  {
    var v := c as int;
    if v < 0x80 then [v]
    else if v < 0x800 then [0xC0 + v / 64, 0x80 + v % 64]
    else if v < 0x1_0000 then [0xE0 + v / 4096, 0x80 + v / 64 % 64, 0x80 + v % 64]
    else [0xF0 + v / 262144, 0x80 + v / 4096 % 64, 0x80 + v / 64 % 64, 0x80 + v % 64]
  }

  function Utf8(s: string): bytes {
    if s == "" then [] else Utf8Char(s[0]) + Utf8(s[1..])
  }

  /** The length and the value of the first character of an encoded text. */
  function FirstLength(b: bytes): nat {
    if b == [] then 0 else if b[0] < 0xC0 then 1 else if b[0] < 0xE0 then 2 else if b[0] < 0xF0 then 3 else 4
  }

  function Above(x: int, base: int): int { x - base }

  function FirstValue(b: bytes): int
    requires FirstLength(b) <= |b|
  {
    match FirstLength(b)
    case 0 => 0
    case 1 => b[0]
    case 2 => Above(b[0], 0xC0) * 64 + Above(b[1], 0x80)
    case 3 => Above(b[0], 0xE0) * 4096 + Above(b[1], 0x80) * 64 + Above(b[2], 0x80)
    case _ => Above(b[0], 0xF0) * 262144 + Above(b[1], 0x80) * 4096 + Above(b[2], 0x80) * 64 + Above(b[3], 0x80)
  }

  /** An encoded character can be read off the front, whatever follows it. */
  lemma FirstReadsBack(c: char, rest: bytes)
    ensures FirstLength(Utf8Char(c) + rest) == |Utf8Char(c)|
    ensures FirstValue(Utf8Char(c) + rest) == c as int
  {
    var v := c as int;
    assert v / 64 / 64 == v / 4096 && v / 4096 / 64 == v / 262144;
    assert v == v / 64 * 64 + v % 64;
    assert v / 64 == v / 4096 * 64 + v / 64 % 64;
    assert v / 4096 == v / 262144 * 64 + v / 4096 % 64;
  }

  lemma {:induction false} Utf8Injective(s: string, t: string)
    requires Utf8(s) == Utf8(t)
    ensures s == t
  {
    if s != "" && t != "" {
      FirstReadsBack(s[0], Utf8(s[1..]));
      FirstReadsBack(t[0], Utf8(t[1..]));
      assert Utf8(s)[|Utf8Char(s[0])|..] == Utf8(s[1..]);
      assert Utf8(t)[|Utf8Char(t[0])|..] == Utf8(t[1..]);
      Utf8Injective(s[1..], t[1..]);
      assert s == [s[0]] + s[1..] && t == [t[0]] + t[1..];
    }
  }

  /** One character of each length, byte by byte. */
  lemma Utf8Examples()
    ensures Utf8("A") == [0x41]
    ensures Utf8("\U{E9}") == [0xC3, 0xA9]
    ensures Utf8("\U{20AC}") == [0xE2, 0x82, 0xAC]
    ensures Utf8("\U{1F600}") == [0xF0, 0x9F, 0x98, 0x80]
  {
  }
}
