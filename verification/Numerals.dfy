/** Positional numerals: fixed-width big-endian bytes, decimal text and hexadecimal text. */
module Numerals {
  import opened Protocol

  function Pow(base: nat, exponent: nat): nat {
    if exponent == 0 then 1 else base * Pow(base, exponent - 1)
  }

  // ----- big-endian bytes -----

  function BigEndian(v: nat, width: nat): (r: bytes)
    ensures |r| == width
  {
    if width == 0 then [] else BigEndian(v / 256, width - 1) + [v % 256]
  }

  function FromBigEndian(b: bytes): nat {
    if b == [] then 0 else FromBigEndian(b[..|b| - 1]) * 256 + b[|b| - 1]
  }

  lemma {:induction false} BigEndianReadsBack(v: nat, width: nat)
    requires v < Pow(256, width)
    ensures FromBigEndian(BigEndian(v, width)) == v
  {
    if width > 0 {
      var front := BigEndian(v / 256, width - 1);
      BigEndianReadsBack(v / 256, width - 1);
      assert (front + [v % 256])[..width - 1] == front;
    }
  }

  lemma {:induction false} BigEndianPrintsBack(b: bytes)
    ensures FromBigEndian(b) < Pow(256, |b|)
    ensures BigEndian(FromBigEndian(b), |b|) == b
  {
    if b != [] {
      var front := b[..|b| - 1];
      BigEndianPrintsBack(front);
      assert FromBigEndian(b) / 256 == FromBigEndian(front);
      assert b == front + [b[|b| - 1]];
    }
  }

  /** The value of bytes from position `i` on: byte `i` of `n` weighs 256^(n - 1 - i). */
  function Weighed(b: bytes, i: nat): nat
    requires i <= |b|
    decreases |b| - i
  {
    if i == |b| then 0 else b[i] * Pow(256, |b| - 1 - i) + Weighed(b, i + 1)
  }

  lemma {:induction false} WeighedAppend(b: bytes, last: byte, i: nat)
    requires i <= |b|
    ensures Weighed(b + [last], i) == Weighed(b, i) * 256 + last
    decreases |b| - i
  {
    var c := b + [last];
    if i == |b| {
      assert Pow(256, 0) == 1 && Weighed(c, i + 1) == 0;
    } else {
      WeighedAppend(b, last, i + 1);
      var p := Pow(256, |b| - 1 - i);
      assert Pow(256, |c| - 1 - i) == 256 * p;
      assert b[i] * (256 * p) == b[i] * p * 256;
    }
  }

  /** Reading big-endian bytes weighs every byte by its position. */
  lemma {:induction false} FromBigEndianWeighs(b: bytes)
    ensures FromBigEndian(b) == Weighed(b, 0)
  {
    if b != [] {
      var front := b[..|b| - 1];
      FromBigEndianWeighs(front);
      WeighedAppend(front, b[|b| - 1], 0);
      assert b == front + [b[|b| - 1]];
    }
  }

  // ----- decimal text -----

  predicate IsDigit(c: char) { '0' <= c <= '9' }

  function Digit(d: int): (c: char)
    requires 0 <= d < 10
    ensures IsDigit(c)
  {
    (48 + d) as char
  }

  predicate AllDigits(s: string) { forall i :: 0 <= i < |s| ==> IsDigit(s[i]) }

  /** The decimal digits of a natural number, without leading zeros. */
  function Digits(n: nat): (s: string)
    ensures |s| > 0 && AllDigits(s)
  {
    if n < 10 then [Digit(n)] else Digits(n / 10) + [Digit(n % 10)]
  }

  /** The value of a digit string. */
  function ReadDigits(s: string): nat
    requires AllDigits(s)
  {
    if s == [] then 0 else ReadDigits(s[..|s| - 1]) * 10 + (s[|s| - 1] as int - 48)
  }

  lemma {:induction false} DigitsReadBack(n: nat)
    ensures ReadDigits(Digits(n)) == n
  {
    if n >= 10 {
      DigitsReadBack(n / 10);
      assert (Digits(n / 10) + [Digit(n % 10)])[..|Digits(n / 10)|] == Digits(n / 10);
    } else {
      assert [Digit(n)][..0] == [];
    }
  }

  lemma {:induction false} DigitsFit(n: nat, width: nat)
    requires 0 < width && n < Pow(10, width)
    ensures |Digits(n)| <= width
  {
    if n >= 10 {
      assert Pow(10, 1) == 10;
      DigitsFit(n / 10, width - 1);
    }
  }

  function Zeros(k: nat): (s: string)
    ensures |s| == k && AllDigits(s)
  {
    seq(k, _ => '0')
  }

  lemma {:induction false} LeadingZerosVanish(k: nat, s: string)
    requires AllDigits(s)
    ensures AllDigits(Zeros(k) + s)
    ensures ReadDigits(Zeros(k) + s) == ReadDigits(s)
  {
    var t := Zeros(k) + s;
    if s != [] {
      LeadingZerosVanish(k, s[..|s| - 1]);
      assert t[..|t| - 1] == Zeros(k) + s[..|s| - 1];
    } else if k > 0 {
      LeadingZerosVanish(k - 1, s);
      assert t[..|t| - 1] == Zeros(k - 1) + s;
    }
  }

  /** The value of digits from position `i` on: digit `i` of `n` weighs 10^(n - 1 - i). */
  function WeighedDigits(s: string, i: nat): nat
    requires AllDigits(s) && i <= |s|
    decreases |s| - i
  {
    if i == |s| then 0 else (s[i] as int - 48) * Pow(10, |s| - 1 - i) + WeighedDigits(s, i + 1)
  }

  lemma {:induction false} WeighedDigitsAppend(s: string, last: char, i: nat)
    requires AllDigits(s) && IsDigit(last) && i <= |s|
    ensures WeighedDigits(s + [last], i) == WeighedDigits(s, i) * 10 + (last as int - 48)
    decreases |s| - i
  {
    var t := s + [last];
    if i == |s| {
      assert Pow(10, 0) == 1 && WeighedDigits(t, i + 1) == 0;
    } else {
      WeighedDigitsAppend(s, last, i + 1);
      var p, d := Pow(10, |s| - 1 - i), s[i] as int - 48;
      assert Pow(10, |t| - 1 - i) == 10 * p;
      assert d * (10 * p) == d * p * 10;
    }
  }

  /** Reading digits weighs every digit by its position. */
  lemma {:induction false} ReadDigitsWeighs(s: string)
    requires AllDigits(s)
    ensures ReadDigits(s) == WeighedDigits(s, 0)
  {
    if s != "" {
      var front := s[..|s| - 1];
      ReadDigitsWeighs(front);
      WeighedDigitsAppend(front, s[|s| - 1], 0);
      assert s == front + [s[|s| - 1]];
    }
  }

  lemma {:induction false} NoLeadingZero(n: nat)
    ensures n == 0 || Digits(n)[0] != '0'
  {
    if n >= 10 { NoLeadingZero(n / 10); }
  }

  /** The text of an integer, with a minus sign when it is negative. */
  function Decimal(n: int): (s: string)
    ensures '\n' !in s
  {
    if n < 0 then "-" + Digits(-n) else Digits(n)
  }

  /** The decimal text is a sign if needed and digits of the right value by position, with no zero in front. */
  lemma DecimalText(n: int)
    ensures var digits := if n < 0 then Decimal(n)[1..] else Decimal(n);
            && (n < 0 ==> Decimal(n)[0] == '-')
            && AllDigits(digits) && |digits| > 0 && (|digits| > 1 ==> digits[0] != '0')
            && WeighedDigits(digits, 0) == if n < 0 then -n else n
  {
    var v := if n < 0 then -n else n;
    assert n < 0 ==> Decimal(n)[1..] == Digits(-n);
    DigitsReadBack(v);
    ReadDigitsWeighs(Digits(v));
    NoLeadingZero(v);
  }

  lemma DecimalInjective(a: int, b: int)
    requires Decimal(a) == Decimal(b)
    ensures a == b
  {
    assert a < 0 ==> Decimal(a)[0] == '-' && Decimal(a)[1..] == Digits(-a);
    assert b < 0 ==> Decimal(b)[0] == '-' && Decimal(b)[1..] == Digits(-b);
    DigitsReadBack(if a < 0 then -a else a);
    DigitsReadBack(if b < 0 then -b else b);
  }

  // ----- hexadecimal text -----

  function HexDigit(d: int): (c: char)
    requires 0 <= d < 16
    ensures c != '\n'
  {
    if d < 10 then (48 + d) as char else (87 + d) as char
  }

  function Hex(b: bytes): (s: string)
    ensures |s| == 2 * |b|
    ensures '\n' !in s
  {
    if b == [] then "" else [HexDigit(b[0] / 16), HexDigit(b[0] % 16)] + Hex(b[1..])
  }

  lemma HexDigitAt(d: nat)
    requires d < 16
    ensures HexDigit(d) == "0123456789abcdef"[d]
  {
  }

  /** Byte `i` is shown at positions `2 * i` and `2 * i + 1`, high half first. */
  lemma {:induction false} HexAt(b: bytes, i: nat)
    requires i < |b|
    ensures Hex(b)[2 * i] == "0123456789abcdef"[b[i] / 16]
    ensures Hex(b)[2 * i + 1] == "0123456789abcdef"[b[i] % 16]
  {
    if i == 0 {
      HexDigitAt(b[0] / 16);
      HexDigitAt(b[0] % 16);
    } else {
      HexAt(b[1..], i - 1);
      assert Hex(b)[2..] == Hex(b[1..]);
    }
  }

  lemma {:induction false} HexInjective(a: bytes, b: bytes)
    requires Hex(a) == Hex(b)
    ensures a == b
  {
    if a != [] {
      assert Hex(a)[0] == Hex(b)[0] && Hex(a)[1] == Hex(b)[1];
      assert a[0] == b[0];
      assert Hex(a)[2..] == Hex(a[1..]) && Hex(b)[2..] == Hex(b[1..]);
      HexInjective(a[1..], b[1..]);
      assert a == [a[0]] + a[1..] && b == [b[0]] + b[1..];
    }
  }
}
