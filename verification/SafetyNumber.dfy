/** The safety number: a digest shown as twelve groups of five decimal digits. */
module SafetyNumbers {
  import opened Protocol
  import opened Numerals
  import opened Texts

  const SAFETY_NUMBER_DIGITS := 60
  const SAFETY_NUMBER_GROUP := 5
  const SAFETY_DOMAIN := "secure-websocket-sdk/safety-number/v1"

  function Zfill(s: string, width: nat): string {
    if |s| < width then Zeros(width - |s|) + s else s
  }

  /** Slices of `SAFETY_NUMBER_GROUP` characters. */
  function Groups(s: string): seq<string> {
    if |s| <= SAFETY_NUMBER_GROUP then [s]
    else [s[..SAFETY_NUMBER_GROUP]] + Groups(s[SAFETY_NUMBER_GROUP..])
  }

  function JoinWithSpaces(groups: seq<string>): string {
    if groups == [] then "" else if |groups| == 1 then groups[0] else groups[0] + " " + JoinWithSpaces(groups[1..])
  }

  lemma {:induction false} TenPositive(n: nat)
    ensures Pow(10, n) > 0
  {
    if n > 0 { TenPositive(n - 1); }
  }

  function Modulus(): (m: nat)
    ensures m > 0
  {
    TenPositive(SAFETY_NUMBER_DIGITS);
    Pow(10, SAFETY_NUMBER_DIGITS)
  }

  /** The text shown for a digest. */
  function Shown(digest: bytes): string {
    JoinWithSpaces(Groups(Zfill(Digits(FromBigEndian(digest) % Modulus()), SAFETY_NUMBER_DIGITS)))
  }

  /** `sha256` stands for the digest function. */
  function SafetyNumber(sha256: bytes -> bytes, handshakeHash: bytes): Result<string> {
    if |handshakeHash| != HANDSHAKE_HASH_LEN then Err(ValueError)
    else Ok(Shown(sha256(Utf8(SAFETY_DOMAIN) + handshakeHash)))
  }

  /** The digits alone. */
  function WithoutSpaces(s: string): string {
    if s == "" then "" else (if s[0] == ' ' then "" else [s[0]]) + WithoutSpaces(s[1..])
  }

  lemma {:induction false} WithoutSpacesConcat(s: string, t: string)
    ensures WithoutSpaces(s + t) == WithoutSpaces(s) + WithoutSpaces(t)
  {
    if s == "" {
      assert s + t == t;
    } else {
      var first := if s[0] == ' ' then "" else [s[0]];
      WithoutSpacesConcat(s[1..], t);
      assert (s + t)[1..] == s[1..] + t;
      assert WithoutSpaces(s + t) == first + (WithoutSpaces(s[1..]) + WithoutSpaces(t));
    }
  }

  lemma {:induction false} DigitsHaveNoSpaces(s: string)
    requires AllDigits(s)
    ensures WithoutSpaces(s) == s
  {
    if s != "" {
      DigitsHaveNoSpaces(s[1..]);
      assert s == [s[0]] + s[1..];
    }
  }

  /** Taking the spaces out of the joined groups gives the digits back. */
  lemma {:induction false} GroupingReadsBack(s: string)
    requires AllDigits(s)
    ensures WithoutSpaces(JoinWithSpaces(Groups(s))) == s
  {
    if |s| <= SAFETY_NUMBER_GROUP {
      DigitsHaveNoSpaces(s);
    } else {
      var head, tail := s[..SAFETY_NUMBER_GROUP], s[SAFETY_NUMBER_GROUP..];
      GroupingReadsBack(tail);
      DigitsHaveNoSpaces(head);
      WithoutSpacesConcat(head + " ", JoinWithSpaces(Groups(tail)));
      WithoutSpacesConcat(head, " ");
      assert WithoutSpaces(" ") == "";
      assert Groups(s)[1..] == Groups(tail);
      assert s == head + tail;
    }
  }

  /** A space after every fifth digit and nowhere else. */
  lemma {:induction false} GroupingLayout(s: string, k: nat)
    requires k > 0 && |s| == SAFETY_NUMBER_GROUP * k
    ensures var t := JoinWithSpaces(Groups(s));
            && |t| == 6 * k - 1
            && forall i :: 0 <= i < |t| ==> t[i] == (if i % 6 == 5 then ' ' else s[i - i / 6])
  {
    if k > 1 {
      var head, tail := s[..SAFETY_NUMBER_GROUP], s[SAFETY_NUMBER_GROUP..];
      GroupingLayout(tail, k - 1);
      assert Groups(s)[1..] == Groups(tail);
      var t, u := JoinWithSpaces(Groups(s)), JoinWithSpaces(Groups(tail));
      assert t == head + " " + u;
      forall i | 6 <= i < |t| ensures t[i] == (if i % 6 == 5 then ' ' else s[i - i / 6]) {
        assert t[i] == u[i - 6];
        assert (i - 6) % 6 == i % 6 && (i - 6) / 6 == i / 6 - 1;
      }
    }
  }

  lemma PaddedDigits(value: nat)
    requires value < Pow(10, SAFETY_NUMBER_DIGITS)
    ensures var padded := Zfill(Digits(value), SAFETY_NUMBER_DIGITS);
            |padded| == SAFETY_NUMBER_DIGITS && AllDigits(padded) && WeighedDigits(padded, 0) == value
  {
    var digits := Digits(value);
    DigitsFit(value, SAFETY_NUMBER_DIGITS);
    DigitsReadBack(value);
    LeadingZerosVanish(SAFETY_NUMBER_DIGITS - |digits|, digits);
    assert Zfill(digits, SAFETY_NUMBER_DIGITS) == Zeros(SAFETY_NUMBER_DIGITS - |digits|) + digits;
    ReadDigitsWeighs(Zfill(digits, SAFETY_NUMBER_DIGITS));
  }

  /** The value of a digest modulo 10^60, with byte `i` of `n` weighing 256^(n - 1 - i). */
  function Residue(digest: bytes): nat {
    TenPositive(60);
    Weighed(digest, 0) % Pow(10, 60)
  }

  /** Every digest is shown as twelve groups of five digits, and the digits, each weighing the power of ten of
      its place, give its value modulo 10^60. */
  lemma ShownFaithfully(digest: bytes)
    ensures var t := Shown(digest);
            && |t| == 71
            && (forall i :: 0 <= i < |t| ==> if i % 6 == 5 then t[i] == ' ' else IsDigit(t[i]))
            && |WithoutSpaces(t)| == 60
            && AllDigits(WithoutSpaces(t))
            && WeighedDigits(WithoutSpaces(t), 0) == Residue(digest)
  {
    var value := FromBigEndian(digest) % Modulus();
    FromBigEndianWeighs(digest);
    PaddedDigits(value);
    var padded := Zfill(Digits(value), SAFETY_NUMBER_DIGITS);
    GroupingReadsBack(padded);
    GroupingLayout(padded, 12);
  }

  /** There is a safety number exactly for hashes of 32 bytes: the faithful text of the digest of the domain tag and
      the hash. */
  lemma NumberOfEveryHash(sha256: bytes -> bytes, handshakeHash: bytes)
    ensures var r := SafetyNumber(sha256, handshakeHash);
            if |handshakeHash| == 32
            then r.Ok? && |r.value| == 71 && AllDigits(WithoutSpaces(r.value))
                 && WeighedDigits(WithoutSpaces(r.value), 0) ==
                    Residue(sha256(Utf8("secure-websocket-sdk/safety-number/v1") + handshakeHash))
            else r == Err(ValueError)
  {
    ShownFaithfully(sha256(Utf8(SAFETY_DOMAIN) + handshakeHash));
  }

  /** Two safety numbers agree exactly when the digests are congruent modulo 10^60. */
  lemma AgreeExactlyWhenCongruent(digest1: bytes, digest2: bytes)
    ensures Pow(10, 60) > 0
    ensures Shown(digest1) == Shown(digest2) <==>
            Weighed(digest1, 0) % Pow(10, 60) == Weighed(digest2, 0) % Pow(10, 60)
  {
    ShownFaithfully(digest1);
    ShownFaithfully(digest2);
    FromBigEndianWeighs(digest1);
    FromBigEndianWeighs(digest2);
    TenPositive(60);
  }
}
