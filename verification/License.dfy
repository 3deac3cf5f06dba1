/** License keys: unpadded Base32 (section 6 of RFC 4648) around a message code and a six-byte expiration time. */
module License {
  import opened Common
  import opened Digits

  type Byte = n: nat | n < 256

  /** The exceptions that end up in Err: an integer too big for six bytes, undecodable Base32, and the two verdicts. */
  datatype LicenseError = Overflow | BadEncoding | Expired | KeyMismatch

  type Outcome<+T> = Either<T, LicenseError>

  /** The Base32 alphabet: A to Z stand for 0 to 25 and 2 to 7 for 26 to 31. */
  function CharOf(v: nat): char
    requires v < 32
  {
    if v < 26 then 'A' + v as char else '2' + (v - 26) as char
  }

  function ValueOf(c: char): (v: Outcome<nat>)
    ensures v.Ok? ==> v.value < 32 && CharOf(v.value) == c
    ensures forall n: nat :: n < 32 && CharOf(n) == c ==> v == Ok(n)
  {
    if 'A' <= c <= 'Z' then Ok((c - 'A') as nat)
    else if '2' <= c <= '7' then Ok((c - '2') as nat + 26)
    else Err(BadEncoding)
  }

  // ---- base64.b32encode ----

  /** How many characters a quantum of k bytes needs. */
  function CharCount(k: nat): nat {
    (8 * k + 4) / 5
  }

  /** A quantum of at most five bytes, filled up with zeros, as 40 bits in groups of five. */
  function QuantumDigits(d: seq<Byte>): seq<nat>
    requires 1 <= |d| <= 5
  {
    ToDigits(32, FromDigits(256, d + Zeros(5 - |d|)), 8)
  }

  function EncodeQuantum(d: seq<Byte>): (s: string)
    requires 1 <= |d| <= 5
    ensures |s| == CharCount(|d|)
    ensures forall c :: c in s ==> c != '='
  {
    var digits := QuantumDigits(d);
    seq(CharCount(|d|), i requires 0 <= i < CharCount(|d|) => CharOf(digits[i]))
  }

  function Pads(n: nat): string {
    seq(n, _ => '=')
  }

  function B32Encode(data: seq<Byte>): string {
    if data == [] then ""
    else if |data| <= 5 then EncodeQuantum(data) + Pads(8 - CharCount(|data|))
    else EncodeQuantum(data[..5]) + B32Encode(data[5..])
  }

  /** str.rstrip('='). */
  function RStrip(s: string): string {
    if s != "" && s[|s| - 1] == '=' then RStrip(s[..|s| - 1]) else s
  }

  function Base32Encode(data: seq<Byte>): string {
    RStrip(B32Encode(data))
  }

  // ---- base64.b32decode ----

  /** The five-bit values of the characters, or an error at the first foreign one. */
  function Values(s: string): (r: Outcome<seq<nat>>)
    ensures r.Ok? ==> |r.value| == |s| && AreDigits(32, r.value)
  {
    if s == "" then Ok([])
    else
      var front := Values(s[..|s| - 1]);
      var last := ValueOf(s[|s| - 1]);
      if front.Err? || last.Err? then Err(BadEncoding) else Ok(front.value + [last.value])
  }

  /** Up to eight characters: missing ones count as zero bits, and only the bytes they fill completely are kept. */
  function DecodeQuantum(s: string): Outcome<seq<Byte>>
    requires 1 <= |s| <= 8
  {
    var values := Values(s);
    if values.Err? then Err(BadEncoding)
    else
      var pads := 8 - |s|;
      var last: seq<Byte> := ToDigits(256, Shift(32, FromDigits(32, values.value), pads), 5);
      Ok(last[..(43 - 5 * pads) / 8])
  }

  function DecodeQuanta(s: string): Outcome<seq<Byte>> {
    if s == "" then Ok([])
    else if |s| <= 8 then DecodeQuantum(s)
    else
      var first := DecodeQuantum(s[..8]);
      var rest := DecodeQuanta(s[8..]);
      if first.Err? || rest.Err? then Err(BadEncoding) else Ok(first.value + rest.value)
  }

  /** padchars in {0, 1, 3, 4, 6} */
  predicate ValidPadding(n: nat) {
    n == 0 || n == 1 || n == 3 || n == 4 || n == 6
  }

  function B32Decode(t: string): Outcome<seq<Byte>> {
    if |t| % 8 != 0 then Err(BadEncoding)
    else
      var s := RStrip(t);
      RStripShape(t);
      if ValidPadding(|t| - |s|) then DecodeQuanta(s) else Err(BadEncoding)
  }

  /** padding_needed: from any length to the next multiple of eight, a whole eight when it is one already. */
  function PaddingNeeded(length: nat): (n: nat)
    ensures (length + n) % 8 == 0
  {
    assert length + (8 - length % 8) == 8 * (length / 8 + 1);
    8 - length % 8
  }

  function Base32Decode(data: string): Outcome<seq<Byte>> {
    B32Decode(data + Pads(PaddingNeeded(|data|)))
  }

  // ---- round trip ----

  lemma {:induction false} RStripPads(s: string, n: nat)
    requires s == "" || s[|s| - 1] != '='
    ensures RStrip(s + Pads(n)) == s
  {
    if n == 0 {
      assert s + Pads(0) == s;
    } else {
      assert (s + Pads(n))[..|s| + n - 1] == s + Pads(n - 1);
      RStripPads(s, n - 1);
    }
  }

  /** The encoding without its padding. */
  function Unpadded(data: seq<Byte>): string {
    if data == [] then ""
    else if |data| <= 5 then EncodeQuantum(data)
    else EncodeQuantum(data[..5]) + Unpadded(data[5..])
  }

  lemma CountOfFiveMore(k: nat)
    ensures CharCount(k + 5) == CharCount(k) + 8
  {
    assert 8 * (k + 5) + 4 == (8 * k + 4) + 5 * 8;
  }

  lemma {:induction false} UnpaddedShape(data: seq<Byte>)
    ensures |Unpadded(data)| == CharCount(|data|)
    ensures forall c :: c in Unpadded(data) ==> c != '='
  {
    if |data| > 5 {
      UnpaddedShape(data[5..]);
      CountOfFiveMore(|data[5..]|);
    }
  }

  /** b32encode is the unpadded encoding and some padding. */
  lemma {:induction false} PaddedIs(data: seq<Byte>) returns (n: nat)
    ensures B32Encode(data) == Unpadded(data) + Pads(n)
  {
    if data == [] {
      n := 0;
    } else if |data| <= 5 {
      n := 8 - CharCount(|data|);
    } else {
      n := PaddedIs(data[5..]);
      assert EncodeQuantum(data[..5]) + (Unpadded(data[5..]) + Pads(n)) == Unpadded(data) + Pads(n);
    }
  }

  /** base32_encode yields one character per started group of five bits. */
  lemma EncodeShape(data: seq<Byte>)
    ensures Base32Encode(data) == Unpadded(data)
    ensures |Base32Encode(data)| == CharCount(|data|)
  {
    UnpaddedShape(data);
    var n := PaddedIs(data);
    assert Unpadded(data) != "" ==> Unpadded(data)[|Unpadded(data)| - 1] in Unpadded(data);
    RStripPads(Unpadded(data), n);
  }

  lemma {:induction false} ValuesOfChars(digits: seq<nat>, m: nat, s: string)
    requires AreDigits(32, digits) && m <= |digits| && |s| == m
    requires forall i :: 0 <= i < m ==> s[i] == CharOf(digits[i])
    ensures Values(s) == Ok(digits[..m])
  {
    if m > 0 {
      ValuesOfChars(digits, m - 1, s[..m - 1]);
      assert s[m - 1] == CharOf(digits[m - 1]);
      assert digits[..m] == digits[..m - 1] + [digits[m - 1]];
    }
  }

  lemma SmallPowers()
    ensures Pow(32, 0) == 1 && Pow(32, 1) == 0x20 && Pow(32, 3) == 0x8000 && Pow(32, 4) == 0x10_0000 &&
            Pow(32, 6) == 0x4000_0000
  {
    assert Pow(32, 2) == 0x400;
    assert Pow(32, 3) == 0x8000;
    assert Pow(32, 4) == 0x10_0000;
    assert Pow(32, 5) == 0x200_0000;
  }

  /** Forty bits are eight groups of five or five bytes, and forty-eight bits are six bytes. */
  lemma QuantumPowers()
    ensures Pow(256, 5) == Pow(32, 8) && Pow(256, 6) == 0x1_0000_0000_0000
  {
    SmallPowers();
    assert Pow(32, 7) == 0x8_0000_0000;
    assert Pow(256, 2) == 0x1_0000;
    assert Pow(256, 3) == 0x100_0000;
    assert Pow(256, 4) == 0x1_0000_0000;
    assert Pow(256, 5) == 0x100_0000_0000;
  }

  lemma ShiftThree(x: nat)
    ensures Shift(32, x, 3) == x * 0x8000
  {
    assert Shift(32, x, 1) == x * 0x20;
    assert Shift(32, x, 2) == x * 0x400;
  }

  lemma ShiftSix(x: nat)
    ensures Shift(32, x, 4) == x * 0x10_0000 && Shift(32, x, 6) == x * 0x4000_0000
  {
    ShiftThree(x);
    assert Shift(32, x, 4) == x * 0x10_0000;
    assert Shift(32, x, 5) == x * 0x200_0000;
  }

  lemma ShiftFour(x: nat)
    ensures Shift(256, x, 2) == x * 0x1_0000 && Shift(256, x, 3) == x * 0x100_0000 &&
            Shift(256, x, 4) == x * 0x1_0000_0000
  {
    assert Shift(256, x, 1) == x * 0x100;
    assert Shift(256, x, 2) == x * 0x1_0000;
    assert Shift(256, x, 3) == x * 0x100_0000;
  }

  /** A number that is a multiple of the weight of the dropped groups has only zeros in them. */
  lemma FillerIsZero(k: nat, high: nat, low: nat, x: nat)
    requires 1 <= k <= 5
    requires low < Pow(32, 8 - CharCount(k))
    requires Shift(32, high, 8 - CharCount(k)) + low == Shift(256, x, 5 - k)
    ensures low == 0
  {
    SmallPowers();
    if k == 1 {
      ShiftSix(high);
      ShiftFour(x);
      MultipleBelow(0x4000_0000, 4 * x - high, low);
    } else if k == 2 {
      ShiftSix(high);
      ShiftFour(x);
      MultipleBelow(0x10_0000, 16 * x - high, low);
    } else if k == 3 {
      ShiftThree(high);
      ShiftFour(x);
      MultipleBelow(0x8000, 2 * x - high, low);
    } else if k == 4 {
      MultipleBelow(0x20, 8 * x - high, low);
    }
  }

  lemma MultipleBelow(m: nat, q: int, low: nat)
    requires low == m * q && low < m
    ensures low == 0
  {
    if q >= 1 {
      assert m * q == m + m * (q - 1);
    }
  }

  lemma SplitQuantum(digits: seq<nat>, m: nat, c: nat)
    requires |digits| == 8 && AreDigits(32, digits) && m <= 8 && FromDigits(32, digits) == c
    ensures c == Shift(32, FromDigits(32, digits[..m]), 8 - m) + FromDigits(32, digits[m..])
    ensures FromDigits(32, digits[m..]) < Pow(32, 8 - m)
  {
    FromSplit(32, digits, m);
    FromBound(32, digits[m..]);
  }

  lemma QuantumValue(d: seq<Byte>)
    requires 1 <= |d| <= 5
    ensures FromDigits(32, QuantumDigits(d)) == FromDigits(256, d + Zeros(5 - |d|)) ==
            Shift(256, FromDigits(256, d), 5 - |d|)
  {
    var filled := d + Zeros(5 - |d|);
    QuantumFits(filled);
    FromTo(32, FromDigits(256, filled), 8);
    FromFilled(256, d, 5 - |d|);
  }

  lemma QuantumFits(filled: seq<nat>)
    requires |filled| == 5 && AreDigits(256, filled)
    ensures FromDigits(256, filled) < Pow(32, 8)
  {
    FromBound(256, filled);
    QuantumPowers();
  }

  /** The bits beyond the characters kept are filler, so the kept ones determine the quantum. */
  lemma HighDigitsDetermine(k: nat, digits: seq<nat>, c: nat, x: nat)
    requires 1 <= k <= 5 && |digits| == 8 && AreDigits(32, digits) && FromDigits(32, digits) == c
    requires c == Shift(256, x, 5 - k)
    ensures Shift(32, FromDigits(32, digits[..CharCount(k)]), 8 - CharCount(k)) == c
  {
    var m := CharCount(k);
    SplitQuantum(digits, m, c);
    FillerIsZero(k, FromDigits(32, digits[..m]), FromDigits(32, digits[m..]), x);
  }

  lemma QuantumRoundTrip(d: seq<Byte>)
    requires 1 <= |d| <= 5
    ensures DecodeQuantum(EncodeQuantum(d)) == Ok(d)
  {
    QuantumValue(d);
    var filled: seq<Byte> := d + Zeros(5 - |d|);
    KeptCharactersDecode(|d|, QuantumDigits(d), filled, FromDigits(256, d), EncodeQuantum(d));
    assert filled[..|d|] == d;
  }

  /** So shifting the kept characters back gives the filled quantum, byte for byte. */
  lemma KeptCharactersRefill(k: nat, digits: seq<nat>, filled: seq<Byte>, x: nat)
    requires 1 <= k <= 5 && |digits| == 8 && AreDigits(32, digits) && |filled| == 5
    requires FromDigits(32, digits) == FromDigits(256, filled) && FromDigits(256, filled) == Shift(256, x, 5 - k)
    ensures var m := CharCount(k); ToDigits(256, Shift(32, FromDigits(32, digits[..m]), 8 - m), 5) == filled
  {
    HighDigitsDetermine(k, digits, FromDigits(256, filled), x);
    ToFrom(256, filled);
  }

  lemma KeptCharactersDecode(k: nat, digits: seq<nat>, filled: seq<Byte>, x: nat, s: string)
    requires 1 <= k <= 5 && |digits| == 8 && AreDigits(32, digits) && |filled| == 5
    requires FromDigits(32, digits) == FromDigits(256, filled) && FromDigits(256, filled) == Shift(256, x, 5 - k)
    requires |s| == CharCount(k) && forall i :: 0 <= i < |s| ==> s[i] == CharOf(digits[i])
    ensures DecodeQuantum(s) == Ok(filled[..k])
  {
    var m := CharCount(k);
    ValuesOfChars(digits, m, s);
    KeptCharactersRefill(k, digits, filled, x);
    SizeOfQuantum(k);
    DecodedBytes(k, s, digits[..m], filled);
  }

  /** How many characters m a quantum of k bytes has. */
  predicate QuantumSize(k: nat, m: nat) {
    (k == 1 && m == 2) || (k == 2 && m == 4) || (k == 3 && m == 5) || (k == 4 && m == 7) || (k == 5 && m == 8)
  }

  lemma DecodedBytes(k: nat, s: string, values: seq<nat>, filled: seq<Byte>)
    requires QuantumSize(k, |s|) && Values(s) == Ok(values)
    requires ToDigits(256, Shift(32, FromDigits(32, values), 8 - |s|), 5) == filled
    ensures DecodeQuantum(s) == Ok(filled[..k])
  {
    DecodedPrefix(s, values, filled);
    KeptBytes(k, |s|);
  }

  lemma DecodedPrefix(s: string, values: seq<nat>, filled: seq<Byte>)
    requires 1 <= |s| <= 8 && Values(s) == Ok(values)
    requires ToDigits(256, Shift(32, FromDigits(32, values), 8 - |s|), 5) == filled
    ensures DecodeQuantum(s) == Ok(filled[..(43 - 5 * (8 - |s|)) / 8])
  {
  }

  /** The number of bytes that the characters of a k-byte quantum fill completely is k. */
  lemma KeptBytes(k: nat, m: nat)
    requires QuantumSize(k, m)
    ensures (43 - 5 * (8 - m)) / 8 == k
  {
  }

  lemma SizeOfQuantum(k: nat)
    requires 1 <= k <= 5
    ensures QuantumSize(k, CharCount(k))
  {
  }

  lemma {:induction false} QuantaRoundTrip(data: seq<Byte>)
    ensures DecodeQuanta(Unpadded(data)) == Ok(data)
  {
    if data == [] {
    } else if |data| <= 5 {
      QuantumRoundTrip(data);
    } else {
      QuantumRoundTrip(data[..5]);
      QuantaRoundTrip(data[5..]);
      UnpaddedShape(data[5..]);
      var s := Unpadded(data);
      assert s[..8] == EncodeQuantum(data[..5]) && s[8..] == Unpadded(data[5..]);
      assert data[..5] + data[5..] == data;
    }
  }

  /** base32_decode inverts base32_encode exactly on the byte strings whose length is not a multiple of five. */
  lemma Base32RoundTrip(data: seq<Byte>)
    ensures Base32Decode(Base32Encode(data)) == if |data| % 5 != 0 then Ok(data) else Err(BadEncoding)
  {
    EncodeShape(data);
    UnpaddedShape(data);
    var s := Unpadded(data);
    assert s != "" ==> s[|s| - 1] in s;
    DecodePadded(s);
    QuantaRoundTrip(data);
    PaddingOfCount(|data|);
  }

  /** The alphabet of table 3 in section 6 of RFC 4648. */
  const ALPHABET := "ABCDEFGHIJKLMNOPQRSTUVWXYZ234567"

  lemma AlphabetIsStandard(v: nat)
    requires v < 32
    ensures CharOf(v) == ALPHABET[v]
  {
  }

  /** Five bytes and eight five-bit values are the same forty bits, most significant first. */
  predicate SameBits(b: seq<nat>, v: seq<nat>)
    requires |b| == 5 && |v| == 8
  {
    0x1_0000_0000 * b[0] + 0x100_0000 * b[1] + 0x1_0000 * b[2] + 0x100 * b[3] + b[4] ==
    0x8_0000_0000 * v[0] + 0x4000_0000 * v[1] + 0x200_0000 * v[2] + 0x10_0000 * v[3] +
    0x8000 * v[4] + 0x400 * v[5] + 0x20 * v[6] + v[7]
  }

  /**
   * Up to five bytes, filled up with zero bytes, are written as letters for the five-bit values of the same bits; the
   * letters that would hold filler only are left out.
   */
  lemma QuantumInBits(d: seq<Byte>, filled: seq<Byte>, v: seq<nat>)
    requires 1 <= |d| <= 5 && filled == d + Zeros(5 - |d|)
    requires |v| == 8 && AreDigits(32, v) && SameBits(filled, v)
    ensures CharCount(|d|) <= 8
    ensures EncodeQuantum(d) == seq(CharCount(|d|), i requires 0 <= i < CharCount(|d|) => ALPHABET[v[i]])
  {
    SameNumber(filled, v);
    DigitsBack(FromDigits(256, filled), v, |v|);
    LettersOf(d, v);
  }

  lemma SameNumber(b: seq<nat>, v: seq<nat>)
    requires |b| == 5 && |v| == 8 && SameBits(b, v)
    ensures FromDigits(256, b) == FromDigits(32, v)
  {
    FiveBytes(b);
    EightValues(v);
  }

  lemma DigitsBack(n: nat, v: seq<nat>, k: nat)
    requires n == FromDigits(32, v) && AreDigits(32, v) && k == |v|
    ensures ToDigits(32, n, k) == v
  {
    ToFrom(32, v);
  }

  lemma LettersOf(d: seq<Byte>, v: seq<nat>)
    requires 1 <= |d| <= 5 && QuantumDigits(d) == v
    ensures |v| == 8 && AreDigits(32, v) && CharCount(|d|) <= 8
    ensures EncodeQuantum(d) == seq(CharCount(|d|), i requires 0 <= i < CharCount(|d|) => ALPHABET[v[i]])
  {
    SizeOfQuantum(|d|);
    forall i | 0 <= i < 8 ensures CharOf(v[i]) == ALPHABET[v[i]] { AlphabetIsStandard(v[i]); }
  }

  lemma FiveBytes(b: seq<nat>)
    requires |b| == 5
    ensures FromDigits(256, b) == 0x1_0000_0000 * b[0] + 0x100_0000 * b[1] + 0x1_0000 * b[2] + 0x100 * b[3] + b[4]
  {
    assert b[..4][..3] == b[..3] && b[..3][..2] == b[..2] && b[..2][..1] == b[..1] && b[..1][..0] == [];
    assert FromDigits(256, b[..1]) == b[0];
    assert FromDigits(256, b[..2]) == 0x100 * b[0] + b[1];
    assert FromDigits(256, b[..3]) == 0x1_0000 * b[0] + 0x100 * b[1] + b[2];
    assert FromDigits(256, b[..4]) == 0x100_0000 * b[0] + 0x1_0000 * b[1] + 0x100 * b[2] + b[3];
  }

  lemma FourValues(v: seq<nat>)
    requires |v| == 4
    ensures FromDigits(32, v) == 0x8000 * v[0] + 0x400 * v[1] + 0x20 * v[2] + v[3]
  {
    assert v[..3][..2] == v[..2] && v[..2][..1] == v[..1] && v[..1][..0] == [];
    assert FromDigits(32, v[..1]) == v[0];
    assert FromDigits(32, v[..2]) == 0x20 * v[0] + v[1];
    assert FromDigits(32, v[..3]) == 0x400 * v[0] + 0x20 * v[1] + v[2];
  }

  lemma EightValues(v: seq<nat>)
    requires |v| == 8
    ensures FromDigits(32, v) ==
            0x8_0000_0000 * v[0] + 0x4000_0000 * v[1] + 0x200_0000 * v[2] + 0x10_0000 * v[3] +
            0x8000 * v[4] + 0x400 * v[5] + 0x20 * v[6] + v[7]
  {
    FromSplit(32, v, 4);
    FourValues(v[..4]);
    FourValues(v[4..]);
    ShiftByFour(FromDigits(32, v[..4]));
  }

  lemma ShiftByFour(x: nat)
    ensures Shift(32, x, 4) == 0x10_0000 * x
  {
    assert Shift(32, x, 1) == 0x20 * x;
    assert Shift(32, x, 2) == 0x400 * x;
    assert Shift(32, x, 3) == 0x8000 * x;
  }

  /** Five zero bytes become eight characters, which base32_decode pads to sixteen and rejects. */
  lemma FiveBytesDoNotDecode()
    ensures Base32Decode(Base32Encode([0, 0, 0, 0, 0])) == Err(BadEncoding)
  {
    var data: seq<Byte> := [0, 0, 0, 0, 0];
    assert |data| % 5 == 0;
    Base32RoundTrip(data);
  }

  /** Decoding a text that does not end in padding fails exactly on the lengths no quantum has. */
  lemma DecodePadded(s: string)
    requires s == "" || s[|s| - 1] != '='
    ensures Base32Decode(s) == if ValidPadding(PaddingNeeded(|s|)) then DecodeQuanta(s) else Err(BadEncoding)
  {
    DecodeWithPads(s, PaddingNeeded(|s|));
  }

  lemma DecodeWithPads(s: string, n: nat)
    requires (s == "" || s[|s| - 1] != '=') && (|s| + n) % 8 == 0
    ensures B32Decode(s + Pads(n)) == if ValidPadding(n) then DecodeQuanta(s) else Err(BadEncoding)
  {
    RStripPads(s, n);
    DecodeStripped(s + Pads(n), s);
  }

  lemma DecodeStripped(t: string, s: string)
    requires |t| % 8 == 0 && RStrip(t) == s && |s| <= |t|
    ensures B32Decode(t) == if ValidPadding(|t| - |s|) then DecodeQuanta(s) else Err(BadEncoding)
  {
  }

  lemma PaddingOfCount(k: nat)
    ensures ValidPadding(PaddingNeeded(CharCount(k))) <==> k % 5 != 0
  {
    var q, r := k / 5, k % 5;
    var c := if r == 0 then 0 else if r == 1 then 2 else if r == 2 then 4 else if r == 3 then 5 else 7;
    CountFromRest(q, r, c);
    PaddingFromRest(q, c);
  }

  /** q whole quanta and r bytes more make 8 * q and c characters. */
  lemma CountFromRest(q: nat, r: nat, c: nat)
    requires 5 * c <= 8 * r + 4 < 5 * c + 5
    ensures (8 * (5 * q + r) + 4) / 5 == 8 * q + c
  {
    assert 8 * (5 * q + r) + 4 == 5 * (8 * q + c) + (8 * r + 4 - 5 * c);
  }

  lemma PaddingFromRest(q: nat, c: nat)
    requires c < 8
    ensures PaddingNeeded(8 * q + c) == 8 - c
  {
  }

  // ---- generate and verify ----

  function Decimal(n: nat): string {
    var digit := ['0' + (n % 10) as char];
    if n < 10 then digit else Decimal(n / 10) + digit
  }

  /** The text that is authenticated. */
  function Message(userId: string, appId: string, expiration: nat): string {
    userId + ":" + appId + ":" + Decimal(expiration)
  }

  /** HMAC-SHA256 under the manager's key: any function to 32 bytes. */
  type Mac = string -> seq<Byte>

  ghost predicate Makes32Bytes(mac: Mac) {
    forall m :: |mac(m)| == 32
  }

  /**
   * generate_license for an expiration computed from clock and time span; to_bytes rejects what six bytes cannot hold.
   */
  function GenerateLicense(mac: Mac, userId: string, appId: string, expiration: int): Outcome<string> {
    if expiration < 0 || expiration >= Pow(256, 6) then Err(Overflow)
    else Ok(Base32Encode(mac(Message(userId, appId, expiration))) + Base32Encode(ToDigits(256, expiration, 6)))
  }

  /** license_key[-10:] and license_key[:-10]. */
  function LastTen(s: string): string {
    if |s| >= 10 then s[|s| - 10..] else s
  }

  function AllButLastTen(s: string): string {
    if |s| >= 10 then s[..|s| - 10] else ""
  }

  function Verify(mac: Mac, userId: string, appId: string, licenseKey: string, now: int): Outcome<bool> {
    var decoded := Base32Decode(LastTen(licenseKey));
    if decoded.Err? then Err(decoded.error)
    else
      var expiration := FromDigits(256, decoded.value);
      if now > expiration then Err(Expired)
      else if Base32Encode(mac(Message(userId, appId, expiration))) == AllButLastTen(licenseKey) then Ok(true)
      else Err(KeyMismatch)
  }

  /** Verifying a key that ends in ten characters for an expiration time. */
  lemma VerifyParts(mac: Mac, userId: string, appId: string, code: string, bytes: seq<Byte>, now: int)
    requires |bytes| == 6
    ensures var expiration := FromDigits(256, bytes);
      Verify(mac, userId, appId, code + Base32Encode(bytes), now) ==
      if now > expiration then Err(Expired)
      else if Base32Encode(mac(Message(userId, appId, expiration))) == code then Ok(true)
      else Err(KeyMismatch)
  {
    EncodeShape(bytes);
    assert LastTen(code + Base32Encode(bytes)) == Base32Encode(bytes);
    assert AllButLastTen(code + Base32Encode(bytes)) == code;
    Base32RoundTrip(bytes);
  }

  /** A generated license is the code of its message and the six bytes of its expiration time. */
  lemma GeneratedParts(mac: Mac, userId: string, appId: string, expiration: int) returns (bytes: seq<Byte>)
    requires GenerateLicense(mac, userId, appId, expiration).Ok?
    ensures |bytes| == 6 && FromDigits(256, bytes) == expiration
    ensures GenerateLicense(mac, userId, appId, expiration) ==
            Ok(Base32Encode(mac(Message(userId, appId, expiration))) + Base32Encode(bytes))
  {
    bytes := ToDigits(256, expiration, 6);
    FromTo(256, expiration, 6);
  }

  /** A generated license verifies as Ok(True) up to and including its expiration second and is an error afterwards. */
  lemma GeneratedLicenseVerifies(mac: Mac, userId: string, appId: string, expiration: int, now: int)
    ensures GenerateLicense(mac, userId, appId, expiration).Ok? <==> 0 <= expiration < 0x1_0000_0000_0000
    ensures var license := GenerateLicense(mac, userId, appId, expiration);
      license.Ok? ==>
        Verify(mac, userId, appId, license.value, now) == if now <= expiration then Ok(true) else Err(Expired)
  {
    QuantumPowers();
    if 0 <= expiration < 0x1_0000_0000_0000 {
      var bytes := GeneratedParts(mac, userId, appId, expiration);
      VerifyParts(mac, userId, appId, Base32Encode(mac(Message(userId, appId, expiration))), bytes, now);
    }
  }

  /** Codes of equal length are equal only for equal bytes. */
  lemma CodesDetermineBytes(x: seq<Byte>, y: seq<Byte>)
    requires |x| == |y| && |x| % 5 != 0
    ensures Base32Encode(x) == Base32Encode(y) <==> x == y
  {
    Base32RoundTrip(x);
    Base32RoundTrip(y);
  }

  predicate AllDigits(s: string) {
    s != "" && forall i :: 0 <= i < |s| ==> '0' <= s[i] <= '9'
  }

  /** The number a text of decimal digits stands for. */
  function NumberOf(s: string): nat
    requires forall i :: 0 <= i < |s| ==> '0' <= s[i] <= '9'
  {
    if s == "" then 0 else 10 * NumberOf(s[..|s| - 1]) + (s[|s| - 1] - '0') as nat
  }

  /** A number is printed as decimal digits that stand for it, so different numbers are printed differently. */
  lemma {:induction false} DecimalReads(n: nat)
    ensures AllDigits(Decimal(n)) && NumberOf(Decimal(n)) == n
  {
    if n >= 10 {
      DecimalReads(n / 10);
      assert Decimal(n)[..|Decimal(n)| - 1] == Decimal(n / 10);
    }
  }

  lemma NoColonAfter(s: string, d: string)
    requires AllDigits(d)
    ensures (s + ":" + d)[|s|] == ':' && forall k :: |s| < k < |s| + 1 + |d| ==> (s + ":" + d)[k] != ':'
  {
    forall k | |s| < k < |s| + 1 + |d| ensures (s + ":" + d)[k] != ':' {
      assert (s + ":" + d)[k] == d[k - |s| - 1];
    }
  }

  /** The text after the last colon is determined, because no digit is one. */
  lemma LastColonSplits(s1: string, d1: string, s2: string, d2: string)
    requires AllDigits(d1) && AllDigits(d2) && s1 + ":" + d1 == s2 + ":" + d2
    ensures s1 == s2 && d1 == d2
  {
    var t1, t2 := s1 + ":" + d1, s2 + ":" + d2;
    NoColonAfter(s1, d1);
    NoColonAfter(s2, d2);
    assert |s1| == |s2|;
    assert t1[..|s1|] == s1 && t2[..|s2|] == s2;
    assert t1[|s1| + 1..] == d1 && t2[|s2| + 1..] == d2;
  }

  /**
   * A message determines the expiration time and the text of user and application joined by a colon, but not the two:
   * the colon may occur in both.
   */
  lemma SameMessage(user1: string, app1: string, expiration1: nat, user2: string, app2: string, expiration2: nat)
    ensures Message(user1, app1, expiration1) == Message(user2, app2, expiration2) <==>
            user1 + ":" + app1 == user2 + ":" + app2 && expiration1 == expiration2
  {
    var s1, s2 := user1 + ":" + app1, user2 + ":" + app2;
    assert Message(user1, app1, expiration1) == s1 + ":" + Decimal(expiration1);
    assert Message(user2, app2, expiration2) == s2 + ":" + Decimal(expiration2);
    DecimalReads(expiration1);
    DecimalReads(expiration2);
    if s1 + ":" + Decimal(expiration1) == s2 + ":" + Decimal(expiration2) {
      LastColonSplits(s1, Decimal(expiration1), s2, Decimal(expiration2));
    }
  }

  /** The code of a license issued for one expiration time, followed by any expiration time. */
  function Reissued(mac: Mac, userId: string, appId: string, issued: nat, expiration: nat): string
    requires expiration < Pow(256, 6)
  {
    Base32Encode(mac(Message(userId, appId, issued))) + Base32Encode(ToDigits(256, expiration, 6))
  }

  /**
   * The code of a license, with any expiration time in its last ten characters, verifies for a user and application
   * exactly when that time has not passed and the two messages have the same code; where the code tells these messages
   * apart, exactly when nothing was exchanged: user and application joined by a colon agree, and so do both times.
   */
  lemma LicenseOfAnother(mac: Mac, user1: string, app1: string, issued: nat, user2: string, app2: string,
                         expiration: nat, now: int)
    requires Makes32Bytes(mac) && expiration < Pow(256, 6)
    ensures var code1, code2 := mac(Message(user1, app1, issued)), mac(Message(user2, app2, expiration));
      var verified := Verify(mac, user2, app2, Reissued(mac, user1, app1, issued, expiration), now).Ok?;
      && (issued == expiration ==>
            GenerateLicense(mac, user1, app1, issued) == Ok(Reissued(mac, user1, app1, issued, expiration)))
      && (verified <==> now <= expiration && code1 == code2)
      && ((code1 == code2 ==> Message(user1, app1, issued) == Message(user2, app2, expiration)) ==>
          (verified <==> now <= expiration && user1 + ":" + app1 == user2 + ":" + app2 && issued == expiration))
  {
    var code1, code2 := mac(Message(user1, app1, issued)), mac(Message(user2, app2, expiration));
    FromTo(256, expiration, 6);
    VerifyParts(mac, user2, app2, Base32Encode(code1), ToDigits(256, expiration, 6), now);
    CodesDetermineBytes(code1, code2);
    SameMessage(user1, app1, issued, user2, app2, expiration);
  }

  /** A license for user a:b and application c is one for user a and application b:c too. */
  lemma LicenseIsShared(mac: Mac, expiration: int, now: int)
    requires Makes32Bytes(mac) && GenerateLicense(mac, "a:b", "c", expiration).Ok?
    ensures Verify(mac, "a", "b:c", GenerateLicense(mac, "a:b", "c", expiration).value, now) ==
            if now <= expiration then Ok(true) else Err(Expired)
  {
    assert "a:b" + ":" + "c" == "a" + ":" + "b:c";
    SameMessage("a:b", "c", expiration, "a", "b:c", expiration);
    GeneratedLicenseVerifies(mac, "a", "b:c", expiration, now);
  }

  /** A key of 62 characters: the code of the message for an expiration time, and an encoding of that time. */
  ghost predicate Carries(mac: Mac, userId: string, appId: string, key: string, expiration: int) {
    && |key| == 62
    && 0 <= expiration < Pow(256, 6)
    && key[..52] == Base32Encode(mac(Message(userId, appId, expiration)))
    && Base32Decode(key[52..]) == Ok(ToDigits(256, expiration, 6))
  }

  /**
   * A key verifies exactly when it carries the code of an expiration time that six bytes hold and that has not passed.
   */
  lemma VerifiedKeysAreWellFormed(mac: Mac, userId: string, appId: string, key: string, now: int)
    requires Makes32Bytes(mac)
    ensures Verify(mac, userId, appId, key, now).Ok? <==>
            exists expiration :: now <= expiration && Carries(mac, userId, appId, key, expiration)
  {
    if Verify(mac, userId, appId, key, now).Ok? {
      var bytes := Base32Decode(LastTen(key)).value;
      var expiration := FromDigits(256, bytes);
      CodeLength(mac, Message(userId, appId, expiration));
      assert |key| == 62 && LastTen(key) == key[52..];
      DecodedExpiration(key[52..]);
      assert Carries(mac, userId, appId, key, expiration);
    }
    if expiration :| now <= expiration && Carries(mac, userId, appId, key, expiration) {
      assert LastTen(key) == key[52..] && AllButLastTen(key) == key[..52];
      FromTo(256, expiration, 6);
    }
  }

  lemma DecodedExpiration(s: string)
    requires |s| == 10 && Base32Decode(s).Ok?
    ensures FromDigits(256, Base32Decode(s).value) < Pow(256, 6)
    ensures ToDigits(256, FromDigits(256, Base32Decode(s).value), 6) == Base32Decode(s).value
  {
    TenCharactersAreSixBytes(s);
    FromBound(256, Base32Decode(s).value);
    ToFrom(256, Base32Decode(s).value);
  }

  lemma CodeLength(mac: Mac, message: string)
    requires Makes32Bytes(mac)
    ensures |Base32Encode(mac(message))| == 52
  {
    EncodeShape(mac(message));
  }

  lemma {:induction false} RStripShape(s: string)
    ensures |RStrip(s)| <= |s|
    ensures RStrip(s) == s[..|RStrip(s)|]
  {
    if s != "" && s[|s| - 1] == '=' {
      RStripShape(s[..|s| - 1]);
    }
  }

  /** Ten characters that decode at all decode to six bytes. */
  lemma TenCharactersAreSixBytes(s: string)
    requires |s| == 10 && Base32Decode(s).Ok?
    ensures |Base32Decode(s).value| == 6
  {
    var t := s + Pads(6);
    var u := RStrip(t);
    RStripShape(t);
    StripsAllPads(s, 6);
    assert |u| == 10;
    assert |DecodeQuanta(u[8..]).value| == 1;
  }

  lemma {:induction false} StripsAllPads(s: string, n: nat)
    ensures |RStrip(s + Pads(n))| <= |s|
  {
    if n == 0 {
      RStripShape(s + Pads(0));
    } else {
      assert (s + Pads(n))[..|s| + n - 1] == s + Pads(n - 1);
      StripsAllPads(s, n - 1);
    }
  }
}
