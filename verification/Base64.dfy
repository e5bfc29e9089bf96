/** Base 64 as section 4 of RFC 4648 defines it: 24-bit groups, read as three bytes or as four characters. */
module Base64 {
  import opened Wrappers

  type Byte = n: int | 0 <= n < 256

  /** The values of the characters; 64 stands for the padding. */
  type Sextet = n: int | 0 <= n <= 64

  const PAD := 64

  /** The alphabet of Table 1: A to Z, a to z, 0 to 9, plus and slash, and the equals sign as padding. */
  function Letter(v: Sextet): Byte {
    if v < 26 then v + 65
    else if v < 52 then v + 97 - 26
    else if v < 62 then v + 48 - 52
    else if v == 62 then 43
    else if v == 63 then 47
    else 61
  }

  /** Lines 121-138: the value of a character. */
  function ValueOf(c: Byte): (r: Option<Sextet>)
    ensures r.Some? ==> Letter(r.value) == c
  {
    if 65 <= c <= 90 then Some(c - 65)
    else if 97 <= c <= 122 then Some(c - 97 + 26)
    else if 48 <= c <= 57 then Some(c - 48 + 52)
    else if c == 43 then Some(62)
    else if c == 47 then Some(63)
    else if c == 61 then Some(PAD)
    else None
  }

  lemma ValueOfLetter(v: Sextet)
    ensures ValueOf(Letter(v)) == Some(v)
  {
  }

  // ---------- encoding ----------

  /** Byte i, and zero behind the end. */
  function ByteAt(data: seq<Byte>, i: nat): Byte {
    if i < |data| then data[i] else 0
  }

  /** Group g as a number of 24 bits. */
  function Number(data: seq<Byte>, g: nat): nat {
    ByteAt(data, 3 * g) * 65536 + ByteAt(data, 3 * g + 1) * 256 + ByteAt(data, 3 * g + 2)
  }

  /** Six bits of a 24-bit number, the first ones for k = 0. */
  function SixBits(n: nat, k: nat): (v: Sextet)
    ensures v < 64
  {
    if k == 0 then n / 64 / 64 / 64 % 64 else if k == 1 then n / 64 / 64 % 64 else if k == 2 then n / 64 % 64 else n % 64
  }

  /** The value of character j: six bits if they belong to the data, otherwise padding. */
  function EncodedValue(data: seq<Byte>, j: nat): Sextet {
    if j % 4 <= |data| - 3 * (j / 4) then SixBits(Number(data, j / 4), j % 4) else PAD
  }

  function Groups(n: nat): nat {
    (n + 2) / 3
  }

  function Encode(data: seq<Byte>): (r: seq<Byte>)
    ensures |r| == 4 * Groups(|data|)
  {
    seq(4 * Groups(|data|), j requires 0 <= j < 4 * Groups(|data|) => Letter(EncodedValue(data, j)))
  }

  // ---------- decoding ----------

  datatype Error = IncorrectPadding | InvalidCharacter

  /** What is wrong with the character at p: it is no character of the alphabet, or it is padding elsewhere than
      in the second half of the last group. */
  function Problem(text: seq<Byte>, p: nat): Option<Error>
    requires p < |text|
  {
    match ValueOf(text[p])
    case None => Some(InvalidCharacter)
    case Some(v) => if v == PAD && (p % 4 < 2 || p / 4 + 1 < |text| / 4) then Some(IncorrectPadding) else None
  }

  predicate IsFine(text: seq<Byte>) {
    |text| % 4 == 0 && forall p | 0 <= p < |text| :: Problem(text, p).None?
  }

  predicate IsFineGroup(text: seq<Byte>, g: nat)
    requires 4 * g + 4 <= |text|
  {
    && Problem(text, 4 * g).None? && Problem(text, 4 * g + 1).None?
    && Problem(text, 4 * g + 2).None? && Problem(text, 4 * g + 3).None?
  }

  /** The six bits of the character at p, and zero for padding. */
  function BitsAt(text: seq<Byte>, p: nat): (v: nat)
    requires p < |text| && Problem(text, p).None?
    ensures v < 64
  {
    var v := ValueOf(text[p]).value;
    if v == PAD then 0 else v
  }

  /** Group g of the text as a number of 24 bits. */
  function TextNumber(text: seq<Byte>, g: nat): nat
    requires 4 * g + 4 <= |text| && IsFineGroup(text, g)
  {
    BitsAt(text, 4 * g) * 262144 + BitsAt(text, 4 * g + 1) * 4096 + BitsAt(text, 4 * g + 2) * 64 + BitsAt(text, 4 * g + 3)
  }

  /** Eight bits of a 24-bit number. */
  function EightBits(n: nat, k: nat): Byte {
    if k == 0 then n / 256 / 256 % 256 else if k == 1 then n / 256 % 256 else n % 256
  }

  predicate IsPad(text: seq<Byte>, p: int) {
    0 <= p < |text| && text[p] == 61
  }

  /** How many bytes a fine text stands for: padding ends the last group. */
  function DecodedLength(text: seq<Byte>): int
  {
    if text == [] then 0
    else |text| / 4 * 3 - if IsPad(text, |text| - 2) then 2 else if IsPad(text, |text| - 1) then 1 else 0
  }

  function Decode(text: seq<Byte>): (r: seq<Byte>)
    requires IsFine(text)
    ensures |r| == DecodedLength(text)
  {
    seq(DecodedLength(text), k requires 0 <= k < DecodedLength(text) => EightBits(TextNumber(text, k / 3), k % 3))
  }

  // ---------- the two are inverse ----------

  /** The four parts of a 24-bit number make it up. */
  lemma PartsMakeNumber(n: nat)
    requires n < 0x100_0000
    ensures n == SixBits(n, 0) * 262144 + SixBits(n, 1) * 4096 + SixBits(n, 2) * 64 + SixBits(n, 3)
  {
  }

  lemma BytesOfNumber(a: Byte, b: Byte, c: Byte)
    ensures var n := a * 65536 + b * 256 + c;
            n < 0x100_0000 && EightBits(n, 0) == a && EightBits(n, 1) == b && EightBits(n, 2) == c
  {
  }

  lemma EncodedIsFine(data: seq<Byte>)
    ensures IsFine(Encode(data))
  {
    var text := Encode(data);
    forall p | 0 <= p < |text| ensures Problem(text, p).None? {
      ValueOfLetter(EncodedValue(data, p));
    }
  }

  lemma PadOnlyAtEnd(data: seq<Byte>, j: nat)
    requires j < 4 * Groups(|data|)
    ensures IsPad(Encode(data), j) <==> j % 4 > |data| - 3 * (j / 4)
  {
  }

  lemma LengthsAgree(data: seq<Byte>)
    ensures DecodedLength(Encode(data)) == |data|
  {
    var n := |Encode(data)|;
    if n > 0 {
      PadOnlyAtEnd(data, n - 1);
      PadOnlyAtEnd(data, n - 2);
    }
  }

  lemma ZeroBits(a: Byte, b: Byte)
    ensures var n := a * 65536 + b * 256; SixBits(n, 3) == 0 && (b == 0 ==> SixBits(n, 2) == 0)
  {
    Split(a * 1024 + b * 4, 0, 64);
    assert a * 65536 + b * 256 == 64 * (a * 1024 + b * 4);
    Split(a * 16, 0, 64);
    assert a * 1024 == 64 * (a * 16);
  }

  lemma EncodedBits(data: seq<Byte>, g: nat, k: nat)
    requires g < Groups(|data|) && k < 4 && IsFine(Encode(data))
    ensures BitsAt(Encode(data), 4 * g + k) == SixBits(Number(data, g), k)
  {
    ValueOfLetter(EncodedValue(data, 4 * g + k));
    ZeroBits(ByteAt(data, 3 * g), ByteAt(data, 3 * g + 1));
  }

  lemma NumbersAgree(data: seq<Byte>, g: nat)
    requires g < Groups(|data|) && IsFine(Encode(data))
    ensures TextNumber(Encode(data), g) == Number(data, g)
  {
    forall k: nat | k < 4 ensures BitsAt(Encode(data), 4 * g + k) == SixBits(Number(data, g), k) {
      EncodedBits(data, g, k);
    }
    assert 4 * g + 0 == 4 * g;
    NumberIsSmall(data, g);
    PartsMakeNumber(Number(data, g));
  }

  lemma NumberIsSmall(data: seq<Byte>, g: nat)
    ensures Number(data, g) < 0x100_0000
  {
  }

  lemma DecodedByte(data: seq<Byte>, k: nat)
    requires k < |data| && IsFine(Encode(data)) && DecodedLength(Encode(data)) == |data|
    ensures Decode(Encode(data))[k] == data[k]
  {
    NumbersAgree(data, k / 3);
    ByteOfNumber(data, k);
  }

  lemma ByteOfNumber(data: seq<Byte>, k: nat)
    requires k < |data|
    ensures EightBits(Number(data, k / 3), k % 3) == data[k]
  {
    var g := k / 3;
    BytesOfNumber(ByteAt(data, 3 * g), ByteAt(data, 3 * g + 1), ByteAt(data, 3 * g + 2));
    assert k == 3 * g + k % 3;
  }

  /** Every sequence of bytes is got back. */
  lemma DecodeOfEncode(data: seq<Byte>)
    ensures IsFine(Encode(data)) && Decode(Encode(data)) == data
  {
    EncodedIsFine(data);
    LengthsAgree(data);
    forall k | 0 <= k < |data| ensures Decode(Encode(data))[k] == data[k] {
      DecodedByte(data, k);
    }
  }

  // ---------- the source's arithmetic ----------

  /** Lines 164-182: the values of a group, by shifts and masks of its bytes. */
  lemma EncodedGroup(data: seq<Byte>, g: nat)
    requires 3 * g < |data|
    ensures var (a, b, c) := (ByteAt(data, 3 * g), ByteAt(data, 3 * g + 1), ByteAt(data, 3 * g + 2));
            && EncodedValue(data, 4 * g) == a / 4
            && EncodedValue(data, 4 * g + 1) == a % 4 * 16 + b / 16
            && EncodedValue(data, 4 * g + 2) == (if 3 * g + 1 < |data| then b % 16 * 4 + c / 64 else PAD)
            && EncodedValue(data, 4 * g + 3) == (if 3 * g + 2 < |data| then c % 64 else PAD)
  {
    GroupBits(ByteAt(data, 3 * g), ByteAt(data, 3 * g + 1), ByteAt(data, 3 * g + 2));
    GroupOf(g, 0);
    GroupOf(g, 1);
    GroupOf(g, 2);
    GroupOf(g, 3);
  }

  lemma GroupOf(g: nat, k: nat)
    requires k < 4
    ensures (4 * g + k) / 4 == g && (4 * g + k) % 4 == k
  {
  }

  lemma Split(q: nat, r: nat, d: nat)
    requires r < d && d in {64, 256}
    ensures (d * q + r) / d == q && (d * q + r) % d == r
  {
  }

  lemma GroupBits(a: Byte, b: Byte, c: Byte)
    ensures var n := a * 65536 + b * 256 + c;
            && SixBits(n, 0) == a / 4 && SixBits(n, 1) == a % 4 * 16 + b / 16
            && SixBits(n, 2) == b % 16 * 4 + c / 64 && SixBits(n, 3) == c % 64
  {
    var n, q := a * 65536 + b * 256 + c, a * 1024 + b * 4 + c / 64;
    Split(q, c % 64, 64);
    assert n == 64 * q + c % 64;
    Split(a * 16 + b / 16, b % 16 * 4 + c / 64, 64);
    assert q == 64 * (a * 16 + b / 16) + b % 16 * 4 + c / 64;
    Split(a / 4, a % 4 * 16 + b / 16, 64);
    assert a * 16 + b / 16 == 64 * (a / 4) + a % 4 * 16 + b / 16;
  }

  /** Lines 142-148: the bytes of a group, by shifts and masks of its values. */
  lemma DecodedGroup(a: nat, b: nat, c: nat, d: nat)
    requires a < 64 && b < 64 && c < 64 && d < 64
    ensures var n := a * 262144 + b * 4096 + c * 64 + d;
            && EightBits(n, 0) == a * 4 + b / 16
            && EightBits(n, 1) == b % 16 * 16 + c / 4
            && EightBits(n, 2) == c % 4 * 64 + d
  {
    var n, q := a * 262144 + b * 4096 + c * 64 + d, a * 1024 + b * 16 + c / 4;
    Split(q, c % 4 * 64 + d, 256);
    assert n == 256 * q + c % 4 * 64 + d;
    Split(a * 4 + b / 16, b % 16 * 16 + c / 4, 256);
    assert q == 256 * (a * 4 + b / 16) + b % 16 * 16 + c / 4;
    Split(0, a * 4 + b / 16, 256);
  }
}
