/** extmod/modubinascii.c: the alphabet of Table 1 and the examples of section 10 of RFC 4648, and which texts the decoder
    takes. */
module Base64Table {
  import opened Base64
  import opened UBinascii
  import opened Wrappers

  const CAPITALS := "ABCDEFGHIJKLMNOPQRSTUVWXYZ"
  const SMALL := "abcdefghijklmnopqrstuvwxyz"
  const DIGITS := "0123456789"

  /** Character v of the alphabet. */
  function Character(v: nat): (c: char)
    requires v < 64
    ensures c < 256 as char
  {
    if v < 26 then CAPITALS[v]
    else if v < 52 then SMALL[v - 26]
    else if v < 62 then DIGITS[v - 52]
    else if v == 62 then '+'
    else '/'
  }

  lemma LetterIsCharacter(v: nat)
    requires v < 64
    ensures Letter(v) == Character(v) as int && Letter(64) == '=' as int
  {
  }

  predicate InAlphabet(c: Byte) {
    exists v :: 0 <= v < 64 && Character(v) as int == c
  }

  /** The value of a character is its place in the alphabet, and 64 that of the equals sign. */
  lemma ValueOfCharacter(c: Byte)
    ensures ValueOf(c).Some? <==> InAlphabet(c) || c == '=' as int
    ensures ValueOf(c).Some? && ValueOf(c).value < 64 ==> Character(ValueOf(c).value) as int == c
    ensures ValueOf(c) == Some(64) <==> c == '=' as int
  {
    if ValueOf(c).Some? && ValueOf(c).value < 64 {
      LetterIsCharacter(ValueOf(c).value);
    }
    if InAlphabet(c) {
      var v :| 0 <= v < 64 && Character(v) as int == c;
      LetterIsCharacter(v);
      ValueOfLetter(v);
    }
  }

  // ---------- which texts are decoded ----------

  /** The character at p is one of the alphabet, or one of the last two and an equals sign. */
  predicate IsLegal(text: seq<Byte>, p: nat)
    requires p < |text|
  {
    InAlphabet(text[p]) || (text[p] == '=' as int && p + 2 >= |text|)
  }

  function Complaint(text: seq<Byte>, p: nat): Option<Error>
    requires p < |text|
  {
    if IsLegal(text, p) then None else Some(if text[p] == '=' as int then IncorrectPadding else InvalidCharacter)
  }

  lemma LegalIff(text: seq<Byte>, p: nat)
    requires |text| % 4 == 0 && p < |text|
    ensures Problem(text, p) == Complaint(text, p)
  {
    ValueOfCharacter(text[p]);
    if InAlphabet(text[p]) && text[p] == '=' as int {
      var v :| 0 <= v < 64 && Character(v) as int == text[p];
      LetterIsCharacter(v);
      ValueOfLetter(v);
      assert false;
    }
  }

  /** A text is decoded exactly if its length is a multiple of four, all its characters are of the alphabet, and equals
      signs are among the last two only. */
  lemma FineIffLegal(text: seq<Byte>)
    ensures IsFine(text) <==> |text| % 4 == 0 && forall p | 0 <= p < |text| :: IsLegal(text, p)
  {
    if |text| % 4 == 0 {
      forall p | 0 <= p < |text| ensures Problem(text, p).None? <==> IsLegal(text, p) {
        LegalIff(text, p);
      }
    }
  }

  /** Group g is the first one with an illegal character, and p is the place of its last one. */
  predicate IsFirstIllegal(text: seq<Byte>, g: nat, p: nat)
    requires 4 * g + 4 <= |text|
  {
    && 4 * g <= p < 4 * g + 4 && !IsLegal(text, p)
    && (forall q | 0 <= q < 4 * g :: IsLegal(text, q))
    && (forall q | p < q < 4 * g + 4 :: IsLegal(text, q))
  }

  /** The error tells whether that character is an equals sign in a wrong place or no character of the alphabet. */
  lemma ErrorIs(text: seq<Byte>, g: nat, p: nat)
    requires |text| % 4 == 0 && 4 * g + 4 <= |text| && IsFirstIllegal(text, g, p)
    ensures FirstProblem(text, 0) == Some(if text[p] == '=' as int then IncorrectPadding else InvalidCharacter)
  {
    LegalGroups(text, 0, g);
    GroupError(text, g, p);
  }

  /** What is complained about last comes first. */
  function LastOf(a: Option<Error>, b: Option<Error>, c: Option<Error>, d: Option<Error>): Option<Error> {
    if d.Some? then d else if c.Some? then c else if b.Some? then b else a
  }

  lemma GroupProblemIs(text: seq<Byte>, g: nat)
    requires 4 * g + 4 <= |text|
    ensures GroupProblem(text, g) ==
            LastOf(Problem(text, 4 * g), Problem(text, 4 * g + 1), Problem(text, 4 * g + 2), Problem(text, 4 * g + 3))
  {
  }

  lemma GroupComplaint(text: seq<Byte>, g: nat)
    requires |text| % 4 == 0 && 4 * g + 4 <= |text|
    ensures GroupProblem(text, g) == LastOf(Complaint(text, 4 * g), Complaint(text, 4 * g + 1),
                                            Complaint(text, 4 * g + 2), Complaint(text, 4 * g + 3))
  {
    GroupProblemIs(text, g);
    LegalIff(text, 4 * g);
    LegalIff(text, 4 * g + 1);
    LegalIff(text, 4 * g + 2);
    LegalIff(text, 4 * g + 3);
  }

  lemma GroupError(text: seq<Byte>, g: nat, p: nat)
    requires |text| % 4 == 0 && 4 * g + 4 <= |text| && IsFirstIllegal(text, g, p)
    ensures GroupProblem(text, g) == Complaint(text, p)
  {
    GroupComplaint(text, g);
  }

  lemma LegalGroup(text: seq<Byte>, g: nat)
    requires |text| % 4 == 0 && 4 * g + 4 <= |text| && forall q | 4 * g <= q < 4 * g + 4 :: IsLegal(text, q)
    ensures GroupProblem(text, g) == None
  {
    GroupComplaint(text, g);
  }

  /** Groups of legal characters are skipped. */
  lemma {:induction false} LegalGroups(text: seq<Byte>, i: nat, g: nat)
    requires |text| % 4 == 0 && i <= g && 4 * g + 4 <= |text| && forall q | 0 <= q < 4 * g :: IsLegal(text, q)
    ensures FirstProblem(text, i) == FirstProblem(text, g)
    decreases g - i
  {
    if i < g {
      LegalGroup(text, i);
      LegalGroups(text, i + 1, g);
    }
  }

  // ---------- examples ----------

  lemma OneByte(a: Byte)
    ensures Encode([a]) == [Letter(a / 4), Letter(a % 4 * 16), 61, 61]
  {
    EncodedGroup([a], 0);
  }

  lemma TwoBytes(a: Byte, b: Byte)
    ensures Encode([a, b]) == [Letter(a / 4), Letter(a % 4 * 16 + b / 16), Letter(b % 16 * 4), 61]
  {
    EncodedGroup([a, b], 0);
  }

  lemma ThreeBytes(a: Byte, b: Byte, c: Byte)
    ensures Encode([a, b, c]) == [Letter(a / 4), Letter(a % 4 * 16 + b / 16), Letter(b % 16 * 4 + c / 64), Letter(c % 64)]
  {
    EncodedGroup([a, b, c], 0);
  }

  /** The first three bytes are encoded on their own. */
  lemma GroupThen(a: Byte, b: Byte, c: Byte, rest: seq<Byte>)
    ensures Encode([a, b, c] + rest) == Encode([a, b, c]) + Encode(rest)
  {
    var data := [a, b, c] + rest;
    assert Groups(|data|) == 1 + Groups(|rest|);
    forall j | 0 <= j < 4 * Groups(|data|)
      ensures EncodedValue(data, j) == if j < 4 then EncodedValue([a, b, c], j) else EncodedValue(rest, j - 4)
    {
      if j >= 4 {
        assert j / 4 == (j - 4) / 4 + 1 && j % 4 == (j - 4) % 4;
      }
    }
  }

  /** Section 10 of RFC 4648: "f", "fo", "foo" are encoded as "Zg==", "Zm8=", "Zm9v". */
  lemma ShortExamples()
    ensures Encode([]) == []
    ensures Encode([0x66]) == [0x5a, 0x67, 0x3d, 0x3d]
    ensures Encode([0x66, 0x6f]) == [0x5a, 0x6d, 0x38, 0x3d]
    ensures Encode([0x66, 0x6f, 0x6f]) == [0x5a, 0x6d, 0x39, 0x76]
  {
    OneByte(0x66);
    TwoBytes(0x66, 0x6f);
    ThreeBytes(0x66, 0x6f, 0x6f);
  }

  lemma EndExamples()
    ensures Encode([0x62]) == [0x59, 0x67, 0x3d, 0x3d]
    ensures Encode([0x62, 0x61]) == [0x59, 0x6d, 0x45, 0x3d]
    ensures Encode([0x62, 0x61, 0x72]) == [0x59, 0x6d, 0x46, 0x79]
  {
    OneByte(0x62);
    TwoBytes(0x62, 0x61);
    ThreeBytes(0x62, 0x61, 0x72);
  }

  /** And "foob", "fooba", "foobar" as "Zm9vYg==", "Zm9vYmE=", "Zm9vYmFy". */
  lemma LongExamples()
    ensures Encode([0x66, 0x6f, 0x6f] + [0x62]) == [0x5a, 0x6d, 0x39, 0x76] + [0x59, 0x67, 0x3d, 0x3d]
    ensures Encode([0x66, 0x6f, 0x6f] + [0x62, 0x61]) == [0x5a, 0x6d, 0x39, 0x76] + [0x59, 0x6d, 0x45, 0x3d]
    ensures Encode([0x66, 0x6f, 0x6f] + [0x62, 0x61, 0x72]) == [0x5a, 0x6d, 0x39, 0x76] + [0x59, 0x6d, 0x46, 0x79]
  {
    ShortExamples();
    GroupThen(0x66, 0x6f, 0x6f, [0x62]);
    GroupThen(0x66, 0x6f, 0x6f, [0x62, 0x61]);
    GroupThen(0x66, 0x6f, 0x6f, [0x62, 0x61, 0x72]);
    EndExamples();
  }
}
