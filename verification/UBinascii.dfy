/** extmod/modubinascii.c:102-204: base 64 as two passes over an output buffer, and back. Shifts and masks are
    written as products, quotients and remainders. */
module UBinascii {
  import opened Wrappers
  import opened Base64

  method B2aBase64(data: array<Byte>) returns (out: array<Byte>)
    ensures fresh(out) && out[..] == Encode(data[..]) + [10]
  {
    var n := data.Length;
    out := new Byte[(if n != 0 then ((n - 1) / 3 + 1) * 4 else 0) + 1];
    ToValues(data, out);
    ToLetters(out, data[..]);
    out[out.Length - 1] := 10;
  }

  /** The first pass: groups of three bytes become groups of four numbers. */
  method ToValues(data: array<Byte>, out: array<Byte>)
    requires data != out && out.Length == 4 * Groups(data.Length) + 1
    modifies out
    ensures forall j | 0 <= j < out.Length - 1 :: out[j] == EncodedValue(data[..], j)
  {
    var i, p := data.Length, 0;
    ghost var g := 0;
    while i >= 3
      invariant data.Length - i == 3 * g && p == 4 * g && 0 <= i
      invariant forall j | 0 <= j < p :: out[j] == EncodedValue(data[..], j)
    {
      FullGroup(data, out, data.Length - i, p, g);
      p, i, g := p + 4, i - 3, g + 1;
    }
    if i != 0 {
      LastGroup(data, out, data.Length - i, p, g);
    }
  }

  method PutFour(out: array<Byte>, p: nat, v0: Byte, v1: Byte, v2: Byte, v3: Byte)
    requires p + 4 <= out.Length
    modifies out
    ensures forall j | 0 <= j < out.Length && !(p <= j < p + 4) :: out[j] == old(out[j])
    ensures out[p] == v0 && out[p + 1] == v1 && out[p + 2] == v2 && out[p + 3] == v3
  {
    out[p] := v0;
    out[p + 1] := v1;
    out[p + 2] := v2;
    out[p + 3] := v3;
  }

  /** Lines 165-168. */
  method FullGroup(data: array<Byte>, out: array<Byte>, k: nat, p: nat, ghost g: nat)
    requires data != out && k == 3 * g && p == 4 * g && k + 3 <= data.Length && p + 4 <= out.Length
    modifies out
    ensures forall j | 0 <= j < out.Length && !(p <= j < p + 4) :: out[j] == old(out[j])
    ensures forall j | p <= j < p + 4 :: out[j] == EncodedValue(data[..], j)
  {
    ghost var d := data[..];
    EncodedGroup(d, g);
    var a, b, c := data[k], data[k + 1], data[k + 2];
    assert ByteAt(d, 3 * g) == a && ByteAt(d, 3 * g + 1) == b && ByteAt(d, 3 * g + 2) == c;
    PutFour(out, p, a / 4, a % 4 * 16 + b / 16, b % 16 * 4 + c / 64, c % 64);
  }

  /** Lines 172-181. */
  method LastGroup(data: array<Byte>, out: array<Byte>, k: nat, p: nat, ghost g: nat)
    requires data != out && k == 3 * g && p == 4 * g && k < data.Length < k + 3 && p + 4 <= out.Length
    modifies out
    ensures forall j | 0 <= j < out.Length && !(p <= j < p + 4) :: out[j] == old(out[j])
    ensures forall j | p <= j < p + 4 :: out[j] == EncodedValue(data[..], j)
  {
    EncodedGroup(data[..], g);
    var a := data[k];
    if data.Length - k == 2 {
      var b := data[k + 1];
      PutFour(out, p, a / 4, a % 4 * 16 + b / 16, b % 16 * 4, 64);
    } else {
      PutFour(out, p, a / 4, a % 4 * 16, 64, 64);
    }
  }

  /** The second pass: the numbers become characters, in place. */
  method ToLetters(out: array<Byte>, ghost data: seq<Byte>)
    requires out.Length == 4 * Groups(|data|) + 1
    requires forall j | 0 <= j < out.Length - 1 :: out[j] == EncodedValue(data, j)
    modifies out
    ensures forall j | 0 <= j < out.Length - 1 :: out[j] == Encode(data)[j]
  {
    var j, p := out.Length - 1, 0;
    while j > 0
      invariant 0 <= j && p == out.Length - 1 - j
      invariant forall q | 0 <= q < p :: out[q] == Encode(data)[q]
      invariant forall q | p <= q < out.Length - 1 :: out[q] == EncodedValue(data, q)
    {
      if out[p] < 26 {
        out[p] := out[p] + 65;
      } else if out[p] < 52 {
        out[p] := out[p] + 97 - 26;
      } else if out[p] < 62 {
        out[p] := out[p] + 48 - 52;
      } else if out[p] == 62 {
        out[p] := 43;
      } else if out[p] == 63 {
        out[p] := 47;
      } else {
        out[p] := 61;
      }
      p, j := p + 1, j - 1;
    }
  }

  // ---------- decoding ----------

  /** What is wrong with a group, looked at from its last character on. */
  function GroupProblem(text: seq<Byte>, g: nat): Option<Error>
    requires 4 * g + 4 <= |text|
  {
    if Problem(text, 4 * g + 3).Some? then Problem(text, 4 * g + 3)
    else if Problem(text, 4 * g + 2).Some? then Problem(text, 4 * g + 2)
    else if Problem(text, 4 * g + 1).Some? then Problem(text, 4 * g + 1)
    else Problem(text, 4 * g)
  }

  /** The problem of the first group that has one, from group g on. */
  function FirstProblem(text: seq<Byte>, g: nat): (r: Option<Error>)
    requires |text| % 4 == 0 && 4 * g <= |text|
    ensures r.None? ==> forall p {:trigger Problem(text, p)} | 4 * g <= p < |text| :: Problem(text, p).None?
    decreases |text| - 4 * g
  {
    if 4 * g == |text| then None
    else if GroupProblem(text, g).Some? then GroupProblem(text, g)
    else
      FirstProblem(text, g + 1)
  }

  /** Lines 111-116: the length of the result as the last two characters announce it. */
  function Announced(text: seq<Byte>): nat
    requires |text| % 4 == 0
  {
    if text == [] then 0
    else |text| / 4 * 3 - if IsPad(text, |text| - 1) then if IsPad(text, |text| - 2) then 2 else 1 else 0
  }

  /** A text without a problem is fine, and the other way round. */
  lemma {:induction false} FineIff(text: seq<Byte>, g: nat)
    requires |text| % 4 == 0 && 4 * g <= |text|
    ensures FirstProblem(text, g).None? <==> forall p {:trigger Problem(text, p)} | 4 * g <= p < |text| :: Problem(text, p).None?
    decreases |text| - 4 * g
  {
    if 4 * g < |text| {
      FineIff(text, g + 1);
    }
  }

  /** Lines 102-151. Of the announced bytes, those that belong to the text are written. */
  method A2bBase64(text: array<Byte>) returns (r: Result<array<Byte>, Error>)
    ensures text.Length % 4 != 0 ==> r == Err(IncorrectPadding)
    ensures text.Length % 4 == 0 ==>
              match FirstProblem(text[..], 0)
              case Some(e) => r == Err(e)
              case None =>
                var t := text[..];
                && r.Ok? && fresh(r.value) && r.value.Length == Announced(t)
                && IsFine(t) && DecodedLength(t) <= Announced(t) && r.value[..DecodedLength(t)] == Decode(t)
  {
    if text.Length % 4 != 0 {
      return Err(IncorrectPadding);
    }
    var length := OutLength(text);
    var out := new Byte[length];
    FineIff(text[..], 0);
    var problem := DecodeInto(text, out);
    if problem.Some? {
      return Err(problem.value);
    }
    return Ok(out);
  }

  /** Lines 118-149: the loop over the groups. */
  method DecodeInto(text: array<Byte>, out: array<Byte>) returns (problem: Option<Error>)
    requires text != out && text.Length % 4 == 0 && out.Length == Announced(text[..])
    modifies out
    ensures problem == FirstProblem(text[..], 0)
    ensures problem.None? ==>
              var t := text[..];
              IsFine(t) && DecodedLength(t) <= out.Length && out[..DecodedLength(t)] == Decode(t)
  {
    ghost var t := text[..];
    var hold := new Byte[4];
    var i, p := text.Length, 0;
    ghost var g := 0;
    while i != 0
      invariant text.Length - i == 4 * g && 0 <= i
      invariant FirstProblem(t, 0) == FirstProblem(t, g)
      invariant p == Written(t, g) <= out.Length && IsDecoded(t, out[..p], g)
    {
      problem, p := DecodeGroup(text, text.Length - i, i, hold, out, p, t, g);
      if problem.Some? {
        return;
      }
      i, g := i - 4, g + 1;
    }
    FineIff(t, 0);
    AllDecoded(t, out[..p]);
    problem := None;
  }

  /** Lines 119-148: the body of the loop. */
  method DecodeGroup(text: array<Byte>, k: nat, i: nat, hold: array<Byte>, out: array<Byte>, p: nat, ghost t: seq<Byte>, ghost g: nat)
    returns (problem: Option<Error>, p': nat)
    requires t == text[..] && |t| % 4 == 0 && k == 4 * g && k + 4 <= |t| && i == |t| - k
    requires hold != text && hold != out && text != out && hold.Length == 4
    requires p == Written(t, g) && out.Length == Announced(t) && IsDecoded(t, out[..p], g)
    modifies hold, out
    ensures problem == GroupProblem(t, g)
    ensures problem.None? ==> p' == Written(t, g + 1) <= out.Length && IsDecoded(t, out[..p'], g + 1)
  {
    p' := p;
    problem := ReadGroup(text, k, i, hold, t, g);
    if problem.None? {
      p' := WriteGroup(hold, out, p, t, g);
    }
  }

  /** How many bytes the first g groups give. */
  function Written(text: seq<Byte>, g: nat): int {
    if g > 0 && 4 * g == |text| then DecodedLength(text) else 3 * g
  }

  /** The bytes are those of the first g groups, which are fine. */
  ghost predicate IsDecoded(text: seq<Byte>, bytes: seq<Byte>, g: nat) {
    && 4 * g <= |text| && (forall h | 0 <= h < g :: IsFineGroup(text, h))
    && |bytes| == Written(text, g)
    && forall k | 0 <= k < |bytes| :: k / 3 < g && bytes[k] == EightBits(TextNumber(text, k / 3), k % 3)
  }

  lemma AllDecoded(text: seq<Byte>, bytes: seq<Byte>)
    requires |text| % 4 == 0 && IsDecoded(text, bytes, |text| / 4) && IsFine(text)
    ensures bytes == Decode(text)
  {
  }

  method OutLength(text: array<Byte>) returns (length: nat)
    requires text.Length % 4 == 0
    ensures length == Announced(text[..])
  {
    if text.Length == 0 {
      return 0;
    }
    length := text.Length / 4 * 3
      - if text[text.Length - 1] == 61 then if text[text.Length - 2] == 61 then 2 else 1 else 0;
  }

  /** The source's test for misplaced padding, on the characters that are left. */
  lemma ProblemAt(t: seq<Byte>, g: nat, j: nat)
    requires |t| % 4 == 0 && 4 * g + 4 <= |t| && j < 4
    ensures Problem(t, 4 * g + j) ==
            match ValueOf(t[4 * g + j])
            case None => Some(InvalidCharacter)
            case Some(v) => if v == PAD && (j < 2 || |t| - 4 * g > 4) then Some(IncorrectPadding) else None
  {
    GroupOf(g, j);
  }

  /** Lines 119-139: the values of a group, from its last character on. */
  method ReadGroup(text: array<Byte>, k: nat, i: nat, hold: array<Byte>, ghost t: seq<Byte>, ghost g: nat)
    returns (problem: Option<Error>)
    requires t == text[..] && |t| % 4 == 0 && k == 4 * g && k + 4 <= |t| && i == |t| - k
    requires hold != text && hold.Length == 4
    modifies hold
    ensures problem == GroupProblem(t, g)
    ensures problem.None? ==> IsFineGroup(t, g) && forall j | 0 <= j < 4 :: ValueOf(t[4 * g + j]) == Some(hold[j])
  {
    problem := None;
    for j := 4 downto 0
      invariant text[..] == t && forall h | j <= h < 4 :: ValueOf(t[4 * g + h]) == Some(hold[h])
      invariant (j <= 3 ==> Problem(t, 4 * g + 3).None?) && (j <= 2 ==> Problem(t, 4 * g + 2).None?)
      invariant (j <= 1 ==> Problem(t, 4 * g + 1).None?) && (j <= 0 ==> Problem(t, 4 * g).None?)
    {
      var v := ValueOf(text[k + j]);
      ProblemAt(t, g, j);
      if v.None? {
        return Some(InvalidCharacter);
      } else if v.value == PAD && (j < 2 || i > 4) {
        return Some(IncorrectPadding);
      }
      hold[j] := v.value;
    }
  }

  lemma GroupValues(t: seq<Byte>, g: nat, h0: Byte, h1: Byte, h2: Byte, h3: Byte)
    requires |t| % 4 == 0 && 4 * g + 4 <= |t| && IsFineGroup(t, g)
    requires ValueOf(t[4 * g]) == Some(h0) && ValueOf(t[4 * g + 1]) == Some(h1)
    requires ValueOf(t[4 * g + 2]) == Some(h2) && ValueOf(t[4 * g + 3]) == Some(h3)
    ensures h0 < 64 && h1 < 64 && EightBits(TextNumber(t, g), 0) == h0 * 4 + h1 / 16
    ensures h2 < 64 ==> EightBits(TextNumber(t, g), 1) == h1 % 16 * 16 + h2 / 4
    ensures h2 < 64 && h3 < 64 ==> EightBits(TextNumber(t, g), 2) == h2 % 4 * 64 + h3
    ensures Written(t, g) == 3 * g
    ensures Written(t, g + 1) == 3 * g + (if h2 == 64 then 1 else if h3 == 64 then 2 else 3) <= Announced(t)
  {
    GroupOf(g, 0);
    GroupOf(g, 1);
    GroupOf(g, 2);
    GroupOf(g, 3);
    assert Problem(t, 4 * g).None? && Problem(t, 4 * g + 1).None? && Problem(t, 4 * g + 2).None? && Problem(t, 4 * g + 3).None?;
    DecodedGroup(h0, h1, if h2 == 64 then 0 else h2, if h3 == 64 then 0 else h3);
  }

  /** Lines 142-148. */
  method WriteGroup(hold: array<Byte>, out: array<Byte>, p: nat, ghost t: seq<Byte>, ghost g: nat) returns (p': nat)
    requires |t| % 4 == 0 && 4 * g + 4 <= |t| && IsFineGroup(t, g) && hold != out && hold.Length == 4
    requires forall j | 0 <= j < 4 :: ValueOf(t[4 * g + j]) == Some(hold[j])
    requires p == Written(t, g) && out.Length == Announced(t) && IsDecoded(t, out[..p], g)
    modifies out
    ensures p' == Written(t, g + 1) <= out.Length && IsDecoded(t, out[..p'], g + 1)
  {
    GroupValues(t, g, hold[0], hold[1], hold[2], hold[3]);
    ghost var before := out[..p];
    out[p] := hold[0] * 4 + hold[1] / 16;
    p' := p + 1;
    if hold[2] != 64 {
      out[p'] := hold[1] % 16 * 16 + hold[2] / 4;
      p' := p' + 1;
      if hold[3] != 64 {
        out[p'] := hold[2] % 4 * 64 + hold[3];
        p' := p' + 1;
      }
    }
    DecodedMore(t, before, out[..p'], g);
  }

  lemma DecodedMore(t: seq<Byte>, before: seq<Byte>, after: seq<Byte>, g: nat)
    requires |t| % 4 == 0 && 4 * g + 4 <= |t| && IsDecoded(t, before, g) && IsFineGroup(t, g)
    requires |before| == 3 * g <= |after| <= 3 * g + 3 && |after| == Written(t, g + 1)
    requires before == after[..3 * g]
    requires forall k | 3 * g <= k < |after| :: after[k] == EightBits(TextNumber(t, g), k - 3 * g)
    ensures IsDecoded(t, after, g + 1)
  {
    forall k | 0 <= k < |after|
      ensures k / 3 < g + 1 && IsFineGroup(t, k / 3) && after[k] == EightBits(TextNumber(t, k / 3), k % 3)
    {
      if k < 3 * g {
        assert before[k] == after[k];
      }
    }
  }

  /** The announced length is that of the bytes that are written, exactly unless the text ends with padding before
      its last character; then two more bytes are announced, which nothing writes. */
  lemma AnnouncedIff(text: seq<Byte>)
    requires IsFine(text)
    ensures Announced(text) == DecodedLength(text) <==> !(IsPad(text, |text| - 2) && !IsPad(text, |text| - 1))
    ensures Announced(text) != DecodedLength(text) ==> Announced(text) == DecodedLength(text) + 2
  {
  }

  lemma EncodedIsAnnounced(data: seq<Byte>)
    ensures IsFine(Encode(data)) && Announced(Encode(data)) == |data|
  {
    DecodeOfEncode(data);
    var n := |Encode(data)|;
    if n > 0 {
      PadOnlyAtEnd(data, n - 1);
      PadOnlyAtEnd(data, n - 2);
    }
  }

  /** A text that announces more than it holds. */
  lemma PaddingBeforeTheEnd()
    ensures var text: seq<Byte> := [65, 65, 61, 65];
            IsFine(text) && Announced(text) == 3 && DecodedLength(text) == 1
  {
    var text: seq<Byte> := [65, 65, 61, 65];
    assert Problem(text, 0).None? && Problem(text, 1).None? && Problem(text, 2).None? && Problem(text, 3).None?;
  }
}
