/** extmod/modujson.c and py/vstr.c: what the single readings of the parser come to, said in terms of the text alone,
    and which texts it takes beyond those of the grammar. */
module JsonReadings {
  import opened JsonGrammar
  import opened JsonParser
  import opened JsonLexing
  import opened JsonRuns
  import opened JsonDenote
  import opened Wrappers

  // ---------- integers ----------

  /** Decimal notation: the value of the digits in front counts ten times. */
  lemma DecimalNotation(s: string, c: char)
    requires Digits(s) && IsDigit(c)
    ensures Digits(s + [c]) && DecimalValue(s + [c]) == 10 * DecimalValue(s) + (c as int - 0x30)
    ensures DecimalValue("") == 0
  {
    assert (s + [c])[..|s|] == s;
  }

  function DigitChar(d: nat): (c: char)
    requires d < 10
    ensures IsDigit(c) && c as int - 0x30 == d
  {
    "0123456789"[d]
  }

  /** The number written without leading zeros, as str() does. */
  function Printed(n: nat): (s: string)
    ensures s != "" && Digits(s)
  {
    if n < 10 then [DigitChar(n)] else Printed(n / 10) + [DigitChar(n % 10)]
  }

  lemma {:induction false} PrintedValue(n: nat)
    ensures DecimalValue(Printed(n)) == n
  {
    if n < 10 {
      DecimalNotation("", DigitChar(n));
      assert "" + [DigitChar(n)] == [DigitChar(n)];
    } else {
      PrintedValue(n / 10);
      DecimalNotation(Printed(n / 10), DigitChar(n % 10));
    }
  }

  /** In the grammar, the numbers with and without a minus sign are opposite. */
  lemma MinusNegates(whole: string)
    requires whole != "" && Digits(whole)
    ensures NumberValue(false, whole, "", NoExponent) == Int(DecimalValue(whole))
    ensures var n := NumberValue(true, whole, "", NoExponent); n.Int? && n.n + DecimalValue(whole) == 0
  {
  }

  /** The parser returns the value of the digits, and its opposite behind a minus sign; leading zeros are allowed. */
  lemma IntegerLoads(whole: string)
    requires whole != "" && Digits(whole)
    ensures Load(whole, INITIAL) == Ok(Loaded([], P(Int(DecimalValue(whole)))))
    ensures Load("-" + whole, INITIAL) == Ok(Loaded([], P(Int(0 - DecimalValue(whole)))))
  {
    PlainInteger(whole);
    NegativeInteger(whole);
  }

  lemma PlainInteger(whole: string)
    requires whole != "" && Digits(whole)
    ensures Load(whole, INITIAL) == Ok(Loaded([], P(Int(DecimalValue(whole)))))
  {
    NumberLoads(whole, false, whole);
  }

  lemma NegativeInteger(whole: string)
    requires whole != "" && Digits(whole)
    ensures Load("-" + whole, INITIAL) == Ok(Loaded([], P(Int(0 - DecimalValue(whole)))))
  {
    NumberLoads("-" + whole, true, whole);
  }

  lemma NumberLoads(text: string, minus: bool, whole: string)
    requires whole != "" && Digits(whole) && text == if minus then "-" + whole else whole
    ensures Load(text, INITIAL) == Ok(Loaded([], P(Int(if minus then 0 - DecimalValue(whole) else DecimalValue(whole)))))
  {
    assert NumberText(minus, whole, "", NoExponent) == text;
    IntegerText(minus, whole);
    assert text + "" == text;
    NumberToken(text, "");
    SingleToken(text, Int(if minus then 0 - DecimalValue(whole) else DecimalValue(whole)));
  }

  lemma SingleToken(text: string, p: Prim)
    requires !AtEnd(text) && NextToken(text[0], text[1..]) == Token.Value(p, "")
    ensures Load(text, INITIAL) == Ok(Loaded([], P(p)))
  {
    assert EatSpace("") == "";
  }

  /** Every integer is read back from what str() makes of it. */
  lemma PrintedIntegerLoads(n: int)
    ensures Load(if n < 0 then "-" + Printed(-n) else Printed(n), INITIAL) == Ok(Loaded([], P(Int(n))))
  {
    var whole := Printed(if n < 0 then -n else n);
    PrintedValue(if n < 0 then -n else n);
    IntegerLoads(whole);
  }

  // ---------- characters of a string ----------

  /** Each two-character escape stands for one character: section 2.5 of RFC 4627. */
  lemma ShortEscapeLoads(c: char)
    requires WfItem(Short(c))
    ensures Load("\"\\" + [c] + "\"", INITIAL) == Ok(Loaded([], P(Str([
      if c == '"' then '"' else if c == '\\' then '\\' else if c == '/' then '/'
      else if c == 'b' then 8 as char else if c == 'f' then 12 as char else if c == 'n' then 10 as char
      else if c == 'r' then 13 as char else 9 as char]))))
    ensures c == '"' || c == '\\' || c == '/' || c == 'b' || c == 'f' || c == 'n' || c == 'r' || c == 't'
  {
    OneItemLoads(Short(c));
    assert "\"" + (ItemText(Short(c)) + "\"") == "\"\\" + [c] + "\"";
  }

  lemma OneItemLoads(it: Item)
    requires WfItem(it)
    ensures Load("\"" + (ItemText(it) + "\""), INITIAL) == Ok(Loaded([], P(Str(ItemBytes(it)))))
  {
    StringLoads([it]);
    assert ItemsText([it]) == ItemText(it) by {
      assert ItemsText([it][1..]) == "";
    }
    assert UnitBytes([it]) == ItemBytes(it) by {
      assert UnitBytes([it][1..]) == "";
    }
  }

  /** The value of a hex digit, upper or lower case. */
  lemma HexDigits(d: nat)
    requires d < 16
    ensures IsHexDigit("0123456789abcdef"[d]) && HexDigitValue("0123456789abcdef"[d]) == d
    ensures IsHexDigit("0123456789ABCDEF"[d]) && HexDigitValue("0123456789ABCDEF"[d]) == d
  {
  }

  /** A character escape loads as the UTF-8 encoding of its number. */
  lemma UnicodeEscapeLoads(a: nat, b: nat, c: nat, d: nat)
    requires a < 16 && b < 16 && c < 16 && d < 16
    ensures var hex := "0123456789abcdef";
            Load("\"" + ("\\u" + [hex[a], hex[b], hex[c], hex[d]] + "\""), INITIAL)
              == Ok(Loaded([], P(Str(Utf8(a * 4096 + b * 256 + c * 16 + d)))))
  {
    HexDigits(a);
    HexDigits(b);
    HexDigits(c);
    HexDigits(d);
    var hex := "0123456789abcdef";
    var text := [hex[a], hex[b], hex[c], hex[d]];
    assert HexValue(text) == a * 4096 + b * 256 + c * 16 + d;
    OneItemLoads(Unicode(text));
  }

  predicate Continues(c: char) {
    0x80 <= c as int < 0xC0
  }

  /** The bytes are those of section 3 of RFC 3629: the first one tells how many follow, and the number is made up of
      the low bits of all. Numbers from 0x110000 on are not characters. */
  lemma Utf8Meaning(c: nat)
    requires c < 0x110000
    ensures var s := Utf8(c);
            if c < 0x80 then s == [c as char]
            else if c < 0x800 then
              && |s| == 2 && 0xC0 <= s[0] as int < 0xE0 && Continues(s[1])
              && c == (s[0] as int - 0xC0) * 64 + (s[1] as int - 0x80)
            else if c < 0x10000 then
              && |s| == 3 && 0xE0 <= s[0] as int < 0xF0 && Continues(s[1]) && Continues(s[2])
              && c == (s[0] as int - 0xE0) * 4096 + (s[1] as int - 0x80) * 64 + (s[2] as int - 0x80)
            else
              && |s| == 4 && 0xF0 <= s[0] as int < 0xF8 && Continues(s[1]) && Continues(s[2]) && Continues(s[3])
              && c == (s[0] as int - 0xF0) * 262144 + (s[1] as int - 0x80) * 4096 + (s[2] as int - 0x80) * 64
                      + (s[3] as int - 0x80)
  {
    assert c < 0x10000 ==> c / 0x1000 < 16;
    assert c / 0x40000 < 5 && (0xF0 + c / 0x40000) % 256 == 0xF0 + c / 0x40000;
    assert c == c / 0x40 * 0x40 + c % 0x40;
    var h := c / 0x40;
    assert h == h / 0x40 * 0x40 + h % 0x40 && h / 0x40 == c / 0x1000;
    var t := h / 0x40;
    assert t == t / 0x40 * 0x40 + t % 0x40 && t / 0x40 == c / 0x40000;
  }

  /** So no two numbers have the same encoding. */
  lemma Utf8IsInjective(a: nat, b: nat)
    requires a < 0x110000 && b < 0x110000 && Utf8(a) == Utf8(b)
    ensures a == b
  {
    Utf8Meaning(a);
    Utf8Meaning(b);
  }

  /** Every other character stands for itself. */
  lemma RawCharacterLoads(c: char)
    requires c as int >= 0x20 && c != '"' && c != '\\'
    ensures Load(['"', c, '"'], INITIAL) == Ok(Loaded([], P(Str([c]))))
  {
    OneItemLoads(Raw(c));
    assert "\"" + (ItemText(Raw(c)) + "\"") == ['"', c, '"'];
  }

  /** An escape with other characters than hexadecimal digits is not refused: they have values from 16 on. */
  lemma OtherNibbles()
    ensures HexNibble('g') == HexNibble('G') == 16 && HexNibble('z') == HexNibble('Z') == 35
    ensures HexNibble(' ') == 201 && HexNibble('-') == 214 && HexNibble('/') == 216 && HexNibble(':') == 227
  {
  }

  // ---------- surrogate pairs ----------

  /** Section 2.5 of RFC 4627, and section 2.1 of RFC 2781: which escapes form a pair, and what it stands for. */
  lemma SurrogatePair(high: Item, low: Item)
    requires WfItem(high) && WfItem(low)
    ensures IsHigh(high) <==> high.Unicode? && 0xD800 <= HexValue(high.hex) <= 0xDBFF
    ensures IsLow(low) <==> low.Unicode? && 0xDC00 <= HexValue(low.hex) <= 0xDFFF
    ensures IsHigh(high) && IsLow(low) ==>
              StringBytes([high, low]) == Utf8(HexValue(high.hex) * 1024 + HexValue(low.hex) - 0x35FDC00)
  {
    if IsHigh(high) && IsLow(low) {
      assert [high, low][2..] == [];
      assert StringBytes([high, low]) == PairBytes(high, low) + StringBytes([high, low][2..]);
    }
  }

  lemma TwoItems(a: Item, b: Item)
    ensures ItemsText([a, b]) == ItemText(a) + ItemText(b)
    ensures WfItem(a) && WfItem(b) ==> UnitBytes([a, b]) == ItemBytes(a) + ItemBytes(b)
  {
    assert [a, b][1..] == [b] && [b][1..] == [];
    assert ItemsText([b]) == ItemText(b) + "" && ItemsText([a, b]) == ItemText(a) + ItemsText([b]);
    if WfItem(a) && WfItem(b) {
      assert UnitBytes([b]) == ItemBytes(b) + "" && UnitBytes([a, b]) == ItemBytes(a) + UnitBytes([b]);
    }
  }

  const CLEF: seq<Item> := [Unicode("d834"), Unicode("dd1e")]

  lemma ClefNumbers()
    ensures WfItems(CLEF) && HexValue(CLEF[0].hex) == 0xD834 && HexValue(CLEF[1].hex) == 0xDD1E
  {
    assert HexValue("d834") == 0xD834 && HexValue("dd1e") == 0xDD1E;
  }

  /** The example of section 2.5, the G clef: the grammar means the four bytes of one character, the parser makes three
      bytes of each half. */
  lemma ClefBytes()
    ensures WfItems(CLEF)
    ensures StringBytes(CLEF) == [0xF0 as char, 0x9D as char, 0x84 as char, 0x9E as char]
    ensures UnitBytes(CLEF) == [0xED as char, 0xA0 as char, 0xB4 as char] + [0xED as char, 0xB4 as char, 0x9E as char]
  {
    ClefNumbers();
    SurrogatePair(CLEF[0], CLEF[1]);
    TwoItems(CLEF[0], CLEF[1]);
    assert CLEF == [CLEF[0], CLEF[1]];
    HalvesOfClef();
  }

  lemma HalvesOfClef()
    ensures Utf8(0xD834) == [0xED as char, 0xA0 as char, 0xB4 as char]
    ensures Utf8(0xDD1E) == [0xED as char, 0xB4 as char, 0x9E as char]
    ensures Utf8(0x1D11E) == [0xF0 as char, 0x9D as char, 0x84 as char, 0x9E as char]
  {
  }

  lemma ClefLoads()
    ensures Load("\"" + ("\\ud834\\udd1e" + "\""), INITIAL) == Ok(Loaded([], P(Str(
              [0xED as char, 0xA0 as char, 0xB4 as char] + [0xED as char, 0xB4 as char, 0x9E as char]))))
  {
    ClefBytes();
    TwoItems(CLEF[0], CLEF[1]);
    assert CLEF == [CLEF[0], CLEF[1]];
    var text := ItemsText(CLEF);
    assert text == "\\ud834" + "\\udd1e" == "\\ud834\\udd1e";
    StringLoads(CLEF);
  }

  lemma StringLoads(items: seq<Item>)
    requires WfItems(items)
    ensures Load("\"" + (ItemsText(items) + "\""), INITIAL) == Ok(Loaded([], P(Str(UnitBytes(items)))))
  {
    PrimitiveText(CString(items), "");
    assert "\"" + "" == "\"";
  }

  // ---------- literals and separators ----------

  lemma LiteralsLoad()
    ensures Load("null", INITIAL) == Ok(Loaded([], P(NoneObj)))
    ensures Load("false", INITIAL) == Ok(Loaded([], P(Bool(false))))
    ensures Load("true", INITIAL) == Ok(Loaded([], P(Bool(true))))
  {
    PrimitiveText(CNull, "");
    PrimitiveText(CFalse, "");
    PrimitiveText(CTrue, "");
    assert "null" + "" == "null" && "false" + "" == "false" && "true" + "" == "true";
  }

  /** A decimal number is kept as its text, for mp_parse_num_decimal. */
  lemma DecimalLoads(minus: bool, whole: string, places: string)
    requires whole != "" && Digits(whole) && (whole[0] == '0' ==> |whole| == 1) && places != "" && Digits(places)
    ensures var text := (if minus then "-" else "") + whole + "." + places;
            Load(text, INITIAL) == Ok(Loaded([], P(Float(text))))
  {
    var text, frac := (if minus then "-" else "") + whole + "." + places, "." + places;
    assert frac[1..] == places;
    assert NumberText(minus, whole, frac, NoExponent) == text && text + "" == text;
    PrimitiveText(CNumber(minus, whole, frac, NoExponent), "");
  }

  /** The same with an exponent, which may have a minus sign but no plus sign. */
  lemma ExponentLoads(whole: string, e: char, minus: bool, digits: string)
    requires whole != "" && Digits(whole) && (whole[0] == '0' ==> |whole| == 1) && digits != "" && Digits(digits)
    requires e == 'e' || e == 'E'
    ensures var text := whole + ([e] + (if minus then "-" else "") + digits);
            Load(text, INITIAL) == Ok(Loaded([], P(Float(text))))
    ensures Load(whole + ([e] + "+" + digits), INITIAL) == Err(ValueError)
  {
    ExponentReads(whole, Exponent(e, if minus then "-" else "", digits));
    ExponentReads(whole, Exponent(e, "+", digits));
  }

  lemma ExponentReads(whole: string, exp: Exponent)
    requires Wf(CNumber(false, whole, "", exp)) && exp.Exponent?
    ensures var text := whole + ([exp.e] + exp.sign + exp.digits);
            Load(text, INITIAL) == if exp.sign == "+" then Err(ValueError) else Ok(Loaded([], P(Float(text))))
  {
    var text := whole + ([exp.e] + exp.sign + exp.digits);
    assert NumberText(false, whole, "", exp) == text && text + "" == text;
    PrimitiveText(CNumber(false, whole, "", exp), "");
  }

  /** Commas and colons are skipped like whitespace, wherever they are. */
  lemma SeparatorsAreSkipped(c: char, rest: string, s: State)
    requires ValidState(s) && c in {',', ':', ' ', '\t', '\n', '\r'}
    ensures Load([c] + rest, s) == Load(rest, s)
  {
    assert ([c] + rest)[1..] == rest;
  }

  // ---------- containers ----------

  function ElemCount(es: Elems): nat {
    if es.NoElem? then 0 else 1 + ElemCount(es.tail)
  }

  /** Element k. */
  function ElemAt(es: Elems, k: nat): (v: Cst)
    requires WfElems(es) && k < ElemCount(es)
    ensures Wf(v)
  {
    if k == 0 then es.v else ElemAt(es.tail, k - 1)
  }

  /** The value of an array is the list of the values of its elements, in their order. */
  lemma {:induction false} ArrayValue(es: Elems, pairs: bool, k: nat)
    requires WfElems(es)
    ensures |ElemValues(es, pairs)| == ElemCount(es)
    ensures k < ElemCount(es) ==> ElemValues(es, pairs)[k] == JsonGrammar.Value(ElemAt(es, k), pairs)
  {
    if es.Elem? {
      ArrayValue(es.tail, pairs, if k == 0 then 0 else k - 1);
    }
  }

  function MemberCount(ms: Members): nat {
    if ms.NoMember? then 0 else 1 + MemberCount(ms.tail)
  }

  /** Member k, and what follows it. */
  function MembersFrom(ms: Members, k: nat): (r: Members)
    requires WfMembers(ms) && k < MemberCount(ms)
    ensures r.Member? && WfMembers(r)
  {
    if k == 0 then ms else MembersFrom(ms.tail, k - 1)
  }

  /** Member k is the last one with its name. */
  ghost predicate IsLast(ms: Members, k: nat, pairs: bool)
    requires WfMembers(ms) && k < MemberCount(ms)
  {
    forall j | k < j < MemberCount(ms) ::
      StringValue(MembersFrom(ms, j).key, pairs) != StringValue(MembersFrom(ms, k).key, pairs)
  }

  /** The value of an object maps each of its names to the value of the last member with that name. */
  lemma {:induction false} ObjectValue(ms: Members, m: map<Prim, Json>, pairs: bool, k: nat)
    requires WfMembers(ms) && k < MemberCount(ms) && IsLast(ms, k, pairs)
    ensures var r, name := MemberValues(ms, m, pairs), StringValue(MembersFrom(ms, k).key, pairs);
            name in r && r[name] == JsonGrammar.Value(MembersFrom(ms, k).v, pairs)
  {
    var m1 := m[StringValue(ms.key, pairs) := JsonGrammar.Value(ms.v, pairs)];
    LastInTail(ms, pairs, k);
    if k == 0 {
      NotNamed(ms.tail, m1, pairs, StringValue(ms.key, pairs));
    } else {
      ObjectValue(ms.tail, m1, pairs, k - 1);
    }
  }

  lemma LastInTail(ms: Members, pairs: bool, k: nat)
    requires WfMembers(ms) && k < MemberCount(ms) && IsLast(ms, k, pairs)
    ensures k == 0 ==> forall j | 0 <= j < MemberCount(ms.tail) ::
                         StringValue(MembersFrom(ms.tail, j).key, pairs) != StringValue(ms.key, pairs)
    ensures k > 0 ==> MembersFrom(ms, k) == MembersFrom(ms.tail, k - 1) && IsLast(ms.tail, k - 1, pairs)
  {
    forall j | k <= j < MemberCount(ms.tail)
      ensures StringValue(MembersFrom(ms.tail, j).key, pairs) != StringValue(MembersFrom(ms, k).key, pairs)
    {
      assert MembersFrom(ms, j + 1) == MembersFrom(ms.tail, j);
    }
  }

  /** And no other name to anything. */
  lemma {:induction false} NotNamed(ms: Members, m: map<Prim, Json>, pairs: bool, name: Prim)
    requires WfMembers(ms)
    requires forall k | 0 <= k < MemberCount(ms) :: StringValue(MembersFrom(ms, k).key, pairs) != name
    ensures var r := MemberValues(ms, m, pairs); (name in r <==> name in m) && (name in m ==> r[name] == m[name])
  {
    if ms.Member? {
      assert StringValue(MembersFrom(ms, 0).key, pairs) != name;
      forall k | 0 <= k < MemberCount(ms.tail) ensures StringValue(MembersFrom(ms.tail, k).key, pairs) != name {
        assert MembersFrom(ms, k + 1) == MembersFrom(ms.tail, k);
      }
      NotNamed(ms.tail, m[StringValue(ms.key, pairs) := JsonGrammar.Value(ms.v, pairs)], pairs, name);
    }
  }

  // ---------- an example ----------

  const INNER := CDict("", Member("", [Raw('a')], "", " ", CList("", NoElem), "", NoMember))
  const EXAMPLE := CList("", Elem("", CNull, "", Elem(" ", INNER, "", NoElem)))

  lemma ExampleLoads()
    ensures var r := Load("[null, {\"a\": []}]", INITIAL);
            r.Ok? && Denote(r.value.heap, r.value.value, -1) == List([Leaf(NoneObj), Dict(map[Str("a") := List([])])])
  {
    ExampleIsWf();
    ExampleText();
    ExampleValue();
    assert Text("", EXAMPLE, "") == TextThen(EXAMPLE, "");
    LoadsEveryDerivation("", EXAMPLE, "");
  }

  lemma ExampleIsWf()
    ensures Wf(INNER) && Wf(EXAMPLE) && !HasPlus(EXAMPLE)
  {
    assert WfItems(INNER.members.key) && WfMembers(INNER.members.tail);
    assert WfElems(EXAMPLE.elems.tail);
  }

  lemma EmptyListText(rest: string)
    ensures TextThen(CList("", NoElem), rest) == "[]" + rest
  {
    assert "" + ElemsThen(NoElem, "]" + rest) == "]" + rest;
  }

  /** An object with one member, whose value follows a space. */
  lemma OneMemberText(c: char, v: Cst, value: string, rest: string)
    requires TextThen(v, "}" + rest) == value + ("}" + rest)
    ensures TextThen(CDict("", Member("", [Raw(c)], "", " ", v, "", NoMember)), rest)
         == "{" + (['"', c, '"'] + (": " + (value + ("}" + rest))))
  {
    var end := "}" + rest;
    assert "" + end == end;
    var behind := "" + (":" + (" " + TextThen(v, end)));
    RawString(c, behind);
    assert behind == ": " + (value + end);
    var ms := Member("", [Raw(c)], "", " ", v, "", NoMember);
    assert MembersThen(ms, end) == "" + StringThen([Raw(c)], behind);
    assert "" + MembersThen(ms, end) == StringThen([Raw(c)], behind);
  }

  lemma InnerText()
    ensures TextThen(INNER, "]") == "{\"a\": []}]"
  {
    EmptyListText("}" + "]");
    OneMemberText('a', CList("", NoElem), "[]", "]");
  }

  lemma RawString(c: char, rest: string)
    ensures StringThen([Raw(c)], rest) == ['"', c, '"'] + rest
  {
    assert [Raw(c)][1..] == [] && ItemsText([Raw(c)]) == [c] + "";
  }

  lemma ExampleText()
    ensures TextThen(EXAMPLE, "") == "[null, {\"a\": []}]"
  {
    InnerText();
    var es, end := EXAMPLE.elems, "]" + "";
    assert end == "]" && "" + end == end;
    var tail := ElemsThen(es.tail, end);
    assert tail == " " + TextThen(INNER, "" + end) == " {\"a\": []}]";
    var rest := "" + ("," + tail);
    assert ElemsThen(es, end) == "" + ("null" + rest);
    assert TextThen(EXAMPLE, "") == "[" + ("" + ElemsThen(es, end));
  }

  lemma ExampleValue()
    requires Wf(INNER) && Wf(EXAMPLE)
    ensures JsonGrammar.Value(EXAMPLE, false) == List([Leaf(NoneObj), Dict(map[Str("a") := List([])])])
  {
    var ms := INNER.members;
    assert StringValue(ms.key, false) == Str("a") by {
      assert ms.key[1..] == [] && UnitBytes(ms.key) == "a" + "";
    }
    assert JsonGrammar.Value(INNER, false) == Dict(map[Str("a") := List([])]);
  }

  // ---------- where a text ends ----------

  /** Whitespace up to the end, or up to a NUL, which the stream takes for its end. */
  predicate SpacesToEnd(rest: string) {
    exists n :: 0 <= n <= |rest| && EndsAfterSpaces(rest, n)
  }

  predicate EndsAfterSpaces(rest: string, n: nat) {
    && n <= |rest| && (forall i | 0 <= i < n :: rest[i] == ' ' || 9 <= rest[i] as int <= 13)
    && (n == |rest| || rest[n] == '\0')
  }

  lemma {:induction false} EatSpaceIff(rest: string)
    ensures AtEnd(EatSpace(rest)) <==> SpacesToEnd(rest)
    decreases |rest|
  {
    if IsTrailingSpace(Cur(rest)) {
      EatSpaceIff(rest[1..]);
      if n :| 0 <= n <= |rest[1..]| && EndsAfterSpaces(rest[1..], n) {
        assert forall i | 1 <= i < n + 1 :: rest[i] == rest[1..][i - 1];
        assert EndsAfterSpaces(rest, n + 1);
      }
      if n :| 0 <= n <= |rest| && EndsAfterSpaces(rest, n) {
        assert EndsAfterSpaces(rest[1..], n - 1);
      }
    } else if AtEnd(rest) {
      assert EndsAfterSpaces(rest, 0);
    }
  }

  /** Behind a complete document there may be nothing but whitespace. */
  lemma NothingMayFollow(c: Cst, rest: string)
    requires Wf(c) && !HasPlus(c) && Delimited(rest)
    ensures Load(TextThen(c, rest), INITIAL).Ok? <==> SpacesToEnd(rest)
  {
    EatSpaceIff(rest);
    match c
    case CList(ws, elems) => TopList(c, "]" + rest);
      TopEnd(']', rest, BuildElems(elems, [ListObj([])], 0));
    case CDict(ws, members) => TopDict(c, "}" + rest);
      TopEnd('}', rest, BuildMembers(members, [DictObj(map[])], 0));
    case _ =>
      PrimitiveToken(c, rest);
      var text := TextThen(c, rest);
      TokenShrinks(text[0], text[1..]);
  }

  lemma TopEnd(close: char, rest: string, heap: seq<Container>)
    requires (close == ']' || close == '}') && heap != []
    ensures Load([close] + rest, State(heap, [], Some(Obj(0)), None)).Ok? <==> AtEnd(EatSpace(rest))
  {
    assert ([close] + rest)[1..] == rest;
  }

  /** A list up to its closing bracket, followed by any `end`. */
  lemma TopList(c: Cst, end: string)
    requires Wf(c) && c.CList? && Delimited(end)
    ensures var heap := BuildElems(c.elems, [ListObj([])], 0);
            Load("[" + (c.ws + ElemsThen(c.elems, end)), INITIAL)
              == if ElemsHavePlus(c.elems) then Err(ValueError) else Load(end, State(heap, [], Some(Obj(0)), None))
  {
    var s, body := TopState(ListObj([])), ElemsThen(c.elems, end);
    TopOpens("[" + (c.ws + body), c.ws + body, ListObj([]));
    WsSkipped(c.ws, body, s);
    ElemsLoad(c.elems, end, s);
  }

  lemma TopDict(c: Cst, end: string)
    requires Wf(c) && c.CDict? && Delimited(end)
    ensures var heap := BuildMembers(c.members, [DictObj(map[])], 0);
            Load("{" + (c.ws + MembersThen(c.members, end)), INITIAL)
              == if MembersHavePlus(c.members) then Err(ValueError) else Load(end, State(heap, [], Some(Obj(0)), None))
  {
    var s, body := TopState(DictObj(map[])), MembersThen(c.members, end);
    TopOpens("{" + (c.ws + body), c.ws + body, DictObj(map[]));
    WsSkipped(c.ws, body, s);
    MembersLoad(c.members, end, s);
  }

  /** A document that is a list or an object, with `end` in place of its closing bracket. */
  function EndedBy(c: Cst, end: string): string
    requires c.CList? || c.CDict?
  {
    if c.CList? then "[" + (c.ws + ElemsThen(c.elems, end)) else "{" + (c.ws + MembersThen(c.members, end))
  }

  /** The last bracket of a document is not checked: the other kind of bracket, or none at all, gives the same. */
  lemma LastBracketIsFree(c: Cst, ws: string)
    requires Wf(c) && (c.CList? || c.CDict?) && IsWs(ws)
    ensures EndedBy(c, (if c.CList? then "]" else "}") + ws) == TextThen(c, ws)
    ensures Load(EndedBy(c, "]" + ws), INITIAL) == Load(EndedBy(c, "}" + ws), INITIAL)
         == Load(EndedBy(c, ws), INITIAL) == Load(TextThen(c, ws), INITIAL)
  {
    DelimitedWs(ws, "");
    assert ws + "" == ws;
    if c.CList? {
      TopList(c, "]" + ws);
      TopList(c, "}" + ws);
      TopList(c, ws);
      TopEnds(ws, BuildElems(c.elems, [ListObj([])], 0));
    } else {
      TopDict(c, "]" + ws);
      TopDict(c, "}" + ws);
      TopDict(c, ws);
      TopEnds(ws, BuildMembers(c.members, [DictObj(map[])], 0));
    }
  }

  lemma TopEnds(ws: string, heap: seq<Container>)
    requires IsWs(ws) && heap != []
    ensures var s := State(heap, [], Some(Obj(0)), None);
            Load("]" + ws, s) == Load("}" + ws, s) == Load(ws, s) == Ok(Loaded(heap, Obj(0)))
  {
    TopCloses(']', ws, heap);
    TopCloses('}', ws, heap);
    var s := State(heap, [], Some(Obj(0)), None);
    WsSkipped(ws, "", s);
    assert ws + "" == ws && EatSpace("") == "";
  }

  /** A text without any object is refused, and inside another container the closing bracket is needed. */
  lemma UnfinishedIsRefused(rest: string, s: State)
    requires ValidState(s) && AtEnd(rest)
    ensures s.top.None? || s.stack != [] ==> Load(rest, s) == Err(ValueError)
    ensures s.top.Some? && s.stack == [] ==> Load(rest, s) == Ok(Loaded(s.heap, s.top.value))
  {
    assert EatSpace(rest) == rest;
  }

  /** A closing bracket without an open one is refused. */
  lemma ClosingIsRefused(c: char, rest: string, s: State)
    requires ValidState(s) && s.top.None? && (c == ']' || c == '}')
    ensures Load([c] + rest, s) == Err(ValueError)
  {
    BracketToken(c, rest);
    LoadOf([c] + rest, s);
  }

  /** A container as the name of a member is refused. */
  lemma ContainerAsNameIsRefused(c: char, rest: string, s: State)
    requires ValidState(s) && s.top.Some? && s.heap[s.top.value.id].DictObj? && s.key == None && (c == '[' || c == '{')
    ensures Load([c] + rest, s) == Err(ValueError)
  {
    BracketToken(c, rest);
    LoadOf([c] + rest, s);
  }

  lemma BracketToken(c: char, rest: string)
    requires c == '[' || c == '{' || c == ']' || c == '}'
    ensures var text := [c] + rest;
            !AtEnd(text) && NextToken(text[0], text[1..])
              == if c == '[' then OpenList else if c == '{' then OpenDict else Close
  {
  }

  lemma LoadOf(text: string, s: State)
    requires ValidState(s) && !AtEnd(text)
    ensures var t := NextToken(text[0], text[1..]);
            && (t.Close? && s.top.None? ==> Load(text, s) == Err(ValueError))
            && (t.OpenList? && Enter(s, ListObj([])).None? ==> Load(text, s) == Err(ValueError))
            && (t.OpenDict? && Enter(s, DictObj(map[])).None? ==> Load(text, s) == Err(ValueError))
  {
  }
}
