/** The JSON grammar of section 2 of RFC 4627, as derivation trees: the text of a tree, with its whitespace
    and escapes, and the value that the grammar assigns to it. A char stands for one byte of the text. */
module JsonGrammar {

  // ---------- values ----------

  datatype Prim =
    | NoneObj
    | Bool(b: bool)
    | Int(n: int)
    | Float(text: string)  // the number that mp_parse_num_decimal makes of the text
    | Str(bytes: string)

  datatype Json = Leaf(p: Prim) | List(items: seq<Json>) | Dict(members: map<Prim, Json>)

  // ---------- derivations ----------

  /** One character of a string: unescaped, a two-character escape, or \uXXXX. */
  datatype Item = Raw(c: char) | Short(c: char) | Unicode(hex: string)

  datatype Exponent = NoExponent | Exponent(e: char, sign: string, digits: string)

  datatype Cst =
    | CNull
    | CFalse
    | CTrue
    | CNumber(minus: bool, whole: string, frac: string, exp: Exponent)
    | CString(items: seq<Item>)
    | CList(ws: string, elems: Elems)
    | CDict(ws: string, members: Members)

  datatype Elems = NoElem | Elem(before: string, v: Cst, after: string, tail: Elems)

  datatype Members =
    | NoMember
    | Member(before: string, key: seq<Item>, afterKey: string, beforeValue: string, v: Cst, after: string, tail: Members)

  // ---------- well-formed derivations ----------

  predicate IsSpace(c: char) {
    c == ' ' || c == '\t' || c == '\n' || c == '\r'
  }

  predicate IsWs(s: string) {
    forall i | 0 <= i < |s| :: IsSpace(s[i])
  }

  predicate IsDigit(c: char) {
    '0' <= c <= '9'
  }

  predicate Digits(s: string) {
    forall i | 0 <= i < |s| :: IsDigit(s[i])
  }

  predicate IsHexDigit(c: char) {
    '0' <= c <= '9' || 'a' <= c <= 'f' || 'A' <= c <= 'F'
  }

  const SHORT_ESCAPES := ['"', '\\', '/', 'b', 'f', 'n', 'r', 't']

  predicate WfItem(it: Item) {
    match it
    case Raw(c) => c as int >= 0x20 && c != '"' && c != '\\'
    case Short(c) => c in SHORT_ESCAPES
    case Unicode(hex) => |hex| == 4 && forall i | 0 <= i < 4 :: IsHexDigit(hex[i])
  }

  predicate WfItems(items: seq<Item>) {
    forall i | 0 <= i < |items| :: WfItem(items[i])
  }

  predicate WfExponent(x: Exponent) {
    x.Exponent? ==> (x.e == 'e' || x.e == 'E') && (x.sign == "" || x.sign == "+" || x.sign == "-")
                    && x.digits != "" && Digits(x.digits)
  }

  predicate Wf(c: Cst) {
    match c
    case CNumber(_, whole, frac, exp) =>
      && whole != "" && Digits(whole) && (whole[0] == '0' ==> |whole| == 1)
      && (frac == "" || (|frac| >= 2 && frac[0] == '.' && Digits(frac[1..])))
      && WfExponent(exp)
    case CString(items) => WfItems(items)
    case CList(ws, elems) => IsWs(ws) && WfElems(elems)
    case CDict(ws, members) => IsWs(ws) && WfMembers(members)
    case _ => true
  }

  predicate WfElems(es: Elems) {
    es.Elem? ==> IsWs(es.before) && Wf(es.v) && IsWs(es.after) && WfElems(es.tail)
  }

  predicate WfMembers(ms: Members) {
    ms.Member? ==> IsWs(ms.before) && WfItems(ms.key) && IsWs(ms.afterKey) && IsWs(ms.beforeValue)
                   && Wf(ms.v) && IsWs(ms.after) && WfMembers(ms.tail)
  }

  // ---------- the text of a derivation ----------

  function ItemText(it: Item): string {
    match it
    case Raw(c) => [c]
    case Short(c) => ['\\', c]
    case Unicode(hex) => "\\u" + hex
  }

  function ItemsText(items: seq<Item>): string {
    if items == [] then "" else ItemText(items[0]) + ItemsText(items[1..])
  }

  function StringThen(items: seq<Item>, rest: string): string {
    "\"" + (ItemsText(items) + ("\"" + rest))
  }

  function ExponentText(x: Exponent): string {
    if x.NoExponent? then "" else [x.e] + x.sign + x.digits
  }

  function NumberText(minus: bool, whole: string, frac: string, exp: Exponent): string {
    (if minus then "-" else "") + whole + frac + ExponentText(exp)
  }

  /** The text of c, followed by `rest`. */
  function TextThen(c: Cst, rest: string): string {
    match c
    case CNull => "null" + rest
    case CFalse => "false" + rest
    case CTrue => "true" + rest
    case CNumber(minus, whole, frac, exp) => NumberText(minus, whole, frac, exp) + rest
    case CString(items) => StringThen(items, rest)
    case CList(ws, elems) => "[" + (ws + ElemsThen(elems, "]" + rest))
    case CDict(ws, members) => "{" + (ws + MembersThen(members, "}" + rest))
  }

  function ElemsThen(es: Elems, rest: string): string {
    match es
    case NoElem => rest
    case Elem(before, v, after, tail) =>
      before + TextThen(v, after + (if tail.NoElem? then rest else "," + ElemsThen(tail, rest)))
  }

  function MembersThen(ms: Members, rest: string): string {
    match ms
    case NoMember => rest
    case Member(before, key, afterKey, beforeValue, v, after, tail) =>
      before + StringThen(key, afterKey + (":" + (beforeValue +
        TextThen(v, after + (if tail.NoMember? then rest else "," + MembersThen(tail, rest))))))
  }

  // ---------- the value of a derivation ----------

  function DigitValue(c: char): nat
    requires IsDigit(c)
  {
    c as int - '0' as int
  }

  function DecimalValue(s: string): nat
    requires Digits(s)
  {
    if s == "" then 0 else 10 * DecimalValue(s[..|s| - 1]) + DigitValue(s[|s| - 1])
  }

  function HexDigitValue(c: char): nat
    requires IsHexDigit(c)
  {
    if c <= '9' then c as int - '0' as int
    else if c <= 'F' then c as int - 'A' as int + 10
    else c as int - 'a' as int + 10
  }

  function HexValue(hex: string): nat
    requires |hex| == 4 && forall i | 0 <= i < 4 :: IsHexDigit(hex[i])
  {
    ((HexDigitValue(hex[0]) * 16 + HexDigitValue(hex[1])) * 16 + HexDigitValue(hex[2])) * 16 + HexDigitValue(hex[3])
  }

  function ShortValue(c: char): char {
    match c
    case 'b' => 8 as char
    case 'f' => 12 as char
    case 'n' => '\n'
    case 'r' => '\r'
    case 't' => '\t'
    case _ => c
  }

  function ByteChar(b: nat): char
    requires b < 256
  {
    b as char
  }

  /** The bytes that encode one code point in UTF-8. */
  function Utf8(c: nat): string {
    if c < 0x80 then [ByteChar(c)]
    else if c < 0x800 then [ByteChar(0xC0 + c / 0x40), ByteChar(0x80 + c % 0x40)]
    else if c < 0x10000 then
      [ByteChar(0xE0 + c / 0x1000), ByteChar(0x80 + c / 0x40 % 0x40), ByteChar(0x80 + c % 0x40)]
    else
      [ByteChar((0xF0 + c / 0x40000) % 256), ByteChar(0x80 + c / 0x1000 % 0x40), ByteChar(0x80 + c / 0x40 % 0x40),
       ByteChar(0x80 + c % 0x40)]
  }

  /** The bytes of one character, a \uXXXX escape on its own. */
  function ItemBytes(it: Item): string
    requires WfItem(it)
  {
    match it
    case Raw(c) => [c]
    case Short(c) => [ShortValue(c)]
    case Unicode(hex) => Utf8(HexValue(hex))
  }

  predicate IsHigh(it: Item)
    requires WfItem(it)
  {
    it.Unicode? && 0xD800 <= HexValue(it.hex) < 0xDC00
  }

  predicate IsLow(it: Item)
    requires WfItem(it)
  {
    it.Unicode? && 0xDC00 <= HexValue(it.hex) < 0xE000
  }

  /** A surrogate pair: two escapes that together stand for one character (section 2.5). */
  predicate StartsWithPair(items: seq<Item>)
    requires WfItems(items)
  {
    |items| >= 2 && IsHigh(items[0]) && IsLow(items[1])
  }

  function PairBytes(high: Item, low: Item): string
    requires WfItem(high) && WfItem(low) && IsHigh(high) && IsLow(low)
  {
    Utf8(0x10000 + (HexValue(high.hex) - 0xD800) * 0x400 + (HexValue(low.hex) - 0xDC00))
  }

  /** The bytes of a string as the grammar means it. */
  function StringBytes(items: seq<Item>): string
    requires WfItems(items)
  {
    if items == [] then ""
    else if StartsWithPair(items) then PairBytes(items[0], items[1]) + StringBytes(items[2..])
    else ItemBytes(items[0]) + StringBytes(items[1..])
  }

  /** The same with every escape on its own. */
  function UnitBytes(items: seq<Item>): string
    requires WfItems(items)
  {
    if items == [] then "" else ItemBytes(items[0]) + UnitBytes(items[1..])
  }

  function Signed(minus: bool, n: int): int {
    if minus then -n else n
  }

  function NumberValue(minus: bool, whole: string, frac: string, exp: Exponent): Prim
    requires Digits(whole)
  {
    if frac == "" && exp.NoExponent? then Int(Signed(minus, DecimalValue(whole)))
    else Float(NumberText(minus, whole, frac, exp))
  }

  /** The value of c. `pairs` tells whether surrogate pairs are joined. */
  function Value(c: Cst, pairs: bool): Json
    requires Wf(c)
  {
    match c
    case CNull => Leaf(NoneObj)
    case CFalse => Leaf(Bool(false))
    case CTrue => Leaf(Bool(true))
    case CNumber(minus, whole, frac, exp) => Leaf(NumberValue(minus, whole, frac, exp))
    case CString(items) => Leaf(StringValue(items, pairs))
    case CList(_, elems) => List(ElemValues(elems, pairs))
    case CDict(_, members) => Dict(MemberValues(members, map[], pairs))
  }

  function StringValue(items: seq<Item>, pairs: bool): Prim
    requires WfItems(items)
  {
    Str(if pairs then StringBytes(items) else UnitBytes(items))
  }

  function ElemValues(es: Elems, pairs: bool): seq<Json>
    requires WfElems(es)
  {
    if es.NoElem? then [] else [Value(es.v, pairs)] + ElemValues(es.tail, pairs)
  }

  /** A later member with the same name replaces an earlier one. */
  function MemberValues(ms: Members, m: map<Prim, Json>, pairs: bool): map<Prim, Json>
    requires WfMembers(ms)
  {
    if ms.NoMember? then m
    else MemberValues(ms.tail, m[StringValue(ms.key, pairs) := Value(ms.v, pairs)], pairs)
  }

  // ---------- what the parser does not do ----------

  /** Some number has an exponent with a plus sign. */
  predicate HasPlus(c: Cst) {
    match c
    case CNumber(_, _, _, exp) => exp.Exponent? && exp.sign == "+"
    case CList(_, elems) => ElemsHavePlus(elems)
    case CDict(_, members) => MembersHavePlus(members)
    case _ => false
  }

  predicate ElemsHavePlus(es: Elems) {
    es.Elem? && (HasPlus(es.v) || ElemsHavePlus(es.tail))
  }

  predicate MembersHavePlus(ms: Members) {
    ms.Member? && (HasPlus(ms.v) || MembersHavePlus(ms.tail))
  }

  predicate NoPairs(items: seq<Item>)
    requires WfItems(items)
  {
    forall i | 0 <= i < |items| :: !PairAt(items, i)
  }

  predicate PairAt(items: seq<Item>, i: nat)
    requires WfItems(items)
  {
    i + 1 < |items| && IsHigh(items[i]) && IsLow(items[i + 1])
  }

  /** No string of c has a surrogate pair. */
  predicate Plain(c: Cst)
    requires Wf(c)
  {
    match c
    case CString(items) => NoPairs(items)
    case CList(_, elems) => PlainElems(elems)
    case CDict(_, members) => PlainMembers(members)
    case _ => true
  }

  predicate PlainElems(es: Elems)
    requires WfElems(es)
  {
    es.Elem? ==> Plain(es.v) && PlainElems(es.tail)
  }

  predicate PlainMembers(ms: Members)
    requires WfMembers(ms)
  {
    ms.Member? ==> NoPairs(ms.key) && Plain(ms.v) && PlainMembers(ms.tail)
  }

  // ---------- surrogate pairs ----------

  lemma PairLengths(high: Item, low: Item)
    requires WfItem(high) && WfItem(low) && IsHigh(high) && IsLow(low)
    ensures |PairBytes(high, low)| == 4 && |ItemBytes(high)| == |ItemBytes(low)| == 3
  {
    var h, l := HexValue(high.hex) - 0xD800, HexValue(low.hex) - 0xDC00;
    assert 0x10000 <= 0x10000 + h * 0x400 + l;
  }

  lemma {:induction false} UnitsNotShorter(items: seq<Item>)
    requires WfItems(items)
    ensures |UnitBytes(items)| >= |StringBytes(items)|
    ensures !NoPairs(items) ==> |UnitBytes(items)| > |StringBytes(items)|
    decreases |items|
  {
    if items == [] {
    } else if StartsWithPair(items) {
      PairLengths(items[0], items[1]);
      assert UnitBytes(items) == ItemBytes(items[0]) + (ItemBytes(items[1]) + UnitBytes(items[2..])) by {
        assert items[1..][1..] == items[2..];
      }
      UnitsNotShorter(items[2..]);
    } else {
      UnitsNotShorter(items[1..]);
      if !NoPairs(items) {
        var i: nat :| i < |items| && PairAt(items, i);
        assert PairAt(items[1..], i - 1);
      }
    }
  }

  lemma {:induction false} PlainUnits(items: seq<Item>)
    requires WfItems(items) && NoPairs(items)
    ensures UnitBytes(items) == StringBytes(items)
    decreases |items|
  {
    if items == [] {
    } else {
      assert !PairAt(items, 0);
      forall i | 0 <= i < |items[1..]| ensures !PairAt(items[1..], i) {
        assert !PairAt(items, i + 1);
      }
      PlainUnits(items[1..]);
    }
  }

  /** Decoding escape by escape gives the string of the grammar exactly when no two escapes form a pair. */
  lemma UnitsAreStringIffPlain(items: seq<Item>)
    requires WfItems(items)
    ensures UnitBytes(items) == StringBytes(items) <==> NoPairs(items)
  {
    UnitsNotShorter(items);
    if NoPairs(items) {
      PlainUnits(items);
    }
  }

  lemma {:induction false} PlainValue(c: Cst)
    requires Wf(c) && Plain(c)
    ensures Value(c, false) == Value(c, true)
    decreases c, 1
  {
    match c
    case CString(items) => PlainUnits(items);
    case CList(_, elems) => PlainElemValues(elems);
    case CDict(_, members) => PlainMemberValues(members, map[]);
    case _ =>
  }

  lemma {:induction false} PlainElemValues(es: Elems)
    requires WfElems(es) && PlainElems(es)
    ensures ElemValues(es, false) == ElemValues(es, true)
    decreases es, 0
  {
    if es.Elem? {
      PlainValue(es.v);
      PlainElemValues(es.tail);
    }
  }

  lemma {:induction false} PlainMemberValues(ms: Members, m: map<Prim, Json>)
    requires WfMembers(ms) && PlainMembers(ms)
    ensures MemberValues(ms, m, false) == MemberValues(ms, m, true)
    decreases ms, 0
  {
    if ms.Member? {
      PlainUnits(ms.key);
      PlainValue(ms.v);
      PlainMemberValues(ms.tail, m[StringValue(ms.key, true) := Value(ms.v, true)]);
    }
  }
}
