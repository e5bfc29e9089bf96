/** The primitive tokens of the grammar are read as the grammar means them. */
module JsonLexing {
  import opened JsonGrammar
  import opened JsonParser
  import opened Wrappers

  // ---------- escapes ----------

  function Pow2(n: nat): nat {
    if n == 0 then 1 else 2 * Pow2(n - 1)
  }

  lemma {:induction false} OrZero(a: nat, n: nat)
    requires a < Pow2(n)
    ensures OrBits(a, 0, n) == a
  {
    if n > 0 {
      OrZero(a / 2, n - 1);
    }
  }

  lemma OrDouble(y: nat, d: nat, n: nat)
    requires n > 0
    ensures OrBits(2 * y, d, n) == d % 2 + 2 * OrBits(y, d / 2, n - 1)
  {
    assert 2 * y / 2 == y && 2 * y % 2 == 0;
  }

  lemma {:induction false} OrShift(x: nat, d: nat, k: nat, n: nat)
    requires d < Pow2(k) && k <= n && x < Pow2(n - k)
    ensures OrBits(x * Pow2(k), d, n) == x * Pow2(k) + d
    decreases k
  {
    if k == 0 {
      OrZero(x, n);
    } else {
      var y := x * Pow2(k - 1);
      assert x * Pow2(k) == 2 * y;
      OrShift(x, d / 2, k - 1, n - 1);
      OrDouble(y, d, n);
    }
  }

  lemma Pow2Of20()
    ensures Pow2(20) == 0x100000
  {
    assert Pow2(5) == 32;
    assert Pow2(10) == 1024;
    assert Pow2(15) == 32768;
  }

  /** Shifting in one hex digit. */
  lemma ShiftInDigit(num: nat, d: nat)
    requires num < 0x10000 && d < 16
    ensures ShiftIn(num, d) == 16 * num + d
  {
    assert Pow2(4) == 16;
    Pow2Of20();
    OrShift(num, d, 4, 24);
  }

  lemma FourDigits(d0: nat, d1: nat, d2: nat, d3: nat)
    requires d0 < 16 && d1 < 16 && d2 < 16 && d3 < 16
    ensures ShiftIn(ShiftIn(ShiftIn(ShiftIn(0, d0), d1), d2), d3) == ((d0 * 16 + d1) * 16 + d2) * 16 + d3
  {
    ShiftInDigit(0, d0);
    ShiftInDigit(d0, d1);
    ShiftInDigit(16 * d0 + d1, d2);
    ShiftInDigit(16 * (16 * d0 + d1) + d2, d3);
  }

  lemma HexNibbleIsValue(c: char)
    requires IsHexDigit(c)
    ensures HexNibble(c) == HexDigitValue(c) < 16
  {
  }

  lemma EscapeIsHexValue(hex: string, tail: string)
    requires |hex| == 4 && forall i | 0 <= i < 4 :: IsHexDigit(hex[i])
    ensures EscapePart("u" + hex + tail, 4) == HexValue(hex)
    ensures Advance(AdvanceBy("u" + hex + tail, 4)) == tail
  {
    var rest := "u" + hex + tail;
    EscapeUnrolled(rest);
    HexNibbleIsValue(hex[0]);
    HexNibbleIsValue(hex[1]);
    HexNibbleIsValue(hex[2]);
    HexNibbleIsValue(hex[3]);
    FourDigits(HexDigitValue(hex[0]), HexDigitValue(hex[1]), HexDigitValue(hex[2]), HexDigitValue(hex[3]));
    AdvanceByDrops(rest, 5);
    assert rest[5..] == tail;
  }

  lemma EscapeUnrolled(rest: string)
    requires |rest| >= 5
    ensures EscapePart(rest, 4)
         == ShiftIn(ShiftIn(ShiftIn(ShiftIn(0, HexNibble(rest[1])), HexNibble(rest[2])), HexNibble(rest[3])), HexNibble(rest[4]))
  {
    AdvanceByDrops(rest, 1);
    AdvanceByDrops(rest, 2);
    AdvanceByDrops(rest, 3);
    AdvanceByDrops(rest, 4);
    assert EscapePart(rest, 0) == 0;
    assert EscapePart(rest, 1) == ShiftIn(0, HexNibble(rest[1]));
    assert EscapePart(rest, 2) == ShiftIn(EscapePart(rest, 1), HexNibble(rest[2]));
    assert EscapePart(rest, 3) == ShiftIn(EscapePart(rest, 2), HexNibble(rest[3]));
  }

  lemma {:induction false} AdvanceByDrops(rest: string, n: nat)
    requires n <= |rest|
    ensures AdvanceBy(rest, n) == rest[n..]
  {
    if n > 0 {
      AdvanceByDrops(rest, n - 1);
    }
  }

  // ---------- strings ----------

  lemma ItemRound(it: Item, tail: string)
    requires WfItem(it)
    ensures var text := ItemText(it) + tail;
            !AtEnd(text) && text[0] != '"' && StringRound(text) == (ItemBytes(it), tail)
  {
    var text := ItemText(it) + tail;
    match it
    case Raw(c) =>
      assert text[1..] == tail;
    case Short(c) =>
      assert text[1..] == [c] + tail && Advance([c] + tail) == tail;
    case Unicode(hex) =>
      assert text[1..] == "u" + hex + tail;
      EscapeIsHexValue(hex, tail);
  }

  /** A string is read to its closing quote, with every escape decoded on its own. */
  lemma {:induction false} ReadStringItems(items: seq<Item>, rest: string, vstr: string)
    requires WfItems(items)
    ensures ReadString(ItemsText(items) + ("\"" + rest), vstr) == Some((vstr + UnitBytes(items), rest))
    decreases |items|
  {
    var close := "\"" + rest;
    if items == [] {
      assert ItemsText(items) + close == close;
      assert vstr + UnitBytes(items) == vstr;
      assert Advance(close) == rest;
    } else {
      var it, more := items[0], items[1..];
      var tail := ItemsText(more) + close;
      assert ItemsText(items) + close == ItemText(it) + tail;
      ItemRound(it, tail);
      ReadStringItems(more, rest, vstr + ItemBytes(it));
      assert (vstr + ItemBytes(it)) + UnitBytes(more) == vstr + UnitBytes(items);
    }
  }

  // ---------- numbers ----------

  /** What may follow a number. */
  predicate Delimited(rest: string) {
    rest == "" || !NumberChar(rest[0])
  }

  predicate DecimalChar(c: char) {
    c == '.' || c == 'E' || c == 'e'
  }

  predicate NumberChars(s: string) {
    forall i | 0 <= i < |s| :: NumberChar(s[i])
  }

  predicate HasDecimalChar(s: string) {
    exists i :: 0 <= i < |s| && DecimalChar(s[i])
  }

  lemma {:induction false} ReadNumberAll(s: string, rest: string, vstr: string, flt: bool)
    requires NumberChars(s) && Delimited(rest)
    ensures ReadNumber(s + rest, vstr, flt) == (vstr + s, flt || HasDecimalChar(s), rest)
    decreases |s|
  {
    if s == "" {
      assert s + rest == rest && vstr + s == vstr;
    } else {
      assert (s + rest)[1..] == s[1..] + rest;
      ReadNumberAll(s[1..], rest, vstr + [s[0]], flt || DecimalChar(s[0]));
      assert (vstr + [s[0]]) + s[1..] == vstr + s;
      HasDecimalHead(s);
    }
  }

  lemma HasDecimalHead(s: string)
    requires s != ""
    ensures HasDecimalChar(s) <==> DecimalChar(s[0]) || HasDecimalChar(s[1..])
  {
    if HasDecimalChar(s[1..]) {
      var i :| 0 <= i < |s[1..]| && DecimalChar(s[1..][i]);
      assert DecimalChar(s[i + 1]);
    }
    if HasDecimalChar(s) && !DecimalChar(s[0]) {
      var i :| 0 <= i < |s| && DecimalChar(s[i]);
      assert DecimalChar(s[1..][i - 1]);
    }
  }

  /** A number up to the first character that cannot continue it. */
  lemma NumberToken(s: string, rest: string)
    requires s != "" && (s[0] == '-' || IsDigit(s[0])) && NumberChars(s) && Delimited(rest)
    ensures var t := s + rest;
            NextToken(t[0], t[1..]) ==
              if HasDecimalChar(s) then Token.Value(Float(s), rest)
              else match ParseInteger(s) case None => Bad case Some(n) => Token.Value(Int(n), rest)
  {
    var t := s + rest;
    assert t[1..] == s[1..] + rest;
    ReadNumberAll(s[1..], rest, [s[0]], false);
    assert [s[0]] + s[1..] == s;
    HasDecimalHead(s);
  }

  lemma IntegerText(minus: bool, whole: string)
    requires whole != "" && Digits(whole)
    ensures var s := NumberText(minus, whole, "", NoExponent);
            NumberChars(s) && !HasDecimalChar(s) && (s[0] == '-' || IsDigit(s[0]))
            && ParseInteger(s) == Some(Signed(minus, DecimalValue(whole)))
  {
    var s := NumberText(minus, whole, "", NoExponent);
    if minus {
      assert s == "-" + whole && s[1..] == whole;
    } else {
      assert s == whole;
    }
  }

  /** The part of a number that comes before a plus sign, or all of it. */
  function NumberHead(minus: bool, whole: string, frac: string, exp: Exponent): string {
    if exp.Exponent? && exp.sign == "+" then NumberText(minus, whole, frac, NoExponent) + [exp.e]
    else NumberText(minus, whole, frac, exp)
  }

  function NumberTail(exp: Exponent): string {
    if exp.Exponent? && exp.sign == "+" then "+" + exp.digits else ""
  }

  lemma NumberParts(minus: bool, whole: string, frac: string, exp: Exponent)
    requires Wf(CNumber(minus, whole, frac, exp))
    ensures NumberHead(minus, whole, frac, exp) + NumberTail(exp) == NumberText(minus, whole, frac, exp)
  {
    var head := (if minus then "-" else "") + whole + frac;
    if exp.Exponent? && exp.sign == "+" {
      assert head + ExponentText(NoExponent) == head;
      assert head + [exp.e] + ("+" + exp.digits) == head + ([exp.e] + "+" + exp.digits);
    } else {
      assert NumberText(minus, whole, frac, exp) + "" == NumberText(minus, whole, frac, exp);
    }
  }

  lemma DecimalText(minus: bool, whole: string, frac: string, exp: Exponent)
    requires Wf(CNumber(minus, whole, frac, exp)) && (frac != "" || exp.Exponent?)
    ensures var s := NumberHead(minus, whole, frac, exp);
            s != "" && NumberChars(s) && HasDecimalChar(s) && (s[0] == '-' || IsDigit(s[0]))
  {
    var s := NumberHead(minus, whole, frac, exp);
    var at := (if minus then 1 else 0) + |whole|;
    if frac != "" {
      assert s[at] == '.';
    } else {
      assert s[at] == exp.e;
    }
    assert DecimalChar(s[at]);
    var sign := if minus then "-" else "";
    assert NumberChars(sign) && NumberChars(whole);
    assert NumberChars(frac) by {
      if frac != "" {
        assert forall i | 1 <= i < |frac| :: frac[i] == frac[1..][i - 1];
      }
    }
    ConcatNumberChars(sign + whole, frac);
    if exp.Exponent? {
      var more := if exp.sign == "+" then [exp.e] else [exp.e] + exp.sign + exp.digits;
      assert NumberChars(more);
      assert s == sign + whole + frac + more;
    }
  }

  lemma ConcatNumberChars(a: string, b: string)
    requires NumberChars(a) && NumberChars(b)
    ensures NumberChars(a + b)
  {
  }
}
