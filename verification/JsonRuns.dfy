/** The stack parser of extmod/modujson.c against the recursive grammar: on the text of every derivation it
    returns the value of that derivation. */
module JsonRuns {
  import opened JsonGrammar
  import opened JsonParser
  import opened JsonLexing
  import opened Wrappers

  // ---------- what a derivation does to the heap ----------

  /** The reference r goes into container t; a dict stores it under the key. */
  function PutRef(heap: seq<Container>, t: nat, key: Prim, r: Ref): (h: seq<Container>)
    requires t < |heap|
    ensures |h| == |heap| && (heap[t].ListObj? <==> h[t].ListObj?)
    ensures forall i | 0 <= i < |heap| && i != t :: h[i] == heap[i]
  {
    match heap[t]
    case ListObj(items) => heap[t := ListObj(items + [r])]
    case DictObj(members) => heap[t := DictObj(members[key := r])]
  }

  predicate IsPrimitive(c: Cst) {
    !c.CList? && !c.CDict?
  }

  function PrimOf(c: Cst): Prim
    requires Wf(c) && IsPrimitive(c)
  {
    JsonGrammar.Value(c, false).p
  }

  function KeyOf(items: seq<Item>): Prim
    requires WfItems(items)
  {
    StringValue(items, false)
  }

  /** The reference that stands for c when it is read with this heap. */
  function RefOf(c: Cst, heap: seq<Container>): Ref
    requires Wf(c)
  {
    if IsPrimitive(c) then P(PrimOf(c)) else Obj(|heap|)
  }

  /** The heap after c has been read into container t; a new container is put there before it is filled. */
  function Build(c: Cst, heap: seq<Container>, t: nat, key: Prim): (h: seq<Container>)
    requires Wf(c) && t < |heap|
    ensures |heap| <= |h| && (!IsPrimitive(c) ==> |heap| < |h|)
    ensures h[t] == PutRef(heap, t, key, RefOf(c, heap))[t]
    ensures forall i | 0 <= i < |heap| && i != t :: h[i] == heap[i]
    decreases c, 1
  {
    var n := |heap|;
    match c
    case CList(_, elems) => BuildElems(elems, PutRef(heap + [ListObj([])], t, key, Obj(n)), n)
    case CDict(_, members) => BuildMembers(members, PutRef(heap + [DictObj(map[])], t, key, Obj(n)), n)
    case _ => PutRef(heap, t, key, P(PrimOf(c)))
  }

  function BuildElems(es: Elems, heap: seq<Container>, t: nat): (h: seq<Container>)
    requires WfElems(es) && t < |heap| && heap[t].ListObj?
    ensures |heap| <= |h| && h[t].ListObj?
    ensures forall i | 0 <= i < |heap| && i != t :: h[i] == heap[i]
    decreases es, 0
  {
    if es.NoElem? then heap else BuildElems(es.tail, Build(es.v, heap, t, NoneObj), t)
  }

  function BuildMembers(ms: Members, heap: seq<Container>, t: nat): (h: seq<Container>)
    requires WfMembers(ms) && t < |heap| && heap[t].DictObj?
    ensures |heap| <= |h| && h[t].DictObj?
    ensures forall i | 0 <= i < |heap| && i != t :: h[i] == heap[i]
    decreases ms, 0
  {
    if ms.NoMember? then heap else BuildMembers(ms.tail, Build(ms.v, heap, t, KeyOf(ms.key)), t)
  }

  // ---------- single tokens in the loop ----------

  lemma {:induction false} WsSkipped(ws: string, rest: string, s: State)
    requires ValidState(s) && IsWs(ws)
    ensures Load(ws + rest, s) == Load(rest, s)
    decreases |ws|
  {
    if ws == "" {
      assert ws + rest == rest;
    } else {
      assert (ws + rest)[1..] == ws[1..] + rest;
      WsSkipped(ws[1..], rest, s);
    }
  }

  lemma SkipLoads(c: char, rest: string, s: State)
    requires ValidState(s) && (c == ',' || c == ':')
    ensures Load([c] + rest, s) == Load(rest, s)
  {
    assert ([c] + rest)[1..] == rest;
  }

  /** In a container that can take a value: a list, or a dict with a pending key. */
  predicate TakesValue(s: State) {
    && ValidState(s) && s.top.Some?
    && (s.heap[s.top.value.id].ListObj? ==> s.key == None)
    && (s.heap[s.top.value.id].DictObj? ==> s.key.Some?)
  }

  function Pending(s: State): Prim {
    if s.key.Some? then s.key.value else NoneObj
  }

  /** The state after c. */
  function After(c: Cst, s: State): State
    requires Wf(c) && TakesValue(s)
  {
    s.(heap := Build(c, s.heap, s.top.value.id, Pending(s)), key := None)
  }

  lemma AfterValid(c: Cst, s: State)
    requires Wf(c) && TakesValue(s)
    ensures ValidState(After(c, s))
  {
  }

  lemma PutIsPutRef(s: State, r: Ref)
    requires TakesValue(s)
    ensures Put(s, r) == Some(s.(heap := PutRef(s.heap, s.top.value.id, Pending(s), r), key := None))
  {
  }

  lemma PrimitiveLoads(text: string, p: Prim, rest: string, s: State)
    requires TakesValue(s) && text != "" && text[0] != S_EOF && NextToken(text[0], text[1..]) == Token.Value(p, rest)
    ensures var s1 := s.(heap := PutRef(s.heap, s.top.value.id, Pending(s), P(p)), key := None);
            ValidState(s1) && Load(text, s) == Load(rest, s1)
  {
    PutIsPutRef(s, P(p));
    TokenShrinks(text[0], text[1..]);
  }

  /** What follows a value in a list or dict. */
  lemma StringToken(items: seq<Item>, rest: string)
    requires WfItems(items)
    ensures var t := StringThen(items, rest);
            t != "" && t[0] == '"' && NextToken(t[0], t[1..]) == Token.Value(KeyOf(items), rest)
  {
    var t := StringThen(items, rest);
    assert t[1..] == ItemsText(items) + ("\"" + rest);
    ReadStringItems(items, rest, "");
    assert "" + UnitBytes(items) == UnitBytes(items);
  }

  lemma LiteralToken(word: string, rest: string, p: Prim)
    requires (word, p) == ("null", NoneObj) || (word, p) == ("false", Bool(false)) || (word, p) == ("true", Bool(true))
    ensures var t := word + rest; NextToken(t[0], t[1..]) == Token.Value(p, rest)
  {
    var t := word + rest;
    assert t[1..] == word[1..] + rest;
    assert (word[1..] + rest)[|word| - 1..] == rest;
    assert word == "null" ==> word[1..] == "ull";
    assert word == "false" ==> word[1..] == "alse";
    assert word == "true" ==> word[1..] == "rue";
  }

  /** The token of c at the head of the text: c itself, unless a plus sign in its exponent cuts it short. */
  ghost predicate TokenOf(c: Cst, text: string, rest: string)
    requires Wf(c) && IsPrimitive(c)
  {
    && text != "" && text[0] != S_EOF
    && var t := NextToken(text[0], text[1..]);
    if HasPlus(c) then t.Value? && Cur(t.after) == '+' else t == Token.Value(PrimOf(c), rest)
  }

  lemma IntegerToken(c: Cst, rest: string)
    requires Wf(c) && c.CNumber? && c.frac == "" && c.exp.NoExponent? && Delimited(rest)
    ensures TokenOf(c, NumberText(c.minus, c.whole, c.frac, c.exp) + rest, rest)
  {
    IntegerText(c.minus, c.whole);
    NumberToken(NumberText(c.minus, c.whole, "", NoExponent), rest);
  }

  lemma DecimalToken(c: Cst, rest: string)
    requires Wf(c) && c.CNumber? && (c.frac != "" || c.exp.Exponent?) && Delimited(rest)
    ensures TokenOf(c, NumberText(c.minus, c.whole, c.frac, c.exp) + rest, rest)
  {
    var head, tail := NumberHead(c.minus, c.whole, c.frac, c.exp), NumberTail(c.exp);
    var more := tail + rest;
    DecimalText(c.minus, c.whole, c.frac, c.exp);
    NumberSplit(c, rest);
    assert Delimited(more);
    NumberToken(head, more);
  }

  lemma NumberSplit(c: Cst, rest: string)
    requires Wf(c) && c.CNumber?
    ensures NumberText(c.minus, c.whole, c.frac, c.exp) + rest
         == NumberHead(c.minus, c.whole, c.frac, c.exp) + (NumberTail(c.exp) + rest)
    ensures if HasPlus(c) then Cur(NumberTail(c.exp) + rest) == '+' else NumberTail(c.exp) + rest == rest
    ensures !HasPlus(c) ==> NumberHead(c.minus, c.whole, c.frac, c.exp) == NumberText(c.minus, c.whole, c.frac, c.exp)
  {
    NumberParts(c.minus, c.whole, c.frac, c.exp);
    var head, tail := NumberHead(c.minus, c.whole, c.frac, c.exp), NumberTail(c.exp);
    assert (head + tail) + rest == head + (tail + rest);
  }

  lemma PrimitiveToken(c: Cst, rest: string)
    requires Wf(c) && IsPrimitive(c) && Delimited(rest)
    ensures TokenOf(c, TextThen(c, rest), rest)
  {
    match c
    case CNull => LiteralToken("null", rest, NoneObj);
    case CFalse => LiteralToken("false", rest, Bool(false));
    case CTrue => LiteralToken("true", rest, Bool(true));
    case CString(items) => StringToken(items, rest);
    case CNumber(_, _, frac, exp) =>
      if frac == "" && exp.NoExponent? {
        IntegerToken(c, rest);
      } else {
        DecimalToken(c, rest);
      }
  }

  lemma PlusFails(rest: string, s: State)
    requires ValidState(s) && Cur(rest) == '+'
    ensures Load(rest, s) == Err(ValueError)
  {
  }

  // ---------- the loop on a derivation ----------

  /** Reading the text of c, somewhere inside a container: the loop goes on behind it with c in the container,
      or the whole load fails at a plus sign. */
  ghost predicate Loads(c: Cst, rest: string, s: State)
    requires Wf(c) && TakesValue(s)
  {
    AfterValid(c, s);
    Load(TextThen(c, rest), s) == if HasPlus(c) then Err(ValueError) else Load(rest, After(c, s))
  }

  lemma PrimitiveInContainer(c: Cst, rest: string, s: State)
    requires Wf(c) && IsPrimitive(c) && TakesValue(s) && Delimited(rest)
    ensures Loads(c, rest, s)
  {
    PrimitiveToken(c, rest);
    var text := TextThen(c, rest);
    var t := NextToken(text[0], text[1..]);
    PrimitiveLoads(text, t.p, t.after, s);
    if HasPlus(c) {
      PlusFails(t.after, s.(heap := PutRef(s.heap, s.top.value.id, Pending(s), P(t.p)), key := None));
    }
  }

  lemma DelimitedWs(ws: string, rest: string)
    requires IsWs(ws) && Delimited(rest)
    ensures Delimited(ws + rest)
  {
  }

  /** The state after entering a new container of c in s. */
  function Entered(s: State, blank: Container): State
    requires TakesValue(s)
  {
    var n := |s.heap|;
    State(PutRef(s.heap + [blank], s.top.value.id, Pending(s), Obj(n)), s.stack + [s.top.value], Some(Obj(n)), None)
  }

  lemma EnterIs(s: State, blank: Container)
    requires TakesValue(s)
    ensures Enter(s, blank) == Some(Entered(s, blank)) && ValidState(Entered(s, blank))
    ensures Entered(s, blank).heap[|s.heap|] == blank
  {
    var s1 := s.(heap := s.heap + [blank]);
    assert TakesValue(s1);
    PutIsPutRef(s1, Obj(|s.heap|));
  }

  lemma OpenLoads(text: string, rest: string, s: State, blank: Container)
    requires TakesValue(s) && text == (if blank.ListObj? then "[" else "{") + rest
    requires blank == ListObj([]) || blank == DictObj(map[])
    ensures ValidState(Entered(s, blank)) && Load(text, s) == Load(rest, Entered(s, blank))
  {
    EnterIs(s, blank);
    assert text[1..] == rest;
  }

  lemma CloseLoads(c: char, rest: string, s: State, heap: seq<Container>, inner: Ref)
    requires ValidState(s) && s.top.Some? && (c == ']' || c == '}')
    requires |s.heap| <= |heap| && inner.Obj? && InHeap(heap, inner)
    ensures var s1 := State(heap, s.stack + [s.top.value], Some(inner), None);
            var s2 := State(heap, s.stack, s.top, None);
            ValidState(s1) && ValidState(s2) && Load([c] + rest, s1) == Load(rest, s2)
  {
    assert ([c] + rest)[1..] == rest;
    assert (s.stack + [s.top.value])[..|s.stack|] == s.stack;
  }

  lemma {:induction false} ValueLoads(c: Cst, rest: string, s: State)
    requires Wf(c) && TakesValue(s) && Delimited(rest)
    ensures Loads(c, rest, s)
    decreases c, 1
  {
    var n := |s.heap|;
    match c
    case CList(ws, elems) =>
      var body := ElemsThen(elems, "]" + rest);
      var s1 := Entered(s, ListObj([]));
      OpenLoads(TextThen(c, rest), ws + body, s, ListObj([]));
      EnterIs(s, ListObj([]));
      WsSkipped(ws, body, s1);
      ElemsLoad(elems, "]" + rest, s1);
      CloseLoads(']', rest, s, BuildElems(elems, s1.heap, n), Obj(n));
    case CDict(ws, members) =>
      var body := MembersThen(members, "}" + rest);
      var s1 := Entered(s, DictObj(map[]));
      OpenLoads(TextThen(c, rest), ws + body, s, DictObj(map[]));
      EnterIs(s, DictObj(map[]));
      WsSkipped(ws, body, s1);
      MembersLoad(members, "}" + rest, s1);
      CloseLoads('}', rest, s, BuildMembers(members, s1.heap, n), Obj(n));
    case _ => PrimitiveInContainer(c, rest, s);
  }

  lemma {:induction false} ElemsLoad(es: Elems, rest: string, s: State)
    requires WfElems(es) && ValidState(s) && s.top.Some? && s.heap[s.top.value.id].ListObj? && s.key == None
    requires Delimited(rest)
    ensures var s1 := s.(heap := BuildElems(es, s.heap, s.top.value.id));
            ValidState(s1) && Load(ElemsThen(es, rest), s)
              == if ElemsHavePlus(es) then Err(ValueError) else Load(rest, s1)
    decreases es, 0
  {
    match es
    case NoElem =>
    case Elem(before, v, after, tail) =>
      var next := if tail.NoElem? then rest else "," + ElemsThen(tail, rest);
      WsSkipped(before, TextThen(v, after + next), s);
      DelimitedWs(after, next);
      ValueLoads(v, after + next, s);
      if !HasPlus(v) {
        var s1 := After(v, s);
        AfterValid(v, s);
        WsSkipped(after, next, s1);
        if !tail.NoElem? {
          SkipLoads(',', ElemsThen(tail, rest), s1);
        }
        ElemsLoad(tail, rest, s1);
      }
  }

  lemma {:induction false} MembersLoad(ms: Members, rest: string, s: State)
    requires WfMembers(ms) && ValidState(s) && s.top.Some? && s.heap[s.top.value.id].DictObj? && s.key == None
    requires Delimited(rest)
    ensures var s1 := s.(heap := BuildMembers(ms, s.heap, s.top.value.id));
            ValidState(s1) && Load(MembersThen(ms, rest), s)
              == if MembersHavePlus(ms) then Err(ValueError) else Load(rest, s1)
    decreases ms, 0
  {
    match ms
    case NoMember =>
    case Member(before, key, afterKey, beforeValue, v, after, tail) =>
      var next := if tail.NoMember? then rest else "," + MembersThen(tail, rest);
      var value := TextThen(v, after + next);
      KeyLoads(ms, value, s);
      var s0 := s.(key := Some(KeyOf(key)));
      DelimitedWs(after, next);
      ValueLoads(v, after + next, s0);
      if !HasPlus(v) {
        var s1 := After(v, s0);
        AfterValid(v, s0);
        WsSkipped(after, next, s1);
        if !tail.NoMember? {
          SkipLoads(',', MembersThen(tail, rest), s1);
        }
        MembersLoad(tail, rest, s1);
      }
  }

  /** The name of a member, up to its value. */
  lemma KeyLoads(ms: Members, value: string, s: State)
    requires ms.Member? && WfMembers(ms)
    requires ValidState(s) && s.top.Some? && s.heap[s.top.value.id].DictObj? && s.key == None
    ensures Load(ms.before + StringThen(ms.key, ms.afterKey + (":" + (ms.beforeValue + value))), s)
         == Load(value, s.(key := Some(KeyOf(ms.key))))
  {
    var colon := ":" + (ms.beforeValue + value);
    var s1 := s.(key := Some(KeyOf(ms.key)));
    WsSkipped(ms.before, StringThen(ms.key, ms.afterKey + colon), s);
    StringToken(ms.key, ms.afterKey + colon);
    WsSkipped(ms.afterKey, colon, s1);
    SkipLoads(':', ms.beforeValue + value, s1);
    WsSkipped(ms.beforeValue, value, s1);
  }
}
