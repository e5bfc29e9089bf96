/** The heap that the parser leaves behind means the value of the derivation, and the main results about
    mod_ujson_load. */
module JsonDenote {
  import opened JsonGrammar
  import opened JsonParser
  import opened JsonPlain
  import opened JsonRuns
  import opened Wrappers

  // ---------- the meaning of the heap ----------

  predicate Later(r: Ref, i: int, n: nat) {
    r.Obj? ==> i < r.id < n
  }

  predicate PointsPast(c: Container, i: int, n: nat) {
    match c
    case ListObj(items) => forall k | 0 <= k < |items| :: Later(items[k], i, n)
    case DictObj(members) => forall k | k in members :: Later(members[k], i, n)
  }

  /** The containers behind i refer only to containers behind them. */
  predicate Forward(heap: seq<Container>, above: int) {
    forall i | 0 <= i < |heap| && above < i :: PointsPast(heap[i], i, |heap|)
  }

  /** The value that a reference to a container behind `above` stands for. */
  function Denote(heap: seq<Container>, r: Ref, above: int): Json
    requires above >= -1
    decreases |heap| - above, 0
  {
    match r
    case P(p) => Leaf(p)
    case Obj(id) => if above < id < |heap| then DenoteContainer(heap, heap[id], id) else Leaf(NoneObj)
  }

  function DenoteContainer(heap: seq<Container>, c: Container, above: int): Json
    requires above >= -1
    decreases |heap| - above, 1
  {
    match c
    case ListObj(items) => List(seq(|items|, i requires 0 <= i < |items| => Denote(heap, items[i], above)))
    case DictObj(members) => Dict(map k | k in members :: Denote(heap, members[k], above))
  }

  lemma DenoteAbove(heap: seq<Container>, r: Ref, a: int, b: int)
    requires a >= -1 && b >= -1 && Later(r, a, |heap|) && Later(r, b, |heap|)
    ensures Denote(heap, r, a) == Denote(heap, r, b)
  {
  }

  /** The meaning depends only on the containers behind `above`. */
  lemma {:induction false} DenoteFrame(h: seq<Container>, h2: seq<Container>, r: Ref, above: int)
    requires above >= -1 && |h| <= |h2| && Forward(h, above) && Later(r, above, |h|)
    requires forall i | 0 <= i < |h| && above < i :: h[i] == h2[i]
    ensures Denote(h, r, above) == Denote(h2, r, above)
    decreases |h| - above, 0
  {
    if r.Obj? {
      assert PointsPast(h[r.id], r.id, |h|);
      DenoteContainerFrame(h, h2, h[r.id], r.id);
    }
  }

  lemma {:induction false} DenoteContainerFrame(h: seq<Container>, h2: seq<Container>, c: Container, above: int)
    requires above >= -1 && |h| <= |h2| && Forward(h, above) && PointsPast(c, above, |h|)
    requires forall i | 0 <= i < |h| && above < i :: h[i] == h2[i]
    ensures DenoteContainer(h, c, above) == DenoteContainer(h2, c, above)
    decreases |h| - above, 1
  {
    match c
    case ListObj(items) =>
      forall k | 0 <= k < |items| ensures Denote(h, items[k], above) == Denote(h2, items[k], above) {
        DenoteFrame(h, h2, items[k], above);
      }
    case DictObj(members) =>
      forall k | k in members ensures Denote(h, members[k], above) == Denote(h2, members[k], above) {
        DenoteFrame(h, h2, members[k], above);
      }
  }

  lemma PointsPastMore(c: Container, i: int, n: nat, m: nat)
    requires PointsPast(c, i, n) && n <= m
    ensures PointsPast(c, i, m)
  {
  }

  // ---------- what Build leaves ----------

  /** Reading c makes containers that mean c, behind those that were there. */
  lemma {:induction false} BuildDenotes(c: Cst, heap: seq<Container>, t: nat, key: Prim)
    requires Wf(c) && t < |heap|
    ensures var h := Build(c, heap, t, key);
            Forward(h, |heap| - 1) && Denote(h, RefOf(c, heap), |heap| - 1) == JsonGrammar.Value(c, false)
    decreases c, 1
  {
    match c
    case CList(_, elems) => ElemsDenote(elems, PutRef(heap + [ListObj([])], t, key, Obj(|heap|)), |heap|);
    case CDict(_, _) => DictDenotes(c, heap, t, key);
    case _ =>
  }

  lemma {:induction false} DictDenotes(c: Cst, heap: seq<Container>, t: nat, key: Prim)
    requires Wf(c) && t < |heap| && c.CDict?
    ensures var h := Build(c, heap, t, key);
            Forward(h, |heap| - 1) && Denote(h, RefOf(c, heap), |heap| - 1) == JsonGrammar.Value(c, false)
    decreases c, 0
  {
    var n := |heap|;
    var h0 := PutRef(heap + [DictObj(map[])], t, key, Obj(n));
    assert DenoteContainer(h0, DictObj(map[]), n) == Dict(map[]);
    MembersDenote(c.members, h0, n, map[]);
  }

  /** One more element in the innermost list. */
  lemma ElemAdded(v: Cst, heap: seq<Container>, t: nat, values: seq<Json>)
    requires Wf(v) && t < |heap| && heap[t].ListObj? && Forward(heap, t - 1)
    requires DenoteContainer(heap, heap[t], t) == List(values)
    requires var h := Build(v, heap, t, NoneObj);
             Forward(h, |heap| - 1) && Denote(h, RefOf(v, heap), |heap| - 1) == JsonGrammar.Value(v, false)
    ensures var h := Build(v, heap, t, NoneObj);
            Forward(h, t - 1) && DenoteContainer(h, h[t], t) == List(values + [JsonGrammar.Value(v, false)])
  {
    var h, r := Build(v, heap, t, NoneObj), RefOf(v, heap);
    var items := heap[t].items;
    assert h[t] == ListObj(items + [r]);
    assert Later(r, |heap| - 1, |h|);
    DenoteAbove(h, r, |heap| - 1, t);
    DenoteContainerFrame(heap, h, heap[t], t);
    GrownForward(heap, h, t);
    assert DenoteContainer(h, h[t], t).items == values + [JsonGrammar.Value(v, false)];
  }

  /** Containers that were fine stay fine when the heap grows and only container t changes. */
  lemma GrownForward(heap: seq<Container>, h: seq<Container>, t: nat)
    requires t < |heap| <= |h| && Forward(heap, t) && Forward(h, |heap| - 1)
    requires forall i | t < i < |heap| :: h[i] == heap[i]
    ensures Forward(h, t)
  {
    forall i | t < i < |h| ensures PointsPast(h[i], i, |h|) {
      if i < |heap| {
        PointsPastMore(heap[i], i, |heap|, |h|);
      }
    }
  }

  lemma {:induction false} ElemsDenote(es: Elems, heap: seq<Container>, t: nat)
    requires WfElems(es) && t < |heap| && heap[t].ListObj? && Forward(heap, t - 1)
    ensures var h := BuildElems(es, heap, t);
            && Forward(h, t - 1)
            && DenoteContainer(h, h[t], t)
               == List(DenoteContainer(heap, heap[t], t).items + ElemValues(es, false))
    decreases es, 0
  {
    var values := DenoteContainer(heap, heap[t], t).items;
    if es.NoElem? {
      assert values + [] == values;
    } else {
      var value := JsonGrammar.Value(es.v, false);
      BuildDenotes(es.v, heap, t, NoneObj);
      ElemAdded(es.v, heap, t, values);
      ElemsDenote(es.tail, Build(es.v, heap, t, NoneObj), t);
      assert (values + [value]) + ElemValues(es.tail, false) == values + ([value] + ElemValues(es.tail, false));
    }
  }

  /** One more member in the innermost dict. */
  lemma MemberAdded(key: Prim, v: Cst, heap: seq<Container>, t: nat, values: map<Prim, Json>)
    requires Wf(v) && t < |heap| && heap[t].DictObj? && Forward(heap, t - 1)
    requires DenoteContainer(heap, heap[t], t) == Dict(values)
    requires var h := Build(v, heap, t, key);
             Forward(h, |heap| - 1) && Denote(h, RefOf(v, heap), |heap| - 1) == JsonGrammar.Value(v, false)
    ensures var h := Build(v, heap, t, key);
            Forward(h, t - 1) && DenoteContainer(h, h[t], t) == Dict(values[key := JsonGrammar.Value(v, false)])
  {
    var h, r := Build(v, heap, t, key), RefOf(v, heap);
    var members := heap[t].members;
    assert h[t] == DictObj(members[key := r]);
    assert Later(r, |heap| - 1, |h|);
    DenoteAbove(h, r, |heap| - 1, t);
    DenoteContainerFrame(heap, h, heap[t], t);
    GrownForward(heap, h, t);
    DictUpdated(h, members, key, r, t);
  }

  lemma DictUpdated(h: seq<Container>, members: map<Prim, Ref>, key: Prim, r: Ref, above: int)
    requires above >= -1
    ensures DenoteContainer(h, DictObj(members[key := r]), above)
         == Dict(DenoteContainer(h, DictObj(members), above).members[key := Denote(h, r, above)])
  {
  }

  lemma {:induction false} MembersDenote(ms: Members, heap: seq<Container>, t: nat, values: map<Prim, Json>)
    requires WfMembers(ms) && t < |heap| && heap[t].DictObj? && Forward(heap, t - 1)
    requires DenoteContainer(heap, heap[t], t) == Dict(values)
    ensures var h := BuildMembers(ms, heap, t);
            && Forward(h, t - 1)
            && DenoteContainer(h, h[t], t) == Dict(MemberValues(ms, values, false))
    decreases ms, 0
  {
    if ms.Member? {
      var key := KeyOf(ms.key);
      BuildDenotes(ms.v, heap, t, key);
      MemberAdded(key, ms.v, heap, t, values);
      MembersDenote(ms.tail, Build(ms.v, heap, t, key), t, values[key := JsonGrammar.Value(ms.v, false)]);
    }
  }

  // ---------- whole texts ----------

  lemma {:induction false} WsEaten(ws: string)
    requires IsWs(ws)
    ensures EatSpace(ws) == ""
    decreases |ws|
  {
    if ws != "" {
      WsEaten(ws[1..]);
    }
  }

  /** The text of c, with whitespace around it. */
  function Text(ws1: string, c: Cst, ws2: string): string {
    ws1 + TextThen(c, ws2)
  }

  lemma PrimitiveText(c: Cst, ws2: string)
    requires Wf(c) && IsPrimitive(c) && IsWs(ws2)
    ensures Load(TextThen(c, ws2), INITIAL) == if HasPlus(c) then Err(ValueError) else Ok(Loaded([], P(PrimOf(c))))
  {
    PrimitiveToken(c, ws2);
    WsEaten(ws2);
    var text := TextThen(c, ws2);
    TokenShrinks(text[0], text[1..]);
  }

  /** An empty container at the top. */
  function TopState(blank: Container): State {
    State([blank], [], Some(Obj(0)), None)
  }

  lemma TopOpens(text: string, rest: string, blank: Container)
    requires blank == ListObj([]) || blank == DictObj(map[])
    requires text == (if blank.ListObj? then "[" else "{") + rest
    ensures Load(text, INITIAL) == Load(rest, TopState(blank))
  {
    assert text[1..] == rest;
    assert [] + [blank] == [blank];
  }

  lemma TopCloses(close: char, ws2: string, heap: seq<Container>)
    requires (close == ']' || close == '}') && IsWs(ws2) && heap != []
    ensures Load([close] + ws2, State(heap, [], Some(Obj(0)), None)) == Ok(Loaded(heap, Obj(0)))
  {
    assert ([close] + ws2)[1..] == ws2;
    WsEaten(ws2);
  }

  /** The main property of mod_ujson_load. For every derivation of the grammar and any whitespace around it,
      the parser returns its value, with \uXXXX escapes decoded one by one, if no number has an exponent with
      a plus sign, and fails if one has. */
  lemma LoadsEveryDerivation(ws1: string, c: Cst, ws2: string)
    requires Wf(c) && IsWs(ws1) && IsWs(ws2)
    ensures var r := Load(Text(ws1, c, ws2), INITIAL);
            if HasPlus(c) then r == Err(ValueError)
            else r.Ok? && Denote(r.value.heap, r.value.value, -1) == JsonGrammar.Value(c, false)
  {
    WsSkipped(ws1, TextThen(c, ws2), INITIAL);
    match c
    case CList(_, _) => ListText(c, ws2);
    case CDict(_, _) => DictText(c, ws2);
    case _ => PrimitiveText(c, ws2);
  }

  ghost predicate LoadsValue(c: Cst, ws2: string)
    requires Wf(c)
  {
    var r := Load(TextThen(c, ws2), INITIAL);
    if HasPlus(c) then r == Err(ValueError)
    else r.Ok? && Denote(r.value.heap, r.value.value, -1) == JsonGrammar.Value(c, false)
  }

  lemma ListText(c: Cst, ws2: string)
    requires Wf(c) && c.CList? && IsWs(ws2)
    ensures LoadsValue(c, ws2)
  {
    var s, body := TopState(ListObj([])), ElemsThen(c.elems, "]" + ws2);
    TopOpens(TextThen(c, ws2), c.ws + body, ListObj([]));
    WsSkipped(c.ws, body, s);
    ElemsLoad(c.elems, "]" + ws2, s);
    TopCloses(']', ws2, BuildElems(c.elems, s.heap, 0));
    ElemsDenote(c.elems, s.heap, 0);
  }

  lemma DictText(c: Cst, ws2: string)
    requires Wf(c) && c.CDict? && IsWs(ws2)
    ensures LoadsValue(c, ws2)
  {
    var s, body := TopState(DictObj(map[])), MembersThen(c.members, "}" + ws2);
    TopOpens(TextThen(c, ws2), c.ws + body, DictObj(map[]));
    WsSkipped(c.ws, body, s);
    MembersLoad(c.members, "}" + ws2, s);
    TopCloses('}', ws2, BuildMembers(c.members, s.heap, 0));
    MembersDenote(c.members, s.heap, 0, map[]);
  }

  /** Without such exponents and without surrogate pairs it is the value that the grammar assigns. */
  lemma LoadsGrammarValue(ws1: string, c: Cst, ws2: string)
    requires Wf(c) && IsWs(ws1) && IsWs(ws2) && !HasPlus(c) && Plain(c)
    ensures var r := Load(Text(ws1, c, ws2), INITIAL);
            r.Ok? && Denote(r.value.heap, r.value.value, -1) == JsonGrammar.Value(c, true)
  {
    LoadsEveryDerivation(ws1, c, ws2);
    PlainValue(c);
  }

  /** For every document whose objects have distinct names: it is loaded with the value that the grammar assigns if and
      only if no number has such an exponent and no string has a surrogate pair. */
  lemma LoadsGrammarValueIff(ws1: string, c: Cst, ws2: string)
    requires Wf(c) && IsWs(ws1) && IsWs(ws2) && DistinctNames(c)
    ensures var r := Load(Text(ws1, c, ws2), INITIAL);
            r.Ok? && Denote(r.value.heap, r.value.value, -1) == JsonGrammar.Value(c, true) <==> !HasPlus(c) && Plain(c)
  {
    LoadsEveryDerivation(ws1, c, ws2);
    PlainValueIff(c);
  }

  /** With a name given twice, a later value can hide one with a pair. */
  lemma RepeatedNameHidesPair()
    ensures var name, pair := [Raw('a')], CString([Unicode("d800"), Unicode("dc00")]);
            var c := CDict("", Member("", name, "", "", pair, "", Member("", name, "", "", CNull, "", NoMember)));
            Wf(c) && !Plain(c) && JsonGrammar.Value(c, false) == JsonGrammar.Value(c, true)
  {
    var high, low := Unicode("d800"), Unicode("dc00");
    assert HexValue("d800") == 0xD800 && HexValue("dc00") == 0xDC00;
    assert PairAt([high, low], 0);
    var name, pair := [Raw('a')], CString([high, low]);
    var tail := Member("", name, "", "", CNull, "", NoMember);
    assert Wf(CDict("", Member("", name, "", "", pair, "", tail)));
    assert StringValue(name, false) == StringValue(name, true);
    var k := StringValue(name, true);
    assert map[][k := JsonGrammar.Value(pair, false)][k := Leaf(NoneObj)] == map[k := Leaf(NoneObj)];
    assert map[][k := JsonGrammar.Value(pair, true)][k := Leaf(NoneObj)] == map[k := Leaf(NoneObj)];
  }

  /** A string is loaded as the grammar means it exactly when it has no surrogate pair. */
  lemma StringLoadsIffPlain(items: seq<Item>)
    requires WfItems(items)
    ensures Load(TextThen(CString(items), ""), INITIAL) == Ok(Loaded([], P(Str(StringBytes(items))))) <==> NoPairs(items)
  {
    PrimitiveText(CString(items), "");
    UnitsAreStringIffPlain(items);
  }
}
