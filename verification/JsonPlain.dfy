/** When decoding \uXXXX escapes one by one changes the value of a document: exactly if some string of it has a
    surrogate pair, as long as the names in each object are distinct. */
module JsonPlain {
  import opened JsonGrammar

  // ---------- members as lists ----------

  function Names(ms: Members, pairs: bool): seq<Prim>
    requires WfMembers(ms)
  {
    if ms.NoMember? then [] else [StringValue(ms.key, pairs)] + Names(ms.tail, pairs)
  }

  function MemberSeq(ms: Members, pairs: bool): (r: seq<Json>)
    requires WfMembers(ms)
    ensures |r| == |Names(ms, pairs)|
  {
    if ms.NoMember? then [] else [Value(ms.v, pairs)] + MemberSeq(ms.tail, pairs)
  }

  function Keys(ms: Members): (r: seq<seq<Item>>)
    requires WfMembers(ms)
    ensures forall i | 0 <= i < |r| :: WfItems(r[i])
    ensures forall pairs :: |Names(ms, pairs)| == |r|
  {
    if ms.NoMember? then [] else [ms.key] + Keys(ms.tail)
  }

  lemma {:induction false} NameAt(ms: Members, pairs: bool, i: nat)
    requires WfMembers(ms) && i < |Keys(ms)|
    ensures Names(ms, pairs)[i] == StringValue(Keys(ms)[i], pairs)
  {
    if i > 0 {
      NameAt(ms.tail, pairs, i - 1);
    }
  }

  predicate NoDup<T(==)>(s: seq<T>) {
    forall i, j | 0 <= i < j < |s| :: s[i] != s[j]
  }

  /** In each object of c the names are distinct strings, as the grammar means them. */
  predicate DistinctNames(c: Cst)
    requires Wf(c)
  {
    match c
    case CList(_, elems) => DistinctInElems(elems)
    case CDict(_, members) => NoDup(Names(members, true)) && DistinctInMembers(members)
    case _ => true
  }

  predicate DistinctInElems(es: Elems)
    requires WfElems(es)
  {
    es.Elem? ==> DistinctNames(es.v) && DistinctInElems(es.tail)
  }

  predicate DistinctInMembers(ms: Members)
    requires WfMembers(ms)
  {
    ms.Member? ==> DistinctNames(ms.v) && DistinctInMembers(ms.tail)
  }

  function Elements<T>(s: seq<T>): set<T> {
    set x | x in s
  }

  /** The map of an object: its names are the keys. */
  lemma {:induction false} MemberKeysAre(ms: Members, m: map<Prim, Json>, pairs: bool)
    requires WfMembers(ms)
    ensures MemberValues(ms, m, pairs).Keys == m.Keys + Elements(Names(ms, pairs))
    decreases ms
  {
    if ms.Member? {
      var name := StringValue(ms.key, pairs);
      MemberKeysAre(ms.tail, m[name := Value(ms.v, pairs)], pairs);
      assert Elements(Names(ms, pairs)) == {name} + Elements(Names(ms.tail, pairs));
    }
  }

  lemma {:induction false} OtherKeysKept(ms: Members, m: map<Prim, Json>, pairs: bool, k: Prim)
    requires WfMembers(ms) && k in m && k !in Names(ms, pairs)
    ensures k in MemberValues(ms, m, pairs) && MemberValues(ms, m, pairs)[k] == m[k]
    decreases ms
  {
    if ms.Member? {
      var name := StringValue(ms.key, pairs);
      assert Names(ms, pairs)[0] == name && forall x | x in Names(ms.tail, pairs) :: x in Names(ms, pairs);
      OtherKeysKept(ms.tail, m[name := Value(ms.v, pairs)], pairs, k);
    }
  }

  /** And if they are distinct, each has its own value. */
  lemma {:induction false} MemberValueAt(ms: Members, m: map<Prim, Json>, pairs: bool, i: nat)
    requires WfMembers(ms) && NoDup(Names(ms, pairs)) && i < |Names(ms, pairs)|
    ensures var r, name := MemberValues(ms, m, pairs), Names(ms, pairs)[i];
            name in r && r[name] == MemberSeq(ms, pairs)[i]
    decreases ms
  {
    var m1 := m[StringValue(ms.key, pairs) := Value(ms.v, pairs)];
    TailNoDup(Names(ms, pairs));
    assert Names(ms, pairs)[1..] == Names(ms.tail, pairs);
    if i == 0 {
      OtherKeysKept(ms.tail, m1, pairs, StringValue(ms.key, pairs));
    } else {
      MemberValueAt(ms.tail, m1, pairs, i - 1);
    }
  }

  lemma TailNoDup<T>(s: seq<T>)
    requires s != [] && NoDup(s)
    ensures NoDup(s[1..]) && s[0] !in s[1..]
  {
  }

  // ---------- distinct elements ----------

  lemma {:induction false} CountDistinct<T>(s: seq<T>)
    ensures |Elements(s)| <= |s| && (|Elements(s)| == |s| <==> NoDup(s))
  {
    if s != [] {
      var n := |s| - 1;
      CountDistinct(s[..n]);
      assert Elements(s) == Elements(s[..n]) + {s[n]};
      LastIsNew(s);
    }
  }

  lemma LastIsNew<T>(s: seq<T>)
    requires s != []
    ensures var n := |s| - 1; NoDup(s) <==> NoDup(s[..n]) && s[n] !in Elements(s[..n])
  {
    var n := |s| - 1;
    if s[n] in s[..n] {
      var i :| 0 <= i < n && s[..n][i] == s[n];
      assert s[i] == s[n];
    }
  }

  // ---------- names ----------

  /** A string that is longer than what it stands for cannot be, if all are different and stand for each other: what it
      is equal to is again one that is longer than what it stands for, and so on. */
  lemma {:induction false} NoneLonger(us: seq<string>, ss: seq<string>, bound: nat, i: nat)
    requires |us| == |ss| && NoDup(us) && (forall j | 0 <= j < |us| :: us[j] in ss && |us[j]| <= bound)
    requires forall j | 0 <= j < |us| :: |us[j]| > |ss[j]| || us[j] == ss[j]
    requires i < |us|
    ensures us[i] == ss[i]
    decreases bound - |us[i]|
  {
    if |us[i]| > |ss[i]| {
      assert us[i] in ss;
      var j: nat :| j < |ss| && ss[j] == us[i];
      assert us[j] == ss[j] ==> j == i;
      NoneLonger(us, ss, bound, j);
    }
  }

  function Longest(us: seq<string>, k: nat): (n: nat)
    requires k <= |us|
    ensures forall i | 0 <= i < k :: |us[i]| <= n
  {
    if k == 0 then 0 else if |us[k - 1]| > Longest(us, k - 1) then |us[k - 1]| else Longest(us, k - 1)
  }

  /** The names of an object with and without pairs joined, as strings. */
  function Texts(keys: seq<seq<Item>>, pairs: bool): (r: seq<string>)
    requires forall i | 0 <= i < |keys| :: WfItems(keys[i])
    ensures |r| == |keys|
    ensures forall i | 0 <= i < |keys| :: r[i] == if pairs then StringBytes(keys[i]) else UnitBytes(keys[i])
  {
    seq(|keys|, i requires 0 <= i < |keys| => if pairs then StringBytes(keys[i]) else UnitBytes(keys[i]))
  }

  lemma NamesAreTexts(ms: Members, pairs: bool)
    requires WfMembers(ms)
    ensures var ns, ts := Names(ms, pairs), Texts(Keys(ms), pairs);
            |ns| == |ts| && forall i | 0 <= i < |ns| :: ns[i] == Str(ts[i])
  {
    forall i | 0 <= i < |Names(ms, pairs)| ensures Names(ms, pairs)[i] == Str(Texts(Keys(ms), pairs)[i]) {
      NameAt(ms, pairs, i);
    }
  }

  /** Distinct names stay the same set only if none has a surrogate pair. */
  lemma NamesPlain(ms: Members)
    requires WfMembers(ms) && NoDup(Names(ms, true)) && Elements(Names(ms, false)) == Elements(Names(ms, true))
    ensures forall i | 0 <= i < |Keys(ms)| :: NoPairs(Keys(ms)[i])
  {
    var keys, us, ss := Keys(ms), Texts(Keys(ms), false), Texts(Keys(ms), true);
    NamesAreTexts(ms, false);
    NamesAreTexts(ms, true);
    CountDistinct(Names(ms, true));
    CountDistinct(Names(ms, false));
    UnitTextsAreNames(Names(ms, false), Names(ms, true), us, ss);
    forall i | 0 <= i < |keys| ensures |us[i]| > |ss[i]| || us[i] == ss[i] {
      LongerOrSame(keys[i]);
    }
    forall i | 0 <= i < |keys| ensures NoPairs(keys[i]) {
      NoneLonger(us, ss, Longest(us, |us|), i);
      UnitsAreStringIffPlain(keys[i]);
    }
  }

  lemma LongerOrSame(items: seq<Item>)
    requires WfItems(items)
    ensures |UnitBytes(items)| > |StringBytes(items)| || UnitBytes(items) == StringBytes(items)
  {
    UnitsNotShorter(items);
    if NoPairs(items) {
      PlainUnits(items);
    }
  }

  lemma UnitTextsAreNames(ns: seq<Prim>, ns': seq<Prim>, us: seq<string>, ss: seq<string>)
    requires |ns| == |us| && |ns'| == |ss| && Elements(ns) == Elements(ns') && NoDup(ns)
    requires (forall i | 0 <= i < |ns| :: ns[i] == Str(us[i])) && forall i | 0 <= i < |ns'| :: ns'[i] == Str(ss[i])
    ensures NoDup(us) && forall j | 0 <= j < |us| :: us[j] in ss
  {
    forall j | 0 <= j < |us| ensures us[j] in ss {
      assert ns[j] in Elements(ns');
    }
  }

  lemma {:induction false} PlainParts(ms: Members)
    requires WfMembers(ms) && PlainMemberSeq(ms) && forall i | 0 <= i < |Keys(ms)| :: NoPairs(Keys(ms)[i])
    ensures PlainMembers(ms)
  {
    if ms.Member? {
      assert Keys(ms)[0] == ms.key;
      forall i | 0 <= i < |Keys(ms.tail)| ensures NoPairs(Keys(ms.tail)[i]) {
        assert Keys(ms)[i + 1] == Keys(ms.tail)[i];
      }
      PlainParts(ms.tail);
    }
  }

  predicate PlainMemberSeq(ms: Members)
    requires WfMembers(ms)
  {
    ms.Member? ==> Plain(ms.v) && PlainMemberSeq(ms.tail)
  }

  // ---------- whole documents ----------

  /** The value with escapes decoded one by one is that of the grammar exactly if no string has a surrogate pair. */
  lemma {:induction false} PlainValueIff(c: Cst)
    requires Wf(c) && DistinctNames(c)
    ensures Value(c, false) == Value(c, true) <==> Plain(c)
    decreases c, 1
  {
    match c
    case CString(items) => UnitsAreStringIffPlain(items);
    case CList(_, elems) => PlainElemsIff(elems);
    case CDict(_, members) =>
      if Value(c, false) == Value(c, true) {
        SameMapIsPlain(members);
      } else if Plain(c) {
        PlainValue(c);
      }
    case _ =>
  }

  lemma {:induction false} PlainElemsIff(es: Elems)
    requires WfElems(es) && DistinctInElems(es)
    ensures ElemValues(es, false) == ElemValues(es, true) <==> PlainElems(es)
    decreases es, 0
  {
    if es.Elem? {
      PlainValueIff(es.v);
      PlainElemsIff(es.tail);
      HeadsAndTails(Value(es.v, false), ElemValues(es.tail, false), Value(es.v, true), ElemValues(es.tail, true));
    }
  }

  lemma HeadsAndTails(x: Json, xs: seq<Json>, y: Json, ys: seq<Json>)
    ensures [x] + xs == [y] + ys <==> x == y && xs == ys
  {
    if [x] + xs == [y] + ys {
      assert ([x] + xs)[0] == x && ([x] + xs)[1..] == xs;
      assert ([y] + ys)[0] == y && ([y] + ys)[1..] == ys;
    }
  }

  lemma {:induction false} SameMapIsPlain(ms: Members)
    requires WfMembers(ms) && NoDup(Names(ms, true)) && DistinctInMembers(ms)
    requires MemberValues(ms, map[], false) == MemberValues(ms, map[], true)
    ensures PlainMembers(ms)
    decreases ms, 1
  {
    MemberKeysAre(ms, map[], false);
    MemberKeysAre(ms, map[], true);
    NamesPlain(ms);
    NamesSame(ms);
    forall i | 0 <= i < |Names(ms, true)| ensures MemberSeq(ms, false)[i] == MemberSeq(ms, true)[i] {
      MemberValueAt(ms, map[], false, i);
      MemberValueAt(ms, map[], true, i);
    }
    SameMembersArePlain(ms);
    PlainParts(ms);
  }

  lemma NamesSame(ms: Members)
    requires WfMembers(ms) && forall i | 0 <= i < |Keys(ms)| :: NoPairs(Keys(ms)[i])
    ensures Names(ms, false) == Names(ms, true)
  {
    forall i | 0 <= i < |Keys(ms)| ensures Names(ms, false)[i] == Names(ms, true)[i] {
      NameAt(ms, false, i);
      NameAt(ms, true, i);
      PlainUnits(Keys(ms)[i]);
    }
  }

  lemma {:induction false} SameMembersArePlain(ms: Members)
    requires WfMembers(ms) && DistinctInMembers(ms) && MemberSeq(ms, false) == MemberSeq(ms, true)
    ensures PlainMemberSeq(ms)
    decreases ms, 0
  {
    if ms.Member? {
      HeadsAndTails(Value(ms.v, false), MemberSeq(ms.tail, false), Value(ms.v, true), MemberSeq(ms.tail, true));
      PlainValueIff(ms.v);
      SameMembersArePlain(ms.tail);
    }
  }
}
