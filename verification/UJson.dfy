/** extmod/modujson.c: ujson.load, one loop over the stream with an explicit stack. */
module UJson {
  import opened JsonGrammar
  import opened JsonParser
  import opened ParseNum
  import opened Wrappers

  /** ujson_stream_t over a stream that does not fail: one character of lookahead. */
  class JsonStream {
    const data: string
    var pos: nat
    var cur: char
    ghost var rest: string  // from the current character on

    ghost predicate Valid()
      reads this
    {
      cur == Cur(rest) && pos <= |data| && Advance(rest) == data[pos..]
    }

    constructor (data: string)
      ensures Valid() && rest == [S_EOF] + data
    {
      this.data := data;
      pos := 0;
      cur := S_EOF;
      rest := [S_EOF] + data;
    }

    /** S_NEXT */
    method Next() returns (c: char)
      requires Valid()
      modifies this
      ensures Valid() && rest == Advance(old(rest)) && c == cur == Cur(rest)
    {
      rest := Advance(rest);
      if pos < |data| {
        cur := data[pos];
        pos := pos + 1;
      } else {
        cur := S_EOF;
      }
      return cur;
    }
  }

  class Loader {
    const s: JsonStream
    var heap: seq<Container>  // the lists and dicts made so far
    var stack: seq<Ref>
    var stackTop: Option<Ref>
    var stackKey: Option<Prim>
    var vstr: string

    ghost function Vars(): State
      reads this
    {
      State(heap, stack, stackTop, stackKey)
    }

    constructor (s: JsonStream)
      ensures this.s == s && Vars() == INITIAL
    {
      this.s := s;
      heap, stack, stackTop, stackKey, vstr := [], [], None, None, "";
    }

    /** Lines 113-135: the rest of a literal. */
    method ReadLiteral(tail: string) returns (ok: bool)
      requires s.Valid() && tail != ""
      requires forall i | 0 <= i < |tail| :: tail[i] != S_EOF
      modifies s
      ensures s.Valid() && (ok <==> tail <= old(s.rest))
      ensures ok ==> s.rest == old(s.rest)[|tail|..]
    {
      ghost var was := s.rest;
      var i := 0;
      while i < |tail|
        invariant s.Valid() && 0 <= i <= |tail| && i <= |was|
        invariant was[..i] == tail[..i] && s.rest == was[i..]
      {
        if s.cur != tail[i] {
          return false;
        }
        assert was[..i + 1] == was[..i] + [was[i]];
        var c := s.Next();
        i := i + 1;
      }
      return true;
    }

    /** Lines 149-156 */
    method ReadEscape() returns (num: nat)
      requires s.Valid()
      modifies s
      ensures s.Valid() && num == EscapePart(old(s.rest), 4) && s.rest == AdvanceBy(old(s.rest), 4)
    {
      ghost var was := s.rest;
      num := 0;
      var i := 0;
      while i < 4
        invariant s.Valid() && 0 <= i <= 4
        invariant num == EscapePart(was, i) && s.rest == AdvanceBy(was, i)
      {
        var c := s.Next();
        num := ShiftIn(num, HexNibble(c));
        i := i + 1;
      }
    }

    /** Lines 137-169 */
    method ReadStringLoop() returns (ok: bool)
      requires s.Valid()
      modifies s, this`vstr
      ensures s.Valid()
      ensures match ReadString(old(s.rest), "")
              case None => !ok
              case Some((bytes, after)) => ok && vstr == bytes && s.rest == after
    {
      ghost var goal := ReadString(s.rest, "");
      vstr := "";
      while s.cur != S_EOF && s.cur != '"'
        invariant s.Valid() && ReadString(s.rest, vstr) == goal
        decreases |s.rest|
      {
        ghost var was := s.rest;
        var c := s.cur;
        if c == '\\' {
          c := s.Next();
          if c == 'u' {
            var num := ReadEscape();
            vstr := vstr + Utf8(num);
          } else {
            vstr := vstr + [ShortValue(c)];
          }
        } else {
          vstr := vstr + [c];
        }
        c := s.Next();
        assert s.rest == StringRound(was).1;
      }
      if s.cur == S_EOF {
        return false;
      }
      var c := s.Next();
      return true;
    }

    /** Lines 174-192 */
    method ReadNumberLoop(first: char) returns (next: Option<Prim>)
      requires s.Valid() && (first == '-' || IsDigit(first))
      modifies s, this`vstr
      ensures s.Valid()
      ensures var (text, flt, after) := ReadNumber(old(s.rest), [first], false);
              && (next.Some? ==> s.rest == after)
              && next == if flt then Some(Float(text))
                         else match ParseInteger(text) case None => None case Some(n) => Some(Int(n))
    {
      ghost var goal := ReadNumber(s.rest, [first], false);
      var flt := false;
      vstr := "";
      var cur := first;
      assert vstr + [cur] == [first];
      while true
        invariant s.Valid() && ReadNumber(s.rest, vstr + [cur], flt) == goal
        invariant IsBare(vstr) && NumberChar(cur)
        decreases |s.rest|
      {
        vstr := vstr + [cur];
        cur := s.cur;
        if cur == '.' || cur == 'E' || cur == 'e' {
          flt := true;
        } else if cur == '-' || IsDigit(cur) {
        } else {
          break;
        }
        assert s.rest != "" && NumberChar(s.rest[0]);
        var c := s.Next();
      }
      if flt {
        return Some(Float(vstr));
      }
      var n := ParseNumInteger(vstr);
      match n
      case None => return None;
      case Some(n) => return Some(Int(n));
    }

    /** Lines 112-194: a token that is a primitive. */
    method ReadPrimitive(cur: char) returns (next: Option<Prim>)
      requires s.Valid()
      modifies s, this`vstr
      ensures s.Valid()
      ensures var t := NextToken(cur, old(s.rest));
              t.Value? || t.Bad? ==>
                (next.Some? <==> t.Value?) && (next.Some? ==> next.value == t.p && s.rest == t.after)
    {
      if cur == 'n' {
        var ok := ReadLiteral("ull");
        next := if ok then Some(NoneObj) else None;
      } else if cur == 'f' {
        var ok := ReadLiteral("alse");
        next := if ok then Some(Bool(false)) else None;
      } else if cur == 't' {
        var ok := ReadLiteral("rue");
        next := if ok then Some(Bool(true)) else None;
      } else if cur == '"' {
        var ok := ReadStringLoop();
        next := if ok then Some(Str(vstr)) else None;
      } else if cur == '-' || IsDigit(cur) {
        next := ReadNumberLoop(cur);
      } else {
        next := None;
      }
    }

    /** Lines 230-242 */
    method PutNext(next: Ref) returns (ok: bool)
      requires ValidState(Vars()) && stackTop.Some?
      modifies this`heap, this`stackKey
      ensures match Put(old(Vars()), next) case None => !ok case Some(s1) => ok && Vars() == s1
    {
      var id := stackTop.value.id;
      match heap[id] {
        case ListObj(items) =>
          heap := heap[id := ListObj(items + [next])];
        case DictObj(members) =>
          if stackKey == None {
            if !next.P? {
              return false;
            }
            stackKey := Some(next.p);
          } else {
            heap := heap[id := DictObj(members[stackKey.value := next])];
            stackKey := None;
          }
      }
      return true;
    }

    /** Lines 196-202 and 221-253 for a list or dict. */
    method EnterNew(blank: Container) returns (ok: bool)
      requires ValidState(Vars())
      modifies this`heap, this`stack, this`stackTop, this`stackKey
      ensures match Enter(old(Vars()), blank) case None => !ok case Some(s1) => ok && Vars() == s1
    {
      var next := Obj(|heap|);
      heap := heap + [blank];
      if stackTop == None {
        stackTop := Some(next);
        return true;
      }
      ok := PutNext(next);
      if ok {
        stack := stack + [stackTop.value];
        stackTop := Some(next);
      }
    }

    /** Lines 255-269 */
    method Success() returns (r: Result<Loaded, Error>)
      requires s.Valid()
      modifies s
      ensures r == Finish(old(s.rest), heap, stackTop, |stack|)
    {
      ghost var goal := EatSpace(s.rest);
      while IsTrailingSpace(s.cur)
        invariant s.Valid() && EatSpace(s.rest) == goal
        decreases |s.rest|
      {
        var c := s.Next();
      }
      if s.cur != S_EOF {
        return Err(ValueError);
      }
      if stackTop == None || |stack| != 0 {
        return Err(ValueError);
      }
      return Ok(Loaded(heap, stackTop.value));
    }

    /** Lines 203-217: a closing bracket or brace. */
    method CloseRound() returns (done: bool, r: Result<Loaded, Error>)
      requires s.Valid() && ValidState(Vars())
      modifies this`stack, this`stackTop, s
      ensures s.Valid() || done
      ensures done ==> r == if old(stackTop) == None then Err(ValueError) else Finish(old(s.rest), heap, old(stackTop), 0)
      ensures done <==> old(stackTop) == None || old(stack) == []
      ensures !done ==> s.rest == old(s.rest) && stack == old(stack)[..|old(stack)| - 1]
                        && stackTop == Some(old(stack)[|old(stack)| - 1])
    {
      if stackTop == None {
        return true, Err(ValueError);
      }
      if |stack| == 0 {
        r := Success();
        return true, r;
      }
      stackTop := Some(stack[|stack| - 1]);
      stack := stack[..|stack| - 1];
      return false, Err(ValueError);
    }

    /** Lines 100-253: one round of the loop. */
    method Round() returns (done: bool, r: Result<Loaded, Error>)
      requires s.Valid() && ValidState(Vars()) && s.cur != S_EOF
      modifies this, s
      ensures done ==> r == Load(old(s.rest), old(Vars()))
      ensures !done ==> s.Valid() && ValidState(Vars()) && |s.rest| < |old(s.rest)|
      ensures !done ==> Load(s.rest, Vars()) == Load(old(s.rest), old(Vars()))
    {
      r := Err(ValueError);
      TokenShrinks(s.rest[0], s.rest[1..]);
      var cur := s.cur;
      var c := s.Next();
      if cur == ',' || cur == ':' || cur == ' ' || cur == '\t' || cur == '\n' || cur == '\r' {
        return false, r;
      }
      if cur == '}' || cur == ']' {
        done, r := CloseRound();
        return;
      }
      if cur == '[' || cur == '{' {
        var ok := EnterNew(if cur == '[' then ListObj([]) else DictObj(map[]));
        return !ok, r;
      }
      var next := ReadPrimitive(cur);
      if next == None {
        return true, r;
      }
      if stackTop == None {
        stackTop := Some(P(next.value));
        r := Success();
        return true, r;
      }
      var ok := PutNext(P(next.value));
      return !ok, r;
    }

    /** mod_ujson_load */
    method LoadObject() returns (r: Result<Loaded, Error>)
      requires s.Valid() && Vars() == INITIAL
      modifies this, s
      ensures r == Load(Advance(old(s.rest)), INITIAL)
    {
      var c := s.Next();
      ghost var goal := Load(s.rest, Vars());
      while s.cur != S_EOF
        invariant s.Valid() && ValidState(Vars()) && Load(s.rest, Vars()) == goal
        decreases |s.rest|
      {
        var done, got := Round();
        if done {
          return got;
        }
      }
      r := Success();
    }
  }

  /** ujson.loads */
  method Loads(data: string) returns (r: Result<Loaded, Error>)
    ensures r == Load(data, INITIAL)
  {
    var stream := new JsonStream(data);
    var loader := new Loader(stream);
    assert Advance(stream.rest) == data;
    r := loader.LoadObject();
  }
}
