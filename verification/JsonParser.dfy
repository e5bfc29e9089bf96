/** extmod/modujson.c: the one-pass parser with an explicit stack, as functions on values. Lists and dicts are
    mutable objects that the parser refers to, so they are cells of a heap. `rest` is the input from the
    current character (S_CUR) on. */
module JsonParser {
  import opened JsonGrammar
  import opened Wrappers

  /** A reference to an object: a primitive, or a list or dict in the heap. */
  datatype Ref = P(p: Prim) | Obj(id: nat)

  datatype Container = ListObj(items: seq<Ref>) | DictObj(members: map<Prim, Ref>)

  datatype Error = ValueError

  // ---------- the stream ----------

  const S_EOF: char := '\0'

  /** S_CUR */
  function Cur(rest: string): char {
    if rest == "" then S_EOF else rest[0]
  }

  /** S_NEXT */
  function Advance(rest: string): string {
    if rest == "" then "" else rest[1..]
  }

  function AdvanceBy(rest: string, n: nat): (r: string)
    ensures |r| <= |rest|
  {
    if n == 0 then rest else Advance(AdvanceBy(rest, n - 1))
  }

  /** S_END: the end of the input, or a NUL byte in it. */
  predicate AtEnd(rest: string) {
    Cur(rest) == S_EOF
  }

  // ---------- strings ----------

  /** Bit 5 set, which makes a letter lower-case. */
  function Or20(c: nat): nat {
    if c / 0x20 % 2 == 0 then c + 0x20 else c
  }

  /** Lines 151-154: a hex digit, in byte arithmetic. */
  function HexNibble(c: char): nat {
    var d := (Or20(c as int) - '0' as int) % 256;
    if d > 9 then (d - ('a' as int - ('9' as int + 1))) % 256 else d
  }

  /** The low n bits of the inclusive or. */
  function OrBits(a: nat, b: nat, n: nat): nat {
    if n == 0 then 0 else (if a % 2 == 1 || b % 2 == 1 then 1 else 0) + 2 * OrBits(a / 2, b / 2, n - 1)
  }

  /** A hex digit appended to a number. */
  function ShiftIn(num: nat, c: nat): nat {
    OrBits(num * 16, c, 24)
  }

  /** Lines 149-156, with `rest` at the `u`: the number made of the next i characters. */
  function EscapePart(rest: string, i: nat): nat {
    if i == 0 then 0 else ShiftIn(EscapePart(rest, i - 1), HexNibble(Cur(AdvanceBy(rest, i))))
  }

  /** One round of the string loop: the bytes it adds, and the input after it. */
  function StringRound(rest: string): (r: (string, string))
    requires rest != ""
    ensures |r.1| < |rest|
  {
    if rest[0] != '\\' then
      ([rest[0]], rest[1..])
    else
      var r := rest[1..];
      if Cur(r) == 'u' then
        (Utf8(EscapePart(r, 4)), Advance(AdvanceBy(r, 4)))
      else
        ([ShortValue(Cur(r))], Advance(r))
  }

  /** Lines 138-169: the string after its opening quote; None when it is not closed. */
  function ReadString(rest: string, vstr: string): Option<(string, string)>
    decreases |rest|
  {
    if AtEnd(rest) then None
    else if Cur(rest) == '"' then Some((vstr, Advance(rest)))
    else
      var (bytes, r) := StringRound(rest);
      ReadString(r, vstr + bytes)
  }

  // ---------- numbers ----------

  predicate NumberChar(c: char) {
    c == '.' || c == 'E' || c == 'e' || c == '-' || IsDigit(c)
  }

  /** Lines 176-187: the characters of a number and whether it is a decimal. */
  function ReadNumber(rest: string, vstr: string, flt: bool): (string, bool, string)
    decreases |rest|
  {
    if rest != "" && NumberChar(rest[0]) then
      ReadNumber(rest[1..], vstr + [rest[0]], flt || rest[0] == '.' || rest[0] == 'E' || rest[0] == 'e')
    else
      (vstr, flt, rest)
  }

  /** mp_parse_num_integer in base 10. */
  function ParseInteger(s: string): Option<int> {
    var neg := s != "" && s[0] == '-';
    var digits := if neg then s[1..] else s;
    if digits != "" && Digits(digits) then Some(Signed(neg, DecimalValue(digits))) else None
  }

  // ---------- tokens ----------

  datatype Token = Skip | Value(p: Prim, after: string) | OpenList | OpenDict | Close | Bad

  function Literal(rest: string, tail: string, p: Prim): Token {
    if tail <= rest then Value(p, rest[|tail|..]) else Bad
  }

  /** Lines 104-220, with `cur` taken and `rest` behind it. */
  function NextToken(cur: char, rest: string): (t: Token)
  {
    match cur
    case ',' => Skip
    case ':' => Skip
    case ' ' => Skip
    case '\t' => Skip
    case '\n' => Skip
    case '\r' => Skip
    case 'n' => Literal(rest, "ull", NoneObj)
    case 'f' => Literal(rest, "alse", Bool(false))
    case 't' => Literal(rest, "rue", Bool(true))
    case '"' =>
      (match ReadString(rest, "")
       case None => Bad
       case Some((bytes, after)) => Value(Str(bytes), after))
    case '[' => OpenList
    case '{' => OpenDict
    case ']' => Close
    case '}' => Close
    case _ =>
      if cur == '-' || IsDigit(cur) then
        var (s, flt, after) := ReadNumber(rest, [cur], false);
        if flt then Value(Float(s), after)
        else match ParseInteger(s)
             case None => Bad
             case Some(n) => Value(Int(n), after)
      else
        Bad
  }

  lemma ReadStringShrinks(rest: string, vstr: string)
    ensures ReadString(rest, vstr).Some? ==> |ReadString(rest, vstr).value.1| <= |rest|
    decreases |rest|
  {
    if !AtEnd(rest) && Cur(rest) != '"' {
      var (bytes, r) := StringRound(rest);
      ReadStringShrinks(r, vstr + bytes);
    }
  }

  lemma ReadNumberShrinks(rest: string, vstr: string, flt: bool)
    ensures |ReadNumber(rest, vstr, flt).2| <= |rest|
    decreases |rest|
  {
  }

  lemma TokenShrinks(cur: char, rest: string)
    ensures NextToken(cur, rest).Value? ==> |NextToken(cur, rest).after| <= |rest|
  {
    ReadStringShrinks(rest, "");
    ReadNumberShrinks(rest, [cur], false);
  }

  // ---------- the loop ----------

  /** The parser's variables: the containers made so far, the stack, stack_top and stack_key. */
  datatype State = State(heap: seq<Container>, stack: seq<Ref>, top: Option<Ref>, key: Option<Prim>)

  predicate InHeap(heap: seq<Container>, r: Ref) {
    r.Obj? ==> r.id < |heap|
  }

  predicate ValidState(s: State) {
    && (s.top.Some? ==> s.top.value.Obj? && InHeap(s.heap, s.top.value))
    && (forall i | 0 <= i < |s.stack| :: s.stack[i].Obj? && InHeap(s.heap, s.stack[i]))
  }

  /** Lines 230-242: the object goes into the innermost container. None: a container as a key. */
  function Put(s: State, next: Ref): (r: Option<State>)
    requires ValidState(s) && s.top.Some?
    ensures r.Some? && InHeap(s.heap, next) ==> ValidState(r.value) && r.value.top == s.top
  {
    var id := s.top.value.id;
    match s.heap[id]
    case ListObj(items) => Some(s.(heap := s.heap[id := ListObj(items + [next])]))
    case DictObj(members) =>
      match s.key
      case None => if next.P? then Some(s.(key := Some(next.p))) else None
      case Some(k) => Some(s.(heap := s.heap[id := DictObj(members[k := next])], key := None))
  }

  /** Lines 196, 200 and 221-252 for a new list or dict. */
  function Enter(s: State, blank: Container): (r: Option<State>)
    requires ValidState(s)
    ensures r.Some? ==> ValidState(r.value)
  {
    var next := Obj(|s.heap|);
    var s1 := s.(heap := s.heap + [blank]);
    if s.top.None? then
      Some(s1.(top := Some(next)))
    else
      match Put(s1, next)
      case None => None
      case Some(s2) => Some(s2.(stack := s2.stack + [s.top.value], top := Some(next)))
  }

  predicate IsTrailingSpace(c: char) {
    c == ' ' || 9 <= c as int <= 13
  }

  function EatSpace(rest: string): string
    decreases |rest|
  {
    if IsTrailingSpace(Cur(rest)) then EatSpace(rest[1..]) else rest
  }

  /** What load returns: the object, and the heap it lives in. */
  datatype Loaded = Loaded(heap: seq<Container>, value: Ref)

  /** Lines 255-269 */
  function Finish(rest: string, heap: seq<Container>, top: Option<Ref>, depth: nat): Result<Loaded, Error> {
    if !AtEnd(EatSpace(rest)) then Err(ValueError)
    else if top.None? || depth != 0 then Err(ValueError)
    else Ok(Loaded(heap, top.value))
  }

  /** mod_ujson_load: one round of the loop per call. */
  function Load(rest: string, s: State): Result<Loaded, Error>
    requires ValidState(s)
    decreases |rest|
  {
    if AtEnd(rest) then
      Finish(rest, s.heap, s.top, |s.stack|)
    else
      TokenShrinks(rest[0], rest[1..]);
      match NextToken(rest[0], rest[1..])
      case Skip => Load(rest[1..], s)
      case Bad => Err(ValueError)
      case Close =>
        if s.top.None? then Err(ValueError)
        else if s.stack == [] then Finish(rest[1..], s.heap, s.top, 0)
        else Load(rest[1..], s.(stack := s.stack[..|s.stack| - 1], top := Some(s.stack[|s.stack| - 1])))
      case Value(p, after) =>
        if s.top.None? then Finish(after, s.heap, Some(P(p)), |s.stack|)
        else
          (match Put(s, P(p))
           case None => Err(ValueError)
           case Some(s1) => Load(after, s1))
      case OpenList =>
        (match Enter(s, ListObj([]))
         case None => Err(ValueError)
         case Some(s1) => Load(rest[1..], s1))
      case OpenDict =>
        (match Enter(s, DictObj(map[]))
         case None => Err(ValueError)
         case Some(s1) => Load(rest[1..], s1))
  }

  const INITIAL := State([], [], None, None)
}
