/** py/parsenum.c:49-141: the conversion of a text to an integer, in base 10, for which no prefix is skipped. */
module ParseNum {
  import opened JsonGrammar
  import opened JsonParser
  import opened Wrappers

  /** The greatest small int of a 32-bit machine. */
  const SMALL_INT_MAX := 0x3fff_ffff

  /** Lines 82-94: the value of a digit, with letters as digits of higher bases; 255 for other characters. */
  function DigitOf(c: char): nat {
    if '0' <= c <= '9' then c as int - '0' as int
    else
      var dig := Or20(c as int);
      if 'a' as int <= dig <= 'z' as int then dig - ('a' as int - 10) else 255
  }

  lemma DigitIsDecimal(c: char)
    ensures DigitOf(c) < 10 <==> IsDigit(c)
    ensures IsDigit(c) ==> DigitOf(c) == DigitValue(c)
  {
  }

  /** Letters are the digits from 10 on, in upper and lower case. */
  lemma DigitOfLetter(c: char)
    ensures 'a' <= c <= 'z' ==> DigitOf(c) == c as int - 'a' as int + 10
    ensures 'A' <= c <= 'Z' ==> DigitOf(c) == c as int - 'A' as int + 10
    ensures !('a' <= c <= 'z') && !('A' <= c <= 'Z') && !IsDigit(c) ==> DigitOf(c) == 255
  {
  }

  lemma OneMoreDigit(s: string, start: nat, i: nat)
    requires start <= i < |s| && Digits(s[start..i]) && IsDigit(s[i])
    ensures Digits(s[start..i + 1])
    ensures DecimalValue(s[start..i + 1]) == 10 * DecimalValue(s[start..i]) + DigitValue(s[i])
  {
    var t := s[start..i + 1];
    assert t[..|t| - 1] == s[start..i] && t[|t| - 1] == s[i];
  }

  /** The digits from `start` on end at i. */
  predicate EndsAt(s: string, start: nat, i: nat) {
    start <= i <= |s| && Digits(s[start..i]) && (i == |s| || !IsDigit(s[i]))
  }

  /** mp_obj_new_int_from_str_len in base 10, as far as it says: an integer of any size. */
  method NewIntFromStr(s: string, start: nat) returns (val: nat, i: nat)
    requires start <= |s|
    ensures EndsAt(s, start, i) && val == DecimalValue(s[start..i])
  {
    val, i := 0, start;
    while i < |s|
      invariant start <= i <= |s| && Digits(s[start..i]) && val == DecimalValue(s[start..i])
    {
      DigitIsDecimal(s[i]);
      if DigitOf(s[i]) >= 10 {
        break;
      }
      OneMoreDigit(s, start, i);
      val, i := val * 10 + DigitOf(s[i]), i + 1;
    }
  }

  /** Lines 78-107 and 135-141: small ints as long as they last, then all over again with long ones. */
  method ParseDigits(s: string, start: nat) returns (val: nat, i: nat)
    requires start <= |s|
    ensures EndsAt(s, start, i) && val == DecimalValue(s[start..i])
  {
    val, i := 0, start;
    while i < |s|
      invariant start <= i <= |s| && Digits(s[start..i]) && val == DecimalValue(s[start..i])
    {
      DigitIsDecimal(s[i]);
      if DigitOf(s[i]) >= 10 {
        break;
      }
      if val * 10 > SMALL_INT_MAX || val * 10 + DigitOf(s[i]) > SMALL_INT_MAX {
        val, i := NewIntFromStr(s, start);
        return;
      }
      OneMoreDigit(s, start, i);
      val, i := val * 10 + DigitOf(s[i]), i + 1;
    }
  }

  method SkipSpaces(s: string, start: nat) returns (i: nat)
    requires start <= |s|
    ensures start <= i <= |s| && (i < |s| ==> !IsTrailingSpace(s[i]))
    ensures forall k | start <= k < i :: IsTrailingSpace(s[k])
  {
    i := start;
    while i < |s| && IsTrailingSpace(s[i])
      invariant start <= i <= |s| && forall k | start <= k < i :: IsTrailingSpace(s[k])
    {
      i := i + 1;
    }
  }

  /** No spaces, and no plus sign: what the JSON parser passes. */
  predicate IsBare(s: string) {
    (forall k | 0 <= k < |s| :: !IsTrailingSpace(s[k])) && (s != "" ==> s[0] != '+')
  }

  lemma BareInteger(s: string, start: nat, i: nat)
    requires IsBare(s) && start == (if s != "" && s[0] == '-' then 1 else 0) && EndsAt(s, start, i)
    ensures ParseInteger(s) ==
            if start < i == |s| then Some((if start == 1 then -1 else 1) * DecimalValue(s[start..i])) else None
  {
    var digits := s[start..];
    if i < |s| {
      assert !Digits(digits) by {
        assert digits[i - start] == s[i];
      }
    } else {
      assert s[start..i] == digits;
    }
    assert start == 0 ==> digits == s;
  }

  /** mp_parse_num_integer; None stands for the ValueError. */
  method ParseNumInteger(s: string) returns (r: Option<int>)
    ensures IsBare(s) ==> r == ParseInteger(s)
    ensures IsBare(s) ==>
              var digits := if s != "" && s[0] == '-' then s[1..] else s;
              if digits == "" || !Digits(digits) then r == None
              else r.Some? && r.value == if s[0] == '-' then 0 - DecimalValue(digits) else DecimalValue(digits)
  {
    var i := SkipSpaces(s, 0);
    var neg := false;
    if i < |s| {
      if s[i] == '+' {
        i := i + 1;
      } else if s[i] == '-' {
        i, neg := i + 1, true;
      }
    }
    var start := i;
    var val;
    val, i := ParseDigits(s, start);
    if IsBare(s) {
      BareInteger(s, start, i);
    }
    if i == start {
      return None;
    }
    i := SkipSpaces(s, i);
    if i != |s| {
      return None;
    }
    var n: int := val;
    return Some(if neg then -n else n);
  }
}
