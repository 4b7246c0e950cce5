/** Fixed-width numerals and splitting on a separator. */
module Numerals {
  import opened Types

  function DigitChar(v: nat): char
    requires v < 16
  {
    if v < 10 then ('0' as int + v) as char else ('a' as int + (v - 10)) as char
  }

  function DigitValue(c: char): Option<nat> {
    if '0' <= c <= '9' then Some(c as int - '0' as int)
    else if 'a' <= c <= 'f' then Some(c as int - 'a' as int + 10)
    else if 'A' <= c <= 'F' then Some(c as int - 'A' as int + 10)
    else None
  }

  function Pow(base: nat, w: nat): nat {
    if w == 0 then 1 else base * Pow(base, w - 1)
  }

  /** n in exactly w digits, leading zeros included. */
  function Numeral(n: nat, w: nat, base: nat): (s: string)
    requires 2 <= base <= 16
    ensures |s| == w
  {
    if w == 0 then "" else Numeral(n / base, w - 1, base) + [DigitChar(n % base)]
  }

  function Parse(s: string, base: nat): Option<nat>
    requires 2 <= base <= 16
  {
    if s == "" then Some(0)
    else
      var high, low := Parse(s[..|s| - 1], base), DigitValue(s[|s| - 1]);
      if high.None? || low.None? || low.value >= base then None else Some(high.value * base + low.value)
  }

  lemma DigitRoundTrip(v: nat)
    requires v < 16
    ensures DigitValue(DigitChar(v)) == Some(v)
  {
  }

  lemma ParseStep(high: string, v: nat, base: nat)
    requires 2 <= base <= 16 && v < base && Parse(high, base).Some?
    ensures Parse(high + [DigitChar(v)], base) == Some(Parse(high, base).value * base + v)
  {
    var s := high + [DigitChar(v)];
    assert s[..|s| - 1] == high && s[|s| - 1] == DigitChar(v);
    DigitRoundTrip(v);
  }

  lemma {:induction false} ParseOfNumeral(n: nat, w: nat, base: nat)
    requires 2 <= base <= 16 && n < Pow(base, w)
    ensures Parse(Numeral(n, w, base), base) == Some(n)
    decreases w
  {
    if w > 0 {
      DivBelow(n, base, Pow(base, w - 1));
      ParseOfNumeral(n / base, w - 1, base);
      ParseStep(Numeral(n / base, w - 1, base), n % base, base);
    }
  }

  lemma DivBelow(n: nat, base: nat, p: nat)
    requires base > 0 && n < base * p
    ensures n / base < p && n / base * base + n % base == n
  {
  }

  lemma {:induction false} NumeralIsDigits(n: nat, w: nat, base: nat)
    requires 2 <= base <= 16
    ensures forall i :: 0 <= i < w ==> DigitValue(Numeral(n, w, base)[i]).Some?
    decreases w
  {
    if w > 0 {
      NumeralIsDigits(n / base, w - 1, base);
    }
  }

  /** str.split on one separator. */
  function Split(s: string, sep: char): seq<string> {
    if s == "" then [""]
    else
      var rest := Split(s[1..], sep);
      if s[0] == sep then [""] + rest
      else if rest == [] then [s] else [[s[0]] + rest[0]] + rest[1..]
  }

  predicate Free(s: string, sep: char) {
    forall i :: 0 <= i < |s| ==> s[i] != sep
  }

  lemma {:induction false} SplitFree(s: string, sep: char)
    requires Free(s, sep)
    ensures Split(s, sep) == [s]
  {
    if s != "" {
      SplitFree(s[1..], sep);
      assert [s[0]] + s[1..] == s;
    }
  }

  lemma {:induction false} SplitAtFirst(head: string, tail: string, sep: char)
    requires Free(head, sep)
    ensures Split(head + [sep] + tail, sep) == [head] + Split(tail, sep)
    decreases |head|
  {
    var s := head + [sep] + tail;
    if head == "" {
      assert s[1..] == tail;
    } else {
      assert s[1..] == head[1..] + [sep] + tail;
      SplitAtFirst(head[1..], tail, sep);
      assert [s[0]] + head[1..] == head;
    }
  }

  /** Three separator-free parts come back as exactly those three. */
  lemma SplitThree(a: string, b: string, c: string, sep: char)
    requires Free(a, sep) && Free(b, sep) && Free(c, sep)
    ensures Split(a + [sep] + (b + [sep] + c), sep) == [a, b, c]
  {
    SplitAtFirst(a, b + [sep] + c, sep);
    SplitAtFirst(b, c, sep);
    SplitFree(c, sep);
  }
}
