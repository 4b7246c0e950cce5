/** base64url as services/cursor.py uses it (sections 4 and 5 of RFC 4648), padding stripped and restored. */
module Base64Url {
  import opened Types

  type Byte = b: int | 0 <= b < 256
  type Sextet = v: int | 0 <= v < 64

  function Letter(v: Sextet): char {
    if v < 26 then ('A' as int + v) as char
    else if v < 52 then ('a' as int + (v - 26)) as char
    else if v < 62 then ('0' as int + (v - 52)) as char
    else if v == 62 then '-' else '_'
  }

  /** The urlsafe decoder maps '-' and '_' onto '+' and '/', so it takes either spelling. */
  function Value(c: char): Option<Sextet> {
    if 'A' <= c <= 'Z' then Some(c as int - 'A' as int)
    else if 'a' <= c <= 'z' then Some(c as int - 'a' as int + 26)
    else if '0' <= c <= '9' then Some(c as int - '0' as int + 52)
    else if c == '-' || c == '+' then Some(62)
    else if c == '_' || c == '/' then Some(63)
    else None
  }

  function Encode(b: seq<Byte>): string {
    if |b| == 0 then ""
    else if |b| == 1 then [Letter(b[0] / 4), Letter(b[0] % 4 * 16), '=', '=']
    else if |b| == 2 then [Letter(b[0] / 4), Letter(b[0] % 4 * 16 + b[1] / 16), Letter(b[1] % 16 * 4), '=']
    else Quad(b[0], b[1], b[2]) + Encode(b[3..])
  }

  function Quad(x: Byte, y: Byte, z: Byte): string {
    [Letter(x / 4), Letter(x % 4 * 16 + y / 16), Letter(y % 16 * 4 + z / 64), Letter(z % 64)]
  }

  /** rstrip("="). */
  function StripPadding(s: string): string {
    if s != "" && s[|s| - 1] == '=' then StripPadding(s[..|s| - 1]) else s
  }

  function Padding(n: nat): string {
    if n == 0 then "" else "=" + Padding(n - 1)
  }

  /** -len % 4. */
  function Missing(n: nat): nat {
    (0 - n) % 4
  }

  function Padded(s: string): string {
    s + Padding(Missing(|s|))
  }

  /** The decoder's scan: letters that are not in the alphabet are skipped, enough padding ends the input,
      and input that ends inside a group is an error. */
  function Scan(s: string, quad: nat, left: nat, pads: nat): Option<seq<Byte>>
    requires quad < 4 && left < 64
    requires quad == 2 ==> left < 16
    requires quad == 3 ==> left < 4
    decreases |s|
  {
    if s == "" then if quad == 0 then Some([]) else None
    else if s[0] == '=' then
      if quad >= 2 && quad + pads + 1 >= 4 then Some([])
      else Scan(s[1..], quad, left, if quad >= 2 then pads + 1 else pads)
    else
      match Value(s[0])
      case None => Scan(s[1..], quad, left, pads)
      case Some(v) =>
        if quad == 0 then Scan(s[1..], 1, v, 0)
        else if quad == 1 then Emit(left * 4 + v / 16, Scan(s[1..], 2, v % 16, 0))
        else if quad == 2 then Emit(left * 16 + v / 4, Scan(s[1..], 3, v % 4, 0))
        else Emit(left * 64 + v, Scan(s[1..], 0, 0, 0))
  }

  function Emit(b: Byte, rest: Option<seq<Byte>>): Option<seq<Byte>> {
    match rest
    case None => None
    case Some(bytes) => Some([b] + bytes)
  }

  function Decode(s: string): Option<seq<Byte>> {
    Scan(s, 0, 0, 0)
  }

  // ---------------------------------------------------------------- round trip

  lemma LetterHasValue(v: Sextet)
    ensures Value(Letter(v)) == Some(v) && Letter(v) != '='
  {
  }

  /** What is left of an encoding without its padding. */
  function Body(b: seq<Byte>): string {
    if |b| == 0 then ""
    else if |b| == 1 then [Letter(b[0] / 4), Letter(b[0] % 4 * 16)]
    else if |b| == 2 then [Letter(b[0] / 4), Letter(b[0] % 4 * 16 + b[1] / 16), Letter(b[1] % 16 * 4)]
    else Quad(b[0], b[1], b[2]) + Body(b[3..])
  }

  predicate Unpadded(s: string) {
    forall i :: 0 <= i < |s| ==> s[i] != '='
  }

  lemma QuadIsUnpadded(x: Byte, y: Byte, z: Byte)
    ensures Unpadded(Quad(x, y, z))
  {
    LetterHasValue(x / 4);
    LetterHasValue(x % 4 * 16 + y / 16);
    LetterHasValue(y % 16 * 4 + z / 64);
    LetterHasValue(z % 64);
  }

  lemma {:induction false} BodyIsUnpadded(b: seq<Byte>)
    ensures Unpadded(Body(b))
    decreases |b|
  {
    if |b| >= 3 {
      BodyIsUnpadded(b[3..]);
      QuadIsUnpadded(b[0], b[1], b[2]);
      assert Body(b) == Quad(b[0], b[1], b[2]) + Body(b[3..]);
    }
  }

  lemma MissingPeriod(q: string, tail: string)
    requires |q| == 4
    ensures q + (tail + Padding(Missing(|tail|))) == (q + tail) + Padding(Missing(|q + tail|))
  {
    assert |q + tail| == |tail| + 4;
  }

  lemma {:induction false} PaddingOfBody(b: seq<Byte>)
    ensures Encode(b) == Body(b) + Padding(Missing(|Body(b)|))
    decreases |b|
  {
    if |b| < 3 {
      assert Padding(2) == "=" + Padding(1) && Padding(1) == "=" + Padding(0) && Padding(0) == "";
    } else {
      PaddingOfBody(b[3..]);
      MissingPeriod(Quad(b[0], b[1], b[2]), Body(b[3..]));
    }
  }

  lemma {:induction false} StripsToBody(s: string, n: nat)
    requires Unpadded(s)
    ensures StripPadding(s + Padding(n)) == s
    decreases n
  {
    if n == 0 {
      assert s + Padding(n) == s;
    } else {
      PaddingEnds(n);
      assert (s + Padding(n))[..|s + Padding(n)| - 1] == s + Padding(n - 1);
      StripsToBody(s, n - 1);
    }
  }

  lemma {:induction false} PaddingEnds(n: nat)
    requires n > 0
    ensures Padding(n) == Padding(n - 1) + "="
  {
    if n > 1 {
      PaddingEnds(n - 1);
    }
  }

  /** One letter in each position of a group. */
  lemma ScanLetter(v: Sextet, rest: string)
    ensures Scan([Letter(v)] + rest, 0, 0, 0) == Scan(rest, 1, v, 0)
    ensures forall left: nat | left < 64 :: left * 4 + v / 16 < 256
              && Scan([Letter(v)] + rest, 1, left, 0) == Emit(left * 4 + v / 16, Scan(rest, 2, v % 16, 0))
    ensures forall left: nat | left < 16 :: left * 16 + v / 4 < 256
              && Scan([Letter(v)] + rest, 2, left, 0) == Emit(left * 16 + v / 4, Scan(rest, 3, v % 4, 0))
    ensures forall left: nat | left < 4 :: left * 64 + v < 256
              && Scan([Letter(v)] + rest, 3, left, 0) == Emit(left * 64 + v, Scan(rest, 0, 0, 0))
  {
    LetterHasValue(v);
    assert ([Letter(v)] + rest)[1..] == rest;
  }

  /** Four sextets carry three bytes. */
  lemma QuadBits(x: Byte, y: Byte, z: Byte)
    ensures var d1, d2, d3 := x % 4 * 16 + y / 16, y % 16 * 4 + z / 64, z % 64;
            && 0 <= d1 < 64 && 0 <= d2 < 64 && x / 4 * 4 + d1 / 16 == x
            && d1 % 16 * 16 + d2 / 4 == y && d2 % 4 * 64 + d3 == z
  {
  }

  lemma ScanFour(d0: Sextet, d1: Sextet, d2: Sextet, d3: Sextet, rest: string)
    ensures d0 * 4 + d1 / 16 < 256 && d1 % 16 * 16 + d2 / 4 < 256 && d2 % 4 * 64 + d3 < 256
    ensures Decode([Letter(d0), Letter(d1), Letter(d2), Letter(d3)] + rest)
         == Emit(d0 * 4 + d1 / 16, Emit(d1 % 16 * 16 + d2 / 4, Emit(d2 % 4 * 64 + d3, Decode(rest))))
  {
    var t3 := [Letter(d3)] + rest;
    var t2 := [Letter(d2)] + t3;
    var t1 := [Letter(d1)] + t2;
    assert [Letter(d0), Letter(d1), Letter(d2), Letter(d3)] + rest == [Letter(d0)] + t1;
    ScanLetter(d0, t1);
    ScanLetter(d1, t2);
    ScanLetter(d2, t3);
    ScanLetter(d3, rest);
  }

  lemma EmitThree(x: Byte, y: Byte, z: Byte, rest: seq<Byte>)
    ensures Emit(x, Emit(y, Emit(z, Some(rest)))) == Some([x, y, z] + rest)
  {
    assert [x] + ([y] + ([z] + rest)) == [x, y, z] + rest;
  }

  lemma ScanOne(x: Byte)
    ensures Decode([Letter(x / 4), Letter(x % 4 * 16), '=', '=']) == Some([x])
  {
    var s := [Letter(x / 4), Letter(x % 4 * 16), '=', '='];
    LetterHasValue(x / 4);
    LetterHasValue(x % 4 * 16);
    assert Scan(s, 0, 0, 0) == Scan(s[1..], 1, x / 4, 0);
    assert Scan(s[1..], 1, x / 4, 0) == Emit(x, Scan(s[1..][1..], 2, 0, 0));
    assert s[1..][1..] == ['=', '='];
    assert ['=', '='][1..] == ['='];
    assert Scan(['=', '='], 2, 0, 0) == Scan(['='], 2, 0, 1) == Some([]);
    assert [x] + [] == [x];
  }

  lemma ScanTwo(x: Byte, y: Byte)
    ensures Decode([Letter(x / 4), Letter(x % 4 * 16 + y / 16), Letter(y % 16 * 4), '=']) == Some([x, y])
  {
    var s := [Letter(x / 4), Letter(x % 4 * 16 + y / 16), Letter(y % 16 * 4), '='];
    LetterHasValue(x / 4);
    LetterHasValue(x % 4 * 16 + y / 16);
    LetterHasValue(y % 16 * 4);
    assert s[1..][1..] == s[2..] && s[2..][1..] == ['='];
    assert Scan(s, 0, 0, 0) == Scan(s[1..], 1, x / 4, 0);
    assert Scan(s[1..], 1, x / 4, 0) == Emit(x, Scan(s[2..], 2, y / 16, 0));
    assert Scan(s[2..], 2, y / 16, 0) == Emit(y, Scan(['='], 3, 0, 0));
    assert [x] + ([y] + []) == [x, y];
  }

  lemma {:induction false} DecodeOfEncode(b: seq<Byte>)
    ensures Decode(Encode(b)) == Some(b)
    decreases |b|
  {
    if |b| == 1 {
      ScanOne(b[0]);
      assert b == [b[0]];
    } else if |b| == 2 {
      ScanTwo(b[0], b[1]);
      assert b == [b[0], b[1]];
    } else if |b| >= 3 {
      DecodeOfEncode(b[3..]);
      QuadBits(b[0], b[1], b[2]);
      ScanFour(b[0] / 4, b[0] % 4 * 16 + b[1] / 16, b[1] % 16 * 4 + b[2] / 64, b[2] % 64, Encode(b[3..]));
      EmitThree(b[0], b[1], b[2], b[3..]);
      assert b == [b[0], b[1], b[2]] + b[3..];
    }
  }

  /** Stripping the padding loses nothing: restoring it from the length alone decodes to the same bytes. */
  lemma StrippedRoundTrip(b: seq<Byte>)
    ensures Decode(Padded(StripPadding(Encode(b)))) == Some(b)
  {
    BodyIsUnpadded(b);
    PaddingOfBody(b);
    StripsToBody(Body(b), Missing(|Body(b)|));
    DecodeOfEncode(b);
  }
}
