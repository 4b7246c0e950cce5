/** services/cursor.py: the opaque keyset cursor. */
module Cursor {
  import opened Types
  import opened Numerals
  import opened Calendar
  import B = Base64Url

  const PREFIX := "v1"
  const SEPARATOR := '|'

  datatype Fault = NotBase64 | Malformed | UnsupportedVersion | BadTimestamp | BadId

  /** A cursor's meaning: the instant and id of the last row served, or why it has none. */
  datatype Decoded = Invalid(fault: Fault) | Position(startedAt: int, id: Id)

  // ---------------------------------------------------------------- timestamps

  function Two(n: nat): string {
    Numeral(n, 2, 10)
  }

  /** datetime.isoformat() in UTC: the fraction appears only when it is not zero. */
  function IsoFormat(t: Time): string {
    var c := FromTime(t);
    DateText(c) + ['T'] + ClockText(c) + (FractionText(c.micro) + "+00:00")
  }

  function DateText(c: Civil): string
    requires Valid(c)
  {
    Numeral(c.year, 4, 10) + ['-'] + Two(c.month) + ['-'] + Two(c.day)
  }

  function ClockText(c: Civil): string
    requires Valid(c)
  {
    Two(c.hour) + [':'] + Two(c.minute) + [':'] + Two(c.second)
  }

  function FractionText(micro: nat): string {
    if micro == 0 then "" else ['.'] + Numeral(micro, 6, 10)
  }

  function Field(s: string, from: nat, to: nat): Option<nat>
    requires from <= to <= |s|
  {
    Parse(s[from..to], 10)
  }

  function ParseDate(s: string): Option<(int, int, int)> {
    if |s| != 10 || s[4] != '-' || s[7] != '-' then None
    else
      var y, m, d := Field(s, 0, 4), Field(s, 5, 7), Field(s, 8, 10);
      if y.None? || m.None? || d.None? then None else Some((y.value, m.value, d.value))
  }

  function ParseClock(s: string): Option<(int, int, int)> {
    if |s| != 8 || s[2] != ':' || s[5] != ':' then None
    else
      var h, m, x := Field(s, 0, 2), Field(s, 3, 5), Field(s, 6, 8);
      if h.None? || m.None? || x.None? then None else Some((h.value, m.value, x.value))
  }

  /** The offset in minutes; without one the timestamp is read as UTC. */
  function ParseOffset(s: string): Option<int> {
    if s == "" then Some(0)
    else if |s| != 6 || s[3] != ':' || (s[0] != '+' && s[0] != '-') then None
    else
      var h, m := Field(s, 1, 3), Field(s, 4, 6);
      if h.None? || m.None? || h.value >= 24 || m.value >= 60 then None
      else Some(if s[0] == '+' then h.value * 60 + m.value else -(h.value * 60 + m.value))
  }

  /** The micros and what follows them. */
  function ParseFraction(s: string): Option<(nat, string)> {
    if s == "" || s[0] != '.' then Some((0, s))
    else if |s| < 7 then None
    else
      var f := Field(s, 1, 7);
      if f.None? then None else Some((f.value, s[7..]))
  }

  function ParseIso(s: string): Option<int> {
    if |s| < 19 || s[10] != 'T' then None
    else
      var date, clock, fraction := ParseDate(s[..10]), ParseClock(s[11..19]), ParseFraction(s[19..]);
      if date.None? || clock.None? || fraction.None? then None
      else
        var offset := ParseOffset(fraction.value.1);
        var c := Civil(date.value.0, date.value.1, date.value.2, clock.value.0, clock.value.1, clock.value.2,
                       fraction.value.0);
        if offset.None? || !Valid(c) then None else Some(ToMicros(c) - offset.value * 60_000_000)
  }

  // ---------------------------------------------------------------- ids

  function Hex(id: Id): string {
    Numeral(id, 32, 16)
  }

  /** The 8-4-4-4-12 text form of section 4 of RFC 9562. */
  function UuidText(id: Id): string {
    Hyphenated(Hex(id))
  }

  function Hyphenated(h: string): string
    requires |h| == 32
  {
    h[..8] + ['-'] + h[8..12] + ['-'] + h[12..16] + ['-'] + h[16..20] + ['-'] + h[20..]
  }

  function WithoutDashes(s: string): string {
    if s == "" then "" else (if s[0] == '-' then "" else [s[0]]) + WithoutDashes(s[1..])
  }

  function ParseUuid(s: string): Option<Id> {
    var h := WithoutDashes(s);
    if |h| != 32 then None
    else
      var n := Parse(h, 16);
      if n.None? || n.value >= 0x1_0000_0000_0000_0000_0000_0000_0000_0000 then None else Some(n.value)
  }

  // ---------------------------------------------------------------- the cursor

  function Raw(t: Time, id: Id): string {
    PREFIX + [SEPARATOR] + (IsoFormat(t) + [SEPARATOR] + UuidText(id))
  }

  predicate IsAscii(s: string) {
    forall i :: 0 <= i < |s| ==> s[i] as int < 128
  }

  function ToBytes(s: string): seq<B.Byte>
    requires IsAscii(s)
  {
    seq(|s|, i requires 0 <= i < |s| => s[i] as int)
  }

  /** UTF-8 decoding of bytes that are all ASCII; anything above is no cursor text. */
  function ToText(b: seq<B.Byte>): Option<string> {
    if exists i :: 0 <= i < |b| && b[i] >= 128 then None
    else Some(seq(|b|, i requires 0 <= i < |b| => b[i] as char))
  }

  function Encode(t: Time, id: Id): string {
    RawIsAscii(t, id);
    B.StripPadding(B.Encode(ToBytes(Raw(t, id))))
  }

  function Decode(cursor: string): Decoded {
    if !IsAscii(cursor) then Invalid(NotBase64)
    else
      var bytes := B.Decode(B.Padded(cursor));
      if bytes.None? || ToText(bytes.value).None? then Invalid(NotBase64)
      else
        var parts := Split(ToText(bytes.value).value, SEPARATOR);
        if |parts| != 3 then Invalid(Malformed)
        else if parts[0] != PREFIX then Invalid(UnsupportedVersion)
        else
          var t, id := ParseIso(parts[1]), ParseUuid(parts[2]);
          if t.None? then Invalid(BadTimestamp)
          else if id.None? then Invalid(BadId)
          else Position(t.value, id.value)
  }

  // ---------------------------------------------------------------- round trip

  /** Characters of a raw cursor: digits, letters and a little punctuation, none of it the separator. */
  predicate Plain(c: char) {
    DigitValue(c).Some? || c == '-' || c == 'T' || c == ':' || c == '.' || c == '+'
  }

  predicate AllPlain(s: string) {
    forall i :: 0 <= i < |s| ==> Plain(s[i])
  }

  lemma DigitsArePlain(n: nat, w: nat, base: nat)
    requires 2 <= base <= 16
    ensures AllPlain(Numeral(n, w, base))
  {
    NumeralIsDigits(n, w, base);
  }

  lemma DateIsPlain(c: Civil)
    requires Valid(c)
    ensures AllPlain(DateText(c))
  {
    DigitsArePlain(c.year, 4, 10);
    DigitsArePlain(c.month, 2, 10);
    DigitsArePlain(c.day, 2, 10);
  }

  lemma ClockIsPlain(c: Civil)
    requires Valid(c)
    ensures AllPlain(ClockText(c))
  {
    DigitsArePlain(c.hour, 2, 10);
    DigitsArePlain(c.minute, 2, 10);
    DigitsArePlain(c.second, 2, 10);
  }

  lemma IsoIsPlain(t: Time)
    ensures AllPlain(IsoFormat(t))
  {
    var c := FromTime(t);
    DateIsPlain(c);
    ClockIsPlain(c);
    DigitsArePlain(c.micro, 6, 10);
    assert AllPlain(FractionText(c.micro)) && AllPlain("+00:00");
  }

  lemma UuidIsPlain(id: Id)
    ensures AllPlain(UuidText(id))
  {
    DigitsArePlain(id, 32, 16);
  }

  lemma RawIsAscii(t: Time, id: Id)
    ensures IsAscii(Raw(t, id))
  {
    IsoIsPlain(t);
    UuidIsPlain(id);
    PlainIsAscii(IsoFormat(t));
    PlainIsAscii(UuidText(id));
  }

  lemma PlainIsAscii(s: string)
    requires AllPlain(s)
    ensures IsAscii(s) && Free(s, SEPARATOR)
  {
  }

  lemma Tens()
    ensures Pow(10, 2) == 100 && Pow(10, 4) == 10000 && Pow(10, 6) == 1_000_000
  {
    assert Pow(10, 1) == 10;
    assert Pow(10, 2) == 10 * Pow(10, 1);
    assert Pow(10, 3) == 10 * Pow(10, 2);
    assert Pow(10, 4) == 10 * Pow(10, 3);
    assert Pow(10, 5) == 10 * Pow(10, 4);
    assert Pow(10, 6) == 10 * Pow(10, 5);
  }

  lemma TwoParses(n: nat)
    requires n < 100
    ensures Parse(Two(n), 10) == Some(n)
  {
    Tens();
    ParseOfNumeral(n, 2, 10);
  }

  lemma DateParses(c: Civil)
    requires Valid(c)
    ensures |DateText(c)| == 10 && ParseDate(DateText(c)) == Some((c.year, c.month, c.day))
  {
    var s := DateText(c);
    Tens();
    ParseOfNumeral(c.year, 4, 10);
    TwoParses(c.month);
    TwoParses(c.day);
    assert s[0..4] == Numeral(c.year, 4, 10) && s[5..7] == Two(c.month) && s[8..10] == Two(c.day);
  }

  lemma ClockParses(c: Civil)
    requires Valid(c)
    ensures |ClockText(c)| == 8 && ParseClock(ClockText(c)) == Some((c.hour, c.minute, c.second))
  {
    var s := ClockText(c);
    TwoParses(c.hour);
    TwoParses(c.minute);
    TwoParses(c.second);
    assert s[0..2] == Two(c.hour) && s[3..5] == Two(c.minute) && s[6..8] == Two(c.second);
  }

  lemma FractionParses(micro: nat, rest: string)
    requires micro < 1_000_000 && (rest == "" || rest[0] != '.')
    ensures ParseFraction(FractionText(micro) + rest) == Some((micro, rest))
  {
    var s := FractionText(micro) + rest;
    if micro == 0 {
      assert s == rest;
    } else {
      Tens();
      ParseOfNumeral(micro, 6, 10);
      assert s[1..7] == Numeral(micro, 6, 10) && s[7..] == rest;
    }
  }

  lemma UtcParses()
    ensures ParseOffset("+00:00") == Some(0)
  {
    var s := "+00:00";
    assert s[1..3] == "00" && s[4..6] == "00";
    assert Parse("0", 10) == Some(0) by {
      assert "0"[..0] == "";
    }
    assert Parse("00", 10) == Some(0) by {
      assert "00"[..1] == "0";
    }
  }

  lemma IsoParts(date: string, clock: string, rest: string)
    requires |date| == 10 && |clock| == 8
    ensures var s := date + ['T'] + clock + rest;
            |s| >= 19 && s[10] == 'T' && s[..10] == date && s[11..19] == clock && s[19..] == rest
  {
  }

  lemma PartsParse(date: string, clock: string, rest: string, c: Civil, zone: string, minutes: int)
    requires |date| == 10 && |clock| == 8 && Valid(c)
    requires ParseDate(date) == Some((c.year, c.month, c.day))
    requires ParseClock(clock) == Some((c.hour, c.minute, c.second))
    requires ParseFraction(rest) == Some((c.micro, zone)) && ParseOffset(zone) == Some(minutes)
    ensures ParseIso(date + ['T'] + clock + rest) == Some(ToMicros(c) - minutes * 60_000_000)
  {
    IsoParts(date, clock, rest);
  }

  /** A civil date and clock as text, with some zone behind it. */
  function Reading(c: Civil, zone: string): string
    requires Valid(c)
  {
    DateText(c) + ['T'] + ClockText(c) + (FractionText(c.micro) + zone)
  }

  lemma ReadingParses(c: Civil, zone: string, minutes: int)
    requires Valid(c) && (zone == "" || zone[0] != '.') && ParseOffset(zone) == Some(minutes)
    ensures ParseIso(Reading(c, zone)) == Some(ToMicros(c) - minutes * 60_000_000)
  {
    DateParses(c);
    ClockParses(c);
    FractionParses(c.micro, zone);
    PartsParse(DateText(c), ClockText(c), FractionText(c.micro) + zone, c, zone, minutes);
  }

  lemma IsoRoundTrip(t: Time)
    ensures ParseIso(IsoFormat(t)) == Some(t)
  {
    UtcParses();
    ReadingParses(FromTime(t), "+00:00", 0);
  }

  function OffsetText(ahead: bool, h: nat, m: nat): string {
    [if ahead then '+' else '-'] + (Two(h) + ([':'] + Two(m)))
  }

  lemma OffsetParses(ahead: bool, h: nat, m: nat)
    requires h < 24 && m < 60
    ensures ParseOffset(OffsetText(ahead, h, m)) == Some(if ahead then 60 * h + m else -(60 * h + m))
    ensures OffsetText(ahead, h, m) != "" && OffsetText(ahead, h, m)[0] != '.'
  {
    var s := OffsetText(ahead, h, m);
    TwoParses(h);
    TwoParses(m);
    assert s[1..3] == Two(h) && s[4..6] == Two(m);
  }

  /** Without an offset a reading is taken as UTC's. */
  lemma NaiveReadingIsUtc(c: Civil)
    requires Valid(c)
    ensures ParseIso(Reading(c, "")) == Some(ToMicros(c))
  {
    ReadingParses(c, "", 0);
  }

  /** The same reading names an earlier instant the further ahead of UTC it is taken. */
  lemma OffsetIsTakenOff(c: Civil, ahead: bool, h: nat, m: nat, minutes: int)
    requires Valid(c) && h < 24 && m < 60 && minutes == if ahead then 60 * h + m else -(60 * h + m)
    ensures ParseIso(Reading(c, OffsetText(ahead, h, m))) == Some(ToMicros(c) - minutes * 60_000_000)
  {
    OffsetParses(ahead, h, m);
    ReadingParses(c, OffsetText(ahead, h, m), minutes);
  }

  lemma {:induction false} DashesGo(a: string, b: string)
    ensures WithoutDashes(a + b) == WithoutDashes(a) + WithoutDashes(b)
    decreases |a|
  {
    if a == "" {
      assert a + b == b;
    } else {
      assert (a + b)[1..] == a[1..] + b;
      DashesGo(a[1..], b);
    }
  }

  lemma {:induction false} NoDashes(s: string)
    requires forall i :: 0 <= i < |s| ==> s[i] != '-'
    ensures WithoutDashes(s) == s
  {
    if s != "" {
      NoDashes(s[1..]);
    }
  }

  lemma DashEnds(part: string)
    requires forall i :: 0 <= i < |part| ==> part[i] != '-'
    ensures WithoutDashes(part + ['-']) == part && WithoutDashes(part) == part
  {
    NoDashes(part);
    DashesGo(part, ['-']);
    assert WithoutDashes(['-']) == "" by {
      assert ['-'][1..] == "";
    }
    assert part + "" == part;
  }

  lemma {:induction false} PowAdds(base: nat, a: nat, b: nat)
    ensures Pow(base, a + b) == Pow(base, a) * Pow(base, b)
    decreases a
  {
    if a > 0 {
      PowAdds(base, a - 1, b);
      Associate(base, Pow(base, a - 1), Pow(base, b));
    }
  }

  lemma Associate(a: nat, b: nat, c: nat)
    ensures a * (b * c) == a * b * c
  {
  }

  lemma UuidWidth()
    ensures Pow(16, 32) == 0x1_0000_0000_0000_0000_0000_0000_0000_0000
  {
    assert Pow(16, 1) == 16;
    assert Pow(16, 2) == 0x100;
    PowAdds(16, 2, 2);
    PowAdds(16, 4, 4);
    PowAdds(16, 8, 8);
    PowAdds(16, 16, 16);
  }

  lemma FiveParts(a: string, b: string, c: string, d: string, e: string)
    ensures WithoutDashes(a + (b + (c + (d + e))))
         == WithoutDashes(a) + (WithoutDashes(b) + (WithoutDashes(c) + (WithoutDashes(d) + WithoutDashes(e))))
  {
    DashesGo(a, b + (c + (d + e)));
    DashesGo(b, c + (d + e));
    DashesGo(c, d + e);
    DashesGo(d, e);
  }

  lemma Rejoined(h: string)
    requires |h| == 32
    ensures h[0..8] + (h[8..12] + (h[12..16] + (h[16..20] + h[20..32]))) == h
    ensures Hyphenated(h) == (h[0..8] + ['-'])
              + ((h[8..12] + ['-']) + ((h[12..16] + ['-']) + ((h[16..20] + ['-']) + h[20..32])))
  {
  }

  lemma DashesOfHyphenated(h: string)
    requires |h| == 32 && forall i :: 0 <= i < |h| ==> h[i] != '-'
    ensures WithoutDashes(Hyphenated(h)) == h
  {
    Rejoined(h);
    DashEnds(h[0..8]);
    DashEnds(h[8..12]);
    DashEnds(h[12..16]);
    DashEnds(h[16..20]);
    DashEnds(h[20..32]);
    FiveParts(h[0..8] + ['-'], h[8..12] + ['-'], h[12..16] + ['-'], h[16..20] + ['-'], h[20..32]);
  }

  lemma UuidRoundTrip(id: Id)
    ensures ParseUuid(UuidText(id)) == Some(id)
  {
    NumeralIsDigits(id, 32, 16);
    DashesOfHyphenated(Hex(id));
    UuidWidth();
    ParseOfNumeral(id, 32, 16);
  }

  lemma TextRoundTrip(s: string)
    requires IsAscii(s)
    ensures ToText(ToBytes(s)) == Some(s)
  {
    var b := ToBytes(s);
    assert forall i :: 0 <= i < |b| ==> b[i] == s[i] as int < 128;
    assert seq(|b|, i requires 0 <= i < |b| => b[i] as char) == s;
  }

  /** The characters a query string carries unescaped. */
  predicate UrlSafe(s: string) {
    forall i :: 0 <= i < |s| ==> 'A' <= s[i] <= 'Z' || 'a' <= s[i] <= 'z' || '0' <= s[i] <= '9' || s[i] in "-_"
  }

  lemma EncodedIsUrlSafe(b: seq<B.Byte>)
    ensures UrlSafe(B.StripPadding(B.Encode(b)))
  {
    B.BodyIsUnpadded(b);
    B.PaddingOfBody(b);
    B.StripsToBody(B.Body(b), B.Missing(|B.Body(b)|));
    BodyIsUrlSafe(b);
  }

  lemma {:induction false} BodyIsUrlSafe(b: seq<B.Byte>)
    ensures UrlSafe(B.Body(b))
    decreases |b|
  {
    if |b| >= 3 {
      BodyIsUrlSafe(b[3..]);
      assert B.Body(b) == B.Quad(b[0], b[1], b[2]) + B.Body(b[3..]);
    }
  }

  /** An issued cursor needs no escaping in a query string. */
  lemma CursorIsUrlSafe(t: Time, id: Id)
    ensures UrlSafe(Encode(t, id))
  {
    RawIsAscii(t, id);
    EncodedIsUrlSafe(ToBytes(Raw(t, id)));
  }

  /** The cursor text around a timestamp text and an id text. */
  function Wrapped(at: string, id: string): string
    requires AllPlain(at) && AllPlain(id)
  {
    PlainIsAscii(at);
    PlainIsAscii(id);
    B.StripPadding(B.Encode(ToBytes(PREFIX + [SEPARATOR] + (at + [SEPARATOR] + id))))
  }

  /** Such a text decodes to what its two parts parse to. */
  lemma WrappedDecodes(at: string, id: string)
    requires AllPlain(at) && AllPlain(id)
    ensures Decode(Wrapped(at, id)) ==
            if ParseIso(at).None? then Invalid(BadTimestamp)
            else if ParseUuid(id).None? then Invalid(BadId)
            else Position(ParseIso(at).value, ParseUuid(id).value)
  {
    PlainIsAscii(at);
    PlainIsAscii(id);
    var raw := PREFIX + [SEPARATOR] + (at + [SEPARATOR] + id);
    var bytes := ToBytes(raw);
    EncodedIsUrlSafe(bytes);
    B.StrippedRoundTrip(bytes);
    TextRoundTrip(raw);
    SplitThree(PREFIX, at, id, SEPARATOR);
  }

  lemma EncodeIsWrapped(t: Time, id: Id)
    ensures AllPlain(IsoFormat(t)) && AllPlain(UuidText(id))
    ensures Encode(t, id) == Wrapped(IsoFormat(t), UuidText(id))
  {
    IsoIsPlain(t);
    UuidIsPlain(id);
  }

  /** Decoding an issued cursor gives back its instant and id, down to the microsecond and the bit. */
  lemma RoundTrip(t: Time, id: Id)
    ensures Decode(Encode(t, id)) == Position(t, id)
  {
    EncodeIsWrapped(t, id);
    WrappedDecodes(IsoFormat(t), UuidText(id));
    IsoRoundTrip(t);
    UuidRoundTrip(id);
  }

  /** The parts of a wrapped text can be read back, so different parts make different texts. */
  lemma WrappedPartsAreFixed(at: string, id: string, at': string, id': string)
    requires AllPlain(at) && AllPlain(id) && AllPlain(at') && AllPlain(id')
    requires Wrapped(at, id) == Wrapped(at', id')
    ensures at == at' && id == id'
  {
    PlainIsAscii(at);
    PlainIsAscii(id);
    PlainIsAscii(at');
    PlainIsAscii(id');
    var raw, raw' := PREFIX + [SEPARATOR] + (at + [SEPARATOR] + id), PREFIX + [SEPARATOR] + (at' + [SEPARATOR] + id');
    B.StrippedRoundTrip(ToBytes(raw));
    B.StrippedRoundTrip(ToBytes(raw'));
    TextRoundTrip(raw);
    TextRoundTrip(raw');
    SplitThree(PREFIX, at, id, SEPARATOR);
    SplitThree(PREFIX, at', id', SEPARATOR);
    assert [PREFIX, at, id][1] == [PREFIX, at', id'][1] && [PREFIX, at, id][2] == [PREFIX, at', id'][2];
  }

  lemma HexParses(id: Id)
    ensures AllPlain(Hex(id)) && ParseUuid(Hex(id)) == Some(id)
  {
    DigitsArePlain(id, 32, 16);
    NumeralIsDigits(id, 32, 16);
    NoDashes(Hex(id));
    UuidWidth();
    ParseOfNumeral(id, 32, 16);
  }

  lemma HexIsNeverIssued(at: string, id: Id, u: Time, jd: Id)
    requires AllPlain(at) && AllPlain(Hex(id))
    ensures Encode(u, jd) != Wrapped(at, Hex(id))
  {
    EncodeIsWrapped(u, jd);
    if Encode(u, jd) == Wrapped(at, Hex(id)) {
      WrappedPartsAreFixed(IsoFormat(u), UuidText(jd), at, Hex(id));
    }
  }

  /** Not every text that decodes was issued: with the hyphens of its id left out a cursor still decodes to the
      same row, and no row is ever issued that text. */
  lemma UnissuedTextDecodes(t: Time, id: Id)
    ensures AllPlain(IsoFormat(t)) && AllPlain(Hex(id))
    ensures Decode(Wrapped(IsoFormat(t), Hex(id))) == Position(t, id)
    ensures forall u: Time, jd: Id :: Encode(u, jd) != Wrapped(IsoFormat(t), Hex(id))
  {
    IsoIsPlain(t);
    HexParses(id);
    IsoRoundTrip(t);
    WrappedDecodes(IsoFormat(t), Hex(id));
    forall u: Time, jd: Id ensures Encode(u, jd) != Wrapped(IsoFormat(t), Hex(id)) {
      HexIsNeverIssued(IsoFormat(t), id, u, jd);
    }
  }

  /** A text was issued exactly when it decodes to an instant and encoding the answer gives the text back, which the
      service could check. */
  lemma IssuedIffReencodes(text: string)
    ensures (exists u: Time, jd: Id :: Encode(u, jd) == text)
            <==> match Decode(text)
                 case Invalid(_) => false
                 case Position(at, id) => 0 <= at < 3_652_059 * MICROS_PER_DAY && Encode(at, id) == text
  {
    if u: Time, jd: Id :| Encode(u, jd) == text {
      RoundTrip(u, jd);
    }
  }

  /** So two rows never share a cursor. */
  lemma CursorsAreDistinct(t: Time, id: Id, u: Time, jd: Id)
    ensures Encode(t, id) == Encode(u, jd) <==> t == u && id == jd
  {
    RoundTrip(t, id);
    RoundTrip(u, jd);
  }
}
