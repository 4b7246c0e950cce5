/** services/pricing.py: model names, the pricebook lookup and the frozen cost of one observation. */
module Pricing {
  import opened Types

  /** Rates in thousandths of a USD per million tokens, which represent every listed price exactly. */
  datatype ModelPrice = ModelPrice(input: nat, output: nat, cached: Option<nat>) {
    function CachedRate(): nat {
      cached.GetOr(input)
    }
  }

  datatype Entry = Entry(key: string, price: ModelPrice)

  /** A dict in insertion order. */
  type Book = seq<Entry>

  predicate DistinctKeys(book: Book) {
    forall i, j :: 0 <= i < j < |book| ==> book[i].key != book[j].key
  }

  const VENDOR_PREFIXES: seq<string> :=
    ["openai/", "anthropic/", "azure/", "bedrock/", "vertex_ai/", "vertexai/", "google/", "models/",
     "us.", "eu.", "apac."]

  const DOTTED_VENDORS: seq<string> := ["anthropic.", "openai.", "meta.", "mistral."]

  const MAX_TRACKED_UNKNOWN := 512

  // ---------------------------------------------------------------- names

  /** The ASCII characters str.strip removes. */
  predicate IsSpace(c: char) {
    c == ' ' || '\t' <= c <= '\r' || '\U{1C}' <= c <= '\U{1F}'
  }

  function Lower(c: char): char {
    if 'A' <= c <= 'Z' then (c as int + 32) as char else c
  }

  function ToLower(s: string): string {
    seq(|s|, i requires 0 <= i < |s| => Lower(s[i]))
  }

  function Strip(s: string): string {
    if s != "" && IsSpace(s[0]) then Strip(s[1..])
    else if s != "" && IsSpace(s[|s| - 1]) then Strip(s[..|s| - 1])
    else s
  }

  predicate HasVendor(name: string) {
    exists p :: p in VENDOR_PREFIXES && p <= name
  }

  ghost function LeadingVendor(name: string): (p: string)
    requires HasVendor(name)
    ensures p in VENDOR_PREFIXES && p <= name && p != ""
  {
    var p :| p in VENDOR_PREFIXES && p <= name;
    p
  }

  /** What is left once no vendor prefix leads the name. */
  ghost function StripVendors(name: string): string
    decreases |name|
  {
    if HasVendor(name) then StripVendors(name[|LeadingVendor(name)|..]) else name
  }

  function BeforeColon(name: string): string {
    if name == "" || name[0] == ':' then "" else [name[0]] + BeforeColon(name[1..])
  }

  predicate EndsWith(s: string, suffix: string) {
    |suffix| <= |s| && s[|s| - |suffix|..] == suffix
  }

  function DropVersion(name: string): string {
    if EndsWith(name, "-v1") || EndsWith(name, "-v2") then name[..|name| - 3] else name
  }

  function DropLead(name: string, lead: string): string {
    if lead <= name then name[|lead|..] else name
  }

  function DropDotted(name: string, vendors: seq<string>): string {
    if vendors == [] then name else DropDotted(DropLead(name, vendors[0]), vendors[1..])
  }

  ghost function Normalised(model: string): string {
    DropDotted(DropVersion(BeforeColon(StripVendors(ToLower(Strip(model))))), DOTTED_VENDORS)
  }

  function Concat(parts: seq<string>): string {
    if parts == [] then "" else parts[0] + Concat(parts[1..])
  }

  predicate IsChain(chain: seq<string>) {
    forall i :: 0 <= i < |chain| ==> chain[i] in VENDOR_PREFIXES
  }

  /** r is what remains of name behind some chain of vendor prefixes, and no prefix leads r. */
  ghost predicate IsRemainder(name: string, r: string) {
    && !HasVendor(r)
    && exists chain :: IsChain(chain) && name == Concat(chain) + r
  }

  predicate IsSeparator(c: char) {
    c == '/' || c == '.'
  }

  /** A prefix carries its only separator at its end, which is what makes the set prefix-free. */
  predicate Terminated(p: string) {
    p != "" && IsSeparator(p[|p| - 1]) && forall k :: 0 <= k < |p| - 1 ==> !IsSeparator(p[k])
  }

  lemma PrefixesAreTerminated(p: string)
    requires p in VENDOR_PREFIXES
    ensures Terminated(p)
  {
    var i :| 0 <= i < |VENDOR_PREFIXES| && VENDOR_PREFIXES[i] == p;
    assert Terminated("openai/") && Terminated("anthropic/") && Terminated("azure/") && Terminated("bedrock/");
    assert Terminated("vertex_ai/") && Terminated("vertexai/") && Terminated("google/") && Terminated("models/");
    assert Terminated("us.") && Terminated("eu.") && Terminated("apac.");
  }

  lemma PrefixFree(p: string, q: string)
    requires p in VENDOR_PREFIXES && q in VENDOR_PREFIXES && p <= q
    ensures p == q
  {
    PrefixesAreTerminated(p);
    PrefixesAreTerminated(q);
    assert IsSeparator(q[|p| - 1]);
  }

  lemma VendorIsUnique(p: string, q: string, name: string)
    requires p in VENDOR_PREFIXES && q in VENDOR_PREFIXES && p <= name && q <= name
    ensures p == q
  {
    if |p| <= |q| {
      assert p <= q;
      PrefixFree(p, q);
    } else {
      assert q <= p;
      PrefixFree(q, p);
    }
  }

  /** Stripping one leading prefix, whichever it is, does not change what remains in the end. */
  lemma StripStep(p: string, name: string)
    requires p in VENDOR_PREFIXES && p <= name
    ensures StripVendors(name) == StripVendors(name[|p|..])
  {
    VendorIsUnique(p, LeadingVendor(name), name);
  }

  lemma ConsChain(p: string, chain: seq<string>, r: string)
    ensures Concat([p] + chain) + r == p + (Concat(chain) + r)
  {
    assert ([p] + chain)[1..] == chain;
  }

  lemma {:induction false} StripsToRemainder(name: string)
    ensures IsRemainder(name, StripVendors(name))
    decreases |name|
  {
    if HasVendor(name) {
      var p := LeadingVendor(name);
      var rest := name[|p|..];
      StripsToRemainder(rest);
      var chain :| IsChain(chain) && rest == Concat(chain) + StripVendors(rest);
      ConsChain(p, chain, StripVendors(rest));
      assert IsChain([p] + chain) && name == Concat([p] + chain) + StripVendors(name);
    } else {
      assert IsChain([]) && name == Concat([]) + name;
    }
  }

  lemma {:induction false} ChainStrips(chain: seq<string>, r: string)
    requires IsChain(chain) && !HasVendor(r)
    ensures StripVendors(Concat(chain) + r) == r
    decreases |chain|
  {
    if chain == [] {
      assert Concat(chain) + r == r;
    } else {
      var name := Concat(chain) + r;
      assert name == chain[0] + (Concat(chain[1..]) + r);
      assert name[|chain[0]|..] == Concat(chain[1..]) + r;
      StripStep(chain[0], name);
      ChainStrips(chain[1..], r);
    }
  }

  /** The remainder behind the vendor prefixes is unique, so the order prefixes are tried in is irrelevant. */
  lemma RemainderIsUnique(name: string, r: string)
    ensures IsRemainder(name, r) <==> r == StripVendors(name)
  {
    StripsToRemainder(name);
    if IsRemainder(name, r) {
      var chain :| IsChain(chain) && name == Concat(chain) + r;
      ChainStrips(chain, r);
    }
  }

  /** One pass of the strip loop over the prefix tuple. */
  method StripPass(name: string) returns (rest: string, changed: bool)
    ensures StripVendors(rest) == StripVendors(name)
    ensures if changed then |rest| < |name| else rest == name && !HasVendor(name)
  {
    rest, changed := name, false;
    for i := 0 to |VENDOR_PREFIXES|
      invariant StripVendors(rest) == StripVendors(name)
      invariant if changed then |rest| < |name| else rest == name
      invariant !changed ==> forall k :: 0 <= k < i ==> !(VENDOR_PREFIXES[k] <= name)
    {
      var prefix := VENDOR_PREFIXES[i];
      assert prefix in VENDOR_PREFIXES;
      if prefix <= rest {
        PrefixesAreTerminated(prefix);
        StripStep(prefix, rest);
        rest := rest[|prefix|..];
        changed := true;
      }
    }
  }

  method StripDotted(name: string) returns (rest: string)
    ensures rest == DropDotted(name, DOTTED_VENDORS)
  {
    rest := name;
    for i := 0 to |DOTTED_VENDORS|
      invariant DropDotted(rest, DOTTED_VENDORS[i..]) == DropDotted(name, DOTTED_VENDORS)
    {
      var vendor := DOTTED_VENDORS[i];
      assert DOTTED_VENDORS[i..][1..] == DOTTED_VENDORS[i + 1..];
      if vendor <= rest {
        rest := rest[|vendor|..];
      }
    }
  }

  method Normalise(model: string) returns (name: string)
    ensures name == Normalised(model)
  {
    name := ToLower(Strip(model));
    ghost var cleaned := name;
    var changed := true;
    while changed
      invariant StripVendors(name) == StripVendors(cleaned)
      invariant !changed ==> !HasVendor(name)
      decreases |name|, changed
    {
      name, changed := StripPass(name);
    }
    name := BeforeColon(name);
    if EndsWith(name, "-v1") || EndsWith(name, "-v2") {
      name := name[..|name| - 3];
    }
    name := StripDotted(name);
  }

  // ---------------------------------------------------------------- when normalising again changes nothing

  lemma {:induction false} StripShrinks(s: string)
    ensures |Strip(s)| <= |s|
    ensures |Strip(s)| == |s| ==> Strip(s) == s
    ensures Strip(s) == s <==> s == "" || (!IsSpace(s[0]) && !IsSpace(s[|s| - 1]))
    decreases |s|
  {
    if s != "" && IsSpace(s[0]) {
      StripShrinks(s[1..]);
    } else if s != "" && IsSpace(s[|s| - 1]) {
      StripShrinks(s[..|s| - 1]);
    }
  }

  predicate AllSpaces(s: string) {
    forall i :: 0 <= i < |s| ==> IsSpace(s[i])
  }

  /** Stripping takes the spaces off both ends, and only those. */
  lemma {:induction false} StripIsInner(s: string) returns (front: string, back: string)
    ensures s == front + Strip(s) + back && AllSpaces(front) && AllSpaces(back)
    decreases |s|
  {
    front, back := "", "";
    if s != "" && IsSpace(s[0]) {
      front, back := StripIsInner(s[1..]);
      OneSpaceInFront(s, front, Strip(s), back);
      front := [s[0]] + front;
    } else if s != "" && IsSpace(s[|s| - 1]) {
      front, back := StripIsInner(s[..|s| - 1]);
      OneSpaceBehind(s, front, Strip(s), back);
      back := back + [s[|s| - 1]];
    }
  }

  lemma OneSpaceInFront(s: string, front: string, inner: string, back: string)
    requires s != "" && IsSpace(s[0]) && AllSpaces(front) && s[1..] == front + inner + back
    ensures s == [s[0]] + front + inner + back && AllSpaces([s[0]] + front)
  {
    assert s == [s[0]] + s[1..];
  }

  lemma OneSpaceBehind(s: string, front: string, inner: string, back: string)
    requires s != "" && IsSpace(s[|s| - 1]) && AllSpaces(back) && s[..|s| - 1] == front + inner + back
    ensures s == front + inner + (back + [s[|s| - 1]]) && AllSpaces(back + [s[|s| - 1]])
  {
    assert s == s[..|s| - 1] + [s[|s| - 1]];
  }

  lemma {:induction false} StrippedEnds(s: string)
    ensures Strip(s) == "" || (!IsSpace(Strip(s)[0]) && !IsSpace(Strip(s)[|Strip(s)| - 1]))
    decreases |s|
  {
    if s != "" && IsSpace(s[0]) {
      StrippedEnds(s[1..]);
    } else if s != "" && IsSpace(s[|s| - 1]) {
      StrippedEnds(s[..|s| - 1]);
    }
  }

  lemma {:induction false} StripVendorsShrinks(s: string)
    ensures |StripVendors(s)| <= |s|
    ensures HasVendor(s) ==> |StripVendors(s)| < |s|
    decreases |s|
  {
    if HasVendor(s) {
      StripVendorsShrinks(s[|LeadingVendor(s)|..]);
    }
  }

  lemma {:induction false} BeforeColonShrinks(s: string)
    ensures |BeforeColon(s)| <= |s|
    ensures |BeforeColon(s)| == |s| ==> BeforeColon(s) == s
    ensures BeforeColon(s) == s <==> ':' !in s
    decreases |s|
  {
    if s != "" && s[0] != ':' {
      BeforeColonShrinks(s[1..]);
      assert s == [s[0]] + s[1..];
    }
  }

  lemma {:induction false} DropDottedShrinks(s: string, vendors: seq<string>)
    requires forall i :: 0 <= i < |vendors| ==> vendors[i] != ""
    ensures |DropDotted(s, vendors)| <= |s|
    ensures |DropDotted(s, vendors)| == |s| <==> forall i :: 0 <= i < |vendors| ==> !(vendors[i] <= s)
    ensures |DropDotted(s, vendors)| == |s| ==> DropDotted(s, vendors) == s
    decreases |vendors|
  {
    if vendors != [] {
      DropDottedShrinks(DropLead(s, vendors[0]), vendors[1..]);
      assert forall i :: 0 < i < |vendors| ==> vendors[i] == vendors[1..][i - 1];
      assert forall i :: 0 <= i < |vendors[1..]| ==> vendors[1..][i] == vendors[i + 1];
    }
  }

  /** A name no step of the normaliser has anything to do on. */
  predicate Settled(name: string) {
    && (name == "" || (!IsSpace(name[0]) && !IsSpace(name[|name| - 1])))
    && ToLower(name) == name
    && !HasVendor(name) && ':' !in name
    && !EndsWith(name, "-v1") && !EndsWith(name, "-v2")
    && forall i :: 0 <= i < |DOTTED_VENDORS| ==> !(DOTTED_VENDORS[i] <= name)
  }

  /** Normalising a name again changes nothing if and only if no prefix, suffix or space is left on it. */
  lemma NormalisedTwiceIff(name: string)
    ensures Normalised(name) == name <==> Settled(name)
  {
    var lower := ToLower(Strip(name));
    var bare := StripVendors(lower);
    var cut := BeforeColon(bare);
    StripShrinks(name);
    StripVendorsShrinks(lower);
    BeforeColonShrinks(bare);
    DropDottedShrinks(DropVersion(cut), DOTTED_VENDORS);
  }

  /** What normalising comes to for a name with nothing to clean and no vendor in front. */
  lemma PlainName(name: string)
    requires ToLower(Strip(name)) == name && !HasVendor(name) && ':' !in name
    ensures Normalised(name) == DropDotted(DropVersion(name), DOTTED_VENDORS)
  {
    BeforeColonShrinks(name);
  }

  // ---------------------------------------------------------------- spellings of one name

  /** The same letter, in either case. */
  predicate SameLetter(c: char, d: char) {
    c == d || ('A' <= c <= 'Z' && d as int == c as int + 32) || ('A' <= d <= 'Z' && c as int == d as int + 32)
  }

  predicate SameLetters(s: string, t: string) {
    |s| == |t| && forall i :: 0 <= i < |s| ==> SameLetter(s[i], t[i])
  }

  lemma {:induction false} StripAlike(s: string, t: string)
    requires SameLetters(s, t)
    ensures SameLetters(Strip(s), Strip(t))
    decreases |s|
  {
    if s != "" {
      assert SameLetter(s[0], t[0]) && SameLetter(s[|s| - 1], t[|s| - 1]);
      if IsSpace(s[0]) {
        StripAlike(s[1..], t[1..]);
      } else if IsSpace(s[|s| - 1]) {
        StripAlike(s[..|s| - 1], t[..|t| - 1]);
      }
    }
  }

  lemma {:induction false} StripFront(c: char, s: string)
    requires IsSpace(c)
    ensures Strip([c] + s) == Strip(s)
  {
    assert ([c] + s)[1..] == s;
  }

  lemma {:induction false} StripBack(s: string, c: char)
    requires IsSpace(c)
    ensures Strip(s + [c]) == Strip(s)
    decreases |s|
  {
    var t := s + [c];
    if s == "" {
      assert t[1..] == "";
    } else if IsSpace(s[0]) {
      assert t[1..] == s[1..] + [c];
      StripBack(s[1..], c);
    } else {
      assert t[..|t| - 1] == s;
    }
  }

  /** Capitals and outer spaces make no difference to what a model id is looked up under. */
  lemma SpellingIsIgnored(s: string, t: string, c: char)
    ensures SameLetters(s, t) ==> Normalised(s) == Normalised(t)
    ensures IsSpace(c) ==> Normalised([c] + s) == Normalised(s) == Normalised(s + [c])
  {
    if SameLetters(s, t) {
      StripAlike(s, t);
      assert ToLower(Strip(s)) == ToLower(Strip(t));
    }
    if IsSpace(c) {
      StripFront(c, s);
      StripBack(s, c);
    }
  }

  // ---------------------------------------------------------------- lookup

  /** A key claims a name that continues it across a dash. */
  predicate Claims(key: string, name: string) {
    key != "" && key + "-" <= name
  }

  /** The price a normalised name resolves to: its own entry, else the longest key that claims it. */
  ghost predicate Resolves(book: Book, name: string, r: Option<ModelPrice>) {
    if name == "" then r.None?
    else if exists e :: e in book && e.key == name then
      exists e :: e in book && e.key == name && r == Some(e.price)
    else if exists e :: e in book && Claims(e.key, name) then
      exists e :: e in book && Claims(e.key, name) && r == Some(e.price)
                  && forall f :: f in book && Claims(f.key, name) ==> |f.key| <= |e.key|
    else r.None?
  }

  ghost predicate SameKeySamePrice(book: Book) {
    forall e, f :: e in book && f in book && e.key == f.key ==> e == f
  }

  lemma DistinctKeysAgree(book: Book)
    requires DistinctKeys(book)
    ensures SameKeySamePrice(book)
  {
  }

  lemma ClaimantsOfOneLength(k: string, l: string, name: string)
    requires Claims(k, name) && Claims(l, name) && |k| == |l|
    ensures k == l
  {
    assert name[..|k|] == (k + "-")[..|k|] == k;
    assert name[..|l|] == (l + "-")[..|l|] == l;
  }

  /** Two books with the same entries resolve every name alike, whatever their order. */
  lemma OrderIsIrrelevant(a: Book, b: Book, name: string, r: Option<ModelPrice>, s: Option<ModelPrice>)
    requires DistinctKeys(a) && DistinctKeys(b) && forall e :: e in a <==> e in b
    requires Resolves(a, name, r) && Resolves(b, name, s)
    ensures r == s
  {
    DistinctKeysAgree(a);
    if name != "" && !(exists e :: e in a && e.key == name) && exists e :: e in a && Claims(e.key, name) {
      var e :| e in a && Claims(e.key, name) && r == Some(e.price)
               && forall f :: f in a && Claims(f.key, name) ==> |f.key| <= |e.key|;
      var f :| f in b && Claims(f.key, name) && s == Some(f.price)
               && forall g :: g in b && Claims(g.key, name) ==> |g.key| <= |f.key|;
      ClaimantsOfOneLength(e.key, f.key, name);
    }
  }

  /** The one answer a book gives for a raw model id; a missing or empty id has no price. */
  ghost predicate PriceOf(book: Book, model: Option<string>, r: Option<ModelPrice>) {
    match model
    case None => r.None?
    case Some(m) => if m == "" then r.None? else Resolves(book, Normalised(m), r)
  }

  ghost function Price(book: Book, model: Option<string>): (r: Option<ModelPrice>)
    ensures PriceOf(book, model, r)
  {
    if model.None? || model.value == "" then None
    else
      var name := Normalised(model.value);
      LookupResolves(book, name);
      var r :| Resolves(book, name, r);
      r
  }

  lemma LookupResolves(book: Book, name: string)
    ensures exists r :: Resolves(book, name, r)
  {
    if name == "" {
      assert Resolves(book, name, None);
    } else if e :| e in book && e.key == name {
      assert Resolves(book, name, Some(e.price));
    } else if exists e :: e in book && Claims(e.key, name) {
      var e := LongestClaimant(book, name);
      assert Resolves(book, name, Some(e.price));
    } else {
      assert Resolves(book, name, None);
    }
  }

  lemma {:induction false} LongestClaimant(book: Book, name: string) returns (e: Entry)
    requires exists e :: e in book && Claims(e.key, name)
    ensures e in book && Claims(e.key, name)
    ensures forall f :: f in book && Claims(f.key, name) ==> |f.key| <= |e.key|
    decreases |book|
  {
    e :| e in book && Claims(e.key, name);
    if f :| f in book[1..] && Claims(f.key, name) {
      var g := LongestClaimant(book[1..], name);
      e := if Claims(book[0].key, name) && |book[0].key| > |g.key| then book[0] else g;
    }
    assert forall f :: f in book ==> f == book[0] || f in book[1..];
  }

  lemma ClaimsAcrossADash(key: string, name: string)
    ensures Claims(key, name) <==> key != "" && |key| < |name| && name[..|key|] == key && name[|key|] == '-'
  {
    var lead := key + "-";
    assert |lead| == |key| + 1 && lead[..|key|] == key && lead[|key|] == '-';
    if |key| < |name| && name[..|key|] == key && name[|key|] == '-' {
      assert name[..|key| + 1] == lead;
    }
    if lead <= name {
      assert name[..|key|] == lead[..|key|] && name[|key|] == lead[|key|];
    }
  }

  /** The name carries on from the key with a dash. */
  predicate Continues(key: string, name: string) {
    key != "" && |key| < |name| && name[..|key|] == key && name[|key|] == '-'
  }

  /** What a model id costs, read off the book: the entry of its own name; else that of the longest key it continues
      with a dash; else nothing. */
  lemma PriceIsLongestContinued(book: Book, m: string)
    requires DistinctKeys(book) && m != ""
    ensures var name := Normalised(m);
      && (forall e :: e in book && name != "" && e.key == name ==> Price(book, Some(m)) == Some(e.price))
      && (forall e :: e in book && name != "" && (forall f :: f in book ==> f.key != name) && Continues(e.key, name)
            && (forall f :: f in book && Continues(f.key, name) ==> |f.key| <= |e.key|)
            ==> Price(book, Some(m)) == Some(e.price))
      && ((name == "" || forall f :: f in book ==> f.key != name && !Continues(f.key, name))
            ==> Price(book, Some(m)) == None)
  {
    var name, r := Normalised(m), Price(book, Some(m));
    forall key ensures Claims(key, name) <==> Continues(key, name) {
      ClaimsAcrossADash(key, name);
    }
    forall e | e in book && name != "" && e.key == name ensures r == Some(e.price) {
      OwnEntryResolves(book, name, e, r);
    }
    forall e | e in book && name != "" && (forall f :: f in book ==> f.key != name) && Continues(e.key, name)
      && (forall f :: f in book && Continues(f.key, name) ==> |f.key| <= |e.key|)
      ensures r == Some(e.price)
    {
      assert Resolves(book, name, Some(e.price));
      OrderIsIrrelevant(book, book, name, Some(e.price), r);
    }
  }

  lemma OwnEntryResolves(book: Book, name: string, e: Entry, r: Option<ModelPrice>)
    requires DistinctKeys(book) && name != "" && e in book && e.key == name && Resolves(book, name, r)
    ensures r == Some(e.price)
  {
    DistinctKeysAgree(book);
  }

  /** The id leaves a name to look up. */
  ghost predicate Named(model: Option<string>) {
    model.Some? && model.value != "" && Normalised(model.value) != ""
  }

  /** The pricebook of the running process, with the log-deduplication set beside it. */
  class PriceLookup {
    const book: Book
    var unknownSeen: set<string>

    constructor (book: Book)
      ensures this.book == book && unknownSeen == {}
    {
      this.book := book;
      unknownSeen := {};
    }

    method Lookup(model: Option<string>) returns (r: Option<ModelPrice>)
      requires DistinctKeys(book)
      modifies this`unknownSeen
      ensures r == Price(book, model)
      ensures unknownSeen == if r.None? && Named(model) && |old(unknownSeen)| < MAX_TRACKED_UNKNOWN
                             then old(unknownSeen) + {Normalised(model.value)} else old(unknownSeen)
      ensures |old(unknownSeen)| <= MAX_TRACKED_UNKNOWN ==> |unknownSeen| <= MAX_TRACKED_UNKNOWN
    {
      if model.None? || model.value == "" {
        return None;
      }
      var name := Normalise(model.value);
      if name == "" {
        OrderIsIrrelevant(book, book, name, None, Price(book, model));
        return None;
      }
      var exact := FindExact(name);
      if exact.Some? {
        OrderIsIrrelevant(book, book, name, exact, Price(book, model));
        return exact;
      }
      var bestKey, best := FindLongest(name);
      if bestKey == "" && name !in unknownSeen && |unknownSeen| < MAX_TRACKED_UNKNOWN {
        unknownSeen := unknownSeen + {name};
      }
      r := best;
      assert Resolves(book, name, r);
      OrderIsIrrelevant(book, book, name, r, Price(book, model));
    }

    /** The longest key that claims the name, the empty key when none does. */
    method FindLongest(name: string) returns (bestKey: string, best: Option<ModelPrice>)
      ensures bestKey == "" <==> best.None?
      ensures bestKey == "" ==> forall e :: e in book ==> !Claims(e.key, name)
      ensures bestKey != "" ==> Claims(bestKey, name) && Entry(bestKey, best.value) in book
      ensures forall e :: e in book && Claims(e.key, name) ==> |e.key| <= |bestKey|
    {
      bestKey, best := "", None;
      for i := 0 to |book|
        invariant bestKey == "" <==> best.None?
        invariant bestKey == "" ==> forall e :: e in book[..i] ==> !Claims(e.key, name)
        invariant bestKey != "" ==> Claims(bestKey, name) && Entry(bestKey, best.value) in book[..i]
        invariant forall e :: e in book[..i] && Claims(e.key, name) ==> |e.key| <= |bestKey|
      {
        assert book[..i + 1] == book[..i] + [book[i]];
        if |book[i].key| > |bestKey| && book[i].key + "-" <= name {
          bestKey, best := book[i].key, Some(book[i].price);
        }
      }
      assert book[..|book|] == book;
    }

    method FindExact(name: string) returns (r: Option<ModelPrice>)
      ensures r.None? ==> forall e :: e in book ==> e.key != name
      ensures r.Some? ==> Entry(name, r.value) in book
    {
      for i := 0 to |book|
        invariant forall k :: 0 <= k < i ==> book[k].key != name
      {
        if book[i].key == name {
          return Some(book[i].price);
        }
      }
      return None;
    }
  }
}
