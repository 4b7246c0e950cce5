/** services/pricing.py: the shipped pricebook, and which spellings of a model reach an entry. */
module Pricebook {
  import opened Types
  import opened Pricing

  function P(key: string, input: nat, output: nat): Entry {
    Entry(key, ModelPrice(input, output, None))
  }

  function C(key: string, input: nat, output: nat, cached: nat): Entry {
    Entry(key, ModelPrice(input, output, Some(cached)))
  }

  /** An Anthropic entry: cache reads at a tenth of the input rate. */
  function A(key: string, input: nat, output: nat): Entry {
    Entry(key, ModelPrice(input, output, Some(input / 10)))
  }

  const CLAUDE_FABLE: Book := [A("claude-fable-5-1", 10000, 50000), A("claude-fable-5", 10000, 50000)]

  const CLAUDE_MYTHOS: Book := [A("claude-mythos-5-1", 10000, 50000), A("claude-mythos-5", 10000, 50000)]

  const CLAUDE_OPUS_5: Book := [A("claude-opus-5-5", 4000, 20000), A("claude-opus-5", 5000, 25000)]

  const CLAUDE_OPUS_48: Book := [
    A("claude-opus-4-8", 5000, 25000), A("claude-opus-4-7", 5000, 25000),
    A("claude-opus-4-6", 5000, 25000)]

  const CLAUDE_OPUS_4: Book := [
    A("claude-opus-4-5", 5000, 25000), A("claude-opus-4-1", 15000, 75000),
    A("claude-opus-4", 15000, 75000)]

  const CLAUDE_SONNET: Book := [
    A("claude-sonnet-5", 2000, 10000), A("claude-sonnet-4-6", 3000, 15000),
    A("claude-sonnet-4-5", 3000, 15000)]

  const CLAUDE_OTHER: Book := [
    A("claude-sonnet-4", 3000, 15000), A("claude-haiku-4-5", 1000, 5000),
    A("claude-3-5-haiku", 800, 4000)]

  const GPT_56: Book := [
    P("gpt-5.6-sol", 5000, 30000), P("gpt-5.6-terra", 2000, 12000),
    P("gpt-5.6-luna", 200, 1200)]

  const GPT_55: Book := [P("gpt-5.5-pro", 30000, 180000), P("gpt-5.5", 5000, 30000)]

  const GPT_54: Book := [
    P("gpt-5.4-pro", 30000, 180000), P("gpt-5.4-mini", 750, 4500),
    P("gpt-5.4-nano", 200, 1250), P("gpt-5.4", 2500, 15000)]

  const GPT_52: Book := [
    P("gpt-5.2-pro", 21000, 168000), P("gpt-5.2", 1750, 14000),
    C("gpt-5.1", 1250, 10000, 125)]

  const GPT_5: Book := [
    P("gpt-5-pro", 15000, 120000), C("gpt-5-mini", 250, 2000, 25),
    C("gpt-5-nano", 50, 400, 5), C("gpt-5", 1250, 10000, 125)]

  const GPT_41: Book := [
    C("gpt-4.1-mini", 400, 1600, 100), C("gpt-4.1-nano", 100, 400, 25),
    C("gpt-4.1", 2000, 8000, 500)]

  const GPT_4O: Book := [
    P("gpt-4o-2024-05-13", 5000, 15000), C("gpt-4o-mini", 150, 600, 75),
    C("gpt-4o", 2500, 10000, 1250)]

  const O_1: Book := [P("o1-pro", 150000, 600000), C("o1", 15000, 60000, 7500)]

  const O_3: Book := [
    P("o3-pro", 20000, 80000), C("o3-mini", 1100, 4400, 550), C("o3", 2000, 8000, 500),
    C("o4-mini", 1100, 4400, 275)]

  const ANTHROPIC: seq<Book> :=
    [CLAUDE_FABLE, CLAUDE_MYTHOS, CLAUDE_OPUS_5, CLAUDE_OPUS_48, CLAUDE_OPUS_4, CLAUDE_SONNET, CLAUDE_OTHER]

  const OPENAI: seq<Book> := [GPT_56, GPT_55, GPT_54, GPT_52, GPT_5, GPT_41, GPT_4O, O_1, O_3]

  const PRICEBOOK: Book := Join(ANTHROPIC) + Join(OPENAI)

  function Join(groups: seq<Book>): Book {
    if groups == [] then [] else groups[0] + Join(groups[1..])
  }

  /** Two texts part within both, so neither leads the other, whatever follows. */
  predicate PartWithin(p: string, key: string) {
    exists i :: 0 <= i < |p| && i < |key| && p[i] != key[i]
  }

  /** A key no rewriting step of Normalise can touch, alone or with something behind it. */
  predicate Canonical(key: string) {
    && key != ""
    && (forall i :: 0 <= i < |VENDOR_PREFIXES| ==> PartWithin(VENDOR_PREFIXES[i], key))
    && (forall i :: 0 <= i < |DOTTED_VENDORS| ==> PartWithin(DOTTED_VENDORS[i], key))
    && (forall i :: 0 <= i < |key| ==> key[i] != ':')
    && !EndsWith(key, "-v1") && !EndsWith(key, "-v2")
  }

  // ---------------------------------------------------------------- gateway spellings

  /** The text a gateway may put around a key: a Bedrock vendor before it, a version and a revision behind it. */
  predicate Wraps(dotted: string, suffix: string, tail: string) {
    && (dotted == "" || dotted in DOTTED_VENDORS)
    && (suffix == "" || suffix == "-v1" || suffix == "-v2")
    && (tail == "" || tail[0] == ':')
  }

  lemma ApartStays(p: string, key: string, rest: string)
    requires PartWithin(p, key)
    ensures !(p <= key + rest)
  {
    var i :| 0 <= i < |p| && i < |key| && p[i] != key[i];
    assert (key + rest)[i] == key[i];
  }

  lemma DottedIsNoVendor(d: string, p: string)
    requires d in DOTTED_VENDORS && p in VENDOR_PREFIXES
    ensures Terminated(d) && d != p
  {
    assert Terminated("anthropic.") && Terminated("openai.") && Terminated("meta.") && Terminated("mistral.");
    if |d| == |p| {
      assert d[0] != p[0] || d[1] != p[1] || d[|d| - 1] != p[|p| - 1];
    }
  }

  lemma NoVendorInFront(dotted: string, key: string, rest: string)
    requires Canonical(key) && (dotted == "" || dotted in DOTTED_VENDORS)
    ensures !HasVendor(dotted + (key + rest))
  {
    var name := dotted + (key + rest);
    assert dotted == "" ==> name == key + rest;
    forall i | 0 <= i < |VENDOR_PREFIXES|
      ensures !(VENDOR_PREFIXES[i] <= name)
    {
      if dotted == "" {
        ApartStays(VENDOR_PREFIXES[i], key, rest);
      } else {
        VendorNotInFront(VENDOR_PREFIXES[i], dotted, name);
      }
    }
  }

  lemma VendorNotInFront(p: string, dotted: string, name: string)
    requires p in VENDOR_PREFIXES && dotted in DOTTED_VENDORS && dotted <= name
    ensures !(p <= name)
  {
    PrefixesAreTerminated(p);
    DottedIsNoVendor(dotted, p);
    if p <= name {
      TerminatedTwice(p, dotted, name);
    }
  }

  lemma TerminatedTwice(p: string, q: string, name: string)
    requires Terminated(p) && Terminated(q) && p <= name && q <= name
    ensures p == q
  {
    assert p[|p| - 1] == name[|p| - 1] && q[|q| - 1] == name[|q| - 1];
  }

  lemma {:induction false} ColonCut(head: string, tail: string)
    requires (forall i :: 0 <= i < |head| ==> head[i] != ':') && (tail == "" || tail[0] == ':')
    ensures BeforeColon(head + tail) == head
  {
    if head == "" {
      assert head + tail == tail;
    } else {
      assert (head + tail)[1..] == head[1..] + tail;
      ColonCut(head[1..], tail);
    }
  }

  lemma VersionDrop(head: string, suffix: string)
    requires suffix == "-v1" || suffix == "-v2"
    ensures DropVersion(head + suffix) == head
  {
    assert (head + suffix)[|head|..] == suffix;
    assert (head + suffix)[..|head|] == head;
  }

  lemma NoVersion(head: string, key: string)
    requires !EndsWith(key, "-v1") && !EndsWith(key, "-v2") && (head == "" || head[|head| - 1] == '.')
    ensures DropVersion(head + key) == head + key
  {
    var s := head + key;
    if |key| >= 3 {
      assert s[|s| - 3..] == key[|key| - 3..];
    } else if head == "" {
      assert s == key;
    } else if |s| >= 3 {
      assert s[|s| - 3..][2 - |key|] == head[|head| - 1] == '.';
    }
  }

  lemma DottedDrop(dotted: string, key: string)
    requires Canonical(key) && (dotted == "" || dotted in DOTTED_VENDORS)
    ensures DropDotted(dotted + key, DOTTED_VENDORS) == key
  {
    forall i | 0 <= i < |DOTTED_VENDORS|
      ensures !(DOTTED_VENDORS[i] <= key)
    {
      ApartStays(DOTTED_VENDORS[i], key, "");
      assert key + "" == key;
    }
    if dotted == "" {
      assert dotted + key == key;
      KeyStays(key, DOTTED_VENDORS);
    } else {
      var i :| 0 <= i < |DOTTED_VENDORS| && dotted == DOTTED_VENDORS[i];
      forall j | 0 <= j < |DOTTED_VENDORS|
        ensures Terminated(DOTTED_VENDORS[j])
      {
        DottedIsNoVendor(DOTTED_VENDORS[j], VENDOR_PREFIXES[0]);
      }
      DropAt(DOTTED_VENDORS, i, key);
    }
  }

  lemma {:induction false} KeyStays(key: string, vendors: seq<string>)
    requires forall i :: 0 <= i < |vendors| ==> !(vendors[i] <= key)
    ensures DropDotted(key, vendors) == key
    decreases |vendors|
  {
    if vendors != [] {
      assert !(vendors[0] <= key);
      KeyStays(key, vendors[1..]);
    }
  }

  lemma {:induction false} DropAt(vendors: seq<string>, i: nat, key: string)
    requires i < |vendors|
    requires forall j :: 0 <= j < |vendors| ==> Terminated(vendors[j]) && !(vendors[j] <= key)
    ensures DropDotted(vendors[i] + key, vendors) == key
    decreases |vendors|
  {
    var name := vendors[i] + key;
    if vendors[0] <= name {
      TerminatedTwice(vendors[0], vendors[i], name);
      assert name[|vendors[0]|..] == key;
      KeyStays(key, vendors[1..]);
    } else {
      assert i > 0;
      DropAt(vendors[1..], i - 1, key);
    }
  }

  /** Every gateway spelling of a canonical key normalises to the key itself. */
  lemma WrappedKeyNormalises(model: string, chain: seq<string>, dotted: string, key: string, suffix: string, tail: string)
    requires Canonical(key) && IsChain(chain) && Wraps(dotted, suffix, tail)
    requires ToLower(Strip(model)) == Concat(chain) + (dotted + (key + (suffix + tail)))
    ensures Normalised(model) == key
  {
    var wrapped := dotted + (key + (suffix + tail));
    NoVendorInFront(dotted, key, suffix + tail);
    ChainStrips(chain, wrapped);
    BareKeyNormalises(dotted, key, suffix, tail);
  }

  lemma BareKeyNormalises(dotted: string, key: string, suffix: string, tail: string)
    requires Canonical(key) && Wraps(dotted, suffix, tail)
    ensures DropDotted(DropVersion(BeforeColon(dotted + (key + (suffix + tail)))), DOTTED_VENDORS) == key
  {
    var bare := dotted + key + suffix;
    assert dotted + (key + (suffix + tail)) == bare + tail;
    NoColon(dotted, key, suffix);
    ColonCut(bare, tail);
    if suffix == "" {
      assert bare == dotted + key;
      assert dotted != "" ==> dotted[|dotted| - 1] == '.';
      NoVersion(dotted, key);
    } else {
      VersionDrop(dotted + key, suffix);
    }
    DottedDrop(dotted, key);
  }

  lemma NoColon(dotted: string, key: string, suffix: string)
    requires Canonical(key) && Wraps(dotted, suffix, "")
    ensures forall i :: 0 <= i < |dotted + key + suffix| ==> (dotted + key + suffix)[i] != ':'
  {
    assert forall i :: 0 <= i < |dotted| ==> dotted[i] != ':';
    assert forall i :: 0 <= i < |suffix| ==> suffix[i] != ':';
  }

  /** Every gateway spelling of a canonical key is priced as the key's own entry. */
  lemma WrappedKeyResolves(book: Book, e: Entry, model: string, chain: seq<string>, dotted: string, suffix: string,
                           tail: string)
    requires DistinctKeys(book) && e in book && Canonical(e.key) && IsChain(chain) && Wraps(dotted, suffix, tail)
    requires ToLower(Strip(model)) == Concat(chain) + (dotted + (e.key + (suffix + tail)))
    ensures Price(book, Some(model)) == Some(e.price)
  {
    WrappedKeyNormalises(model, chain, dotted, e.key, suffix, tail);
    assert |ToLower(Strip(model))| > 0;
    assert Resolves(book, e.key, Some(e.price));
    OrderIsIrrelevant(book, book, e.key, Some(e.price), Price(book, Some(model)));
  }

  // ---------------------------------------------------------------- names that take two rounds

  /** A text without capitals or colons that neither begins nor ends in a space. */
  predicate Clean(s: string) {
    s != "" && ToLower(s) == s && ':' !in s && !IsSpace(s[0]) && !IsSpace(s[|s| - 1])
  }

  lemma CleanJoin(a: string, b: string)
    requires Clean(a) && Clean(b)
    ensures Clean(a + b)
  {
    assert forall i :: 0 <= i < |a| ==> ToLower(a)[i] == a[i];
    assert forall i :: 0 <= i < |b| ==> ToLower(b)[i] == b[i];
    assert ToLower(a + b) == a + b;
  }

  lemma CleanStays(s: string)
    requires Clean(s)
    ensures ToLower(Strip(s)) == s
  {
    StripShrinks(s);
  }

  lemma NoDottedInFront(key: string, rest: string)
    requires Canonical(key)
    ensures DropDotted(key + rest, DOTTED_VENDORS) == key + rest
  {
    forall i | 0 <= i < |DOTTED_VENDORS| ensures !(DOTTED_VENDORS[i] <= key + rest) {
      ApartStays(DOTTED_VENDORS[i], key, rest);
    }
    KeyStays(key + rest, DOTTED_VENDORS);
  }

  lemma KeyHasNoVendor(key: string, rest: string)
    requires Canonical(key)
    ensures !HasVendor(key + rest)
  {
    NoVendorInFront("", key, rest);
    assert "" + (key + rest) == key + rest;
  }

  lemma SuffixIsClean(suffix: string)
    requires suffix == "-v1" || suffix == "-v2"
    ensures Clean(suffix)
  {
    assert ToLower("-v1") == "-v1" && ToLower("-v2") == "-v2";
  }

  lemma VersionedIsUnsettled(key: string, suffix: string)
    requires suffix == "-v1" || suffix == "-v2"
    ensures !Settled(key + suffix)
  {
    assert (key + suffix)[|key|..] == suffix;
  }

  /** Behind two version suffixes one is left, which another round would drop. */
  lemma TwoVersionsTakeTwoRounds(key: string, suffix: string)
    requires Canonical(key) && Clean(key) && (suffix == "-v1" || suffix == "-v2")
    ensures Normalised(key + suffix + suffix) == key + suffix && !Settled(key + suffix)
  {
    var name := key + suffix + suffix;
    SuffixIsClean(suffix);
    CleanJoin(key, suffix);
    CleanJoin(key + suffix, suffix);
    CleanStays(name);
    assert name == key + (suffix + suffix);
    KeyHasNoVendor(key, suffix + suffix);
    PlainName(name);
    VersionDrop(key + suffix, suffix);
    NoDottedInFront(key, suffix);
    VersionedIsUnsettled(key, suffix);
  }

  lemma NoVendorBehindDotted(dotted: string, rest: string)
    requires dotted in DOTTED_VENDORS
    ensures !HasVendor(dotted + rest)
  {
    forall p | p in VENDOR_PREFIXES ensures !(p <= dotted + rest) {
      VendorNotInFront(p, dotted, dotted + rest);
    }
  }

  lemma DottedIsClean(dotted: string)
    requires dotted in DOTTED_VENDORS
    ensures Clean(dotted)
  {
    var i :| 0 <= i < |DOTTED_VENDORS| && DOTTED_VENDORS[i] == dotted;
    assert ToLower("anthropic.") == "anthropic." && ToLower("openai.") == "openai.";
    assert ToLower("meta.") == "meta." && ToLower("mistral.") == "mistral.";
  }

  lemma DottedDropsOnce(dotted: string, rest: string)
    requires dotted in DOTTED_VENDORS && rest != "" && rest[0] == 'u'
    ensures DropDotted(dotted + rest, DOTTED_VENDORS) == rest
  {
    var i :| 0 <= i < |DOTTED_VENDORS| && dotted == DOTTED_VENDORS[i];
    forall j | 0 <= j < |DOTTED_VENDORS| ensures Terminated(DOTTED_VENDORS[j]) && !(DOTTED_VENDORS[j] <= rest) {
      DottedIsNoVendor(DOTTED_VENDORS[j], VENDOR_PREFIXES[0]);
      assert DOTTED_VENDORS[j][0] != 'u';
    }
    DropAt(DOTTED_VENDORS, i, rest);
  }

  lemma RegionalIsUnsettled(key: string)
    ensures Clean("us.") && !Settled("us." + key)
  {
    assert ToLower("us.") == "us.";
    assert VENDOR_PREFIXES[8] == "us." && VENDOR_PREFIXES[8] in VENDOR_PREFIXES;
    assert "us." <= "us." + key && HasVendor("us." + key);
  }

  /** A region behind a dotted vendor is left in front, and another round would drop it. */
  lemma RegionBehindVendorTakesTwoRounds(dotted: string, key: string)
    requires Canonical(key) && Clean(key) && dotted in DOTTED_VENDORS
    ensures Normalised(dotted + "us." + key) == "us." + key && !Settled("us." + key)
  {
    var name, rest := dotted + "us." + key, "us." + key;
    assert name == dotted + rest;
    RegionalIsUnsettled(key);
    DottedIsClean(dotted);
    CleanJoin(dotted, "us.");
    CleanJoin(dotted + "us.", key);
    CleanStays(name);
    NoVendorBehindDotted(dotted, rest);
    PlainName(name);
    NoVersion(dotted + "us.", key);
    DottedDropsOnce(dotted, rest);
  }

  // ---------------------------------------------------------------- the shipped book

  /** The three leads of the shipped keys part from every rewritten prefix within two characters. */
  lemma LeadsPart(key: string)
    requires |key| >= 2
    requires key[..2] == "cl" || key[..2] == "gp" || (key[0] == 'o' && '0' <= key[1] <= '9')
    ensures forall i :: 0 <= i < |VENDOR_PREFIXES| ==> PartWithin(VENDOR_PREFIXES[i], key)
    ensures forall i :: 0 <= i < |DOTTED_VENDORS| ==> PartWithin(DOTTED_VENDORS[i], key)
  {
    assert key[0] == key[..2][0] && key[1] == key[..2][1];
    forall i | 0 <= i < |VENDOR_PREFIXES|
      ensures PartWithin(VENDOR_PREFIXES[i], key)
    {
      assert VENDOR_PREFIXES[i][0] != key[0] || VENDOR_PREFIXES[i][1] != key[1];
    }
    forall i | 0 <= i < |DOTTED_VENDORS|
      ensures PartWithin(DOTTED_VENDORS[i], key)
    {
      assert DOTTED_VENDORS[i][0] != key[0] || DOTTED_VENDORS[i][1] != key[1];
    }
  }

  predicate Sound(e: Entry) {
    && |e.key| >= 2 && (e.key[..2] == "cl" || e.key[..2] == "gp" || (e.key[0] == 'o' && '0' <= e.key[1] <= '9'))
    && (forall i :: 0 <= i < |e.key| ==> e.key[i] != ':')
    && e.key[|e.key| - 2] != 'v' && (e.key[0] == 'g' ==> |e.key| >= 5)
    && e.price.CachedRate() <= e.price.input
  }

  lemma ShippedIsSound(e: Entry)
    requires e in PRICEBOOK
    ensures Sound(e)
  {
    if e in Join(ANTHROPIC) {
      var j, i := FromSomeGroup(ANTHROPIC, e);
      AnthropicIsSound(j, i);
    } else {
      var j, i := FromSomeGroup(OPENAI, e);
      OpenAiIsSound(j, i);
    }
  }

  lemma SoundIsCanonical(e: Entry)
    requires Sound(e)
    ensures Canonical(e.key)
  {
    LeadsPart(e.key);
    NotVersioned(e.key, "-v1");
    NotVersioned(e.key, "-v2");
  }

  lemma NotVersioned(key: string, suffix: string)
    requires |key| >= 2 && key[|key| - 2] != 'v' && |suffix| == 3 && suffix[1] == 'v'
    ensures !EndsWith(key, suffix)
  {
  }

  lemma ClaudeFableSound(i: nat)
    requires i < |CLAUDE_FABLE|
    ensures Sound(CLAUDE_FABLE[i])
  {
  }

  lemma ClaudeMythosSound(i: nat)
    requires i < |CLAUDE_MYTHOS|
    ensures Sound(CLAUDE_MYTHOS[i])
  {
  }

  lemma ClaudeOpus5Sound(i: nat)
    requires i < |CLAUDE_OPUS_5|
    ensures Sound(CLAUDE_OPUS_5[i])
  {
  }

  lemma ClaudeOpus48Sound(i: nat)
    requires i < |CLAUDE_OPUS_48|
    ensures Sound(CLAUDE_OPUS_48[i])
  {
  }

  lemma ClaudeOpus4Sound(i: nat)
    requires i < |CLAUDE_OPUS_4|
    ensures Sound(CLAUDE_OPUS_4[i])
  {
  }

  lemma ClaudeSonnetSound(i: nat)
    requires i < |CLAUDE_SONNET|
    ensures Sound(CLAUDE_SONNET[i])
  {
  }

  lemma ClaudeOtherSound(i: nat)
    requires i < |CLAUDE_OTHER|
    ensures Sound(CLAUDE_OTHER[i])
  {
  }

  lemma Gpt56Sound(i: nat)
    requires i < |GPT_56|
    ensures Sound(GPT_56[i])
  {
  }

  lemma Gpt55Sound(i: nat)
    requires i < |GPT_55|
    ensures Sound(GPT_55[i])
  {
  }

  lemma Gpt54Sound(i: nat)
    requires i < |GPT_54|
    ensures Sound(GPT_54[i])
  {
  }

  lemma Gpt52Sound(i: nat)
    requires i < |GPT_52|
    ensures Sound(GPT_52[i])
  {
  }

  lemma Gpt5Sound(i: nat)
    requires i < |GPT_5|
    ensures Sound(GPT_5[i])
  {
  }

  lemma Gpt41Sound(i: nat)
    requires i < |GPT_41|
    ensures Sound(GPT_41[i])
  {
  }

  lemma Gpt4oSound(i: nat)
    requires i < |GPT_4O|
    ensures Sound(GPT_4O[i])
  {
  }

  lemma O1Sound(i: nat)
    requires i < |O_1|
    ensures Sound(O_1[i])
  {
  }

  lemma O3Sound(i: nat)
    requires i < |O_3|
    ensures Sound(O_3[i])
  {
  }

  lemma AnthropicIsSound(j: nat, i: nat)
    requires j < |ANTHROPIC| && i < |ANTHROPIC[j]|
    ensures Sound(ANTHROPIC[j][i])
  {
    match j {
      case 0 => ClaudeFableSound(i);
      case 1 => ClaudeMythosSound(i);
      case 2 => ClaudeOpus5Sound(i);
      case 3 => ClaudeOpus48Sound(i);
      case 4 => ClaudeOpus4Sound(i);
      case 5 => ClaudeSonnetSound(i);
      case 6 => ClaudeOtherSound(i);
    }
  }

  lemma OpenAiIsSound(j: nat, i: nat)
    requires j < |OPENAI| && i < |OPENAI[j]|
    ensures Sound(OPENAI[j][i])
  {
    match j {
      case 0 => Gpt56Sound(i);
      case 1 => Gpt55Sound(i);
      case 2 => Gpt54Sound(i);
      case 3 => Gpt52Sound(i);
      case 4 => Gpt5Sound(i);
      case 5 => Gpt41Sound(i);
      case 6 => Gpt4oSound(i);
      case 7 => O1Sound(i);
      case 8 => O3Sound(i);
    }
  }

  lemma {:induction false} FromSomeGroup(groups: seq<Book>, e: Entry) returns (j: nat, i: nat)
    requires e in Join(groups)
    ensures j < |groups| && i < |groups[j]| && groups[j][i] == e
    decreases |groups|
  {
    if e in groups[0] {
      j := 0;
      i :| 0 <= i < |groups[0]| && groups[0][i] == e;
    } else {
      j, i := FromSomeGroup(groups[1..], e);
      j := j + 1;
    }
  }

  /** No shipped key is touched by the rewriting, and no cached rate exceeds its input rate. */
  lemma ShippedBookIsCanonical(e: Entry)
    requires e in PRICEBOOK
    ensures Canonical(e.key) && e.price.CachedRate() <= e.price.input
  {
    ShippedIsSound(e);
    SoundIsCanonical(e);
  }

  // ---------------------------------------------------------------- no key twice

  function At(key: string, i: nat): char {
    if i < |key| then key[i] else ' '
  }

  /** Which group of the book a shipped key stands in, read off a few of its characters. */
  function Family(key: string): nat {
    if At(key, 0) == 'c' then AnthropicFamily(key) else OpenAiFamily(key)
  }

  function AnthropicFamily(key: string): nat {
    match At(key, 7)
    case 'f' => 0
    case 'm' => 1
    case 'o' => if At(key, 12) == '5' then 2 else if '6' <= At(key, 14) <= '8' then 3 else 4
    case 's' => if |key| == 15 && At(key, 14) == '4' then 6 else 5
    case _ => 6
  }

  function OpenAiFamily(key: string): nat {
    if At(key, 0) == 'o' then if At(key, 1) == '1' then 14 else 15
    else if At(key, 4) == '4' then if At(key, 5) == '.' then 12 else 13
    else if At(key, 5) != '.' then 11
    else match At(key, 6)
      case '6' => 7
      case '5' => 8
      case '4' => 9
      case _ => 10
  }

  /** The keys of a group are its family's, each once. */
  predicate IsFamily(group: Book, family: nat) {
    DistinctKeys(group) && forall i :: 0 <= i < |group| ==> Family(group[i].key) == family
  }

  lemma ClaudeFableFamily()
    ensures IsFamily(CLAUDE_FABLE, 0)
  {
  }

  lemma ClaudeMythosFamily()
    ensures IsFamily(CLAUDE_MYTHOS, 1)
  {
  }

  lemma ClaudeOpus5Family()
    ensures IsFamily(CLAUDE_OPUS_5, 2)
  {
  }

  lemma ClaudeOpus48Family()
    ensures IsFamily(CLAUDE_OPUS_48, 3)
  {
    assert At(CLAUDE_OPUS_48[0].key, 14) == '8' && At(CLAUDE_OPUS_48[1].key, 14) == '7';
    assert At(CLAUDE_OPUS_48[2].key, 14) == '6';
  }

  lemma ClaudeOpus4Family()
    ensures IsFamily(CLAUDE_OPUS_4, 4)
  {
  }

  lemma ClaudeSonnetFamily()
    ensures IsFamily(CLAUDE_SONNET, 5)
  {
  }

  lemma ClaudeOtherFamily()
    ensures IsFamily(CLAUDE_OTHER, 6)
  {
  }

  lemma Gpt56Family()
    ensures IsFamily(GPT_56, 7)
  {
  }

  lemma Gpt55Family()
    ensures IsFamily(GPT_55, 8)
  {
  }

  lemma Gpt54Family()
    ensures IsFamily(GPT_54, 9)
  {
    assert At(GPT_54[0].key, 8) == 'p' && At(GPT_54[1].key, 8) == 'm';
    assert At(GPT_54[2].key, 8) == 'n' && At(GPT_54[3].key, 8) == ' ';
  }

  lemma Gpt52Family()
    ensures IsFamily(GPT_52, 10)
  {
  }

  lemma Gpt5Family()
    ensures IsFamily(GPT_5, 11)
  {
    assert At(GPT_5[0].key, 6) == 'p' && At(GPT_5[1].key, 6) == 'm';
    assert At(GPT_5[2].key, 6) == 'n' && At(GPT_5[3].key, 6) == ' ';
  }

  lemma Gpt41Family()
    ensures IsFamily(GPT_41, 12)
  {
  }

  lemma Gpt4oFamily()
    ensures IsFamily(GPT_4O, 13)
  {
  }

  lemma O1Family()
    ensures IsFamily(O_1, 14)
  {
  }

  lemma O3Family()
    ensures IsFamily(O_3, 15)
  {
  }

  lemma AnthropicFamilies(j: nat)
    requires j < |ANTHROPIC|
    ensures IsFamily(ANTHROPIC[j], j)
  {
    match j {
      case 0 => ClaudeFableFamily();
      case 1 => ClaudeMythosFamily();
      case 2 => ClaudeOpus5Family();
      case 3 => ClaudeOpus48Family();
      case 4 => ClaudeOpus4Family();
      case 5 => ClaudeSonnetFamily();
      case 6 => ClaudeOtherFamily();
    }
  }

  lemma OpenAiFamilies(j: nat)
    requires j < |OPENAI|
    ensures IsFamily(OPENAI[j], |ANTHROPIC| + j)
  {
    match j {
      case 0 => Gpt56Family();
      case 1 => Gpt55Family();
      case 2 => Gpt54Family();
      case 3 => Gpt52Family();
      case 4 => Gpt5Family();
      case 5 => Gpt41Family();
      case 6 => Gpt4oFamily();
      case 7 => O1Family();
      case 8 => O3Family();
    }
  }

  lemma DistinctJoin(a: Book, b: Book, cut: nat)
    requires DistinctKeys(a) && DistinctKeys(b)
    requires forall i :: 0 <= i < |a| ==> Family(a[i].key) < cut
    requires forall i :: 0 <= i < |b| ==> cut <= Family(b[i].key)
    ensures DistinctKeys(a + b)
  {
    var all := a + b;
    forall i, j | 0 <= i < j < |all| ensures all[i].key != all[j].key {
      assert i < |a| <= j ==> Family(all[i].key) < cut <= Family(all[j].key);
    }
  }

  lemma {:induction false} JoinedFamilies(groups: seq<Book>, first: nat)
    requires forall j :: 0 <= j < |groups| ==> IsFamily(groups[j], first + j)
    ensures DistinctKeys(Join(groups))
    ensures forall i :: 0 <= i < |Join(groups)| ==> first <= Family(Join(groups)[i].key) < first + |groups|
    decreases |groups|
  {
    if groups != [] {
      assert forall j :: 0 <= j < |groups[1..]| ==> groups[1..][j] == groups[j + 1];
      JoinedFamilies(groups[1..], first + 1);
      assert IsFamily(groups[0], first + 0);
      DistinctJoin(groups[0], Join(groups[1..]), first + 1);
    }
  }

  /** The shipped book names no model twice. */
  lemma ShippedKeysAreDistinct()
    ensures DistinctKeys(PRICEBOOK)
  {
    forall j: nat | j < |ANTHROPIC| ensures IsFamily(ANTHROPIC[j], 0 + j) {
      AnthropicFamilies(j);
    }
    forall j: nat | j < |OPENAI| ensures IsFamily(OPENAI[j], |ANTHROPIC| + j) {
      OpenAiFamilies(j);
    }
    JoinedFamilies(ANTHROPIC, 0);
    JoinedFamilies(OPENAI, |ANTHROPIC|);
    DistinctJoin(Join(ANTHROPIC), Join(OPENAI), |ANTHROPIC|);
  }

  /** Every gateway spelling of a shipped key is priced as that key's own entry. */
  lemma ShippedKeyResolves(e: Entry, model: string, chain: seq<string>, dotted: string, suffix: string, tail: string)
    requires e in PRICEBOOK && IsChain(chain) && Wraps(dotted, suffix, tail)
    requires ToLower(Strip(model)) == Concat(chain) + (dotted + (e.key + (suffix + tail)))
    ensures Price(PRICEBOOK, Some(model)) == Some(e.price)
  {
    ShippedKeysAreDistinct();
    ShippedBookIsCanonical(e);
    WrappedKeyResolves(PRICEBOOK, e, model, chain, dotted, suffix, tail);
  }

  // ---------------------------------------------------------------- names beside the keys

  lemma AnthropicGroups(e: Entry)
    requires e in Join(ANTHROPIC)
    ensures Family(e.key) < |ANTHROPIC|
  {
    var k, i := FromSomeGroup(ANTHROPIC, e);
    AnthropicFamilies(k);
    assert Family(ANTHROPIC[k][i].key) == k;
  }

  /** A shipped OpenAI key stands in the group its characters tell. */
  lemma StandsInItsGroup(e: Entry, j: nat)
    requires e in PRICEBOOK && j < |OPENAI| && Family(e.key) == |ANTHROPIC| + j
    ensures e in OPENAI[j]
  {
    if e in Join(OPENAI) {
      var k, i := FromSomeGroup(OPENAI, e);
      OpenAiFamilies(k);
      assert Family(OPENAI[k][i].key) == |ANTHROPIC| + k;
    } else {
      AnthropicGroups(e);
    }
  }

  lemma PlainGptName(name: string)
    requires Clean(name) && |name| >= 4 && name[..2] == "gp" && name[|name| - 2] != 'v'
    ensures Normalised(name) == name
  {
    LeadsPart(name);
    NotVersioned(name, "-v1");
    NotVersioned(name, "-v2");
    assert forall i :: 0 <= i < |name| ==> name[i] != ':';
    CleanStays(name);
    KeyHasNoVendor(name, "");
    assert name + "" == name;
    PlainName(name);
    NoDottedInFront(name, "");
  }

  lemma CleanGpt(name: string)
    requires name == "gpt-5.3" || name == "gpt-4o-mini-2024-07-18"
    ensures Normalised(name) == name && name != ""
  {
    assert ToLower("gpt-5.3") == "gpt-5.3";
    assert ToLower("gpt-4o-mini-2024-07-18") == "gpt-4o-mini-2024-07-18";
    PlainGptName(name);
  }

  lemma NothingForGpt53(e: Entry, name: string)
    requires e in PRICEBOOK && name == "gpt-5.3"
    ensures e.key != name && !Continues(e.key, name)
  {
    ShippedIsSound(e);
    assert name[0] == 'g' && name[3] == '-' && name[4] == '5' && name[5] == '.' && name[6] == '3';
    if e.key == name {
      StandsInItsGroup(e, 3);
    }
  }

  /** A version the book does not list is not taken for the one before it: gpt-5 does not claim gpt-5.3. */
  lemma UnlistedVersionHasNoPrice()
    ensures Price(PRICEBOOK, Some("gpt-5.3")) == None
  {
    ShippedKeysAreDistinct();
    CleanGpt("gpt-5.3");
    PriceIsLongestContinued(PRICEBOOK, "gpt-5.3");
    forall e | e in PRICEBOOK ensures e.key != "gpt-5.3" && !Continues(e.key, "gpt-5.3") {
      NothingForGpt53(e, "gpt-5.3");
    }
  }

  lemma KeysBelowDatedMini(e: Entry, name: string)
    requires e in PRICEBOOK && name == "gpt-4o-mini-2024-07-18"
    ensures e.key != name && (Continues(e.key, name) ==> |e.key| <= 11)
  {
    ShippedIsSound(e);
    assert name[0] == 'g' && name[3] == '-' && name[4] == '4' && name[5] == 'o' && name[7] == 'm';
    if e.key == name || Continues(e.key, name) {
      assert |e.key| >= 6 && e.key[0] == 'g' && e.key[4] == '4' && e.key[5] == 'o';
      StandsInItsGroup(e, 6);
      Gpt4oKeys(e);
    }
  }

  lemma Gpt4oKeys(e: Entry)
    requires e in GPT_4O
    ensures |e.key| <= 11 || (|e.key| == 17 && e.key[7] == '2')
  {
  }

  lemma TakesLongest(book: Book, name: string, e: Entry)
    requires DistinctKeys(book) && Normalised(name) == name && name != "" && e in book && Continues(e.key, name)
    requires forall f :: f in book ==> f.key != name && (Continues(f.key, name) ==> |f.key| <= |e.key|)
    ensures Price(book, Some(name)) == Some(e.price)
  {
    PriceIsLongestContinued(book, name);
  }

  lemma MiniLeads(key: string, name: string)
    requires key == "gpt-4o-mini" && name == "gpt-4o-mini-2024-07-18"
    ensures Continues(key, name) && |key| == 11
  {
    assert name == key + "-2024-07-18";
  }

  lemma DatedMini(e: Entry, name: string)
    requires e in PRICEBOOK && e.key == "gpt-4o-mini" && name == "gpt-4o-mini-2024-07-18"
    ensures Price(PRICEBOOK, Some(name)) == Some(e.price)
  {
    ShippedKeysAreDistinct();
    CleanGpt(name);
    MiniLeads(e.key, name);
    forall f | f in PRICEBOOK ensures f.key != name && (Continues(f.key, name) ==> |f.key| <= |e.key|) {
      KeysBelowDatedMini(f, name);
    }
    TakesLongest(PRICEBOOK, name, e);
  }

  /** A dated snapshot takes the longest listed name before it: gpt-4o-mini's price and not gpt-4o's. */
  lemma DatedSnapshotTakesLongest()
    ensures Price(PRICEBOOK, Some("gpt-4o-mini-2024-07-18")) == Some(ModelPrice(150, 600, Some(75)))
  {
    MiniIsShipped();
    DatedMini(C("gpt-4o-mini", 150, 600, 75), "gpt-4o-mini-2024-07-18");
  }

  lemma MiniIsShipped()
    ensures C("gpt-4o-mini", 150, 600, 75) in PRICEBOOK
  {
    JoinHolds(OPENAI, 6, GPT_4O[1]);
  }

  lemma {:induction false} JoinHolds(groups: seq<Book>, j: nat, e: Entry)
    requires j < |groups| && e in groups[j]
    ensures e in Join(groups)
    decreases |groups|
  {
    if j > 0 {
      JoinHolds(groups[1..], j - 1, e);
    }
  }
}
