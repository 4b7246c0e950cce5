/** web/lib/trace-tree.ts on values: which span hangs where, and the forest that makes. */
module SpanForest {
  import opened Types
  import opened Ordering

  /** One observation as the API returns it; an absent or empty parent is None. */
  datatype Span = Span(id: Id, parent: Option<Id>, startedAt: Time, body: string)

  /** The nodes map: the first occurrence of an id decides. */
  function FirstOccurrences(spans: seq<Span>): map<Id, Span> {
    if spans == [] then map[]
    else
      var before := FirstOccurrences(spans[..|spans| - 1]);
      var s := spans[|spans| - 1];
      if s.id in before then before else before[s.id := s]
  }

  // ---------------------------------------------------------------- parent chains as sent

  /** The parent a node names; an id that is not in the response names none. */
  function Named(m: map<Id, Span>, id: Id): Option<Id> {
    if id in m then m[id].parent else None
  }

  /** n steps up the parents as named, present or not. */
  function Up(m: map<Id, Span>, c: Option<Id>, n: nat): Option<Id>
    decreases n
  {
    if n == 0 || c.None? then c else Up(m, Named(m, c.value), n - 1)
  }

  ghost predicate ChainEnds(m: map<Id, Span>, id: Id) {
    exists n: nat :: Up(m, Some(id), n).None?
  }

  /** A node hangs under the parent it names exactly when that parent is present and the chain of named
      parents ends. */
  ghost predicate Attached(m: map<Id, Span>, id: Id) {
    id in m && m[id].parent.Some? && m[id].parent.value in m && ChainEnds(m, id)
  }

  ghost predicate Orphaned(m: map<Id, Span>, id: Id) {
    id in m && m[id].parent.Some? && !Attached(m, id)
  }

  lemma {:induction false} UpInParts(m: map<Id, Span>, c: Option<Id>, a: nat, b: nat)
    ensures Up(m, c, a + b) == Up(m, Up(m, c, a), b)
    decreases a
  {
    if a > 0 && c.Some? {
      UpInParts(m, Named(m, c.value), a - 1, b);
    }
  }

  /** A chain that comes back to where it was never ends. */
  lemma {:induction false} CycleNeverEnds(m: map<Id, Span>, u: Id, period: nat, n: nat)
    requires period > 0 && Up(m, Some(u), period) == Some(u)
    ensures Up(m, Some(u), n).Some?
    decreases n
  {
    if n < period {
      UpInParts(m, Some(u), n, period - n);
    } else {
      UpInParts(m, Some(u), period, n - period);
      CycleNeverEnds(m, u, period, n - period);
    }
  }

  /** So a chain that revisits a node never ends. */
  lemma RevisitNeverEnds(m: map<Id, Span>, c: Id, j: nat, k: nat)
    requires j < k && Up(m, Some(c), j).Some? && Up(m, Some(c), j) == Up(m, Some(c), k)
    ensures !ChainEnds(m, c)
  {
    var u := Up(m, Some(c), j).value;
    UpInParts(m, Some(c), j, k - j);
    forall n: nat ensures Up(m, Some(c), n).Some? {
      if n < j {
        UpInParts(m, Some(c), n, j - n);
      } else {
        UpInParts(m, Some(c), j, n - j);
        CycleNeverEnds(m, u, k - j, n - j);
      }
    }
  }

  lemma ParentChainEnds(m: map<Id, Span>, id: Id)
    requires Attached(m, id)
    ensures ChainEnds(m, m[id].parent.value)
  {
    var n: nat :| Up(m, Some(id), n).None?;
    assert Up(m, m[id].parent, n - 1).None?;
  }

  // ---------------------------------------------------------------- the links that are made

  ghost function Link(m: map<Id, Span>, id: Id): Option<Id> {
    if Attached(m, id) then m[id].parent else None
  }

  /** n steps up the links. */
  ghost function Climb(m: map<Id, Span>, c: Option<Id>, n: nat): Option<Id>
    decreases n
  {
    if n == 0 || c.None? then c else Climb(m, Link(m, c.value), n - 1)
  }

  lemma {:induction false} ClimbInParts(m: map<Id, Span>, c: Option<Id>, a: nat, b: nat)
    ensures Climb(m, c, a + b) == Climb(m, Climb(m, c, a), b)
    decreases a
  {
    if a > 0 && c.Some? {
      ClimbInParts(m, Link(m, c.value), a - 1, b);
    }
  }

  lemma {:induction false} ClimbFollowsUp(m: map<Id, Span>, c: Option<Id>, n: nat)
    requires Climb(m, c, n).Some?
    ensures Climb(m, c, n) == Up(m, c, n)
    decreases n
  {
    if n > 0 && c.Some? {
      ClimbFollowsUp(m, Link(m, c.value), n - 1);
    }
  }

  /** No node is its own proper ancestor. */
  lemma LinksAreAcyclic(m: map<Id, Span>, id: Id, n: nat)
    requires n > 0
    ensures Climb(m, Some(id), n) != Some(id)
  {
    if Climb(m, Some(id), n) == Some(id) {
      ClimbFollowsUp(m, Some(id), n);
      RevisitNeverEnds(m, id, 0, n);
    }
  }

  ghost predicate Reaches(m: map<Id, Span>, x: Id, id: Id) {
    exists n: nat :: Climb(m, Some(x), n) == Some(id)
  }

  /** The nodes at or below a node. */
  ghost function Subtree(m: map<Id, Span>, id: Id): set<Id> {
    set x | x in m && Reaches(m, x, id)
  }

  ghost function Kids(m: map<Id, Span>, id: Id): set<Id> {
    set x | x in m && Attached(m, x) && m[x].parent == Some(id)
  }

  ghost function Roots(m: map<Id, Span>): set<Id> {
    set x | x in m && !Attached(m, x)
  }

  lemma SelfReaches(m: map<Id, Span>, id: Id)
    ensures Reaches(m, id, id)
  {
    assert Climb(m, Some(id), 0) == Some(id);
  }

  lemma ReachesThrough(m: map<Id, Span>, x: Id, y: Id, z: Id)
    requires Reaches(m, x, y) && Reaches(m, y, z)
    ensures Reaches(m, x, z)
  {
    var a: nat :| Climb(m, Some(x), a) == Some(y);
    var b: nat :| Climb(m, Some(y), b) == Some(z);
    ClimbInParts(m, Some(x), a, b);
  }

  lemma KidReaches(m: map<Id, Span>, id: Id, kid: Id)
    requires kid in Kids(m, id)
    ensures Reaches(m, kid, id)
  {
    assert Climb(m, Some(kid), 1) == Climb(m, Link(m, kid), 0);
  }

  /** What hangs below a child is a proper part of what hangs below its parent. */
  lemma KidIsSmaller(m: map<Id, Span>, id: Id, kid: Id)
    requires id in m && kid in Kids(m, id)
    ensures Subtree(m, kid) < Subtree(m, id)
  {
    SelfReaches(m, id);
    KidReaches(m, id, kid);
    forall x | x in Subtree(m, kid) ensures x in Subtree(m, id) {
      ReachesThrough(m, x, kid, id);
    }
    if id in Subtree(m, kid) {
      var n: nat :| Climb(m, Some(id), n) == Some(kid);
      ClimbInParts(m, Some(id), n, 1);
      assert Climb(m, Some(kid), 1) == Climb(m, Link(m, kid), 0);
      LinksAreAcyclic(m, id, n + 1);
    }
    assert id in Subtree(m, id) && id !in Subtree(m, kid);
  }

  // ---------------------------------------------------------------- sibling order

  /** byStartTime compares Date values, which hold whole milliseconds, and breaks ties by id. */
  function RankIn(m: map<Id, Span>, id: Id): Rank
    requires id in m
  {
    (m[id].startedAt / 1000, id)
  }

  /** s lists the given nodes, each once, strictly in sibling order. */
  ghost predicate IsListing(m: map<Id, Span>, ids: set<Id>, s: seq<Id>)
    requires ids <= m.Keys
  {
    && (forall x :: x in s <==> x in ids)
    && (forall i, j :: 0 <= i < j < |s| && s[i] in m && s[j] in m ==> Below(RankIn(m, s[i]), RankIn(m, s[j])))
  }

  ghost function RanksIn(m: map<Id, Span>, ids: set<Id>): set<Rank>
    requires ids <= m.Keys
  {
    set x | x in ids :: RankIn(m, x)
  }

  function RanksOf(m: map<Id, Span>, s: seq<Id>): (r: seq<Rank>)
    requires forall i :: 0 <= i < |s| ==> s[i] in m
    ensures |r| == |s| && forall i :: 0 <= i < |s| ==> r[i] == RankIn(m, s[i])
  {
    seq(|s|, i requires 0 <= i < |s| => RankIn(m, s[i]))
  }

  /** A listing of nodes is the sorted listing of their sort keys. */
  lemma ListsRanks(m: map<Id, Span>, ids: set<Id>, s: seq<Id>)
    requires ids <= m.Keys && IsListing(m, ids, s)
    ensures forall i :: 0 <= i < |s| ==> s[i] in m
    ensures Lists(RanksOf(m, s), RanksIn(m, ids))
  {
    forall i | 0 <= i < |s| ensures s[i] in ids && s[i] in m {
      assert s[i] in s;
    }
    forall k ensures k in RanksOf(m, s) <==> k in RanksIn(m, ids) {
      if k in RanksIn(m, ids) {
        var x :| x in ids && RankIn(m, x) == k;
        var i :| 0 <= i < |s| && s[i] == x;
        assert RanksOf(m, s)[i] == k;
      }
    }
  }

  lemma ListingExists(m: map<Id, Span>, ids: set<Id>)
    requires ids <= m.Keys
    ensures exists s :: IsListing(m, ids, s)
  {
    var r := Ascending(RanksIn(m, ids));
    forall i | 0 <= i < |r| ensures r[i].1 in ids && r[i].1 in m && RankIn(m, r[i].1) == r[i] {
      assert r[i] in r;
    }
    var s: seq<Id> := seq(|r|, i requires 0 <= i < |r| && r[i].1 in m => r[i].1);
    forall x ensures x in s <==> x in ids {
      if x in ids {
        assert RankIn(m, x) in r;
        var i :| 0 <= i < |r| && r[i] == RankIn(m, x);
        assert s[i] == x;
      }
    }
    assert IsListing(m, ids, s);
  }

  lemma ListingIsUnique(m: map<Id, Span>, ids: set<Id>, a: seq<Id>, b: seq<Id>)
    requires ids <= m.Keys && IsListing(m, ids, a) && IsListing(m, ids, b)
    ensures a == b
  {
    ListsRanks(m, ids, a);
    ListsRanks(m, ids, b);
    OneListing(RanksOf(m, a), RanksOf(m, b), RanksIn(m, ids));
    forall i | 0 <= i < |a| ensures a[i] == b[i] {
      assert RanksOf(m, a)[i].1 == a[i] && RanksOf(m, b)[i].1 == b[i];
    }
  }

  ghost function Listing(m: map<Id, Span>, ids: set<Id>): (s: seq<Id>)
    requires ids <= m.Keys
    ensures IsListing(m, ids, s)
  {
    ListingExists(m, ids);
    var s :| IsListing(m, ids, s);
    s
  }

  // ---------------------------------------------------------------- the forest

  datatype Tree = Tree(span: Span, depth: nat, orphaned: bool, children: seq<Tree>)

  ghost function TreeOf(m: map<Id, Span>, id: Id, depth: nat): Tree
    requires id in m
    decreases Subtree(m, id)
  {
    var kids := Listing(m, Kids(m, id));
    KidsAreSmaller(m, id, kids);
    Tree(m[id], depth, Orphaned(m, id),
         seq(|kids|, i requires 0 <= i < |kids| => TreeOf(m, kids[i], depth + 1)))
  }

  lemma KidsAreSmaller(m: map<Id, Span>, id: Id, kids: seq<Id>)
    requires id in m && IsListing(m, Kids(m, id), kids)
    ensures forall i :: 0 <= i < |kids| ==> kids[i] in Kids(m, id) && kids[i] in m && Subtree(m, kids[i]) < Subtree(m, id)
  {
    forall i | 0 <= i < |kids| ensures kids[i] in Kids(m, id) && kids[i] in m && Subtree(m, kids[i]) < Subtree(m, id) {
      assert kids[i] in kids;
      KidIsSmaller(m, id, kids[i]);
    }
  }

  ghost function Forest(m: map<Id, Span>): seq<Tree> {
    var roots := Listing(m, Roots(m));
    assert forall i :: 0 <= i < |roots| ==> roots[i] in roots;
    seq(|roots|, i requires 0 <= i < |roots| => TreeOf(m, roots[i], 0))
  }

  // ---------------------------------------------------------------- permutations

  ghost predicate DistinctIds(spans: seq<Span>) {
    forall i, j :: 0 <= i < j < |spans| ==> spans[i].id != spans[j].id
  }

  function IdOf(s: Span): Id {
    s.id
  }

  /** r is the first of the list with this id. */
  ghost predicate FirstWith(spans: seq<Span>, id: Id, r: Option<Span>) {
    FirstBy(spans, IdOf, id, r)
  }

  /** The nodes map holds, for every id in the list, its first occurrence. */
  lemma {:induction false} HoldsFirst(spans: seq<Span>, id: Id)
    ensures FirstWith(spans, id, Lookup(FirstOccurrences(spans), id))
    decreases |spans|
  {
    if spans != [] {
      var init, last := spans[..|spans| - 1], spans[|spans| - 1];
      HoldsFirst(init, id);
      FirstByStep(init, IdOf, id, Lookup(FirstOccurrences(init), id), last);
      assert spans == init + [last];
    }
  }

  lemma SameNodes(a: seq<Span>, b: seq<Span>)
    requires DistinctIds(a) && forall s :: s in a <==> s in b
    ensures FirstOccurrences(a) == FirstOccurrences(b)
  {
    var m, n := FirstOccurrences(a), FirstOccurrences(b);
    forall id ensures Lookup(m, id) == Lookup(n, id) {
      HoldsFirst(a, id);
      HoldsFirst(b, id);
      assert id in m ==> m[id] in a && m[id] in b;
      assert id in n ==> n[id] in b && n[id] in a;
    }
    assert forall id :: id in m <==> Lookup(m, id).Some?;
    assert forall id :: id in n <==> Lookup(n, id).Some?;
    assert forall id :: id in m ==> Lookup(m, id) == Some(m[id]);
  }

  /** For a list with distinct ids the forest is the same for every permutation of it. */
  lemma PermutationInvariant(a: seq<Span>, b: seq<Span>)
    requires DistinctIds(a) && multiset(a) == multiset(b)
    ensures Forest(FirstOccurrences(a)) == Forest(FirstOccurrences(b))
  {
    forall s ensures s in a <==> s in b {
      assert s in a <==> s in multiset(a);
      assert s in b <==> s in multiset(b);
    }
    SameNodes(a, b);
  }
}
