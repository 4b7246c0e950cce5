/** web/lib/trace-tree.ts on the heap: nodes are created, linked, sorted and numbered in place, and what they
    then hold is the forest of SpanForest; flattening them yields the rows of SpanRows. */
module SpanTree {
  import opened Types
  import opened Ordering
  import opened SpanForest
  import opened SpanRows

  class SpanNode {
    const observation: Span
    var depth: nat
    var children: seq<SpanNode>
    var orphaned: bool

    constructor (observation: Span)
      ensures this.observation == observation && depth == 0 && children == [] && !orphaned
    {
      this.observation := observation;
      depth, children, orphaned := 0, [], false;
    }
  }

  // ---------------------------------------------------------------- nodes and the spans they stand for

  /** One node for every span of the map, under its id. */
  ghost predicate NodesFor(nodes: map<Id, SpanNode>, m: map<Id, Span>) {
    && nodes.Keys == m.Keys
    && forall id :: id in nodes ==> nodes[id].observation == m[id] && m[id].id == id
  }

  function Ids(ns: seq<SpanNode>): (r: seq<Id>)
    ensures |r| == |ns| && forall i :: 0 <= i < |ns| ==> r[i] == ns[i].observation.id
  {
    seq(|ns|, i requires 0 <= i < |ns| => ns[i].observation.id)
  }

  /** The list holds the nodes of the given ids, each once. */
  ghost predicate HoldsNodes(nodes: map<Id, SpanNode>, ns: seq<SpanNode>, ids: set<Id>) {
    && (forall i :: 0 <= i < |ns| ==> Lookup(nodes, ns[i].observation.id) == Some(ns[i]))
    && (forall x :: x in Ids(ns) <==> x in ids)
    && (forall i, j :: 0 <= i < j < |ns| ==> ns[i].observation.id != ns[j].observation.id)
  }

  lemma HoldsMore(nodes: map<Id, SpanNode>, ns: seq<SpanNode>, ids: set<Id>, n: SpanNode)
    requires HoldsNodes(nodes, ns, ids) && Lookup(nodes, n.observation.id) == Some(n) && n.observation.id !in ids
    ensures HoldsNodes(nodes, ns + [n], ids + {n.observation.id})
  {
    assert Ids(ns + [n]) == Ids(ns) + [n.observation.id];
    forall i | 0 <= i < |ns| ensures ns[i].observation.id != n.observation.id {
      assert Ids(ns)[i] in Ids(ns);
    }
  }

  ghost function NodesOf(nodes: map<Id, SpanNode>, ids: set<Id>): set<SpanNode> {
    set id | id in ids && id in nodes :: nodes[id]
  }

  // ---------------------------------------------------------------- a node that shows a tree

  ghost predicate Shows(n: SpanNode, t: Tree, repr: set<SpanNode>)
    reads repr
    decreases t
  {
    && n in repr
    && n.observation == t.span && n.depth == t.depth && n.orphaned == t.orphaned
    && |n.children| == |t.children|
    && forall i :: 0 <= i < |t.children| ==> Shows(n.children[i], t.children[i], repr)
  }

  ghost predicate Shown(ns: seq<SpanNode>, trees: seq<Tree>, repr: set<SpanNode>)
    reads repr
  {
    |ns| == |trees| && forall i :: 0 <= i < |ns| ==> Shows(ns[i], trees[i], repr)
  }

  lemma {:induction false} ShowsIn(n: SpanNode, t: Tree, repr: set<SpanNode>, more: set<SpanNode>)
    requires Shows(n, t, repr) && repr <= more
    ensures Shows(n, t, more)
    decreases t
  {
    forall i | 0 <= i < |t.children| ensures Shows(n.children[i], t.children[i], more) {
      ShowsIn(n.children[i], t.children[i], repr, more);
    }
  }

  // ---------------------------------------------------------------- sorting

  /** Negative when a comes first: by whole milliseconds, ties by id. */
  function ByStartTime(a: SpanNode, b: SpanNode): int {
    var delta := a.observation.startedAt / 1000 - b.observation.startedAt / 1000;
    if delta != 0 then delta else a.observation.id - b.observation.id
  }

  lemma InsertKeepsOrder(m: map<Id, Span>, s: seq<Id>, x: Id, p: nat)
    requires x in m && p <= |s| && forall i :: 0 <= i < |s| ==> s[i] in m
    requires forall i, j :: 0 <= i < j < |s| ==> Below(RankIn(m, s[i]), RankIn(m, s[j]))
    requires forall i :: 0 <= i < p ==> Below(RankIn(m, s[i]), RankIn(m, x))
    requires forall i :: p <= i < |s| ==> Below(RankIn(m, x), RankIn(m, s[i]))
    ensures var r := s[..p] + [x] + s[p..];
            forall i, j :: 0 <= i < j < |r| ==> r[i] in m && r[j] in m && Below(RankIn(m, r[i]), RankIn(m, r[j]))
  {
    var r := s[..p] + [x] + s[p..];
    forall i | 0 <= i < |r| ensures r[i] == (if i < p then s[i] else if i == p then x else s[i - 1]) {
    }
  }

  lemma InsertKeepsListing(m: map<Id, Span>, ids: set<Id>, s: seq<Id>, x: Id, p: nat)
    requires ids <= m.Keys && IsListing(m, ids, s) && x in m && x !in ids && p <= |s|
    requires forall i :: 0 <= i < p && s[i] in m ==> Below(RankIn(m, s[i]), RankIn(m, x))
    requires forall i :: p <= i < |s| && s[i] in m ==> Below(RankIn(m, x), RankIn(m, s[i]))
    ensures IsListing(m, ids + {x}, s[..p] + [x] + s[p..])
  {
    var r := s[..p] + [x] + s[p..];
    assert s == s[..p] + s[p..];
    forall y ensures y in r <==> y in ids + {x} {
      assert y in r <==> y in s[..p] || y == x || y in s[p..];
      assert y in s <==> y in s[..p] || y in s[p..];
    }
    assert forall i :: 0 <= i < |s| ==> s[i] in s;
    InsertKeepsOrder(m, s, x, p);
  }

  /** What Array.sort leaves for this comparison: the one list of these nodes in sibling order. */
  method Sorted(nodes: map<Id, SpanNode>, ghost m: map<Id, Span>, ns: seq<SpanNode>, ghost ids: set<Id>)
    returns (r: seq<SpanNode>)
    requires NodesFor(nodes, m) && HoldsNodes(nodes, ns, ids) && ids <= m.Keys
    ensures HoldsNodes(nodes, r, ids) && Ids(r) == Listing(m, ids)
  {
    r := [];
    var k := 0;
    ghost var taken: set<Id> := {};
    while k < |ns|
      invariant k <= |ns| && taken <= ids
      invariant forall x :: x in taken <==> x in Ids(ns[..k])
      invariant HoldsNodes(nodes, r, taken) && IsListing(m, taken, Ids(r))
    {
      var p := 0;
      while p < |r| && ByStartTime(r[p], ns[k]) < 0
        invariant p <= |r|
        invariant forall i :: 0 <= i < p ==> ByStartTime(r[i], ns[k]) < 0
      {
        p := p + 1;
      }
      ghost var x := ns[k].observation.id;
      assert Ids(ns)[k] in Ids(ns);
      assert Ids(ns[..k + 1]) == Ids(ns[..k]) + [x];
      assert x !in taken by {
        assert forall i :: 0 <= i < k ==> Ids(ns[..k])[i] != x;
      }
      PlaceFits(nodes, m, taken, r, ns[k], p);
      r := r[..p] + [ns[k]] + r[p..];
      taken := taken + {x};
      k := k + 1;
    }
    assert ns[..k] == ns;
    assert taken == ids;
    ListingIsUnique(m, ids, Ids(r), Listing(m, ids));
  }

  lemma ComparesAsRanks(nodes: map<Id, SpanNode>, m: map<Id, Span>, a: SpanNode, b: SpanNode)
    requires NodesFor(nodes, m)
    requires Lookup(nodes, a.observation.id) == Some(a) && Lookup(nodes, b.observation.id) == Some(b)
    ensures a.observation.id in m && b.observation.id in m
    ensures ByStartTime(a, b) < 0 <==> Below(RankIn(m, a.observation.id), RankIn(m, b.observation.id))
    ensures ByStartTime(a, b) == 0 ==> a.observation.id == b.observation.id
    ensures ByStartTime(a, b) > 0 ==> Below(RankIn(m, b.observation.id), RankIn(m, a.observation.id))
  {
  }

  /** Putting a node before the first one it does not follow keeps the list in order. */
  lemma PlaceFits(nodes: map<Id, SpanNode>, m: map<Id, Span>, ids: set<Id>, r: seq<SpanNode>, n: SpanNode, p: nat)
    requires NodesFor(nodes, m) && ids <= m.Keys && HoldsNodes(nodes, r, ids) && IsListing(m, ids, Ids(r))
    requires Lookup(nodes, n.observation.id) == Some(n) && n.observation.id !in ids
    requires p <= |r| && (p < |r| ==> ByStartTime(r[p], n) >= 0)
    requires forall i :: 0 <= i < p ==> ByStartTime(r[i], n) < 0
    ensures HoldsNodes(nodes, r[..p] + [n] + r[p..], ids + {n.observation.id})
    ensures IsListing(m, ids + {n.observation.id}, Ids(r[..p] + [n] + r[p..]))
  {
    var x, s, placed := n.observation.id, Ids(r), r[..p] + [n] + r[p..];
    forall i | 0 <= i < |s| ensures s[i] in m && s[i] != x {
      assert s[i] in s;
    }
    forall i | 0 <= i < p ensures Below(RankIn(m, s[i]), RankIn(m, x)) {
      ComparesAsRanks(nodes, m, r[i], n);
    }
    forall i | p <= i < |s| ensures Below(RankIn(m, x), RankIn(m, s[i])) {
      ComparesAsRanks(nodes, m, r[p], n);
      assert i > p ==> Below(RankIn(m, s[p]), RankIn(m, s[i]));
    }
    InsertKeepsListing(m, ids, s, x, p);
    assert Ids(placed) == s[..p] + [x] + s[p..];
    ListingIsList(nodes, m, placed, ids + {x});
  }

  lemma ListingIsList(nodes: map<Id, SpanNode>, m: map<Id, Span>, ns: seq<SpanNode>, ids: set<Id>)
    requires ids <= m.Keys && IsListing(m, ids, Ids(ns))
    requires forall i :: 0 <= i < |ns| ==> Lookup(nodes, ns[i].observation.id) == Some(ns[i])
    ensures HoldsNodes(nodes, ns, ids)
  {
    forall i, j | 0 <= i < j < |ns| ensures ns[i].observation.id != ns[j].observation.id {
      ListingDistinct(m, ids, Ids(ns), i, j);
    }
  }

  // ---------------------------------------------------------------- wouldCycle

  /** Walks the named parents with a set of ids already seen; true exactly when the chain never ends. */
  method WouldCycle(nodes: map<Id, SpanNode>, ghost m: map<Id, Span>, id: Id, parentId: Id) returns (cycle: bool)
    requires NodesFor(nodes, m) && id in m && m[id].parent == Some(parentId)
    ensures cycle <==> !ChainEnds(m, id)
  {
    var seen := {id};
    var cursor := Some(parentId);
    ghost var n: nat := 1;
    assert Up(m, Some(id), 0) == Some(id) && Up(m, Some(id), 1) == Up(m, Some(parentId), 0);
    while cursor.Some?
      invariant cursor == Up(m, Some(id), n)
      invariant forall y :: y in seen ==> SeenAt(m, id, n, y)
      decreases m.Keys - seen, if cursor.Some? then 1 else 0
    {
      if cursor.value in seen {
        assert SeenAt(m, id, n, cursor.value);
        ghost var k: nat :| k < n && Up(m, Some(id), k) == cursor;
        RevisitNeverEnds(m, id, k, n);
        return true;
      }
      forall y | y in seen ensures SeenAt(m, id, n + 1, y) {
        assert SeenAt(m, id, n, y);
        var k: nat :| k < n && Up(m, Some(id), k) == Some(y);
        assert k < n + 1;
      }
      assert SeenAt(m, id, n + 1, cursor.value);
      UpInParts(m, Some(id), n, 1);
      assert Up(m, cursor, 1) == Up(m, Named(m, cursor.value), 0);
      seen := seen + {cursor.value};
      cursor := if cursor.value in nodes then nodes[cursor.value].observation.parent else None;
      n := n + 1;
    }
    return false;
  }

  ghost predicate SeenAt(m: map<Id, Span>, id: Id, n: nat, y: Id) {
    exists k: nat :: k < n && Up(m, Some(id), k) == Some(y)
  }

  // ---------------------------------------------------------------- assignDepth

  /** Every node at or below id has its children, in any order, and its flag. */
  ghost predicate Ready(nodes: map<Id, SpanNode>, m: map<Id, Span>, id: Id)
    reads NodesOf(nodes, Subtree(m, id))
  {
    forall x :: x in Subtree(m, id) ==>
      x in nodes && HoldsNodes(nodes, nodes[x].children, Kids(m, x)) && (nodes[x].orphaned <==> Orphaned(m, x))
  }

  lemma NodesUnder(nodes: map<Id, SpanNode>, m: map<Id, Span>, ids: set<Id>)
    requires NodesFor(nodes, m)
    ensures forall n :: n in NodesOf(nodes, ids) ==> n.observation.id in ids
  {
  }

  lemma {:induction false} PartOfSubtrees(m: map<Id, Span>, ids: seq<Id>, i: nat)
    requires i < |ids|
    ensures Subtree(m, ids[i]) <= Subtrees(m, ids)
    decreases |ids|
  {
    if i > 0 {
      PartOfSubtrees(m, ids[1..], i - 1);
    }
  }

  lemma ReadyBelow(nodes: map<Id, SpanNode>, m: map<Id, Span>, node: SpanNode, kids: seq<Id>)
    requires NodesFor(nodes, m) && Lookup(nodes, node.observation.id) == Some(node)
    requires Ready(nodes, m, node.observation.id) && kids == Listing(m, Kids(m, node.observation.id))
    ensures Apart(m, kids) && Subtrees(m, kids) < Subtree(m, node.observation.id)
    ensures NodesOf(nodes, Subtrees(m, kids)) <= NodesOf(nodes, Subtree(m, node.observation.id)) - {node}
    ensures forall i :: 0 <= i < |kids| ==> Ready(nodes, m, kids[i])
  {
    var id := node.observation.id;
    KidsAreSmaller(m, id, kids);
    KidsApart(m, id, kids);
    SubtreeSplits(m, id, kids);
    NodesUnder(nodes, m, Subtrees(m, kids));
    assert id in Subtree(m, id);
  }

  /** The nodes at or below one of several unrelated nodes. */
  ghost function Under(nodes: map<Id, SpanNode>, m: map<Id, Span>, n: SpanNode): set<SpanNode> {
    NodesOf(nodes, Subtree(m, n.observation.id))
  }

  lemma UnderApart(nodes: map<Id, SpanNode>, m: map<Id, Span>, ns: seq<SpanNode>, i: nat)
    requires NodesFor(nodes, m) && Apart(m, Ids(ns)) && i < |ns|
    ensures forall j :: 0 <= j < |ns| && j != i ==> Under(nodes, m, ns[j]) !! Under(nodes, m, ns[i])
    ensures Under(nodes, m, ns[i]) <= NodesOf(nodes, Subtrees(m, Ids(ns)))
    ensures Subtree(m, ns[i].observation.id) <= Subtrees(m, Ids(ns))
  {
    var ids := Ids(ns);
    PartOfSubtrees(m, ids, i);
    NodesUnder(nodes, m, Subtree(m, ids[i]));
    forall j | 0 <= j < |ids| && j != i ensures Under(nodes, m, ns[j]) !! Under(nodes, m, ns[i]) {
      NodesUnder(nodes, m, Subtree(m, ids[j]));
    }
  }

  /** Numbers a node and sorts its children, then does the same for each of them, one level down. */
  method AssignDepth(nodes: map<Id, SpanNode>, ghost m: map<Id, Span>, node: SpanNode, depth: nat)
    requires NodesFor(nodes, m) && Lookup(nodes, node.observation.id) == Some(node)
    requires Ready(nodes, m, node.observation.id)
    modifies NodesOf(nodes, Subtree(m, node.observation.id))
    ensures node.observation.id in m
    ensures Shows(node, TreeOf(m, node.observation.id, depth), NodesOf(nodes, Subtree(m, node.observation.id)))
    decreases Subtree(m, node.observation.id), 0
  {
    ghost var id := node.observation.id;
    SelfReaches(m, id);
    node.depth := depth;
    var sorted := Sorted(nodes, m, node.children, Kids(m, id));
    node.children := sorted;
    ghost var kids := Ids(sorted);
    ReadyBelow(nodes, m, node, kids);
    AssignDepths(nodes, m, sorted, depth + 1);
    Assembled(nodes, m, node, kids, depth);
  }

  lemma Assembled(nodes: map<Id, SpanNode>, m: map<Id, Span>, node: SpanNode, kids: seq<Id>, depth: nat)
    requires NodesFor(nodes, m) && Lookup(nodes, node.observation.id) == Some(node)
    requires kids == Listing(m, Kids(m, node.observation.id)) && Ids(node.children) == kids
    requires node.depth == depth && (node.orphaned <==> Orphaned(m, node.observation.id))
    requires forall i :: 0 <= i < |kids| ==> ShowsUnder(nodes, m, node.children[i], depth + 1)
    ensures Shows(node, TreeOf(m, node.observation.id, depth), NodesOf(nodes, Subtree(m, node.observation.id)))
  {
    var id := node.observation.id;
    SelfReaches(m, id);
    KidsAreSmaller(m, id, kids);
    var repr := NodesOf(nodes, Subtree(m, id));
    forall i | 0 <= i < |kids| ensures Shows(node.children[i], TreeOf(m, kids[i], depth + 1), repr) {
      ShowsIn(node.children[i], TreeOf(m, kids[i], depth + 1), NodesOf(nodes, Subtree(m, kids[i])), repr);
    }
  }

  /** The node and everything below it is settled, with the node at this depth. */
  ghost predicate ShowsUnder(nodes: map<Id, SpanNode>, m: map<Id, Span>, n: SpanNode, depth: nat)
    reads Under(nodes, m, n)
  {
    && n.observation.id in m
    && Shows(n, TreeOf(m, n.observation.id, depth), Under(nodes, m, n))
  }

  ghost predicate ReadyUnder(nodes: map<Id, SpanNode>, m: map<Id, Span>, n: SpanNode)
    reads Under(nodes, m, n)
  {
    Ready(nodes, m, n.observation.id)
  }

  /** The loop over the children of a node, and over the roots. */
  method AssignDepths(nodes: map<Id, SpanNode>, ghost m: map<Id, Span>, ns: seq<SpanNode>, depth: nat)
    requires NodesFor(nodes, m) && Apart(m, Ids(ns))
    requires forall i :: 0 <= i < |ns| ==> Lookup(nodes, ns[i].observation.id) == Some(ns[i])
    requires forall i :: 0 <= i < |ns| ==> ReadyUnder(nodes, m, ns[i])
    modifies NodesOf(nodes, Subtrees(m, Ids(ns)))
    ensures forall i :: 0 <= i < |ns| ==> ShowsUnder(nodes, m, ns[i], depth)
    decreases Subtrees(m, Ids(ns)), 1
  {
    var i := 0;
    while i < |ns|
      invariant i <= |ns|
      invariant forall j :: i <= j < |ns| ==> ReadyUnder(nodes, m, ns[j])
      invariant forall j :: 0 <= j < i ==> ShowsUnder(nodes, m, ns[j], depth)
    {
      UnderApart(nodes, m, ns, i);
      AssignDepth(nodes, m, ns[i], depth);
      i := i + 1;
    }
  }

  // ---------------------------------------------------------------- buildSpanTree

  /** Some span before every appearance of y carries x. */
  predicate AppearsBefore(spans: seq<Span>, x: Id, y: Id) {
    exists p :: 0 <= p < |spans| && spans[p].id == x && forall q :: 0 <= q <= p ==> spans[q].id != y
  }

  /** The ids stand in the order of their first appearance. */
  predicate ByAppearance(spans: seq<Span>, ids: seq<Id>) {
    forall i, j :: 0 <= i < j < |ids| ==> AppearsBefore(spans, ids[i], ids[j])
  }

  lemma AppearanceStep(spans: seq<Span>, ids: seq<Id>, s: Span)
    requires ByAppearance(spans, ids)
    ensures ByAppearance(spans + [s], ids)
    ensures (forall x :: x in ids ==> exists p :: 0 <= p < |spans| && spans[p].id == x)
            && (forall p :: 0 <= p < |spans| ==> spans[p].id != s.id)
            ==> ByAppearance(spans + [s], ids + [s.id])
  {
    var all, more := spans + [s], ids + [s.id];
    forall x, y | AppearsBefore(spans, x, y) ensures AppearsBefore(all, x, y) {
      var p :| 0 <= p < |spans| && spans[p].id == x && forall q :: 0 <= q <= p ==> spans[q].id != y;
      assert all[p] == spans[p];
    }
    if (forall x :: x in ids ==> exists p :: 0 <= p < |spans| && spans[p].id == x)
       && forall p :: 0 <= p < |spans| ==> spans[p].id != s.id {
      forall i | 0 <= i < |ids| ensures AppearsBefore(all, ids[i], s.id) {
        assert ids[i] in ids;
        var p :| 0 <= p < |spans| && spans[p].id == ids[i];
        assert all[p] == spans[p];
      }
    }
  }

  lemma AppearedSoFar(spans: seq<Span>, id: Id)
    ensures id in FirstOccurrences(spans) <==> exists p :: 0 <= p < |spans| && spans[p].id == id
  {
    HoldsFirst(spans, id);
    assert FirstWith(spans, id, Lookup(FirstOccurrences(spans), id));
  }

  lemma NextAppears(spans: seq<Span>, i: nat, ids: seq<Id>)
    requires i < |spans| && ByAppearance(spans[..i], ids)
    requires forall x :: x in ids ==> x in FirstOccurrences(spans[..i])
    ensures ByAppearance(spans[..i + 1], ids)
    ensures spans[i].id !in FirstOccurrences(spans[..i]) ==> ByAppearance(spans[..i + 1], ids + [spans[i].id])
  {
    var before := spans[..i];
    assert spans[..i + 1] == before + [spans[i]];
    AppearanceStep(before, ids, spans[i]);
    forall x ensures x in FirstOccurrences(before) <==> exists p :: 0 <= p < |before| && before[p].id == x {
      AppearedSoFar(before, x);
    }
  }

  /** The nodes map, in insertion order: a repeated id is skipped. */
  method MakeNodes(observations: seq<Span>) returns (nodes: map<Id, SpanNode>, order: seq<SpanNode>)
    ensures NodesFor(nodes, FirstOccurrences(observations)) && HoldsNodes(nodes, order, nodes.Keys)
    ensures ByAppearance(observations, Ids(order))
    ensures forall id :: id in nodes ==> fresh(nodes[id])
    ensures forall id :: id in nodes ==> nodes[id].depth == 0 && nodes[id].children == [] && !nodes[id].orphaned
  {
    nodes, order := map[], [];
    for i := 0 to |observations|
      invariant NodesFor(nodes, FirstOccurrences(observations[..i])) && HoldsNodes(nodes, order, nodes.Keys)
      invariant ByAppearance(observations[..i], Ids(order))
      invariant forall id :: id in nodes ==> fresh(nodes[id])
      invariant forall id :: id in nodes ==> nodes[id].depth == 0 && nodes[id].children == [] && !nodes[id].orphaned
    {
      var observation := observations[i];
      assert observations[..i + 1][..i] == observations[..i];
      NextAppears(observations, i, Ids(order));
      if observation.id !in nodes {
        var node := new SpanNode(observation);
        HoldsWider(nodes, order, nodes.Keys, observation.id, node);
        nodes := nodes[observation.id := node];
        HoldsMore(nodes, order, nodes.Keys - {observation.id}, node);
        order := order + [node];
        assert Ids(order) == Ids(order[..|order| - 1]) + [observation.id];
      }
    }
    assert observations[..|observations|] == observations;
  }

  lemma HoldsWider(nodes: map<Id, SpanNode>, ns: seq<SpanNode>, ids: set<Id>, id: Id, n: SpanNode)
    requires HoldsNodes(nodes, ns, ids) && id !in nodes
    ensures HoldsNodes(nodes[id := n], ns, ids)
  {
  }

  /** After the nodes of `done` have been linked: each node holds the linked children it has so far, and the flag. */
  ghost predicate LinkedSoFar(nodes: map<Id, SpanNode>, m: map<Id, Span>, done: set<Id>)
    reads nodes.Values
  {
    forall id :: id in nodes && id in m ==>
      && HoldsNodes(nodes, nodes[id].children, Kids(m, id) * done)
      && (nodes[id].orphaned <==> id in done && Orphaned(m, id))
  }

  /** Linking one more node adds it to the roots or to the children of the node it names, and to nothing else. */
  lemma StepDone(m: map<Id, Span>, done: set<Id>, id: Id)
    requires id in m
    ensures Roots(m) * (done + {id}) == Roots(m) * done + (if Attached(m, id) then {} else {id})
    ensures forall p: Id | m[id].parent != Some(p) || !Attached(m, id) :: Kids(m, p) * (done + {id}) == Kids(m, p) * done
    ensures forall p: Id | m[id].parent == Some(p) && Attached(m, id) :: Kids(m, p) * (done + {id}) == Kids(m, p) * done + {id}
  {
  }

  /** One turn of the linking loop: under the parent it names, or onto the roots. */
  method LinkOne(nodes: map<Id, SpanNode>, ghost m: map<Id, Span>, node: SpanNode, roots: seq<SpanNode>, ghost done: set<Id>)
    returns (after: seq<SpanNode>)
    requires NodesFor(nodes, m) && Lookup(nodes, node.observation.id) == Some(node) && node.observation.id !in done
    requires LinkedSoFar(nodes, m, done) && HoldsNodes(nodes, roots, Roots(m) * done)
    modifies nodes.Values
    ensures LinkedSoFar(nodes, m, done + {node.observation.id})
    ensures HoldsNodes(nodes, after, Roots(m) * (done + {node.observation.id}))
  {
    ghost var id := node.observation.id;
    StepDone(m, done, id);
    after := roots;
    var parentId := node.observation.parent;
    if parentId.None? {
      HoldsMore(nodes, roots, Roots(m) * done, node);
      after := roots + [node];
    } else if parentId.value !in nodes {
      node.orphaned := true;
      HoldsMore(nodes, roots, Roots(m) * done, node);
      after := roots + [node];
    } else {
      var parent := nodes[parentId.value];
      var cycle := WouldCycle(nodes, m, node.observation.id, parentId.value);
      if cycle {
        node.orphaned := true;
        HoldsMore(nodes, roots, Roots(m) * done, node);
        after := roots + [node];
      } else {
        HoldsMore(nodes, parent.children, Kids(m, parentId.value) * done, node);
        parent.children := parent.children + [node];
      }
    }
  }

  lemma NextInOrder(nodes: map<Id, SpanNode>, order: seq<SpanNode>, ids: set<Id>, k: nat)
    requires HoldsNodes(nodes, order, ids) && k < |order|
    ensures Ids(order[..k + 1]) == Ids(order[..k]) + [order[k].observation.id]
    ensures order[k].observation.id !in Ids(order[..k])
  {
  }

  method LinkAll(nodes: map<Id, SpanNode>, ghost m: map<Id, Span>, order: seq<SpanNode>) returns (roots: seq<SpanNode>)
    requires NodesFor(nodes, m) && HoldsNodes(nodes, order, m.Keys)
    requires forall id :: id in nodes ==> nodes[id].children == [] && !nodes[id].orphaned
    modifies nodes.Values
    ensures LinkedSoFar(nodes, m, m.Keys) && HoldsNodes(nodes, roots, Roots(m))
  {
    roots := [];
    ghost var done: set<Id> := {};
    for k := 0 to |order|
      invariant forall x :: x in done <==> x in Ids(order[..k])
      invariant LinkedSoFar(nodes, m, done) && HoldsNodes(nodes, roots, Roots(m) * done)
    {
      ghost var id := order[k].observation.id;
      NextInOrder(nodes, order, m.Keys, k);
      roots := LinkOne(nodes, m, order[k], roots, done);
      done := done + {id};
    }
    assert order[..|order|] == order;
    assert done == m.Keys && Roots(m) * done == Roots(m);
  }

  /** The whole of buildSpanTree: for any list, whatever its parent pointers, the roots returned show the forest. */
  method BuildSpanTree(observations: seq<Span>) returns (roots: seq<SpanNode>, ghost repr: set<SpanNode>)
    ensures fresh(repr) && Shown(roots, Forest(FirstOccurrences(observations)), repr)
  {
    ghost var m := FirstOccurrences(observations);
    var nodes, order := MakeNodes(observations);
    repr := nodes.Values;
    roots := LinkAll(nodes, m, order);
    roots := Sorted(nodes, m, roots, Roots(m));
    RootListApart(m, Ids(roots));
    AllReady(nodes, m);
    NodesOfAll(nodes, Subtrees(m, Ids(roots)));
    AssignDepths(nodes, m, roots, 0);
    AllShown(nodes, m, roots, repr);
  }

  lemma AllReady(nodes: map<Id, SpanNode>, m: map<Id, Span>)
    requires NodesFor(nodes, m) && LinkedSoFar(nodes, m, m.Keys)
    ensures forall id :: id in m ==> Ready(nodes, m, id)
  {
    assert forall id: Id :: Kids(m, id) * m.Keys == Kids(m, id);
  }

  lemma NodesOfAll(nodes: map<Id, SpanNode>, ids: set<Id>)
    ensures NodesOf(nodes, ids) <= nodes.Values
  {
  }

  lemma AllShown(nodes: map<Id, SpanNode>, m: map<Id, Span>, roots: seq<SpanNode>, repr: set<SpanNode>)
    requires NodesFor(nodes, m) && repr == nodes.Values && Ids(roots) == Listing(m, Roots(m))
    requires forall i :: 0 <= i < |roots| ==> ShowsUnder(nodes, m, roots[i], 0)
    ensures Shown(roots, Forest(m), repr)
  {
    forall i | 0 <= i < |roots| ensures Shows(roots[i], Forest(m)[i], repr) {
      var id := Ids(roots)[i];
      ShowsIn(roots[i], TreeOf(m, id, 0), NodesOf(nodes, Subtree(m, id)), repr);
    }
  }

  // ---------------------------------------------------------------- flattenTree

  ghost function RowAt(n: SpanNode): Row
    reads n
  {
    Row(n.observation, n.depth, n.orphaned)
  }

  ghost function RowsAt(ns: seq<SpanNode>): seq<Row>
    reads ns
  {
    seq(|ns|, i requires 0 <= i < |ns| reads ns => RowAt(ns[i]))
  }

  lemma RowsAtJoin(a: seq<SpanNode>, b: seq<SpanNode>)
    ensures RowsAt(a + b) == RowsAt(a) + RowsAt(b)
  {
  }

  lemma {:induction false} FlattenJoin(a: seq<Tree>, b: seq<Tree>)
    ensures Flatten(a + b) == Flatten(a) + Flatten(b)
    decreases |a|
  {
    if a == [] {
      assert a + b == b;
    } else {
      var rest := a[1..] + b;
      FlattenJoin(a[1..], b);
      assert a + b == [a[0]] + rest && ([a[0]] + rest)[1..] == rest;
      assert Flatten([a[0]] + rest) == FlattenTree(a[0]) + Flatten(rest);
    }
  }

  lemma FlattenMore(trees: seq<Tree>, i: nat)
    requires i < |trees|
    ensures Flatten(trees[..i + 1]) == Flatten(trees[..i]) + FlattenTree(trees[i])
  {
    FlattenJoin(trees[..i], [trees[i]]);
    assert trees[..i + 1] == trees[..i] + [trees[i]];
    assert Flatten([trees[i]]) == FlattenTree(trees[i]);
  }

  method Walk(node: SpanNode, out: seq<SpanNode>, ghost t: Tree, ghost repr: set<SpanNode>) returns (r: seq<SpanNode>)
    requires Shows(node, t, repr)
    ensures RowsAt(r) == RowsAt(out) + FlattenTree(t)
    decreases t
  {
    r := out + [node];
    RowsAtJoin(out, [node]);
    for i := 0 to |node.children|
      invariant RowsAt(r) == RowsAt(out) + [RowAt(node)] + Flatten(t.children[..i])
    {
      FlattenMore(t.children, i);
      r := Walk(node.children[i], r, t.children[i], repr);
    }
    assert t.children[..|node.children|] == t.children;
  }

  method FlattenRoots(roots: seq<SpanNode>, ghost trees: seq<Tree>, ghost repr: set<SpanNode>) returns (out: seq<SpanNode>)
    requires Shown(roots, trees, repr)
    ensures RowsAt(out) == Flatten(trees)
  {
    out := [];
    for i := 0 to |roots|
      invariant RowsAt(out) == Flatten(trees[..i])
    {
      FlattenMore(trees, i);
      out := Walk(roots[i], out, trees[i], repr);
    }
    assert trees[..|roots|] == trees;
  }
}
