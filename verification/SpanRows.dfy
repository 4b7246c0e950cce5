/** web/lib/trace-tree.ts: flattening the forest for display, and what the rows keep of it. */
module SpanRows {
  import opened Types
  import opened Ordering
  import opened SpanForest

  /** One rendered row. */
  datatype Row = Row(span: Span, depth: nat, orphaned: bool)

  function RowOf(t: Tree): Row {
    Row(t.span, t.depth, t.orphaned)
  }

  /** Depth first, each node before its children. */
  function FlattenTree(t: Tree): seq<Row>
    decreases t, 1
  {
    [RowOf(t)] + Flatten(t.children)
  }

  function Flatten(trees: seq<Tree>): seq<Row>
    decreases trees, 0
  {
    if trees == [] then [] else FlattenTree(trees[0]) + Flatten(trees[1..])
  }

  // ---------------------------------------------------------------- each node once

  /** The rows are those of the given nodes, each node once. */
  ghost predicate Once(m: map<Id, Span>, rows: seq<Row>, ids: set<Id>) {
    && (forall i :: 0 <= i < |rows| ==> rows[i].span.id in ids && Lookup(m, rows[i].span.id) == Some(rows[i].span))
    && (forall x :: x in ids ==> exists i :: 0 <= i < |rows| && rows[i].span.id == x)
    && (forall i, j :: 0 <= i < j < |rows| ==> rows[i].span.id != rows[j].span.id)
  }

  lemma OnceJoin(m: map<Id, Span>, a: seq<Row>, s: set<Id>, b: seq<Row>, t: set<Id>)
    requires Once(m, a, s) && Once(m, b, t) && s !! t
    ensures Once(m, a + b, s + t)
  {
    var rows := a + b;
    forall x | x in s + t ensures exists i :: 0 <= i < |rows| && rows[i].span.id == x {
      if x in s {
        var i :| 0 <= i < |a| && a[i].span.id == x;
        assert rows[i].span.id == x;
      } else {
        var i :| 0 <= i < |b| && b[i].span.id == x;
        assert rows[|a| + i].span.id == x;
      }
    }
  }

  ghost function Subtrees(m: map<Id, Span>, ids: seq<Id>): set<Id> {
    if ids == [] then {} else Subtree(m, ids[0]) + Subtrees(m, ids[1..])
  }

  lemma {:induction false} InSubtrees(m: map<Id, Span>, ids: seq<Id>, x: Id)
    ensures x in Subtrees(m, ids) <==> exists k :: k in ids && x in Subtree(m, k)
    decreases |ids|
  {
    if ids != [] {
      InSubtrees(m, ids[1..], x);
      assert forall k :: k in ids <==> k == ids[0] || k in ids[1..];
    }
  }

  lemma ClimbOn(m: map<Id, Span>, x: Id, a: nat, b: nat)
    requires a <= b && Climb(m, Some(x), a).Some?
    ensures Climb(m, Climb(m, Some(x), a), b - a) == Climb(m, Some(x), b)
  {
    ClimbInParts(m, Some(x), a, b - a);
  }

  /** Two ancestors of one node are ancestors of one another. */
  lemma AncestorsCompare(m: map<Id, Span>, x: Id, k: Id, l: Id)
    requires Reaches(m, x, k) && Reaches(m, x, l)
    ensures Reaches(m, k, l) || Reaches(m, l, k)
  {
    var a: nat :| Climb(m, Some(x), a) == Some(k);
    var b: nat :| Climb(m, Some(x), b) == Some(l);
    if a <= b {
      ClimbOn(m, x, a, b);
    } else {
      ClimbOn(m, x, b, a);
    }
  }

  lemma SiblingsApart(m: map<Id, Span>, id: Id, k: Id, l: Id)
    requires k in Kids(m, id) && l in Kids(m, id) && k != l
    ensures !Reaches(m, k, l)
  {
    if Reaches(m, k, l) {
      var n: nat :| Climb(m, Some(k), n) == Some(l);
      assert n > 0;
      ClimbInParts(m, Some(k), n, 1);
      ClimbInParts(m, Some(k), 1, n);
      assert Climb(m, Some(k), 1) == Climb(m, Some(id), 0) && Climb(m, Some(l), 1) == Climb(m, Some(id), 0);
      LinksAreAcyclic(m, id, n);
    }
  }

  lemma RootsApart(m: map<Id, Span>, r: Id, x: Id)
    requires r in Roots(m) && r != x
    ensures !Reaches(m, r, x)
  {
    forall n: nat ensures Climb(m, Some(r), n) != Some(x) {
      if n > 0 {
        assert Climb(m, Some(r), n) == Climb(m, Link(m, r), n - 1) == None;
      }
    }
  }

  ghost predicate Apart(m: map<Id, Span>, ids: seq<Id>) {
    forall i, j :: 0 <= i < j < |ids| ==> Subtree(m, ids[i]) !! Subtree(m, ids[j])
  }

  lemma UnrelatedAreDisjoint(m: map<Id, Span>, k: Id, l: Id)
    requires !Reaches(m, k, l) && !Reaches(m, l, k)
    ensures Subtree(m, k) !! Subtree(m, l)
  {
    forall x | x in Subtree(m, k) && x in Subtree(m, l) ensures false {
      AncestorsCompare(m, x, k, l);
    }
  }

  lemma KidsApart(m: map<Id, Span>, id: Id, kids: seq<Id>)
    requires IsListing(m, Kids(m, id), kids)
    ensures Apart(m, kids)
  {
    forall i, j | 0 <= i < j < |kids| ensures Subtree(m, kids[i]) !! Subtree(m, kids[j]) {
      ListingDistinct(m, Kids(m, id), kids, i, j);
      SiblingsApart(m, id, kids[i], kids[j]);
      SiblingsApart(m, id, kids[j], kids[i]);
      UnrelatedAreDisjoint(m, kids[i], kids[j]);
    }
  }

  lemma RootListApart(m: map<Id, Span>, roots: seq<Id>)
    requires IsListing(m, Roots(m), roots)
    ensures Apart(m, roots)
  {
    forall i, j | 0 <= i < j < |roots| ensures Subtree(m, roots[i]) !! Subtree(m, roots[j]) {
      ListingDistinct(m, Roots(m), roots, i, j);
      RootsApart(m, roots[i], roots[j]);
      RootsApart(m, roots[j], roots[i]);
      UnrelatedAreDisjoint(m, roots[i], roots[j]);
    }
  }

  lemma ListingDistinct(m: map<Id, Span>, ids: set<Id>, s: seq<Id>, i: nat, j: nat)
    requires ids <= m.Keys && IsListing(m, ids, s) && i < j < |s|
    ensures s[i] in ids && s[j] in ids && s[i] != s[j] && Below(RankIn(m, s[i]), RankIn(m, s[j]))
  {
    assert s[i] in s && s[j] in s;
  }

  /** A node's subtree is the node itself and the subtrees of its children. */
  lemma SubtreeSplits(m: map<Id, Span>, id: Id, kids: seq<Id>)
    requires id in m && IsListing(m, Kids(m, id), kids)
    ensures Subtree(m, id) == {id} + Subtrees(m, kids) && id !in Subtrees(m, kids)
  {
    KidsAreSmaller(m, id, kids);
    SelfReaches(m, id);
    forall x ensures x in Subtree(m, id) <==> x == id || x in Subtrees(m, kids) {
      InSubtrees(m, kids, x);
      if x in Subtree(m, id) && x != id {
        var k := LastStep(m, x, id);
        assert k in kids && x in Subtree(m, k);
      }
      if x in Subtrees(m, kids) {
        var k :| k in kids && x in Subtree(m, k);
        KidIsSmaller(m, id, k);
      }
    }
    InSubtrees(m, kids, id);
    if id in Subtrees(m, kids) {
      var k :| k in kids && id in Subtree(m, k);
      NotBelowChild(m, id, k);
    }
  }

  lemma NotBelowChild(m: map<Id, Span>, id: Id, k: Id)
    requires id in m && k in Kids(m, id)
    ensures id !in Subtree(m, k)
  {
    forall n: nat ensures Climb(m, Some(id), n) != Some(k) {
      ClimbInParts(m, Some(id), n, 1);
      assert Climb(m, Some(k), 1) == Climb(m, Link(m, k), 0);
      LinksAreAcyclic(m, id, n + 1);
    }
  }

  lemma LastStep(m: map<Id, Span>, x: Id, id: Id) returns (k: Id)
    requires x in m && Reaches(m, x, id) && x != id
    ensures k in Kids(m, id) && Reaches(m, x, k)
  {
    var n: nat :| Climb(m, Some(x), n) == Some(id);
    assert n > 0;
    ClimbInParts(m, Some(x), n - 1, 1);
    k := Climb(m, Some(x), n - 1).value;
    assert Climb(m, Some(k), 1) == Climb(m, Link(m, k), 0);
  }

  /** Every node climbs to a root. */
  lemma {:induction false} ClimbsToRoot(m: map<Id, Span>, x: Id, n: nat) returns (r: Id)
    requires x in m && (ChainEnds(m, x) ==> Up(m, Some(x), n).None?)
    ensures r in Roots(m) && Reaches(m, x, r)
    decreases n
  {
    if Attached(m, x) {
      var parent := m[x].parent.value;
      ParentChainEnds(m, x);
      assert Up(m, Some(x), n) == Up(m, Some(parent), n - 1);
      r := ClimbsToRoot(m, parent, n - 1);
      assert x in Kids(m, parent);
      KidReaches(m, parent, x);
      ReachesThrough(m, x, parent, r);
    } else {
      r := x;
      SelfReaches(m, x);
    }
  }

  lemma RootsCoverAll(m: map<Id, Span>, roots: seq<Id>)
    requires IsListing(m, Roots(m), roots)
    ensures Subtrees(m, roots) == m.Keys
  {
    forall x ensures x in Subtrees(m, roots) <==> x in m {
      InSubtrees(m, roots, x);
      if x in m {
        var n: nat := 0;
        if ChainEnds(m, x) {
          n :| Up(m, Some(x), n).None?;
        }
        var r := ClimbsToRoot(m, x, n);
        assert r in roots && x in Subtree(m, r);
      }
    }
  }

  lemma {:induction false} FewerElements(a: set<Id>, b: set<Id>)
    requires a < b
    ensures |a| < |b|
    decreases |a|
  {
    var x :| x in b && x !in a;
    FitsIn(a, b - {x});
  }

  lemma {:induction false} FitsIn(a: set<Id>, b: set<Id>)
    requires a <= b
    ensures |a| <= |b|
    decreases |a|
  {
    if a != {} {
      var x :| x in a;
      FitsIn(a - {x}, b - {x});
    }
  }

  ghost predicate AreTreesOf(m: map<Id, Span>, trees: seq<Tree>, ids: seq<Id>, depth: nat) {
    |trees| == |ids| && forall i :: 0 <= i < |ids| ==> ids[i] in m && trees[i] == TreeOf(m, ids[i], depth)
  }

  lemma {:induction false} TreeOnce(m: map<Id, Span>, id: Id, depth: nat)
    requires id in m && Keyed(m)
    ensures Once(m, FlattenTree(TreeOf(m, id, depth)), Subtree(m, id))
    decreases |Subtree(m, id)|, 1, 0
  {
    var t, kids := TreeOf(m, id, depth), Listing(m, Kids(m, id));
    KidsAreSmaller(m, id, kids);
    forall i | 0 <= i < |kids| ensures |Subtree(m, kids[i])| < |Subtree(m, id)| {
      FewerElements(Subtree(m, kids[i]), Subtree(m, id));
    }
    KidsApart(m, id, kids);
    TreesOnce(m, t.children, kids, depth + 1, |Subtree(m, id)|);
    SubtreeSplits(m, id, kids);
    OwnRowOnce(m, id, t);
    OnceJoin(m, [RowOf(t)], {id}, Flatten(t.children), Subtrees(m, kids));
  }

  lemma OwnRowOnce(m: map<Id, Span>, id: Id, t: Tree)
    requires id in m && t.span == m[id] && m[id].id == id
    ensures Once(m, [RowOf(t)], {id})
  {
    assert [RowOf(t)][0].span.id == id;
  }

  lemma {:induction false} TreesOnce(m: map<Id, Span>, trees: seq<Tree>, ids: seq<Id>, depth: nat, size: nat)
    requires Keyed(m) && AreTreesOf(m, trees, ids, depth) && Apart(m, ids)
    requires forall i :: 0 <= i < |ids| ==> |Subtree(m, ids[i])| < size
    ensures Once(m, Flatten(trees), Subtrees(m, ids))
    decreases size, 0, |ids|
  {
    if ids != [] {
      TreeOnce(m, ids[0], depth);
      TreesOnce(m, trees[1..], ids[1..], depth, size);
      forall x ensures !(x in Subtree(m, ids[0]) && x in Subtrees(m, ids[1..])) {
        InSubtrees(m, ids[1..], x);
        if k :| k in ids[1..] && x in Subtree(m, k) {
          var j :| 0 <= j < |ids[1..]| && ids[1..][j] == k;
          var n := j + 1;
          assert ids[n] == k && Subtree(m, ids[0]) !! Subtree(m, ids[n]);
        }
      }
      OnceJoin(m, FlattenTree(trees[0]), Subtree(m, ids[0]), Flatten(trees[1..]), Subtrees(m, ids[1..]));
    }
  }

  /** A nodes map keyed by the spans' own ids, as the builder makes it. */
  ghost predicate Keyed(m: map<Id, Span>) {
    forall id :: id in m ==> m[id].id == id
  }

  /** Flattening the forest yields every distinct id exactly once, with its first occurrence's data. */
  lemma ForestOnce(m: map<Id, Span>)
    requires Keyed(m)
    ensures Once(m, Flatten(Forest(m)), m.Keys)
  {
    var roots := Listing(m, Roots(m));
    assert forall i :: 0 <= i < |roots| ==> roots[i] in roots;
    forall i | 0 <= i < |roots| ensures |Subtree(m, roots[i])| < |m.Keys| + 1 {
      FitsIn(Subtree(m, roots[i]), m.Keys);
    }
    RootListApart(m, roots);
    RootsCoverAll(m, roots);
    TreesOnce(m, Forest(m), roots, 0, |m.Keys| + 1);
  }

  // ---------------------------------------------------------------- where each row stands

  /** Trees that hang where the parent pointers say: under the given node, or as roots when there is none. */
  ghost predicate Grown(m: map<Id, Span>, trees: seq<Tree>, above: Option<Id>, depth: nat)
    decreases trees
  {
    trees == [] ||
    var t := trees[0];
    && t.depth == depth
    && Hangs(m, t.span, above)
    && (t.orphaned <==> Orphaned(m, t.span.id))
    && Grown(m, t.children, Some(t.span.id), depth + 1)
    && Grown(m, trees[1..], above, depth)
  }

  ghost predicate Hangs(m: map<Id, Span>, s: Span, above: Option<Id>) {
    s.id in m && if above.None? then !Attached(m, s.id) else Attached(m, s.id) && s.parent == above
  }

  lemma {:induction false} TreesAreGrown(m: map<Id, Span>, trees: seq<Tree>, ids: seq<Id>, above: Option<Id>, depth: nat)
    requires Keyed(m) && AreTreesOf(m, trees, ids, depth)
    requires forall i :: 0 <= i < |ids| ==> Hangs(m, m[ids[i]], above)
    ensures Grown(m, trees, above, depth)
    decreases trees
  {
    if trees != [] {
      var t, kids := trees[0], Listing(m, Kids(m, ids[0]));
      KidsAreSmaller(m, ids[0], kids);
      TreesAreGrown(m, t.children, kids, Some(ids[0]), depth + 1);
      TreesAreGrown(m, trees[1..], ids[1..], above, depth);
    }
  }

  lemma ForestIsGrown(m: map<Id, Span>)
    requires Keyed(m)
    ensures Grown(m, Forest(m), None, 0)
  {
    var roots := Listing(m, Roots(m));
    assert forall i :: 0 <= i < |roots| ==> roots[i] in roots;
    TreesAreGrown(m, Forest(m), roots, None, 0);
  }

  /** Row j is the nearest row above row i that is one level up, and it is the parent row i names. */
  ghost predicate HangsUnder(rows: seq<Row>, i: int, j: int) {
    && 0 <= j < i < |rows|
    && rows[j].depth + 1 == rows[i].depth
    && rows[i].span.parent == Some(rows[j].span.id)
    && forall k :: j < k < i ==> rows[k].depth >= rows[i].depth
  }

  ghost predicate Placed(m: map<Id, Span>, rows: seq<Row>, i: int, above: Option<Id>, depth: nat)
    requires 0 <= i < |rows|
  {
    && rows[i].depth >= depth
    && (rows[i].orphaned <==> Orphaned(m, rows[i].span.id))
    && (rows[i].depth == depth ==> Hangs(m, rows[i].span, above))
    && (rows[i].depth > depth ==> Attached(m, rows[i].span.id) && exists j :: HangsUnder(rows, i, j))
  }

  lemma PlacedLater(m: map<Id, Span>, a: seq<Row>, b: seq<Row>, i: nat, above: Option<Id>, depth: nat)
    requires i < |b| && Placed(m, b, i, above, depth)
    ensures Placed(m, a + b, |a| + i, above, depth)
  {
    if b[i].depth > depth {
      var j :| HangsUnder(b, i, j);
      assert HangsUnder(a + b, |a| + i, |a| + j);
    }
  }

  lemma PlacedEarlier(m: map<Id, Span>, a: seq<Row>, b: seq<Row>, i: nat, above: Option<Id>, depth: nat)
    requires i < |a| && Placed(m, a, i, above, depth)
    ensures Placed(m, a + b, i, above, depth)
  {
    if a[i].depth > depth {
      var j :| HangsUnder(a, i, j);
      assert HangsUnder(a + b, i, j);
    }
  }

  lemma PlacedBelow(m: map<Id, Span>, head: Row, a: seq<Row>, i: nat, above: Option<Id>)
    requires forall k :: 0 <= k < |a| ==> a[k].depth > head.depth
    requires i < |a| && Placed(m, a, i, Some(head.span.id), head.depth + 1)
    ensures Placed(m, [head] + a, 1 + i, above, head.depth)
  {
    var rows := [head] + a;
    if a[i].depth > head.depth + 1 {
      PlacedLater(m, [head], a, i, Some(head.span.id), head.depth + 1);
    } else {
      assert HangsUnder(rows, 1 + i, 0);
    }
  }

  lemma {:induction false} RowsArePlaced(m: map<Id, Span>, trees: seq<Tree>, above: Option<Id>, depth: nat)
    requires Grown(m, trees, above, depth)
    ensures forall i :: 0 <= i < |Flatten(trees)| ==> Placed(m, Flatten(trees), i, above, depth)
    ensures forall i :: 0 <= i < |Flatten(trees)| ==> Flatten(trees)[i].depth >= depth
    decreases trees
  {
    if trees != [] {
      var t := trees[0];
      var head, a, b := RowOf(t), Flatten(t.children), Flatten(trees[1..]);
      var rows := [head] + a + b;
      assert Flatten(trees) == rows;
      RowsArePlaced(m, t.children, Some(t.span.id), depth + 1);
      RowsArePlaced(m, trees[1..], above, depth);
      forall i | 0 <= i < |rows| ensures Placed(m, rows, i, above, depth) {
        if i == 0 {
          assert rows[0] == head;
        } else if i <= |a| {
          PlacedBelow(m, head, a, i - 1, above);
          PlacedEarlier(m, [head] + a, b, i, above, depth);
        } else {
          PlacedLater(m, [head] + a, b, i - 1 - |a|, above, depth);
        }
      }
    }
  }

  /** In the rendered rows a span is at the top exactly when it is not attached; otherwise the nearest row one
      level up is the parent it names. It is flagged exactly when it names a parent but stands at the top. */
  lemma RowsTellTheForest(m: map<Id, Span>, i: nat)
    requires Keyed(m) && i < |Flatten(Forest(m))|
    ensures
      var rows := Flatten(Forest(m));
      var row := rows[i];
      && row.span.id in m && m[row.span.id] == row.span
      && (Attached(m, row.span.id) <==> row.depth > 0)
      && (row.depth > 0 ==> exists j :: HangsUnder(rows, i, j))
      && (row.orphaned <==> row.span.parent.Some? && row.depth == 0)
  {
    ForestIsGrown(m);
    RowsArePlaced(m, Forest(m), None, 0);
    ForestOnce(m);
    var rows := Flatten(Forest(m));
    assert Placed(m, rows, i, None, 0) && Lookup(m, rows[i].span.id) == Some(rows[i].span);
  }

  // ---------------------------------------------------------------- nothing is lost

  /** The rows right after the first that lie deeper than it. */
  function Deeper(rows: seq<Row>, depth: nat): (n: nat)
    ensures n <= |rows|
    ensures forall k :: 0 <= k < n ==> rows[k].depth > depth
    ensures n < |rows| ==> rows[n].depth <= depth
  {
    if rows == [] || rows[0].depth <= depth then 0 else 1 + Deeper(rows[1..], depth)
  }

  /** The forest read back from the order and the depths of the rows. */
  function Rebuild(rows: seq<Row>): seq<Tree>
    decreases |rows|
  {
    if rows == [] then []
    else
      var n := Deeper(rows[1..], rows[0].depth);
      [Tree(rows[0].span, rows[0].depth, rows[0].orphaned, Rebuild(rows[1..][..n]))] + Rebuild(rows[1..][n..])
  }

  /** Every tree of the list stands at the given depth, its children one deeper, and so on down. */
  predicate Leveled(trees: seq<Tree>, depth: nat)
    decreases trees
  {
    trees == [] || (trees[0].depth == depth && Leveled(trees[0].children, depth + 1) && Leveled(trees[1..], depth))
  }

  lemma {:induction false} RowsReach(trees: seq<Tree>, depth: nat)
    requires Leveled(trees, depth)
    ensures forall i :: 0 <= i < |Flatten(trees)| ==> Flatten(trees)[i].depth >= depth
    ensures Flatten(trees) != [] ==> Flatten(trees)[0].depth == depth
    decreases trees
  {
    if trees != [] {
      RowsReach(trees[0].children, depth + 1);
      RowsReach(trees[1..], depth);
    }
  }

  lemma {:induction false} DeeperSplits(a: seq<Row>, b: seq<Row>, depth: nat)
    requires forall k :: 0 <= k < |a| ==> a[k].depth > depth
    requires b != [] ==> b[0].depth <= depth
    ensures Deeper(a + b, depth) == |a|
    decreases |a|
  {
    if a == [] {
      assert a + b == b;
    } else {
      DeeperSplits(a[1..], b, depth);
      assert (a + b)[1..] == a[1..] + b;
    }
  }

  lemma RebuildStep(row: Row, a: seq<Row>, b: seq<Row>)
    requires forall k :: 0 <= k < |a| ==> a[k].depth > row.depth
    requires b != [] ==> b[0].depth <= row.depth
    ensures Rebuild([row] + a + b) == [Tree(row.span, row.depth, row.orphaned, Rebuild(a))] + Rebuild(b)
  {
    DeeperSplits(a, b, row.depth);
    var rows := [row] + a + b;
    assert rows[1..] == a + b && (a + b)[..|a|] == a && (a + b)[|a|..] == b;
  }

  /** Rows with their depths determine the forest. */
  lemma {:induction false} RebuildUndoesFlatten(trees: seq<Tree>, depth: nat)
    requires Leveled(trees, depth)
    ensures Rebuild(Flatten(trees)) == trees
    decreases trees
  {
    if trees != [] {
      var t := trees[0];
      var a, b := Flatten(t.children), Flatten(trees[1..]);
      RowsReach(t.children, depth + 1);
      RowsReach(trees[1..], depth);
      RebuildStep(RowOf(t), a, b);
      RebuildUndoesFlatten(t.children, depth + 1);
      RebuildUndoesFlatten(trees[1..], depth);
      assert Flatten(trees) == [RowOf(t)] + a + b;
    }
  }

  lemma {:induction false} GrownIsLeveled(m: map<Id, Span>, trees: seq<Tree>, above: Option<Id>, depth: nat)
    requires Grown(m, trees, above, depth)
    ensures Leveled(trees, depth)
    decreases trees
  {
    if trees != [] {
      GrownIsLeveled(m, trees[0].children, Some(trees[0].span.id), depth + 1);
      GrownIsLeveled(m, trees[1..], above, depth);
    }
  }

  lemma ForestSurvivesFlattening(m: map<Id, Span>)
    requires Keyed(m)
    ensures Rebuild(Flatten(Forest(m))) == Forest(m)
  {
    ForestIsGrown(m);
    GrownIsLeveled(m, Forest(m), None, 0);
    RebuildUndoesFlatten(Forest(m), 0);
  }

  /** Row k is the first after row i that is not deeper than it. */
  ghost predicate BlockEnds(rows: seq<Row>, i: int, k: int) {
    && 0 <= i < k <= |rows|
    && (forall j :: i < j < k ==> rows[j].depth > rows[i].depth)
    && (k < |rows| ==> rows[k].depth <= rows[i].depth)
  }

  /** The rows around the block of a tree. */
  ghost predicate Around(rows: seq<Row>, pre: seq<Row>, t: Tree, post: seq<Row>) {
    rows == pre + FlattenTree(t) + post && (post != [] ==> post[0].depth <= t.depth)
  }

  lemma AroundLater(a: seq<Row>, b: seq<Row>, pre: seq<Row>, t: Tree, post: seq<Row>)
    requires Around(b, pre, t, post)
    ensures Around(a + b, a + pre, t, post)
  {
    assert a + (pre + FlattenTree(t) + post) == (a + pre) + FlattenTree(t) + post;
  }

  lemma AroundEarlier(a: seq<Row>, b: seq<Row>, pre: seq<Row>, t: Tree, post: seq<Row>)
    requires Around(a, pre, t, post)
    requires b != [] ==> b[0].depth <= t.depth
    ensures Around(a + b, pre, t, post + b)
  {
    assert (pre + FlattenTree(t) + post) + b == pre + FlattenTree(t) + (post + b);
  }

  lemma FlattenSplits(trees: seq<Tree>)
    requires trees != []
    ensures Flatten(trees) == ([RowOf(trees[0])] + Flatten(trees[0].children)) + Flatten(trees[1..])
  {
  }

  /** t stands somewhere in the list of trees. */
  ghost predicate Within(t: Tree, trees: seq<Tree>)
    decreases trees
  {
    trees != [] && (t == trees[0] || Within(t, trees[0].children) || Within(t, trees[1..]))
  }

  lemma {:induction false} BlockAt(trees: seq<Tree>, depth: nat, i: nat) returns (pre: seq<Row>, t: Tree, post: seq<Row>)
    requires Leveled(trees, depth) && i < |Flatten(trees)|
    ensures Within(t, trees) && t.depth >= depth
    ensures |pre| == i && Around(Flatten(trees), pre, t, post)
    decreases trees
  {
    var first := trees[0];
    RowsReach(trees[1..], depth);
    FlattenSplits(trees);
    var head, a, b := [RowOf(first)], Flatten(first.children), Flatten(trees[1..]);
    if i == 0 {
      pre, t, post := [], first, b;
    } else if i <= |a| {
      pre, t, post := BlockAt(first.children, depth + 1, i - 1);
      AroundLater(head, a, pre, t, post);
      AroundEarlier(head + a, b, head + pre, t, post);
      pre, post := head + pre, post + b;
    } else {
      pre, t, post := BlockAt(trees[1..], depth, i - 1 - |a|);
      AroundLater(head + a, b, pre, t, post);
      pre := head + a + pre;
    }
  }

  lemma {:induction false} WithinIsLeveled(trees: seq<Tree>, depth: nat, t: Tree)
    requires Leveled(trees, depth) && Within(t, trees)
    ensures Leveled(t.children, t.depth + 1)
    decreases trees
  {
    if t != trees[0] {
      if Within(t, trees[0].children) {
        WithinIsLeveled(trees[0].children, depth + 1, t);
      } else {
        WithinIsLeveled(trees[1..], depth, t);
      }
    }
  }

  lemma AroundEnds(rows: seq<Row>, pre: seq<Row>, t: Tree, post: seq<Row>, k: nat)
    requires Around(rows, pre, t, post) && Leveled(t.children, t.depth + 1) && BlockEnds(rows, |pre|, k)
    ensures rows[|pre|] == RowOf(t) && rows[|pre|..k] == FlattenTree(t)
  {
    RowsReach(t.children, t.depth + 1);
    var end := |pre| + |FlattenTree(t)|;
    assert forall j :: |pre| <= j < end ==> rows[j] == FlattenTree(t)[j - |pre|];
    assert forall j :: end <= j < |rows| ==> rows[j] == post[j - end];
    assert BlockEnds(rows, |pre|, end);
    assert end == k;
  }

  lemma ChildrenAre(m: map<Id, Span>, id: Id, depth: nat, kids: seq<Id>)
    requires id in m && kids == Listing(m, Kids(m, id))
    ensures AreTreesOf(m, TreeOf(m, id, depth).children, kids, depth + 1)
  {
    KidsAreSmaller(m, id, kids);
  }

  lemma {:induction false} WithinIsTreeOf(m: map<Id, Span>, trees: seq<Tree>, ids: seq<Id>, depth: nat, t: Tree)
    requires Keyed(m) && AreTreesOf(m, trees, ids, depth) && Within(t, trees)
    ensures t.span.id in m && t == TreeOf(m, t.span.id, t.depth)
    decreases trees
  {
    var first, kids := trees[0], Listing(m, Kids(m, ids[0]));
    if t != first {
      if Within(t, first.children) {
        ChildrenAre(m, ids[0], depth, kids);
        WithinIsTreeOf(m, first.children, kids, depth + 1, t);
      } else {
        WithinIsTreeOf(m, trees[1..], ids[1..], depth, t);
      }
    }
  }

  /** The rows from a span down to the next row that is not deeper are its subtree: every span at or below it,
      each once, and nothing else. */
  lemma SubtreeIsOneBlock(m: map<Id, Span>, i: nat, k: nat)
    requires Keyed(m) && BlockEnds(Flatten(Forest(m)), i, k)
    ensures Once(m, Flatten(Forest(m))[i..k], Subtree(m, Flatten(Forest(m))[i].span.id))
  {
    var roots := Listing(m, Roots(m));
    assert forall i :: 0 <= i < |roots| ==> roots[i] in roots;
    ForestIsGrown(m);
    GrownIsLeveled(m, Forest(m), None, 0);
    var pre, t, post := BlockAt(Forest(m), 0, i);
    WithinIsTreeOf(m, Forest(m), roots, 0, t);
    WithinIsLeveled(Forest(m), 0, t);
    AroundEnds(Flatten(Forest(m)), pre, t, post, k);
    TreeOnce(m, t.span.id, t.depth);
  }

  // ---------------------------------------------------------------- siblings in order

  /** Siblings, and the roots among themselves, stand strictly by start time and then id, at every level. */
  ghost predicate Ordered(m: map<Id, Span>, trees: seq<Tree>)
    decreases trees
  {
    trees == [] ||
    var t := trees[0];
    && t.span.id in m
    && (forall j :: 0 < j < |trees| ==>
          trees[j].span.id in m && Below(RankIn(m, t.span.id), RankIn(m, trees[j].span.id)))
    && Ordered(m, t.children)
    && Ordered(m, trees[1..])
  }

  lemma {:induction false} TreesAreOrdered(m: map<Id, Span>, trees: seq<Tree>, ids: seq<Id>, depth: nat)
    requires Keyed(m) && AreTreesOf(m, trees, ids, depth)
    requires forall i, j :: 0 <= i < j < |ids| ==> Below(RankIn(m, ids[i]), RankIn(m, ids[j]))
    ensures Ordered(m, trees)
    decreases trees
  {
    if trees != [] {
      var kids := Listing(m, Kids(m, ids[0]));
      KidsAreSmaller(m, ids[0], kids);
      TreesAreOrdered(m, trees[0].children, kids, depth + 1);
      TreesAreOrdered(m, trees[1..], ids[1..], depth);
    }
  }

  lemma ForestIsOrdered(m: map<Id, Span>)
    requires Keyed(m)
    ensures Ordered(m, Forest(m))
  {
    var roots := Listing(m, Roots(m));
    assert forall i :: 0 <= i < |roots| ==> roots[i] in roots;
    TreesAreOrdered(m, Forest(m), roots, 0);
  }

  // ---------------------------------------------------------------- how many rows

  lemma {:induction false} OnceCounts(m: map<Id, Span>, rows: seq<Row>, ids: set<Id>)
    requires Once(m, rows, ids)
    ensures |rows| == |ids|
    decreases |rows|
  {
    if rows == [] {
      assert ids == {};
    } else {
      var id := rows[0].span.id;
      OnceTail(m, rows, ids);
      OnceCounts(m, rows[1..], ids - {id});
    }
  }

  lemma OnceTail(m: map<Id, Span>, rows: seq<Row>, ids: set<Id>)
    requires Once(m, rows, ids) && rows != []
    ensures rows[0].span.id in ids && Once(m, rows[1..], ids - {rows[0].span.id})
  {
    var id, tail := rows[0].span.id, rows[1..];
    forall x | x in ids - {id} ensures exists i :: 0 <= i < |tail| && tail[i].span.id == x {
      var i :| 0 <= i < |rows| && rows[i].span.id == x;
      assert tail[i - 1].span.id == x;
    }
  }

  lemma RepeatMeansNotDistinct(init: seq<Span>, last: Span)
    requires last.id in FirstOccurrences(init)
    ensures !DistinctIds(init + [last])
  {
    HoldsFirst(init, last.id);
    var s := FirstOccurrences(init)[last.id];
    assert FirstWith(init, last.id, Some(s));
    var i :| 0 <= i < |init| && init[i] == s;
    var all := init + [last];
    assert all[i].id == all[|init|].id;
  }

  lemma NewMeansDistinct(init: seq<Span>, last: Span)
    requires last.id !in FirstOccurrences(init)
    ensures DistinctIds(init + [last]) <==> DistinctIds(init)
  {
    HoldsFirst(init, last.id);
    assert FirstWith(init, last.id, None);
    var all := init + [last];
    assert forall i :: 0 <= i < |init| ==> all[i] == init[i];
  }

  /** How many distinct ids the list carries. */
  lemma {:induction false} FirstOccurrencesCount(spans: seq<Span>)
    ensures |FirstOccurrences(spans).Keys| <= |spans|
    ensures |FirstOccurrences(spans).Keys| == |spans| <==> DistinctIds(spans)
    decreases |spans|
  {
    if spans != [] {
      var init, last := spans[..|spans| - 1], spans[|spans| - 1];
      var before := FirstOccurrences(init);
      FirstOccurrencesCount(init);
      assert spans == init + [last];
      if last.id in before {
        RepeatMeansNotDistinct(init, last);
      } else {
        assert FirstOccurrences(spans).Keys == before.Keys + {last.id};
        NewMeansDistinct(init, last);
      }
    }
  }

  lemma {:induction false} FirstOccurrencesKeyed(spans: seq<Span>)
    ensures Keyed(FirstOccurrences(spans))
    decreases |spans|
  {
    if spans != [] {
      FirstOccurrencesKeyed(spans[..|spans| - 1]);
    }
  }

  /** The tree never shows more rows than there are observations, and shows as many exactly when no id repeats. */
  lemma RowsFallShortExactlyOnRepeats(spans: seq<Span>)
    ensures |Flatten(Forest(FirstOccurrences(spans)))| <= |spans|
    ensures |Flatten(Forest(FirstOccurrences(spans)))| == |spans| <==> DistinctIds(spans)
  {
    var m := FirstOccurrences(spans);
    FirstOccurrencesKeyed(spans);
    ForestOnce(m);
    OnceCounts(m, Flatten(Forest(m)), m.Keys);
    FirstOccurrencesCount(spans);
  }

  // ---------------------------------------------------------------- what the flag means

  /** A flagged node's parent may well be in the list: it is there exactly when the chain of parents never ends. */
  lemma FlaggedThoughParentPresentIff(m: map<Id, Span>, id: Id)
    requires Orphaned(m, id)
    ensures m[id].parent.value in m <==> !ChainEnds(m, id)
  {
    var parent := m[id].parent.value;
    assert Up(m, Some(id), 2) == Up(m, Some(parent), 1) == Up(m, Named(m, parent), 0);
    if parent !in m {
      assert Up(m, Some(id), 2).None?;
    }
  }

  /** The same, read off a rendered row. */
  lemma FlaggedRowSays(m: map<Id, Span>, i: nat)
    requires Keyed(m) && i < |Flatten(Forest(m))| && Flatten(Forest(m))[i].orphaned
    ensures
      var span := Flatten(Forest(m))[i].span;
      span.parent.Some? && (span.parent.value in m <==> !ChainEnds(m, span.id))
  {
    RowsTellTheForest(m, i);
    FlaggedThoughParentPresentIff(m, Flatten(Forest(m))[i].span.id);
  }

  const EACH_OTHER: seq<Span> := [Span(1, Some(2), 0, ""), Span(2, Some(1), 0, "")]

  /** Two spans that name each other are both flagged, with both parents in the list. */
  lemma CycleIsFlagged()
    ensures var m := FirstOccurrences(EACH_OTHER);
            forall id: Id :: id == 1 || id == 2 ==> Orphaned(m, id) && m[id].parent.value in m
  {
    var m := FirstOccurrences(EACH_OTHER);
    var first := EACH_OTHER[..1];
    assert first[..0] == [] && first[0] == Span(1, Some(2), 0, "");
    assert FirstOccurrences(first) == map[1 := Span(1, Some(2), 0, "")];
    assert m == map[1 := Span(1, Some(2), 0, ""), 2 := Span(2, Some(1), 0, "")];
    assert Up(m, Some(1), 2) == Up(m, Some(2), 1) == Up(m, Some(1), 0);
    assert Up(m, Some(2), 2) == Up(m, Some(1), 1) == Up(m, Some(2), 0);
    RevisitNeverEnds(m, 1, 0, 2);
    RevisitNeverEnds(m, 2, 0, 2);
  }
}
