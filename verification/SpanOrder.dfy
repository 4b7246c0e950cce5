/** web/lib/trace-tree.ts: the order by start time, which the comparison of whole milliseconds only approximates. */
module SpanOrder {
  import opened Types
  import opened Ordering
  import opened SpanForest
  import opened SpanRows

  /** Start to the microsecond, ties by id: the order the API lists observations in. */
  function StartRank(s: Span): Rank {
    (s.startedAt, s.id)
  }

  /** Siblings, and the roots among themselves, stand strictly by start and then id, at every level. */
  ghost predicate InStartOrder(trees: seq<Tree>)
    decreases trees
  {
    trees == [] ||
    var t := trees[0];
    && (forall j :: 0 < j < |trees| ==> Below(StartRank(t.span), StartRank(trees[j].span)))
    && InStartOrder(t.children)
    && InStartOrder(trees[1..])
  }

  /** Of the given nodes, those that start in one millisecond have their ids in the order of their starts. */
  predicate TiesAgree(m: map<Id, Span>, ids: set<Id>)
    requires ids <= m.Keys
  {
    forall x, y :: x in ids && y in ids && m[x].startedAt / 1000 == m[y].startedAt / 1000 && x < y
      ==> m[x].startedAt <= m[y].startedAt
  }

  ghost predicate ListedByStart(m: map<Id, Span>, s: seq<Id>) {
    forall i, j :: 0 <= i < j < |s| && s[i] in m && s[j] in m ==> Below(StartRank(m[s[i]]), StartRank(m[s[j]]))
  }

  lemma PositionsFollowRanks(m: map<Id, Span>, ids: set<Id>, s: seq<Id>, i: nat, j: nat)
    requires ids <= m.Keys && IsListing(m, ids, s) && i < |s| && j < |s| && s[i] in ids && s[j] in ids
    requires Below(RankIn(m, s[i]), RankIn(m, s[j]))
    ensures i < j
  {
    if j < i {
      ListingDistinct(m, ids, s, j, i);
    }
  }

  lemma ListedIffTiesAgree(m: map<Id, Span>, ids: set<Id>, s: seq<Id>)
    requires Keyed(m) && ids <= m.Keys && IsListing(m, ids, s)
    ensures ListedByStart(m, s) <==> TiesAgree(m, ids)
  {
    if ListedByStart(m, s) {
      forall x, y | x in ids && y in ids && m[x].startedAt / 1000 == m[y].startedAt / 1000 && x < y
        ensures m[x].startedAt <= m[y].startedAt
      {
        var i :| 0 <= i < |s| && s[i] == x;
        var j :| 0 <= j < |s| && s[j] == y;
        PositionsFollowRanks(m, ids, s, i, j);
      }
    }
    if TiesAgree(m, ids) {
      forall i, j | 0 <= i < j < |s| && s[i] in m && s[j] in m ensures Below(StartRank(m[s[i]]), StartRank(m[s[j]])) {
        ListingDistinct(m, ids, s, i, j);
      }
    }
  }

  ghost predicate KidsAgree(m: map<Id, Span>, ids: set<Id>) {
    forall p :: p in ids ==> TiesAgree(m, Kids(m, p))
  }

  lemma {:induction false} TreesIffTiesAgree(m: map<Id, Span>, trees: seq<Tree>, ids: seq<Id>, depth: nat)
    requires Keyed(m) && AreTreesOf(m, trees, ids, depth)
    ensures InStartOrder(trees) <==> ListedByStart(m, ids) && KidsAgree(m, Subtrees(m, ids))
    decreases trees
  {
    if trees != [] {
      var id, kids := ids[0], Listing(m, Kids(m, ids[0]));
      ChildrenAre(m, id, depth, kids);
      TreesIffTiesAgree(m, trees[0].children, kids, depth + 1);
      TreesIffTiesAgree(m, trees[1..], ids[1..], depth);
      ListedIffTiesAgree(m, Kids(m, id), kids);
      SubtreeSplits(m, id, kids);
      HeadAndTail(m, trees, ids, depth);
    }
  }

  lemma HeadAndTail(m: map<Id, Span>, trees: seq<Tree>, ids: seq<Id>, depth: nat)
    requires Keyed(m) && AreTreesOf(m, trees, ids, depth) && trees != []
    ensures ListedByStart(m, ids)
            <==> ListedByStart(m, ids[1..])
                 && forall j :: 0 < j < |trees| ==> Below(StartRank(trees[0].span), StartRank(trees[j].span))
  {
    assert forall j :: 0 < j < |ids| ==> ids[1..][j - 1] == ids[j];
    assert forall j :: 0 <= j < |ids| ==> trees[j].span == m[ids[j]];
  }

  /** The forest stands in the order of start times if and only if, among the roots and among the children of
      every node, no two that start in one millisecond have their ids in the opposite order. */
  lemma ForestInStartOrderIff(m: map<Id, Span>)
    requires Keyed(m)
    ensures InStartOrder(Forest(m)) <==> TiesAgree(m, Roots(m)) && forall p :: p in m ==> TiesAgree(m, Kids(m, p))
  {
    var roots := Listing(m, Roots(m));
    assert forall i :: 0 <= i < |roots| ==> roots[i] in roots;
    TreesIffTiesAgree(m, Forest(m), roots, 0);
    ListedIffTiesAgree(m, Roots(m), roots);
    RootsCoverAll(m, roots);
  }

  const LATER_FIRST: seq<Span> := [Span(9, None, 0, ""), Span(1, None, 1, "")]

  /** Two spans a microsecond apart are shown the later one first when its id is the smaller. */
  lemma MicrosecondsAreIgnored()
    ensures !InStartOrder(Forest(FirstOccurrences(LATER_FIRST)))
  {
    var m := FirstOccurrences(LATER_FIRST);
    var first := LATER_FIRST[..1];
    assert first[..0] == [] && first[0] == Span(9, None, 0, "");
    assert FirstOccurrences(first) == map[9 := Span(9, None, 0, "")];
    assert m == map[9 := Span(9, None, 0, ""), 1 := Span(1, None, 1, "")];
    assert 1 in Roots(m) && 9 in Roots(m);
    ForestInStartOrderIff(m);
  }
}
