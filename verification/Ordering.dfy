/** ORDER BY over two columns: the one strictly sorted listing of a finite set of sort keys. */
module Ordering {

  /** A sort key: a time, then the id that breaks ties. */
  type Rank = (int, int)

  predicate Below(a: Rank, b: Rank) {
    a.0 < b.0 || (a.0 == b.0 && a.1 < b.1)
  }

  predicate SortedUp(s: seq<Rank>) {
    forall i, j :: 0 <= i < j < |s| ==> Below(s[i], s[j])
  }

  ghost predicate Lists(s: seq<Rank>, keys: set<Rank>) {
    SortedUp(s) && forall k :: k in s <==> k in keys
  }

  lemma {:induction false} LeastExists(keys: set<Rank>)
    requires keys != {}
    ensures exists m :: m in keys && forall k :: k in keys ==> k == m || Below(m, k)
    decreases keys
  {
    var x :| x in keys;
    var rest := keys - {x};
    if rest != {} {
      LeastExists(rest);
      var m :| m in rest && forall k :: k in rest ==> k == m || Below(m, k);
      var least := if Below(x, m) then x else m;
      assert forall k :: k in keys ==> k == x || k in rest;
      assert least in keys && forall k :: k in keys ==> k == least || Below(least, k);
    } else {
      assert keys == {x};
    }
  }

  ghost function Ascending(keys: set<Rank>): (s: seq<Rank>)
    ensures Lists(s, keys) && |s| == |keys|
    decreases keys
  {
    if keys == {} then []
    else
      LeastExists(keys);
      var m :| m in keys && forall k :: k in keys ==> k == m || Below(m, k);
      [m] + Ascending(keys - {m})
  }

  /** A set has one sorted listing. */
  lemma {:induction false} OneListing(a: seq<Rank>, b: seq<Rank>, keys: set<Rank>)
    requires Lists(a, keys) && Lists(b, keys)
    ensures a == b
    decreases |a|
  {
    assert forall i :: 0 <= i < |a| ==> a[i] in keys;
    assert forall i :: 0 <= i < |b| ==> b[i] in keys;
    if keys != {} {
      var k :| k in keys;
      assert k in a && k in b;
      assert a[0] in b && b[0] in a;
      assert a[0] == b[0];
      ListsTail(a, keys);
      ListsTail(b, keys);
      OneListing(a[1..], b[1..], keys - {a[0]});
    }
  }

  lemma ListsTail(a: seq<Rank>, keys: set<Rank>)
    requires Lists(a, keys) && a != []
    ensures Lists(a[1..], keys - {a[0]})
  {
    forall k ensures k in a[1..] <==> k in keys && k != a[0] {
      assert k in a <==> k == a[0] || k in a[1..];
      if k in a[1..] {
        var i :| 0 <= i < |a[1..]| && a[1..][i] == k;
        assert Below(a[0], a[i + 1]);
      }
    }
  }

  function Reversed(s: seq<Rank>): (r: seq<Rank>)
    ensures |r| == |s| && forall i :: 0 <= i < |s| ==> r[i] == s[|s| - 1 - i]
  {
    seq(|s|, i requires 0 <= i < |s| => s[|s| - 1 - i])
  }

  predicate SortedDown(s: seq<Rank>) {
    forall i, j :: 0 <= i < j < |s| ==> Below(s[j], s[i])
  }

  ghost predicate ListsDown(s: seq<Rank>, keys: set<Rank>) {
    SortedDown(s) && forall k :: k in s <==> k in keys
  }

  ghost function Descending(keys: set<Rank>): (s: seq<Rank>)
    ensures ListsDown(s, keys) && |s| == |keys|
  {
    var a := Ascending(keys);
    var r := Reversed(a);
    assert forall i :: 0 <= i < |a| ==> a[i] == r[|a| - 1 - i];
    r
  }

  lemma OneListingDown(a: seq<Rank>, b: seq<Rank>, keys: set<Rank>)
    requires ListsDown(a, keys) && ListsDown(b, keys)
    ensures a == b
  {
    var x, y := Reversed(a), Reversed(b);
    assert forall i :: 0 <= i < |a| ==> a[i] == x[|a| - 1 - i];
    assert forall i :: 0 <= i < |b| ==> b[i] == y[|b| - 1 - i];
    OneListing(x, y, keys);
    assert forall i :: 0 <= i < |a| ==> a[i] == b[i];
  }

  ghost function KeysBelow(keys: set<Rank>, cut: Rank): set<Rank> {
    set r | r in keys && Below(r, cut)
  }

  lemma TailIsBelow(all: seq<Rank>, n: nat, r: Rank)
    requires SortedDown(all) && 1 <= n <= |all|
    ensures r in all[n..] <==> r in all && Below(r, all[n - 1])
  {
    if r in all[n..] {
      var i :| 0 <= i < |all[n..]| && all[n..][i] == r;
      assert all[n + i] == r;
    }
    if r in all && Below(r, all[n - 1]) {
      var i :| 0 <= i < |all| && all[i] == r;
      PositionBelow(all, n - 1, i);
      assert all[n..][i - n] == r;
    }
  }

  lemma PositionBelow(all: seq<Rank>, i: nat, j: nat)
    requires SortedDown(all) && i < |all| && j < |all|
    ensures Below(all[j], all[i]) <==> i < j
  {
    if j < i {
      assert Below(all[i], all[j]);
    }
  }

  /** Cutting a descending listing after n rows leaves the descending listing of what lies below the cut. */
  lemma CutListing(all: seq<Rank>, keys: set<Rank>, n: nat)
    requires ListsDown(all, keys) && 1 <= n <= |all|
    ensures ListsDown(all[n..], KeysBelow(keys, all[n - 1]))
  {
    forall r ensures r in all[n..] <==> r in KeysBelow(keys, all[n - 1]) {
      TailIsBelow(all, n, r);
    }
  }
}
