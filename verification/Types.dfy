/** Values shared by every module: instants, ids, nullable columns. */
module Types {

  datatype Option<+T> = None | Some(value: T) {
    function GetOr(default: T): T {
      match this
      case None => default
      case Some(v) => v
    }
  }

  const MICROS_PER_DAY: int := 86_400_000_000

  /** An instant in UTC: microseconds since 0001-01-01T00:00:00, up to the last one of the year 9999. */
  type Time = t: int | 0 <= t < 3_652_059 * 86_400_000_000

  /** A UUID as its 128-bit number, which is also how Postgres orders the type. */
  type Id = n: int | 0 <= n < 0x1_0000_0000_0000_0000_0000_0000_0000_0000

  /** The calendar day an instant falls on, counted from 0001-01-01. */
  function Day(t: int): int {
    t / MICROS_PER_DAY
  }

  /** SQL coalesce of two nullable values. */
  function Coalesce<T>(a: Option<T>, b: Option<T>): Option<T> {
    if a.Some? then a else b
  }

  /** SQL least(), which ignores NULLs. */
  function Least(a: Option<Time>, b: Option<Time>): Option<Time> {
    match (a, b)
    case (None, _) => b
    case (_, None) => a
    case (Some(x), Some(y)) => Some(if x <= y then x else y)
  }

  /** SQL greatest(), which ignores NULLs. */
  function Greatest(a: Option<Time>, b: Option<Time>): Option<Time> {
    match (a, b)
    case (None, _) => b
    case (_, None) => a
    case (Some(x), Some(y)) => Some(if x >= y then x else y)
  }

  /** The value a map holds for a key, if any. */
  function Lookup<K, V>(m: map<K, V>, k: K): Option<V> {
    if k in m then Some(m[k]) else None
  }

  /** row is the first of the list under this key, None when there is none. */
  ghost predicate FirstBy<T, K>(rows: seq<T>, keyOf: T -> K, key: K, row: Option<T>) {
    match row
    case None => forall i :: 0 <= i < |rows| ==> keyOf(rows[i]) != key
    case Some(r) => exists i :: 0 <= i < |rows| && rows[i] == r && keyOf(r) == key
                                && forall j :: 0 <= j < i ==> keyOf(rows[j]) != key
  }

  lemma FirstByStep<T, K>(rows: seq<T>, keyOf: T -> K, key: K, r: Option<T>, x: T)
    requires FirstBy(rows, keyOf, key, r)
    ensures FirstBy(rows + [x], keyOf, key, if r.None? && keyOf(x) == key then Some(x) else r)
  {
    var all := rows + [x];
    assert all[|rows|] == x && forall i :: 0 <= i < |rows| ==> all[i] == rows[i];
    if r.Some? {
      var i :| 0 <= i < |rows| && rows[i] == r.value && forall j :: 0 <= j < i ==> keyOf(rows[j]) != key;
      assert all[i] == r.value;
    }
  }

  /** Two lists with the same rows, in which a key fixes its row, have the same first row under it. */
  lemma FirstOfSameRows<T, K>(a: seq<T>, b: seq<T>, keyOf: T -> K, key: K, r: Option<T>, s: Option<T>)
    requires forall x, y :: x in a && y in a && keyOf(x) == keyOf(y) ==> x == y
    requires forall x :: x in a <==> x in b
    requires FirstBy(a, keyOf, key, r) && FirstBy(b, keyOf, key, s)
    ensures r == s
  {
    assert r.Some? ==> r.value in a && r.value in b;
    assert s.Some? ==> s.value in a && s.value in b;
  }
}
