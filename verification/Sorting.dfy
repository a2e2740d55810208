/** ORDER BY on one column: what it determines and what it leaves open. */
module Sorting {
  import opened Base

  /** The collation ORDER BY sorts with. */
  ghost predicate TotalOrder(leq: (string, string) -> bool) {
    && (forall a, b :: leq(a, b) || leq(b, a))
    && (forall a, b :: leq(a, b) && leq(b, a) ==> a == b)
    && (forall a, b, c :: leq(a, b) && leq(b, c) ==> leq(a, c))
  }

  /** Each member once, sorted by its key. */
  ghost predicate SortedBy<T>(key: T -> string, leq: (string, string) -> bool, members: set<T>, rows: seq<T>) {
    && Elements(rows) == members
    && NoDuplicates(rows)
    && forall i, j :: 0 <= i < j < |rows| ==> leq(key(rows[i]), key(rows[j]))
  }

  ghost predicate DistinctKeys<T>(key: T -> string, members: set<T>) {
    forall x, y :: x in members && y in members && key(x) == key(y) ==> x == y
  }

  lemma SortedTail<T>(key: T -> string, leq: (string, string) -> bool, members: set<T>, rows: seq<T>)
    requires SortedBy(key, leq, members, rows) && rows != []
    ensures SortedBy(key, leq, members - {rows[0]}, rows[1..])
  {
    var rest := rows[1..];
    assert rows == [rows[0]] + rest;
    forall i | 0 <= i < |rest| ensures rest[i] != rows[0] {
      assert rest[i] == rows[i + 1];
    }
    assert Elements(rest) == members - {rows[0]};
  }

  /** Distinct keys leave no freedom. */
  lemma {:induction false} SortedUnique<T>(key: T -> string, leq: (string, string) -> bool, members: set<T>,
                                           rows: seq<T>, rows': seq<T>)
    requires TotalOrder(leq) && DistinctKeys(key, members)
    requires SortedBy(key, leq, members, rows) && SortedBy(key, leq, members, rows')
    ensures rows == rows'
    decreases |rows|
  {
    DistinctLength(rows);
    DistinctLength(rows');
    if rows != [] {
      var u, v := rows[0], rows'[0];
      assert u in Elements(rows) && v in Elements(rows');
      var i :| 0 <= i < |rows'| && rows'[i] == u;
      var j :| 0 <= j < |rows| && rows[j] == v;
      assert leq(key(v), key(v)) && key(u) == key(v);
      SortedTail(key, leq, members, rows);
      SortedTail(key, leq, members, rows');
      SortedUnique(key, leq, members - {u}, rows[1..], rows'[1..]);
      assert rows == [u] + rows[1..] && rows' == [v] + rows'[1..];
    }
  }

  ghost function Least<T>(key: T -> string, leq: (string, string) -> bool, members: set<T>): (u: T)
    requires TotalOrder(leq) && members != {}
    ensures u in members && forall v :: v in members ==> leq(key(u), key(v))
    decreases |members|
  {
    var v := Pick(members);
    if members == {v} then v
    else
      assert members - {v} != {} by { assert members == members - {v} + {v}; }
      var w := Least(key, leq, members - {v});
      if leq(key(v), key(w)) then v else w
  }

  lemma SortedPrepend<T>(key: T -> string, leq: (string, string) -> bool, members: set<T>, u: T, rest: seq<T>)
    requires u in members && forall v :: v in members ==> leq(key(u), key(v))
    requires SortedBy(key, leq, members - {u}, rest)
    ensures SortedBy(key, leq, members, [u] + rest)
  {
    var rows := [u] + rest;
    forall j | 0 <= j < |rest| ensures rest[j] in members && rest[j] != u {
      assert rest[j] in Elements(rest);
    }
    assert Elements(rows) == Elements(rest) + {u};
    forall j | 1 <= j < |rows| ensures rows[j] == rest[j - 1] {}
  }

  /** A sorted list exists for every set. */
  lemma {:induction false} SortedExists<T>(key: T -> string, leq: (string, string) -> bool, members: set<T>) returns (rows: seq<T>)
    requires TotalOrder(leq)
    ensures SortedBy(key, leq, members, rows)
    decreases |members|
  {
    if members == {} {
      rows := [];
    } else {
      var u := Least(key, leq, members);
      var rest := SortedExists(key, leq, members - {u});
      SortedPrepend(key, leq, members, u, rest);
      rows := [u] + rest;
    }
  }

  /** Two members with the same key can trade places. */
  lemma SortedSwap<T>(key: T -> string, leq: (string, string) -> bool, members: set<T>, rows: seq<T>, i: nat, j: nat)
    requires SortedBy(key, leq, members, rows) && i < j < |rows| && key(rows[i]) == key(rows[j])
    ensures SortedBy(key, leq, members, rows[i := rows[j]][j := rows[i]])
  {
    var swapped := rows[i := rows[j]][j := rows[i]];
    forall x ensures x in rows <==> x in swapped {
      if x in rows {
        var k :| 0 <= k < |rows| && rows[k] == x;
        assert swapped[if k == i then j else if k == j then i else k] == x;
      }
    }
    assert Elements(swapped) == Elements(rows);
    forall k | 0 <= k < |rows| ensures key(swapped[k]) == key(rows[k]) {}
  }

  /** A tie leaves another result. */
  lemma TieLeavesChoice<T>(key: T -> string, leq: (string, string) -> bool, members: set<T>, rows: seq<T>) returns (rows': seq<T>)
    requires SortedBy(key, leq, members, rows) && !DistinctKeys(key, members)
    ensures SortedBy(key, leq, members, rows') && rows' != rows
  {
    var x, y :| x in members && y in members && key(x) == key(y) && x != y;
    assert x in Elements(rows) && y in Elements(rows);
    var i :| 0 <= i < |rows| && rows[i] == x;
    var j :| 0 <= j < |rows| && rows[j] == y;
    var lo, hi := if i < j then i else j, if i < j then j else i;
    SortedSwap(key, leq, members, rows, lo, hi);
    rows' := rows[lo := rows[hi]][hi := rows[lo]];
    assert rows'[lo] != rows[lo];
  }

  /** A query ordered by one column has exactly one result when the column tells its rows apart, and two or more
      results otherwise. */
  lemma SortedDetermined<T(!new)>(key: T -> string, leq: (string, string) -> bool, members: set<T>)
    requires TotalOrder(leq)
    ensures exists rows :: SortedBy(key, leq, members, rows)
    ensures (forall rows, rows' :: SortedBy(key, leq, members, rows) && SortedBy(key, leq, members, rows') ==> rows == rows')
      <==> DistinctKeys(key, members)
  {
    var rows := SortedExists(key, leq, members);
    if DistinctKeys(key, members) {
      forall rows, rows' | SortedBy(key, leq, members, rows) && SortedBy(key, leq, members, rows') ensures rows == rows' {
        SortedUnique(key, leq, members, rows, rows');
      }
    } else {
      var other := TieLeavesChoice(key, leq, members, rows);
    }
  }
}
