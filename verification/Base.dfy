/** Small vocabulary shared by every other module. */
module Base {

  datatype Option<+T> = None | Some(value: T)

  /** A field of a partial update: absent, or given (possibly as null). */
  datatype Patch<+T> = Unset | Given(value: T)

  /** How a service call ends: with a value, or with a raised exception. */
  datatype Outcome<+T> = Done(value: T) | Failed(error: Error)

  datatype Error =
    | Conflict        // 409
    | Forbidden       // 403
    | NotFound        // 404
    | BadRequest      // 400
    | Constraint      // an IntegrityError that reaches the caller
    | MissingDefault  // the tenant has no default role
    | ServerError     // 500

  /** `result.scalars().first()` on a query without ORDER BY: None when no row matches, else any
      one of the rows.  Which row is left open. */
  ghost predicate IsFirst<T>(first: Option<T>, rows: set<T>) {
    match first
    case None => rows == {}
    case Some(row) => row in rows
  }

  lemma FirstExists<T>(rows: set<T>)
    ensures exists first :: IsFirst(first, rows)
  {
    if rows == {} {
      assert IsFirst(None, rows);
    } else {
      var row :| row in rows;
      assert IsFirst(Some(row), rows);
    }
  }

  method First<T(==)>(rows: set<T>) returns (first: Option<T>)
    ensures IsFirst(first, rows)
  {
    if rows == {} {
      return None;
    }
    var row :| row in rows;
    return Some(row);
  }

  ghost function Pick<T>(s: set<T>): (x: T)
    requires s != {}
    ensures x in s
  {
    var x :| x in s; x
  }

  ghost predicate NoDuplicates<T>(s: seq<T>) {
    forall i, j :: 0 <= i < j < |s| ==> s[i] != s[j]
  }

  function Elements<T>(s: seq<T>): set<T> {
    set x | x in s
  }

  /** Two finite sets have the same size when a map on the first is injective and covers the second. */
  lemma {:induction false} SameSize<A, B>(f: A -> B, a: set<A>, b: set<B>)
    requires forall x, y :: x in a && y in a && f(x) == f(y) ==> x == y
    requires forall x :: x in a ==> f(x) in b
    requires forall y :: y in b ==> exists x :: x in a && f(x) == y
    ensures |a| == |b|
    decreases |a|
  {
    if a == {} {
      assert b == {};
    } else {
      var x :| x in a;
      var a', b' := a - {x}, b - {f(x)};
      forall y | y in b' ensures exists z :: z in a' && f(z) == y {
        var z :| z in a && f(z) == y;
        assert z in a';
      }
      SameSize(f, a', b');
    }
  }

  /** A subset is never larger. */
  lemma {:induction false} SubsetSize<T>(a: set<T>, b: set<T>)
    requires a <= b
    ensures |a| <= |b|
    ensures |a| == |b| ==> a == b
    decreases |a|
  {
    if a != {} {
      var x :| x in a;
      SubsetSize(a - {x}, b - {x});
      assert a == (a - {x}) + {x} && b == (b - {x}) + {x};
    }
  }

  lemma AtMostOne<T>(a: set<T>)
    requires forall x, y :: x in a && y in a ==> x == y
    ensures |a| <= 1
  {
    if a != {} {
      var x :| x in a;
      SubsetSize(a, {x});
    }
  }

  /** A duplicate-free list has as many positions as elements. */
  lemma {:induction false} DistinctLength<T>(s: seq<T>)
    requires NoDuplicates(s)
    ensures |Elements(s)| == |s|
  {
    if s == [] {
      assert Elements(s) == {};
    } else {
      var rest := s[1..];
      DistinctLength(rest);
      assert Elements(s) == Elements(rest) + {s[0]} by {
        assert s == [s[0]] + rest;
      }
    }
  }
}
