/** OFFSET/LIMIT paging over a fixed row order, the page count of schemas/base.py, and the two orders of
    filtering and paging used by the list endpoints. */
module Paging {

  function Min(a: nat, b: nat): nat { if a <= b then a else b }

  /** OFFSET skip LIMIT limit, and Python's `rows[skip : skip + limit]`. */
  function Page<T>(rows: seq<T>, skip: nat, limit: nat): seq<T> {
    rows[Min(skip, |rows|)..Min(skip + limit, |rows|)]
  }

  /** The concatenation of pages 1 to k, where `read(skip)` is the page a request gets. */
  function Pages<T>(read: nat -> seq<T>, limit: nat, k: nat): seq<T> {
    if k == 0 then [] else Pages(read, limit, k - 1) + read((k - 1) * limit)
  }

  /** `PageResponse.pages`. */
  function PageCount(total: nat, size: nat): nat
    requires 0 < size
  {
    (total + size - 1) / size
  }

  /** The page count is the least number of pages that holds all the rows. */
  lemma {:induction false} PageCountLeast(total: nat, size: nat, k: nat)
    requires 0 < size
    ensures k * size >= total <==> k >= PageCount(total, size)
  {
    var n := PageCount(total, size);
    assert (total + size - 1) == n * size + (total + size - 1) % size;
    if k >= n {
      assert k * size >= n * size by { TimesMonotone(n, k, size); }
    } else {
      assert (k + 1) * size <= n * size by { TimesMonotone(k + 1, n, size); }
      assert (k + 1) * size == k * size + size;
    }
  }

  lemma TimesMonotone(a: nat, b: nat, size: nat)
    requires a <= b
    ensures a * size <= b * size
  {}

  /** Reads that page first and filter each page afterwards. */
  ghost predicate ReadsFiltered<T>(read: nat -> seq<T>, keep: T -> bool, rows: seq<T>, limit: nat) {
    forall skip: nat :: read(skip) == Filter(keep, Page(rows, skip, limit))
  }

  ghost predicate ReadsPages<T>(read: nat -> seq<T>, rows: seq<T>, limit: nat) {
    forall skip: nat :: read(skip) == Page(rows, skip, limit)
  }

  lemma NextPage<T>(rows: seq<T>, limit: nat, k: nat)
    requires k > 0
    ensures rows[..Min((k - 1) * limit, |rows|)] + Page(rows, (k - 1) * limit, limit) == rows[..Min(k * limit, |rows|)]
  {}

  lemma {:induction false} PagesArePrefix<T>(read: nat -> seq<T>, rows: seq<T>, limit: nat, k: nat)
    requires ReadsPages(read, rows, limit)
    ensures Pages(read, limit, k) == rows[..Min(k * limit, |rows|)]
  {
    if k > 0 {
      PagesArePrefix(read, rows, limit, k - 1);
      NextPage(rows, limit, k);
    }
  }

  /** Reading pages until the page count is reached gives every row once, in order, and no smaller number
      of pages does. */
  lemma PagesComplete<T>(read: nat -> seq<T>, rows: seq<T>, limit: nat, k: nat)
    requires 0 < limit && ReadsPages(read, rows, limit)
    ensures Pages(read, limit, k) == rows <==> k >= PageCount(|rows|, limit)
  {
    PagesArePrefix(read, rows, limit, k);
    PageCountLeast(|rows|, limit, k);
    assert rows[..|rows|] == rows;
  }

  // ---------- Filtering ----------

  /** A list comprehension with a condition. */
  function Filter<T>(keep: T -> bool, rows: seq<T>): seq<T> {
    if rows == [] then []
    else (if keep(rows[0]) then [rows[0]] else []) + Filter(keep, rows[1..])
  }

  lemma {:induction false} FilterConcat<T>(keep: T -> bool, a: seq<T>, b: seq<T>)
    ensures Filter(keep, a + b) == Filter(keep, a) + Filter(keep, b)
  {
    if a == [] {
      assert a + b == b;
    } else {
      var head := if keep(a[0]) then [a[0]] else [];
      FilterConcat(keep, a[1..], b);
      assert (a + b)[0] == a[0] && (a + b)[1..] == a[1..] + b;
      assert Filter(keep, a + b) == head + Filter(keep, a[1..] + b);
      assert head + (Filter(keep, a[1..]) + Filter(keep, b)) == (head + Filter(keep, a[1..])) + Filter(keep, b);
    }
  }

  // ---------- Page, then filter ----------

  lemma {:induction false} FilteredPagesArePrefix<T>(read: nat -> seq<T>, keep: T -> bool, rows: seq<T>, limit: nat, k: nat)
    requires ReadsFiltered(read, keep, rows, limit)
    ensures Pages(read, limit, k) == Filter(keep, rows[..Min(k * limit, |rows|)])
  {
    if k > 0 {
      FilteredPagesArePrefix(read, keep, rows, limit, k - 1);
      NextPage(rows, limit, k);
      FilterConcat(keep, rows[..Min((k - 1) * limit, |rows|)], Page(rows, (k - 1) * limit, limit));
    }
  }

  /** Filtering each page afterwards loses and repeats nothing: the filtered pages together are the filter
      of the whole list, though a single page may be short. */
  lemma {:induction false} PageThenFilter<T>(read: nat -> seq<T>, keep: T -> bool, rows: seq<T>, limit: nat, k: nat)
    requires 0 < limit && k >= PageCount(|rows|, limit) && ReadsFiltered(read, keep, rows, limit)
    ensures Pages(read, limit, k) == Filter(keep, rows)
  {
    FilteredPagesArePrefix(read, keep, rows, limit, k);
    PageCountLeast(|rows|, limit, k);
    assert rows[..|rows|] == rows;
  }

  // ---------- Fetch at most `cap`, filter, then page ----------

  /** The pages form a prefix of the true filtered list for any number of rows; with enough pages they are
      the whole of it exactly when no row past the cap passes the filter, in particular when there are at
      most `cap` rows. */
  lemma {:induction false} FilterThenPage<T>(read: nat -> seq<T>, keep: T -> bool, rows: seq<T>, cap: nat, limit: nat, k: nat)
    requires 0 < limit && ReadsPages(read, Filter(keep, Page(rows, 0, cap)), limit)
    ensures Pages(read, limit, k) <= Filter(keep, rows)
    ensures k >= PageCount(|Filter(keep, rows)|, limit) ==>
      (Pages(read, limit, k) == Filter(keep, rows) <==> Filter(keep, rows[Min(cap, |rows|)..]) == [])
    ensures |rows| <= cap ==> Filter(keep, rows[Min(cap, |rows|)..]) == []
  {
    var c := Min(cap, |rows|);
    var seen := Filter(keep, rows[..c]);
    assert Page(rows, 0, cap) == rows[..c];
    assert rows == rows[..c] + rows[c..];
    FilterConcat(keep, rows[..c], rows[c..]);
    PagesArePrefix(read, seen, limit, k);
    if k >= PageCount(|Filter(keep, rows)|, limit) {
      PageCountLeast(|Filter(keep, rows)|, limit, k);
      PageCountLeast(|seen|, limit, k);
      PagesComplete(read, seen, limit, k);
    }
  }
}
