/**
 * The two query shapes the data-access layer issues against a table held in
 * storage order: `query.filter(p).all()` and `query.filter(p).first()`.
 */
module Query {
  import opened Wrappers

  /** `filter(p).all()`: the rows satisfying `p`, kept in storage order. */
  function Select<T(!new)>(rows: seq<T>, p: T -> bool): (r: seq<T>)
    ensures |r| <= |rows|
    ensures forall x :: x in r <==> x in rows && p(x)
  {
    if rows == [] then []
    else (if p(rows[0]) then [rows[0]] else []) + Select(rows[1..], p)
  }

  /** `filter(p).first()`: the earliest row satisfying `p`, if any. */
  function FirstMatch<T(!new)>(rows: seq<T>, p: T -> bool): (r: Option<T>)
    ensures r.None? <==> forall x :: x in rows ==> !p(x)
    ensures r.Some? ==> Select(rows, p) != [] && r.value == Select(rows, p)[0]
  {
    if rows == [] then None
    else if p(rows[0]) then Some(rows[0])
    else FirstMatch(rows[1..], p)
  }

  /** Filtering distributes over concatenation, so storage order is kept. */
  lemma {:induction false} SelectAppend<T(!new)>(a: seq<T>, b: seq<T>, p: T -> bool)
    ensures Select(a + b, p) == Select(a, p) + Select(b, p)
  {
    if a == [] {
      assert a + b == b;
    } else {
      assert (a + b)[0] == a[0];
      assert (a + b)[1..] == a[1..] + b;
      SelectAppend(a[1..], b, p);
    }
  }

  /** Filters that agree on every row select the same rows. */
  lemma {:induction false} SelectExt<T(!new)>(rows: seq<T>, p: T -> bool, q: T -> bool)
    requires forall x :: x in rows ==> p(x) == q(x)
    ensures Select(rows, p) == Select(rows, q)
  {
    if rows != [] {
      SelectExt(rows[1..], p, q);
    }
  }

  /** Filtering by `p` and then by `q` is filtering by their conjunction. */
  lemma {:induction false} SelectConj<T(!new)>(rows: seq<T>, p: T -> bool, q: T -> bool, pq: T -> bool)
    requires forall x :: pq(x) == (p(x) && q(x))
    ensures Select(Select(rows, p), q) == Select(rows, pq)
  {
    if rows != [] {
      SelectConj(rows[1..], p, q, pq);
      var head := if p(rows[0]) then [rows[0]] else [];
      SelectAppend(head, Select(rows[1..], p), q);
    }
  }

  /** Filters that never both hold split the rows of their disjunction between them. */
  lemma {:induction false} SelectDisjointUnion<T(!new)>(rows: seq<T>, p: T -> bool, q: T -> bool, pq: T -> bool)
    requires forall x :: x in rows ==> !(p(x) && q(x))
    requires forall x :: pq(x) == (p(x) || q(x))
    ensures multiset(Select(rows, pq)) == multiset(Select(rows, p)) + multiset(Select(rows, q))
  {
    if rows != [] {
      SelectDisjointUnion(rows[1..], p, q, pq);
    }
  }

  /** A filter that fails on exactly one row cuts that row out. */
  lemma {:induction false} SelectRemoveAt<T(!new)>(rows: seq<T>, p: T -> bool, i: nat)
    requires i < |rows| && !p(rows[i])
    requires forall j :: 0 <= j < |rows| && j != i ==> p(rows[j])
    ensures Select(rows, p) == rows[..i] + rows[i + 1..]
  {
    var front, gone, back := rows[0..i], [rows[i]], rows[i + 1..|rows|];
    assert rows == (front + gone) + back;
    calc {
      Select(rows, p);
      { SelectAppend(front + gone, back, p); }
      Select(front + gone, p) + Select(back, p);
      { SelectAppend(front, gone, p); }
      Select(front, p) + Select(gone, p) + Select(back, p);
      { SelectAllSlice(rows, p, 0, i); SelectAllSlice(rows, p, i + 1, |rows|); }
      front + Select(gone, p) + back;
      { assert Select(gone, p) == []; }
      front + back;
    }
  }

  /** A filter met by every row of a slice keeps the whole slice. */
  lemma {:induction false} SelectAllSlice<T(!new)>(rows: seq<T>, p: T -> bool, lo: nat, hi: nat)
    requires lo <= hi <= |rows|
    requires forall j :: lo <= j < hi ==> p(rows[j])
    ensures Select(rows[lo..hi], p) == rows[lo..hi]
  {
    var slice := rows[lo..hi];
    forall j | 0 <= j < |slice|
      ensures p(slice[j])
    {
      assert slice[j] == rows[lo + j];
    }
    SelectAll(slice, p);
  }

  /**
   * Cutting out the row at `i` leaves one row fewer, one copy fewer of the
   * row cut, and the others on either side of the gap it leaves.
   */
  lemma Splice<T>(rows: seq<T>, rest: seq<T>, i: nat)
    requires i < |rows| && rest == rows[..i] + rows[i + 1..]
    ensures |rest| == |rows| - 1
    ensures rows == rest[..i] + [rows[i]] + rest[i..]
    ensures multiset(rest) == multiset(rows) - multiset{rows[i]}
  {
    assert rest[..i] == rows[..i];
    assert rest[i..] == rows[i + 1..];
    assert rows == rows[..i] + [rows[i]] + rows[i + 1..];
  }

  /** A filter met by every row keeps them all. */
  lemma {:induction false} SelectAll<T(!new)>(rows: seq<T>, p: T -> bool)
    requires forall j :: 0 <= j < |rows| ==> p(rows[j])
    ensures Select(rows, p) == rows
  {
    if rows != [] {
      SelectAll(rows[1..], p);
    }
  }

  /** A filter met by no row selects nothing. */
  lemma {:induction false} SelectNone<T(!new)>(rows: seq<T>, p: T -> bool)
    requires forall j :: 0 <= j < |rows| ==> !p(rows[j])
    ensures Select(rows, p) == []
  {
    if rows != [] {
      SelectNone(rows[1..], p);
    }
  }

  /** The first match of a concatenation comes from the front part when it has one. */
  lemma {:induction false} FirstMatchAppend<T(!new)>(a: seq<T>, b: seq<T>, p: T -> bool)
    ensures FirstMatch(a + b, p) == if FirstMatch(a, p).Some? then FirstMatch(a, p) else FirstMatch(b, p)
  {
    if a == [] {
      assert a + b == b;
    } else {
      assert (a + b)[0] == a[0];
      assert (a + b)[1..] == a[1..] + b;
      if !p(a[0]) {
        FirstMatchAppend(a[1..], b, p);
      }
    }
  }

  /** No element occurs twice. */
  predicate Distinct<T(==)>(s: seq<T>) {
    forall i, j :: 0 <= i < j < |s| ==> s[i] != s[j]
  }

  /** A filter never adds copies of a row. */
  lemma {:induction false} SelectSubMultiset<T(!new)>(rows: seq<T>, p: T -> bool)
    ensures multiset(Select(rows, p)) <= multiset(rows)
  {
    if rows != [] {
      SelectSubMultiset(rows[1..], p);
      assert rows == [rows[0]] + rows[1..];
    }
  }

  /** A sequence of distinct elements holds each of them once. */
  lemma {:induction false} DistinctCountsOnce<T>(s: seq<T>)
    requires Distinct(s)
    ensures forall x :: multiset(s)[x] <= 1
  {
    if s != [] {
      var rest := s[1..];
      assert Distinct(rest);
      DistinctCountsOnce(rest);
      assert s == [s[0]] + rest;
      assert s[0] !in rest;
    }
  }

  /** A sequence holding each element at most once has no repeats. */
  lemma CountsOnceDistinct<T>(s: seq<T>)
    requires forall x :: multiset(s)[x] <= 1
    ensures Distinct(s)
  {
    forall i, j | 0 <= i < j < |s|
      ensures s[i] != s[j]
    {
      var front := s[..j];
      assert s == front + [s[j]] + s[j + 1..];
      assert s[i] == front[i];
      assert multiset(s) == multiset(front) + multiset{s[j]} + multiset(s[j + 1..]);
      assert multiset(s)[s[j]] <= 1;
    }
  }
}
