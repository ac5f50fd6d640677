/** Mapping, filtering and ordering of rows. */
module Sequences {

  function Map<A, B>(f: A -> B, q: seq<A>): (r: seq<B>)
    ensures |r| == |q| && forall i :: 0 <= i < |q| ==> r[i] == f(q[i])
  {
    if q == [] then [] else Map(f, q[..|q| - 1]) + [f(q[|q| - 1])]
  }

  function Filter<A(!new)>(keep: A -> bool, q: seq<A>): (r: seq<A>)
    ensures forall x :: x in r <==> x in q && keep(x)
  {
    if q == [] then []
    else
      var x := q[|q| - 1];
      assert q == q[..|q| - 1] + [x];
      Filter(keep, q[..|q| - 1]) + if keep(x) then [x] else []
  }

  lemma {:induction false} FilterNone<A(!new)>(keep: A -> bool, q: seq<A>)
    requires forall x :: x in q ==> !keep(x)
    ensures Filter(keep, q) == []
  {
    if q != [] { FilterNone(keep, q[..|q| - 1]); }
  }

  lemma {:induction false} FilterAll<A(!new)>(keep: A -> bool, q: seq<A>)
    requires forall x :: x in q ==> keep(x)
    ensures Filter(keep, q) == q
  {
    if q != [] {
      assert q == q[..|q| - 1] + [q[|q| - 1]];
      FilterAll(keep, q[..|q| - 1]);
    }
  }

  lemma {:induction false} FilterAppend<A(!new)>(keep: A -> bool, p: seq<A>, q: seq<A>)
    ensures Filter(keep, p + q) == Filter(keep, p) + Filter(keep, q)
  {
    if q == [] {
      assert p + q == p;
    } else {
      assert (p + q)[..|p + q| - 1] == p + q[..|q| - 1];
      FilterAppend(keep, p, q[..|q| - 1]);
    }
  }

  ghost predicate SortedBy<A>(before: (A, A) -> bool, q: seq<A>) {
    forall i, j :: 0 <= i < j < |q| ==> before(q[i], q[j])
  }

  /** q is the result of an ordered query over rows. */
  ghost predicate Ordered<A>(before: (A, A) -> bool, rows: seq<A>, q: seq<A>) {
    multiset(q) == multiset(rows) && SortedBy(before, q)
  }

  /** q without its i-th element. */
  function Without<A>(q: seq<A>, i: nat): (r: seq<A>)
    requires i < |q|
    ensures |r| == |q| - 1
  {
    q[..i] + q[i + 1..]
  }

  lemma RemoveAt<A>(q: seq<A>, i: nat)
    requires i < |q|
    ensures multiset(Without(q, i)) == multiset(q) - multiset{q[i]}
  {
    assert q == q[..i] + ([q[i]] + q[i + 1..]);
    assert multiset(q) == multiset(q[..i]) + (multiset{q[i]} + multiset(q[i + 1..]));
  }

  lemma SameSize<A>(p: seq<A>, q: seq<A>)
    requires multiset(p) == multiset(q)
    ensures |p| == |q|
  {
    assert |p| == |multiset(p)| && |q| == |multiset(q)|;
  }

  lemma FindIn<A>(p: seq<A>, q: seq<A>, x: A) returns (i: nat)
    requires multiset(p) == multiset(q) && x in p
    ensures i < |q| && q[i] == x
  {
    assert x in multiset(q);
    i :| 0 <= i < |q| && q[i] == x;
  }

  /** No two elements of p are each before the other. */
  ghost predicate AsymmetricOn<A>(before: (A, A) -> bool, p: seq<A>) {
    forall i, j :: 0 <= i < |p| && 0 <= j < |p| ==> !(before(p[i], p[j]) && before(p[j], p[i]))
  }

  lemma SameFirst<A>(before: (A, A) -> bool, p: seq<A>, q: seq<A>)
    requires SortedBy(before, p) && SortedBy(before, q) && multiset(p) == multiset(q) && p != [] && q != []
    requires AsymmetricOn(before, p)
    ensures p[0] == q[0]
  {
    var i := FindIn(p, q, p[0]);
    var j := FindIn(q, p, q[0]);
  }

  lemma TailSorted<A>(before: (A, A) -> bool, p: seq<A>)
    requires p != []
    ensures SortedBy(before, p) ==> SortedBy(before, p[1..])
    ensures AsymmetricOn(before, p) ==> AsymmetricOn(before, p[1..])
    ensures multiset(p[1..]) == multiset(p) - multiset{p[0]}
  {
    RemoveAt(p, 0);
    assert Without(p, 0) == p[1..];
  }

  /** Two strictly sorted arrangements of the same elements are equal. */
  lemma {:induction false} SortedUnique<A>(before: (A, A) -> bool, p: seq<A>, q: seq<A>)
    requires SortedBy(before, p) && SortedBy(before, q) && multiset(p) == multiset(q)
    requires AsymmetricOn(before, p)
    ensures p == q
  {
    hide SortedBy, AsymmetricOn;
    SameSize(p, q);
    if p != [] {
      SameFirst(before, p, q);
      TailSorted(before, p);
      TailSorted(before, q);
      SortedUnique(before, p[1..], q[1..]);
      assert p == [p[0]] + p[1..] && q == [q[0]] + q[1..];
    }
  }

  lemma WithoutAt<A>(q: seq<A>, i: nat, k: nat)
    requires i < |q| && k < |q| - 1
    ensures Without(q, i)[k] == if k < i then q[k] else q[k + 1]
  {
  }

  lemma MapRemoveAt<A, B>(f: A -> B, q: seq<A>, i: nat)
    requires i < |q|
    ensures Map(f, Without(q, i)) == Without(Map(f, q), i)
  {
    hide Map, Without;
    var a, b := Map(f, Without(q, i)), Without(Map(f, q), i);
    forall k | 0 <= k < |a| ensures a[k] == b[k] {
      WithoutAt(q, i, k);
      WithoutAt(Map(f, q), i, k);
    }
  }

  lemma MultisetRestore<B>(m: seq<B>, n: seq<B>, i: nat, j: nat)
    requires i < |m| && j < |n| && m[i] == n[j] && multiset(Without(m, i)) == multiset(Without(n, j))
    ensures multiset(m) == multiset(n)
  {
    hide Without;
    RemoveAt(m, i);
    RemoveAt(n, j);
    assert m[i] in multiset(m) && n[j] in multiset(n);
    assert multiset(m) == (multiset(m) - multiset{m[i]}) + multiset{m[i]};
    assert multiset(n) == (multiset(n) - multiset{n[j]}) + multiset{n[j]};
  }

  lemma {:induction false} MapPermutes<A, B>(f: A -> B, p: seq<A>, q: seq<A>)
    requires multiset(p) == multiset(q)
    ensures multiset(Map(f, p)) == multiset(Map(f, q))
    decreases |p|
  {
    hide Without, Map;
    SameSize(p, q);
    if p == [] {
      assert q == [];
    } else {
      var i := FindIn(p, q, p[0]);
      RemoveAt(p, 0);
      RemoveAt(q, i);
      MapPermutes(f, Without(p, 0), Without(q, i));
      MapRemoveAt(f, p, 0);
      MapRemoveAt(f, q, i);
      MultisetRestore(Map(f, p), Map(f, q), 0, i);
    }
  }

  ghost predicate Transitive<A(!new)>(before: (A, A) -> bool) {
    forall a, b, c :: before(a, b) && before(b, c) ==> before(a, c)
  }

  /** Two rows at different places are ordered one way or the other. */
  ghost predicate TotalOn<A>(before: (A, A) -> bool, rows: seq<A>) {
    forall i, j :: 0 <= i < j < |rows| ==> before(rows[i], rows[j]) || before(rows[j], rows[i])
  }

  lemma {:induction false} InsertOrdered<A(!new)>(before: (A, A) -> bool, q: seq<A>, x: A) returns (p: seq<A>)
    requires Transitive(before) && SortedBy(before, q)
    requires forall y :: y in q ==> before(x, y) || before(y, x)
    ensures SortedBy(before, p) && multiset(p) == multiset(q) + multiset{x}
  {
    if q == [] {
      p := [x];
    } else if before(x, q[0]) {
      p := [x] + q;
    } else {
      var rest := InsertOrdered(before, q[1..], x);
      p := [q[0]] + rest;
      assert q == [q[0]] + q[1..];
      forall i | 0 <= i < |rest| ensures before(q[0], rest[i]) {
        assert rest[i] in multiset(rest);
        assert rest[i] == x || rest[i] in q[1..];
      }
    }
  }

  /** An ordered query always has a result. */
  lemma {:induction false} OrderedExists<A(!new)>(before: (A, A) -> bool, rows: seq<A>) returns (q: seq<A>)
    requires Transitive(before) && TotalOn(before, rows)
    ensures Ordered(before, rows, q)
  {
    hide Transitive;
    if rows == [] {
      q := [];
    } else {
      var n := |rows| - 1;
      var p := OrderedExists(before, rows[..n]);
      forall y | y in p ensures before(rows[n], y) || before(y, rows[n]) {
        var i := FindIn(p, rows[..n], y);
      }
      assert rows == rows[..n] + [rows[n]];
      q := InsertOrdered(before, p, rows[n]);
    }
  }

  lemma InsertAt<A(!new)>(before: (A, A) -> bool, q: seq<A>, k: nat, x: A)
    requires Transitive(before) && SortedBy(before, q) && k <= |q|
    requires (k > 0 ==> before(q[k - 1], x)) && forall i :: k <= i < |q| ==> before(x, q[i])
    ensures SortedBy(before, q[..k] + [x] + q[k..])
    ensures multiset(q[..k] + [x] + q[k..]) == multiset(q) + multiset{x}
  {
    assert multiset(q[..k] + [x] + q[k..]) == multiset(q) + multiset{x} by {
      assert q == q[..k] + q[k..];
      hide SortedBy, Transitive;
    }
    forall i | 0 <= i < k ensures before(q[i], x) {
      assert before(q[k - 1], x);
    }
    hide Transitive;
  }

  /** Puts x where it belongs, going down from the end. */
  method Insert<A(!new)>(before: (A, A) -> bool, q: seq<A>, x: A) returns (p: seq<A>)
    requires Transitive(before) && SortedBy(before, q) && forall k :: 0 <= k < |q| ==> before(q[k], x) || before(x, q[k])
    ensures SortedBy(before, p) && multiset(p) == multiset(q) + multiset{x}
  {
    hide Transitive, SortedBy;
    var k := |q|;
    while k > 0 && before(x, q[k - 1])
      invariant 0 <= k <= |q| && forall i :: k <= i < |q| ==> before(x, q[i])
    {
      k := k - 1;
    }
    InsertAt(before, q, k, x);
    p := q[..k] + [x] + q[k..];
  }

  lemma EmptySorted<A>(before: (A, A) -> bool)
    ensures SortedBy(before, [])
  {
  }

  /** The rows in order. */
  method Sort<A(!new)>(before: (A, A) -> bool, rows: seq<A>) returns (q: seq<A>)
    requires Transitive(before) && TotalOn(before, rows)
    ensures Ordered(before, rows, q)
  {
    hide Transitive, SortedBy;
    q := [];
    assert SortedBy(before, q) by { EmptySorted(before); }
    for i := 0 to |rows|
      invariant Ordered(before, rows[..i], q)
    {
      assert rows[..i + 1] == rows[..i] + [rows[i]];
      forall k | 0 <= k < |q| ensures before(q[k], rows[i]) || before(rows[i], q[k]) {
        var j := FindIn(q, rows[..i], q[k]);
      }
      q := Insert(before, q, rows[i]);
    }
    assert rows[..|rows|] == rows;
  }

  lemma {:induction false} NoRepeats<A>(q: seq<A>)
    requires forall i, j :: 0 <= i < j < |q| ==> q[i] != q[j]
    ensures forall x :: multiset(q)[x] <= 1
  {
    if q != [] {
      NoRepeats(q[..|q| - 1]);
      assert q == q[..|q| - 1] + [q[|q| - 1]];
    }
  }

  /** Sequences without repetition and with the same elements are permutations of each other. */
  lemma SameElements<A>(p: seq<A>, q: seq<A>)
    requires (forall i, j :: 0 <= i < j < |p| ==> p[i] != p[j]) && (forall i, j :: 0 <= i < j < |q| ==> q[i] != q[j])
    requires forall x :: x in p <==> x in q
    ensures multiset(p) == multiset(q)
  {
    NoRepeats(p);
    NoRepeats(q);
    forall x | x in multiset(p) || x in multiset(q) ensures multiset(p)[x] == multiset(q)[x] {
      assert x in multiset(p) <==> x in p;
      assert x in multiset(q) <==> x in q;
    }
  }

  lemma SubsetSize<T>(a: set<T>, b: set<T>)
    requires a <= b
    ensures |a| <= |b| && (|a| == |b| ==> a == b)
  {
    assert b == a + (b - a);
  }
}
