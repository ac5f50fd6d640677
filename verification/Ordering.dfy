/** Byte order on strings, and sequences strictly sorted by it (what sorting a map's keys yields). */
module Ordering {

  predicate Less(a: string, b: string) {
    b != [] && (a == [] || a[0] < b[0] || (a[0] == b[0] && Less(a[1..], b[1..])))
  }

  /** a and b agree on their first i bytes, and there a ends or has the smaller byte. */
  ghost predicate LessAt(a: string, b: string, i: int) {
    0 <= i <= |a| && i < |b| && a[..i] == b[..i] && (i == |a| || a[i] < b[i])
  }

  /** The order of dictionaries. */
  lemma {:induction false} LessIff(a: string, b: string)
    ensures Less(a, b) <==> exists i :: LessAt(a, b, i)
  {
    if a == [] {
      if b != [] { assert LessAt(a, b, 0); }
    } else if b != [] && a[0] == b[0] {
      LessIff(a[1..], b[1..]);
      if i :| LessAt(a[1..], b[1..], i) {
        assert a[..i + 1] == [a[0]] + a[1..][..i] && b[..i + 1] == [b[0]] + b[1..][..i];
        assert LessAt(a, b, i + 1);
      }
      if i :| LessAt(a, b, i) {
        assert i != 0;
        assert a[1..][..i - 1] == a[..i][1..] && b[1..][..i - 1] == b[..i][1..];
        assert LessAt(a[1..], b[1..], i - 1);
      }
    } else if b != [] {
      assert a[0] < b[0] ==> LessAt(a, b, 0);
      if i :| LessAt(a, b, i) { assert i > 0 ==> a[..i][0] == b[..i][0]; }
    }
  }

  lemma {:induction false} LessIrreflexive(a: string)
    ensures !Less(a, a)
  {
    if a != [] { LessIrreflexive(a[1..]); }
  }

  lemma {:induction false} LessTransitive(a: string, b: string, c: string)
    requires Less(a, b) && Less(b, c)
    ensures Less(a, c)
  {
    if a != [] && a[0] == b[0] && b[0] == c[0] {
      LessTransitive(a[1..], b[1..], c[1..]);
    }
  }

  lemma {:induction false} LessTotal(a: string, b: string)
    ensures a == b || Less(a, b) || Less(b, a)
  {
    if a != [] && b != [] && a[0] == b[0] {
      LessTotal(a[1..], b[1..]);
      if a[1..] == b[1..] {
        assert a == [a[0]] + a[1..] && b == [b[0]] + b[1..];
      }
    }
  }

  /** A common prefix does not change the order. */
  lemma {:induction false} LessPrefix(p: string, a: string, b: string)
    ensures Less(p + a, p + b) <==> Less(a, b)
  {
    if p == [] {
      assert p + a == a && p + b == b;
    } else {
      assert (p + a)[1..] == p[1..] + a && (p + b)[1..] == p[1..] + b;
      LessPrefix(p[1..], a, b);
    }
  }

  ghost predicate Ascending(q: seq<string>) {
    forall i, j :: 0 <= i < j < |q| ==> Less(q[i], q[j])
  }

  ghost function Elements<T>(q: seq<T>): set<T> {
    set x | x in q
  }

  lemma AscendingTail(q: seq<string>)
    requires Ascending(q) && q != []
    ensures Ascending(q[1..]) && Elements(q[1..]) == Elements(q) - {q[0]}
  {
    forall x | x in q[1..] ensures x != q[0] {
      LessIrreflexive(q[0]);
    }
    forall x | x in q && x != q[0] ensures x in q[1..] {
      var i :| 0 <= i < |q| && q[i] == x;
      assert q[1..][i - 1] == x;
    }
  }

  lemma NoElements(q: seq<string>)
    ensures Elements(q) == {} ==> q == []
  {
    if q != [] { assert q[0] in Elements(q); }
  }

  /** An ascending sequence is determined by its elements. */
  lemma {:induction false} AscendingUnique(p: seq<string>, q: seq<string>)
    requires Ascending(p) && Ascending(q) && Elements(p) == Elements(q)
    ensures p == q
  {
    if p == [] {
      NoElements(q);
    } else {
      assert p[0] in Elements(q);
      assert q != [];
      assert q[0] in Elements(p);
      if p[0] != q[0] {
        LessTransitive(p[0], q[0], p[0]);
        LessIrreflexive(p[0]);
      }
      AscendingTail(p);
      AscendingTail(q);
      AscendingUnique(p[1..], q[1..]);
      assert p == [p[0]] + p[1..] && q == [q[0]] + q[1..];
    }
  }

  /** x, which must be new, inserted at its place. */
  function Inserted(q: seq<string>, x: string): (r: seq<string>)
    ensures Elements(r) == Elements(q) + {x}
  {
    if q == [] then [x]
    else if Less(q[0], x) then
      assert q == [q[0]] + q[1..];
      var t := Inserted(q[1..], x);
      assert forall y :: y in t <==> y in Elements(t);
      [q[0]] + t
    else [x] + q
  }

  lemma {:induction false} InsertedAscending(q: seq<string>, x: string)
    requires Ascending(q) && x !in q
    ensures Ascending(Inserted(q, x))
  {
    var r := Inserted(q, x);
    if q != [] && Less(q[0], x) {
      InsertedAscending(q[1..], x);
      forall y | y in r[1..] ensures Less(q[0], y) {
        assert y in Elements(Inserted(q[1..], x));
      }
    } else if q != [] {
      LessTotal(q[0], x);
      forall j | 0 <= j < |q| ensures Less(x, q[j]) {
        if j > 0 { LessTransitive(x, q[0], q[j]); }
      }
    }
  }

  /** The elements of a set in ascending order. */
  ghost function Listed(s: set<string>): (q: seq<string>)
    ensures Ascending(q) && Elements(q) == s
  {
    if s == {} then []
    else
      var x :| x in s;
      var q := Listed(s - {x});
      assert x !in Elements(q);
      InsertedAscending(q, x);
      Inserted(q, x)
  }

  lemma InsertNext(s: set<string>, rest: set<string>, q: seq<string>, x: string)
    requires Ascending(q) && Elements(q) == s - rest && x in rest && rest <= s
    ensures Ascending(Inserted(q, x)) && Elements(Inserted(q, x)) == s - (rest - {x})
  {
    assert x !in Elements(q);
    InsertedAscending(q, x);
    assert s - (rest - {x}) == (s - rest) + {x};
  }

  method SortStrings(s: set<string>) returns (q: seq<string>)
    ensures q == Listed(s)
  {
    q := [];
    var rest := s;
    while rest != {}
      invariant Ascending(q) && Elements(q) == s - rest && rest <= s
      decreases |rest|
    {
      var x :| x in rest;
      InsertNext(s, rest, q, x);
      q, rest := Inserted(q, x), rest - {x};
    }
    AscendingUnique(q, Listed(s));
  }
}
