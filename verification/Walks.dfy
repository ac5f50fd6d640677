/** Walks in a finite directed graph, given as its set of edges. */
module Walks {

  ghost predicate IsWalk<V>(edges: set<(V, V)>, w: seq<V>) {
    |w| > 0 && forall i :: 0 < i < |w| ==> (w[i - 1], w[i]) in edges
  }

  ghost predicate Simple<V>(w: seq<V>) {
    forall i, j :: 0 <= i < j < |w| ==> w[i] != w[j]
  }

  ghost function Last<V>(w: seq<V>): V
    requires |w| > 0
  {
    w[|w| - 1]
  }

  /** w leaves its first vertex and comes back to it. */
  ghost predicate IsCycle<V>(edges: set<(V, V)>, w: seq<V>) {
    IsWalk(edges, w) && |w| >= 2 && w[0] == Last(w)
  }

  ghost predicate Cyclic<V(!new)>(edges: set<(V, V)>) {
    exists w :: IsCycle(edges, w)
  }

  /** v lies on a cycle. */
  ghost predicate Circular<V(!new)>(edges: set<(V, V)>, v: V) {
    exists w :: IsCycle(edges, w) && w[0] == v
  }

  /** w starts at v and ends on a vertex it has met before. */
  ghost predicate IsLasso<V>(edges: set<(V, V)>, v: V, w: seq<V>, i: int) {
    IsWalk(edges, w) && w[0] == v && 0 <= i < |w| - 1 && w[i] == Last(w)
  }

  ghost predicate ReachesCycle<V(!new)>(edges: set<(V, V)>, v: V) {
    exists w, i :: IsLasso(edges, v, w, i)
  }

  lemma CircularReachesCycle<V(!new)>(edges: set<(V, V)>, v: V)
    requires Circular(edges, v)
    ensures ReachesCycle(edges, v)
  {
    var w :| IsCycle(edges, w) && w[0] == v;
    assert IsLasso(edges, v, w, 0);
  }

  ghost predicate Connects<V>(edges: set<(V, V)>, a: V, b: V, w: seq<V>) {
    IsWalk(edges, w) && w[0] == a && Last(w) == b
  }

  ghost predicate Reaches<V(!new)>(edges: set<(V, V)>, a: V, b: V) {
    exists w :: Connects(edges, a, b, w)
  }

  ghost function Vertices<V>(edges: set<(V, V)>): set<V> {
    (set e | e in edges :: e.0) + (set e | e in edges :: e.1)
  }

  ghost function Reachable<V(!new)>(edges: set<(V, V)>, a: V): set<V> {
    set b | b in Vertices(edges) + {a} && Reaches(edges, a, b)
  }

  lemma WalkJoin<V>(edges: set<(V, V)>, w: seq<V>, x: seq<V>)
    requires IsWalk(edges, w) && IsWalk(edges, x) && Last(w) == x[0]
    ensures IsWalk(edges, w + x[1..])
    ensures (w + x[1..])[0] == w[0] && Last(w + x[1..]) == Last(x)
  {
    var j := w + x[1..];
    forall i | 0 < i < |j| ensures (j[i - 1], j[i]) in edges {
      if i >= |w| {
        assert j[i] == x[i - |w| + 1] && j[i - 1] == x[i - |w|];
      }
    }
  }

  lemma ReachesRefl<V(!new)>(edges: set<(V, V)>, a: V)
    ensures Reaches(edges, a, a)
  {
    assert Connects(edges, a, a, [a]);
  }

  lemma ReachesTrans<V(!new)>(edges: set<(V, V)>, a: V, b: V, c: V)
    requires Reaches(edges, a, b) && Reaches(edges, b, c)
    ensures Reaches(edges, a, c)
  {
    var w :| Connects(edges, a, b, w);
    var x :| Connects(edges, b, c, x);
    WalkJoin(edges, w, x);
    assert Connects(edges, a, c, w + x[1..]);
  }

  lemma ReachesStep<V(!new)>(edges: set<(V, V)>, a: V, b: V)
    requires (a, b) in edges
    ensures Reaches(edges, a, b)
  {
    assert Connects(edges, a, b, [a, b]);
  }

  /** Reaching is being there or going on from a successor. */
  lemma ReachesSplit<V(!new)>(edges: set<(V, V)>, a: V, c: V)
    ensures Reaches(edges, a, c) <==> a == c || exists b :: (a, b) in edges && Reaches(edges, b, c)
  {
    ReachesRefl(edges, a);
    if w :| Connects(edges, a, c, w) {
      if |w| > 1 {
        assert Connects(edges, w[1], c, w[1..]);
        assert (a, w[1]) in edges && Reaches(edges, w[1], c);
      }
    }
    if b :| (a, b) in edges && Reaches(edges, b, c) {
      ReachesStep(edges, a, b);
      ReachesTrans(edges, a, b, c);
    }
  }

  /** A cycle reached from a successor is reached from the vertex itself. */
  lemma ReachesCycleStep<V(!new)>(edges: set<(V, V)>, a: V, b: V)
    requires (a, b) in edges && ReachesCycle(edges, b)
    ensures ReachesCycle(edges, a)
  {
    var w, i :| IsLasso(edges, b, w, i);
    var x := [a] + w;
    assert forall k :: 0 < k < |x| ==> x[k] == w[k - 1];
    assert IsLasso(edges, a, x, i + 1);
  }

  /** A vertex that reaches a cycle has a successor that reaches one. */
  lemma ReachesCycleNext<V(!new)>(edges: set<(V, V)>, a: V) returns (b: V)
    requires ReachesCycle(edges, a)
    ensures (a, b) in edges && ReachesCycle(edges, b)
  {
    var w, i :| IsLasso(edges, a, w, i);
    b := w[1];
    var x := w[1..];
    if i > 0 {
      assert IsLasso(edges, b, x, i - 1);
    } else {
      var y := x + [w[1]];
      forall k | 0 < k < |y| ensures (y[k - 1], y[k]) in edges {
        assert y[k - 1] == w[k];
        assert y[k] == if k < |x| then w[k + 1] else w[1];
      }
      assert IsLasso(edges, b, y, 0);
    }
  }

  /** An edge to a vertex that leads back closes a cycle. */
  lemma EdgeCircular<V(!new)>(edges: set<(V, V)>, a: V, b: V)
    requires (a, b) in edges && Reaches(edges, b, a)
    ensures Circular(edges, a)
  {
    var w :| Connects(edges, b, a, w);
    WalkCons(edges, a, w);
    assert IsCycle(edges, [a] + w);
  }

  lemma ReachableIn<V(!new)>(edges: set<(V, V)>, a: V, b: V)
    requires Reaches(edges, a, b)
    ensures b in Reachable(edges, a)
  {
    var w :| Connects(edges, a, b, w);
    if |w| > 1 { assert (w[|w| - 2], b) in edges; }
  }

  /** What a successor of a vertex that lies on no cycle reaches is a strictly smaller set. */
  lemma SuccessorReachesLess<V(!new)>(edges: set<(V, V)>, a: V, b: V)
    requires (a, b) in edges && !Circular(edges, a)
    ensures Reachable(edges, b) < Reachable(edges, a)
  {
    assert a in Vertices(edges) && b in Vertices(edges);
    ReachesStep(edges, a, b);
    forall c | c in Reachable(edges, b) ensures c in Reachable(edges, a) {
      ReachesTrans(edges, a, b, c);
    }
    ReachesRefl(edges, a);
    assert a in Reachable(edges, a);
    if a in Reachable(edges, b) { EdgeCircular(edges, a, b); }
  }

  lemma ReachableShrinks<V(!new)>(edges: set<(V, V)>, a: V, b: V)
    requires (a, b) in edges && !ReachesCycle(edges, a)
    ensures Reachable(edges, b) < Reachable(edges, a)
    ensures !ReachesCycle(edges, b)
  {
    if ReachesCycle(edges, b) { ReachesCycleStep(edges, a, b); }
    if Circular(edges, a) { CircularReachesCycle(edges, a); }
    SuccessorReachesLess(edges, a, b);
  }

  /** A sequence longer than the set it draws from repeats an element. */
  lemma {:induction false} Pigeonhole<V>(w: seq<V>, s: set<V>) returns (i: nat, j: nat)
    requires |w| > |s| && forall k :: 0 <= k < |w| ==> w[k] in s
    ensures i < j < |w| && w[i] == w[j]
  {
    var v := w[|w| - 1];
    if k :| 0 <= k < |w| - 1 && w[k] == v {
      i, j := k, |w| - 1;
    } else {
      i, j := Pigeonhole(w[..|w| - 1], s - {v});
    }
  }

  lemma SimpleIsShort<V>(w: seq<V>, s: set<V>)
    requires Simple(w) && forall k :: 0 <= k < |w| ==> w[k] in s
    ensures |w| <= |s|
  {
    if |w| > |s| {
      var i, j := Pigeonhole(w, s);
    }
  }

  /** Cutting the part between two visits of one vertex leaves a walk. */
  lemma CutLoop<V>(edges: set<(V, V)>, w: seq<V>, i: nat, j: nat)
    requires IsWalk(edges, w) && i < j < |w| && w[i] == w[j]
    ensures IsWalk(edges, w[..i] + w[j..])
    ensures (w[..i] + w[j..])[0] == w[0] && Last(w[..i] + w[j..]) == Last(w)
  {
    var x := w[..i] + w[j..];
    forall k | 0 < k < |x| ensures (x[k - 1], x[k]) in edges {
      if k >= i {
        assert x[k] == w[k - i + j];
        assert k > i ==> x[k - 1] == w[k - 1 - i + j];
        assert k == i ==> (x[k - 1], x[k]) == (w[i - 1], w[i]);
      }
    }
  }

  /** Every walk can be shortened to a simple one with the same ends. */
  lemma {:induction false} Simplify<V(!new)>(edges: set<(V, V)>, w: seq<V>) returns (x: seq<V>)
    requires IsWalk(edges, w)
    ensures IsWalk(edges, x) && Simple(x) && |x| <= |w| && x[0] == w[0] && Last(x) == Last(w)
    decreases |w|
  {
    if Simple(w) {
      x := w;
    } else {
      var i, j :| 0 <= i < j < |w| && w[i] == w[j];
      CutLoop(edges, w, i, j);
      x := Simplify(edges, w[..i] + w[j..]);
    }
  }

  lemma WalkCons<V>(edges: set<(V, V)>, u: V, x: seq<V>)
    requires IsWalk(edges, x) && (u, x[0]) in edges
    ensures IsWalk(edges, [u] + x)
  {
    var w := [u] + x;
    forall i | 0 < i < |w| ensures (w[i - 1], w[i]) in edges {
      if i > 1 { assert w[i - 1] == x[i - 2] && w[i] == x[i - 1]; }
    }
  }

  lemma WalkSlice<V>(edges: set<(V, V)>, w: seq<V>, i: nat, j: nat)
    requires IsWalk(edges, w) && i < j <= |w|
    ensures IsWalk(edges, w[i..j]) && w[i..j][0] == w[i] && Last(w[i..j]) == w[j - 1]
  {
    var x := w[i..j];
    forall k | 0 < k < |x| ensures (x[k - 1], x[k]) in edges {
      assert x[k - 1] == w[i + k - 1] && x[k] == w[i + k];
    }
  }

  ghost predicate HasSource<V>(edges: set<(V, V)>, s: set<V>, x: V) {
    exists u :: u in s && (u, x) in edges
  }

  /** n steps backwards inside s, where every vertex has a predecessor. */
  lemma {:induction false} WalkBack<V(!new)>(edges: set<(V, V)>, s: set<V>, v: V, n: nat) returns (w: seq<V>)
    requires v in s && forall x :: x in s ==> HasSource(edges, s, x)
    ensures IsWalk(edges, w) && |w| == n + 1 && forall i :: 0 <= i < |w| ==> w[i] in s
  {
    w := [v];
    if n > 0 {
      var x := WalkBack(edges, s, v, n - 1);
      assert HasSource(edges, s, x[0]);
      var u :| u in s && (u, x[0]) in edges;
      WalkCons(edges, u, x);
      w := [u] + x;
    }
  }

  /** A nonempty finite set of vertices, each with a predecessor in the set, holds a cycle. */
  lemma NoSourceCyclic<V(!new)>(edges: set<(V, V)>, s: set<V>)
    requires s != {} && forall x :: x in s ==> HasSource(edges, s, x)
    ensures Cyclic(edges)
  {
    var v :| v in s;
    var w := WalkBack(edges, s, v, |s|);
    var i, j := Pigeonhole(w, s);
    WalkSlice(edges, w, i, j + 1);
    assert IsCycle(edges, w[i..j + 1]);
  }

  /** order lists every vertex that has a predecessor after its predecessors. */
  ghost predicate Topological<V>(edges: set<(V, V)>, order: seq<V>) {
    forall e, j :: e in edges && 0 <= j < |order| && order[j] == e.1 ==> e.0 in order[..j]
  }

  /** Along a walk, positions grow. */
  lemma {:induction false} WalkDescends<V(!new)>(edges: set<(V, V)>, order: seq<V>, w: seq<V>, j: nat)
    requires Topological(edges, order) && Simple(order) && IsWalk(edges, w) && |w| >= 2
    requires j < |order| && order[j] == Last(w)
    ensures w[0] in order[..j]
    decreases |w|
  {
    var e := (w[|w| - 2], w[|w| - 1]);
    assert e.0 in order[..j];
    if |w| > 2 {
      var i :| 0 <= i < j && order[i] == e.0;
      WalkDescends(edges, order, w[..|w| - 1], i);
    }
  }

  lemma TopologicalAcyclic<V(!new)>(edges: set<(V, V)>, order: seq<V>)
    requires Topological(edges, order) && Simple(order)
    requires forall e :: e in edges ==> e.1 in order
    ensures !Cyclic(edges)
  {
    if Cyclic(edges) {
      var w :| IsCycle(edges, w);
      var e := (w[|w| - 2], w[|w| - 1]);
      var j :| 0 <= j < |order| && order[j] == e.1;
      WalkDescends(edges, order, w, j);
    }
  }
}
