/** Cycle detection on a directed multigraph by repeatedly taking vertices without incoming edges. */
module Kahn {
  import opened Walks
  import opened Sequences

  type Pair = (string, string)

  ghost function EdgeSet(kept: seq<Pair>): set<Pair> {
    set e | e in kept
  }

  ghost function ElementsOf(q: seq<string>): set<string> {
    set x | x in q
  }

  /** How many edges enter v from outside done, duplicates counted. */
  ghost function Entering(kept: seq<Pair>, done: set<string>, v: string): nat {
    if kept == [] then 0
    else
      var e := kept[|kept| - 1];
      Entering(kept[..|kept| - 1], done, v) + if e.1 == v && e.0 !in done then 1 else 0
  }

  /** The targets of the edges that leave u, in order. */
  function TargetsOf(kept: seq<Pair>, u: string): seq<string> {
    if kept == [] then []
    else
      var e := kept[|kept| - 1];
      TargetsOf(kept[..|kept| - 1], u) + if e.0 == u then [e.1] else []
  }

  ghost function Occurrences(q: seq<string>, v: string): nat {
    if q == [] then 0 else Occurrences(q[1..], v) + if q[0] == v then 1 else 0
  }

  lemma {:induction false} OccurrencesAppend(q: seq<string>, x: string, v: string)
    ensures Occurrences(q + [x], v) == Occurrences(q, v) + if x == v then 1 else 0
  {
    if q == [] {
      assert q + [x] == [x];
    } else {
      assert (q + [x])[1..] == q[1..] + [x];
      OccurrencesAppend(q[1..], x, v);
    }
  }

  /** Finishing id removes exactly its own edges from what still enters v. */
  lemma {:induction false} EnteringDone(kept: seq<Pair>, done: set<string>, id: string, v: string)
    requires id !in done
    ensures Entering(kept, done, v) == Entering(kept, done + {id}, v) + Occurrences(TargetsOf(kept, id), v)
  {
    if kept != [] {
      var init, e := kept[..|kept| - 1], kept[|kept| - 1];
      EnteringDone(init, done, id, v);
      if e.0 == id {
        OccurrencesAppend(TargetsOf(init, id), e.1, v);
      } else {
        assert TargetsOf(kept, id) == TargetsOf(init, id);
      }
    }
  }

  lemma {:induction false} EnteringZero(kept: seq<Pair>, done: set<string>, v: string)
    ensures Entering(kept, done, v) == 0 <==> forall e :: e in kept && e.1 == v ==> e.0 in done
  {
    if kept != [] {
      var init, e := kept[..|kept| - 1], kept[|kept| - 1];
      EnteringZero(init, done, v);
      assert kept == init + [e];
    }
  }

  lemma {:induction false} TargetsAreHeads(kept: seq<Pair>, u: string)
    ensures forall v :: v in TargetsOf(kept, u) ==> (u, v) in kept
  {
    if kept != [] {
      TargetsAreHeads(kept[..|kept| - 1], u);
    }
  }

  lemma {:induction false} TargetsEmpty(kept: seq<Pair>, u: string)
    ensures TargetsOf(kept, u) == [] <==> forall e :: e in kept ==> e.0 != u
  {
    if kept != [] {
      TargetsEmpty(kept[..|kept| - 1], u);
      assert kept == kept[..|kept| - 1] + [kept[|kept| - 1]];
    }
  }

  lemma EnteringNext(kept: seq<Pair>, x: Pair, v: string)
    ensures Entering(kept + [x], {}, v) == Entering(kept, {}, v) + if x.1 == v then 1 else 0
  {
    assert (kept + [x])[..|kept|] == kept;
  }

  lemma TargetsNext(kept: seq<Pair>, x: Pair, u: string)
    ensures TargetsOf(kept + [x], u) == if x.0 == u then TargetsOf(kept, u) + [x.1] else TargetsOf(kept, u)
  {
    assert (kept + [x])[..|kept|] == kept;
  }

  /** The graph the loop works on: edges between known, different vertices. */
  ghost predicate Proper(nodes: set<string>, kept: seq<Pair>) {
    forall e :: e in kept ==> e.0 in nodes && e.1 in nodes && e.0 != e.1
  }

  /** Between two rounds: done is in topological order, and the queue holds the vertices that are ready. */
  ghost predicate Round(nodes: set<string>, kept: seq<Pair>, done: seq<string>, queue: seq<string>, indeg: map<string, int>) {
    && Simple(done + queue) && indeg.Keys == nodes
    && (forall v :: v in done + queue ==> v in nodes)
    && (forall v :: v in nodes ==> indeg[v] == Entering(kept, ElementsOf(done), v))
    && (forall v :: v in nodes ==> (v in done + queue <==> indeg[v] == 0))
    && Topological(EdgeSet(kept), done)
  }

  /** While the edges of id, the vertex just taken, are removed; rest are the targets still to come. */
  ghost predicate Removing(nodes: set<string>, kept: seq<Pair>, done: seq<string>, queue: seq<string>, indeg: map<string, int>, rest: seq<string>) {
    && Simple(done + queue) && indeg.Keys == nodes
    && (forall v :: v in done + queue ==> v in nodes)
    && (forall v :: v in rest ==> v in nodes)
    && (forall v :: v in nodes ==> indeg[v] == Entering(kept, ElementsOf(done), v) + Occurrences(rest, v))
    && (forall v :: v in nodes ==> (v in done + queue <==> indeg[v] == 0))
    && Topological(EdgeSet(kept), done)
  }

  lemma Take(nodes: set<string>, kept: seq<Pair>, done: seq<string>, queue: seq<string>, indeg: map<string, int>)
    requires Proper(nodes, kept) && Round(nodes, kept, done, queue, indeg) && queue != []
    ensures queue[0] in nodes
    ensures Removing(nodes, kept, done + [queue[0]], queue[1..], indeg, TargetsOf(kept, queue[0]))
  {
    var id := queue[0];
    var next := done + [id];
    assert done + queue == next + queue[1..];
    assert (done + queue)[|done|] == id;
    forall i | 0 <= i < |done| ensures done[i] != id {
      assert (done + queue)[i] == done[i];
    }
    assert ElementsOf(next) == ElementsOf(done) + {id};
    forall v | v in nodes ensures indeg[v] == Entering(kept, ElementsOf(next), v) + Occurrences(TargetsOf(kept, id), v) {
      EnteringDone(kept, ElementsOf(done), id, v);
    }
    TargetsAreHeads(kept, id);
    EnteringZero(kept, ElementsOf(done), id);
    forall e, j | e in EdgeSet(kept) && 0 <= j < |next| && next[j] == e.1 ensures e.0 in next[..j] {
      if j < |done| { assert next[..j] == done[..j]; } else { assert next[..j] == done; assert e.0 in ElementsOf(done); }
    }
  }

  lemma Drop(nodes: set<string>, kept: seq<Pair>, done: seq<string>, queue: seq<string>, indeg: map<string, int>, rest: seq<string>)
    requires Removing(nodes, kept, done, queue, indeg, rest) && rest != []
    ensures rest[0] in nodes && indeg[rest[0]] > 0
    ensures var next := indeg[rest[0] := indeg[rest[0]] - 1];
      Removing(nodes, kept, done, if next[rest[0]] == 0 then queue + [rest[0]] else queue, next, rest[1..])
  {
    var to := rest[0];
    var next := indeg[to := indeg[to] - 1];
    assert to in rest;
    var q := if next[to] == 0 then queue + [to] else queue;
    assert to !in done + queue;
    assert done + (queue + [to]) == (done + queue) + [to];
    forall v | v in nodes ensures v in done + q <==> next[v] == 0 {
      assert v in done + q <==> v in done + queue || (v == to && next[to] == 0);
    }
  }

  lemma Removed(nodes: set<string>, kept: seq<Pair>, done: seq<string>, queue: seq<string>, indeg: map<string, int>)
    requires Removing(nodes, kept, done, queue, indeg, [])
    ensures Round(nodes, kept, done, queue, indeg)
  {
  }

  lemma {:induction false} SimpleSize(q: seq<string>)
    requires Simple(q)
    ensures |ElementsOf(q)| == |q|
  {
    if q != [] {
      var init := q[..|q| - 1];
      SimpleSize(init);
      assert ElementsOf(q) == ElementsOf(init) + {q[|q| - 1]};
    }
  }

  lemma LeftOver(nodes: set<string>, done: set<string>)
    requires |done| < |nodes|
    ensures nodes - done != {}
  {
    assert nodes <= done + (nodes - done);
    SubsetSize(nodes, done + (nodes - done));
  }

  /** When the queue is empty: some vertex is left over exactly when the graph is cyclic. */
  lemma Exhausted(nodes: set<string>, kept: seq<Pair>, done: seq<string>, indeg: map<string, int>)
    requires Proper(nodes, kept) && Round(nodes, kept, done, [], indeg)
    ensures |done| < |nodes| <==> Cyclic(EdgeSet(kept))
    ensures |done| <= |nodes|
  {
    assert done + [] == done;
    SimpleSize(done);
    SubsetSize(ElementsOf(done), nodes);
    var left := nodes - ElementsOf(done);
    if |done| < |nodes| {
      LeftOver(nodes, ElementsOf(done));
      forall v | v in left ensures HasSource(EdgeSet(kept), left, v) {
        EnteringZero(kept, ElementsOf(done), v);
        assert v !in done;
        var e :| e in kept && e.1 == v && e.0 !in ElementsOf(done);
        assert e == (e.0, v) && e in EdgeSet(kept);
      }
      NoSourceCyclic(EdgeSet(kept), left);
    } else {
      forall e | e in EdgeSet(kept) ensures e.1 in done { assert e.1 in ElementsOf(done); }
      TopologicalAcyclic(EdgeSet(kept), done);
    }
  }

  /** Counts the vertices that can be taken; each is taken at most once. */
  method CountTaken(nodes: set<string>, ghost kept: seq<Pair>, adj: map<string, seq<string>>, degrees: map<string, int>)
    returns (seen: nat)
    requires Proper(nodes, kept)
    requires forall u :: u in nodes ==> (if u in adj then adj[u] else []) == TargetsOf(kept, u)
    requires degrees.Keys == nodes && forall v :: v in nodes ==> degrees[v] == Entering(kept, {}, v)
    ensures seen <= |nodes| && (seen < |nodes| <==> Cyclic(EdgeSet(kept)))
  {
    var indeg := degrees;
    var queue := Ready(nodes, indeg);
    ghost var done: seq<string> := [];
    assert [] + queue == queue;
    assert ElementsOf(done) == {};
    seen := 0;
    while queue != []
      invariant Round(nodes, kept, done, queue, indeg) && seen == |done|
      decreases |nodes| - |done|
    {
      Take(nodes, kept, done, queue, indeg);
      TakenOnce(nodes, done, queue);
      var id := queue[0];
      queue := queue[1..];
      done := done + [id];
      seen := seen + 1;
      var targets := if id in adj then adj[id] else [];
      queue, indeg := RemoveEdges(nodes, kept, done, queue, indeg, targets);
    }
    Exhausted(nodes, kept, done, indeg);
  }

  lemma TakenOnce(nodes: set<string>, done: seq<string>, queue: seq<string>)
    requires Simple(done + queue) && queue != [] && forall v :: v in done + queue ==> v in nodes
    ensures |done| < |nodes|
  {
    SimpleSize(done + queue);
    SubsetSize(ElementsOf(done + queue), nodes);
  }

  /** The vertices without incoming edges, in whatever order the map is walked. */
  method Ready(nodes: set<string>, indeg: map<string, int>) returns (queue: seq<string>)
    requires indeg.Keys == nodes
    ensures Simple(queue) && forall v :: v in queue <==> v in nodes && indeg[v] == 0
  {
    queue := [];
    var rest := nodes;
    while rest != {}
      invariant rest <= nodes && Simple(queue)
      invariant forall v :: v in queue <==> v in nodes - rest && indeg[v] == 0
      decreases |rest|
    {
      var v :| v in rest;
      if indeg[v] == 0 {
        queue := queue + [v];
      }
      rest := rest - {v};
    }
  }

  method RemoveEdges(nodes: set<string>, ghost kept: seq<Pair>, ghost done: seq<string>, queue: seq<string>,
                     indeg: map<string, int>, targets: seq<string>)
    returns (nextQueue: seq<string>, nextIndeg: map<string, int>)
    requires Removing(nodes, kept, done, queue, indeg, targets)
    ensures Round(nodes, kept, done, nextQueue, nextIndeg)
  {
    nextQueue, nextIndeg := queue, indeg;
    hide Removing, Round;
    var j := 0;
    assert targets[j..] == targets;
    while j < |targets|
      invariant 0 <= j <= |targets| && Removing(nodes, kept, done, nextQueue, nextIndeg, targets[j..])
    {
      Drop(nodes, kept, done, nextQueue, nextIndeg, targets[j..]);
      assert targets[j..][1..] == targets[j + 1..];
      var to := targets[j];
      RemovingKeys(nodes, kept, done, nextQueue, nextIndeg, targets[j..]);
      nextIndeg := nextIndeg[to := nextIndeg[to] - 1];
      if nextIndeg[to] == 0 {
        nextQueue := nextQueue + [to];
      }
      j := j + 1;
    }
    assert targets[j..] == [];
    Removed(nodes, kept, done, nextQueue, nextIndeg);
  }

  lemma RemovingKeys(nodes: set<string>, kept: seq<Pair>, done: seq<string>, queue: seq<string>, indeg: map<string, int>, rest: seq<string>)
    requires Removing(nodes, kept, done, queue, indeg, rest)
    ensures indeg.Keys == nodes
  {
  }
}
