/** The graph that the rows of a quest revision store, and the graph of the draft loaded from them. */
module QuestGraph {
  import opened Walks
  import opened QuestValidation
  import opened QuestStore
  import opened QuestRoundTrip
  import opened Sequences

  ghost function StoredEdges(t: Tables, revision: string): set<(string, string)> {
    set r | r in t.edges && r.revision == revision :: (r.from, r.to)
  }

  predicate NodeNamed(r: NodeRow) {
    r.id == Physical(r.revision, "n", Logical(r.id, r.revision, "n"))
  }

  predicate EdgeLinked(nodes: seq<NodeRow>, r: EdgeRow) {
    r.from != r.to && NodeExists(nodes, r.revision, r.from) && NodeExists(nodes, r.revision, r.to)
  }

  /** Node ids have the stored form, and every edge joins two different nodes of its revision. */
  ghost predicate Linked(t: Tables) {
    (forall r :: r in t.nodes ==> NodeNamed(r)) && (forall r :: r in t.edges ==> EdgeLinked(t.nodes, r))
  }

  lemma SavedLinked(t: Tables, expected: int, id: string, d: Draft)
    requires Linked(t)
    ensures Linked(Save(t, expected, id, d).0)
  {
    if Save(t, expected, id, d).1 == Saved {
      var u := Save(t, expected, id, d).0;
      SavedTables(t, expected, id, d);
      SavedNodesNamed(id, ChapterIDs(d.chapters), d.nodes);
      SavedEdgesLinked(t, expected, id, d);
      NodesGrow(t, u);
      hide NodeNamed, EdgeLinked, Save, NodeRowsOf, EdgeRowsOf, ChapterRowsOf, HasRevision;
    }
  }

  lemma SavedNodesNamed(id: string, known: set<string>, ns: seq<Node>)
    ensures forall r :: r in NodeRowsOf(id, known, ns) ==> NodeNamed(r)
  {
    var rows := NodeRowsOf(id, known, ns);
    forall i | 0 <= i < |rows| ensures NodeNamed(rows[i]) {
      LogicalPhysical(id, "n", ns[i].id);
    }
  }

  lemma SavedEdgesLinked(t: Tables, expected: int, id: string, d: Draft)
    requires Save(t, expected, id, d).1 == Saved
    ensures forall r :: r in EdgeRowsOf(id, IDs(d.nodes), d.edges) ==> EdgeLinked(Save(t, expected, id, d).0.nodes, r)
  {
    hide NodeExists, InsertEdges, InsertNodes, InsertChapters, EdgeRowsOf;
    var chapters := InsertChapters(t.chapters, id, d.chapters).value;
    var nodes := InsertNodes(chapters, t.nodes, id, ChapterIDs(d.chapters), d.nodes).value;
    EdgesInserted(nodes, t.edges, id, IDs(d.nodes), d.edges);
  }

  lemma NodesGrow(t: Tables, u: Tables)
    requires t.nodes <= u.nodes
    ensures forall r :: EdgeLinked(t.nodes, r) ==> EdgeLinked(u.nodes, r)
  {
    forall revision, id | NodeExists(t.nodes, revision, id) ensures NodeExists(u.nodes, revision, id) {
      var n :| n in t.nodes && n.revision == revision && n.id == id;
      assert n in u.nodes;
    }
  }

  lemma StoredEdgesStable(t: Tables, expected: int, id: string, d: Draft, revision: string)
    requires Consistent(t) && HasRevision(t, revision)
    ensures StoredEdges(Save(t, expected, id, d).0, revision) == StoredEdges(t, revision)
  {
    var (u, o) := Save(t, expected, id, d);
    if o == Saved {
      SavedTables(t, expected, id, d);
      RowsOwned(id, d);
      assert forall r :: r in u.edges && r.revision == revision <==> r in t.edges && r.revision == revision;
    }
  }

  /** A graph that maps into an acyclic one is acyclic. */
  lemma CyclicMaps<V(!new), W(!new)>(edges: set<(V, V)>, f: V -> W, image: set<(W, W)>)
    requires forall e :: e in edges ==> (f(e.0), f(e.1)) in image
    requires Cyclic(edges)
    ensures Cyclic(image)
  {
    var w :| IsCycle(edges, w);
    var x := Map(f, w);
    forall i | 0 < i < |x| ensures (x[i - 1], x[i]) in image {
      assert (w[i - 1], w[i]) in edges;
    }
    assert IsCycle(image, x);
  }

  lemma MappedIn<A, B>(f: A -> B, q: seq<A>, rows: seq<A>)
    requires multiset(q) == multiset(rows)
    ensures forall a :: a in rows ==> f(a) in Map(f, q)
    ensures forall b :: b in Map(f, q) ==> exists a :: a in rows && b == f(a)
  {
    forall a | a in rows ensures f(a) in Map(f, q) {
      var i := FindIn(rows, q, a);
      assert Map(f, q)[i] == f(a);
    }
    forall b | b in Map(f, q) ensures exists a :: a in rows && b == f(a) {
      var i :| 0 <= i < |q| && Map(f, q)[i] == b;
      var j := FindIn(q, rows, q[i]);
    }
  }

  /** The draft a revision loads has a cycle exactly when the stored rows have one. */
  lemma LoadedCyclic(t: Tables, revision: string, x: Draft)
    requires Linked(t) && Loads(t, revision, x)
    ensures Cyclic(Graph(IDs(x.nodes), x.edges)) <==> Cyclic(StoredEdges(t, revision))
  {
    hide Cyclic, Graph, Kept, IDs;
    GraphMaps(t, revision, x);
    if Cyclic(StoredEdges(t, revision)) {
      CyclicMaps(StoredEdges(t, revision), (p: string) => Logical(p, revision, "n"), Graph(IDs(x.nodes), x.edges));
    }
    if Cyclic(Graph(IDs(x.nodes), x.edges)) {
      CyclicMaps(Graph(IDs(x.nodes), x.edges), (p: string) => Physical(revision, "n", p), StoredEdges(t, revision));
    }
  }

  lemma GraphMaps(t: Tables, revision: string, x: Draft)
    requires Linked(t) && Loads(t, revision, x)
    ensures forall e :: e in StoredEdges(t, revision) ==>
      (Logical(e.0, revision, "n"), Logical(e.1, revision, "n")) in Graph(IDs(x.nodes), x.edges)
    ensures forall e :: e in Graph(IDs(x.nodes), x.edges) ==>
      (Physical(revision, "n", e.0), Physical(revision, "n", e.1)) in StoredEdges(t, revision)
  {
    hide Physical, Logical, IDs, Graph, Linked, NodeNamed, EdgeLinked;
    var r: RevisionRow, cs, ns, es :| r.id == revision && LoadedFrom(t, r, cs, ns, es, x);
    MappedIn(NodeOf, ns, NodesOf(t, revision));
    MappedIn(EdgeOf, es, EdgesOf(t, revision));
    hide LoadedFrom;
    forall e | e in t.edges && e.revision == revision
      ensures (Logical(e.from, revision, "n"), Logical(e.to, revision, "n")) in Graph(IDs(x.nodes), x.edges)
    {
      assert e in EdgesOf(t, revision);
      assert EdgeOf(e) in x.edges;
      LinkedEdge(t, revision, x, e);
      InGraph(IDs(x.nodes), x.edges, EdgeOf(e));
    }
    forall g | g in Graph(IDs(x.nodes), x.edges)
      ensures (Physical(revision, "n", g.0), Physical(revision, "n", g.1)) in StoredEdges(t, revision)
    {
      var y := FromGraph(IDs(x.nodes), x.edges, g);
      var e :| e in EdgesOf(t, revision) && y == EdgeOf(e);
      LinkedEdge(t, revision, x, e);
      assert (e.from, e.to) in StoredEdges(t, revision);
    }
  }

  lemma InGraph(nodes: set<string>, es: seq<Edge>, e: Edge)
    requires e in es && Kept(nodes, e)
    ensures (e.from, e.to) in Graph(nodes, es)
  {
  }

  lemma FromGraph(nodes: set<string>, es: seq<Edge>, g: (string, string)) returns (e: Edge)
    requires g in Graph(nodes, es)
    ensures e in es && e.from == g.0 && e.to == g.1
  {
    e :| e in es && Kept(nodes, e) && g == (e.from, e.to);
  }

  /** The ends of a stored edge, seen as logical ids, are two different nodes of the loaded draft. */
  lemma LinkedEdge(t: Tables, revision: string, x: Draft, e: EdgeRow)
    requires Linked(t) && e in t.edges && e.revision == revision
    requires forall n :: n in NodesOf(t, revision) ==> NodeOf(n) in x.nodes
    ensures Kept(IDs(x.nodes), EdgeOf(e))
    ensures e.from == Physical(revision, "n", Logical(e.from, revision, "n")) && e.to == Physical(revision, "n", Logical(e.to, revision, "n"))
  {
    hide Physical, Logical;
    var a :| a in t.nodes && a.revision == revision && a.id == e.from;
    var b :| b in t.nodes && b.revision == revision && b.id == e.to;
    assert a in NodesOf(t, revision) && b in NodesOf(t, revision);
    assert NodeOf(a).id in IDs(x.nodes) && NodeOf(b).id in IDs(x.nodes);
    assert NodeNamed(a) && NodeNamed(b);
  }
}
