/** A draft whose two nodes require each other: reported as cyclic, and saved all the same. */
module CyclicDraft {
  import opened Options
  import opened Walks
  import opened QuestValidation
  import opened QuestStore
  import opened QuestGraph
  import opened QuestRuns

  /** A stored edge pair going both ways: saved by the service, never applied. */
  lemma CyclicDraftIsSaved(pack: string, owner: string -> Lookup)
    ensures var d := TWO_WAYS;
      && Admissible(Reported(d, pack, owner)) && Cycle in Reported(d, pack, owner)
      && Save(EMPTY, 0, "r", d).1 == Saved
  {
    TwoWaysReported(pack, owner);
    TwoWaysSaved();
  }

  const PLAIN := Node("a", "c", "", "", "", 0.0, 0.0, [], [], [], 0, "", "", 0.0, false, false, "", 0, [])

  const TWO_WAYS := Draft(None, [Chapter("c", "", "", "", 0, "")], [PLAIN, PLAIN.(id := "b", position := 1)],
                          [Edge("x", "a", "b"), Edge("y", "b", "a")])

  lemma PlainNodeCodes(n: Node, pack: string, owner: string -> Lookup)
    requires n.id != "" && n.dependencyRequirement == "" && n.minRequiredDependencies == 0 && n.rewards == [] && n.modRefs == []
    ensures NodeCodesGiven(n, false, true, false, pack, owner) == {}
  {
    assert (set r, c | r in n.modRefs && c in RefCodes(r, pack, owner) :: c) == {};
  }

  /** When the parts give rise to nothing but duplicate edges, only these, cycles and orphans are reported. */
  lemma ReportedFew(d: Draft, pack: string, owner: string -> Lookup)
    requires forall i :: 0 <= i < |d.chapters| ==> ChapterCodes(d.chapters, i) == {}
    requires forall i :: 0 <= i < |d.nodes| ==> NodeCodes(ChapterIDs(d.chapters), d.nodes, i, pack, owner) == {}
    requires forall i :: 0 <= i < |d.edges| ==> EdgeCodes(IDs(d.nodes), d.edges, i) <= {DuplicateEdge}
    ensures Reported(d, pack, owner) <= {DuplicateEdge, Cycle, OrphanNode}
    ensures Cyclic(Graph(IDs(d.nodes), d.edges)) ==> Cycle in Reported(d, pack, owner)
  {
    hide Graph, Cyclic, HasOrphan, ChapterCodes, NodeCodes, EdgeCodes, IDs, ChapterIDs;
  }

  lemma TwoWaysReported(pack: string, owner: string -> Lookup)
    ensures Admissible(Reported(TWO_WAYS, pack, owner)) && Cycle in Reported(TWO_WAYS, pack, owner)
  {
    var d := TWO_WAYS;
    var chapters, nodes := ChapterIDs(d.chapters), IDs(d.nodes);
    assert d.nodes[0].id in nodes && d.nodes[1].id in nodes && d.chapters[0].id in chapters;
    hide Graph, Cyclic, ChapterCodes, NodeCodes, EdgeCodes, IDs, ChapterIDs, Reported;
    TwoWaysCyclic(nodes);
    TwoWaysParts(chapters, nodes, pack, owner);
    ReportedFew(d, pack, owner);
  }

  lemma TwoWaysParts(chapters: set<string>, nodes: set<string>, pack: string, owner: string -> Lookup)
    requires "a" in nodes && "b" in nodes && "c" in chapters
    ensures forall i :: 0 <= i < 1 ==> ChapterCodes(TWO_WAYS.chapters, i) == {}
    ensures forall i :: 0 <= i < 2 ==> NodeCodes(chapters, TWO_WAYS.nodes, i, pack, owner) == {}
    ensures forall i :: 0 <= i < 2 ==> EdgeCodes(nodes, TWO_WAYS.edges, i) <= {DuplicateEdge}
  {
    PlainNodeCodes(TWO_WAYS.nodes[0], pack, owner);
    PlainNodeCodes(TWO_WAYS.nodes[1], pack, owner);
    hide NodeCodesGiven, NamesBefore, EdgeName;
  }

  lemma TwoWaysCyclic(nodes: set<string>)
    requires "a" in nodes && "b" in nodes
    ensures Cyclic(Graph(nodes, TWO_WAYS.edges))
  {
    InGraph(nodes, TWO_WAYS.edges, TWO_WAYS.edges[0]);
    InGraph(nodes, TWO_WAYS.edges, TWO_WAYS.edges[1]);
    assert IsCycle(Graph(nodes, TWO_WAYS.edges), ["a", "b", "a"]);
  }

  lemma OneMoreChapter(table: seq<ChapterRow>, revision: string, cs: seq<Chapter>, c: Chapter)
    requires InsertChapters(table, revision, cs).Some? && ChapterFits(InsertChapters(table, revision, cs).value, ChapterRowOf(revision, c))
    ensures InsertChapters(table, revision, cs + [c]) == Some(InsertChapters(table, revision, cs).value + [ChapterRowOf(revision, c)])
  {
    assert (cs + [c])[..|cs|] == cs;
  }

  lemma OneMoreNode(chapters: seq<ChapterRow>, table: seq<NodeRow>, revision: string, known: set<string>, ns: seq<Node>, n: Node)
    requires InsertNodes(chapters, table, revision, known, ns).Some?
    requires NodeFits(chapters, InsertNodes(chapters, table, revision, known, ns).value, NodeRowOf(revision, known, n))
    ensures InsertNodes(chapters, table, revision, known, ns + [n])
         == Some(InsertNodes(chapters, table, revision, known, ns).value + [NodeRowOf(revision, known, n)])
  {
    assert (ns + [n])[..|ns|] == ns;
  }

  lemma OneMoreEdge(nodes: seq<NodeRow>, table: seq<EdgeRow>, revision: string, known: set<string>, es: seq<Edge>, e: Edge)
    requires InsertEdges(nodes, table, revision, known, es).Some?
    requires EdgeFits(nodes, InsertEdges(nodes, table, revision, known, es).value, EdgeRowOf(revision, known, e))
    ensures InsertEdges(nodes, table, revision, known, es + [e])
         == Some(InsertEdges(nodes, table, revision, known, es).value + [EdgeRowOf(revision, known, e)])
  {
    assert (es + [e])[..|es|] == es;
  }

  lemma TwoWaysSaved()
    ensures Save(EMPTY, 0, "r", TWO_WAYS).1 == Saved
  {
    hide Physical;
    var cs, ns, es := TWO_WAYS.chapters, TWO_WAYS.nodes, TWO_WAYS.edges;
    var c := ChapterRowOf("r", cs[0]);
    OneMoreChapter([], "r", [], cs[0]);
    assert [] + [cs[0]] == cs && [] + [c] == [c];
    TwoWaysNodes(c);
    hide InsertChapters, InsertNodes, InsertEdges;
  }

  lemma TwoWaysNodes(c: ChapterRow)
    requires c.revision == "r" && c.id == Physical("r", "c", "c")
    ensures var r := InsertNodes([c], [], "r", ChapterIDs(TWO_WAYS.chapters), TWO_WAYS.nodes);
      r.Some? && InsertEdges(r.value, [], "r", IDs(TWO_WAYS.nodes), TWO_WAYS.edges).Some?
  {
    hide Physical;
    var cs, ns := TWO_WAYS.chapters, TWO_WAYS.nodes;
    var known := ChapterIDs(cs);
    assert cs[0].id in known && c in [c];
    var m, n := NodeRowOf("r", known, ns[0]), NodeRowOf("r", known, ns[1]);
    OneMoreNode([c], [], "r", known, [], ns[0]);
    if m.id == n.id { PhysicalInjective("r", "n", "a", "b"); }
    OneMoreNode([c], [], "r", known, [ns[0]], ns[1]);
    assert [] + [ns[0]] == [ns[0]] && [ns[0]] + [ns[1]] == ns;
    TwoWaysEdges([] + [m] + [n], TWO_WAYS.edges);
  }

  lemma TwoWaysEdges(rows: seq<NodeRow>, es: seq<Edge>)
    requires |rows| == 2 && rows[0].revision == rows[1].revision == "r" && es == TWO_WAYS.edges
    requires rows[0].id == Physical("r", "n", "a") && rows[1].id == Physical("r", "n", "b")
    ensures InsertEdges(rows, [], "r", IDs(TWO_WAYS.nodes), es).Some?
  {
    hide Physical;
    var known := IDs(TWO_WAYS.nodes);
    assert TWO_WAYS.nodes[0].id in known && TWO_WAYS.nodes[1].id in known;
    var p, q := EdgeRowOf("r", known, es[0]), EdgeRowOf("r", known, es[1]);
    assert rows[0] in rows && rows[1] in rows;
    if p.from == p.to { PhysicalInjective("r", "n", "a", "b"); }
    OneMoreEdge(rows, [], "r", known, [], es[0]);
    if p.id == q.id { PhysicalInjective("r", "e", "x", "y"); }
    OneMoreEdge(rows, [], "r", known, [es[0]], es[1]);
    assert [] + [es[0]] == [es[0]] && [es[0]] + [es[1]] == es;
  }
}
