/** Saving a draft and loading it back; rolling back to an earlier revision. */
module QuestRoundTrip {
  import opened Ordering
  import opened Sequences
  import opened RevisionLog
  import opened QuestValidation
  import opened Options
  import opened QuestStore

  /** The revisions form a sound log, and every row belongs to one of them. */
  ghost predicate Consistent(t: Tables) {
    && Sound(LogOf(t))
    && (forall r :: r in t.chapters ==> HasRevision(t, r.revision))
    && (forall r :: r in t.nodes ==> HasRevision(t, r.revision))
    && (forall r :: r in t.edges ==> HasRevision(t, r.revision))
  }

  /** The rows of one revision. */
  ghost predicate RowsAre(t: Tables, revision: string, cs: seq<ChapterRow>, ns: seq<NodeRow>, es: seq<EdgeRow>) {
    ChaptersOf(t, revision) == cs && NodesOf(t, revision) == ns && EdgesOf(t, revision) == es
  }

  /** Every reference inside the draft resolves, and the keys the queries order by are distinct. */
  ghost predicate WellKeyed(d: Draft) {
    && (forall i, j :: 0 <= i < j < |d.chapters| ==> d.chapters[i].position != d.chapters[j].position)
    && (forall n :: n in d.nodes ==> n.chapterID in ChapterIDs(d.chapters))
    && (forall i, j :: 0 <= i < j < |d.nodes| ==>
      d.nodes[i].chapterID != d.nodes[j].chapterID || d.nodes[i].position != d.nodes[j].position)
    && (forall e :: e in d.edges ==> e.from in IDs(d.nodes) && e.to in IDs(d.nodes))
  }

  lemma OldRowsKept<A(!new)>(before: seq<A>, more: seq<A>, keep: A -> bool)
    requires forall x :: x in more ==> !keep(x)
    ensures Filter(keep, before + more) == Filter(keep, before)
  {
    FilterAppend(keep, before, more);
    FilterNone(keep, more);
  }

  lemma NewRowsOnly<A(!new)>(before: seq<A>, more: seq<A>, keep: A -> bool)
    requires (forall x :: x in before ==> !keep(x)) && (forall x :: x in more ==> keep(x))
    ensures Filter(keep, before + more) == more
  {
    FilterAppend(keep, before, more);
    FilterNone(keep, before);
    FilterAll(keep, more);
  }

  /** What a successful save appends to the tables. */
  lemma SavedTables(t: Tables, expected: int, id: string, d: Draft)
    requires Save(t, expected, id, d).1 == Saved
    ensures var u := Save(t, expected, id, d).0;
      && u.chapters == t.chapters + ChapterRowsOf(id, d.chapters)
      && u.nodes == t.nodes + NodeRowsOf(id, ChapterIDs(d.chapters), d.nodes)
      && u.edges == t.edges + EdgeRowsOf(id, IDs(d.nodes), d.edges)
      && u.revisions == t.revisions + [Revision(id, |t.revisions| + 1, Drafted, NormalBook(d.book))]
      && u.active == t.active && !HasRevision(t, id)
  {
    var chapters := InsertChapters(t.chapters, id, d.chapters);
    ChaptersInserted(t.chapters, id, d.chapters);
    var nodes := InsertNodes(chapters.value, t.nodes, id, ChapterIDs(d.chapters), d.nodes);
    NodesInserted(chapters.value, t.nodes, id, ChapterIDs(d.chapters), d.nodes);
    EdgesInserted(nodes.value, t.edges, id, IDs(d.nodes), d.edges);
  }

  lemma SavedConsistent(t: Tables, expected: int, id: string, d: Draft)
    requires Consistent(t)
    ensures Consistent(Save(t, expected, id, d).0)
  {
    hide Consistent, HasRevision, ChapterRowsOf, NodeRowsOf, EdgeRowsOf;
    var (u, outcome) := Save(t, expected, id, d);
    if outcome == Saved {
      SavedTables(t, expected, id, d);
      RowsOwned(id, d);
      hide Save;
      RowsAdded(t, u, Revision(id, |t.revisions| + 1, Drafted, NormalBook(d.book)), ChapterRowsOf(id, d.chapters),
        NodeRowsOf(id, ChapterIDs(d.chapters), d.nodes), EdgeRowsOf(id, IDs(d.nodes), d.edges));
    }
  }

  lemma RowsAdded(t: Tables, u: Tables, r: RevisionRow, cs: seq<ChapterRow>, ns: seq<NodeRow>, es: seq<EdgeRow>)
    requires Consistent(t) && !HasRevision(t, r.id) && r == Revision(r.id, |t.revisions| + 1, Drafted, r.body)
    requires u == Tables(t.revisions + [r], t.chapters + cs, t.nodes + ns, t.edges + es, t.active)
    requires (forall c :: c in cs ==> c.revision == r.id) && (forall n :: n in ns ==> n.revision == r.id)
    requires forall e :: e in es ==> e.revision == r.id
    ensures Consistent(u)
  {
    AppendSound(LogOf(t), r.id, r.body);
    assert LogOf(u) == Append(LogOf(t), r.id, r.body);
    RevisionAdded(t, u, r);
    hide HasRevision, Sound;
  }

  lemma RevisionAdded(t: Tables, u: Tables, r: RevisionRow)
    requires u.revisions == t.revisions + [r] && !HasRevision(t, r.id)
    ensures forall x :: HasRevision(u, x) <==> HasRevision(t, x) || x == r.id
  {
    forall x | HasRevision(t, x) ensures HasRevision(u, x) {
      var i :| 0 <= i < |t.revisions| && t.revisions[i].id == x;
      assert u.revisions[i].id == x;
    }
    assert u.revisions[|t.revisions|].id == r.id;
  }

  /** Every row of a draft carries the id of its revision. */
  lemma RowsOwned(id: string, d: Draft)
    ensures forall r :: r in ChapterRowsOf(id, d.chapters) ==> r.revision == id
    ensures forall r :: r in NodeRowsOf(id, ChapterIDs(d.chapters), d.nodes) ==> r.revision == id
    ensures forall r :: r in EdgeRowsOf(id, IDs(d.nodes), d.edges) ==> r.revision == id
  {
  }

  /** A save touches the rows of its own revision only. */
  lemma SavedRows(t: Tables, expected: int, id: string, d: Draft, other: string)
    requires Consistent(t) && Save(t, expected, id, d).1 == Saved
    ensures var u := Save(t, expected, id, d).0;
      && RowsAre(u, id, ChapterRowsOf(id, d.chapters), NodeRowsOf(id, ChapterIDs(d.chapters), d.nodes), EdgeRowsOf(id, IDs(d.nodes), d.edges))
      && (other != id ==> RowsAre(u, other, ChaptersOf(t, other), NodesOf(t, other), EdgesOf(t, other)))
  {
    SavedTables(t, expected, id, d);
    var cs, ns, es := ChapterRowsOf(id, d.chapters), NodeRowsOf(id, ChapterIDs(d.chapters), d.nodes), EdgeRowsOf(id, IDs(d.nodes), d.edges);
    NewRowsOnly(t.chapters, cs, (r: ChapterRow) => r.revision == id);
    NewRowsOnly(t.nodes, ns, (r: NodeRow) => r.revision == id);
    NewRowsOnly(t.edges, es, (r: EdgeRow) => r.revision == id);
    if other != id {
      OldRowsKept(t.chapters, cs, (r: ChapterRow) => r.revision == other);
      OldRowsKept(t.nodes, ns, (r: NodeRow) => r.revision == other);
      OldRowsKept(t.edges, es, (r: EdgeRow) => r.revision == other);
    }
  }

  lemma PhysicalNotEmpty(revision: string, kind: string, id: string)
    ensures Physical(revision, kind, id) != ""
  {
    assert |Physical(revision, kind, id)| >= 4;
  }

  /** The database accepts only drafts whose references resolve and whose keys are distinct. */
  lemma SavedWellKeyed(t: Tables, expected: int, id: string, d: Draft)
    requires Consistent(t) && Save(t, expected, id, d).1 == Saved
    ensures WellKeyed(d)
  {
    ChaptersInserted(t.chapters, id, d.chapters);
    SavedChaptersKnown(t, expected, id, d);
    SavedNodesKnown(t, expected, id, d);
  }

  lemma SavedChaptersKnown(t: Tables, expected: int, id: string, d: Draft)
    requires Consistent(t) && Save(t, expected, id, d).1 == Saved
    ensures forall n :: n in d.nodes ==> n.chapterID in ChapterIDs(d.chapters)
    ensures forall i, j :: 0 <= i < j < |d.nodes| ==>
      d.nodes[i].chapterID != d.nodes[j].chapterID || d.nodes[i].position != d.nodes[j].position
  {
    hide Consistent, HasRevision, NodeRowsOf, InsertNodes, InsertEdges, InsertChapters, Physical, ChapterRowsOf, IDs;
    var chapters := InsertChapters(t.chapters, id, d.chapters).value;
    var known := ChapterIDs(d.chapters);
    NodesInserted(chapters, t.nodes, id, known, d.nodes);
    SavedTables(t, expected, id, d);
    ChaptersInserted(t.chapters, id, d.chapters);
    var rows := NodeRowsOf(id, known, d.nodes);
    hide Save, ChapterIDs;
    assert forall i :: 0 <= i < |d.nodes| ==>
      rows[i].chapter == if d.nodes[i].chapterID in known then Physical(id, "c", d.nodes[i].chapterID) else "";
    hide NodeRowOf;
    forall i | 0 <= i < |d.nodes| ensures d.nodes[i].chapterID in known {
      ExistingChapterNotEmpty(t, chapters, id, d, rows[i].chapter);
    }
  }

  lemma ExistingChapterNotEmpty(t: Tables, chapters: seq<ChapterRow>, id: string, d: Draft, x: string)
    requires Consistent(t) && !HasRevision(t, id) && chapters == t.chapters + ChapterRowsOf(id, d.chapters)
    requires exists c :: c in chapters && c.revision == id && c.id == x
    ensures x != ""
  {
    var c :| c in chapters && c.revision == id && c.id == x;
    assert c !in t.chapters;
    assert c in ChapterRowsOf(id, d.chapters);
    var j :| 0 <= j < |d.chapters| && c == ChapterRowOf(id, d.chapters[j]);
    PhysicalNotEmpty(id, "c", d.chapters[j].id);
  }

  lemma SavedNodesKnown(t: Tables, expected: int, id: string, d: Draft)
    requires Consistent(t) && Save(t, expected, id, d).1 == Saved
    ensures forall e :: e in d.edges ==> e.from in IDs(d.nodes) && e.to in IDs(d.nodes)
  {
    var chapters := InsertChapters(t.chapters, id, d.chapters).value;
    var nodes := InsertNodes(chapters, t.nodes, id, ChapterIDs(d.chapters), d.nodes).value;
    NodesInserted(chapters, t.nodes, id, ChapterIDs(d.chapters), d.nodes);
    EdgesInserted(nodes, t.edges, id, IDs(d.nodes), d.edges);
    SavedTables(t, expected, id, d);
    var rows := EdgeRowsOf(id, IDs(d.nodes), d.edges);
    forall i | 0 <= i < |d.edges| ensures d.edges[i].from in IDs(d.nodes) && d.edges[i].to in IDs(d.nodes) {
      ExistingNodeNotEmpty(t, nodes, id, d, rows[i].from);
      ExistingNodeNotEmpty(t, nodes, id, d, rows[i].to);
    }
  }

  lemma ExistingNodeNotEmpty(t: Tables, nodes: seq<NodeRow>, id: string, d: Draft, x: string)
    requires Consistent(t) && !HasRevision(t, id) && nodes == t.nodes + NodeRowsOf(id, ChapterIDs(d.chapters), d.nodes)
    requires NodeExists(nodes, id, x)
    ensures x != ""
  {
    var n :| n in nodes && n.revision == id && n.id == x;
    assert n !in t.nodes;
    assert n in NodeRowsOf(id, ChapterIDs(d.chapters), d.nodes);
    var j :| 0 <= j < |d.nodes| && n == NodeRowOf(id, ChapterIDs(d.chapters), d.nodes[j]);
    PhysicalNotEmpty(id, "n", d.nodes[j].id);
  }

  // ----- rows and records undo each other --------------------------------------------------

  lemma ChapterBack(id: string, cs: seq<Chapter>)
    ensures Map(ChapterOf, ChapterRowsOf(id, cs)) == cs
  {
    forall i | 0 <= i < |cs| ensures ChapterOf(ChapterRowOf(id, cs[i])) == cs[i] {
      LogicalPhysical(id, "c", cs[i].id);
    }
  }

  lemma NodeOfRow(id: string, known: set<string>, n: Node)
    requires n.chapterID in known
    ensures var row := NodeRowOf(id, known, n);
      && NodeOf(row) == n && row.id == Physical(id, "n", n.id)
      && row.chapter == Physical(id, "c", n.chapterID) && row.body.position == n.position
  {
    LogicalPhysical(id, "n", n.id);
    LogicalPhysical(id, "c", n.chapterID);
    hide Physical, Logical;
  }

  lemma NodeBack(id: string, known: set<string>, ns: seq<Node>)
    requires forall n :: n in ns ==> n.chapterID in known
    ensures Map(NodeOf, NodeRowsOf(id, known, ns)) == ns
  {
    hide NodeOf, NodeRowOf, Map, NodeRowsOf;
    forall i | 0 <= i < |ns| ensures Map(NodeOf, NodeRowsOf(id, known, ns))[i] == ns[i] {
      NodeOfRow(id, known, ns[i]);
    }
  }

  lemma EdgeOfRow(id: string, known: set<string>, e: Edge)
    requires e.from in known && e.to in known
    ensures EdgeOf(EdgeRowOf(id, known, e)) == e && EdgeRowOf(id, known, e).id == Physical(id, "e", e.id)
  {
    LogicalPhysical(id, "e", e.id);
    LogicalPhysical(id, "n", e.from);
    LogicalPhysical(id, "n", e.to);
    hide Physical, Logical;
  }

  lemma EdgeBack(id: string, known: set<string>, es: seq<Edge>)
    requires forall e :: e in es ==> e.from in known && e.to in known
    ensures Map(EdgeOf, EdgeRowsOf(id, known, es)) == es
  {
    hide EdgeOf, EdgeRowOf, Map, EdgeRowsOf;
    forall i | 0 <= i < |es| ensures Map(EdgeOf, EdgeRowsOf(id, known, es))[i] == es[i] {
      EdgeOfRow(id, known, es[i]);
    }
  }

  lemma InRows<A>(rows: seq<A>, q: seq<A>, i: nat) returns (j: nat)
    requires multiset(q) == multiset(rows) && i < |q|
    ensures j < |rows| && rows[j] == q[i]
  {
    j := FindIn(q, rows, q[i]);
  }

  lemma ChaptersSorted(id: string, cs: seq<Chapter>, q: seq<ChapterRow>)
    requires Ordered(ChapterRowBefore, ChapterRowsOf(id, cs), q)
    requires forall i, j :: 0 <= i < j < |cs| ==> cs[i].position != cs[j].position
    ensures Ordered(ChapterBefore, cs, Map(ChapterOf, q))
  {
    hide Map, ChapterRowsOf, Less, Physical, Logical;
    var rows := ChapterRowsOf(id, cs);
    MapPermutes(ChapterOf, q, rows);
    ChapterBack(id, cs);
    forall i, j | 0 <= i < j < |q| ensures ChapterBefore(ChapterOf(q[i]), ChapterOf(q[j])) {
      assert ChapterRowBefore(q[i], q[j]);
      var a := InRows(rows, q, i);
      var b := InRows(rows, q, j);
      if a == b { LessIrreflexive(q[i].id); }
    }
  }

  lemma NodesSorted(id: string, known: set<string>, ns: seq<Node>, q: seq<NodeRow>)
    requires Ordered(NodeRowBefore, NodeRowsOf(id, known, ns), q)
    requires forall n :: n in ns ==> n.chapterID in known
    requires forall i, j :: 0 <= i < j < |ns| ==> ns[i].chapterID != ns[j].chapterID || ns[i].position != ns[j].position
    ensures Ordered(NodeBefore, ns, Map(NodeOf, q))
  {
    hide NodeOf, NodeRowOf, Map, NodeRowsOf, Less, Physical;
    var rows := NodeRowsOf(id, known, ns);
    MapPermutes(NodeOf, q, rows);
    NodeBack(id, known, ns);
    forall i, j | 0 <= i < j < |q| ensures NodeBefore(NodeOf(q[i]), NodeOf(q[j])) {
      assert NodeRowBefore(q[i], q[j]);
      var a := InRows(rows, q, i);
      var b := InRows(rows, q, j);
      NodeRowsInOrder(id, known, ns[a], ns[b]);
      if a == b { LessIrreflexive(q[i].chapter); LessIrreflexive(q[i].id); }
    }
  }

  lemma NodeRowsInOrder(id: string, known: set<string>, m: Node, n: Node)
    requires m.chapterID in known && n.chapterID in known
    requires NodeRowBefore(NodeRowOf(id, known, m), NodeRowOf(id, known, n))
    ensures NodeBefore(m, n) || (m.chapterID == n.chapterID && m.position == n.position)
  {
    hide NodeRowOf, NodeOf;
    NodeOfRow(id, known, m);
    NodeOfRow(id, known, n);
    LessPrefix(Prefix(id, "c"), m.chapterID, n.chapterID);
    if Physical(id, "c", m.chapterID) == Physical(id, "c", n.chapterID) {
      PhysicalInjective(id, "c", m.chapterID, n.chapterID);
    }
  }

  lemma EdgesSorted(id: string, known: set<string>, es: seq<Edge>, q: seq<EdgeRow>)
    requires Ordered(EdgeRowBefore, EdgeRowsOf(id, known, es), q)
    requires forall e :: e in es ==> e.from in known && e.to in known
    ensures Ordered(EdgeBefore, es, Map(EdgeOf, q))
  {
    hide EdgeOf, EdgeRowOf, Map, EdgeRowsOf, Less;
    var rows := EdgeRowsOf(id, known, es);
    MapPermutes(EdgeOf, q, rows);
    EdgeBack(id, known, es);
    forall i, j | 0 <= i < j < |q| ensures EdgeBefore(EdgeOf(q[i]), EdgeOf(q[j])) {
      assert EdgeRowBefore(q[i], q[j]);
      var a := InRows(rows, q, i);
      var b := InRows(rows, q, j);
      EdgeOfRow(id, known, es[a]);
      EdgeOfRow(id, known, es[b]);
      LessPrefix(Prefix(id, "e"), es[a].id, es[b].id);
    }
  }

  /** Book data is stored unless all of it is empty. */
  lemma BookKept(b: Option<BookMeta>)
    ensures NormalBook(b).Some? ==> NormalBook(b) == b
    ensures NormalBook(b).None? <==> b.None? || (b.value.title == "" && b.value.icon == "" && b.value.progressionMode == "")
  {
  }

  /** The round trip: what was saved is loaded back in sorted order, and so is the book data, unless it is all empty. */
  lemma LoadSaved(t: Tables, expected: int, id: string, d: Draft, x: Draft)
    requires Consistent(t) && Save(t, expected, id, d).1 == Saved
    requires Loads(Save(t, expected, id, d).0, id, x)
    ensures SortedForm(d, x)
    ensures x.book.Some? ==> x.book == d.book
    ensures x.book.None? <==> d.book.None? || (d.book.value.title == "" && d.book.value.icon == "" && d.book.value.progressionMode == "")
    ensures forall i, j :: 0 <= i < j < |x.chapters| ==> x.chapters[i].position < x.chapters[j].position
    ensures forall i, j :: 0 <= i < j < |x.nodes| ==>
      Less(x.nodes[i].chapterID, x.nodes[j].chapterID)
      || (x.nodes[i].chapterID == x.nodes[j].chapterID && x.nodes[i].position < x.nodes[j].position)
    ensures forall i, j :: 0 <= i < j < |x.edges| ==> Less(x.edges[i].id, x.edges[j].id)
    ensures multiset(x.chapters) == multiset(d.chapters) && multiset(x.nodes) == multiset(d.nodes) && multiset(x.edges) == multiset(d.edges)
  {
    BookKept(d.book);
    hide Save, Ordered, ChapterRowsOf, NodeRowsOf, EdgeRowsOf, ChaptersOf, NodesOf, EdgesOf, Map, NormalBook;
    SavedWellKeyed(t, expected, id, d);
    var cs, ns, es := LoadedRows(t, expected, id, d, x);
    hide Consistent;
    ChaptersSorted(id, d.chapters, cs);
    NodesSorted(id, ChapterIDs(d.chapters), d.nodes, ns);
    EdgesSorted(id, IDs(d.nodes), d.edges, es);
    SortedFields(d, x);
  }

  lemma SortedFields(d: Draft, x: Draft)
    requires SortedForm(d, x)
    ensures forall i, j :: 0 <= i < j < |x.chapters| ==> x.chapters[i].position < x.chapters[j].position
    ensures forall i, j :: 0 <= i < j < |x.nodes| ==>
      Less(x.nodes[i].chapterID, x.nodes[j].chapterID)
      || (x.nodes[i].chapterID == x.nodes[j].chapterID && x.nodes[i].position < x.nodes[j].position)
    ensures forall i, j :: 0 <= i < j < |x.edges| ==> Less(x.edges[i].id, x.edges[j].id)
    ensures multiset(x.chapters) == multiset(d.chapters) && multiset(x.nodes) == multiset(d.nodes) && multiset(x.edges) == multiset(d.edges)
  {
    hide Less;
    forall i, j | 0 <= i < j < |x.nodes| ensures NodeBefore(x.nodes[i], x.nodes[j]) { }
    forall i, j | 0 <= i < j < |x.chapters| ensures ChapterBefore(x.chapters[i], x.chapters[j]) { }
    forall i, j | 0 <= i < j < |x.edges| ensures EdgeBefore(x.edges[i], x.edges[j]) { }
  }

  lemma LoadedRows(t: Tables, expected: int, id: string, d: Draft, x: Draft) returns (cs: seq<ChapterRow>, ns: seq<NodeRow>, es: seq<EdgeRow>)
    requires Consistent(t) && Save(t, expected, id, d).1 == Saved
    requires Loads(Save(t, expected, id, d).0, id, x)
    ensures x == Draft(NormalBook(d.book), Map(ChapterOf, cs), Map(NodeOf, ns), Map(EdgeOf, es))
    ensures Ordered(ChapterRowBefore, ChapterRowsOf(id, d.chapters), cs)
    ensures Ordered(NodeRowBefore, NodeRowsOf(id, ChapterIDs(d.chapters), d.nodes), ns)
    ensures Ordered(EdgeRowBefore, EdgeRowsOf(id, IDs(d.nodes), d.edges), es)
  {
    hide Ordered, ChapterRowsOf, NodeRowsOf, EdgeRowsOf, ChaptersOf, NodesOf, EdgesOf, Map, NormalBook, Consistent;
    var u := Save(t, expected, id, d).0;
    SavedTables(t, expected, id, d);
    SavedRows(t, expected, id, d, id);
    hide Save;
    var r: RevisionRow;
    r, cs, ns, es :| r.id == id && LoadedFrom(u, r, cs, ns, es, x);
    assert r == u.revisions[|t.revisions|] by { assert !HasRevision(t, id); }
  }

  /** Loading a saved revision never fails to give a draft. */
  lemma SavedLoads(t: Tables, expected: int, id: string, d: Draft) returns (x: Draft)
    requires Consistent(t) && Save(t, expected, id, d).1 == Saved
    ensures Loads(Save(t, expected, id, d).0, id, x)
  {
    hide ChapterRowsOf, NodeRowsOf, EdgeRowsOf, Consistent, HasRevision, ChaptersOf, NodesOf, EdgesOf, Ordered, Map;
    var u := Save(t, expected, id, d).0;
    SavedTables(t, expected, id, d);
    SavedRows(t, expected, id, d, id);
    SavedDistinct(t, expected, id, d);
    hide Save;
    var cs, ns, es := QueriesAnswered(
      ChapterRowsOf(id, d.chapters), NodeRowsOf(id, ChapterIDs(d.chapters), d.nodes), EdgeRowsOf(id, IDs(d.nodes), d.edges));
    var r := u.revisions[|t.revisions|];
    x := Draft(r.body, Map(ChapterOf, cs), Map(NodeOf, ns), Map(EdgeOf, es));
    assert LoadedFrom(u, r, cs, ns, es, x);
  }

  lemma QueriesAnswered(chapters: seq<ChapterRow>, nodes: seq<NodeRow>, edges: seq<EdgeRow>)
    returns (cs: seq<ChapterRow>, ns: seq<NodeRow>, es: seq<EdgeRow>)
    requires forall i, j :: 0 <= i < j < |chapters| ==> chapters[i].id != chapters[j].id
    requires forall i, j :: 0 <= i < j < |nodes| ==> nodes[i].id != nodes[j].id
    requires forall i, j :: 0 <= i < j < |edges| ==> edges[i].id != edges[j].id
    ensures Ordered(ChapterRowBefore, chapters, cs) && Ordered(NodeRowBefore, nodes, ns) && Ordered(EdgeRowBefore, edges, es)
  {
    hide ChapterRowBefore, NodeRowBefore, EdgeRowBefore, Transitive, TotalOn, Ordered;
    QueriesTotal(chapters, nodes, edges);
    cs := OrderedExists(ChapterRowBefore, chapters);
    ns := OrderedExists(NodeRowBefore, nodes);
    es := OrderedExists(EdgeRowBefore, edges);
  }

  lemma SavedDistinct(t: Tables, expected: int, id: string, d: Draft)
    requires Save(t, expected, id, d).1 == Saved
    ensures var cs := ChapterRowsOf(id, d.chapters); forall i, j :: 0 <= i < j < |cs| ==> cs[i].id != cs[j].id
    ensures var ns := NodeRowsOf(id, ChapterIDs(d.chapters), d.nodes); forall i, j :: 0 <= i < j < |ns| ==> ns[i].id != ns[j].id
    ensures var es := EdgeRowsOf(id, IDs(d.nodes), d.edges); forall i, j :: 0 <= i < j < |es| ==> es[i].id != es[j].id
  {
    var chapters := InsertChapters(t.chapters, id, d.chapters).value;
    var nodes := InsertNodes(chapters, t.nodes, id, ChapterIDs(d.chapters), d.nodes).value;
    ChaptersInserted(t.chapters, id, d.chapters);
    NodesInserted(chapters, t.nodes, id, ChapterIDs(d.chapters), d.nodes);
    EdgesInserted(nodes, t.edges, id, IDs(d.nodes), d.edges);
    hide Save, InsertChapters, InsertNodes, InsertEdges, NodeRowsOf, EdgeRowsOf, ChapterRowsOf, Physical;
    var cs := ChapterRowsOf(id, d.chapters);
    forall i, j | 0 <= i < j < |cs| ensures cs[i].id != cs[j].id {
      if cs[i].id == cs[j].id { PhysicalInjective(id, "c", d.chapters[i].id, d.chapters[j].id); }
    }
  }

  /** The orders of the three queries are transitive, and total on rows with distinct keys. */
  lemma QueriesTotal(cs: seq<ChapterRow>, ns: seq<NodeRow>, es: seq<EdgeRow>)
    ensures Transitive(ChapterRowBefore) && Transitive(NodeRowBefore) && Transitive(EdgeRowBefore)
    ensures (forall i, j :: 0 <= i < j < |cs| ==> cs[i].id != cs[j].id) ==> TotalOn(ChapterRowBefore, cs)
    ensures (forall i, j :: 0 <= i < j < |ns| ==> ns[i].id != ns[j].id) ==> TotalOn(NodeRowBefore, ns)
    ensures (forall i, j :: 0 <= i < j < |es| ==> es[i].id != es[j].id) ==> TotalOn(EdgeRowBefore, es)
  {
    hide Less;
    forall a, b, c | Less(a, b) && Less(b, c) ensures Less(a, c) { LessTransitive(a, b, c); }
    forall a, b | a != b ensures Less(a, b) || Less(b, a) { LessTotal(a, b); }
  }

  lemma LessAsymmetric(a: string, b: string)
    requires Less(a, b)
    ensures !Less(b, a)
  {
    if Less(b, a) {
      LessTransitive(a, b, a);
      LessIrreflexive(a);
    }
  }

  /** A draft has one sorted form. */
  lemma SortedFormUnique(d: Draft, x: Draft, y: Draft)
    requires SortedForm(d, x) && SortedForm(d, y)
    ensures x == y
  {
    forall a, b | Less(a, b) ensures !Less(b, a) { LessAsymmetric(a, b); }
    SortedUnique(ChapterBefore, x.chapters, y.chapters);
    SortedUnique(NodeBefore, x.nodes, y.nodes);
    SortedUnique(EdgeBefore, x.edges, y.edges);
  }

  /** What a revision loads does not change when others are saved. */
  lemma LoadStable(t: Tables, expected: int, id: string, d: Draft, revision: string, x: Draft)
    requires Consistent(t) && HasRevision(t, revision)
    ensures Loads(Save(t, expected, id, d).0, revision, x) <==> Loads(t, revision, x)
  {
    var (u, outcome) := Save(t, expected, id, d);
    if outcome == Saved {
      SavedTables(t, expected, id, d);
      assert revision != id;
      SavedRows(t, expected, id, d, revision);
      forall r: RevisionRow, cs, ns, es | r.id == revision ensures LoadedFrom(u, r, cs, ns, es, x) <==> LoadedFrom(t, r, cs, ns, es, x) {
        assert r in u.revisions <==> r in t.revisions;
      }
    }
  }

  /** Every revision loads in sorted order. */
  ghost predicate LoadsSorted(t: Tables) {
    forall revision, x :: Loads(t, revision, x) ==> SortedForm(x, x)
  }

  lemma SortedStays(d: Draft, x: Draft)
    requires SortedForm(d, x)
    ensures SortedForm(x, x)
  {
  }

  lemma SavedLoadsSorted(t: Tables, expected: int, id: string, d: Draft)
    requires Consistent(t) && LoadsSorted(t)
    ensures LoadsSorted(Save(t, expected, id, d).0)
  {
    var (u, o) := Save(t, expected, id, d);
    if o == Saved {
      SavedTables(t, expected, id, d);
      RevisionAdded(t, u, u.revisions[|t.revisions|]);
      hide Save, SortedForm, Consistent;
      forall revision, x | Loads(u, revision, x) ensures SortedForm(x, x) {
        if revision == id {
          LoadSaved(t, expected, id, d, x);
          SortedStays(d, x);
        } else {
          LoadedExists(u, revision, x);
          LoadStable(t, expected, id, d, revision, x);
        }
      }
    }
  }

  lemma LoadedExists(t: Tables, revision: string, x: Draft)
    requires Loads(t, revision, x)
    ensures HasRevision(t, revision)
  {
    var r: RevisionRow, cs, ns, es :| r.id == revision && LoadedFrom(t, r, cs, ns, es, x);
    var i :| 0 <= i < |t.revisions| && t.revisions[i] == r;
  }

  /** Changing the state of revisions changes nothing that is loaded. */
  lemma LoadRestated(t: Tables, u: Tables, revision: string, x: Draft)
    requires |u.revisions| == |t.revisions|
    requires forall i :: 0 <= i < |t.revisions| ==> u.revisions[i].id == t.revisions[i].id && u.revisions[i].body == t.revisions[i].body
    requires u.chapters == t.chapters && u.nodes == t.nodes && u.edges == t.edges
    requires Loads(t, revision, x)
    ensures Loads(u, revision, x)
  {
    var r: RevisionRow, cs, ns, es :| r.id == revision && LoadedFrom(t, r, cs, ns, es, x);
    var i :| 0 <= i < |t.revisions| && t.revisions[i] == r;
    assert LoadedFrom(u, u.revisions[i], cs, ns, es, x);
  }

  /**
   * Rolling back saves what an earlier revision loads: the new revision then loads exactly the same
   * draft, and so does the earlier one still.
   */
  lemma RollbackRestores(t: Tables, target: string, x: Draft, expected: int, id: string, y: Draft)
    requires Consistent(t) && LoadsSorted(t) && Loads(t, target, x)
    requires Save(t, expected, id, x).1 == Saved && Loads(Save(t, expected, id, x).0, id, y)
    ensures y == x && Loads(Save(t, expected, id, x).0, target, x)
  {
    hide Save, SortedForm, Consistent, HasRevision;
    LoadedExists(t, target, x);
    LoadSaved(t, expected, id, x, y);
    LoadStable(t, expected, id, x, target, x);
    SortedFormUnique(x, x, y);
  }
}
