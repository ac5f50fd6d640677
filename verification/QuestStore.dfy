/**
 * The quest tables of one pack: append-only revisions, each with its chapters, nodes and edges
 * under physical ids; saving with an expected revision, loading, applying.
 */
module QuestStore {
  import opened Options
  import opened Ordering
  import opened QuestValidation
  import opened Sequences
  import opened RevisionLog

  /** The body of a revision row is its book data. */
  type RevisionRow = Revision<Option<BookMeta>>

  /** Rows keep their ids outside the body: the id fields of a body are blank. */
  datatype ChapterRow = ChapterRow(id: string, revision: string, body: Chapter)
  datatype NodeRow = NodeRow(id: string, revision: string, chapter: string, body: Node)
  datatype EdgeRow = EdgeRow(id: string, revision: string, from: string, to: string)

  datatype Tables = Tables(
    revisions: seq<RevisionRow>, chapters: seq<ChapterRow>, nodes: seq<NodeRow>, edges: seq<EdgeRow>, active: Option<string>)

  const EMPTY := Tables([], [], [], [], None)

  function LogOf(t: Tables): Log<Option<BookMeta>> { Log(t.revisions, t.active) }

  predicate HasRevision(t: Tables, id: string) { Has(LogOf(t), id) }

  // ----- physical and logical ids ----------------------------------------------------------

  function Prefix(revision: string, kind: string): string { revision + "::" + kind + "::" }

  function Physical(revision: string, kind: string, id: string): string { Prefix(revision, kind) + id }

  function Logical(physical: string, revision: string, kind: string): string {
    var p := Prefix(revision, kind);
    if p <= physical then physical[|p|..] else physical
  }

  lemma LogicalPhysical(revision: string, kind: string, id: string)
    ensures Logical(Physical(revision, kind, id), revision, kind) == id
  {
    var p := Prefix(revision, kind);
    assert (p + id)[..|p|] == p;
    assert (p + id)[|p|..] == id;
  }

  lemma PhysicalInjective(revision: string, kind: string, a: string, b: string)
    requires Physical(revision, kind, a) == Physical(revision, kind, b)
    ensures a == b
  {
    LogicalPhysical(revision, kind, a);
    LogicalPhysical(revision, kind, b);
  }

  // ----- inserting -------------------------------------------------------------------------

  /** The constraints of the chapter table: primary key, position not negative, one chapter a position. */
  predicate ChapterFits(table: seq<ChapterRow>, row: ChapterRow) {
    row.body.position >= 0
    && forall r :: r in table ==> r.id != row.id && (r.revision != row.revision || r.body.position != row.body.position)
  }

  /** Primary key, position not negative, an existing chapter, one node a place. */
  predicate NodeFits(chapters: seq<ChapterRow>, table: seq<NodeRow>, row: NodeRow) {
    row.body.position >= 0
    && (exists c :: c in chapters && c.revision == row.revision && c.id == row.chapter)
    && forall r :: r in table ==>
      r.id != row.id && (r.revision != row.revision || r.chapter != row.chapter || r.body.position != row.body.position)
  }

  predicate NodeExists(nodes: seq<NodeRow>, revision: string, id: string) {
    exists n :: n in nodes && n.revision == revision && n.id == id
  }

  /** Primary key, two different existing ends, one edge for each pair of ends. */
  predicate EdgeFits(nodes: seq<NodeRow>, table: seq<EdgeRow>, row: EdgeRow) {
    row.from != row.to && NodeExists(nodes, row.revision, row.from) && NodeExists(nodes, row.revision, row.to)
    && forall r :: r in table ==> r.id != row.id && (r.revision != row.revision || r.from != row.from || r.to != row.to)
  }

  function ChapterRowOf(revision: string, c: Chapter): ChapterRow {
    ChapterRow(Physical(revision, "c", c.id), revision, c.(id := ""))
  }

  function NodeRowOf(revision: string, chapters: set<string>, n: Node): NodeRow {
    NodeRow(Physical(revision, "n", n.id), revision, if n.chapterID in chapters then Physical(revision, "c", n.chapterID) else "",
            n.(id := "", chapterID := ""))
  }

  function EdgeRowOf(revision: string, nodes: set<string>, e: Edge): EdgeRow {
    EdgeRow(Physical(revision, "e", e.id), revision,
            if e.from in nodes then Physical(revision, "n", e.from) else "",
            if e.to in nodes then Physical(revision, "n", e.to) else "")
  }

  /** Inserts the rows of some chapters one after another; None when a constraint fails. */
  function InsertChapters(table: seq<ChapterRow>, revision: string, cs: seq<Chapter>): Option<seq<ChapterRow>> {
    if cs == [] then Some(table)
    else
      var t := InsertChapters(table, revision, cs[..|cs| - 1]);
      var row := ChapterRowOf(revision, cs[|cs| - 1]);
      if t.Some? && ChapterFits(t.value, row) then Some(t.value + [row]) else None
  }

  function InsertNodes(chapters: seq<ChapterRow>, table: seq<NodeRow>, revision: string, known: set<string>, ns: seq<Node>): Option<seq<NodeRow>> {
    if ns == [] then Some(table)
    else
      var t := InsertNodes(chapters, table, revision, known, ns[..|ns| - 1]);
      var row := NodeRowOf(revision, known, ns[|ns| - 1]);
      if t.Some? && NodeFits(chapters, t.value, row) then Some(t.value + [row]) else None
  }

  function InsertEdges(nodes: seq<NodeRow>, table: seq<EdgeRow>, revision: string, known: set<string>, es: seq<Edge>): Option<seq<EdgeRow>> {
    if es == [] then Some(table)
    else
      var t := InsertEdges(nodes, table, revision, known, es[..|es| - 1]);
      var row := EdgeRowOf(revision, known, es[|es| - 1]);
      if t.Some? && EdgeFits(nodes, t.value, row) then Some(t.value + [row]) else None
  }

  datatype Outcome = Saved | Stale | Rejected

  /** Absent book data and empty book data are stored alike. */
  function NormalBook(b: Option<BookMeta>): Option<BookMeta> {
    if b == Some(BookMeta("", "", "")) then None else b
  }

  /** One transaction: nothing is written unless the expected revision is the latest and every constraint holds. */
  function Save(t: Tables, expected: int, id: string, d: Draft): (Tables, Outcome) {
    if |t.revisions| != expected then (t, Stale)
    else if HasRevision(t, id) then (t, Rejected)
    else
      var chapters := InsertChapters(t.chapters, id, d.chapters);
      if chapters.None? then (t, Rejected)
      else
        var nodes := InsertNodes(chapters.value, t.nodes, id, ChapterIDs(d.chapters), d.nodes);
        if nodes.None? then (t, Rejected)
        else
          var edges := InsertEdges(nodes.value, t.edges, id, IDs(d.nodes), d.edges);
          if edges.None? then (t, Rejected)
          else
            (Tables(Append(LogOf(t), id, NormalBook(d.book)).revisions, chapters.value, nodes.value, edges.value, t.active), Saved)
  }

  /** What a successful insertion has appended, and what it has checked. */
  lemma {:induction false} ChaptersInserted(table: seq<ChapterRow>, revision: string, cs: seq<Chapter>)
    requires InsertChapters(table, revision, cs).Some?
    ensures var t := InsertChapters(table, revision, cs).value;
      && t == table + ChapterRowsOf(revision, cs)
      && (forall i, j :: 0 <= i < j < |cs| ==> cs[i].id != cs[j].id && cs[i].position != cs[j].position)
  {
    if cs != [] {
      var n := |cs| - 1;
      ChaptersInserted(table, revision, cs[..n]);
      var t := InsertChapters(table, revision, cs[..n]).value;
      forall i | 0 <= i < n ensures cs[i].id != cs[n].id && cs[i].position != cs[n].position {
        assert t[|table| + i] == ChapterRowOf(revision, cs[..n][i]);
        assert t[|table| + i] in t;
      }
      assert forall i :: 0 <= i < n ==> cs[..n][i] == cs[i];
    }
  }

  function ChapterRowsOf(revision: string, cs: seq<Chapter>): (rows: seq<ChapterRow>)
    ensures |rows| == |cs| && forall i :: 0 <= i < |cs| ==> rows[i] == ChapterRowOf(revision, cs[i])
  {
    if cs == [] then [] else ChapterRowsOf(revision, cs[..|cs| - 1]) + [ChapterRowOf(revision, cs[|cs| - 1])]
  }

  function NodeRowsOf(revision: string, known: set<string>, ns: seq<Node>): (rows: seq<NodeRow>)
    ensures |rows| == |ns| && forall i :: 0 <= i < |ns| ==> rows[i] == NodeRowOf(revision, known, ns[i])
  {
    if ns == [] then [] else NodeRowsOf(revision, known, ns[..|ns| - 1]) + [NodeRowOf(revision, known, ns[|ns| - 1])]
  }

  function EdgeRowsOf(revision: string, known: set<string>, es: seq<Edge>): (rows: seq<EdgeRow>)
    ensures |rows| == |es| && forall i :: 0 <= i < |es| ==> rows[i] == EdgeRowOf(revision, known, es[i])
  {
    if es == [] then [] else EdgeRowsOf(revision, known, es[..|es| - 1]) + [EdgeRowOf(revision, known, es[|es| - 1])]
  }

  lemma {:induction false} NodesInserted(chapters: seq<ChapterRow>, table: seq<NodeRow>, revision: string, known: set<string>, ns: seq<Node>)
    requires InsertNodes(chapters, table, revision, known, ns).Some?
    ensures var t := InsertNodes(chapters, table, revision, known, ns).value;
      t == table + NodeRowsOf(revision, known, ns)
    ensures var rows := NodeRowsOf(revision, known, ns);
      forall i, j :: 0 <= i < j < |ns| ==> rows[i].id != rows[j].id && (rows[i].chapter != rows[j].chapter || ns[i].position != ns[j].position)
    ensures var rows := NodeRowsOf(revision, known, ns);
      forall i :: 0 <= i < |ns| ==> exists c :: c in chapters && c.revision == revision && c.id == rows[i].chapter
  {
    if ns != [] {
      var n := |ns| - 1;
      NodesInserted(chapters, table, revision, known, ns[..n]);
      var t := InsertNodes(chapters, table, revision, known, ns[..n]).value;
      var rows := NodeRowsOf(revision, known, ns);
      assert rows[..n] == NodeRowsOf(revision, known, ns[..n]);
      forall i | 0 <= i < n ensures rows[i].id != rows[n].id && (rows[i].chapter != rows[n].chapter || ns[i].position != ns[n].position) {
        assert t[|table| + i] == rows[..n][i];
        assert t[|table| + i] in t;
      }
    }
  }

  lemma {:induction false} EdgesInserted(nodes: seq<NodeRow>, table: seq<EdgeRow>, revision: string, known: set<string>, es: seq<Edge>)
    requires InsertEdges(nodes, table, revision, known, es).Some?
    ensures var t := InsertEdges(nodes, table, revision, known, es).value;
      t == table + EdgeRowsOf(revision, known, es)
    ensures var rows := EdgeRowsOf(revision, known, es);
      forall i, j :: 0 <= i < j < |es| ==> rows[i].id != rows[j].id
    ensures var rows := EdgeRowsOf(revision, known, es);
      forall i :: 0 <= i < |es| ==> rows[i].from != rows[i].to && NodeExists(nodes, revision, rows[i].from) && NodeExists(nodes, revision, rows[i].to)
  {
    assert es != [] ==> EdgeRowOf(revision, known, es[|es| - 1]).revision == revision;
    hide EdgeRowOf;
    if es != [] {
      var n := |es| - 1;
      EdgesInserted(nodes, table, revision, known, es[..n]);
      var t := InsertEdges(nodes, table, revision, known, es[..n]).value;
      var rows := EdgeRowsOf(revision, known, es);
      assert rows[..n] == EdgeRowsOf(revision, known, es[..n]);
      forall i | 0 <= i < n ensures rows[i].id != rows[n].id {
        assert t[|table| + i] == rows[..n][i];
        assert t[|table| + i] in t;
      }
    }
  }

  // ----- loading ---------------------------------------------------------------------------

  function ChapterOf(row: ChapterRow): Chapter {
    row.body.(id := Logical(row.id, row.revision, "c"))
  }

  function NodeOf(row: NodeRow): Node {
    row.body.(id := Logical(row.id, row.revision, "n"), chapterID := Logical(row.chapter, row.revision, "c"))
  }

  function EdgeOf(row: EdgeRow): Edge {
    Edge(Logical(row.id, row.revision, "e"), Logical(row.from, row.revision, "n"), Logical(row.to, row.revision, "n"))
  }

  function ChaptersOf(t: Tables, revision: string): seq<ChapterRow> { Filter((r: ChapterRow) => r.revision == revision, t.chapters) }

  function NodesOf(t: Tables, revision: string): seq<NodeRow> { Filter((r: NodeRow) => r.revision == revision, t.nodes) }

  function EdgesOf(t: Tables, revision: string): seq<EdgeRow> { Filter((r: EdgeRow) => r.revision == revision, t.edges) }

  /** The order of each query; the primary key comes last, so no two rows tie. */
  predicate ChapterRowBefore(a: ChapterRow, b: ChapterRow) {
    a.body.position < b.body.position || (a.body.position == b.body.position && Less(a.id, b.id))
  }

  predicate NodeRowBefore(a: NodeRow, b: NodeRow) {
    Less(a.chapter, b.chapter)
    || (a.chapter == b.chapter && (a.body.position < b.body.position || (a.body.position == b.body.position && Less(a.id, b.id))))
  }

  predicate EdgeRowBefore(a: EdgeRow, b: EdgeRow) { Less(a.id, b.id) }

  ghost predicate LoadedFrom(t: Tables, r: RevisionRow, cs: seq<ChapterRow>, ns: seq<NodeRow>, es: seq<EdgeRow>, x: Draft) {
    && r in t.revisions
    && Ordered(ChapterRowBefore, ChaptersOf(t, r.id), cs)
    && Ordered(NodeRowBefore, NodesOf(t, r.id), ns)
    && Ordered(EdgeRowBefore, EdgesOf(t, r.id), es)
    && x == Draft(r.body, Map(ChapterOf, cs), Map(NodeOf, ns), Map(EdgeOf, es))
  }

  /** Loading a revision yields x. */
  ghost predicate Loads(t: Tables, revision: string, x: Draft) {
    exists r: RevisionRow, cs, ns, es :: r.id == revision && LoadedFrom(t, r, cs, ns, es, x)
  }

  // ----- sorted drafts ---------------------------------------------------------------------

  predicate ChapterBefore(a: Chapter, b: Chapter) { a.position < b.position }

  predicate NodeBefore(a: Node, b: Node) {
    Less(a.chapterID, b.chapterID) || (a.chapterID == b.chapterID && a.position < b.position)
  }

  predicate EdgeBefore(a: Edge, b: Edge) { Less(a.id, b.id) }

  /** x is d in sorted order, with absent and empty book data identified. */
  ghost predicate SortedForm(d: Draft, x: Draft) {
    && x.book == NormalBook(d.book)
    && Ordered(ChapterBefore, d.chapters, x.chapters)
    && Ordered(NodeBefore, d.nodes, x.nodes)
    && Ordered(EdgeBefore, d.edges, x.edges)
  }
}
