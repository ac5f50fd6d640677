/** Exactly which drafts the quest tables accept, in terms of the draft's own fields. */
module QuestAccepted {
  import opened Options
  import opened QuestValidation
  import opened QuestStore
  import opened QuestRoundTrip

  // ----- chapters --------------------------------------------------------------------------

  ghost predicate ChapterClear(table: seq<ChapterRow>, revision: string, c: Chapter) {
    c.position >= 0 && forall r :: r in table ==> r.id != Physical(revision, "c", c.id)
  }

  ghost predicate ChaptersStorable(table: seq<ChapterRow>, revision: string, cs: seq<Chapter>) {
    && (forall i :: 0 <= i < |cs| ==> ChapterClear(table, revision, cs[i]))
    && (forall i, j :: 0 <= i < j < |cs| ==> cs[i].id != cs[j].id && cs[i].position != cs[j].position)
  }

  lemma SamePhysical(revision: string, kind: string, a: string, b: string)
    ensures Physical(revision, kind, a) == Physical(revision, kind, b) <==> a == b
  {
    if Physical(revision, kind, a) == Physical(revision, kind, b) { PhysicalInjective(revision, kind, a, b); }
  }

  lemma {:induction false} ChapterFitsIff(table: seq<ChapterRow>, revision: string, cs: seq<Chapter>, c: Chapter)
    requires forall r :: r in table ==> r.revision != revision
    ensures ChapterFits(table + ChapterRowsOf(revision, cs), ChapterRowOf(revision, c)) <==>
      ChapterClear(table, revision, c) && forall i :: 0 <= i < |cs| ==> cs[i].id != c.id && cs[i].position != c.position
  {
    var rows := ChapterRowsOf(revision, cs);
    var all := table + rows;
    assert forall i :: 0 <= i < |table| ==> all[i] == table[i];
    assert forall i :: 0 <= i < |cs| ==> all[|table| + i] == rows[i];
    forall i ensures Physical(revision, "c", i) == Physical(revision, "c", c.id) <==> i == c.id { SamePhysical(revision, "c", i, c.id); }
    hide Physical;
    if ChapterFits(all, ChapterRowOf(revision, c)) {
      forall i | 0 <= i < |cs| ensures cs[i].id != c.id && cs[i].position != c.position { assert rows[i] in all; }
      forall r | r in table ensures r.id != Physical(revision, "c", c.id) { assert r in all; }
    }
  }

  lemma {:induction false} ChaptersIff(table: seq<ChapterRow>, revision: string, cs: seq<Chapter>)
    requires forall r :: r in table ==> r.revision != revision
    ensures InsertChapters(table, revision, cs).Some? <==> ChaptersStorable(table, revision, cs)
  {
    hide ChapterFits, ChapterRowOf, ChapterClear;
    if cs != [] {
      var n := |cs| - 1;
      ChaptersIff(table, revision, cs[..n]);
      if InsertChapters(table, revision, cs[..n]).Some? {
        ChaptersInserted(table, revision, cs[..n]);
        ChapterFitsIff(table, revision, cs[..n], cs[n]);
      }
    }
  }

  // ----- nodes -----------------------------------------------------------------------------

  ghost predicate NodeClear(table: seq<NodeRow>, revision: string, known: set<string>, n: Node) {
    n.position >= 0 && n.chapterID in known && forall r :: r in table ==> r.id != Physical(revision, "n", n.id)
  }

  predicate NodesApart(a: Node, b: Node) {
    a.id != b.id && (a.chapterID != b.chapterID || a.position != b.position)
  }

  ghost predicate NodesStorable(table: seq<NodeRow>, revision: string, known: set<string>, ns: seq<Node>) {
    && (forall i :: 0 <= i < |ns| ==> NodeClear(table, revision, known, ns[i]))
    && (forall i, j :: 0 <= i < j < |ns| ==> NodesApart(ns[i], ns[j]))
  }

  /** The chapters that rows of this revision can name. */
  ghost predicate Chaptered(chapters: seq<ChapterRow>, revision: string, known: set<string>) {
    forall id :: ChapterExists(chapters, revision, id) <==> exists k :: k in known && id == Physical(revision, "c", k)
  }

  predicate ChapterExists(chapters: seq<ChapterRow>, revision: string, id: string) {
    exists c :: c in chapters && c.revision == revision && c.id == id
  }

  lemma {:induction false} ChapterFound(chapters: seq<ChapterRow>, revision: string, known: set<string>, n: Node)
    requires Chaptered(chapters, revision, known)
    ensures ChapterExists(chapters, revision, NodeRowOf(revision, known, n).chapter) <==> n.chapterID in known
  {
    if k :| k in known && "" == Physical(revision, "c", k) { PhysicalNotEmpty(revision, "c", k); }
    hide Physical, ChapterExists;
  }

  lemma {:induction false} NodeRowsApart(revision: string, known: set<string>, a: Node, b: Node)
    requires a.chapterID in known && b.chapterID in known
    ensures NodesApart(a, b) <==> RowsApart(NodeRowOf(revision, known, a), NodeRowOf(revision, known, b))
  {
    SamePhysical(revision, "n", a.id, b.id);
    SamePhysical(revision, "c", a.chapterID, b.chapterID);
    hide Physical;
  }

  predicate RowsApart(r: NodeRow, s: NodeRow) {
    r.id != s.id && (r.chapter != s.chapter || r.body.position != s.body.position)
  }

  lemma {:induction false} NodeFitsSplit(chapters: seq<ChapterRow>, table: seq<NodeRow>, rows: seq<NodeRow>, row: NodeRow)
    requires forall r :: r in table ==> r.revision != row.revision
    requires forall r :: r in rows ==> r.revision == row.revision
    ensures NodeFits(chapters, table + rows, row) <==>
      && row.body.position >= 0 && ChapterExists(chapters, row.revision, row.chapter)
      && (forall r :: r in table ==> r.id != row.id) && forall i :: 0 <= i < |rows| ==> RowsApart(rows[i], row)
  {
    var all := table + rows;
    assert forall r :: r in all <==> r in table || r in rows;
  }

  lemma {:induction false} NodeFitsIff(chapters: seq<ChapterRow>, table: seq<NodeRow>, revision: string, known: set<string>, ns: seq<Node>, n: Node)
    requires (forall r :: r in table ==> r.revision != revision) && Chaptered(chapters, revision, known)
    requires forall i :: 0 <= i < |ns| ==> ns[i].chapterID in known
    ensures NodeFits(chapters, table + NodeRowsOf(revision, known, ns), NodeRowOf(revision, known, n)) <==>
      NodeClear(table, revision, known, n) && forall i :: 0 <= i < |ns| ==> NodesApart(ns[i], n)
  {
    ChapterFound(chapters, revision, known, n);
    var rows, row := NodeRowsOf(revision, known, ns), NodeRowOf(revision, known, n);
    assert row.id == Physical(revision, "n", n.id) && row.revision == revision && row.body.position == n.position;
    NodeFitsSplit(chapters, table, rows, row);
    forall i | 0 <= i < |ns| && n.chapterID in known ensures NodesApart(ns[i], n) <==> RowsApart(rows[i], row) {
      NodeRowsApart(revision, known, ns[i], n);
    }
    hide Physical, NodeRowOf, NodesApart, RowsApart, Chaptered, NodeRowsOf, NodeFits, ChapterExists;
  }

  lemma {:induction false} NodesIff(chapters: seq<ChapterRow>, table: seq<NodeRow>, revision: string, known: set<string>, ns: seq<Node>)
    requires (forall r :: r in table ==> r.revision != revision) && Chaptered(chapters, revision, known)
    ensures InsertNodes(chapters, table, revision, known, ns).Some? <==> NodesStorable(table, revision, known, ns)
  {
    hide NodeFits, NodeRowOf, NodesApart, Chaptered;
    if ns != [] {
      var n := |ns| - 1;
      NodesIff(chapters, table, revision, known, ns[..n]);
      if InsertNodes(chapters, table, revision, known, ns[..n]).Some? {
        NodesInserted(chapters, table, revision, known, ns[..n]);
        NodeFitsIff(chapters, table, revision, known, ns[..n], ns[n]);
      }
    }
  }

  // ----- edges -----------------------------------------------------------------------------

  ghost predicate EdgeClear(table: seq<EdgeRow>, revision: string, known: set<string>, e: Edge) {
    e.from != e.to && e.from in known && e.to in known && forall r :: r in table ==> r.id != Physical(revision, "e", e.id)
  }

  predicate EdgesApart(a: Edge, b: Edge) {
    a.id != b.id && (a.from != b.from || a.to != b.to)
  }

  ghost predicate EdgesStorable(table: seq<EdgeRow>, revision: string, known: set<string>, es: seq<Edge>) {
    && (forall i :: 0 <= i < |es| ==> EdgeClear(table, revision, known, es[i]))
    && (forall i, j :: 0 <= i < j < |es| ==> EdgesApart(es[i], es[j]))
  }

  /** The nodes that rows of this revision can name. */
  ghost predicate Noded(nodes: seq<NodeRow>, revision: string, known: set<string>) {
    forall id :: NodeExists(nodes, revision, id) <==> exists k :: k in known && id == Physical(revision, "n", k)
  }

  lemma {:induction false} EndsFound(nodes: seq<NodeRow>, revision: string, known: set<string>, e: Edge)
    requires Noded(nodes, revision, known)
    ensures var row := EdgeRowOf(revision, known, e);
      && (NodeExists(nodes, revision, row.from) <==> e.from in known)
      && (NodeExists(nodes, revision, row.to) <==> e.to in known)
      && (e.from in known && e.to in known ==> (row.from == row.to <==> e.from == e.to))
  {
    if k :| k in known && "" == Physical(revision, "n", k) { PhysicalNotEmpty(revision, "n", k); }
    SamePhysical(revision, "n", e.from, e.to);
    hide Physical, NodeExists;
  }

  lemma {:induction false} EdgeRowsApart(revision: string, known: set<string>, a: Edge, b: Edge)
    requires a.from in known && a.to in known && b.from in known && b.to in known
    ensures EdgesApart(a, b) <==> var r, s := EdgeRowOf(revision, known, a), EdgeRowOf(revision, known, b);
      r.id != s.id && (r.from != s.from || r.to != s.to)
  {
    SamePhysical(revision, "e", a.id, b.id);
    SamePhysical(revision, "n", a.from, b.from);
    SamePhysical(revision, "n", a.to, b.to);
    hide Physical;
  }

  lemma {:induction false} EdgeFitsIff(nodes: seq<NodeRow>, table: seq<EdgeRow>, revision: string, known: set<string>, es: seq<Edge>, e: Edge)
    requires (forall r :: r in table ==> r.revision != revision) && Noded(nodes, revision, known)
    requires forall i :: 0 <= i < |es| ==> es[i].from in known && es[i].to in known
    ensures EdgeFits(nodes, table + EdgeRowsOf(revision, known, es), EdgeRowOf(revision, known, e)) <==>
      EdgeClear(table, revision, known, e) && forall i :: 0 <= i < |es| ==> EdgesApart(es[i], e)
  {
    EndsFound(nodes, revision, known, e);
    var rows, row := EdgeRowsOf(revision, known, es), EdgeRowOf(revision, known, e);
    var all := table + rows;
    assert row.id == Physical(revision, "e", e.id) && row.revision == revision;
    assert forall i :: 0 <= i < |es| ==> rows[i].revision == revision;
    forall i | 0 <= i < |es| && e.from in known && e.to in known
      ensures EdgesApart(es[i], e) <==> rows[i].id != row.id && (rows[i].from != row.from || rows[i].to != row.to)
    {
      EdgeRowsApart(revision, known, es[i], e);
    }
    hide Physical, EdgeRowOf, EdgesApart, Noded, EdgeRowsOf, NodeExists;
    assert forall i :: 0 <= i < |es| ==> all[|table| + i] == rows[i];
    if EdgeFits(nodes, all, row) {
      forall i | 0 <= i < |es| ensures EdgesApart(es[i], e) { assert rows[i] in all; }
      forall r | r in table ensures r.id != row.id { assert r in all; }
    }
  }

  lemma {:induction false} EdgesIff(nodes: seq<NodeRow>, table: seq<EdgeRow>, revision: string, known: set<string>, es: seq<Edge>)
    requires (forall r :: r in table ==> r.revision != revision) && Noded(nodes, revision, known)
    ensures InsertEdges(nodes, table, revision, known, es).Some? <==> EdgesStorable(table, revision, known, es)
  {
    hide EdgeFits, EdgeRowOf, EdgesApart, Noded;
    if es != [] {
      var n := |es| - 1;
      EdgesIff(nodes, table, revision, known, es[..n]);
      if InsertEdges(nodes, table, revision, known, es[..n]).Some? {
        EdgesInserted(nodes, table, revision, known, es[..n]);
        EdgeFitsIff(nodes, table, revision, known, es[..n], es[n]);
      }
    }
  }

  // ----- the whole draft -------------------------------------------------------------------

  /** Positions are not negative and ids and places are distinct; nodes name chapters of the draft, edges
      two different nodes of it; no stored row has one of the physical ids. */
  ghost predicate Storable(t: Tables, revision: string, d: Draft) {
    && ChaptersStorable(t.chapters, revision, d.chapters)
    && NodesStorable(t.nodes, revision, ChapterIDs(d.chapters), d.nodes)
    && EdgesStorable(t.edges, revision, IDs(d.nodes), d.edges)
  }

  lemma {:induction false} DraftChaptered(table: seq<ChapterRow>, revision: string, cs: seq<Chapter>)
    requires forall r :: r in table ==> r.revision != revision
    ensures Chaptered(table + ChapterRowsOf(revision, cs), revision, ChapterIDs(cs))
  {
    var rows := ChapterRowsOf(revision, cs);
    var all := table + rows;
    assert forall i :: 0 <= i < |cs| ==> rows[i].revision == revision && rows[i].id == Physical(revision, "c", cs[i].id);
    hide Physical, ChapterRowOf, ChapterRowsOf;
    forall k | k in ChapterIDs(cs) ensures ChapterExists(all, revision, Physical(revision, "c", k)) {
      var i :| 0 <= i < |cs| && cs[i].id == k;
      assert rows[i] in all;
    }
    forall id | ChapterExists(all, revision, id) ensures exists k :: k in ChapterIDs(cs) && id == Physical(revision, "c", k) {
      var c :| c in all && c.revision == revision && c.id == id;
      var i :| 0 <= i < |cs| && rows[i] == c;
      assert cs[i].id in ChapterIDs(cs);
    }
  }

  lemma {:induction false} DraftNoded(table: seq<NodeRow>, revision: string, known: set<string>, ns: seq<Node>)
    requires forall r :: r in table ==> r.revision != revision
    ensures Noded(table + NodeRowsOf(revision, known, ns), revision, IDs(ns))
  {
    var rows := NodeRowsOf(revision, known, ns);
    var all := table + rows;
    assert forall i :: 0 <= i < |ns| ==> rows[i].revision == revision && rows[i].id == Physical(revision, "n", ns[i].id);
    hide Physical, NodeRowOf, NodeRowsOf;
    forall k | k in IDs(ns) ensures NodeExists(all, revision, Physical(revision, "n", k)) {
      var i :| 0 <= i < |ns| && ns[i].id == k;
      assert rows[i] in all;
    }
    forall id | NodeExists(all, revision, id) ensures exists k :: k in IDs(ns) && id == Physical(revision, "n", k) {
      var n :| n in all && n.revision == revision && n.id == id;
      var i :| 0 <= i < |ns| && rows[i] == n;
      assert ns[i].id in IDs(ns);
    }
  }

  /** A save succeeds exactly when it expects the latest revision, brings a new id and a storable draft;
      it is called stale exactly when it expects another revision; unless it succeeds nothing is written. */
  lemma SavedIff(t: Tables, expected: int, id: string, d: Draft)
    requires Consistent(t)
    ensures Save(t, expected, id, d).1 == Saved <==>
      expected == |t.revisions| && (forall r :: r in t.revisions ==> r.id != id) && Storable(t, id, d)
    ensures Save(t, expected, id, d).1 == Stale <==> expected != |t.revisions|
    ensures Save(t, expected, id, d).1 != Saved ==> Save(t, expected, id, d).0 == t
  {
    hide InsertChapters, InsertNodes, InsertEdges, ChapterRowsOf, NodeRowsOf, Chaptered, Noded, NodesStorable, ChaptersStorable, EdgesStorable;
    hide ChapterIDs, IDs, NormalBook;
    assert (exists r :: r in t.revisions && r.id == id) ==> HasRevision(t, id);
    if !HasRevision(t, id) {
      ChaptersIff(t.chapters, id, d.chapters);
      DraftChaptered(t.chapters, id, d.chapters);
      if InsertChapters(t.chapters, id, d.chapters).Some? { ChaptersInserted(t.chapters, id, d.chapters); }
      var cs, known := t.chapters + ChapterRowsOf(id, d.chapters), ChapterIDs(d.chapters);
      NodesIff(cs, t.nodes, id, known, d.nodes);
      DraftNoded(t.nodes, id, known, d.nodes);
      if InsertNodes(cs, t.nodes, id, known, d.nodes).Some? { NodesInserted(cs, t.nodes, id, known, d.nodes); }
      EdgesIff(t.nodes + NodeRowsOf(id, known, d.nodes), t.edges, id, IDs(d.nodes), d.edges);
    }
  }
}
