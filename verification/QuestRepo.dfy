/** The quest tables as the repository changes them: row by row inside one transaction. */
module QuestRepo {
  import opened Options
  import opened QuestValidation
  import opened QuestStore
  import opened QuestRoundTrip
  import opened RevisionLog

  /** Applying a draft archives the applied revision and sets the active id. */
  function Apply(t: Tables, id: string): (Tables, Promotion) {
    var (l, o) := Promote(LogOf(t), id);
    (t.(revisions := l.revisions, active := l.active), o)
  }

  /** The physical ids under which logical ones are stored. */
  function PhysicalIDs(revision: string, kind: string, ids: set<string>): map<string, string> {
    map x | x in ids :: Physical(revision, kind, x)
  }

  function PhysicalID(ids: map<string, string>, x: string): string {
    if x in ids then ids[x] else ""
  }

  lemma {:induction false} ChaptersFail(table: seq<ChapterRow>, revision: string, cs: seq<Chapter>, i: nat)
    requires i <= |cs| && InsertChapters(table, revision, cs[..i]).None?
    ensures InsertChapters(table, revision, cs).None?
    decreases |cs|
  {
    if i < |cs| {
      assert cs[..|cs| - 1][..i] == cs[..i];
      ChaptersFail(table, revision, cs[..|cs| - 1], i);
    } else {
      assert cs[..i] == cs;
    }
  }

  lemma {:induction false} NodesFail(chapters: seq<ChapterRow>, table: seq<NodeRow>, revision: string, known: set<string>, ns: seq<Node>, i: nat)
    requires i <= |ns| && InsertNodes(chapters, table, revision, known, ns[..i]).None?
    ensures InsertNodes(chapters, table, revision, known, ns).None?
    decreases |ns|
  {
    hide NodeRowOf, NodeFits;
    if i < |ns| {
      assert ns[..|ns| - 1][..i] == ns[..i];
      NodesFail(chapters, table, revision, known, ns[..|ns| - 1], i);
    } else {
      assert ns[..i] == ns;
    }
  }

  lemma {:induction false} EdgesFail(nodes: seq<NodeRow>, table: seq<EdgeRow>, revision: string, known: set<string>, es: seq<Edge>, i: nat)
    requires i <= |es| && InsertEdges(nodes, table, revision, known, es[..i]).None?
    ensures InsertEdges(nodes, table, revision, known, es).None?
    decreases |es|
  {
    hide EdgeRowOf, EdgeFits;
    if i < |es| {
      assert es[..|es| - 1][..i] == es[..i];
      EdgesFail(nodes, table, revision, known, es[..|es| - 1], i);
    } else {
      assert es[..i] == es;
    }
  }

  lemma NoNodes(id: string, ns: seq<Node>)
    ensures PhysicalIDs(id, "n", IDs(ns[..0])) == map[]
  {
  }

  /** The row of the i-th node and the ids known after it. */
  lemma NodeNext(id: string, known: set<string>, ns: seq<Node>, i: nat)
    requires i < |ns|
    ensures ns[..i + 1] == ns[..i] + [ns[i]] && ns[..i + 1][..i] == ns[..i]
    ensures PhysicalIDs(id, "n", IDs(ns[..i + 1])) == PhysicalIDs(id, "n", IDs(ns[..i]))[ns[i].id := Physical(id, "n", ns[i].id)]
    ensures NodeRow(Physical(id, "n", ns[i].id), id, PhysicalID(PhysicalIDs(id, "c", known), ns[i].chapterID), ns[i].(id := "", chapterID := ""))
         == NodeRowOf(id, known, ns[i])
  {
    hide Physical;
    assert IDs(ns[..i + 1]) == IDs(ns[..i]) + {ns[i].id};
  }

  class Repository {
    var revisions: seq<RevisionRow>
    var chapters: seq<ChapterRow>
    var nodes: seq<NodeRow>
    var edges: seq<EdgeRow>
    var active: Option<string>

    function Contents(): Tables
      reads this
    {
      Tables(revisions, chapters, nodes, edges, active)
    }

    constructor ()
      ensures Contents() == EMPTY && Consistent(Contents())
    {
      revisions, chapters, nodes, edges, active := [], [], [], [], None;
    }

    /** MAX(revision), or zero. */
    method LatestNumber() returns (latest: int)
      requires Consistent(Contents())
      ensures latest == |revisions|
    {
      latest := 0;
      for i := 0 to |revisions|
        invariant latest == i
      {
        if revisions[i].number > latest { latest := revisions[i].number; }
      }
    }

    method InsertChapterRows(id: string, cs: seq<Chapter>) returns (ok: bool, ids: map<string, string>)
      modifies this`chapters
      ensures ok <==> InsertChapters(old(chapters), id, cs).Some?
      ensures ok ==> chapters == InsertChapters(old(chapters), id, cs).value && ids == PhysicalIDs(id, "c", ChapterIDs(cs))
    {
      hide ChapterFits, ChapterRowOf;
      ids := map[];
      for i := 0 to |cs|
        invariant InsertChapters(old(chapters), id, cs[..i]) == Some(chapters)
        invariant ids == PhysicalIDs(id, "c", ChapterIDs(cs[..i]))
      {
        assert cs[..i + 1] == cs[..i] + [cs[i]];
        assert ChapterIDs(cs[..i + 1]) == ChapterIDs(cs[..i]) + {cs[i].id};
        ids := ids[cs[i].id := Physical(id, "c", cs[i].id)];
        var row := ChapterRowOf(id, cs[i]);
        if !ChapterFits(chapters, row) {
          ChaptersFail(old(chapters), id, cs, i + 1);
          return false, ids;
        }
        chapters := chapters + [row];
      }
      assert cs[..|cs|] == cs;
      ok := true;
    }

    method InsertNodeRows(id: string, chapterIDs: map<string, string>, ghost known: set<string>, ns: seq<Node>)
      returns (ok: bool, ids: map<string, string>)
      requires chapterIDs == PhysicalIDs(id, "c", known)
      modifies this`nodes
      ensures ok <==> InsertNodes(chapters, old(nodes), id, known, ns).Some?
      ensures ok ==> nodes == InsertNodes(chapters, old(nodes), id, known, ns).value && ids == PhysicalIDs(id, "n", IDs(ns))
    {
      hide NodeFits, Physical, NodeRowOf, PhysicalIDs, PhysicalID, IDs;
      assert PhysicalIDs(id, "n", IDs(ns[..0])) == map[] by { NoNodes(id, ns); }
      ids := map[];
      for i := 0 to |ns|
        invariant InsertNodes(chapters, old(nodes), id, known, ns[..i]) == Some(nodes)
        invariant ids == PhysicalIDs(id, "n", IDs(ns[..i]))
      {
        var physical := Physical(id, "n", ns[i].id);
        ids := ids[ns[i].id := physical];
        var row := NodeRow(physical, id, PhysicalID(chapterIDs, ns[i].chapterID), ns[i].(id := "", chapterID := ""));
        NodeNext(id, known, ns, i);
        if !NodeFits(chapters, nodes, row) {
          NodesFail(chapters, old(nodes), id, known, ns, i + 1);
          return false, ids;
        }
        nodes := nodes + [row];
      }
      assert ns[..|ns|] == ns;
      ok := true;
    }

    method InsertEdgeRows(id: string, nodeIDs: map<string, string>, ghost known: set<string>, es: seq<Edge>) returns (ok: bool)
      requires nodeIDs == PhysicalIDs(id, "n", known)
      modifies this`edges
      ensures ok <==> InsertEdges(nodes, old(edges), id, known, es).Some?
      ensures ok ==> edges == InsertEdges(nodes, old(edges), id, known, es).value
    {
      hide EdgeFits, Physical;
      for i := 0 to |es|
        invariant InsertEdges(nodes, old(edges), id, known, es[..i]) == Some(edges)
      {
        assert es[..i + 1] == es[..i] + [es[i]];
        var row := EdgeRow(Physical(id, "e", es[i].id), id, PhysicalID(nodeIDs, es[i].from), PhysicalID(nodeIDs, es[i].to));
        assert row == EdgeRowOf(id, known, es[i]);
        if !EdgeFits(nodes, edges, row) {
          EdgesFail(nodes, old(edges), id, known, es, i + 1);
          return false;
        }
        edges := edges + [row];
      }
      assert es[..|es|] == es;
      ok := true;
    }

    method Rollback(t: Tables)
      modifies this
      ensures Contents() == t
    {
      revisions, chapters, nodes, edges, active := t.revisions, t.chapters, t.nodes, t.edges, t.active;
    }

    method SaveQuestDraft(expected: int, id: string, d: Draft) returns (o: Outcome)
      requires Consistent(Contents())
      modifies this
      ensures (Contents(), o) == Save(old(Contents()), expected, id, d) && Consistent(Contents())
    {
      hide InsertChapters, InsertNodes, InsertEdges, Consistent, HasRevision, PhysicalIDs;
      SavedConsistent(Contents(), expected, id, d);
      var snapshot := Contents();
      var latest := LatestNumber();
      if latest != expected { return Stale; }
      if HasRevision(snapshot, id) { return Rejected; }
      revisions := revisions + [Revision(id, latest + 1, Drafted, NormalBook(d.book))];
      var ok, chapterIDs := InsertChapterRows(id, d.chapters);
      if ok {
        var nodeIDs;
        ok, nodeIDs := InsertNodeRows(id, chapterIDs, ChapterIDs(d.chapters), d.nodes);
        if ok { ok := InsertEdgeRows(id, nodeIDs, IDs(d.nodes), d.edges); }
      }
      if !ok {
        Rollback(snapshot);
        return Rejected;
      }
      o := Saved;
    }

    method ApplyQuest(id: string) returns (o: Promotion)
      requires Consistent(Contents())
      modifies this`revisions, this`active
      ensures (Contents(), o) == Apply(old(Contents()), id)
    {
      var l;
      l, o := PromoteDraft(LogOf(Contents()), id);
      revisions, active := l.revisions, l.active;
    }
  }
}
