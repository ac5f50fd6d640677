/** Quest drafts and the validation that decides what may be saved and what may be applied. */
module QuestValidation {
  import opened Options
  import opened Walks
  import Kahn

  datatype BookMeta = BookMeta(title: string, icon: string, progressionMode: string)

  datatype Chapter = Chapter(id: string, title: string, description: string, coverColor: string, position: int, icon: string)

  /** A reward as decoded from JSON; fields that are absent or of another type read as empty or zero. */
  datatype Reward =
    | NotARecord
    | Reward(kind: string, item: string, amount: real, experience: real, command: string, unlockID: string)

  datatype ModRef = Text(id: string) | NotText

  datatype Node = Node(
    id: string, chapterID: string, title: string, description: string, icon: string, x: real, y: real,
    prerequisites: seq<string>, rewards: seq<Reward>, modRefs: seq<ModRef>, position: int,
    subtitle: string, shape: string, size: real, optional: bool, invisible: bool,
    dependencyRequirement: string, minRequiredDependencies: int, tasks: seq<string>)

  datatype Edge = Edge(id: string, from: string, to: string)

  datatype Draft = Draft(book: Option<BookMeta>, chapters: seq<Chapter>, nodes: seq<Node>, edges: seq<Edge>)

  /** What the store answers when asked for the pack that owns a mod reference. */
  datatype Lookup = OwnedBy(pack: string) | NotFound | Failed

  datatype Code =
    | DuplicateID | DuplicatePosition | InvalidPosition | MissingChapter | InvalidDependencyRequirement
    | InvalidMinRequired | InvalidReward | CrossPackReference | MissingModReference
    | MissingNode | SelfEdge | DuplicateEdge | Cycle | OrphanNode

  datatype Issue = Issue(code: Code, path: string)

  /** An isolated node is only worth a warning. */
  predicate IsError(c: Code) { c != OrphanNode }

  function Codes(issues: seq<Issue>): set<Code> {
    set i | i in issues :: i.code
  }

  predicate Blocking(issues: seq<Issue>) {
    exists i :: i in issues && IsError(i.code)
  }

  predicate ValidReward(r: Reward) {
    r.Reward? &&
    match r.kind
    case "item" => r.item != "" && 0.0 < r.amount <= 100000.0
    case "experience" => 0.0 < r.experience <= 1000000.0
    case "command" => r.command != "" && |r.command| <= 2048
    case "unlock" => r.unlockID != "" && |r.unlockID| <= 256
    case _ => false
  }

  predicate ValidRequirement(s: string) {
    s == "" || s == "all_completed" || s == "one_completed" || s == "all_started" || s == "one_started"
  }

  // ----- what each part of a draft is reported for -----------------------------------------

  function When(b: bool, c: Code): set<Code> { if b then {c} else {} }

  function ChapterCodes(cs: seq<Chapter>, i: nat): set<Code>
    requires i < |cs|
  {
    When(cs[i].id == "" || exists j :: 0 <= j < i && cs[j].id == cs[i].id, DuplicateID)
    + When(exists j :: 0 <= j < i && cs[j].position == cs[i].position, DuplicatePosition)
    + When(cs[i].position < 0, InvalidPosition)
  }

  function RefCodes(ref: ModRef, pack: string, owner: string -> Lookup): set<Code> {
    if ref.NotText? || ref.id == "" then {}
    else
      match owner(ref.id)
      case OwnedBy(p) => When(p != pack, CrossPackReference)
      case NotFound => {MissingModReference}
      case Failed => {}
  }

  /** What one node is reported for, given whether its id, chapter and place clash with earlier ones. */
  function NodeCodesGiven(n: Node, idTaken: bool, chapterKnown: bool, placeTaken: bool, pack: string, owner: string -> Lookup): set<Code> {
    When(n.id == "" || idTaken, DuplicateID)
    + When(!chapterKnown, MissingChapter)
    + When(placeTaken, DuplicatePosition)
    + When(!ValidRequirement(n.dependencyRequirement), InvalidDependencyRequirement)
    + When(n.minRequiredDependencies < 0, InvalidMinRequired)
    + When(exists r :: r in n.rewards && !ValidReward(r), InvalidReward)
    + (set r, c | r in n.modRefs && c in RefCodes(r, pack, owner) :: c)
  }

  function NodeCodes(chapters: set<string>, ns: seq<Node>, i: nat, pack: string, owner: string -> Lookup): set<Code>
    requires i < |ns|
  {
    NodeCodesGiven(ns[i],
      exists j :: 0 <= j < i && ns[j].id == ns[i].id,
      ns[i].chapterID in chapters,
      exists j :: 0 <= j < i && ns[j].chapterID == ns[i].chapterID && ns[j].position == ns[i].position, pack, owner)
  }

  predicate Kept(nodes: set<string>, e: Edge) {
    e.from in nodes && e.to in nodes && e.from != e.to
  }

  /** The name under which repeated edges are recognised. */
  function EdgeName(e: Edge): string { e.from + "\0" + e.to }

  function EdgeCodes(nodes: set<string>, es: seq<Edge>, i: nat): set<Code>
    requires i < |es|
  {
    if es[i].from !in nodes || es[i].to !in nodes then {MissingNode}
    else if es[i].from == es[i].to then {SelfEdge}
    else When(EdgeName(es[i]) in NamesBefore(nodes, es, i), DuplicateEdge)
  }

  /** The names of the kept edges among the first n. */
  function NamesBefore(nodes: set<string>, es: seq<Edge>, n: nat): set<string>
    requires n <= |es|
  {
    set j | 0 <= j < n && Kept(nodes, es[j]) :: EdgeName(es[j])
  }

  /** The edges the cycle check works on, in order. */
  function KeptPairs(nodes: set<string>, es: seq<Edge>): seq<(string, string)> {
    if es == [] then []
    else
      var e := es[|es| - 1];
      KeptPairs(nodes, es[..|es| - 1]) + if Kept(nodes, e) then [(e.from, e.to)] else []
  }

  ghost function Graph(nodes: set<string>, es: seq<Edge>): set<(string, string)> {
    set e | e in es && Kept(nodes, e) :: (e.from, e.to)
  }

  lemma {:induction false} KeptPairsAre(nodes: set<string>, es: seq<Edge>)
    ensures Kahn.EdgeSet(KeptPairs(nodes, es)) == Graph(nodes, es)
    ensures Kahn.Proper(nodes, KeptPairs(nodes, es))
  {
    if es != [] {
      var init, e := es[..|es| - 1], es[|es| - 1];
      KeptPairsAre(nodes, init);
      var p, q := KeptPairs(nodes, init), KeptPairs(nodes, es);
      assert forall x :: x in q <==> x in p || (Kept(nodes, e) && x == (e.from, e.to));
      assert forall x :: x in es <==> x in init || x == e;
      assert forall x :: x in p <==> x in Kahn.EdgeSet(p);
      assert Kahn.EdgeSet(q) == Kahn.EdgeSet(p) + if Kept(nodes, e) then {(e.from, e.to)} else {};
      assert Graph(nodes, es) == Graph(nodes, init) + if Kept(nodes, e) then {(e.from, e.to)} else {};
    }
  }

  /** A node that no kept edge touches. */
  ghost predicate Isolated(nodes: set<string>, es: seq<Edge>, v: string) {
    forall e :: e in Graph(nodes, es) ==> e.0 != v && e.1 != v
  }

  ghost predicate HasOrphan(nodes: set<string>, es: seq<Edge>) {
    |nodes| > 1 && SomeIsolated(nodes, es, nodes)
  }

  function IDs(ns: seq<Node>): set<string> { set n | n in ns :: n.id }

  function ChapterIDs(cs: seq<Chapter>): set<string> { set c | c in cs :: c.id }

  /** Everything a draft is reported for. */
  ghost function Reported(d: Draft, pack: string, owner: string -> Lookup): set<Code> {
    (set i, c | 0 <= i < |d.chapters| && c in ChapterCodes(d.chapters, i) :: c)
    + (set i, c | 0 <= i < |d.nodes| && c in NodeCodes(ChapterIDs(d.chapters), d.nodes, i, pack, owner) :: c)
    + (set i, c | 0 <= i < |d.edges| && c in EdgeCodes(IDs(d.nodes), d.edges, i) :: c)
    + When(Cyclic(Graph(IDs(d.nodes), d.edges)), Cycle)
    + When(HasOrphan(IDs(d.nodes), d.edges), OrphanNode)
  }

  // ----- the checks ------------------------------------------------------------------------

  function AddIf(issues: seq<Issue>, found: bool, code: Code, path: string): (r: seq<Issue>)
    ensures Codes(r) == Codes(issues) + When(found, code)
  {
    var r := if found then issues + [Issue(code, path)] else issues;
    assert forall i :: i in r <==> i in issues || (found && i == Issue(code, path));
    assert found ==> code in Codes(r) by { assert found ==> Issue(code, path) in r; }
    r
  }

  ghost function ChapterCodesUpTo(cs: seq<Chapter>, n: nat): set<Code>
    requires n <= |cs|
  {
    if n == 0 then {} else ChapterCodesUpTo(cs, n - 1) + ChapterCodes(cs, n - 1)
  }

  ghost function NodeCodesUpTo(chapters: set<string>, ns: seq<Node>, n: nat, pack: string, owner: string -> Lookup): set<Code>
    requires n <= |ns|
  {
    if n == 0 then {} else NodeCodesUpTo(chapters, ns, n - 1, pack, owner) + NodeCodes(chapters, ns, n - 1, pack, owner)
  }

  ghost function EdgeCodesUpTo(nodes: set<string>, es: seq<Edge>, n: nat): set<Code>
    requires n <= |es|
  {
    if n == 0 then {} else EdgeCodesUpTo(nodes, es, n - 1) + EdgeCodes(nodes, es, n - 1)
  }

  lemma {:induction false} ChapterCodesAll(cs: seq<Chapter>, n: nat)
    requires n <= |cs|
    ensures ChapterCodesUpTo(cs, n) == set i, c | 0 <= i < n && c in ChapterCodes(cs, i) :: c
  {
    hide ChapterCodes;
    if n > 0 { ChapterCodesAll(cs, n - 1); }
  }

  lemma {:induction false} NodeCodesAll(chapters: set<string>, ns: seq<Node>, n: nat, pack: string, owner: string -> Lookup)
    requires n <= |ns|
    ensures NodeCodesUpTo(chapters, ns, n, pack, owner) == set i, c | 0 <= i < n && c in NodeCodes(chapters, ns, i, pack, owner) :: c
  {
    hide NodeCodes;
    if n > 0 { NodeCodesAll(chapters, ns, n - 1, pack, owner); }
  }

  lemma {:induction false} EdgeCodesAll(nodes: set<string>, es: seq<Edge>, n: nat)
    requires n <= |es|
    ensures EdgeCodesUpTo(nodes, es, n) == set i, c | 0 <= i < n && c in EdgeCodes(nodes, es, i) :: c
  {
    hide EdgeCodes;
    if n > 0 { EdgeCodesAll(nodes, es, n - 1); }
  }

  method CheckChapters(cs: seq<Chapter>) returns (issues: seq<Issue>, chapters: set<string>)
    ensures chapters == ChapterIDs(cs) && Codes(issues) == ChapterCodesUpTo(cs, |cs|)
  {
    issues, chapters := [], {};
    var positions: set<int> := {};
    for i := 0 to |cs|
      invariant chapters == set j | 0 <= j < i :: cs[j].id
      invariant positions == set j | 0 <= j < i :: cs[j].position
      invariant Codes(issues) == ChapterCodesUpTo(cs, i)
    {
      var c := cs[i];
      issues := AddIf(issues, c.id == "" || c.id in chapters, DuplicateID, "chapters");
      issues := AddIf(issues, c.position in positions, DuplicatePosition, "chapters");
      issues := AddIf(issues, c.position < 0, InvalidPosition, "chapters");
      chapters := chapters + {c.id};
      positions := positions + {c.position};
    }
  }

  method CheckRewards(rewards: seq<Reward>, path: string) returns (issues: seq<Issue>)
    ensures Codes(issues) == When(exists r :: r in rewards && !ValidReward(r), InvalidReward)
  {
    issues := [];
    for i := 0 to |rewards|
      invariant Codes(issues) == When(exists r :: r in rewards[..i] && !ValidReward(r), InvalidReward)
    {
      assert rewards[..i + 1] == rewards[..i] + [rewards[i]];
      issues := AddIf(issues, !ValidReward(rewards[i]), InvalidReward, path);
    }
    assert rewards[..|rewards|] == rewards;
  }

  method CheckRefs(refs: seq<ModRef>, pack: string, owner: string -> Lookup, path: string) returns (issues: seq<Issue>)
    ensures Codes(issues) == set r, c | r in refs && c in RefCodes(r, pack, owner) :: c
  {
    issues := [];
    for i := 0 to |refs|
      invariant Codes(issues) == set r, c | r in refs[..i] && c in RefCodes(r, pack, owner) :: c
    {
      assert refs[..i + 1] == refs[..i] + [refs[i]];
      assert (set r, c | r in refs[..i + 1] && c in RefCodes(r, pack, owner) :: c)
          == (set r, c | r in refs[..i] && c in RefCodes(r, pack, owner) :: c) + RefCodes(refs[i], pack, owner);
      var ref := refs[i];
      if ref.Text? && ref.id != "" {
        var o := owner(ref.id);
        issues := AddIf(issues, o.OwnedBy? && o.pack != pack, CrossPackReference, path);
        issues := AddIf(issues, o.NotFound?, MissingModReference, path);
      }
    }
    assert refs[..|refs|] == refs;
  }

  lemma CodesAppend(a: seq<Issue>, b: seq<Issue>)
    ensures Codes(a + b) == Codes(a) + Codes(b)
  {
    assert forall i :: i in a + b <==> i in a || i in b;
  }

  method CheckNode(n: Node, idTaken: bool, chapterKnown: bool, placeTaken: bool, pack: string, owner: string -> Lookup)
    returns (issues: seq<Issue>)
    ensures Codes(issues) == NodeCodesGiven(n, idTaken, chapterKnown, placeTaken, pack, owner)
  {
    hide ValidReward, RefCodes, ValidRequirement, Codes;
    var path := "nodes." + n.id;
    issues := AddIf([], n.id == "" || idTaken, DuplicateID, "nodes");
    issues := AddIf(issues, !chapterKnown, MissingChapter, path);
    issues := AddIf(issues, placeTaken, DuplicatePosition, path);
    issues := AddIf(issues, !ValidRequirement(n.dependencyRequirement), InvalidDependencyRequirement, path + ".dependencyRequirement");
    issues := AddIf(issues, n.minRequiredDependencies < 0, InvalidMinRequired, path + ".minRequiredDependencies");
    var rewards := CheckRewards(n.rewards, path + ".rewards");
    var refs := CheckRefs(n.modRefs, pack, owner, path + ".modRefs");
    CodesAppend(issues, rewards);
    CodesAppend(issues + rewards, refs);
    NoCodes();
    issues := issues + rewards + refs;
  }

  lemma NoCodes()
    ensures Codes([]) == {}
  {
  }

  method CheckNodes(chapters: set<string>, ns: seq<Node>, pack: string, owner: string -> Lookup)
    returns (issues: seq<Issue>, nodes: set<string>)
    ensures nodes == IDs(ns) && Codes(issues) == NodeCodesUpTo(chapters, ns, |ns|, pack, owner)
  {
    hide NodeCodesGiven, Codes;
    issues, nodes := [], {};
    NoCodes();
    var places: set<(string, int)> := {};
    for i := 0 to |ns|
      invariant nodes == set j | 0 <= j < i :: ns[j].id
      invariant places == set j | 0 <= j < i :: (ns[j].chapterID, ns[j].position)
      invariant Codes(issues) == NodeCodesUpTo(chapters, ns, i, pack, owner)
    {
      var n := ns[i];
      var more := CheckNode(n, n.id in nodes, n.chapterID in chapters, (n.chapterID, n.position) in places, pack, owner);
      CodesAppend(issues, more);
      issues := issues + more;
      nodes := nodes + {n.id};
      places := places + {(n.chapterID, n.position)};
    }
  }

  /** Which edges are reported, and the kept ones as adjacency lists and incoming counts. */
  method CheckEdges(nodes: set<string>, es: seq<Edge>)
    returns (issues: seq<Issue>, adj: map<string, seq<string>>, indeg: map<string, int>)
    ensures Codes(issues) == EdgeCodesUpTo(nodes, es, |es|)
    ensures Counted(nodes, KeptPairs(nodes, es), adj, indeg)
  {
    hide Codes, EdgeName, Counted, NamesBefore, KeptPairs;
    issues, adj := [], map[];
    indeg := map v | v in nodes :: 0;
    NoCodes();
    NothingKept(nodes, es);
    var names: set<string> := {};
    for i := 0 to |es|
      invariant names == NamesBefore(nodes, es, i)
      invariant Codes(issues) == EdgeCodesUpTo(nodes, es, i)
      invariant Counted(nodes, KeptPairs(nodes, es[..i]), adj, indeg)
    {
      var e := es[i];
      var path := "edges." + e.id;
      KeptNext(nodes, es, i);
      if e.from !in nodes || e.to !in nodes {
        issues := AddIf(issues, true, MissingNode, path);
        continue;
      }
      if e.from == e.to {
        issues := AddIf(issues, true, SelfEdge, path);
        continue;
      }
      issues := AddIf(issues, EdgeName(e) in names, DuplicateEdge, path);
      names := names + {EdgeName(e)};
      CountedNext(nodes, KeptPairs(nodes, es[..i]), (e.from, e.to), adj, indeg);
      adj := adj[e.from := (if e.from in adj then adj[e.from] else []) + [e.to]];
      indeg := indeg[e.to := indeg[e.to] + 1];
    }
    assert es[..|es|] == es;
  }

  ghost predicate Counted(nodes: set<string>, kept: seq<(string, string)>, adj: map<string, seq<string>>, indeg: map<string, int>) {
    && indeg.Keys == nodes
    && (forall v :: v in nodes ==> indeg[v] == Kahn.Entering(kept, {}, v))
    && (forall u :: u in nodes ==> (if u in adj then adj[u] else []) == Kahn.TargetsOf(kept, u))
  }

  lemma NothingKept(nodes: set<string>, es: seq<Edge>)
    ensures NamesBefore(nodes, es, 0) == {}
    ensures Counted(nodes, KeptPairs(nodes, es[..0]), map[], map v | v in nodes :: 0)
  {
  }

  lemma KeptNext(nodes: set<string>, es: seq<Edge>, i: nat)
    requires i < |es|
    ensures NamesBefore(nodes, es, i + 1) == NamesBefore(nodes, es, i) + if Kept(nodes, es[i]) then {EdgeName(es[i])} else {}
    ensures var kept := KeptPairs(nodes, es[..i]);
      KeptPairs(nodes, es[..i + 1]) == if Kept(nodes, es[i]) then kept + [(es[i].from, es[i].to)] else kept
  {
    hide EdgeName;
    assert es[..i + 1][..i] == es[..i];
  }

  lemma CountedNext(nodes: set<string>, kept: seq<(string, string)>, x: (string, string), adj: map<string, seq<string>>, indeg: map<string, int>)
    requires Counted(nodes, kept, adj, indeg) && x.0 in nodes && x.1 in nodes
    ensures x.1 in indeg
    ensures Counted(nodes, kept + [x], adj[x.0 := (if x.0 in adj then adj[x.0] else []) + [x.1]], indeg[x.1 := indeg[x.1] + 1])
  {
    hide Kahn.Entering, Kahn.TargetsOf;
    var nextAdj := adj[x.0 := (if x.0 in adj then adj[x.0] else []) + [x.1]];
    forall v | v in nodes ensures indeg[x.1 := indeg[x.1] + 1][v] == Kahn.Entering(kept + [x], {}, v) {
      Kahn.EnteringNext(kept, x, v);
    }
    forall u | u in nodes ensures (if u in nextAdj then nextAdj[u] else []) == Kahn.TargetsOf(kept + [x], u) {
      Kahn.TargetsNext(kept, x, u);
    }
  }

  /** Nodes that nothing points to and that point to nothing. */
  method CheckOrphans(nodes: set<string>, ghost es: seq<Edge>, adj: map<string, seq<string>>, indeg: map<string, int>)
    returns (issues: seq<Issue>)
    requires Counted(nodes, KeptPairs(nodes, es), adj, indeg)
    ensures Codes(issues) == When(HasOrphan(nodes, es), OrphanNode)
  {
    hide Codes, Isolated, Graph, KeptPairs, Kahn.Entering, Kahn.TargetsOf;
    issues := [];
    NoCodes();
    if |nodes| > 1 {
      var rest := nodes;
      ghost var found := false;
      assert nodes - rest == {};
      while rest != {}
        invariant rest <= nodes
        invariant found <==> SomeIsolated(nodes, es, nodes - rest)
        invariant Codes(issues) == When(found, OrphanNode)
        decreases |rest|
      {
        var v :| v in rest;
        IsolatedCounts(nodes, es, adj, indeg, v);
        var orphan := (v !in adj || |adj[v]| == 0) && indeg[v] == 0;
        issues := AddIf(issues, orphan, OrphanNode, "nodes." + v);
        found := found || orphan;
        SomeIsolatedNext(nodes, es, nodes - rest, v);
        assert nodes - (rest - {v}) == (nodes - rest) + {v};
        rest := rest - {v};
      }
      assert nodes - rest == nodes;
    }
  }

  ghost predicate SomeIsolated(nodes: set<string>, es: seq<Edge>, s: set<string>) {
    exists v :: v in s && Isolated(nodes, es, v)
  }

  lemma SomeIsolatedNext(nodes: set<string>, es: seq<Edge>, s: set<string>, v: string)
    ensures SomeIsolated(nodes, es, s + {v}) <==> SomeIsolated(nodes, es, s) || Isolated(nodes, es, v)
  {
    hide Isolated;
    assert v in s + {v};
  }

  lemma IsolatedCounts(nodes: set<string>, es: seq<Edge>, adj: map<string, seq<string>>, indeg: map<string, int>, v: string)
    requires Counted(nodes, KeptPairs(nodes, es), adj, indeg) && v in nodes
    ensures (v !in adj || |adj[v]| == 0) && indeg[v] == 0 <==> Isolated(nodes, es, v)
  {
    var kept := KeptPairs(nodes, es);
    KeptPairsAre(nodes, es);
    Kahn.EnteringZero(kept, {}, v);
    Kahn.TargetsEmpty(kept, v);
    assert forall e :: e in kept <==> e in Graph(nodes, es) by {
      assert forall e :: e in kept <==> e in Kahn.EdgeSet(kept);
    }
  }

  /** All checks; the codes reported are exactly those the draft deserves. */
  method ValidateQuest(d: Draft, pack: string, owner: string -> Lookup) returns (issues: seq<Issue>)
    ensures Codes(issues) == Reported(d, pack, owner)
  {
    hide Codes, ChapterCodes, NodeCodes, EdgeCodes, HasOrphan, Cyclic, Graph, KeptPairs;
    var chapterIssues, chapters := CheckChapters(d.chapters);
    var nodeIssues, nodes := CheckNodes(chapters, d.nodes, pack, owner);
    var edgeIssues, adj, indeg := CheckEdges(nodes, d.edges);
    ChapterCodesAll(d.chapters, |d.chapters|);
    NodeCodesAll(chapters, d.nodes, |d.nodes|, pack, owner);
    EdgeCodesAll(nodes, d.edges, |d.edges|);
    KeptPairsAre(nodes, d.edges);
    var seen := Kahn.CountTaken(nodes, KeptPairs(nodes, d.edges), adj, indeg);
    var orphans := CheckOrphans(nodes, d.edges, adj, indeg);
    issues := chapterIssues + nodeIssues + edgeIssues;
    CodesAppend(chapterIssues, nodeIssues);
    CodesAppend(chapterIssues + nodeIssues, edgeIssues);
    issues := AddIf(issues, seen < |nodes|, Cycle, "edges");
    CodesAppend(issues, orphans);
    issues := issues + orphans;
  }
}
