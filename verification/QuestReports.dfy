/** What a draft is reported for, code by code, in terms of its fields. */
module QuestReports {
  import opened Options
  import opened Walks
  import opened QuestValidation

  /** A reward that can be granted. */
  ghost predicate Grantable(r: Reward) {
    r.Reward? && (
      || (r.kind == "item" && r.item != "" && r.amount > 0.0 && r.amount <= 100000.0)
      || (r.kind == "experience" && r.experience > 0.0 && r.experience <= 1000000.0)
      || (r.kind == "command" && 1 <= |r.command| <= 2048)
      || (r.kind == "unlock" && 1 <= |r.unlockID| <= 256))
  }

  const REQUIREMENTS := ["", "all_completed", "one_completed", "all_started", "one_started"]

  ghost predicate HasNode(d: Draft, id: string) { exists n :: n in d.nodes && n.id == id }

  /** An edge between two different nodes of the draft. */
  ghost predicate Proper(d: Draft, e: Edge) {
    HasNode(d, e.from) && HasNode(d, e.to) && e.from != e.to
  }

  ghost function ProperEdges(d: Draft): set<(string, string)> {
    set e | e in d.edges && Proper(d, e) :: (e.from, e.to)
  }

  /** Some node of the draft refers to a mod for which the store answers l. */
  ghost predicate RefersTo(d: Draft, owner: string -> Lookup, n: Node, ref: ModRef, l: Lookup) {
    n in d.nodes && ref in n.modRefs && ref.Text? && ref.id != "" && owner(ref.id) == l
  }

  ghost predicate SamePlace(d: Draft, i: int, j: int) {
    0 <= i < j < |d.nodes| && d.nodes[i].chapterID == d.nodes[j].chapterID && d.nodes[i].position == d.nodes[j].position
  }

  /** Two proper edges whose ends, joined by a zero byte, are spelled alike. */
  ghost predicate SameEnds(d: Draft, i: int, j: int) {
    && 0 <= i < j < |d.edges| && Proper(d, d.edges[i]) && Proper(d, d.edges[j])
    && d.edges[i].from + "\0" + d.edges[i].to == d.edges[j].from + "\0" + d.edges[j].to
  }

  /** Node n is untouched by the proper edges, and there is another one. */
  ghost predicate Lonely(d: Draft, m: Node, n: Node) {
    && m in d.nodes && n in d.nodes && m.id != n.id
    && forall e :: e in d.edges && Proper(d, e) ==> e.from != n.id && e.to != n.id
  }

  /** The condition for each code. */
  ghost predicate Deserves(d: Draft, pack: string, owner: string -> Lookup, c: Code) {
    match c
    case DuplicateID =>
      || (exists i :: 0 <= i < |d.chapters| && d.chapters[i].id == "")
      || (exists i :: 0 <= i < |d.nodes| && d.nodes[i].id == "")
      || (exists i, j :: 0 <= i < j < |d.chapters| && d.chapters[i].id == d.chapters[j].id)
      || (exists i, j :: 0 <= i < j < |d.nodes| && d.nodes[i].id == d.nodes[j].id)
    case DuplicatePosition =>
      || (exists i, j :: 0 <= i < j < |d.chapters| && d.chapters[i].position == d.chapters[j].position)
      || (exists i, j :: SamePlace(d, i, j))
    case InvalidPosition => exists i :: 0 <= i < |d.chapters| && d.chapters[i].position < 0
    case MissingChapter => exists i :: 0 <= i < |d.nodes| && forall x :: x in d.chapters ==> x.id != d.nodes[i].chapterID
    case InvalidDependencyRequirement => exists i :: 0 <= i < |d.nodes| && d.nodes[i].dependencyRequirement !in REQUIREMENTS
    case InvalidMinRequired => exists i :: 0 <= i < |d.nodes| && d.nodes[i].minRequiredDependencies < 0
    case InvalidReward => exists i, r :: 0 <= i < |d.nodes| && r in d.nodes[i].rewards && !Grantable(r)
    case CrossPackReference => exists n, ref, p :: RefersTo(d, owner, n, ref, OwnedBy(p)) && p != pack
    case MissingModReference => exists n, ref :: RefersTo(d, owner, n, ref, NotFound)
    case MissingNode => exists i :: 0 <= i < |d.edges| && !(HasNode(d, d.edges[i].from) && HasNode(d, d.edges[i].to))
    case SelfEdge => exists i :: 0 <= i < |d.edges| && HasNode(d, d.edges[i].from) && d.edges[i].from == d.edges[i].to
    case DuplicateEdge => exists i, j :: SameEnds(d, i, j)
    case Cycle => Cyclic(ProperEdges(d))
    case OrphanNode => exists m, n :: Lonely(d, m, n)
  }

  lemma KnownNodes(d: Draft)
    ensures forall id :: id in IDs(d.nodes) <==> HasNode(d, id)
    ensures forall e :: Kept(IDs(d.nodes), e) <==> Proper(d, e)
    ensures Graph(IDs(d.nodes), d.edges) == ProperEdges(d)
  {
    forall id | HasNode(d, id) ensures id in IDs(d.nodes) {
      var n :| n in d.nodes && n.id == id;
      assert n.id in IDs(d.nodes);
    }
    forall e ensures Kept(IDs(d.nodes), e) <==> Proper(d, e) {}
  }

  ghost predicate ByChapter(d: Draft, c: Code) {
    exists i :: 0 <= i < |d.chapters| && c in ChapterCodes(d.chapters, i)
  }

  ghost predicate ByNode(d: Draft, pack: string, owner: string -> Lookup, c: Code) {
    exists i :: 0 <= i < |d.nodes| && c in NodeCodes(ChapterIDs(d.chapters), d.nodes, i, pack, owner)
  }

  ghost predicate ByEdge(d: Draft, c: Code) {
    exists i :: 0 <= i < |d.edges| && c in EdgeCodes(IDs(d.nodes), d.edges, i)
  }

  lemma ReportedBy(d: Draft, pack: string, owner: string -> Lookup, c: Code)
    ensures c in Reported(d, pack, owner) <==>
      ByChapter(d, c) || ByNode(d, pack, owner, c) || ByEdge(d, c)
      || (c == Cycle && Cyclic(ProperEdges(d))) || (c == OrphanNode && HasOrphan(IDs(d.nodes), d.edges))
  {
    KnownNodes(d);
    hide ChapterCodes, NodeCodes, EdgeCodes, HasOrphan, Graph, ProperEdges, Cyclic;
  }

  // ----- part by part ----------------------------------------------------------------------

  /** What chapter i is reported for. */
  ghost predicate ChapterGives(d: Draft, i: int, c: Code)
    requires 0 <= i < |d.chapters|
  {
    match c
    case DuplicateID => d.chapters[i].id == "" || exists j :: 0 <= j < i && d.chapters[j].id == d.chapters[i].id
    case DuplicatePosition => exists j :: 0 <= j < i && d.chapters[j].position == d.chapters[i].position
    case InvalidPosition => d.chapters[i].position < 0
    case _ => false
  }

  lemma ChapterParts(d: Draft, i: nat, c: Code)
    requires i < |d.chapters|
    ensures c in ChapterCodes(d.chapters, i) <==> ChapterGives(d, i, c)
  {
  }

  /** What edge i is reported for. */
  ghost predicate EdgeGives(d: Draft, i: int, c: Code)
    requires 0 <= i < |d.edges|
  {
    var e := d.edges[i];
    match c
    case MissingNode => !(HasNode(d, e.from) && HasNode(d, e.to))
    case SelfEdge => HasNode(d, e.from) && e.from == e.to
    case DuplicateEdge => exists j :: SameEnds(d, j, i)
    case _ => false
  }

  lemma EdgeParts(d: Draft, i: nat, c: Code)
    requires i < |d.edges|
    ensures c in EdgeCodes(IDs(d.nodes), d.edges, i) <==> EdgeGives(d, i, c)
  {
    KnownNodes(d);
    var nodes := IDs(d.nodes);
    hide IDs, HasNode, Graph, ProperEdges;
    assert EdgeName(d.edges[i]) in NamesBefore(nodes, d.edges, i) && Proper(d, d.edges[i]) <==> exists j :: SameEnds(d, j, i) by {
      if EdgeName(d.edges[i]) in NamesBefore(nodes, d.edges, i) && Proper(d, d.edges[i]) {
        var j :| 0 <= j < i && Kept(nodes, d.edges[j]) && EdgeName(d.edges[j]) == EdgeName(d.edges[i]);
        assert SameEnds(d, j, i);
      }
      if j :| SameEnds(d, j, i) { assert Kept(nodes, d.edges[j]); }
    }
    hide NamesBefore, SameEnds;
  }

  lemma RewardsAgree(r: Reward)
    ensures ValidReward(r) <==> Grantable(r)
  {
  }

  lemma RefGives(d: Draft, pack: string, owner: string -> Lookup, n: Node, ref: ModRef, c: Code)
    requires n in d.nodes && ref in n.modRefs
    ensures c in RefCodes(ref, pack, owner) <==>
      || (c == CrossPackReference && exists p :: RefersTo(d, owner, n, ref, OwnedBy(p)) && p != pack)
      || (c == MissingModReference && RefersTo(d, owner, n, ref, NotFound))
  {
    if ref.Text? && ref.id != "" && owner(ref.id).OwnedBy? {
      assert RefersTo(d, owner, n, ref, OwnedBy(owner(ref.id).pack));
    }
  }

  /** The clashes and fields for which node i is reported. */
  ghost predicate NodeGives(d: Draft, pack: string, owner: string -> Lookup, i: int, c: Code)
    requires 0 <= i < |d.nodes|
  {
    var n := d.nodes[i];
    match c
    case DuplicateID => n.id == "" || exists j :: 0 <= j < i && d.nodes[j].id == n.id
    case DuplicatePosition => exists j :: SamePlace(d, j, i)
    case MissingChapter => forall x :: x in d.chapters ==> x.id != n.chapterID
    case InvalidDependencyRequirement => n.dependencyRequirement !in REQUIREMENTS
    case InvalidMinRequired => n.minRequiredDependencies < 0
    case InvalidReward => exists r :: r in n.rewards && !Grantable(r)
    case CrossPackReference => exists ref, p :: RefersTo(d, owner, n, ref, OwnedBy(p)) && p != pack
    case MissingModReference => exists ref :: RefersTo(d, owner, n, ref, NotFound)
    case _ => false
  }

  lemma GivenFields(n: Node, idTaken: bool, chapterKnown: bool, placeTaken: bool, pack: string, owner: string -> Lookup, c: Code)
    requires c != CrossPackReference && c != MissingModReference
    ensures c in NodeCodesGiven(n, idTaken, chapterKnown, placeTaken, pack, owner) <==>
      match c
      case DuplicateID => n.id == "" || idTaken
      case DuplicatePosition => placeTaken
      case MissingChapter => !chapterKnown
      case InvalidDependencyRequirement => n.dependencyRequirement !in REQUIREMENTS
      case InvalidMinRequired => n.minRequiredDependencies < 0
      case InvalidReward => exists r :: r in n.rewards && !Grantable(r)
      case _ => false
  {
    RewardsAllAgree(n);
    RefCodesFew(n, pack, owner);
    assert ValidRequirement(n.dependencyRequirement) <==> n.dependencyRequirement in REQUIREMENTS;
    assert !exists r :: r in n.modRefs && c in RefCodes(r, pack, owner);
    WhenIs(c);
    hide RefCodes, ValidReward, Grantable, ValidRequirement, When;
  }

  lemma WhenIs(c: Code)
    ensures forall b, x :: c in When(b, x) <==> b && c == x
  {
  }

  lemma GivenRefs(n: Node, idTaken: bool, chapterKnown: bool, placeTaken: bool, pack: string, owner: string -> Lookup, c: Code)
    requires c == CrossPackReference || c == MissingModReference
    ensures c in NodeCodesGiven(n, idTaken, chapterKnown, placeTaken, pack, owner) <==>
      exists ref :: ref in n.modRefs && c in RefCodes(ref, pack, owner)
  {
    hide RefCodes, ValidReward, ValidRequirement;
  }

  lemma RewardsAllAgree(n: Node)
    ensures (exists r :: r in n.rewards && !ValidReward(r)) <==> exists r :: r in n.rewards && !Grantable(r)
  {
    forall r ensures ValidReward(r) <==> Grantable(r) { RewardsAgree(r); }
    hide ValidReward, Grantable;
  }

  lemma RefCodesFew(n: Node, pack: string, owner: string -> Lookup)
    ensures forall ref :: ref in n.modRefs ==> RefCodes(ref, pack, owner) <= {CrossPackReference, MissingModReference}
  {
  }

  lemma RefParts(d: Draft, pack: string, owner: string -> Lookup, n: Node, c: Code)
    requires n in d.nodes
    ensures (exists ref :: ref in n.modRefs && c in RefCodes(ref, pack, owner)) <==>
      || (c == CrossPackReference && exists ref, p :: RefersTo(d, owner, n, ref, OwnedBy(p)) && p != pack)
      || (c == MissingModReference && exists ref :: RefersTo(d, owner, n, ref, NotFound))
  {
    if ref :| ref in n.modRefs && c in RefCodes(ref, pack, owner) { RefGives(d, pack, owner, n, ref, c); }
    if ref, p :| RefersTo(d, owner, n, ref, OwnedBy(p)) && p != pack { RefGives(d, pack, owner, n, ref, c); }
    if ref :| RefersTo(d, owner, n, ref, NotFound) { RefGives(d, pack, owner, n, ref, c); }
  }

  lemma NodeParts(d: Draft, pack: string, owner: string -> Lookup, i: nat, c: Code)
    requires i < |d.nodes|
    ensures c in NodeCodes(ChapterIDs(d.chapters), d.nodes, i, pack, owner) <==> NodeGives(d, pack, owner, i, c)
  {
    var n := d.nodes[i];
    assert n in d.nodes;
    assert n.chapterID in ChapterIDs(d.chapters) <==> exists x :: x in d.chapters && x.id == n.chapterID;
    var placeTaken := exists j :: 0 <= j < i && d.nodes[j].chapterID == n.chapterID && d.nodes[j].position == n.position;
    assert (exists j :: SamePlace(d, j, i)) <==> placeTaken by {
      if j :| 0 <= j < i && d.nodes[j].chapterID == n.chapterID && d.nodes[j].position == n.position { assert SamePlace(d, j, i); }
    }
    hide SamePlace, NodeCodesGiven, RefCodes, RefersTo, Grantable, ChapterIDs;
    var idTaken, known := exists j :: 0 <= j < i && d.nodes[j].id == n.id, n.chapterID in ChapterIDs(d.chapters);
    if c == CrossPackReference || c == MissingModReference {
      GivenRefs(n, idTaken, known, placeTaken, pack, owner, c);
      RefParts(d, pack, owner, n, c);
    } else {
      GivenFields(n, idTaken, known, placeTaken, pack, owner, c);
    }
  }

  // ----- the whole -------------------------------------------------------------------------

  lemma ChaptersDeserve(d: Draft, c: Code)
    ensures ByChapter(d, c) <==> exists i :: 0 <= i < |d.chapters| && ChapterGives(d, i, c)
    ensures ByEdge(d, c) <==> exists i :: 0 <= i < |d.edges| && EdgeGives(d, i, c)
  {
    hide ChapterCodes, ChapterGives, EdgeCodes, EdgeGives;
    forall i | 0 <= i < |d.chapters| ensures c in ChapterCodes(d.chapters, i) <==> ChapterGives(d, i, c) { ChapterParts(d, i, c); }
    forall i | 0 <= i < |d.edges| ensures c in EdgeCodes(IDs(d.nodes), d.edges, i) <==> EdgeGives(d, i, c) { EdgeParts(d, i, c); }
  }

  lemma NodesDeserve(d: Draft, pack: string, owner: string -> Lookup, c: Code)
    ensures ByNode(d, pack, owner, c) <==> exists i :: 0 <= i < |d.nodes| && NodeGives(d, pack, owner, i, c)
  {
    hide NodeCodes, NodeGives;
    forall i | 0 <= i < |d.nodes|
      ensures c in NodeCodes(ChapterIDs(d.chapters), d.nodes, i, pack, owner) <==> NodeGives(d, pack, owner, i, c)
    {
      NodeParts(d, pack, owner, i, c);
    }
  }

  lemma LonelyIsolated(d: Draft, n: Node)
    requires n in d.nodes
    ensures Isolated(IDs(d.nodes), d.edges, n.id) <==> forall e :: e in d.edges && Proper(d, e) ==> e.from != n.id && e.to != n.id
  {
    KnownNodes(d);
    if Isolated(IDs(d.nodes), d.edges, n.id) {
      forall e | e in d.edges && Proper(d, e) ensures e.from != n.id && e.to != n.id { assert (e.from, e.to) in ProperEdges(d); }
    }
  }

  /** Several nodes and an isolated one. */
  lemma OrphanIff(d: Draft)
    ensures HasOrphan(IDs(d.nodes), d.edges) <==> exists m, n :: Lonely(d, m, n)
  {
    hide Isolated, Graph, Proper, Kept;
    var ids := IDs(d.nodes);
    if HasOrphan(ids, d.edges) {
      var v :| v in ids && Isolated(ids, d.edges, v);
      var other := Another(ids, v);
      var n :| n in d.nodes && n.id == v;
      var m :| m in d.nodes && m.id == other;
      LonelyIsolated(d, n);
      assert Lonely(d, m, n);
    }
    if m, n :| Lonely(d, m, n) {
      assert {m.id, n.id} <= ids && |{m.id, n.id}| == 2;
      SubsetSize({m.id, n.id}, ids);
      LonelyIsolated(d, n);
    }
  }

  lemma SubsetSize<T>(a: set<T>, b: set<T>)
    requires a <= b
    ensures |a| <= |b|
  {
    assert b == a + (b - a);
  }

  lemma Another<T>(s: set<T>, x: T) returns (y: T)
    requires |s| > 1 && x in s
    ensures y in s && y != x
  {
    assert s == {x} || s - {x} != {};
    y :| y in s - {x};
  }

  lemma NodeAt(d: Draft, n: Node) returns (i: nat)
    requires n in d.nodes
    ensures i < |d.nodes| && d.nodes[i] == n
  {
    i :| 0 <= i < |d.nodes| && d.nodes[i] == n;
  }

  ghost predicate SomePart(d: Draft, pack: string, owner: string -> Lookup, c: Code) {
    || (exists i :: 0 <= i < |d.chapters| && ChapterGives(d, i, c))
    || (exists i :: 0 <= i < |d.nodes| && NodeGives(d, pack, owner, i, c))
    || (exists i :: 0 <= i < |d.edges| && EdgeGives(d, i, c))
  }

  /** What some part gives, the draft deserves. */
  lemma PartDeserves(d: Draft, pack: string, owner: string -> Lookup, c: Code)
    requires SomePart(d, pack, owner, c)
    ensures c != Cycle && c != OrphanNode && Deserves(d, pack, owner, c)
  {
    hide Grantable, RefersTo, SamePlace, SameEnds, HasNode, Proper, Cyclic, Lonely;
    if i :| 0 <= i < |d.chapters| && ChapterGives(d, i, c) {
    } else if i :| 0 <= i < |d.nodes| && NodeGives(d, pack, owner, i, c) {
      NodeDeserves(d, pack, owner, i, c);
    } else {
      var i :| 0 <= i < |d.edges| && EdgeGives(d, i, c);
    }
  }

  lemma NodeDeserves(d: Draft, pack: string, owner: string -> Lookup, i: nat, c: Code)
    requires i < |d.nodes| && NodeGives(d, pack, owner, i, c)
    ensures c != Cycle && c != OrphanNode && Deserves(d, pack, owner, c)
  {
    hide Grantable, RefersTo, SamePlace;
    var n := d.nodes[i];
    match c
    case InvalidReward => var r :| r in n.rewards && !Grantable(r);
    case CrossPackReference => var ref, p :| RefersTo(d, owner, n, ref, OwnedBy(p)) && p != pack;
    case MissingModReference => var ref :| RefersTo(d, owner, n, ref, NotFound);
    case DuplicatePosition => var j :| SamePlace(d, j, i);
    case _ =>
  }

  lemma DeservesPart(d: Draft, pack: string, owner: string -> Lookup, c: Code)
    requires Deserves(d, pack, owner, c) && c != Cycle && c != OrphanNode
    ensures SomePart(d, pack, owner, c)
  {
    hide Grantable, HasNode, Proper, Cyclic, Lonely;
    match c
    case DuplicateID =>
      if i :| 0 <= i < |d.chapters| && d.chapters[i].id == "" { assert ChapterGives(d, i, c); }
      else if i, j :| 0 <= i < j < |d.chapters| && d.chapters[i].id == d.chapters[j].id { assert ChapterGives(d, j, c); }
      else if i :| 0 <= i < |d.nodes| && d.nodes[i].id == "" { assert NodeGives(d, pack, owner, i, c); }
      else {
        var i, j :| 0 <= i < j < |d.nodes| && d.nodes[i].id == d.nodes[j].id;
        assert NodeGives(d, pack, owner, j, c);
      }
    case DuplicatePosition =>
      if i, j :| 0 <= i < j < |d.chapters| && d.chapters[i].position == d.chapters[j].position {
        assert ChapterGives(d, j, c);
      } else {
        var i, j :| SamePlace(d, i, j);
        assert NodeGives(d, pack, owner, j, c);
      }
    case InvalidPosition =>
      var i :| 0 <= i < |d.chapters| && d.chapters[i].position < 0;
      assert ChapterGives(d, i, c);
    case MissingChapter =>
      var i :| 0 <= i < |d.nodes| && forall x :: x in d.chapters ==> x.id != d.nodes[i].chapterID;
      assert NodeGives(d, pack, owner, i, c);
    case InvalidDependencyRequirement =>
      var i :| 0 <= i < |d.nodes| && d.nodes[i].dependencyRequirement !in REQUIREMENTS;
      assert NodeGives(d, pack, owner, i, c);
    case InvalidMinRequired =>
      var i :| 0 <= i < |d.nodes| && d.nodes[i].minRequiredDependencies < 0;
      assert NodeGives(d, pack, owner, i, c);
    case InvalidReward =>
      var i, r :| 0 <= i < |d.nodes| && r in d.nodes[i].rewards && !Grantable(r);
      assert NodeGives(d, pack, owner, i, c);
    case CrossPackReference =>
      var n, ref, p :| RefersTo(d, owner, n, ref, OwnedBy(p)) && p != pack;
      var i := NodeAt(d, n);
      assert NodeGives(d, pack, owner, i, c);
    case MissingModReference =>
      var n, ref :| RefersTo(d, owner, n, ref, NotFound);
      var i := NodeAt(d, n);
      assert NodeGives(d, pack, owner, i, c);
    case MissingNode =>
      var i :| 0 <= i < |d.edges| && !(HasNode(d, d.edges[i].from) && HasNode(d, d.edges[i].to));
      assert EdgeGives(d, i, c);
    case SelfEdge =>
      var i :| 0 <= i < |d.edges| && HasNode(d, d.edges[i].from) && d.edges[i].from == d.edges[i].to;
      assert EdgeGives(d, i, c);
    case DuplicateEdge =>
      var i, j :| SameEnds(d, i, j);
      assert EdgeGives(d, j, c);
  }

  /** A draft is reported for a code exactly when it deserves it. */
  lemma ReportedIff(d: Draft, pack: string, owner: string -> Lookup, c: Code)
    ensures c in Reported(d, pack, owner) <==> Deserves(d, pack, owner, c)
  {
    ReportedBy(d, pack, owner, c);
    ChaptersDeserve(d, c);
    NodesDeserve(d, pack, owner, c);
    OrphanIff(d);
    hide Reported, ByChapter, ByNode, ByEdge, HasOrphan, Cyclic, ProperEdges, Lonely, ChapterGives, NodeGives, EdgeGives;
    if SomePart(d, pack, owner, c) { PartDeserves(d, pack, owner, c); }
    if Deserves(d, pack, owner, c) && c != Cycle && c != OrphanNode { DeservesPart(d, pack, owner, c); }
  }
}
