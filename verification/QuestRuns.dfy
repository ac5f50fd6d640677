/**
 * Every run of save, apply and rollback calls on the quest book of one pack. A call reads in one step
 * and writes in a later one, and the steps of different calls interleave.
 */
module QuestRuns {
  import opened Walks
  import opened QuestValidation
  import opened QuestStore
  import opened QuestRoundTrip
  import opened QuestRepo
  import opened RevisionLog
  import opened QuestGraph

  /** The codes for which the service refuses to save a draft; a cycle is not among them. */
  const REFUSED := {CrossPackReference, DuplicateID, DuplicatePosition, MissingChapter, MissingNode, SelfEdge,
                    InvalidReward, InvalidDependencyRequirement}

  predicate Admissible(codes: set<Code>) { codes !! REFUSED }

  predicate Applicable(codes: set<Code>) { forall c :: c in codes ==> !IsError(c) }

  /** The loop over the issues that decides whether a draft is saved. */
  method Admit(issues: seq<Issue>) returns (ok: bool)
    ensures ok <==> Admissible(Codes(issues))
  {
    for i := 0 to |issues|
      invariant forall k :: 0 <= k < i ==> issues[k].code !in REFUSED
    {
      if issues[i].code in REFUSED {
        assert issues[i].code in Codes(issues);
        return false;
      }
    }
    ok := true;
  }

  /** A revision may be applied exactly when no issue blocks. */
  lemma ApplicableIffNotBlocking(issues: seq<Issue>)
    ensures Applicable(Codes(issues)) <==> !Blocking(issues)
  {
    forall i | i in issues ensures i.code in Codes(issues) { }
  }

  /** What a call has learnt and not yet acted on. */
  datatype Pending =
    | ToApply(id: string)
    | Restoring(d: Draft)
    | ToSave(expected: int, d: Draft)

  datatype World = World(t: Tables, calls: map<nat, Pending>)

  const START := World(EMPTY, map[])

  datatype Event =
    | SaveDraft(expected: int, id: string, d: Draft, owner: string -> Lookup)
    | ReadLatest(call: nat, x: Draft, owner: string -> Lookup)
    | CommitApply(call: nat)
    | ReadTarget(call: nat, target: string, x: Draft)
    | ReadCurrent(call: nat)
    | CommitRollback(call: nat, id: string, owner: string -> Lookup)

  ghost function Submit(t: Tables, pack: string, expected: int, id: string, d: Draft, owner: string -> Lookup): Tables {
    if expected >= 0 && Admissible(Reported(d, pack, owner)) then Save(t, expected, id, d).0 else t
  }

  /** One step; a step whose guard fails leaves the world as it is. */
  ghost function Step(w: World, pack: string, e: Event): World {
    match e
    case SaveDraft(expected, id, d, owner) => w.(t := Submit(w.t, pack, expected, id, d, owner))
    case ReadLatest(call, x, owner) =>
      var n := |w.t.revisions|;
      if n > 0 && Loads(w.t, w.t.revisions[n - 1].id, x) && Applicable(Reported(x, pack, owner))
      then w.(calls := w.calls[call := ToApply(w.t.revisions[n - 1].id)]) else w
    case CommitApply(call) =>
      if call in w.calls && w.calls[call].ToApply? then World(Apply(w.t, w.calls[call].id).0, w.calls - {call}) else w
    case ReadTarget(call, target, x) =>
      if Loads(w.t, target, x) then w.(calls := w.calls[call := Restoring(x)]) else w
    case ReadCurrent(call) =>
      if call in w.calls && w.calls[call].Restoring?
      then w.(calls := w.calls[call := ToSave(|w.t.revisions|, w.calls[call].d)]) else w
    case CommitRollback(call, id, owner) =>
      if call in w.calls && w.calls[call].ToSave?
      then World(Submit(w.t, pack, w.calls[call].expected, id, w.calls[call].d, owner), w.calls - {call}) else w
  }

  ghost function Run(w: World, pack: string, es: seq<Event>): World {
    if es == [] then w else Step(Run(w, pack, es[..|es| - 1]), pack, es[|es| - 1])
  }

  // ----- the invariant ---------------------------------------------------------------------

  ghost predicate Acyclic(t: Tables, id: string) { !Cyclic(StoredEdges(t, id)) }

  ghost predicate AppliedAcyclic(t: Tables) {
    forall i :: 0 <= i < |t.revisions| && t.revisions[i].state != Drafted ==> Acyclic(t, t.revisions[i].id)
  }

  ghost predicate Good(t: Tables) { Consistent(t) && Linked(t) && AppliedAcyclic(t) && LoadsSorted(t) }

  ghost predicate CallsGood(w: World) {
    forall c :: c in w.calls && w.calls[c].ToApply? ==> HasRevision(w.t, w.calls[c].id) && Acyclic(w.t, w.calls[c].id)
  }

  lemma SubmitGood(t: Tables, pack: string, expected: int, id: string, d: Draft, owner: string -> Lookup)
    requires Good(t)
    ensures var u := Submit(t, pack, expected, id, d, owner);
      Good(u) && forall r :: HasRevision(t, r) ==> HasRevision(u, r) && (Acyclic(t, r) <==> Acyclic(u, r))
  {
    var u := Submit(t, pack, expected, id, d, owner);
    if u != t {
      SavedConsistent(t, expected, id, d);
      SavedLinked(t, expected, id, d);
      SavedLoadsSorted(t, expected, id, d);
      forall r | HasRevision(t, r) ensures StoredEdges(u, r) == StoredEdges(t, r) {
        StoredEdgesStable(t, expected, id, d, r);
      }
      SavedLog(t, expected, id, d);
      hide Save, Linked, StoredEdges, LoadsSorted, Consistent;
      forall i | 0 <= i < |u.revisions| && u.revisions[i].state != Drafted ensures Acyclic(u, u.revisions[i].id) {
        assert u.revisions[i] == t.revisions[i];
      }
    }
  }

  lemma SavedLog(t: Tables, expected: int, id: string, d: Draft)
    requires Save(t, expected, id, d).1 == Saved
    ensures LogOf(Save(t, expected, id, d).0) == Append(LogOf(t), id, NormalBook(d.book)) && !HasRevision(t, id)
    ensures forall r :: HasRevision(t, r) ==> HasRevision(Save(t, expected, id, d).0, r)
  {
    SavedTables(t, expected, id, d);
    var u := Save(t, expected, id, d).0;
    RevisionAdded(t, u, u.revisions[|t.revisions|]);
  }

  lemma ApplyGood(t: Tables, id: string)
    requires Good(t) && Acyclic(t, id)
    ensures var u := Apply(t, id).0; Good(u) && forall r :: HasRevision(u, r) <==> HasRevision(t, r)
    ensures forall r :: Acyclic(Apply(t, id).0, r) <==> Acyclic(t, r)
  {
    var u := Apply(t, id).0;
    PromoteSound(LogOf(t), id);
    assert StoredEdgesSame(t, u);
    if Apply(t, id).1 == Promoted {
      var k := PromotedAt(LogOf(t), id);
      assert LogOf(u) == Promote(LogOf(t), id).0;
      hide Promote;
      SameRevisions(t, u);
      AppliedLoadsSorted(t, u);
      hide LoadsSorted;
      forall i | 0 <= i < |u.revisions| && u.revisions[i].state != Drafted ensures Acyclic(u, u.revisions[i].id) {
        assert u.revisions[i].id == t.revisions[i].id;
        assert i != k ==> t.revisions[i].state != Drafted;
      }
    }
  }

  lemma AppliedLoadsSorted(t: Tables, u: Tables)
    requires LoadsSorted(t) && Grows(LogOf(t), LogOf(u)) && |u.revisions| == |t.revisions|
    requires u.chapters == t.chapters && u.nodes == t.nodes && u.edges == t.edges
    ensures LoadsSorted(u)
  {
    hide SortedForm;
    forall i | 0 <= i < |t.revisions| ensures u.revisions[i].id == t.revisions[i].id && u.revisions[i].body == t.revisions[i].body {
      assert LogOf(t).revisions[i] == t.revisions[i];
    }
    forall revision, x | Loads(u, revision, x) ensures SortedForm(x, x) {
      LoadRestated(u, t, revision, x);
    }
  }

  ghost predicate StoredEdgesSame(t: Tables, u: Tables) {
    forall r :: StoredEdges(u, r) == StoredEdges(t, r)
  }

  lemma SameRevisions(t: Tables, u: Tables)
    requires |u.revisions| == |t.revisions| && forall i :: 0 <= i < |t.revisions| ==> u.revisions[i].id == t.revisions[i].id
    ensures forall r :: HasRevision(u, r) <==> HasRevision(t, r)
  {
    forall r | HasRevision(t, r) ensures HasRevision(u, r) {
      var i :| 0 <= i < |t.revisions| && t.revisions[i].id == r;
      assert u.revisions[i].id == r;
    }
  }

  /** What the read of the latest revision promises to the later write. */
  lemma ReadAcyclic(t: Tables, pack: string, id: string, x: Draft, owner: string -> Lookup)
    requires Linked(t) && Loads(t, id, x)
    ensures Applicable(Reported(x, pack, owner)) ==> Acyclic(t, id)
  {
    LoadedCyclic(t, id, x);
    assert Cyclic(Graph(IDs(x.nodes), x.edges)) ==> Cycle in Reported(x, pack, owner);
  }

  lemma StepGood(w: World, pack: string, e: Event)
    requires Good(w.t) && CallsGood(w)
    ensures Good(Step(w, pack, e).t) && CallsGood(Step(w, pack, e))
  {
    hide Good, Acyclic, Submit, Apply, Loads, Reported, Applicable, HasRevision;
    match e
    case SaveDraft(expected, id, d, owner) => SubmitGood(w.t, pack, expected, id, d, owner);
    case ReadLatest(call, x, owner) =>
      var n := |w.t.revisions|;
      if n > 0 && Loads(w.t, w.t.revisions[n - 1].id, x) && Applicable(Reported(x, pack, owner)) {
        GoodLinked(w.t);
        ReadAcyclic(w.t, pack, w.t.revisions[n - 1].id, x, owner);
        LatestExists(w.t);
      }
    case CommitApply(call) =>
      if call in w.calls && w.calls[call].ToApply? { ApplyGood(w.t, w.calls[call].id); }
    case ReadTarget(call, target, x) =>
    case ReadCurrent(call) =>
    case CommitRollback(call, id, owner) =>
      if call in w.calls && w.calls[call].ToSave? {
        SubmitGood(w.t, pack, w.calls[call].expected, id, w.calls[call].d, owner);
      }
  }

  lemma GoodLinked(t: Tables)
    requires Good(t)
    ensures Linked(t)
  {
  }

  lemma LatestExists(t: Tables)
    requires |t.revisions| > 0
    ensures HasRevision(t, t.revisions[|t.revisions| - 1].id)
  {
  }

  lemma {:induction false} RunGood(w: World, pack: string, es: seq<Event>)
    requires Good(w.t) && CallsGood(w)
    ensures Good(Run(w, pack, es).t) && CallsGood(Run(w, pack, es))
  {
    hide Good, CallsGood, Step;
    if es != [] {
      RunGood(w, pack, es[..|es| - 1]);
      StepGood(Run(w, pack, es[..|es| - 1]), pack, es[|es| - 1]);
    }
  }

  lemma StartGood()
    ensures Good(START.t) && CallsGood(START)
  {
  }

  // ----- what holds in every run -----------------------------------------------------------

  /** Nothing cyclic is ever applied: the stored rows of what is or was applied hold no cycle. */
  lemma AppliedIsAcyclic(pack: string, es: seq<Event>, i: nat)
    requires i < |Run(START, pack, es).t.revisions| && Run(START, pack, es).t.revisions[i].state != Drafted
    ensures var t := Run(START, pack, es).t; !Cyclic(StoredEdges(t, t.revisions[i].id))
  {
    hide Cyclic, Run, Step, StoredEdges;
    StartGood();
    RunGood(START, pack, es);
  }

  /** ... and neither does any draft loaded from it. */
  lemma AppliedLoadsAcyclic(pack: string, es: seq<Event>, i: nat, x: Draft)
    requires i < |Run(START, pack, es).t.revisions|
    requires var t := Run(START, pack, es).t; t.revisions[i].state != Drafted && Loads(t, t.revisions[i].id, x)
    ensures !Cyclic(Graph(IDs(x.nodes), x.edges))
  {
    hide Cyclic, Graph, Loads, Run, Step, StoredEdges;
    StartGood();
    RunGood(START, pack, es);
    AppliedIsAcyclic(pack, es, i);
    var t := Run(START, pack, es).t;
    LoadedCyclic(t, t.revisions[i].id, x);
  }

  /** The log of every run is sound: numbered without gaps, one applied revision, whose id is the active one. */
  lemma RunSound(pack: string, es: seq<Event>)
    ensures Sound(LogOf(Run(START, pack, es).t))
  {
    StartGood();
    RunGood(START, pack, es);
    hide Run;
  }

  /** Rows once written stay as they are. */
  ghost predicate Keeps(t: Tables, u: Tables) {
    Grows(LogOf(t), LogOf(u)) && t.chapters <= u.chapters && t.nodes <= u.nodes && t.edges <= u.edges
  }

  lemma SaveKeeps(t: Tables, expected: int, id: string, d: Draft)
    requires Consistent(t)
    ensures Keeps(t, Save(t, expected, id, d).0)
  {
    if Save(t, expected, id, d).1 == Saved {
      SavedTables(t, expected, id, d);
      AppendSound(LogOf(t), id, NormalBook(d.book));
      assert LogOf(Save(t, expected, id, d).0) == Append(LogOf(t), id, NormalBook(d.book));
    }
  }

  lemma StepKeeps(w: World, pack: string, e: Event)
    requires Good(w.t)
    ensures Keeps(w.t, Step(w, pack, e).t)
  {
    hide Promote;
    match e
    case SaveDraft(expected, id, d, owner) => hide Save; SaveKeeps(w.t, expected, id, d);
    case CommitApply(call) =>
      if call in w.calls && w.calls[call].ToApply? { PromoteSound(LogOf(w.t), w.calls[call].id); }
    case CommitRollback(call, id, owner) =>
      if call in w.calls && w.calls[call].ToSave? { hide Save; SaveKeeps(w.t, w.calls[call].expected, id, w.calls[call].d); }
    case _ =>
  }

  /** Whatever happens after some events of a run leaves the rows written by then alone. */
  lemma {:induction false} RunKeeps(pack: string, es: seq<Event>, k: nat)
    requires k <= |es|
    ensures Keeps(Run(START, pack, es[..k]).t, Run(START, pack, es).t)
    decreases |es|
  {
    hide Step, Good, CallsGood, Keeps;
    var a := Run(START, pack, es[..k]).t;
    if k == |es| {
      assert es[..k] == es;
      KeepsRefl(a);
    } else {
      var init := es[..|es| - 1];
      assert init[..k] == es[..k];
      RunKeeps(pack, init, k);
      StartGood();
      RunGood(START, pack, init);
      StepKeeps(Run(START, pack, init), pack, es[|es| - 1]);
      KeepsTransitive(a, Run(START, pack, init).t, Run(START, pack, es).t);
    }
  }

  lemma KeepsRefl(t: Tables)
    ensures Keeps(t, t)
  {
  }

  lemma KeepsTransitive(a: Tables, b: Tables, c: Tables)
    requires Keeps(a, b) && Keeps(b, c)
    ensures Keeps(a, c)
  {
    GrowsTransitive(LogOf(a), LogOf(b), LogOf(c));
  }

  /** Of two saves made with the same expected revision, at any two points of a run, at most one is stored. */
  lemma OneSaveWins(pack: string, es: seq<Event>, k: nat, expected: int, id: string, d: Draft, other: string, later: Draft)
    requires k < |es| && Save(Run(START, pack, es[..k]).t, expected, id, d).1 == Saved
    requires Run(START, pack, es[..k + 1]).t == Save(Run(START, pack, es[..k]).t, expected, id, d).0
    ensures Save(Run(START, pack, es).t, expected, other, later) == (Run(START, pack, es).t, Stale)
  {
    RunKeeps(pack, es, k + 1);
    hide Run;
    SavedLog(Run(START, pack, es[..k]).t, expected, id, d);
  }
}
