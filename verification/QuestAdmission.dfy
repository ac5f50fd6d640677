/** Which drafts are saved and applied, field by field, and what the stored rows keep of it. */
module QuestAdmission {
  import opened Options
  import opened Walks
  import opened QuestValidation
  import opened QuestReports
  import opened QuestStore
  import opened QuestRoundTrip
  import opened QuestAccepted
  import opened RevisionLog
  import opened QuestRuns

  /** A draft is admitted exactly when it deserves none of eight codes; a cycle is no obstacle. */
  lemma AdmittedIff(d: Draft, pack: string, owner: string -> Lookup)
    ensures Admissible(Reported(d, pack, owner)) <==>
      && !Deserves(d, pack, owner, CrossPackReference) && !Deserves(d, pack, owner, DuplicateID)
      && !Deserves(d, pack, owner, DuplicatePosition) && !Deserves(d, pack, owner, MissingChapter)
      && !Deserves(d, pack, owner, MissingNode) && !Deserves(d, pack, owner, SelfEdge)
      && !Deserves(d, pack, owner, InvalidReward) && !Deserves(d, pack, owner, InvalidDependencyRequirement)
  {
    hide Reported, Deserves;
    forall c ensures c in Reported(d, pack, owner) <==> Deserves(d, pack, owner, c) { ReportedIff(d, pack, owner, c); }
  }

  /** A draft may be applied exactly when it deserves nothing but to be told of isolated nodes. */
  lemma ApplicableIff(d: Draft, pack: string, owner: string -> Lookup)
    ensures Applicable(Reported(d, pack, owner)) <==> forall c :: Deserves(d, pack, owner, c) ==> c == OrphanNode
  {
    hide Reported, Deserves;
    forall c ensures c in Reported(d, pack, owner) <==> Deserves(d, pack, owner, c) { ReportedIff(d, pack, owner, c); }
  }

  /** A node whose rewards can be granted and whose requirement is known. */
  ghost predicate Playable(n: Node) {
    (forall r :: r in n.rewards ==> Grantable(r)) && n.dependencyRequirement in REQUIREMENTS
  }

  lemma AdmittedPlayable(d: Draft, pack: string, owner: string -> Lookup)
    requires Admissible(Reported(d, pack, owner))
    ensures forall n :: n in d.nodes ==> Playable(n) && n.id != ""
  {
    AdmittedIff(d, pack, owner);
    hide Reported, Grantable, Admissible;
    forall n | n in d.nodes ensures Playable(n) && n.id != "" {
      var i := NodeAt(d, n);
      assert !Deserves(d, pack, owner, InvalidReward) && !Deserves(d, pack, owner, InvalidDependencyRequirement);
      assert !Deserves(d, pack, owner, DuplicateID);
    }
  }

  ghost predicate RowsPlayable(t: Tables) {
    forall row :: row in t.nodes ==> Playable(row.body)
  }

  lemma SubmitPlayable(t: Tables, pack: string, expected: int, id: string, d: Draft, owner: string -> Lookup)
    requires RowsPlayable(t)
    ensures RowsPlayable(Submit(t, pack, expected, id, d, owner))
  {
    hide Playable, Reported, Admissible, ChapterRowsOf, EdgeRowsOf, IDs, ChapterIDs;
    var u := Submit(t, pack, expected, id, d, owner);
    if Admissible(Reported(d, pack, owner)) && Save(t, expected, id, d).1 == Saved {
      AdmittedPlayable(d, pack, owner);
      SavedTables(t, expected, id, d);
      hide Save;
      var rows := NodeRowsOf(id, ChapterIDs(d.chapters), d.nodes);
      forall row | row in rows ensures Playable(row.body) {
        var i :| 0 <= i < |rows| && rows[i] == row;
        BodyPlayable(id, ChapterIDs(d.chapters), d.nodes[i]);
      }
    }
  }

  lemma BodyPlayable(id: string, known: set<string>, n: Node)
    requires Playable(n)
    ensures Playable(NodeRowOf(id, known, n).body)
  {
  }

  lemma StepPlayable(w: World, pack: string, e: Event)
    requires RowsPlayable(w.t)
    ensures RowsPlayable(Step(w, pack, e).t)
  {
    hide RowsPlayable, Submit, Loads, Applicable;
    match e
    case SaveDraft(expected, id, d, owner) => SubmitPlayable(w.t, pack, expected, id, d, owner);
    case CommitApply(call) => SameNodes(w.t, Step(w, pack, e).t);
    case CommitRollback(call, id, owner) =>
      if call in w.calls && w.calls[call].ToSave? {
        SubmitPlayable(w.t, pack, w.calls[call].expected, id, w.calls[call].d, owner);
      }
    case _ =>
  }

  lemma SameNodes(t: Tables, u: Tables)
    requires u.nodes == t.nodes
    ensures RowsPlayable(t) ==> RowsPlayable(u)
  {
  }

  /** In every run each stored node can be played: its rewards can be granted, its requirement is known. */
  lemma {:induction false} StoredIsPlayable(pack: string, es: seq<Event>)
    ensures forall row :: row in Run(START, pack, es).t.nodes ==> Playable(row.body)
  {
    hide Step, Playable;
    if es != [] {
      StoredIsPlayable(pack, es[..|es| - 1]);
      StepPlayable(Run(START, pack, es[..|es| - 1]), pack, es[|es| - 1]);
    }
  }

  // ----- what a submission comes to --------------------------------------------------------

  /** A submission adds a revision exactly when the draft is admitted and storable, the expected revision is
      the latest and the id is new; otherwise it changes nothing. */
  lemma SubmittedIff(t: Tables, pack: string, expected: int, id: string, d: Draft, owner: string -> Lookup)
    requires Consistent(t)
    ensures var u := Submit(t, pack, expected, id, d, owner);
      if Admissible(Reported(d, pack, owner)) && expected == |t.revisions| && (forall r :: r in t.revisions ==> r.id != id) && Storable(t, id, d)
      then u == Save(t, expected, id, d).0 && |u.revisions| == |t.revisions| + 1 && u.revisions[|t.revisions|].id == id
      else u == t
  {
    SavedIff(t, expected, id, d);
    if Save(t, expected, id, d).1 == Saved { SavedTables(t, expected, id, d); }
    hide Save, Storable, Admissible, Consistent;
  }

  /** Applying commits once: the revision is promoted if it is still a draft, and nothing else is written. */
  lemma ApplyPromotes(w: World, pack: string, call: nat)
    requires call in w.calls && w.calls[call].ToApply?
    ensures var v, id := Step(w, pack, CommitApply(call)), w.calls[call].id;
      && v.calls == w.calls - {call} && v.t.(revisions := w.t.revisions, active := w.t.active) == w.t
      && if exists k :: 0 <= k < |w.t.revisions| && w.t.revisions[k].id == id && w.t.revisions[k].state == Drafted
         then v.t.active == Some(id) else v.t == w.t
  {
  }
}
