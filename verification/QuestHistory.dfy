/**
 * What a whole run does to single quest revisions: rollbacks whose steps are apart, and revisions that
 * are applied after newer ones.
 */
module QuestHistory {
  import opened QuestValidation
  import opened QuestStore
  import opened QuestRoundTrip
  import opened QuestRepo
  import opened RevisionLog
  import opened QuestGraph
  import opened QuestRuns
  import opened QuestAccepted

  lemma PrefixNext(pack: string, es: seq<Event>, j: nat)
    requires j < |es|
    ensures Run(START, pack, es[..j + 1]) == Step(Run(START, pack, es[..j]), pack, es[j])
  {
    assert es[..j + 1][..j] == es[..j];
  }

  ghost predicate Concerns(e: Event, call: nat) { !e.SaveDraft? && e.call == call }

  /** What a call has learnt stays with it while only others move. */
  lemma {:induction false} PendingKept(pack: string, es: seq<Event>, i: nat, j: nat, call: nat)
    requires i <= j <= |es| && forall m :: i <= m < j ==> !Concerns(es[m], call)
    ensures call in Run(START, pack, es[..i]).calls ==>
      call in Run(START, pack, es[..j]).calls
      && Run(START, pack, es[..j]).calls[call] == Run(START, pack, es[..i]).calls[call]
    decreases j
  {
    hide Run, Submit, Apply, Loads, Applicable;
    if i < j {
      PendingKept(pack, es, i, j - 1, call);
      PrefixNext(pack, es, j - 1);
    }
  }

  lemma GoodRun(pack: string, es: seq<Event>)
    ensures Good(Run(START, pack, es).t)
  {
    hide Run, Good, CallsGood;
    StartGood();
    RunGood(START, pack, es);
  }

  // ----- what a revision loads never changes ------------------------------------------------

  lemma RegrownLoads(t: Tables, u: Tables, revision: string, x: Draft)
    requires Grows(LogOf(t), LogOf(u)) && |u.revisions| == |t.revisions|
    requires u.chapters == t.chapters && u.nodes == t.nodes && u.edges == t.edges
    ensures Loads(u, revision, x) <==> Loads(t, revision, x)
    ensures HasRevision(u, revision) <==> HasRevision(t, revision)
  {
    hide Loads;
    forall i | 0 <= i < |t.revisions| ensures u.revisions[i].id == t.revisions[i].id && u.revisions[i].body == t.revisions[i].body {
      assert LogOf(t).revisions[i] == t.revisions[i];
    }
    SameRevisions(t, u);
    hide HasRevision, Grows;
    if Loads(t, revision, x) { LoadRestated(t, u, revision, x); }
    if Loads(u, revision, x) { LoadRestated(u, t, revision, x); }
  }

  lemma ApplyLoads(t: Tables, id: string, revision: string, x: Draft)
    requires Good(t)
    ensures Loads(Apply(t, id).0, revision, x) <==> Loads(t, revision, x)
    ensures HasRevision(Apply(t, id).0, revision) <==> HasRevision(t, revision)
  {
    hide Promote, Loads, HasRevision, Grows, Linked, AppliedAcyclic, LoadsSorted;
    var u := Apply(t, id).0;
    PromoteSound(LogOf(t), id);
    assert LogOf(u) == Promote(LogOf(t), id).0;
    RegrownLoads(t, u, revision, x);
  }

  lemma SubmitLoads(t: Tables, pack: string, expected: int, id: string, d: Draft, owner: string -> Lookup, revision: string, x: Draft)
    requires Good(t) && HasRevision(t, revision)
    ensures var u := Submit(t, pack, expected, id, d, owner);
      HasRevision(u, revision) && (Loads(u, revision, x) <==> Loads(t, revision, x))
  {
    hide Loads, Save;
    LoadStable(t, expected, id, d, revision, x);
    if Save(t, expected, id, d).1 == Saved {
      SavedLog(t, expected, id, d);
    } else {
      SaveRefused(t, expected, id, d);
    }
  }

  lemma SaveRefused(t: Tables, expected: int, id: string, d: Draft)
    ensures Save(t, expected, id, d).1 != Saved ==> Save(t, expected, id, d).0 == t
  {
  }

  lemma StepLoads(w: World, pack: string, e: Event, revision: string, x: Draft)
    requires Good(w.t) && HasRevision(w.t, revision)
    ensures var u := Step(w, pack, e).t; HasRevision(u, revision) && (Loads(u, revision, x) <==> Loads(w.t, revision, x))
  {
    hide Loads, Good, HasRevision, Submit, Apply;
    match e
    case SaveDraft(expected, id, d, owner) => SubmitLoads(w.t, pack, expected, id, d, owner, revision, x);
    case CommitApply(call) =>
      if call in w.calls && w.calls[call].ToApply? { ApplyLoads(w.t, w.calls[call].id, revision, x); }
    case CommitRollback(call, id, owner) =>
      if call in w.calls && w.calls[call].ToSave? {
        SubmitLoads(w.t, pack, w.calls[call].expected, id, w.calls[call].d, owner, revision, x);
      }
    case _ =>
  }

  /** From its first save on, a revision loads the same drafts in every later state of every run. */
  lemma {:induction false} LoadsForever(pack: string, es: seq<Event>, k: nat, j: nat, revision: string, x: Draft)
    requires k <= j <= |es| && HasRevision(Run(START, pack, es[..k]).t, revision)
    ensures HasRevision(Run(START, pack, es[..j]).t, revision)
    ensures Loads(Run(START, pack, es[..j]).t, revision, x) <==> Loads(Run(START, pack, es[..k]).t, revision, x)
    decreases j
  {
    hide Run, Step, Loads, Good, HasRevision;
    if k < j {
      LoadsForever(pack, es, k, j - 1, revision, x);
      GoodRun(pack, es[..j - 1]);
      PrefixNext(pack, es, j - 1);
      StepLoads(Run(START, pack, es[..j - 1]), pack, es[j - 1], revision, x);
    }
  }

  /** What a revision loads is x and nothing else. */
  ghost predicate LoadsOnly(t: Tables, revision: string, x: Draft) {
    Loads(t, revision, x) && forall y :: Loads(t, revision, y) ==> y == x
  }

  // ----- rollbacks -------------------------------------------------------------------------

  /** A call reads the target at step i, the current number at step m, and commits under id at step j. */
  ghost predicate TriesRollback(pack: string, es: seq<Event>, i: nat, m: nat, j: nat, call: nat, target: string, x: Draft, id: string) {
    && i < m < j < |es| && es[i] == ReadTarget(call, target, x) && es[m] == ReadCurrent(call)
    && es[j].CommitRollback? && es[j].call == call && es[j].id == id
    && (forall n :: i < n < j && n != m ==> !Concerns(es[n], call))
    && Loads(Run(START, pack, es[..i]).t, target, x)
  }

  /** The same, and the commit stores revision id. */
  ghost predicate RollsBack(pack: string, es: seq<Event>, i: nat, m: nat, j: nat, call: nat, target: string, x: Draft, id: string) {
    && TriesRollback(pack, es, i, m, j, call, target, x, id)
    && !HasRevision(Run(START, pack, es[..j]).t, id) && HasRevision(Run(START, pack, es[..j + 1]).t, id)
  }

  lemma RollbackPending(pack: string, es: seq<Event>, i: nat, m: nat, j: nat, call: nat, target: string, x: Draft, id: string)
    requires TriesRollback(pack, es, i, m, j, call, target, x, id)
    ensures var w := Run(START, pack, es[..j]);
      call in w.calls && w.calls[call] == ToSave(|Run(START, pack, es[..m]).t.revisions|, x)
  {
    hide Run, Loads, HasRevision, Submit, Apply;
    PrefixNext(pack, es, i);
    PendingKept(pack, es, i + 1, m, call);
    PrefixNext(pack, es, m);
    PendingKept(pack, es, m + 1, j, call);
  }

  lemma SubmitStores(t: Tables, pack: string, expected: int, id: string, d: Draft, owner: string -> Lookup)
    requires !HasRevision(t, id) && HasRevision(Submit(t, pack, expected, id, d, owner), id)
    ensures Save(t, expected, id, d).1 == Saved && Submit(t, pack, expected, id, d, owner) == Save(t, expected, id, d).0
    ensures |t.revisions| == expected
  {
    hide HasRevision, InsertChapters, InsertNodes, InsertEdges;
    SaveRefused(t, expected, id, d);
  }

  lemma SubmitStoresIff(t: Tables, pack: string, expected: int, id: string, d: Draft, owner: string -> Lookup)
    requires Consistent(t) && expected >= 0
    ensures !HasRevision(t, id) && HasRevision(Submit(t, pack, expected, id, d, owner), id) <==>
      expected == |t.revisions| && !HasRevision(t, id) && Admissible(Reported(d, pack, owner)) && Storable(t, id, d)
  {
    SavedIff(t, expected, id, d);
    assert (forall r :: r in t.revisions ==> r.id != id) <==> !HasRevision(t, id);
    if Save(t, expected, id, d).1 == Saved { SavedLog(t, expected, id, d); AppendHas(LogOf(t), id, NormalBook(d.book)); }
    hide Save, HasRevision, Storable, Consistent, Reported, Admissible;
  }

  lemma AppendHas<P(!new)>(l: Log<P>, id: string, body: P)
    ensures Has(Append(l, id, body), id)
  {
    assert Append(l, id, body).revisions[|l.revisions|].id == id;
  }

  /**
   * A rollback is stored exactly when nothing has been saved since it read the current number, its id is
   * new, and the draft of its target is still admitted and storable.
   */
  lemma RollbackStoredIff(pack: string, es: seq<Event>, i: nat, m: nat, j: nat, call: nat, target: string, x: Draft, id: string)
    requires TriesRollback(pack, es, i, m, j, call, target, x, id)
    ensures var t := Run(START, pack, es[..j]).t;
      RollsBack(pack, es, i, m, j, call, target, x, id) <==>
        && |t.revisions| == |Run(START, pack, es[..m]).t.revisions| && !HasRevision(t, id)
        && Admissible(Reported(x, pack, es[j].owner)) && Storable(t, id, x)
  {
    var t, n := Run(START, pack, es[..j]).t, |Run(START, pack, es[..m]).t.revisions|;
    RollbackCommits(pack, es, i, m, j, call, target, x, id);
    GoodRun(pack, es[..j]);
    hide Run, HasRevision, Submit, Storable, Consistent, Linked, AppliedAcyclic, LoadsSorted, Reported, Admissible, TriesRollback;
    SubmitStoresIff(t, pack, n, id, x, es[j].owner);
  }

  lemma RollbackCommits(pack: string, es: seq<Event>, i: nat, m: nat, j: nat, call: nat, target: string, x: Draft, id: string)
    requires TriesRollback(pack, es, i, m, j, call, target, x, id)
    ensures Run(START, pack, es[..j + 1]).t
         == Submit(Run(START, pack, es[..j]).t, pack, |Run(START, pack, es[..m]).t.revisions|, id, x, es[j].owner)
  {
    RollbackPending(pack, es, i, m, j, call, target, x, id);
    assert es[j] == CommitRollback(call, id, es[j].owner) && j < |es|;
    hide TriesRollback, Run, Submit, Step;
    PrefixNext(pack, es, j);
    StepSubmits(Run(START, pack, es[..j]), pack, call, id, es[j].owner);
  }

  lemma StepSubmits(w: World, pack: string, call: nat, id: string, owner: string -> Lookup)
    requires call in w.calls && w.calls[call].ToSave?
    ensures Step(w, pack, CommitRollback(call, id, owner)).t == Submit(w.t, pack, w.calls[call].expected, id, w.calls[call].d, owner)
  {
    hide Submit;
  }

  /** A rollback that is stored has saved the loaded target, and nothing was saved since it read the current number. */
  lemma RollbackSaves(pack: string, es: seq<Event>, i: nat, m: nat, j: nat, call: nat, target: string, x: Draft, id: string)
    requires RollsBack(pack, es, i, m, j, call, target, x, id)
    ensures var t, n := Run(START, pack, es[..j]).t, |Run(START, pack, es[..m]).t.revisions|;
      Save(t, n, id, x).1 == Saved && Run(START, pack, es[..j + 1]).t == Save(t, n, id, x).0 && |t.revisions| == n
  {
    hide Run, Loads, HasRevision, Save, Submit;
    RollbackPending(pack, es, i, m, j, call, target, x, id);
    PrefixNext(pack, es, j);
    SubmitStores(Run(START, pack, es[..j]).t, pack, |Run(START, pack, es[..m]).t.revisions|, id, x, es[j].owner);
  }

  /**
   * However its three steps lie between those of other calls: a rollback that is stored makes a
   * revision that loads, then and ever after, exactly the draft that the target loaded when it was read.
   */
  lemma RollbackIsExact(pack: string, es: seq<Event>, i: nat, m: nat, j: nat, call: nat, target: string, x: Draft, id: string, k: nat)
    requires RollsBack(pack, es, i, m, j, call, target, x, id) && j < k <= |es|
    ensures LoadsOnly(Run(START, pack, es[..k]).t, id, x)
    ensures Loads(Run(START, pack, es[..k]).t, target, x)
    ensures |Run(START, pack, es[..j + 1]).t.revisions| == |Run(START, pack, es[..m]).t.revisions| + 1
  {
    hide Run, Step, Loads, Save, Good, HasRevision;
    RollbackStored(pack, es, i, m, j, call, target, x, id);
    TargetStillLoads(pack, es, i, m, j, call, target, x, id, k);
    forall y ensures Loads(Run(START, pack, es[..k]).t, id, y) <==> Loads(Run(START, pack, es[..j + 1]).t, id, y) {
      LoadsForever(pack, es, j + 1, k, id, y);
    }
  }

  lemma TargetStillLoads(pack: string, es: seq<Event>, i: nat, m: nat, j: nat, call: nat, target: string, x: Draft, id: string, k: nat)
    requires RollsBack(pack, es, i, m, j, call, target, x, id) && i <= k <= |es|
    ensures Loads(Run(START, pack, es[..k]).t, target, x)
  {
    hide Run, Step, Loads, HasRevision;
    LoadedExists(Run(START, pack, es[..i]).t, target, x);
    LoadsForever(pack, es, i, k, target, x);
  }

  lemma RollbackStored(pack: string, es: seq<Event>, i: nat, m: nat, j: nat, call: nat, target: string, x: Draft, id: string)
    requires RollsBack(pack, es, i, m, j, call, target, x, id)
    ensures LoadsOnly(Run(START, pack, es[..j + 1]).t, id, x)
    ensures |Run(START, pack, es[..j + 1]).t.revisions| == |Run(START, pack, es[..m]).t.revisions| + 1
  {
    hide Run, Step, Loads, Save, Good, HasRevision;
    var t, n := Run(START, pack, es[..j]).t, |Run(START, pack, es[..m]).t.revisions|;
    RollbackSaves(pack, es, i, m, j, call, target, x, id);
    TargetStillLoads(pack, es, i, m, j, call, target, x, id, j);
    GoodRun(pack, es[..j]);
    hide RollsBack;
    SavedLog(t, n, id, x);
    RestoredExactly(t, target, x, n, id);
  }

  lemma RestoredExactly(t: Tables, target: string, x: Draft, n: nat, id: string)
    requires Good(t) && Loads(t, target, x) && Save(t, n, id, x).1 == Saved
    ensures LoadsOnly(Save(t, n, id, x).0, id, x)
  {
    hide Loads, Save, AppliedAcyclic;
    var z := SavedLoads(t, n, id, x);
    forall y | Loads(Save(t, n, id, x).0, id, y) ensures y == x {
      RollbackRestores(t, target, x, n, id, y);
    }
    RollbackRestores(t, target, x, n, id, z);
  }

  // ----- a newer revision under an older one -----------------------------------------------

  /** The event is a commit that promotes a revision numbered above n. */
  ghost predicate CommitsNewer(w: World, e: Event, n: nat) {
    && e.CommitApply? && e.call in w.calls && w.calls[e.call].ToApply?
    && PromotesNewer(LogOf(w.t), w.calls[e.call].id, n)
  }

  lemma SubmitNewer(t: Tables, pack: string, expected: int, id: string, d: Draft, owner: string -> Lookup, n: nat)
    ensures NewerUsed(LogOf(Submit(t, pack, expected, id, d, owner)), n) <==> NewerUsed(LogOf(t), n)
  {
    hide NewerUsed, Save;
    if Save(t, expected, id, d).1 == Saved {
      SavedLog(t, expected, id, d);
      AppendNewer(LogOf(t), id, NormalBook(d.book), n);
    } else {
      SaveRefused(t, expected, id, d);
    }
  }

  lemma StepNewer(w: World, pack: string, e: Event, n: nat)
    requires Good(w.t)
    ensures NewerUsed(LogOf(Step(w, pack, e).t), n) <==> NewerUsed(LogOf(w.t), n) || CommitsNewer(w, e, n)
  {
    hide NewerUsed, PromotesNewer, Promote, Submit, Loads;
    match e
    case SaveDraft(expected, id, d, owner) => SubmitNewer(w.t, pack, expected, id, d, owner, n);
    case CommitApply(call) =>
      if call in w.calls && w.calls[call].ToApply? { PromoteNewer(LogOf(w.t), w.calls[call].id, n); }
    case CommitRollback(call, id, owner) =>
      if call in w.calls && w.calls[call].ToSave? { SubmitNewer(w.t, pack, w.calls[call].expected, id, w.calls[call].d, owner, n); }
    case _ =>
  }

  ghost predicate CommitsNewerAt(pack: string, es: seq<Event>, m: int, n: nat) {
    0 <= m < |es| && CommitsNewer(Run(START, pack, es[..m]), es[m], n)
  }

  lemma {:induction false} NewerBetween(pack: string, es: seq<Event>, i: nat, j: nat, n: nat)
    requires i <= j <= |es|
    ensures NewerUsed(LogOf(Run(START, pack, es[..j]).t), n) <==>
      NewerUsed(LogOf(Run(START, pack, es[..i]).t), n) || exists m :: i <= m < j && CommitsNewerAt(pack, es, m, n)
    decreases j
  {
    hide Run, Step, NewerUsed, CommitsNewer, Good;
    if i < j {
      NewerBetween(pack, es, i, j - 1, n);
      GoodRun(pack, es[..j - 1]);
      PrefixNext(pack, es, j - 1);
      StepNewer(Run(START, pack, es[..j - 1]), pack, es[j - 1], n);
      assert CommitsNewerAt(pack, es, j - 1, n) <==> CommitsNewer(Run(START, pack, es[..j - 1]), es[j - 1], n);
    }
  }

  /** At step i the call reads the latest revision, which blocks nothing; at step j it commits. */
  ghost predicate ReadsAndCommits(pack: string, es: seq<Event>, i: nat, j: nat, call: nat, x: Draft) {
    && i < j < |es| && es[i].ReadLatest? && es[i].call == call && es[i].x == x && es[j] == CommitApply(call)
    && (forall m :: i < m < j ==> !Concerns(es[m], call))
    && Offered(Run(START, pack, es[..i]).t, pack, x, es[i].owner)
  }

  ghost predicate Offered(t: Tables, pack: string, x: Draft, owner: string -> Lookup) {
    |t.revisions| > 0 && Loads(t, t.revisions[|t.revisions| - 1].id, x) && Applicable(Reported(x, pack, owner))
  }

  lemma ReadTakesLatest(w: World, pack: string, e: Event)
    requires e.ReadLatest? && Offered(w.t, pack, e.x, e.owner)
    ensures var v := Step(w, pack, e); e.call in v.calls && v.calls[e.call] == ToApply(w.t.revisions[|w.t.revisions| - 1].id)
  {
    hide Loads, Applicable, Reported;
  }

  lemma CommitsWhatItRead(pack: string, es: seq<Event>, i: nat, j: nat, call: nat, x: Draft)
    requires ReadsAndCommits(pack, es, i, j, call, x)
    ensures var w, n := Run(START, pack, es[..j]), |Run(START, pack, es[..i]).t.revisions|;
      && call in w.calls && 0 < n <= |w.t.revisions|
      && w.calls[call] == ToApply(w.t.revisions[n - 1].id) && Sound(LogOf(w.t))
  {
    hide Run, Step, Loads, Applicable, Reported, Sound;
    assert |Run(START, pack, es[..i]).t.revisions| > 0;
    PrefixNext(pack, es, i);
    ReadTakesLatest(Run(START, pack, es[..i]), pack, es[i]);
    PendingKept(pack, es, i + 1, j, call);
    hide ReadsAndCommits, Offered;
    assert es[..j][..i] == es[..i];
    RunKeeps(pack, es[..j], i);
    RunSound(pack, es[..j]);
  }

  lemma NothingNewer(t: Tables)
    ensures !NewerUsed(LogOf(t), |t.revisions|)
  {
  }

  /** When the call commits revision n, a newer one has been used exactly if another commit has promoted
      a newer one since the call read. */
  lemma NewerSinceRead(pack: string, es: seq<Event>, i: nat, j: nat, call: nat, x: Draft)
    requires ReadsAndCommits(pack, es, i, j, call, x)
    ensures var n := |Run(START, pack, es[..i]).t.revisions|;
      NewerUsed(LogOf(Run(START, pack, es[..j]).t), n) <==> exists m :: i < m < j && CommitsNewerAt(pack, es, m, n)
  {
    var n := |Run(START, pack, es[..i]).t.revisions|;
    hide Run, NewerUsed, Loads;
    NothingNewer(Run(START, pack, es[..i]).t);
    NewerBetween(pack, es, i, j, n);
    assert !CommitsNewerAt(pack, es, i, n);
  }

  /**
   * A call reads revision n and later promotes it. It leaves a newer revision archived below the older
   * one exactly when, between its read and its commit, another commit has promoted a newer revision.
   */
  lemma OlderOverNewerIff(pack: string, es: seq<Event>, i: nat, j: nat, call: nat, x: Draft)
    requires ReadsAndCommits(pack, es, i, j, call, x)
    requires Promote(LogOf(Run(START, pack, es[..j]).t), Run(START, pack, es[..i]).t.revisions[|Run(START, pack, es[..i]).t.revisions| - 1].id).1 == Promoted
    ensures var n := |Run(START, pack, es[..i]).t.revisions|;
      var u := Run(START, pack, es[..j + 1]).t;
      && 0 < n <= |u.revisions| && u.revisions[n - 1].state == Applied
      && ((exists k :: n <= k < |u.revisions| && u.revisions[k].state == Archived) <==>
          exists m :: i < m < j && CommitsNewerAt(pack, es, m, n))
  {
    hide Run, Sound, Promote, NewerUsed, CommitsNewerAt, Loads, Applicable;
    var n := |Run(START, pack, es[..i]).t.revisions|;
    var w := Run(START, pack, es[..j]);
    CommitsWhatItRead(pack, es, i, j, call, x);
    NewerSinceRead(pack, es, i, j, call, x);
    assert es[..j][..i] == es[..i];
    RunKeeps(pack, es[..j], i);
    PrefixNext(pack, es, j);
    hide ReadsAndCommits;
    PromoteOverNewer(LogOf(w.t), w.t.revisions[n - 1].id, n);
  }
}
