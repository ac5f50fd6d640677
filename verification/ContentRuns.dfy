/**
 * Every run of create, save, apply and rollback calls on the content documents of one pack. Applying
 * reads and validates in one step and commits in a later one; other calls may come between.
 */
module ContentRuns {
  import opened Options
  import opened RevisionLog
  import opened ContentLog

  // ----- runs ------------------------------------------------------------------------------

  /** A validated revision that a call is about to apply. */
  datatype Target = Target(doc: string, id: string)

  datatype World = World(s: Store, calls: map<nat, Target>)

  const START := World(map[], map[])

  datatype Event =
    | CreateDocument(doc: string, kind: string, slug: string, id: string, payload: string)
    | SaveDraft(doc: string, expected: int, id: string, payload: string)
    | RollbackTo(doc: string, target: string, id: string)
    | ReadLatest(call: nat, doc: string)
    | CommitApply(call: nat)

  /** Applying reads and validates the latest revision in one step and commits in a later one. */
  ghost function Step(w: World, valid: (string, string) -> bool, e: Event): World {
    match e
    case CreateDocument(doc, kind, slug, id, payload) => w.(s := Create(w.s, doc, kind, slug, id, payload).0)
    case SaveDraft(doc, expected, id, payload) => w.(s := if expected >= 1 then Save(w.s, doc, expected, id, payload).0 else w.s)
    case RollbackTo(doc, target, id) => w.(s := Rollback(w.s, doc, target, id).0)
    case ReadLatest(call, doc) =>
      if doc in w.s && w.s[doc].log.revisions != [] && valid(w.s[doc].kind, Latest(w.s[doc]).body.payload)
      then w.(calls := w.calls[call := Target(doc, Latest(w.s[doc]).id)]) else w
    case CommitApply(call) =>
      if call in w.calls then World(Apply(w.s, w.calls[call].doc, w.calls[call].id).0, w.calls - {call}) else w
  }

  ghost function Run(w: World, valid: (string, string) -> bool, es: seq<Event>): World {
    if es == [] then w else Step(Run(w, valid, es[..|es| - 1]), valid, es[|es| - 1])
  }

  /** Every revision that is or was applied has a payload that passed validation. */
  ghost predicate AppliedValid(s: Store, valid: (string, string) -> bool) {
    forall doc :: doc in s ==> LogValid(s[doc].kind, s[doc].log, valid)
  }

  ghost predicate LogValid(kind: string, l: Log<Entry>, valid: (string, string) -> bool) {
    forall i :: 0 <= i < |l.revisions| && l.revisions[i].state != Drafted ==> valid(kind, l.revisions[i].body.payload)
  }

  ghost predicate TargetValid(kind: string, l: Log<Entry>, id: string, valid: (string, string) -> bool) {
    exists i :: 0 <= i < |l.revisions| && l.revisions[i].id == id && valid(kind, l.revisions[i].body.payload)
  }

  ghost predicate CallsValid(w: World, valid: (string, string) -> bool) {
    forall c :: c in w.calls ==>
      w.calls[c].doc in w.s && TargetValid(w.s[w.calls[c].doc].kind, w.s[w.calls[c].doc].log, w.calls[c].id, valid)
  }

  ghost predicate Good(w: World, valid: (string, string) -> bool) {
    AllSound(w.s) && AppliedValid(w.s, valid) && CallsValid(w, valid)
  }

  lemma PromoteValid(kind: string, l: Log<Entry>, id: string, valid: (string, string) -> bool)
    requires Sound(l) && LogValid(kind, l, valid) && TargetValid(kind, l, id, valid)
    ensures LogValid(kind, Promote(l, id).0, valid)
  {
    if Promote(l, id).1 == Promoted {
      var k := PromotedAt(l, id);
      var j :| 0 <= j < |l.revisions| && l.revisions[j].id == id && valid(kind, l.revisions[j].body.payload);
      hide Promote;
      assert j == k;
    }
  }

  lemma TargetStays(kind: string, l: Log<Entry>, m: Log<Entry>, id: string, valid: (string, string) -> bool)
    requires Grows(l, m) && TargetValid(kind, l, id, valid)
    ensures TargetValid(kind, m, id, valid)
  {
    var i :| 0 <= i < |l.revisions| && l.revisions[i].id == id && valid(kind, l.revisions[i].body.payload);
    assert m.revisions[i].id == id;
  }

  lemma CallsStay(w: World, t: Store, valid: (string, string) -> bool)
    requires CallsValid(w, valid) && AllGrow(w.s, t)
    ensures CallsValid(World(t, w.calls), valid)
  {
    hide TargetValid;
    forall c | c in w.calls ensures TargetValid(t[w.calls[c].doc].kind, t[w.calls[c].doc].log, w.calls[c].id, valid) {
      var doc := w.calls[c].doc;
      TargetStays(w.s[doc].kind, w.s[doc].log, t[doc].log, w.calls[c].id, valid);
    }
  }

  lemma AppendValid(s: Store, doc: string, id: string, e: Entry, valid: (string, string) -> bool)
    requires doc in s && AppliedValid(s, valid)
    ensures AppliedValid(AppendTo(s, doc, id, e), valid)
  {
  }

  lemma WriteGood(w: World, valid: (string, string) -> bool, e: Event)
    requires Good(w, valid) && !e.ReadLatest? && !e.CommitApply?
    ensures Good(Step(w, valid, e), valid) && AllGrow(w.s, Step(w, valid, e).s)
  {
    hide AllSound, AllGrow, AppliedValid, CallsValid;
    var t := Step(w, valid, e).s;
    match e {
    case CreateDocument(doc, kind, slug, id, payload) =>
      CreateSound(w.s, doc, kind, slug, id, payload);
      CreateValid(w.s, doc, kind, slug, id, payload, valid);
    case SaveDraft(doc, expected, id, payload) =>
      SameGrows(w.s);
      if expected >= 1 && Save(w.s, doc, expected, id, payload).1.Saved? {
        AppendToSound(w.s, doc, id, Entry(payload, None));
        AppendValid(w.s, doc, id, Entry(payload, None), valid);
      }
    case RollbackTo(doc, target, id) =>
      SameGrows(w.s);
      if Rollback(w.s, doc, target, id).1.Saved? {
        var copy := Entry(w.s[doc].log.revisions[IndexOf(w.s[doc].log, target)].body.payload, Some(target));
        assert t == AppendTo(w.s, doc, id, copy);
        AppendToSound(w.s, doc, id, copy);
        AppendValid(w.s, doc, id, copy, valid);
      }
    }
    CallsStay(w, t, valid);
  }

  lemma CreateValid(s: Store, doc: string, kind: string, slug: string, id: string, payload: string, valid: (string, string) -> bool)
    requires AppliedValid(s, valid)
    ensures AppliedValid(Create(s, doc, kind, slug, id, payload).0, valid)
  {
  }

  lemma CommitGood(w: World, valid: (string, string) -> bool, call: nat)
    requires Good(w, valid) && call in w.calls
    ensures Good(Step(w, valid, CommitApply(call)), valid) && AllGrow(w.s, Step(w, valid, CommitApply(call)).s)
  {
    hide AllSound, AllGrow, LogValid, TargetValid, Promote, Sound;
    var doc, id := w.calls[call].doc, w.calls[call].id;
    ApplySound(w.s, doc, id);
    SoundLog(w.s, doc);
    PromoteValid(w.s[doc].kind, w.s[doc].log, id, valid);
    CallsStay(w, Apply(w.s, doc, id).0, valid);
  }

  lemma SoundLog(s: Store, doc: string)
    requires AllSound(s) && doc in s
    ensures Sound(s[doc].log)
  {
  }

  lemma StepGood(w: World, valid: (string, string) -> bool, e: Event)
    requires Good(w, valid)
    ensures Good(Step(w, valid, e), valid) && AllGrow(w.s, Step(w, valid, e).s)
  {
    hide AllSound, AllGrow, AppliedValid;
    match e
    case ReadLatest(call, doc) => SameGrows(w.s);
    case CommitApply(call) =>
      SameGrows(w.s);
      if call in w.calls { CommitGood(w, valid, call); }
    case _ => WriteGood(w, valid, e);
  }

  lemma {:induction false} RunGood(valid: (string, string) -> bool, es: seq<Event>)
    ensures Good(Run(START, valid, es), valid)
  {
    hide Step, Sound;
    if es != [] {
      RunGood(valid, es[..|es| - 1]);
      StepGood(Run(START, valid, es[..|es| - 1]), valid, es[|es| - 1]);
    }
  }

  /** In every run each document has a sound log, and whatever is or was applied had passed validation. */
  lemma AppliedWasValid(valid: (string, string) -> bool, es: seq<Event>, doc: string, i: nat)
    requires doc in Run(START, valid, es).s && i < |Run(START, valid, es).s[doc].log.revisions|
    ensures var d := Run(START, valid, es).s[doc];
      Sound(d.log) && (d.log.revisions[i].state != Drafted ==> valid(d.kind, d.log.revisions[i].body.payload))
  {
    RunGood(valid, es);
    hide Run, Sound;
  }

  ghost predicate Distinct(s: Store) {
    forall a, b :: a in s && b in s && a != b ==> s[a].kind != s[b].kind || s[a].slug != s[b].slug
  }

  lemma StepDistinct(w: World, valid: (string, string) -> bool, e: Event)
    requires Distinct(w.s)
    ensures Distinct(Step(w, valid, e).s)
  {
    hide Promote, Append, IndexOf;
  }

  /** In every run no two documents have the same kind and slug. */
  lemma {:induction false} SlugsDistinct(valid: (string, string) -> bool, es: seq<Event>, a: string, b: string)
    ensures Distinct(Run(START, valid, es).s)
    ensures var s := Run(START, valid, es).s; a in s && b in s && a != b ==> s[a].kind != s[b].kind || s[a].slug != s[b].slug
  {
    hide Step;
    if es != [] {
      SlugsDistinct(valid, es[..|es| - 1], a, b);
      StepDistinct(Run(START, valid, es[..|es| - 1]), valid, es[|es| - 1]);
    }
  }

  lemma AllGrowTransitive(a: Store, b: Store, c: Store)
    requires AllGrow(a, b) && AllGrow(b, c)
    ensures AllGrow(a, c)
  {
    forall doc | doc in a ensures Grows(a[doc].log, c[doc].log) {
      GrowsTransitive(a[doc].log, b[doc].log, c[doc].log);
    }
  }

  /** Later events rewrite nothing. */
  lemma {:induction false} RunGrows(valid: (string, string) -> bool, es: seq<Event>, k: nat)
    requires k <= |es|
    ensures AllGrow(Run(START, valid, es[..k]).s, Run(START, valid, es).s)
    decreases |es|
  {
    hide Step, AllGrow, Good;
    if k == |es| {
      assert es[..k] == es;
      SameGrows(Run(START, valid, es).s);
    } else {
      var init := es[..|es| - 1];
      assert init[..k] == es[..k];
      RunGrows(valid, init, k);
      RunGood(valid, init);
      StepGood(Run(START, valid, init), valid, es[|es| - 1]);
      AllGrowTransitive(Run(START, valid, es[..k]).s, Run(START, valid, init).s, Run(START, valid, es).s);
    }
  }

  lemma RunNext(valid: (string, string) -> bool, es: seq<Event>, e: Event)
    ensures Run(START, valid, es + [e]) == Step(Run(START, valid, es), valid, e)
  {
    assert (es + [e])[..|es|] == es;
  }

  // ----- a newer revision under an older one -----------------------------------------------

  /** The event is a commit that promotes a revision of doc numbered above n. */
  ghost predicate CommitsNewer(w: World, e: Event, doc: string, n: nat) {
    && e.CommitApply? && e.call in w.calls && w.calls[e.call].doc == doc && doc in w.s
    && PromotesNewer(w.s[doc].log, w.calls[e.call].id, n)
  }

  lemma StepNewer(w: World, valid: (string, string) -> bool, e: Event, doc: string, n: nat)
    requires Good(w, valid) && doc in w.s
    ensures doc in Step(w, valid, e).s
    ensures NewerUsed(Step(w, valid, e).s[doc].log, n) <==> NewerUsed(w.s[doc].log, n) || CommitsNewer(w, e, doc, n)
  {
    hide NewerUsed, PromotesNewer, Promote, Append, AppliedValid, CallsValid, Has;
    match e
    case CreateDocument(_, _, _, _, _) =>
    case SaveDraft(d, expected, id, payload) => AppendNewer(w.s[doc].log, id, Entry(payload, None), n);
    case RollbackTo(d, target, id) =>
      if d == doc && Rollback(w.s, d, target, id).1.Saved? {
        AppendNewer(w.s[doc].log, id, Entry(w.s[doc].log.revisions[IndexOf(w.s[doc].log, target)].body.payload, Some(target)), n);
      }
    case ReadLatest(_, _) =>
    case CommitApply(call) =>
      SoundLog(w.s, doc);
      if call in w.calls { PromoteNewer(w.s[doc].log, w.calls[call].id, n); }
  }

  /** At step m of the run a revision of doc numbered above n is promoted. */
  ghost predicate CommitsNewerAt(valid: (string, string) -> bool, es: seq<Event>, m: int, doc: string, n: nat) {
    0 <= m < |es| && CommitsNewer(Run(START, valid, es[..m]), es[m], doc, n)
  }

  lemma PrefixNext(valid: (string, string) -> bool, es: seq<Event>, j: nat)
    requires j < |es|
    ensures Run(START, valid, es[..j + 1]) == Step(Run(START, valid, es[..j]), valid, es[j])
  {
    assert es[..j + 1] == es[..j] + [es[j]];
    RunNext(valid, es[..j], es[j]);
  }

  lemma {:induction false} NewerBetween(valid: (string, string) -> bool, es: seq<Event>, i: nat, j: nat, doc: string, n: nat)
    requires i <= j <= |es| && doc in Run(START, valid, es[..i]).s
    ensures doc in Run(START, valid, es[..j]).s
    ensures NewerUsed(Run(START, valid, es[..j]).s[doc].log, n) <==>
      NewerUsed(Run(START, valid, es[..i]).s[doc].log, n) || exists m :: i <= m < j && CommitsNewerAt(valid, es, m, doc, n)
    decreases j
  {
    hide Run, Step, NewerUsed, CommitsNewer, Good;
    if i < j {
      NewerBetween(valid, es, i, j - 1, doc, n);
      RunGood(valid, es[..j - 1]);
      PrefixNext(valid, es, j - 1);
      StepNewer(Run(START, valid, es[..j - 1]), valid, es[j - 1], doc, n);
      assert CommitsNewerAt(valid, es, j - 1, doc, n) <==> CommitsNewer(Run(START, valid, es[..j - 1]), es[j - 1], doc, n);
    }
  }

  ghost predicate Concerns(e: Event, call: nat) {
    (e.ReadLatest? || e.CommitApply?) && e.call == call
  }

  /** Step i is where the call has read what it commits at step j. */
  ghost predicate ReadsAndCommits(valid: (string, string) -> bool, es: seq<Event>, i: nat, j: nat, call: nat, doc: string) {
    && i < j < |es| && es[i] == ReadLatest(call, doc) && es[j] == CommitApply(call)
    && (forall m :: i < m < j ==> !Concerns(es[m], call))
    && Offered(Run(START, valid, es[..i]).s, valid, doc)
  }

  ghost predicate Offered(s: Store, valid: (string, string) -> bool, doc: string) {
    doc in s && s[doc].log.revisions != [] && valid(s[doc].kind, Latest(s[doc]).body.payload)
  }

  lemma {:induction false} TargetKept(valid: (string, string) -> bool, es: seq<Event>, i: nat, j: nat, call: nat)
    requires i <= j <= |es| && forall m :: i <= m < j ==> !Concerns(es[m], call)
    ensures call in Run(START, valid, es[..i]).calls ==>
      call in Run(START, valid, es[..j]).calls
      && Run(START, valid, es[..j]).calls[call] == Run(START, valid, es[..i]).calls[call]
    decreases j
  {
    hide Run;
    if i < j {
      TargetKept(valid, es, i, j - 1, call);
      PrefixNext(valid, es, j - 1);
    }
  }

  lemma NothingNewer<P(!new)>(l: Log<P>)
    ensures !NewerUsed(l, |l.revisions|)
  {
  }

  /** The call commits the revision that was the latest when it read, whatever its rank is by then. */
  lemma CommitsWhatItRead(valid: (string, string) -> bool, es: seq<Event>, i: nat, j: nat, call: nat, doc: string)
    requires ReadsAndCommits(valid, es, i, j, call, doc)
    ensures var w, n := Run(START, valid, es[..j]), |Run(START, valid, es[..i]).s[doc].log.revisions|;
      && call in w.calls && w.calls[call].doc == doc && doc in w.s && 0 < n <= |w.s[doc].log.revisions|
      && w.s[doc].log.revisions[n - 1].id == w.calls[call].id && Sound(w.s[doc].log)
  {
    hide Run;
    PrefixNext(valid, es, i);
    TargetKept(valid, es, i + 1, j, call);
    hide Step, Sound;
    assert es[..j][..i] == es[..i];
    RunGrows(valid, es[..j], i);
    RunGood(valid, es[..j]);
    SoundLog(Run(START, valid, es[..j]).s, doc);
  }

  /** When the call commits revision n, a newer one has been used exactly if another commit has promoted
      a newer one since the call read. */
  lemma NewerSinceRead(valid: (string, string) -> bool, es: seq<Event>, i: nat, j: nat, call: nat, doc: string)
    requires ReadsAndCommits(valid, es, i, j, call, doc)
    ensures var n := |Run(START, valid, es[..i]).s[doc].log.revisions|;
      && doc in Run(START, valid, es[..j]).s
      && (NewerUsed(Run(START, valid, es[..j]).s[doc].log, n) <==> exists m :: i < m < j && CommitsNewerAt(valid, es, m, doc, n))
  {
    var n := |Run(START, valid, es[..i]).s[doc].log.revisions|;
    hide Run, NewerUsed;
    NothingNewer(Run(START, valid, es[..i]).s[doc].log);
    NewerBetween(valid, es, i, j, doc, n);
    assert !CommitsNewerAt(valid, es, i, doc, n);
  }

  /**
   * A call reads revision n and later promotes it. It leaves a newer revision archived below the older
   * one exactly when, between its read and its commit, another commit has promoted a newer revision.
   */
  lemma OlderOverNewerIff(valid: (string, string) -> bool, es: seq<Event>, i: nat, j: nat, call: nat, doc: string)
    requires ReadsAndCommits(valid, es, i, j, call, doc)
    requires doc in Run(START, valid, es[..j]).s && call in Run(START, valid, es[..j]).calls
    requires Apply(Run(START, valid, es[..j]).s, doc, Run(START, valid, es[..j]).calls[call].id).1 == Promoted
    ensures var n := |Run(START, valid, es[..i]).s[doc].log.revisions|;
      var u := Run(START, valid, es[..j + 1]);
      && doc in u.s && 0 < n <= |u.s[doc].log.revisions| && u.s[doc].log.revisions[n - 1].state == Applied
      && ((exists k :: n <= k < |u.s[doc].log.revisions| && u.s[doc].log.revisions[k].state == Archived) <==>
          exists m :: i < m < j && CommitsNewerAt(valid, es, m, doc, n))
  {
    hide Run, Sound, Promote, NewerUsed, CommitsNewerAt;
    var n := |Run(START, valid, es[..i]).s[doc].log.revisions|;
    var w := Run(START, valid, es[..j]);
    CommitsWhatItRead(valid, es, i, j, call, doc);
    NewerSinceRead(valid, es, i, j, call, doc);
    PrefixNext(valid, es, j);
    hide ReadsAndCommits;
    PromoteOverNewer(w.s[doc].log, w.calls[call].id, n);
  }

  /** Two calls have each read the revision that was latest at the time. */
  lemma TwoCallsWaiting(valid: (string, string) -> bool, l: Log<Entry>, m: Log<Entry>) returns (es: seq<Event>)
    requires valid("ore", "p") && valid("ore", "q")
    requires l == Append(Log([], None), "a", Entry("p", None)) && m == Append(l, "b", Entry("q", None))
    ensures Run(START, valid, es) == World(map["d" := Document("ore", "s", m)], map[1 := Target("d", "a"), 2 := Target("d", "b")])
  {
    var d, e := Document("ore", "s", l), Document("ore", "s", m);
    assert !Has(l, "b");
    var e1, e2, e3, e4 := CreateDocument("d", "ore", "s", "a", "p"), ReadLatest(1, "d"), SaveDraft("d", 1, "b", "q"), ReadLatest(2, "d");
    var w1, w2 := World(map["d" := d], map[]), World(map["d" := d], map[1 := Target("d", "a")]);
    var w3, w4 := World(map["d" := e], w2.calls), World(map["d" := e], map[1 := Target("d", "a"), 2 := Target("d", "b")]);
    assert Step(START, valid, e1) == w1;
    assert Step(w1, valid, e2) == w2;
    assert Step(w2, valid, e3) == w3 by { hide Has; assert Save(w2.s, "d", 1, "b", "q").1 == Saved(2); }
    assert Step(w3, valid, e4) == w4;
    hide Step;
    RunNext(valid, [], e1);
    RunNext(valid, [] + [e1], e2);
    RunNext(valid, [] + [e1] + [e2], e3);
    RunNext(valid, [] + [e1] + [e2] + [e3], e4);
    es := [] + [e1] + [e2] + [e3] + [e4];
  }

  /**
   * Only the latest revision is offered for applying, but not at the moment it is committed: with two
   * calls under way the older revision can end up applied and the newer one archived.
   */
  lemma OlderCanApplyLast(valid: (string, string) -> bool) returns (es: seq<Event>)
    requires valid("ore", "p") && valid("ore", "q")
    ensures var s := Run(START, valid, es).s;
      && "d" in s && |s["d"].log.revisions| == 2
      && s["d"].log.revisions[0].state == Applied && s["d"].log.revisions[1].state == Archived
  {
    var l := Append(Log([], None), "a", Entry("p", None));
    var m := Append(l, "b", Entry("q", None));
    var before := TwoCallsWaiting(valid, l, m);
    TwoPromotions(m);
    hide Promote;
    TwoCommits(Run(START, valid, before), valid, m);
    hide Step;
    RunNext(valid, before, CommitApply(2));
    RunNext(valid, before + [CommitApply(2)], CommitApply(1));
    hide Run;
    es := before + [CommitApply(2)] + [CommitApply(1)];
  }

  lemma TwoCommits(w: World, valid: (string, string) -> bool, m: Log<Entry>)
    requires w == World(map["d" := Document("ore", "s", m)], map[1 := Target("d", "a"), 2 := Target("d", "b")])
    ensures Step(Step(w, valid, CommitApply(2)), valid, CommitApply(1))
         == World(map["d" := Document("ore", "s", Promote(Promote(m, "b").0, "a").0)], map[])
  {
    hide Promote;
    var n := Promote(m, "b").0;
    assert Step(w, valid, CommitApply(2)) == World(map["d" := Document("ore", "s", n)], map[1 := Target("d", "a")]);
  }

  lemma TwoPromotions(m: Log<Entry>)
    requires |m.revisions| == 2 && m.revisions[0].id == "a" && m.revisions[1].id == "b"
    requires m.revisions[0].state == m.revisions[1].state == Drafted
    ensures var l := Promote(Promote(m, "b").0, "a").0;
      |l.revisions| == 2 && l.revisions[0].state == Applied && l.revisions[1].state == Archived
  {
    var n := Promote(m, "b").0;
    assert n.revisions[0].state == Drafted && n.revisions[1].state == Applied;
  }
}
