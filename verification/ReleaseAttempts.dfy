/**
 * How many calls hold a release at once: one, unless a poll or a missing file makes the release "failed"
 * while a call holds it; then a retry lets a second one in.
 */
module ReleaseAttempts {
  import opened ReleaseTable
  import opened ReleaseProtocol
  import opened Blanks

  // ----- who holds a release ---------------------------------------------------------------

  predicate Owner(s: Stage) { s.Owning? || s.Reporting? }

  /** The call has reserved the release and not yet written the outcome back. */
  predicate Owns(w: World, call: nat, id: string) {
    call in w.calls && Owner(w.calls[call]) && w.calls[call].id == id
  }

  ghost predicate Owned(w: World, id: string) { exists c :: Owns(w, c, id) }

  ghost predicate OneOwner(w: World, id: string) {
    forall c, d :: Owns(w, c, id) && Owns(w, d, id) ==> c == d
  }

  /** A step of a call that does not hold the release writes s over it: what a poll has read, or a missing file. */
  predicate EndedByOther(w: World, e: Event, id: string, s: Status) {
    && e.Continue? && e.call in w.calls && w.calls[e.call].id == id
    && match w.calls[e.call] {
         case MissingFinish(_) => s == Failed && Finish(w.rows, id, Failed, "").1 == Done
         case PollReporting(_, read, remoteID) => s == read && Finish(w.rows, id, s, remoteID).1 == Done
         case _ => false
       }
  }

  /** The release is made "failed" by another call while one holds it. */
  ghost predicate LetsIn(w: World, e: Event, id: string) { Owned(w, id) && EndedByOther(w, e, id, Failed) }

  /** ... or is given any outcome but "publishing". */
  ghost predicate Disturbs(w: World, e: Event, id: string) {
    LetsIn(w, e, id) || (Owned(w, id) && EndedByOther(w, e, id, Succeeded))
  }

  predicate Busy(rows: seq<Row>, id: string, strict: bool) {
    InStatus(rows, id, Publishing) || (!strict && InStatus(rows, id, Succeeded))
  }

  /** At most one call holds the release, and while one does nobody can reserve it. */
  ghost predicate Guarded(w: World, id: string, strict: bool) {
    OneOwner(w, id) && (Owned(w, id) ==> Busy(w.rows, id, strict))
  }

  // ----- the rows --------------------------------------------------------------------------

  lemma BusyNotReservable(rows: seq<Row>, id: string, strict: bool)
    requires Unique(rows) && Busy(rows, id, strict)
    ensures !Reservable(rows, id)
  {
    if Reservable(rows, id) {
      var k := RowOf(rows, id);
    }
  }

  lemma StatusStays(a: seq<Row>, b: seq<Row>, id: string)
    requires |a| <= |b| && forall i :: 0 <= i < |a| && a[i].id == id && (a[i].status == Publishing || a[i].status == Succeeded) ==> b[i] == a[i]
    ensures forall strict :: Busy(a, id, strict) ==> Busy(b, id, strict)
  {
    if i :| 0 <= i < |a| && a[i].id == id && a[i].status == Publishing { assert b[i] == a[i]; }
    if i :| 0 <= i < |a| && a[i].id == id && a[i].status == Succeeded { assert b[i] == a[i]; }
  }

  lemma ReserveBusy(rows: seq<Row>, id: string, x: string)
    ensures forall strict :: Busy(rows, x, strict) ==> Busy(Reserve(rows, id), x, strict)
    ensures Reservable(rows, id) ==> InStatus(Reserve(rows, id), id, Publishing)
  {
    StatusStays(rows, Reserve(rows, id), x);
    if Reservable(rows, id) {
      var i :| 0 <= i < |rows| && rows[i].id == id && (rows[i].status == Pending || rows[i].status == Failed);
      assert Reserve(rows, id)[i].status == Publishing;
    }
  }

  lemma FinishBusy(rows: seq<Row>, id: string, s: Status, remoteID: string, x: string)
    ensures x != id || Finish(rows, id, s, remoteID).1 != Done ==>
      forall strict :: Busy(rows, x, strict) ==> Busy(Finish(rows, id, s, remoteID).0, x, strict)
    ensures Finish(rows, id, s, remoteID).1 == Done ==> InStatus(Finish(rows, id, s, remoteID).0, id, s)
  {
    var (b, f) := Finish(rows, id, s, remoteID);
    hide RemoteTaken;
    if x != id || f != Done { StatusStays(rows, b, x); }
    if f == Done {
      var i :| 0 <= i < |rows| && rows[i].id == id && rows[i].status == Publishing;
      assert b[i] == Ended(id, s, remoteID, rows[i]);
    }
  }

  // ----- one step --------------------------------------------------------------------------

  /** Steps that make no new owner and leave a busy release busy. */
  lemma GuardedStays(w: World, v: World, id: string, strict: bool)
    requires Guarded(w, id, strict) && forall c :: Owns(v, c, id) ==> Owns(w, c, id)
    requires Owned(v, id) && Busy(w.rows, id, strict) ==> Busy(v.rows, id, strict)
    ensures Guarded(v, id, strict)
  {
    hide Busy;
    if c :| Owns(v, c, id) { assert Owns(w, c, id); }
  }

  lemma ReservedGuarded(w: World, call: nat, id: string, attempt: nat, x: string, strict: bool)
    requires Unique(w.rows) && Guarded(w, x, strict) && Reservable(w.rows, id)
    ensures Guarded(At(DoReserve(w, id), call, Owning(id, attempt)), x, strict)
  {
    hide Unique, InStatus, Reserve;
    var v := At(DoReserve(w, id), call, Owning(id, attempt));
    ReserveBusy(w.rows, id, x);
    if x == id {
      if Busy(w.rows, id, strict) { BusyNotReservable(w.rows, id, strict); }
      forall c ensures Owns(v, c, id) ==> c == call { assert c != call && Owns(v, c, id) ==> Owns(w, c, id); }
    } else {
      GuardedStays(w, v, x, strict);
    }
  }

  /** Writing an outcome: by the owner, or by another call that does not let anybody in. */
  lemma FinishedGuarded(w: World, call: nat, s: Status, remoteID: string, x: string, strict: bool)
    requires Guarded(w, x, strict) && call in w.calls
    requires x != w.calls[call].id || Owner(w.calls[call]) || !Owned(w, x) || s == Publishing || (s == Succeeded && !strict)
      || Finish(w.rows, x, s, remoteID).1 != Done
    ensures Guarded(Leave(DoFinish(w, w.calls[call].id, s, remoteID), call), x, strict)
  {
    hide InStatus, Finish;
    var id := w.calls[call].id;
    var v := Leave(DoFinish(w, id, s, remoteID), call);
    FinishBusy(w.rows, id, s, remoteID, x);
    forall c ensures Owns(v, c, x) ==> Owns(w, c, x) {}
    if x == id && Owner(w.calls[call]) {
      assert Owns(w, call, id);
      forall c ensures !Owns(v, c, id) { assert Owns(v, c, id) ==> Owns(w, c, id); }
    } else if !Owned(w, x) {
      forall c ensures !Owns(v, c, x) { assert Owns(v, c, x) ==> Owns(w, c, x); }
    }
    GuardedStays(w, v, x, strict);
  }

  /** A call moves on without touching the rows, and not into ownership. */
  lemma MovedGuarded(w: World, call: nat, s: Stage, x: string, strict: bool)
    requires Guarded(w, x, strict) && (Owner(s) ==> Owns(w, call, s.id))
    ensures Guarded(At(w, call, s), x, strict) && Guarded(Leave(w, call), x, strict)
  {
    hide Busy;
    forall c ensures Owns(At(w, call, s), c, x) ==> Owns(w, c, x) {}
    GuardedStays(w, At(w, call, s), x, strict);
    GuardedStays(w, Leave(w, call), x, strict);
  }

  ghost predicate Harmless(w: World, e: Event, id: string, strict: bool) {
    !LetsIn(w, e, id) && (strict ==> !Disturbs(w, e, id))
  }

  lemma AdvanceGuarded(w: World, call: nat, a: Answer, x: string, strict: bool)
    requires Unique(w.rows) && StagesOk(w) && Guarded(w, x, strict) && call in w.calls && Harmless(w, Continue(call, a), x, strict)
    ensures Guarded(Advance(w, call, w.calls[call], a), x, strict)
  {
    hide Unique, InStatus, Busy, Reservable, Finish, Reserve, IsLocal, Normalize, Guarded, Owned;
    var id := w.calls[call].id;
    assert StageOk(w.calls[call]);
    match w.calls[call]
    case Inserted(_, _, _) => MovedGuarded(w, call, Checking(id), x, strict);
    case Checking(_) => MovedGuarded(w, call, if a == FileMissing then MissingReserve(id) else Reserving(id), x, strict);
    case MissingReserve(_) => MissingReservedGuarded(w, call, x, strict);
    case MissingFinish(_) => FinishedGuarded(w, call, Failed, "", x, strict);
    case Reserving(_) =>
      MovedGuarded(w, call, Reserving(id), x, strict);
      if Reservable(w.rows, id) { ReservedGuarded(w, call, id, Count(w.reserved, id) + 1, x, strict); }
    case Owning(_, attempt) => ProceedGuarded(w, call, a, x, strict);
    case Reporting(_, s, remoteID) => FinishedGuarded(w, call, s, remoteID, x, strict);
    case Polling(_) => MovedGuarded(w, call, if a.Reply? then PollReporting(id, Normalize(a.status), a.remoteID) else Polling(id), x, strict);
    case PollReporting(_, s, remoteID) => FinishedGuarded(w, call, s, remoteID, x, strict);
  }

  lemma ProceedGuarded(w: World, call: nat, a: Answer, x: string, strict: bool)
    requires Guarded(w, x, strict) && call in w.calls && w.calls[call].Owning?
    ensures Guarded(Proceed(w, call, w.calls[call].id, w.calls[call].attempt, a), x, strict)
  {
    hide Busy, IsLocal, Normalize;
    var v := Proceed(w, call, w.calls[call].id, w.calls[call].attempt, a);
    forall c ensures Owns(v, c, x) ==> Owns(w, c, x) {}
    GuardedStays(w, v, x, strict);
  }

  lemma MissingReservedGuarded(w: World, call: nat, x: string, strict: bool)
    requires Guarded(w, x, strict) && call in w.calls && w.calls[call].MissingReserve?
    ensures Guarded(At(DoReserve(w, w.calls[call].id), call, MissingFinish(w.calls[call].id)), x, strict)
  {
    hide Busy, Reserve;
    var id := w.calls[call].id;
    var v := At(DoReserve(w, id), call, MissingFinish(id));
    ReserveBusy(w.rows, id, x);
    forall c ensures Owns(v, c, x) ==> Owns(w, c, x) {}
    GuardedStays(w, v, x, strict);
  }

  lemma StepGuarded(w: World, e: Event, x: string, strict: bool)
    requires Unique(w.rows) && StagesOk(w) && Guarded(w, x, strict) && Harmless(w, e, x, strict)
    ensures Guarded(Step(w, e), x, strict)
  {
    hide Unique, InStatus, Busy, Advance, Guarded, LetsIn, Disturbs;
    match e
    case Publish(call, id, provider, key, target) => CreatedGuarded(w, call, id, provider, key, target, x, strict);
    case Retry(call, id) => MovedGuarded(w, call, Checking(id), x, strict);
    case Poll(call, id) => MovedGuarded(w, call, Polling(id), x, strict);
    case Continue(call, a) => if call in w.calls { AdvanceGuarded(w, call, a, x, strict); }
    case Crash(call) => MovedGuarded(w, call, Checking(""), x, strict);
  }

  lemma CreatedGuarded(w: World, call: nat, id: string, provider: string, key: string, target: Target, x: string, strict: bool)
    requires Guarded(w, x, strict)
    ensures Guarded(At(w.(rows := Create(w.rows, id, provider, key, target)), call, Inserted(id, provider, key)), x, strict)
  {
    var v := At(w.(rows := Create(w.rows, id, provider, key, target)), call, Inserted(id, provider, key));
    StatusStays(w.rows, v.rows, x);
    hide Busy;
    forall c ensures Owns(v, c, x) ==> Owns(w, c, x) {}
    GuardedStays(w, v, x, strict);
  }

  // ----- whole runs ------------------------------------------------------------------------

  ghost predicate LetsInAt(es: seq<Event>, m: int, id: string) {
    0 <= m < |es| && LetsIn(Run(START, es[..m]), es[m], id)
  }

  ghost predicate DisturbsAt(es: seq<Event>, m: int, id: string) {
    0 <= m < |es| && Disturbs(Run(START, es[..m]), es[m], id)
  }

  lemma {:induction false} RunGuarded(es: seq<Event>, id: string, strict: bool)
    requires forall m :: 0 <= m < |es| ==> !LetsInAt(es, m, id) && (strict ==> !DisturbsAt(es, m, id))
    ensures Guarded(Run(START, es), id, strict)
  {
    hide Step, Unique, Balanced, TokensOnce, LetsIn, Disturbs, StagesOk, Busy;
    if es != [] {
      var init := es[..|es| - 1];
      forall m | 0 <= m < |init| ensures !LetsInAt(init, m, id) && (strict ==> !DisturbsAt(init, m, id)) {
        assert init[..m] == es[..m] && !LetsInAt(es, m, id) && (strict ==> !DisturbsAt(es, m, id));
      }
      RunGuarded(init, id, strict);
      RunGood(init);
      assert !LetsInAt(es, |es| - 1, id) && (strict ==> !DisturbsAt(es, |es| - 1, id));
      StepGuarded(Run(START, init), es[|es| - 1], id, strict);
    }
  }

  /**
   * Two calls hold a release at once only after a poll or a missing file has made it "failed" while a
   * call held it. Until then the release cannot be reserved while it is held.
   */
  lemma SecondOwnerWasLetIn(es: seq<Event>, id: string, c: nat, d: nat)
    requires c != d && Owns(Run(START, es), c, id) && Owns(Run(START, es), d, id)
    ensures exists m :: LetsInAt(es, m, id)
  {
    hide Run, LetsIn;
    if forall m :: !LetsInAt(es, m, id) {
      RunGuarded(es, id, false);
      assert false;
    }
  }

  /** And as long as no other call gives a held release any outcome but "publishing", its one holder
      finds it "publishing" when it writes the outcome back. */
  lemma UndisturbedIsPublishing(es: seq<Event>, id: string, c: nat)
    requires Owns(Run(START, es), c, id) && forall m :: 0 <= m < |es| ==> !DisturbsAt(es, m, id)
    ensures InStatus(Run(START, es).rows, id, Publishing)
    ensures forall d :: Owns(Run(START, es), d, id) ==> d == c
  {
    hide Run;
    forall m | 0 <= m < |es| ensures !LetsInAt(es, m, id) && !DisturbsAt(es, m, id) {
      assert !DisturbsAt(es, m, id);
    }
    hide LetsIn, Disturbs, InStatus;
    RunGuarded(es, id, true);
  }

  /** Neither a poll nor a missing file. */
  predicate Quiet(e: Event) { !e.Poll? && (e.Continue? ==> e.answer != FileMissing) }

  ghost predicate QuietStages(w: World) {
    forall c :: c in w.calls ==>
      !w.calls[c].MissingReserve? && !w.calls[c].MissingFinish? && !w.calls[c].Polling? && !w.calls[c].PollReporting?
  }

  lemma QuietStep(w: World, e: Event)
    requires QuietStages(w) && Quiet(e)
    ensures QuietStages(Step(w, e))
  {
    hide InStatus, Create, Reservable, Finish, Reserve, IsLocal, Normalize;
  }

  lemma {:induction false} QuietRun(es: seq<Event>, k: nat)
    requires k <= |es| && forall e :: e in es ==> Quiet(e)
    ensures QuietStages(Run(START, es[..k]))
    decreases k
  {
    hide Step, QuietStages, Quiet;
    if k == 0 {
      assert QuietStages(START) by { assert START.calls == map[]; StartQuiet(); }
    } else {
      QuietRun(es, k - 1);
      assert es[..k][..k - 1] == es[..k - 1];
      QuietStep(Run(START, es[..k - 1]), es[k - 1]);
    }
  }

  lemma StartQuiet()
    ensures QuietStages(START)
  {
  }

  /** In particular, without polls and missing files one call at a time works on a release, which is "publishing". */
  lemma QuietRunsExclusive(es: seq<Event>, id: string)
    requires forall e :: e in es ==> Quiet(e)
    ensures Guarded(Run(START, es), id, true)
  {
    forall m | 0 <= m < |es| ensures !LetsInAt(es, m, id) && !DisturbsAt(es, m, id) {
      QuietRun(es, m);
      hide Run, Owned, Finish;
    }
    hide Run, LetsIn, Disturbs;
    RunGuarded(es, id, true);
  }

  lemma FailedAfterLettingIn(w: World, e: Event, id: string, c: nat)
    requires LetsIn(w, e, id) && Owns(w, c, id)
    ensures InStatus(Step(w, e).rows, id, Failed) && Owns(Step(w, e), c, id)
  {
    hide InStatus, Finish;
    FinishBusy(w.rows, id, Failed, if w.calls[e.call].PollReporting? then w.calls[e.call].remoteID else "", id);
  }

  /** Conversely, once a release has been made "failed" under its holder, a retry by a fresh call gives
      it a second holder: it checks its file and reserves. */
  lemma LetInIsSecondOwner(w: World, e: Event, id: string, c: nat, n: nat)
    requires LetsIn(w, e, id) && Owns(w, c, id) && n !in Step(w, e).calls
    ensures var go := Continue(n, FileIntact);
      var v := Step(Step(Step(Step(w, e), Retry(n, id)), go), go);
      c != n && Owns(v, c, id) && Owns(v, n, id)
  {
    FailedAfterLettingIn(w, e, id, c);
    hide LetsIn, Step, Owns;
    FreshRetryOwns(Step(w, e), id, c, n);
  }

  lemma FreshRetryOwns(u: World, id: string, c: nat, n: nat)
    requires InStatus(u.rows, id, Failed) && Owns(u, c, id) && n !in u.calls
    ensures var go := Continue(n, FileIntact);
      var v := Step(Step(Step(u, Retry(n, id)), go), go);
      c != n && Owns(v, c, id) && Owns(v, n, id)
  {
    hide InStatus, Reserve, Finish;
    var go := Continue(n, FileIntact);
    var u1 := Step(u, Retry(n, id));
    assert u1 == At(u, n, Checking(id));
    var u2 := Step(u1, go);
    assert u2 == At(u1, n, Reserving(id)) && Reservable(u2.rows, id);
  }

  // ----- runs in which that happens ---------------------------------------------------------

  const SAMPLE := Target("p", "v", "a")

  function Rows(s: Status): seq<Row> { [Row("r", "modrinth", "k", SAMPLE, s, "")] }

  /** A world with one release. */
  function Single(s: Status, calls: map<nat, Stage>, reserved: nat, failed: nat): World {
    World(Rows(s), calls, if reserved == 0 then map[] else map["r" := reserved], if failed == 0 then map[] else map["r" := failed], [])
  }

  lemma OneRow(s: Status)
    ensures forall x :: InStatus(Rows(s), "r", x) <==> x == s
    ensures !IsLocal(Rows(s), "r") && !RemoteTaken(Rows(s), "r", "")
    ensures s == Pending || s == Failed ==> Reserve(Rows(s), "r") == Rows(Publishing)
    ensures s == Publishing ==> Finish(Rows(s), "r", Failed, "") == (Rows(Failed), Done)
  {
    assert Rows(s)[0].id == "r" && Rows(s)[0].status == s;
    if s == Publishing {
      var f := Finish(Rows(s), "r", Failed, "");
      assert f.1 == Done && f.0[0] == Ended("r", Failed, "", Rows(s)[0]);
      assert f.0 == Rows(Failed);
    }
  }

  lemma Next(es: seq<Event>, e: Event)
    ensures Run(START, es + [e]) == Step(Run(START, es), e)
  {
    assert (es + [e])[..|es|] == es;
  }

  lemma Next3(es: seq<Event>, e: Event, f: Event, g: Event)
    ensures Run(START, es + [e] + [f] + [g]) == Step(Step(Step(Run(START, es), e), f), g)
  {
    Next(es, e);
    Next(es + [e], f);
    Next(es + [e] + [f], g);
  }

  /** Checking the file and reserving a release that is pending or failed. */
  lemma Attempted(s: Status, calls: map<nat, Stage>, n: nat, k: nat)
    requires n in calls && calls[n] == Checking("r") && (s == Pending || s == Failed)
    ensures var go := Continue(n, FileIntact);
      Step(Step(Single(s, calls, k, k), go), go) == Single(Publishing, calls[n := Owning("r", k + 1)], k + 1, k)
  {
    OneRow(s);
    hide InStatus, Reserve, Rows;
    var w := Single(s, calls[n := Reserving("r")], k, k);
    assert Step(Single(s, calls, k, k), Continue(n, FileIntact)) == w;
    assert calls[n := Reserving("r")][n := Owning("r", k + 1)] == calls[n := Owning("r", k + 1)];
  }

  lemma Published()
    ensures Step(Step(START, Publish(1, "r", "modrinth", "k", SAMPLE)), Continue(1, FileIntact)) == Single(Pending, map[1 := Checking("r")], 0, 0)
  {
    var e := Publish(1, "r", "modrinth", "k", SAMPLE);
    var w := Single(Pending, map[1 := Inserted("r", "modrinth", "k")], 0, 0);
    assert Create([], "r", "modrinth", "k", SAMPLE) == Rows(Pending);
    hide Create;
    assert Step(START, e) == w;
    assert w.rows[0].id == "r";
    assert Advance(w, 1, w.calls[1], FileIntact) == Single(Pending, map[1 := Checking("r")], 0, 0);
  }

  lemma FirstSteps()
    ensures var go := Continue(1, FileIntact);
      Step(Step(Step(Step(START, Publish(1, "r", "modrinth", "k", SAMPLE)), go), go), go) == Single(Publishing, map[1 := Owning("r", 1)], 1, 0)
  {
    hide Step;
    Published();
    Attempted(Pending, map[1 := Checking("r")], 1, 0);
    assert map[1 := Checking("r")][1 := Owning("r", 1)] == map[1 := Owning("r", 1)];
  }

  lemma StartRun()
    ensures Run(START, []) == START
  {
  }

  /** A first publication has made its reservation and is about to call the provider. */
  lemma FirstAttempt() returns (es: seq<Event>)
    ensures Run(START, es) == Single(Publishing, map[1 := Owning("r", 1)], 1, 0)
  {
    hide Step, Run, Single;
    var none: seq<Event> := [];
    var e, go := Publish(1, "r", "modrinth", "k", SAMPLE), Continue(1, FileIntact);
    FirstSteps();
    StartRun();
    Next(none, e);
    Next3(none + [e], go, go, go);
    es := none + [e] + [go] + [go] + [go];
  }

  /** The call that has come to write "failed" writes it and ends. */
  lemma FailureWritten(calls: map<nat, Stage>, n: nat, reserved: nat, k: nat, e: Event)
    requires n in calls && (calls[n] == MissingFinish("r") || calls[n] == Reporting("r", Failed, ""))
    requires e.Continue? && e.call == n
    ensures Step(Single(Publishing, calls, reserved, k), e) == Single(Failed, calls - {n}, reserved, k + 1)
  {
    OneRow(Publishing);
    hide Finish, Rows, IsLocal;
    var w := Single(Publishing, calls, reserved, k);
    assert DoFinish(w, "r", Failed, "") == Single(Failed, calls, reserved, k + 1);
    hide DoFinish;
  }

  /** A retry finds the release failed and reserves it again, whatever else is under way. */
  lemma AnotherAttempt(es: seq<Event>, calls: map<nat, Stage>, n: nat, k: nat) returns (more: seq<Event>)
    requires Run(START, es) == Single(Failed, calls, k, k) && n !in calls
    ensures Run(START, more) == Single(Publishing, calls[n := Owning("r", k + 1)], k + 1, k)
  {
    var go := Continue(n, FileIntact);
    OneRow(Failed);
    assert Step(Single(Failed, calls, k, k), Retry(n, "r")) == Single(Failed, calls[n := Checking("r")], k, k) by { hide InStatus, Rows; }
    Attempted(Failed, calls[n := Checking("r")], n, k);
    assert calls[n := Checking("r")][n := Owning("r", k + 1)] == calls[n := Owning("r", k + 1)];
    hide Step, InStatus;
    Next3(es, Retry(n, "r"), go, go);
    more := es + [Retry(n, "r")] + [go] + [go];
  }

  lemma {:induction false} LowerStays(s: string)
    requires forall i :: 0 <= i < |s| ==> 'a' <= s[i] <= 'z'
    ensures Lower(s) == s
  {
    if s != "" { LowerStays(s[1..]); }
  }

  lemma NormalizeFailed()
    ensures Normalize("failed") == Failed
  {
    hide TrimSpace, Lower;
    PlainStays("failed");
    LowerStays("failed");
  }

  lemma PolledFailed(calls: map<nat, Stage>)
    requires 2 !in calls
    ensures var reply := Continue(2, Reply("failed", ""));
      Step(Step(Step(Single(Publishing, calls, 1, 0), Poll(2, "r")), reply), reply) == Single(Failed, calls, 1, 1)
  {
    OneRow(Publishing);
    NormalizeFailed();
    hide InStatus, Finish, Rows, Normalize, IsLocal;
    var w, reply := Single(Publishing, calls, 1, 0), Continue(2, Reply("failed", ""));
    assert Step(w, Poll(2, "r")) == At(w, 2, Polling("r"));
    assert Step(At(w, 2, Polling("r")), reply) == At(w, 2, PollReporting("r", Failed, ""));
    assert calls[2 := PollReporting("r", Failed, "")] - {2} == calls;
  }

  /** A poll that reads "failed" while a call is at work lets a second call start: both then hold the release. */
  lemma PollBreaksExclusion() returns (es: seq<Event>)
    ensures var w := Run(START, es); 1 in w.calls && 3 in w.calls && w.calls[1] == Owning("r", 1) && w.calls[3] == Owning("r", 2)
  {
    var first := FirstAttempt();
    var poll, reply := Poll(2, "r"), Continue(2, Reply("failed", ""));
    PolledFailed(map[1 := Owning("r", 1)]);
    Next3(first, poll, reply, reply);
    hide Step;
    es := AnotherAttempt(first + [poll] + [reply] + [reply], map[1 := Owning("r", 1)], 3, 1);
  }

  lemma FailedUnavailable()
    ensures var fail := Continue(1, Unavailable);
      Step(Step(Single(Publishing, map[1 := Owning("r", 1)], 1, 0), fail), fail) == Single(Failed, map[], 1, 1)
  {
    var fail := Continue(1, Unavailable);
    var before := map[1 := Owning("r", 1)];
    var calls := before[1 := Reporting("r", Failed, "")];
    NotAnswered(before, 1, 1, 0);
    FailureWritten(calls, 1, 1, 0, fail);
    hide Step, Single;
    assert calls - {1} == map[];
  }

  /** The provider cannot be called. */
  lemma NotAnswered(calls: map<nat, Stage>, n: nat, reserved: nat, k: nat)
    requires n in calls && calls[n].Owning? && calls[n].id == "r"
    ensures Step(Single(Publishing, calls, reserved, k), Continue(n, Unavailable))
         == Single(Publishing, calls[n := Reporting("r", Failed, "")], reserved, k)
  {
    OneRow(Publishing);
    hide Rows, IsLocal, InStatus, Finish, Reserve;
  }

  lemma FirstFails() returns (es: seq<Event>)
    ensures Run(START, es) == Single(Failed, map[], 1, 1)
  {
    hide Step, Run, Single;
    var first := FirstAttempt();
    var fail := Continue(1, Unavailable);
    FailedUnavailable();
    Next(first, fail);
    Next(first + [fail], fail);
    es := first + [fail] + [fail];
  }

  lemma OtherMissing(es: seq<Event>)
    requires Run(START, es) == Single(Failed, map[], 1, 1)
    ensures Run(START, es + [Retry(2, "r")] + [Continue(2, FileMissing)]) == Single(Failed, map[2 := MissingReserve("r")], 1, 1)
  {
    OneRow(Failed);
    hide InStatus, Rows;
    assert Step(Single(Failed, map[], 1, 1), Retry(2, "r")) == Single(Failed, map[2 := Checking("r")], 1, 1);
    Next(es, Retry(2, "r"));
    Next(es + [Retry(2, "r")], Continue(2, FileMissing));
  }

  lemma OtherEnds(es: seq<Event>)
    requires Run(START, es) == Single(Publishing, map[2 := MissingReserve("r")][1 := Owning("r", 2)], 2, 1)
    ensures var e := Continue(2, FileMissing);
      Run(START, es + [e] + [e]) == Single(Failed, map[1 := Owning("r", 2)], 2, 2)
  {
    var e := Continue(2, FileMissing);
    var before := map[2 := MissingReserve("r")][1 := Owning("r", 2)];
    var calls := before[2 := MissingFinish("r")];
    NotReserved(before, calls, 2, 1);
    FailureWritten(calls, 2, 2, 1, e);
    hide Step, Run, Single;
    assert calls - {2} == map[1 := Owning("r", 2)];
    Next(es, e);
    Next(es + [e], e);
  }

  /** A release that is publishing cannot be reserved, and the call goes on all the same. */
  lemma NotReserved(before: map<nat, Stage>, calls: map<nat, Stage>, n: nat, k: nat)
    requires n in before && before[n] == MissingReserve("r") && calls == before[n := MissingFinish("r")]
    ensures Step(Single(Publishing, before, k + 1, k), Continue(n, FileMissing)) == Single(Publishing, calls, k + 1, k)
  {
    OneRow(Publishing);
    hide InStatus, Rows, Reserve;
  }

  /**
   * Two retries have found the release failed. One reserves it; the other misses the file, fails to
   * reserve, and still ends the attempt of the first, so that a third call can start beside it.
   */
  lemma MissingFileBreaksExclusion() returns (es: seq<Event>)
    ensures var w := Run(START, es); 1 in w.calls && 3 in w.calls && w.calls[1] == Owning("r", 2) && w.calls[3] == Owning("r", 3)
  {
    hide Step;
    var failed := FirstFails();
    OtherMissing(failed);
    var more := AnotherAttempt(failed + [Retry(2, "r")] + [Continue(2, FileMissing)], map[2 := MissingReserve("r")], 1, 1);
    OtherEnds(more);
    es := AnotherAttempt(more + [Continue(2, FileMissing)] + [Continue(2, FileMissing)], map[1 := Owning("r", 2)], 3, 2);
  }
}
