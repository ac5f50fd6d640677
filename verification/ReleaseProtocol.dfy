/**
 * Publishing releases: publish, retry and poll calls over the table of releases. Each statement on the
 * table is one step, provider calls are outside of it, and the steps of all calls interleave; a call
 * may stop for good after any step.
 */
module ReleaseProtocol {
  import opened ReleaseTable

  // ----- calls -----------------------------------------------------------------------------

  /** Where a call is. Owning carries the number of the reservation the call has made. */
  datatype Stage =
    | Inserted(id: string, provider: string, key: string)
    | Checking(id: string)
    | MissingReserve(id: string)
    | MissingFinish(id: string)
    | Reserving(id: string)
    | Owning(id: string, attempt: nat)
    | Reporting(id: string, status: Status, remoteID: string)
    | Polling(id: string)
    | PollReporting(id: string, status: Status, remoteID: string)

  /** What the world outside the table answers: whether the file is intact, what the provider says. */
  datatype Answer = FileIntact | FileMissing | Unavailable | CallFailed | Reply(status: string, remoteID: string)

  /** The table, the calls under way, and the history: reservations, failures and provider calls. */
  datatype World = World(
    rows: seq<Row>, calls: map<nat, Stage>, reserved: map<string, nat>, failed: map<string, nat>, called: seq<(string, nat)>)

  const START := World([], map[], map[], map[], [])

  datatype Event =
    | Publish(call: nat, id: string, provider: string, key: string, target: Target)
    | Retry(call: nat, id: string)
    | Poll(call: nat, id: string)
    | Continue(call: nat, answer: Answer)
    | Crash(call: nat)

  function Count(m: map<string, nat>, id: string): nat {
    if id in m then m[id] else 0
  }

  predicate IsLocal(rows: seq<Row>, id: string) {
    exists i :: 0 <= i < |rows| && rows[i].id == id && rows[i].provider == "local"
  }

  function At(w: World, call: nat, s: Stage): World { w.(calls := w.calls[call := s]) }

  function Leave(w: World, call: nat): World { w.(calls := w.calls - {call}) }

  /** A successful reservation is numbered. */
  function DoReserve(w: World, id: string): World {
    if Reservable(w.rows, id)
    then w.(rows := Reserve(w.rows, id), reserved := w.reserved[id := Count(w.reserved, id) + 1])
    else w
  }

  function DoFinish(w: World, id: string, s: Status, remoteID: string): World {
    var (rows, f) := Finish(w.rows, id, s, remoteID);
    w.(rows := rows, failed := if f == Done && s == Failed then w.failed[id := Count(w.failed, id) + 1] else w.failed)
  }

  /** The next step of a call that has made its reservation: the provider is called at most once. */
  function Proceed(w: World, call: nat, id: string, attempt: nat, a: Answer): World {
    if IsLocal(w.rows, id) then At(w, call, Reporting(id, Succeeded, ArtifactOf(w.rows, id)))
    else
      match a
      case CallFailed => At(w.(called := w.called + [(id, attempt)]), call, Reporting(id, Failed, ""))
      case Reply(s, r) =>
        At(w.(called := w.called + [(id, attempt)]), call, Reporting(id, Normalize(s), if Normalize(s) == Failed then "" else r))
      case _ => At(w, call, Reporting(id, Failed, ""))
  }

  function ArtifactOf(rows: seq<Row>, id: string): string {
    if rows == [] then "" else if rows[0].id == id then rows[0].target.artifact else ArtifactOf(rows[1..], id)
  }

  function Advance(w: World, call: nat, stage: Stage, a: Answer): World {
    match stage
    case Inserted(id, provider, key) =>
      // the row found under the key must be the one just made, and still pending
      if exists i :: 0 <= i < |w.rows| && w.rows[i].provider == provider && w.rows[i].key == key && w.rows[i].id == id && w.rows[i].status == Pending
      then At(w, call, Checking(id)) else Leave(w, call)
    case Checking(id) => At(w, call, if a == FileMissing then MissingReserve(id) else Reserving(id))
    case MissingReserve(id) => At(DoReserve(w, id), call, MissingFinish(id))
    case MissingFinish(id) => Leave(DoFinish(w, id, Failed, ""), call)
    case Reserving(id) =>
      if Reservable(w.rows, id) then At(DoReserve(w, id), call, Owning(id, Count(w.reserved, id) + 1)) else Leave(w, call)
    case Owning(id, attempt) => Proceed(w, call, id, attempt, a)
    case Reporting(id, s, remoteID) => Leave(DoFinish(w, id, s, remoteID), call)
    case Polling(id) =>
      if a.Reply? then At(w, call, PollReporting(id, Normalize(a.status), a.remoteID)) else Leave(w, call)
    case PollReporting(id, s, remoteID) => Leave(DoFinish(w, id, s, remoteID), call)
  }

  function Step(w: World, e: Event): World {
    match e
    case Publish(call, id, provider, key, target) =>
      if call in w.calls then w
      else At(w.(rows := Create(w.rows, id, provider, key, target)), call, Inserted(id, provider, key))
    case Retry(call, id) =>
      if call !in w.calls && InStatus(w.rows, id, Failed) then At(w, call, Checking(id)) else w
    case Poll(call, id) =>
      if call !in w.calls && InStatus(w.rows, id, Publishing) && !IsLocal(w.rows, id) then At(w, call, Polling(id)) else w
    case Continue(call, a) => if call in w.calls then Advance(w, call, w.calls[call], a) else w
    case Crash(call) => Leave(w, call)
  }

  function Run(w: World, es: seq<Event>): World {
    if es == [] then w else Step(Run(w, es[..|es| - 1]), es[|es| - 1])
  }

  // ----- one row for each key --------------------------------------------------------------

  ghost predicate Unique(rows: seq<Row>) {
    forall i, j :: 0 <= i < j < |rows| ==>
      rows[i].id != rows[j].id && !(rows[i].provider == rows[j].provider && rows[i].key == rows[j].key)
  }

  /** A row is never made pending again, and once it has succeeded it stays as it is. */
  predicate RowKept(a: Row, b: Row) {
    && b.id == a.id && b.provider == a.provider && b.key == a.key && b.target == a.target
    && (a.status != Pending ==> b.status != Pending)
    && (a.status == Succeeded ==> b == a)
  }

  ghost predicate Kept(a: seq<Row>, b: seq<Row>) {
    |a| <= |b| && forall i :: 0 <= i < |a| ==> RowKept(a[i], b[i])
  }

  // ----- reservations, failures and calls --------------------------------------------------

  /** Every reservation but the one in force, or the last, has been followed by a failure. */
  predicate RowBalanced(r: Row, reserved: nat, failed: nat) {
    match r.status
    case Pending => reserved == 0 && failed == 0
    case Failed => reserved == failed
    case _ => reserved == failed + 1
  }

  ghost predicate Balanced(rows: seq<Row>, reserved: map<string, nat>, failed: map<string, nat>) {
    && (forall i :: 0 <= i < |rows| ==> RowBalanced(rows[i], Count(reserved, rows[i].id), Count(failed, rows[i].id)))
    && (forall id :: !HasID(rows, id) ==> Count(reserved, id) == 0 && Count(failed, id) == 0)
  }

  ghost predicate Sound(w: World) { Unique(w.rows) && Balanced(w.rows, w.reserved, w.failed) }

  ghost predicate TokenValid(w: World, t: (string, nat)) { 1 <= t.1 <= Count(w.reserved, t.0) }

  /** Reservations are used by one call each, and for one provider call each. */
  ghost predicate TokensOnce(w: World) {
    && (forall i :: 0 <= i < |w.called| ==> TokenValid(w, w.called[i]))
    && (forall i, j :: 0 <= i < j < |w.called| ==> w.called[i] != w.called[j])
    && (forall c :: c in w.calls && w.calls[c].Owning? ==> TokenFree(w, (w.calls[c].id, w.calls[c].attempt)))
    && (forall c, d :: c in w.calls && d in w.calls && c != d && w.calls[c].Owning? && w.calls[d].Owning? ==> w.calls[c] != w.calls[d])
  }

  ghost predicate TokenFree(w: World, t: (string, nat)) {
    TokenValid(w, t) && forall i :: 0 <= i < |w.called| ==> w.called[i] != t
  }

  ghost predicate Good(w: World) { Sound(w) && TokensOnce(w) }

  lemma RowOf(rows: seq<Row>, id: string) returns (k: nat)
    requires Unique(rows) && HasID(rows, id)
    ensures k < |rows| && rows[k].id == id && forall i :: 0 <= i < |rows| && rows[i].id == id ==> i == k
  {
    k :| 0 <= k < |rows| && rows[k].id == id;
  }

  lemma ReserveGood(w: World, id: string)
    requires Sound(w) && Reservable(w.rows, id)
    ensures var v := DoReserve(w, id); Sound(v) && Kept(w.rows, v.rows) && |v.rows| == |w.rows|
  {
    var k := ReservedRow(w, id);
    hide Reservable, DoReserve;
    RowChanged(w, DoReserve(w, id), k);
  }

  lemma ReservedRow(w: World, id: string) returns (k: nat)
    requires Sound(w) && Reservable(w.rows, id)
    ensures k < |w.rows| && w.rows[k].id == id && RowsDiffer(w, DoReserve(w, id), k)
  {
    k := RowOf(w.rows, id);
    var v := DoReserve(w, id);
    assert w.rows[k].status == Pending || w.rows[k].status == Failed;
    hide InStatus, HasID;
    assert forall i :: 0 <= i < |w.rows| ==> v.rows[i] == Reserved(id, w.rows[i]);
  }

  /** v is w but for one row, which is in balance. */
  ghost predicate RowsDiffer(w: World, v: World, k: nat)
    requires k < |w.rows|
  {
    && |v.rows| == |w.rows| && (forall i :: 0 <= i < |w.rows| && i != k ==> v.rows[i] == w.rows[i])
    && RowKept(w.rows[k], v.rows[k])
    && RowBalanced(v.rows[k], Count(v.reserved, v.rows[k].id), Count(v.failed, v.rows[k].id))
    && forall id :: id != w.rows[k].id ==> Count(v.reserved, id) == Count(w.reserved, id) && Count(v.failed, id) == Count(w.failed, id)
  }

  lemma RowChanged(w: World, v: World, k: nat)
    requires Sound(w) && k < |w.rows| && RowsDiffer(w, v, k)
    ensures Sound(v) && Kept(w.rows, v.rows)
  {
    SameIDs(w.rows, v.rows);
    assert HasID(w.rows, w.rows[k].id);
    hide HasID, RowBalanced;
  }

  lemma SameIDs(a: seq<Row>, b: seq<Row>)
    requires |a| == |b| && forall i :: 0 <= i < |a| ==> a[i].id == b[i].id
    ensures forall id :: HasID(a, id) <==> HasID(b, id)
  {
    forall id | HasID(a, id) ensures HasID(b, id) {
      var i :| 0 <= i < |a| && a[i].id == id;
      assert b[i].id == id;
    }
    forall id | HasID(b, id) ensures HasID(a, id) {
      var i :| 0 <= i < |b| && b[i].id == id;
      assert a[i].id == id;
    }
  }

  lemma FinishGood(w: World, id: string, s: Status, remoteID: string)
    requires Sound(w) && s != Pending
    ensures var v := DoFinish(w, id, s, remoteID); Sound(v) && Kept(w.rows, v.rows) && |v.rows| == |w.rows|
  {
    KeptRefl(w.rows);
    if Finish(w.rows, id, s, remoteID).1 == Done {
      var k := FinishedRow(w, id, s, remoteID);
      hide DoFinish;
      RowChanged(w, DoFinish(w, id, s, remoteID), k);
    }
  }

  lemma FinishedRow(w: World, id: string, s: Status, remoteID: string) returns (k: nat)
    requires Sound(w) && s != Pending && Finish(w.rows, id, s, remoteID).1 == Done
    ensures k < |w.rows| && w.rows[k].id == id && RowsDiffer(w, DoFinish(w, id, s, remoteID), k)
  {
    k := RowOf(w.rows, id);
    var v := DoFinish(w, id, s, remoteID);
    assert w.rows[k].status == Publishing;
    hide InStatus, HasID, RemoteTaken;
    assert forall i :: 0 <= i < |w.rows| ==> v.rows[i] == Ended(id, s, remoteID, w.rows[i]);
  }

  lemma CreateGood(w: World, id: string, provider: string, key: string, target: Target)
    requires Sound(w)
    ensures var v := w.(rows := Create(w.rows, id, provider, key, target)); Sound(v) && Kept(w.rows, v.rows)
  {
    var rows := Create(w.rows, id, provider, key, target);
    if rows != w.rows {
      forall x | HasID(w.rows, x) ensures HasID(rows, x) {
        var i :| 0 <= i < |w.rows| && w.rows[i].id == x;
        assert rows[i].id == x;
      }
      assert rows[|w.rows|].id == id;
    }
  }

  lemma KeptRefl(a: seq<Row>)
    ensures Kept(a, a)
  {
  }

  /** A call moves to a stage in which it owns nothing. */
  lemma MoveOn(w: World, call: nat, s: Stage)
    requires TokensOnce(w) && !s.Owning?
    ensures TokensOnce(At(w, call, s)) && TokensOnce(Leave(w, call))
  {
    forall t | TokenFree(w, t) ensures TokenFree(At(w, call, s), t) && TokenFree(Leave(w, call), t) { }
    forall t | TokenValid(w, t) ensures TokenValid(At(w, call, s), t) && TokenValid(Leave(w, call), t) { }
    hide TokenFree, TokenValid;
  }

  /** Tokens do not depend on the rows and the failures, and survive further reservations. */
  lemma TokensStay(w: World, v: World)
    requires TokensOnce(w) && v.calls == w.calls && v.called == w.called
    requires forall id :: Count(w.reserved, id) <= Count(v.reserved, id)
    ensures TokensOnce(v)
  {
    forall t | TokenFree(w, t) ensures TokenFree(v, t) { }
    forall t | TokenValid(w, t) ensures TokenValid(v, t) { }
    hide TokenFree, TokenValid;
  }

  lemma TakeToken(w: World, call: nat, id: string)
    requires TokensOnce(w) && Reservable(w.rows, id)
    ensures TokensOnce(At(DoReserve(w, id), call, Owning(id, Count(w.reserved, id) + 1)))
  {
    var v := DoReserve(w, id);
    TokensStay(w, v);
    var t := (id, Count(w.reserved, id) + 1);
    forall x | TokenValid(w, x) ensures x != t { }
    var u := At(v, call, Owning(t.0, t.1));
    forall x | TokenFree(v, x) ensures TokenFree(u, x) { }
    assert TokenFree(u, t);
    assert forall c :: c in w.calls && w.calls[c].Owning? ==> TokenValid(w, (w.calls[c].id, w.calls[c].attempt));
    hide TokenFree, TokenValid, Reserve;
  }

  lemma UseToken(w: World, call: nat, s: Stage)
    requires TokensOnce(w) && call in w.calls && w.calls[call].Owning? && !s.Owning?
    ensures TokensOnce(At(w.(called := w.called + [(w.calls[call].id, w.calls[call].attempt)]), call, s))
  {
    var t := (w.calls[call].id, w.calls[call].attempt);
    var v := At(w.(called := w.called + [t]), call, s);
    assert TokenFree(w, t);
    forall x | TokenValid(w, x) ensures TokenValid(v, x) { }
    forall x | TokenFree(w, x) && x != t ensures TokenFree(v, x) { }
    hide TokenFree, TokenValid;
  }

  ghost predicate StagesOk(w: World) {
    forall c :: c in w.calls ==> StageOk(w.calls[c])
  }

  /** No call is about to write "pending". */
  predicate StageOk(s: Stage) {
    (s.Reporting? || s.PollReporting?) ==> s.status != Pending
  }

  lemma AdvanceGood(w: World, call: nat, a: Answer)
    requires Good(w) && StagesOk(w) && call in w.calls
    ensures var v := Advance(w, call, w.calls[call], a); Good(v) && StagesOk(v) && Kept(w.rows, v.rows)
  {
    hide Unique, Balanced, TokensOnce, Kept, Normalize, Reservable, IsLocal, DoFinish;
    KeptRefl(w.rows);
    match w.calls[call]
    case Inserted(id, provider, key) => MoveOn(w, call, Checking(id));
    case Checking(id) => MoveOn(w, call, if a == FileMissing then MissingReserve(id) else Reserving(id));
    case MissingReserve(id) =>
      if Reservable(w.rows, id) { ReserveGood(w, id); }
      TokensStay(w, DoReserve(w, id));
      MoveOn(DoReserve(w, id), call, MissingFinish(id));
    case MissingFinish(id) => WriteBack(w, call, id, Failed, "");
    case Reserving(id) =>
      MoveOn(w, call, Reserving(id));
      if Reservable(w.rows, id) {
        ReserveGood(w, id);
        TakeToken(w, call, id);
      }
    case Owning(id, attempt) =>
      var s := Proceed(w, call, id, attempt, a).calls[call];
      NormalNotPending(a);
      UseToken(w, call, s);
      MoveOn(w, call, s);
    case Reporting(id, s, remoteID) => WriteBack(w, call, id, s, remoteID);
    case Polling(id) => NormalNotPending(a); MoveOn(w, call, if a.Reply? then PollReporting(id, Normalize(a.status), a.remoteID) else Polling(id));
    case PollReporting(id, s, remoteID) => WriteBack(w, call, id, s, remoteID);
  }

  lemma NormalNotPending(a: Answer)
    ensures a.Reply? ==> Normalize(a.status) != Pending
  {
  }

  lemma WriteBack(w: World, call: nat, id: string, s: Status, remoteID: string)
    requires Good(w) && StagesOk(w) && s != Pending
    ensures var v := Leave(DoFinish(w, id, s, remoteID), call); Good(v) && StagesOk(v) && Kept(w.rows, v.rows)
  {
    hide Unique, Balanced, TokensOnce, Kept, Finish;
    FinishGood(w, id, s, remoteID);
    TokensStay(w, DoFinish(w, id, s, remoteID));
    MoveOn(DoFinish(w, id, s, remoteID), call, Checking(id));
  }

  lemma StepGood(w: World, e: Event)
    requires Good(w) && StagesOk(w)
    ensures var v := Step(w, e); Good(v) && StagesOk(v) && Kept(w.rows, v.rows)
  {
    hide Unique, Balanced, TokensOnce, Kept, Advance, Create, InStatus, IsLocal;
    KeptRefl(w.rows);
    match e
    case Publish(call, id, provider, key, target) =>
      CreateGood(w, id, provider, key, target);
      var v := w.(rows := Create(w.rows, id, provider, key, target));
      TokensStay(w, v);
      MoveOn(v, call, Inserted(id, provider, key));
    case Retry(call, id) => MoveOn(w, call, Checking(id));
    case Poll(call, id) => MoveOn(w, call, Polling(id));
    case Continue(call, a) => if call in w.calls { AdvanceGood(w, call, a); }
    case Crash(call) => MoveOn(w, call, Checking(""));
  }

  lemma {:induction false} RunGood(es: seq<Event>)
    ensures Good(Run(START, es)) && StagesOk(Run(START, es))
  {
    hide Step, Good, StagesOk;
    if es == [] {
      StartGood();
    } else {
      RunGood(es[..|es| - 1]);
      StepGood(Run(START, es[..|es| - 1]), es[|es| - 1]);
    }
  }

  lemma StartGood()
    ensures Good(START) && StagesOk(START)
  {
  }

  // ----- what holds in every run -----------------------------------------------------------

  /** How often the provider has been called for a release. */
  function CallsFor(called: seq<(string, nat)>, id: string): nat {
    if called == [] then 0 else CallsFor(called[..|called| - 1], id) + if called[|called| - 1].0 == id then 1 else 0
  }

  function Attempts(called: seq<(string, nat)>, id: string): set<nat> {
    set t | t in called && t.0 == id :: t.1
  }

  lemma {:induction false} CallsCounted(called: seq<(string, nat)>, id: string)
    requires forall i, j :: 0 <= i < j < |called| ==> called[i] != called[j]
    ensures |Attempts(called, id)| == CallsFor(called, id)
  {
    if called != [] {
      var init, last := called[..|called| - 1], called[|called| - 1];
      CallsCounted(init, id);
      assert forall t :: t in called <==> t in init || t == last;
      if last.0 == id {
        assert Attempts(called, id) == Attempts(init, id) + {last.1};
        assert last.1 !in Attempts(init, id);
      } else {
        assert Attempts(called, id) == Attempts(init, id);
      }
    }
  }

  lemma {:induction false} SmallSet(s: set<nat>, n: nat)
    requires forall k :: k in s ==> 1 <= k <= n
    ensures |s| <= n
  {
    if n > 0 { SmallSet(s - {n}, n - 1); }
  }

  /** For every release: provider calls <= reservations <= entries into "failed" + 1. */
  lemma CallsBounded(es: seq<Event>, id: string)
    ensures var w := Run(START, es); CallsFor(w.called, id) <= Count(w.reserved, id) <= Count(w.failed, id) + 1
  {
    RunGood(es);
    var w := Run(START, es);
    hide Run;
    if HasID(w.rows, id) {
      var k := RowOf(w.rows, id);
    }
    CallsCounted(w.called, id);
    forall k | k in Attempts(w.called, id) ensures 1 <= k <= Count(w.reserved, id) {
      var t :| t in w.called && t.0 == id && t.1 == k;
      var i :| 0 <= i < |w.called| && w.called[i] == t;
      assert TokenValid(w, w.called[i]);
    }
    SmallSet(Attempts(w.called, id), Count(w.reserved, id));
  }

  /** Every provider call has a reservation of its own, and each key has one row. */
  lemma ReservationsOwned(es: seq<Event>)
    ensures var w := Run(START, es);
      && Unique(w.rows)
      && (forall i, j :: 0 <= i < j < |w.called| ==> w.called[i] != w.called[j])
      && forall i :: 0 <= i < |w.called| ==> 1 <= w.called[i].1 <= Count(w.reserved, w.called[i].0)
  {
    RunGood(es);
    var w := Run(START, es);
    hide Run, Unique, Balanced;
    assert forall i :: 0 <= i < |w.called| ==> TokenValid(w, w.called[i]);
  }

  lemma KeptTransitive(a: seq<Row>, b: seq<Row>, c: seq<Row>)
    requires Kept(a, b) && Kept(b, c)
    ensures Kept(a, c)
  {
    forall i | 0 <= i < |a| ensures RowKept(a[i], c[i]) {
      assert RowKept(a[i], b[i]) && RowKept(b[i], c[i]);
    }
  }

  lemma {:induction false} RunKeeps(es: seq<Event>, k: nat)
    requires k <= |es|
    ensures Kept(Run(START, es[..k]).rows, Run(START, es).rows)
    decreases |es|
  {
    hide Step, Kept, Good;
    if k == |es| {
      assert es[..k] == es;
      KeptRefl(Run(START, es).rows);
    } else {
      var init := es[..|es| - 1];
      assert init[..k] == es[..k];
      RunKeeps(init, k);
      RunGood(init);
      StepGood(Run(START, init), es[|es| - 1]);
      KeptTransitive(Run(START, es[..k]).rows, Run(START, init).rows, Run(START, es).rows);
    }
  }

  lemma ReservedGrows(w: World, e: Event, id: string)
    ensures Count(w.reserved, id) <= Count(Step(w, e).reserved, id)
    ensures Count(w.reserved, id) < Count(Step(w, e).reserved, id) ==> Reservable(w.rows, id)
  {
    hide Reservable, Reserve, Finish, InStatus, IsLocal, Create, Normalize;
  }

  /** Once a release has succeeded its row is final and no reservation is made any more. */
  lemma {:induction false} SuccessIsFinal(es: seq<Event>, k: nat, i: nat)
    requires k <= |es| && i < |Run(START, es[..k]).rows| && Run(START, es[..k]).rows[i].status == Succeeded
    ensures var r := Run(START, es[..k]).rows[i];
      && i < |Run(START, es).rows| && Run(START, es).rows[i] == r
      && Count(Run(START, es).reserved, r.id) == Count(Run(START, es[..k]).reserved, r.id)
    decreases |es|
  {
    hide Step, Run;
    RunKeeps(es, k);
    if k == |es| {
      assert es[..k] == es;
    } else {
      var init := es[..|es| - 1];
      assert init[..k] == es[..k];
      SuccessIsFinal(init, k, i);
      RunStep(es);
      var w := Run(START, init);
      ReservedGrows(w, es[|es| - 1], w.rows[i].id);
      RunGood(init);
      assert !Reservable(w.rows, w.rows[i].id);
    }
  }

  lemma RunStep(es: seq<Event>)
    requires es != []
    ensures Run(START, es) == Step(Run(START, es[..|es| - 1]), es[|es| - 1])
  {
  }
}
