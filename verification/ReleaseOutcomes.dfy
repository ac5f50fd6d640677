/** What is recorded of a release: what the provider answered, and nothing that nobody has said. */
module ReleaseOutcomes {
  import opened ReleaseTable
  import opened ReleaseProtocol

  // ----- one call, run to its end ----------------------------------------------------------

  /** The row of a publishing release after a call that holds it has gone on to its end. */
  ghost predicate Recorded(rows: seq<Row>, k: nat, a: Answer, r: Row)
    requires k < |rows|
  {
    var row := rows[k];
    if row.provider == "local" then
      r == if RemoteTaken(rows, row.id, row.target.artifact) then row else row.(status := Succeeded, remoteID := row.target.artifact)
    else
      match a
      case Reply(text, remoteID) =>
        if Normalize(text) == Failed then r == row.(status := Failed, remoteID := "")
        else r == if RemoteTaken(rows, row.id, remoteID) then row else row.(status := Normalize(text), remoteID := remoteID)
      case _ => r == row.(status := Failed, remoteID := "")
  }

  lemma LocalAt(rows: seq<Row>, k: nat)
    requires Unique(rows) && k < |rows|
    ensures IsLocal(rows, rows[k].id) <==> rows[k].provider == "local"
    ensures InStatus(rows, rows[k].id, Publishing) <==> rows[k].status == Publishing
  {
  }

  lemma {:induction false} ArtifactAt(rows: seq<Row>, k: nat)
    requires Unique(rows) && k < |rows|
    ensures ArtifactOf(rows, rows[k].id) == rows[k].target.artifact
  {
    if k > 0 {
      assert rows[0].id != rows[k].id && rows[k] == rows[1..][k - 1];
      ArtifactAt(rows[1..], k - 1);
    }
  }

  lemma FinishAt(rows: seq<Row>, k: nat, s: Status, remoteID: string)
    requires Unique(rows) && k < |rows| && rows[k].status == Publishing
    ensures var b := Finish(rows, rows[k].id, s, remoteID).0;
      && |b| == |rows| && (forall i :: 0 <= i < |rows| && i != k ==> b[i] == rows[i])
      && b[k] == if RemoteTaken(rows, rows[k].id, remoteID) then rows[k] else rows[k].(status := s, remoteID := remoteID)
  {
    hide RemoteTaken;
    LocalAt(rows, k);
    forall i | 0 <= i < |rows| && i != k ensures rows[i].id != rows[k].id {}
  }

  lemma NothingTaken(rows: seq<Row>, id: string)
    ensures !RemoteTaken(rows, id, "")
  {
  }

  /**
   * A call that holds a publishing release records what the provider answered: a local release
   * succeeds under the id of its artifact; one whose provider cannot be called, or fails, ends failed
   * without a remote id; any other takes the status that the reply means and its remote id, unless
   * the id is taken. No other release is touched.
   */
  lemma OwnedOutcome(w: World, call: nat, k: nat, a: Answer, b: Answer)
    requires Unique(w.rows) && call in w.calls && w.calls[call].Owning? && k < |w.rows|
    requires w.rows[k].id == w.calls[call].id && w.rows[k].status == Publishing
    ensures var v := Step(Step(w, Continue(call, a)), Continue(call, b));
      && call !in v.calls && |v.rows| == |w.rows| && Recorded(w.rows, k, a, v.rows[k])
      && forall i :: 0 <= i < |w.rows| && i != k ==> v.rows[i] == w.rows[i]
  {
    var id := w.calls[call].id;
    LocalAt(w.rows, k);
    ArtifactAt(w.rows, k);
    NothingTaken(w.rows, id);
    var u := Step(w, Continue(call, a));
    assert u.rows == w.rows && u.calls[call].Reporting? && u.calls[call].id == id;
    FinishAt(w.rows, k, u.calls[call].status, u.calls[call].remoteID);
    hide Finish, RemoteTaken, Normalize, IsLocal, Unique;
  }

  /** A poll of a publishing release records what it reads; a provider that does not answer changes nothing. */
  lemma PolledOutcome(w: World, call: nat, k: nat, a: Answer, b: Answer)
    requires Unique(w.rows) && call !in w.calls && k < |w.rows| && w.rows[k].status == Publishing && w.rows[k].provider != "local"
    ensures var id := w.rows[k].id;
      var v := Step(Step(Step(w, Poll(call, id)), Continue(call, a)), Continue(call, b));
      && v.calls == w.calls && |v.rows| == |w.rows| && (forall i :: 0 <= i < |w.rows| && i != k ==> v.rows[i] == w.rows[i])
      && v.rows[k] ==
         if a.Reply? && !RemoteTaken(w.rows, id, a.remoteID) then w.rows[k].(status := Normalize(a.status), remoteID := a.remoteID)
         else w.rows[k]
  {
    var id := w.rows[k].id;
    PollSteps(w, call, k, a, b);
    hide Step;
    if a.Reply? { FinishAt(w.rows, k, Normalize(a.status), a.remoteID); }
    hide Finish, RemoteTaken, Normalize, Unique, InStatus;
  }

  lemma PollSteps(w: World, call: nat, k: nat, a: Answer, b: Answer)
    requires Unique(w.rows) && call !in w.calls && k < |w.rows| && w.rows[k].status == Publishing && w.rows[k].provider != "local"
    ensures var id := w.rows[k].id;
      var v := Step(Step(Step(w, Poll(call, id)), Continue(call, a)), Continue(call, b));
      && v.calls == w.calls
      && v.rows == if a.Reply? then Finish(w.rows, id, Normalize(a.status), a.remoteID).0 else w.rows
  {
    var id := w.rows[k].id;
    LocalAt(w.rows, k);
    hide Finish, RemoteTaken, Normalize, IsLocal, Unique, InStatus;
    var u := Step(w, Poll(call, id));
    assert u == At(w, call, Polling(id));
    var t := Step(u, Continue(call, a));
    assert a.Reply? ==> t == At(u, call, PollReporting(id, Normalize(a.status), a.remoteID));
    assert t.calls - {call} == w.calls;
  }

  lemma ReserveAt(rows: seq<Row>, k: nat)
    requires Unique(rows) && k < |rows|
    ensures var b := if Reservable(rows, rows[k].id) then Reserve(rows, rows[k].id) else rows;
      && |b| == |rows| && (forall i :: 0 <= i < |rows| && i != k ==> b[i] == rows[i])
      && b[k] == if rows[k].status == Succeeded then rows[k] else rows[k].(status := Publishing)
  {
    forall i | 0 <= i < |rows| && i != k ensures rows[i].id != rows[k].id {}
    assert Reserve(rows, rows[k].id)[k] == Reserved(rows[k].id, rows[k]);
    if rows[k].status == Failed { assert InStatus(rows, rows[k].id, Failed); }
    if rows[k].status == Pending { assert InStatus(rows, rows[k].id, Pending); }
  }

  /** A call that finds the file missing leaves its release failed, unless it has succeeded, and calls nobody. */
  lemma MissingOutcome(w: World, call: nat, k: nat, b: Answer, c: Answer)
    requires Unique(w.rows) && call in w.calls && k < |w.rows| && w.calls[call] == Checking(w.rows[k].id)
    ensures var v := Step(Step(Step(w, Continue(call, FileMissing)), Continue(call, b)), Continue(call, c));
      && call !in v.calls && v.called == w.called && |v.rows| == |w.rows|
      && (forall i :: 0 <= i < |w.rows| && i != k ==> v.rows[i] == w.rows[i])
      && v.rows[k] == if w.rows[k].status == Succeeded then w.rows[k] else w.rows[k].(status := Failed, remoteID := "")
  {
    var id := w.rows[k].id;
    var t := MissingReserved(w, call, k, b);
    ReserveAt(w.rows, k);
    hide Reserve, Reservable, Finish, DoReserve, Step;
    SameIDsUnique(w.rows, t.rows);
    FinishFailedAt(t.rows, k);
    assert Step(t, Continue(call, c)) == Leave(DoFinish(t, id, Failed, ""), call) by { StepIs(t, call, c); }
  }

  lemma StepIs(w: World, call: nat, a: Answer)
    requires call in w.calls
    ensures Step(w, Continue(call, a)) == Advance(w, call, w.calls[call], a)
  {
  }

  lemma SameIDsUnique(a: seq<Row>, b: seq<Row>)
    requires Unique(a) && |a| == |b| && forall i :: 0 <= i < |a| ==> b[i].id == a[i].id
    ensures forall i, j :: 0 <= i < j < |b| ==> b[i].id != b[j].id
  {
  }

  lemma MissingReserved(w: World, call: nat, k: nat, b: Answer) returns (t: World)
    requires call in w.calls && k < |w.rows| && w.calls[call] == Checking(w.rows[k].id)
    ensures t == Step(Step(w, Continue(call, FileMissing)), Continue(call, b))
    ensures call in t.calls && t.calls[call] == MissingFinish(w.rows[k].id) && t.called == w.called
    ensures t.rows == if Reservable(w.rows, w.rows[k].id) then Reserve(w.rows, w.rows[k].id) else w.rows
  {
    hide Reserve, Reservable;
    var u := Step(w, Continue(call, FileMissing));
    assert u == At(w, call, MissingReserve(w.rows[k].id));
    t := Step(u, Continue(call, b));
  }

  lemma FinishFailedAt(rows: seq<Row>, k: nat)
    requires k < |rows| && forall i, j :: 0 <= i < j < |rows| ==> rows[i].id != rows[j].id
    ensures var b := Finish(rows, rows[k].id, Failed, "").0;
      && |b| == |rows| && (forall i :: 0 <= i < |rows| && i != k ==> b[i] == rows[i])
      && b[k] == if rows[k].status == Publishing then rows[k].(status := Failed, remoteID := "") else rows[k]
  {
    NothingTaken(rows, rows[k].id);
    hide RemoteTaken;
    forall i | 0 <= i < |rows| && i != k ensures rows[i].id != rows[k].id {}
  }

  /** A repeated request finds the row of the first under its key and does nothing. */
  lemma RepeatIsIdle(w: World, call: nat, id: string, provider: string, key: string, target: Target, a: Answer)
    requires Unique(w.rows) && call !in w.calls && HasKey(w.rows, provider, key)
    requires !exists i :: 0 <= i < |w.rows| && w.rows[i].provider == provider && w.rows[i].key == key && w.rows[i].id == id && w.rows[i].status == Pending
    ensures Step(Step(w, Publish(call, id, provider, key, target)), Continue(call, a)) == w
  {
    hide HasKey;
    var u := Step(w, Publish(call, id, provider, key, target));
    assert u == At(w, call, Inserted(id, provider, key));
    assert w.calls[call := Inserted(id, provider, key)] - {call} == w.calls;
  }

  // ----- whole runs ------------------------------------------------------------------------

  /** A new request makes a pending row and goes on with it. */
  lemma NewIsMade(w: World, call: nat, id: string, provider: string, key: string, target: Target, a: Answer)
    requires call !in w.calls
    requires forall i :: 0 <= i < |w.rows| ==> w.rows[i].id != id && (w.rows[i].provider != provider || w.rows[i].key != key)
    ensures Step(Step(w, Publish(call, id, provider, key, target)), Continue(call, a))
         == w.(rows := w.rows + [Row(id, provider, key, target, Pending, "")], calls := w.calls[call := Checking(id)])
  {
    var row := Row(id, provider, key, target, Pending, "");
    var v := At(w.(rows := w.rows + [row]), call, Inserted(id, provider, key));
    assert Step(w, Publish(call, id, provider, key, target)) == v;
    assert v.rows[|w.rows|] == row;
  }

  /** Only a failed release is retried, and only a publishing one that is not local is polled. */
  lemma IdleUnlessDue(w: World, call: nat, k: nat)
    requires Unique(w.rows) && call !in w.calls && k < |w.rows|
    ensures var id := w.rows[k].id;
      && Step(w, Retry(call, id)) == (if w.rows[k].status == Failed then At(w, call, Checking(id)) else w)
      && Step(w, Poll(call, id))
         == (if w.rows[k].status == Publishing && w.rows[k].provider != "local" then At(w, call, Polling(id)) else w)
  {
    LocalAt(w.rows, k);
  }

  /** A call about to reserve holds the release afterwards if it was pending or failed, and is over otherwise. */
  lemma ReservedOrOver(w: World, call: nat, k: nat, a: Answer)
    requires Unique(w.rows) && call in w.calls && k < |w.rows| && w.calls[call] == Reserving(w.rows[k].id)
    ensures var v := Step(w, Continue(call, a));
      if w.rows[k].status == Pending || w.rows[k].status == Failed
      then && v.rows == w.rows[k := w.rows[k].(status := Publishing)] && v.called == w.called
           && v.calls == w.calls[call := Owning(w.rows[k].id, Count(w.reserved, w.rows[k].id) + 1)]
      else v == Leave(w, call)
  {
    ReserveAt(w.rows, k);
    assert Reservable(w.rows, w.rows[k].id) <==> w.rows[k].status == Pending || w.rows[k].status == Failed;
    hide Reserve, Reservable, Unique;
  }

  // ----- remote ids ------------------------------------------------------------------------

  ghost predicate RemotesApart(rows: seq<Row>) {
    forall i, j :: 0 <= i < j < |rows| && rows[i].provider == rows[j].provider && rows[i].remoteID == rows[j].remoteID ==> rows[i].remoteID == ""
  }

  lemma CreateApart(rows: seq<Row>, id: string, provider: string, key: string, target: Target)
    requires RemotesApart(rows)
    ensures RemotesApart(Create(rows, id, provider, key, target))
  {
  }

  lemma ReserveApart(rows: seq<Row>, id: string)
    requires RemotesApart(rows)
    ensures RemotesApart(Reserve(rows, id))
  {
    var b := Reserve(rows, id);
    assert |b| == |rows| && forall i :: 0 <= i < |rows| ==> b[i] == Reserved(id, rows[i]);
  }

  lemma FinishApart(rows: seq<Row>, id: string, s: Status, remoteID: string)
    requires RemotesApart(rows) && Unique(rows)
    ensures RemotesApart(Finish(rows, id, s, remoteID).0)
  {
    var (b, f) := Finish(rows, id, s, remoteID);
    if f == Done {
      var k :| 0 <= k < |rows| && rows[k].id == id && rows[k].status == Publishing;
      FinishAt(rows, k, s, remoteID);
      assert forall j :: 0 <= j < |rows| && j != k && rows[j].provider == rows[k].provider && remoteID != "" ==> rows[j].remoteID != remoteID;
      hide Finish, RemoteTaken, InStatus, Unique;
    }
  }

  lemma StepApart(w: World, e: Event)
    requires RemotesApart(w.rows) && Unique(w.rows)
    ensures RemotesApart(Step(w, e).rows)
  {
    hide RemotesApart, Create, Reserve, Finish, Unique, InStatus, IsLocal, Reservable, Normalize, ArtifactOf;
    match e
    case Publish(call, id, provider, key, target) => CreateApart(w.rows, id, provider, key, target);
    case Continue(call, a) =>
      if call in w.calls {
        ReserveApart(w.rows, w.calls[call].id);
        FinishApart(w.rows, w.calls[call].id, Failed, "");
        if w.calls[call].Reporting? || w.calls[call].PollReporting? {
          FinishApart(w.rows, w.calls[call].id, w.calls[call].status, w.calls[call].remoteID);
        }
      }
    case _ =>
  }

  /** In every run no two releases of a provider carry the same remote id. */
  lemma {:induction false} RemotesDistinct(es: seq<Event>)
    ensures var rows := Run(START, es).rows;
      forall i, j :: 0 <= i < j < |rows| && rows[i].provider == rows[j].provider && rows[i].remoteID == rows[j].remoteID ==> rows[i].remoteID == ""
  {
    hide Step;
    if es != [] {
      RemotesDistinct(es[..|es| - 1]);
      RunGood(es[..|es| - 1]);
      hide Unique;
      StepApart(Run(START, es[..|es| - 1]), es[|es| - 1]);
    }
  }

  /** At step m a call that holds the release, or a poll of it, reads a reply that means s and carries the remote id. */
  ghost predicate HeardAt(es: seq<Event>, m: int, id: string, s: Status, remoteID: string) {
    && 0 <= m < |es| && es[m].Continue? && es[m].answer.Reply?
    && Normalize(es[m].answer.status) == s && es[m].answer.remoteID == remoteID
    && var w := Run(START, es[..m]);
      es[m].call in w.calls && w.calls[es[m].call].id == id && (w.calls[es[m].call].Owning? || w.calls[es[m].call].Polling?)
  }

  ghost predicate Heard(es: seq<Event>, id: string, s: Status, remoteID: string) {
    exists m :: HeardAt(es, m, id, s, remoteID)
  }

  /** At step m a call finds the file of the release missing, or its provider does not answer. */
  ghost predicate MissedAt(es: seq<Event>, m: int, id: string) {
    && 0 <= m < |es| && es[m].Continue?
    && var w := Run(START, es[..m]);
      es[m].call in w.calls && w.calls[es[m].call].id == id
      && ((w.calls[es[m].call].Checking? && es[m].answer == FileMissing) || (w.calls[es[m].call].Owning? && !es[m].answer.Reply?))
  }

  ghost predicate Missed(es: seq<Event>, id: string) {
    exists m :: MissedAt(es, m, id)
  }

  ghost predicate HeardFailed(es: seq<Event>, id: string) {
    exists remoteID :: Heard(es, id, Failed, remoteID)
  }

  /** Why a status may be written: a success is a local one under the id of its artifact, or was read in
      a reply with that remote id; a failure was read, or follows a missing file or a failed call. */
  ghost predicate Reason(es: seq<Event>, rows: seq<Row>, id: string, s: Status, remoteID: string) {
    match s
    case Succeeded => HasID(rows, id) && (if IsLocal(rows, id) then remoteID == ArtifactOf(rows, id) else Heard(es, id, Succeeded, remoteID))
    case Failed => Missed(es, id) || HeardFailed(es, id)
    case _ => true
  }

  lemma ReasonLater(es: seq<Event>, e: Event, a: seq<Row>, b: seq<Row>, id: string, s: Status, remoteID: string)
    requires Reason(es, a, id, s, remoteID) && Unique(a) && Unique(b) && Kept(a, b)
    ensures Reason(es + [e], b, id, s, remoteID)
  {
    hide Run, Normalize, IsLocal, Unique, Kept, ArtifactOf, HasID;
    var fs := es + [e];
    forall m | 0 <= m < |es| ensures fs[m] == es[m] && fs[..m] == es[..m] {}
    match s
    case Succeeded =>
      IdentityKept(a, b, id);
      if m :| HeardAt(es, m, id, Succeeded, remoteID) { assert HeardAt(fs, m, id, Succeeded, remoteID); }
    case Failed =>
      if m :| MissedAt(es, m, id) {
        assert MissedAt(fs, m, id);
      } else {
        var r :| Heard(es, id, Failed, r);
        var m :| HeardAt(es, m, id, Failed, r);
        assert HeardAt(fs, m, id, Failed, r) && Heard(fs, id, Failed, r);
      }
    case _ =>
  }

  /** Rows keep their identity. */
  lemma IdentityKept(a: seq<Row>, b: seq<Row>, id: string)
    requires Unique(a) && Unique(b) && Kept(a, b) && HasID(a, id)
    ensures HasID(b, id) && (IsLocal(a, id) <==> IsLocal(b, id)) && ArtifactOf(a, id) == ArtifactOf(b, id)
  {
    var k := RowOf(a, id);
    assert RowKept(a[k], b[k]);
    hide Kept;
    LocalAt(a, k);
    LocalAt(b, k);
    ArtifactAt(a, k);
    ArtifactAt(b, k);
  }

  ghost predicate RowReasoned(es: seq<Event>, rows: seq<Row>, r: Row) {
    Reason(es, rows, r.id, r.status, r.remoteID)
  }

  /** A call that is about to write an outcome has a reason for it; polls are of releases that are not local. */
  ghost predicate StageReasoned(es: seq<Event>, rows: seq<Row>, s: Stage) {
    match s
    case MissingReserve(id) => Reason(es, rows, id, Failed, "")
    case MissingFinish(id) => Reason(es, rows, id, Failed, "")
    case Owning(id, _) => HasID(rows, id)
    case Reporting(id, status, remoteID) => Reason(es, rows, id, status, remoteID)
    case Polling(id) => HasID(rows, id) && !IsLocal(rows, id)
    case PollReporting(id, status, remoteID) => HasID(rows, id) && !IsLocal(rows, id) && Reason(es, rows, id, status, remoteID)
    case _ => true
  }

  ghost predicate Reasoned(es: seq<Event>, w: World) {
    && (forall i :: 0 <= i < |w.rows| ==> RowReasoned(es, w.rows, w.rows[i]))
    && (forall c :: c in w.calls ==> StageReasoned(es, w.rows, w.calls[c]))
  }

  lemma StageLater(es: seq<Event>, e: Event, a: seq<Row>, b: seq<Row>, s: Stage)
    requires StageReasoned(es, a, s) && Unique(a) && Unique(b) && Kept(a, b)
    ensures StageReasoned(es + [e], b, s)
  {
    hide Reason, Unique, Kept, IsLocal, HasID;
    match s
    case MissingReserve(id) => ReasonLater(es, e, a, b, id, Failed, "");
    case MissingFinish(id) => ReasonLater(es, e, a, b, id, Failed, "");
    case Owning(id, _) => IdentityKept(a, b, id);
    case Reporting(id, status, remoteID) => ReasonLater(es, e, a, b, id, status, remoteID);
    case Polling(id) => IdentityKept(a, b, id);
    case PollReporting(id, status, remoteID) =>
      IdentityKept(a, b, id);
      ReasonLater(es, e, a, b, id, status, remoteID);
    case _ =>
  }

  /** What a step of a call is allowed to write. */
  ghost predicate Writes(s: Stage, r: Row) {
    match s
    case MissingFinish(id) => r.id == id && r.status == Failed && r.remoteID == ""
    case Reporting(id, status, remoteID) => r.id == id && r.status == status && r.remoteID == remoteID
    case PollReporting(id, status, remoteID) => r.id == id && r.status == status && r.remoteID == remoteID
    case _ => r.status == Publishing
  }

  lemma RowWritten(w: World, e: Event, i: nat)
    requires i < |Step(w, e).rows|
    ensures var r := Step(w, e).rows[i];
      || (i < |w.rows| && r == w.rows[i]) || (i >= |w.rows| && r.status == Pending)
      || (e.Continue? && e.call in w.calls && Writes(w.calls[e.call], r))
  {
    hide IsLocal, Normalize, RemoteTaken, InStatus, HasKey, HasID;
  }

  lemma RowsReasoned(es: seq<Event>, w: World, e: Event)
    requires Reasoned(es, w) && Unique(w.rows) && Unique(Step(w, e).rows) && Kept(w.rows, Step(w, e).rows)
    ensures forall i :: 0 <= i < |Step(w, e).rows| ==> RowReasoned(es + [e], Step(w, e).rows, Step(w, e).rows[i])
  {
    var v := Step(w, e);
    hide Reason, Unique, Kept, Step, HasID, IsLocal;
    forall i | 0 <= i < |v.rows| ensures RowReasoned(es + [e], v.rows, v.rows[i]) {
      var r := v.rows[i];
      RowWritten(w, e, i);
      if i < |w.rows| && r == w.rows[i] {
        assert RowReasoned(es, w.rows, r);
        ReasonLater(es, e, w.rows, v.rows, r.id, r.status, r.remoteID);
      } else if e.Continue? && e.call in w.calls && Writes(w.calls[e.call], r) {
        assert StageReasoned(es, w.rows, w.calls[e.call]);
        WrittenReason(es, e, w.rows, v.rows, w.calls[e.call], r);
      } else {
        NoReason(es + [e], v.rows, r);
      }
    }
  }

  lemma NoReason(es: seq<Event>, rows: seq<Row>, r: Row)
    requires r.status == Pending || r.status == Publishing
    ensures RowReasoned(es, rows, r)
  {
  }

  lemma WrittenReason(es: seq<Event>, e: Event, a: seq<Row>, b: seq<Row>, s: Stage, r: Row)
    requires StageReasoned(es, a, s) && Writes(s, r) && Unique(a) && Unique(b) && Kept(a, b)
    ensures RowReasoned(es + [e], b, r)
  {
    hide Reason, Unique, Kept, IsLocal, HasID;
    match s
    case MissingFinish(id) => ReasonLater(es, e, a, b, id, Failed, "");
    case Reporting(id, status, remoteID) => ReasonLater(es, e, a, b, id, status, remoteID);
    case PollReporting(id, status, remoteID) => ReasonLater(es, e, a, b, id, status, remoteID);
    case _ => NoReason(es + [e], b, r);
  }

  lemma StatusHasID(rows: seq<Row>, id: string, s: Status)
    requires InStatus(rows, id, s)
    ensures HasID(rows, id)
  {
    var i :| 0 <= i < |rows| && rows[i].id == id && rows[i].status == s;
    assert rows[i].id == id;
  }

  /** What the answer to the step is heard as. */
  lemma HeardNow(es: seq<Event>, e: Event, w: World, id: string)
    requires w == Run(START, es) && e.Continue? && e.call in w.calls && w.calls[e.call].id == id
    ensures e.answer.Reply? && (w.calls[e.call].Owning? || w.calls[e.call].Polling?) ==>
      Heard(es + [e], id, Normalize(e.answer.status), e.answer.remoteID)
    ensures (w.calls[e.call].Owning? && !e.answer.Reply?) || (w.calls[e.call].Checking? && e.answer == FileMissing) ==> Missed(es + [e], id)
  {
    hide Run, Normalize;
    var fs := es + [e];
    assert fs[..|es|] == es && fs[|es|] == e;
    if e.answer.Reply? && (w.calls[e.call].Owning? || w.calls[e.call].Polling?) {
      assert HeardAt(fs, |es|, id, Normalize(e.answer.status), e.answer.remoteID);
    }
    if (w.calls[e.call].Owning? && !e.answer.Reply?) || (w.calls[e.call].Checking? && e.answer == FileMissing) {
      assert MissedAt(fs, |es|, id);
    }
  }

  /** The stage that a call has after its step has a reason too. */
  lemma AdvanceReasoned(es: seq<Event>, w: World, call: nat, a: Answer, v: World)
    requires w == Run(START, es) && Reasoned(es, w) && call in w.calls && v == Advance(w, call, w.calls[call], a)
    requires Unique(w.rows) && Unique(v.rows) && Kept(w.rows, v.rows)
    ensures call in v.calls ==> StageReasoned(es + [Continue(call, a)], v.rows, v.calls[call])
  {
    hide Run, Unique, Kept, IsLocal, HasID, Normalize, Finish, Heard, Missed, HeardFailed, InStatus, ArtifactOf;
    var e, s := Continue(call, a), w.calls[call];
    assert StageReasoned(es, w.rows, s);
    HeardNow(es, e, w, s.id);
    match s
    case Checking(id) =>
    case MissingReserve(id) => ReasonLater(es, e, w.rows, v.rows, id, Failed, "");
    case Reserving(id) =>
      if Reservable(w.rows, id) {
        StatusHasID(w.rows, id, if InStatus(w.rows, id, Pending) then Pending else Failed);
        IdentityKept(w.rows, v.rows, id);
      }
    case Owning(id, attempt) => ProceedReasoned(es, w, call, a);
    case Polling(id) =>
      if a.Reply? && Normalize(a.status) == Failed { assert HeardFailed(es + [e], id) by { HeardFailedIs(es + [e], id, a.remoteID); } }
    case _ =>
  }

  lemma HeardFailedIs(es: seq<Event>, id: string, remoteID: string)
    requires Heard(es, id, Failed, remoteID)
    ensures HeardFailed(es, id)
  {
  }

  lemma ProceedReasoned(es: seq<Event>, w: World, call: nat, a: Answer)
    requires w == Run(START, es) && call in w.calls && w.calls[call].Owning? && HasID(w.rows, w.calls[call].id)
    ensures StageReasoned(es + [Continue(call, a)], w.rows, Proceed(w, call, w.calls[call].id, w.calls[call].attempt, a).calls[call])
  {
    hide Run, IsLocal, HasID, Normalize, Heard, Missed, HeardFailed, ArtifactOf;
    var e, id := Continue(call, a), w.calls[call].id;
    HeardNow(es, e, w, id);
    if a.Reply? && Normalize(a.status) == Failed { HeardFailedIs(es + [e], id, a.remoteID); }
  }

  lemma StepReasoned(es: seq<Event>, w: World, e: Event)
    requires w == Run(START, es) && Reasoned(es, w) && Good(w) && StagesOk(w)
    ensures Reasoned(es + [e], Step(w, e))
  {
    hide Run, Unique, Balanced, TokensOnce, Kept, StageReasoned, RowReasoned, Advance, Create, InStatus, IsLocal, HasID;
    var v := Step(w, e);
    StepGood(w, e);
    RowsReasoned(es, w, e);
    forall c | c in v.calls ensures StageReasoned(es + [e], v.rows, v.calls[c]) {
      if c in w.calls && v.calls[c] == w.calls[c] {
        StageLater(es, e, w.rows, v.rows, v.calls[c]);
      } else if e.Continue? && c == e.call {
        AdvanceReasoned(es, w, c, e.answer, v);
      } else {
        OthersStand(w, e, c);
        NewStage(es, w, e, v);
      }
    }
  }

  lemma OthersStand(w: World, e: Event, c: nat)
    requires c in Step(w, e).calls && !(c in w.calls && Step(w, e).calls[c] == w.calls[c]) && !(e.Continue? && c == e.call)
    ensures (e.Publish? || e.Retry? || e.Poll?) && c == e.call && c !in w.calls
  {
    hide Create, InStatus, IsLocal, Reservable, Reserve, Finish, Normalize;
  }

  lemma NewStage(es: seq<Event>, w: World, e: Event, v: World)
    requires v == Step(w, e) && (e.Publish? || e.Retry? || e.Poll?) && e.call !in w.calls && e.call in v.calls
    ensures StageReasoned(es + [e], v.rows, v.calls[e.call])
  {
    hide InStatus, IsLocal, HasID, Create;
    if e.Poll? { StatusHasID(w.rows, e.id, Publishing); }
  }

  lemma {:induction false} RunReasoned(es: seq<Event>)
    ensures Reasoned(es, Run(START, es))
  {
    hide Step, Good, StagesOk, Reasoned;
    if es == [] {
      StartReasoned();
    } else {
      var init := es[..|es| - 1];
      RunReasoned(init);
      RunGood(init);
      StepReasoned(init, Run(START, init), es[|es| - 1]);
      assert es == init + [es[|es| - 1]];
    }
  }

  lemma StartReasoned()
    ensures Reasoned([], START)
  {
  }

  /**
   * In every run: a release that has succeeded is local and carries the id of its artifact, or some
   * call or poll of it has read a success with that remote id.
   */
  lemma SuccessWasHeard(es: seq<Event>, i: nat)
    requires i < |Run(START, es).rows| && Run(START, es).rows[i].status == Succeeded
    ensures var r := Run(START, es).rows[i];
      if r.provider == "local" then r.remoteID == r.target.artifact else Heard(es, r.id, Succeeded, r.remoteID)
  {
    var w := Run(START, es);
    RunReasoned(es);
    RunGood(es);
    hide Run;
    assert RowReasoned(es, w.rows, w.rows[i]);
    LocalAt(w.rows, i);
    ArtifactAt(w.rows, i);
  }

  /** A release that has failed has a missing file, an unanswered call or a reply that says so behind it. */
  lemma FailureWasMet(es: seq<Event>, i: nat)
    requires i < |Run(START, es).rows| && Run(START, es).rows[i].status == Failed
    ensures Missed(es, Run(START, es).rows[i].id) || HeardFailed(es, Run(START, es).rows[i].id)
  {
    RunReasoned(es);
    hide Run;
    assert RowReasoned(es, Run(START, es).rows, Run(START, es).rows[i]);
  }

  /** The provider is never called for a local release. */
  lemma {:induction false} LocalIsNotCalled(es: seq<Event>)
    ensures var w := Run(START, es); forall t :: t in w.called ==> HasID(w.rows, t.0) && !IsLocal(w.rows, t.0)
  {
    if es != [] {
      var init, e := es[..|es| - 1], es[|es| - 1];
      var w := Run(START, init);
      LocalIsNotCalled(init);
      RunReasoned(init);
      RunGood(init);
      StepGood(w, e);
      hide Run;
      forall t | t in Step(w, e).called ensures HasID(w.rows, t.0) && !IsLocal(w.rows, t.0) {
        CalledNow(init, w, e, t);
      }
      hide Step, IsLocal, HasID, Reasoned;
      forall t | t in Step(w, e).called ensures HasID(Step(w, e).rows, t.0) && !IsLocal(Step(w, e).rows, t.0) {
        IdentityKept(w.rows, Step(w, e).rows, t.0);
      }
    }
  }

  lemma CalledNow(es: seq<Event>, w: World, e: Event, t: (string, nat))
    requires t in Step(w, e).called && Reasoned(es, w)
    ensures t in w.called || (HasID(w.rows, t.0) && !IsLocal(w.rows, t.0))
  {
    hide HasID, IsLocal, Normalize, Finish, Create, InStatus, Reason;
    if e.Continue? && e.call in w.calls { assert StageReasoned(es, w.rows, w.calls[e.call]); }
  }
}
