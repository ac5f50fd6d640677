/**
 * Confirming import previews: read the preview, consume it, submit a task, record the task. Calls on
 * one preview race, and a call may stop for good between any two of its steps.
 */
module ImportConfirm {
  import opened Options

  datatype Preview = Preview(token: string, inputHash: string, expires: int, consumedAt: Option<int>, task: string)

  /** What a queued task is for: importing a preview, or something else. */
  datatype Payload = ImportOf(preview: string) | Foreign

  /** An idempotency key outlives its task. */
  datatype KeyRow = KeyRow(payload: Payload, task: string)

  datatype Stage =
    | Consuming(preview: string, token: string, inputHash: string, key: string)
    | Rereading(preview: string)
    | Replaying(preview: string, task: string)
    | Submitting(preview: string, key: string)
    | Recording(preview: string, task: string)

  /** The tables, the calls, and the history of consumptions, submissions and successful answers. */
  datatype World = World(
    previews: map<string, Preview>, keys: map<string, KeyRow>, tasks: set<string>, calls: map<nat, Stage>,
    consumed: seq<(string, int)>, submitted: seq<(string, string)>, answers: seq<(string, string)>)

  const START := World(map[], map[], {}, map[], [], [], [])

  datatype Event =
    | Inspect(preview: string, token: string, inputHash: string, expires: int)
    | Confirm(call: nat, preview: string, token: string, inputHash: string, key: string, now: int)
    | Continue(call: nat, now: int, id: string)
    | OtherTask(id: string, key: string)
    | Purge(id: string)
    | Crash(call: nat)

  function At(w: World, call: nat, s: Stage): World { w.(calls := w.calls[call := s]) }

  function Leave(w: World, call: nat): World { w.(calls := w.calls - {call}) }

  /** The transaction that consumes a preview: the tests are repeated inside of it. */
  predicate Consumable(previews: map<string, Preview>, preview: string, token: string, inputHash: string, now: int) {
    preview in previews
    && var p := previews[preview];
      p.token == token && p.inputHash == inputHash && p.consumedAt.None? && now < p.expires
  }

  /** The table of previews. */
  class Repository {
    var previews: map<string, Preview>

    constructor ()
      ensures previews == map[]
    {
      previews := map[];
    }

    method ConsumeImportPreview(preview: string, token: string, inputHash: string, now: int) returns (ok: bool)
      modifies this
      ensures ok <==> Consumable(old(previews), preview, token, inputHash, now)
      ensures ok ==> previews == old(previews)[preview := old(previews)[preview].(consumedAt := Some(now))]
      ensures !ok ==> previews == old(previews)
    {
      if preview !in previews { return false; }
      var p := previews[preview];
      if p.token != token || p.inputHash != inputHash { return false; }
      if p.consumedAt.Some? || p.expires <= now { return false; }
      previews := previews[preview := p.(consumedAt := Some(now))];
      ok := true;
    }

    method SetImportPreviewConsumedTask(preview: string, task: string)
      modifies this
      ensures previews.Keys == old(previews).Keys
      ensures forall p :: p in previews ==> previews[p] == if p == preview then old(previews)[p].(task := task) else old(previews)[p]
    {
      if preview in previews { previews := previews[preview := previews[preview].(task := task)]; }
    }
  }

  function Consume(w: World, preview: string, now: int): World
    requires preview in w.previews
  {
    w.(previews := w.previews[preview := w.previews[preview].(consumedAt := Some(now))], consumed := w.consumed + [(preview, now)])
  }

  /** The queue: a known key gives its task if the payload is the same, a new one makes a task. */
  function Submit(w: World, preview: string, key: string, id: string): (r: (World, Option<string>))
    ensures r.0.previews == w.previews && r.0.calls == w.calls && r.0.answers == w.answers
  {
    if key in w.keys then
      if w.keys[key].payload == ImportOf(preview) && w.keys[key].task in w.tasks
      then (w.(submitted := w.submitted + [(preview, w.keys[key].task)]), Some(w.keys[key].task)) else (w, None)
    else if id in w.tasks || id == "" then (w, None)
    else (w.(keys := w.keys[key := KeyRow(ImportOf(preview), id)], tasks := w.tasks + {id}, submitted := w.submitted + [(preview, id)]), Some(id))
  }

  function Advance(w: World, call: nat, s: Stage, now: int, id: string): World {
    match s
    case Consuming(preview, token, inputHash, key) =>
      if Consumable(w.previews, preview, token, inputHash, now) then At(Consume(w, preview, now), call, Submitting(preview, key))
      else At(w, call, Rereading(preview))
    case Rereading(preview) =>
      if preview in w.previews && w.previews[preview].consumedAt.Some? && w.previews[preview].task != ""
      then At(w, call, Replaying(preview, w.previews[preview].task)) else Leave(w, call)
    case Replaying(preview, task) =>
      if task in w.tasks then Leave(w.(answers := w.answers + [(preview, task)]), call) else Leave(w, call)
    case Submitting(preview, key) =>
      var (v, task) := Submit(w, preview, key, id);
      if task.Some? then At(v, call, Recording(preview, task.value)) else Leave(w, call)
    case Recording(preview, task) =>
      if preview in w.previews
      then Leave(w.(previews := w.previews[preview := w.previews[preview].(task := task)], answers := w.answers + [(preview, task)]), call)
      else Leave(w, call)
  }

  /** The first step of a confirmation reads the preview and sorts out calls that cannot consume it. */
  function Begin(w: World, call: nat, preview: string, token: string, inputHash: string, key: string, now: int): World {
    if call in w.calls || preview !in w.previews then w
    else
      var p := w.previews[preview];
      if p.token != token || p.inputHash != inputHash then w
      else if p.consumedAt.Some? then (if p.task != "" then At(w, call, Replaying(preview, p.task)) else w)
      else if p.expires <= now then w
      else At(w, call, Consuming(preview, token, inputHash, key))
  }

  function Step(w: World, e: Event): World {
    match e
    case Inspect(preview, token, inputHash, expires) =>
      if preview in w.previews then w else w.(previews := w.previews[preview := Preview(token, inputHash, expires, None, "")])
    case Confirm(call, preview, token, inputHash, key, now) => Begin(w, call, preview, token, inputHash, key, now)
    case Continue(call, now, id) => if call in w.calls then Advance(w, call, w.calls[call], now, id) else w
    case OtherTask(id, key) =>
      if key in w.keys || id in w.tasks then w else w.(keys := w.keys[key := KeyRow(Foreign, id)], tasks := w.tasks + {id})
    case Purge(id) => w.(tasks := w.tasks - {id})
    case Crash(call) => Leave(w, call)
  }

  function Run(w: World, es: seq<Event>): World {
    if es == [] then w else Step(Run(w, es[..|es| - 1]), es[|es| - 1])
  }

  // ----- the invariant ---------------------------------------------------------------------

  /** A call that has consumed its preview and not yet recorded the task. */
  predicate Winner(s: Stage) { s.Submitting? || s.Recording? }

  ghost predicate OncePer(q: seq<(string, int)>) {
    forall i, j :: 0 <= i < j < |q| ==> q[i].0 != q[j].0
  }

  ghost predicate SubmittedOnce(q: seq<(string, string)>) {
    forall i, j :: 0 <= i < j < |q| ==> q[i].0 != q[j].0
  }

  predicate Named(q: seq<(string, string)>, preview: string) {
    exists i :: 0 <= i < |q| && q[i].0 == preview
  }

  predicate WasConsumed(w: World, preview: string) { preview in w.previews && w.previews[preview].consumedAt.Some? }

  ghost predicate Consumptions(w: World) {
    && OncePer(w.consumed)
    && (forall i :: 0 <= i < |w.consumed| ==> WasConsumed(w, w.consumed[i].0) && w.consumed[i].1 < w.previews[w.consumed[i].0].expires)
    && (forall i :: 0 <= i < |w.submitted| ==> WasConsumed(w, w.submitted[i].0))
  }

  ghost predicate Winners(w: World) {
    && (forall c :: c in w.calls && Winner(w.calls[c]) ==> WasConsumed(w, w.calls[c].preview))
    && (forall c, d ::
      c in w.calls && d in w.calls && Winner(w.calls[c]) && Winner(w.calls[d]) && w.calls[c].preview == w.calls[d].preview ==> c == d)
    && (forall c :: c in w.calls && w.calls[c].Submitting? ==> !Named(w.submitted, w.calls[c].preview))
    && SubmittedOnce(w.submitted)
  }

  /** Tasks that are answered, recorded or about to be were submitted for that preview. */
  ghost predicate Traced(w: World) {
    && (forall p :: p in w.previews && w.previews[p].task != "" ==> (p, w.previews[p].task) in w.submitted)
    && (forall c :: c in w.calls && w.calls[c].Recording? ==> (w.calls[c].preview, w.calls[c].task) in w.submitted)
    && (forall c :: c in w.calls && w.calls[c].Replaying? ==> (w.calls[c].preview, w.calls[c].task) in w.submitted)
    && (forall a :: a in w.answers ==> a in w.submitted)
  }

  ghost predicate Good(w: World) { Consumptions(w) && Winners(w) && Traced(w) }

  lemma NotWinnerGood(w: World, call: nat, s: Stage)
    requires Good(w) && !Winner(s) && (s.Replaying? ==> (s.preview, s.task) in w.submitted)
    ensures Good(At(w, call, s)) && Good(Leave(w, call))
  {
    hide OncePer, SubmittedOnce, Named;
    var u, v := At(w, call, s), Leave(w, call);
    assert Consumptions(u) && Consumptions(v) by { hide Winners, Traced; }
    assert Winners(u) && Winners(v) by { hide Consumptions, Traced; }
    assert Traced(u) && Traced(v) by { hide Consumptions, Winners; }
    hide Consumptions, Winners, Traced;
  }

  lemma ConsumeGood(w: World, call: nat, preview: string, token: string, inputHash: string, key: string, now: int)
    requires Good(w) && Consumable(w.previews, preview, token, inputHash, now)
    ensures Good(At(Consume(w, preview, now), call, Submitting(preview, key)))
  {
    hide Consumptions, Winners, Traced;
    ConsumeCounted(w, call, preview, now, key);
    ConsumeWinner(w, call, preview, now, key);
    ConsumeTraced(w, call, preview, now, key);
  }

  lemma ConsumeCounted(w: World, call: nat, preview: string, now: int, key: string)
    requires Consumptions(w) && preview in w.previews && w.previews[preview].consumedAt.None? && now < w.previews[preview].expires
    ensures Consumptions(At(Consume(w, preview, now), call, Submitting(preview, key)))
  {
  }

  lemma ConsumeWinner(w: World, call: nat, preview: string, now: int, key: string)
    requires Consumptions(w) && Winners(w) && preview in w.previews && w.previews[preview].consumedAt.None?
    ensures Winners(At(Consume(w, preview, now), call, Submitting(preview, key)))
  {
    assert !Named(w.submitted, preview);
    hide OncePer, SubmittedOnce, Named;
  }

  lemma ConsumeTraced(w: World, call: nat, preview: string, now: int, key: string)
    requires Traced(w) && preview in w.previews
    ensures Traced(At(Consume(w, preview, now), call, Submitting(preview, key)))
  {
  }

  lemma SubmitGood(w: World, call: nat, preview: string, key: string, id: string)
    requires Good(w) && call in w.calls && w.calls[call] == Submitting(preview, key)
    ensures var (v, task) := Submit(w, preview, key, id);
      task.Some? ==> Good(At(v, call, Recording(preview, task.value)))
  {
    hide Good, At;
    var (v, task) := Submit(w, preview, key, id);
    if task.Some? { SubmittedGood(w, v, call, preview, task.value); }
  }

  lemma SubmittedGood(w: World, v: World, call: nat, preview: string, task: string)
    requires Good(w) && call in w.calls && w.calls[call].Submitting? && w.calls[call].preview == preview
    requires v == w.(keys := v.keys, tasks := v.tasks, submitted := w.submitted + [(preview, task)])
    ensures Good(At(v, call, Recording(preview, task)))
  {
    forall x ensures Named(v.submitted, x) <==> Named(w.submitted, x) || x == preview {
      NamedNext(w.submitted, preview, task, x);
    }
    forall i | 0 <= i < |w.submitted| ensures w.submitted[i].0 != preview { }
    hide OncePer, Named;
    var u := At(v, call, Recording(preview, task));
    assert Consumptions(u) by { hide Winners, Traced; }
    assert Winners(u) by { hide Consumptions, Traced; }
    assert Traced(u) by { hide Consumptions, Winners; }
    hide Consumptions, Winners, Traced;
  }

  lemma NamedNext(q: seq<(string, string)>, preview: string, task: string, x: string)
    ensures Named(q + [(preview, task)], x) <==> Named(q, x) || x == preview
  {
    var r := q + [(preview, task)];
    if i :| 0 <= i < |q| && q[i].0 == x { assert r[i].0 == x; }
    assert r[|q|].0 == preview;
  }

  lemma RecordGood(w: World, call: nat, preview: string, task: string)
    requires Good(w) && call in w.calls && w.calls[call] == Recording(preview, task)
    ensures Good(Advance(w, call, w.calls[call], 0, ""))
  {
    hide OncePer, SubmittedOnce, Named;
  }

  lemma ReplayGood(w: World, call: nat)
    requires Good(w) && call in w.calls && w.calls[call].Replaying?
    ensures Good(Advance(w, call, w.calls[call], 0, ""))
  {
    hide Consumptions, Winners;
    var s := w.calls[call];
    assert (s.preview, s.task) in w.submitted;
    hide Good, Traced;
    AnsweredGood(w, s.preview, s.task);
    NotWinnerGood(w, call, Rereading(s.preview));
    NotWinnerGood(w.(answers := w.answers + [(s.preview, s.task)]), call, Rereading(s.preview));
  }

  lemma AnsweredGood(w: World, preview: string, task: string)
    requires Good(w) && (preview, task) in w.submitted
    ensures Good(w.(answers := w.answers + [(preview, task)]))
  {
    hide OncePer, SubmittedOnce, Named;
  }

  lemma RereadGood(w: World, call: nat)
    requires Good(w) && call in w.calls && w.calls[call].Rereading?
    ensures Good(Advance(w, call, w.calls[call], 0, ""))
  {
    var preview := w.calls[call].preview;
    NotWinnerGood(w, call, Rereading(preview));
    if WasConsumed(w, preview) && w.previews[preview].task != "" { NotWinnerGood(w, call, Replaying(preview, w.previews[preview].task)); }
    hide Consumptions, Winners, Traced;
  }

  lemma AdvanceGood(w: World, call: nat, now: int, id: string)
    requires Good(w) && call in w.calls
    ensures Good(Advance(w, call, w.calls[call], now, id))
  {
    hide Consumptions, Winners, Traced, Submit, Consumable;
    match w.calls[call]
    case Consuming(preview, token, inputHash, key) =>
      NotWinnerGood(w, call, Rereading(preview));
      if Consumable(w.previews, preview, token, inputHash, now) { ConsumeGood(w, call, preview, token, inputHash, key, now); }
    case Rereading(_) => RereadGood(w, call);
    case Replaying(_, _) => ReplayGood(w, call);
    case Submitting(preview, key) =>
      NotWinnerGood(w, call, Rereading(preview));
      SubmitGood(w, call, preview, key, id);
    case Recording(preview, task) => RecordGood(w, call, preview, task);
  }

  lemma InspectGood(w: World, preview: string, p: Preview)
    requires Good(w) && preview !in w.previews && p.consumedAt.None? && p.task == ""
    ensures Good(w.(previews := w.previews[preview := p]))
  {
    var v := w.(previews := w.previews[preview := p]);
    assert forall x :: WasConsumed(w, x) ==> WasConsumed(v, x) && v.previews[x] == w.previews[x];
    hide OncePer, SubmittedOnce, Named, WasConsumed;
  }

  lemma QueueGood(w: World, keys: map<string, KeyRow>, tasks: set<string>)
    requires Good(w)
    ensures Good(w.(keys := keys, tasks := tasks))
  {
    hide OncePer, SubmittedOnce, Named;
  }

  lemma StepGood(w: World, e: Event)
    requires Good(w)
    ensures Good(Step(w, e))
  {
    hide OncePer, SubmittedOnce, Named, Winners, Advance;
    match e
    case Inspect(preview, token, inputHash, expires) =>
      if preview !in w.previews { InspectGood(w, preview, Preview(token, inputHash, expires, None, "")); }
      hide Consumptions, Traced;
    case Confirm(call, preview, token, inputHash, key, now) =>
      if call !in w.calls && preview in w.previews {
        NotWinnerGood(w, call, Consuming(preview, token, inputHash, key));
        if w.previews[preview].task != "" { NotWinnerGood(w, call, Replaying(preview, w.previews[preview].task)); }
      }
      hide Consumptions, Traced;
    case Continue(call, now, id) =>
      if call in w.calls { AdvanceGood(w, call, now, id); }
    case OtherTask(id, key) => QueueGood(w, w.keys[key := KeyRow(Foreign, id)], w.tasks + {id}); hide Consumptions, Traced;
    case Purge(id) => QueueGood(w, w.keys, w.tasks - {id}); hide Consumptions, Traced;
    case Crash(call) => NotWinnerGood(w, call, Rereading("")); hide Consumptions, Traced;
  }

  lemma {:induction false} RunGood(es: seq<Event>)
    ensures Good(Run(START, es))
  {
    hide Step, Good;
    if es == [] {
      StartGood();
    } else {
      RunGood(es[..|es| - 1]);
      StepGood(Run(START, es[..|es| - 1]), es[|es| - 1]);
    }
  }

  lemma StartGood()
    ensures Good(START)
  {
  }

  // ----- what holds in every run -----------------------------------------------------------

  /** A preview is consumed at most once, before it expires, and gets at most one task. */
  lemma ConsumedOnce(es: seq<Event>)
    ensures var w := Run(START, es);
      && (forall i, j :: 0 <= i < j < |w.consumed| ==> w.consumed[i].0 != w.consumed[j].0)
      && (forall i :: 0 <= i < |w.consumed| ==>
        w.consumed[i].0 in w.previews && w.consumed[i].1 < w.previews[w.consumed[i].0].expires)
      && (forall i, j :: 0 <= i < j < |w.submitted| ==> w.submitted[i].0 != w.submitted[j].0)
  {
    RunGood(es);
    hide Run;
  }

  /** All calls on one preview that succeed answer with the same task. */
  lemma SameAnswer(es: seq<Event>, a: (string, string), b: (string, string))
    requires a in Run(START, es).answers && b in Run(START, es).answers && a.0 == b.0
    ensures a == b
  {
    RunGood(es);
    var w := Run(START, es);
    hide Run;
    var i :| 0 <= i < |w.submitted| && w.submitted[i] == a;
    var j :| 0 <= j < |w.submitted| && w.submitted[j] == b;
  }

  /** Consumed, without a recorded task, and nobody left who could record one. */
  ghost predicate Stranded(w: World, preview: string) {
    && WasConsumed(w, preview) && w.previews[preview].task == ""
    && (forall c :: c in w.calls && w.calls[c].preview == preview ==> !Winner(w.calls[c]) && !w.calls[c].Replaying?)
    && (forall a :: a in w.answers ==> a.0 != preview)
  }

  lemma StrandedStep(w: World, e: Event, preview: string)
    requires Stranded(w, preview)
    ensures Stranded(Step(w, e), preview)
  {
    match e
    case Continue(call, now, id) =>
      if call in w.calls {
        match w.calls[call]
        case Submitting(p, key) => hide Consumable;
        case _ =>
      }
    case _ =>
  }

  /** A stranded preview stays stranded: no confirmation of it ever succeeds again. */
  lemma {:induction false} StrandedForever(es: seq<Event>, k: nat, preview: string)
    requires k <= |es| && Stranded(Run(START, es[..k]), preview)
    ensures Stranded(Run(START, es), preview)
    decreases |es|
  {
    hide Step, Stranded;
    if k == |es| {
      assert es[..k] == es;
    } else {
      assert es[..|es| - 1][..k] == es[..k];
      StrandedForever(es[..|es| - 1], k, preview);
      StrandedStep(Run(START, es[..|es| - 1]), es[|es| - 1], preview);
    }
  }

  // ----- exactly when a preview is stranded -------------------------------------------------

  ghost predicate Recorded(w: World, preview: string) { WasConsumed(w, preview) && w.previews[preview].task != "" }

  ghost predicate WonBy(w: World, preview: string, c: nat) {
    c in w.calls && Winner(w.calls[c]) && w.calls[c].preview == preview
  }

  ghost predicate Won(w: World, preview: string) { exists c :: WonBy(w, preview, c) }

  /** While there is a winner nothing is recorded; who replays or has answered found a recorded task. */
  ghost predicate Settled(w: World) {
    && (forall p :: p in w.previews && w.previews[p].consumedAt.None? ==> w.previews[p].task == "")
    && (forall k :: k in w.keys && w.keys[k].payload.ImportOf? ==> w.keys[k].task != "")
    && (forall c :: c in w.calls ==> StageSettled(w, w.calls[c]))
    && (forall a :: a in w.answers ==> Recorded(w, a.0))
  }

  ghost predicate StageSettled(w: World, s: Stage) {
    && (Winner(s) ==> s.preview in w.previews && w.previews[s.preview].task == "")
    && (s.Recording? ==> s.task != "")
    && (s.Replaying? ==> Recorded(w, s.preview))
  }

  /** Steps that change one call leave the others settled. */
  lemma MovedSettled(w: World, call: nat, s: Stage)
    requires Settled(w)
    ensures Settled(Leave(w, call)) && (StageSettled(w, s) ==> Settled(At(w, call, s)))
  {
    hide Recorded;
    assert forall p :: Recorded(Leave(w, call), p) <==> Recorded(w, p) by { ForAllRecorded(w, Leave(w, call)); }
    assert forall p :: Recorded(At(w, call, s), p) <==> Recorded(w, p) by { ForAllRecorded(w, At(w, call, s)); }
  }

  lemma ForAllRecorded(w: World, v: World)
    requires v.previews == w.previews
    ensures forall p :: Recorded(v, p) <==> Recorded(w, p)
  {
  }

  lemma ConsumeSettled(w: World, call: nat, preview: string, key: string, now: int)
    requires Settled(w) && preview in w.previews && w.previews[preview].consumedAt.None?
    ensures Settled(At(Consume(w, preview, now), call, Submitting(preview, key)))
  {
    var u := Consume(w, preview, now);
    assert forall p :: Recorded(w, p) ==> Recorded(u, p);
    assert Settled(u) by { hide Recorded; }
    MovedSettled(u, call, Submitting(preview, key));
  }

  lemma SubmitSettled(w: World, call: nat, now: int, id: string)
    requires Settled(w) && call in w.calls && w.calls[call].Submitting?
    ensures Settled(Advance(w, call, w.calls[call], now, id))
  {
    var preview, key := w.calls[call].preview, w.calls[call].key;
    var (v, task) := Submit(w, preview, key, id);
    MovedSettled(w, call, Rereading(preview));
    if task.Some? {
      ForAllRecorded(w, v);
      assert task.value != "";
      assert Settled(v) by { hide Recorded; }
      assert StageSettled(w, w.calls[call]);
      MovedSettled(v, call, Recording(preview, task.value));
    }
  }

  lemma RecordSettled(w: World, call: nat, now: int, id: string)
    requires Good(w) && Settled(w) && call in w.calls && w.calls[call].Recording?
    ensures Settled(Advance(w, call, w.calls[call], now, id))
  {
    hide Traced, OncePer, SubmittedOnce, Named;
    var preview, task := w.calls[call].preview, w.calls[call].task;
    var v := Advance(w, call, w.calls[call], now, id);
    assert StageSettled(w, w.calls[call]);
    assert Recorded(v, preview) && forall p :: Recorded(w, p) ==> Recorded(v, p);
    forall c | c in v.calls ensures StageSettled(v, v.calls[c]) {
      assert StageSettled(w, w.calls[c]);
    }
  }

  lemma AdvanceSettled(w: World, call: nat, now: int, id: string)
    requires Good(w) && Settled(w) && call in w.calls
    ensures Settled(Advance(w, call, w.calls[call], now, id))
  {
    hide Settled, Good, Submit;
    var s := w.calls[call];
    MovedSettled(w, call, Rereading(s.preview));
    match s
    case Consuming(preview, token, inputHash, key) =>
      if Consumable(w.previews, preview, token, inputHash, now) { ConsumeSettled(w, call, preview, key, now); }
    case Rereading(preview) =>
      if Recorded(w, preview) { MovedSettled(w, call, Replaying(preview, w.previews[preview].task)); }
    case Replaying(preview, task) => ReplaySettled(w, call);
    case Submitting(_, _) => SubmitSettled(w, call, now, id);
    case Recording(_, _) => RecordSettled(w, call, now, id);
  }

  lemma ReplaySettled(w: World, call: nat)
    requires Settled(w) && call in w.calls && w.calls[call].Replaying?
    ensures Settled(Leave(w.(answers := w.answers + [(w.calls[call].preview, w.calls[call].task)]), call))
  {
    var v := w.(answers := w.answers + [(w.calls[call].preview, w.calls[call].task)]);
    ForAllRecorded(w, v);
    assert StageSettled(w, w.calls[call]);
    assert Settled(v) by { hide Recorded; }
    MovedSettled(v, call, w.calls[call]);
  }

  lemma InspectSettled(w: World, preview: string, p: Preview)
    requires Good(w) && Settled(w) && preview !in w.previews && p.consumedAt.None? && p.task == ""
    ensures Settled(w.(previews := w.previews[preview := p]))
  {
    hide Good;
    var v := w.(previews := w.previews[preview := p]);
    assert forall x :: Recorded(w, x) ==> Recorded(v, x);
    hide Recorded;
  }

  lemma QueueSettled(w: World, keys: map<string, KeyRow>, tasks: set<string>)
    requires Settled(w) && forall k :: k in keys && keys[k].payload.ImportOf? ==> keys[k].task != ""
    ensures Settled(w.(keys := keys, tasks := tasks))
  {
    ForAllRecorded(w, w.(keys := keys, tasks := tasks));
    hide Recorded;
  }

  lemma StepSettled(w: World, e: Event)
    requires Good(w) && Settled(w)
    ensures Settled(Step(w, e))
  {
    hide Good, Advance;
    match e
    case Inspect(preview, token, inputHash, expires) =>
      if preview !in w.previews { InspectSettled(w, preview, Preview(token, inputHash, expires, None, "")); }
      hide Settled;
    case Confirm(call, preview, token, inputHash, key, now) =>
      hide Settled;
      MovedSettled(w, call, Consuming(preview, token, inputHash, key));
      if Recorded(w, preview) { MovedSettled(w, call, Replaying(preview, w.previews[preview].task)); }
    case Continue(call, now, id) =>
      hide Settled;
      if call in w.calls { AdvanceSettled(w, call, now, id); }
    case OtherTask(id, key) => QueueSettled(w, w.keys[key := KeyRow(Foreign, id)], w.tasks + {id}); hide Settled;
    case Purge(id) => QueueSettled(w, w.keys, w.tasks - {id}); hide Settled;
    case Crash(call) => MovedSettled(w, call, Rereading("")); hide Settled;
  }

  lemma {:induction false} RunSettled(es: seq<Event>)
    ensures Settled(Run(START, es))
  {
    hide Step, Good, Settled;
    if es == [] {
      StartSettled();
    } else {
      RunSettled(es[..|es| - 1]);
      RunGood(es[..|es| - 1]);
      StepSettled(Run(START, es[..|es| - 1]), es[|es| - 1]);
    }
  }

  lemma StartSettled()
    ensures Settled(START)
  {
  }

  lemma StrandedWhen(w: World, preview: string)
    requires Settled(w)
    ensures Stranded(w, preview) <==> WasConsumed(w, preview) && w.previews[preview].task == "" && !Won(w, preview)
  {
    if Stranded(w, preview) {
      forall c ensures !WonBy(w, preview, c) {}
    }
    if WasConsumed(w, preview) && w.previews[preview].task == "" && !Won(w, preview) {
      forall c | c in w.calls && w.calls[c].preview == preview ensures !Winner(w.calls[c]) && !w.calls[c].Replaying? {
        assert StageSettled(w, w.calls[c]) && !WonBy(w, preview, c);
      }
    }
  }

  /**
   * In every run, a consumed preview is stranded exactly when no task is recorded for it and no call
   * that consumed it is still under way.
   */
  lemma StrandedIff(es: seq<Event>, preview: string)
    requires WasConsumed(Run(START, es), preview)
    ensures Stranded(Run(START, es), preview) <==>
      Run(START, es).previews[preview].task == "" && !Won(Run(START, es), preview)
  {
    hide Run, Stranded, Won;
    RunSettled(es);
    StrandedWhen(Run(START, es), preview);
  }

  /** The winner stops, before or after it has submitted the task, or the queue refuses the task. */
  ghost predicate LosesWinner(w: World, e: Event, preview: string) {
    match e
    case Crash(call) => WonBy(w, preview, call)
    case Continue(call, now, id) =>
      WonBy(w, preview, call) && w.calls[call].Submitting? && Submit(w, preview, w.calls[call].key, id).1.None?
    case _ => false
  }

  lemma LostWinner(w: World, e: Event, preview: string)
    requires Good(w) && LosesWinner(w, e, preview)
    ensures !Won(Step(w, e), preview) && Step(w, e).previews == w.previews
  {
    hide Consumptions, Traced, OncePer, SubmittedOnce, Named;
    var call := e.call;
    assert Winners(w);
    assert Step(w, e) == Leave(w, call);
    forall c ensures !WonBy(Leave(w, call), preview, c) {
      if WonBy(w, preview, c) { assert c == call; }
    }
  }

  lemma KeepsWinner(w: World, e: Event, preview: string)
    requires Good(w) && Settled(w) && Won(w, preview) && !LosesWinner(w, e, preview)
    ensures Won(Step(w, e), preview) || Recorded(Step(w, e), preview)
  {
    hide Consumptions, Traced, OncePer, SubmittedOnce, Named, Submit;
    var c :| WonBy(w, preview, c);
    assert StageSettled(w, w.calls[c]) && WasConsumed(w, preview);
    if e.Continue? && e.call == c && w.calls[c].Recording? {
      assert Recorded(Step(w, e), preview);
    } else {
      assert WonBy(Step(w, e), preview, c);
    }
  }

  lemma ConsumerWins(w: World, e: Event, preview: string)
    requires Good(w) && !WasConsumed(w, preview) && WasConsumed(Step(w, e), preview)
    ensures Won(Step(w, e), preview)
  {
    hide Consumptions, Winners, Traced, Submit;
    assert e.Continue? && e.call in w.calls && w.calls[e.call].Consuming?;
    assert WonBy(Step(w, e), preview, e.call);
  }

  lemma RecordedStays(w: World, e: Event, preview: string)
    requires Good(w) && Settled(w) && Recorded(w, preview)
    ensures Recorded(Step(w, e), preview)
  {
    hide Submit, Good;
    if e.Continue? && e.call in w.calls { assert StageSettled(w, w.calls[e.call]); }
  }

  /** In every run, a step strands a preview exactly when it loses the winner. */
  lemma StrandedExactlyBy(es: seq<Event>, e: Event, preview: string)
    requires !Stranded(Run(START, es), preview)
    ensures Stranded(Step(Run(START, es), e), preview) <==> LosesWinner(Run(START, es), e, preview)
  {
    var w := Run(START, es);
    RunGood(es);
    RunSettled(es);
    hide Run, Step, Stranded, Good, LosesWinner;
    StepSettled(w, e);
    StrandedWhen(w, preview);
    StrandedWhen(Step(w, e), preview);
    if LosesWinner(w, e, preview) {
      WinnerConsumed(w, e, preview);
      LostWinner(w, e, preview);
    } else if Won(w, preview) {
      KeepsWinner(w, e, preview);
    } else if !WasConsumed(w, preview) {
      if WasConsumed(Step(w, e), preview) { ConsumerWins(w, e, preview); }
    } else {
      RecordedStays(w, e, preview);
    }
  }

  lemma WinnerConsumed(w: World, e: Event, preview: string)
    requires Good(w) && Settled(w) && LosesWinner(w, e, preview)
    ensures WasConsumed(w, preview) && w.previews[preview].task == ""
  {
    hide Submit;
    assert Winners(w) && StageSettled(w, w.calls[e.call]);
  }

  /** A winner that is lost at any stage strands its preview, even when its task is already queued. */
  lemma LostWinnerStrands(es: seq<Event>, e: Event, preview: string)
    requires LosesWinner(Run(START, es), e, preview)
    ensures Stranded(Step(Run(START, es), e), preview)
  {
    RunSettled(es);
    hide Run, Step, Stranded;
    StrandedWhen(Run(START, es), preview);
    LosingWon(Run(START, es), e, preview);
    StrandedExactlyBy(es, e, preview);
  }

  lemma LosingWon(w: World, e: Event, preview: string)
    requires LosesWinner(w, e, preview)
    ensures Won(w, preview)
  {
    hide Submit;
    assert WonBy(w, preview, e.call);
  }

  // ----- who is answered -------------------------------------------------------------------

  ghost predicate Open(w: World, preview: string, token: string, inputHash: string, now: int) {
    && preview in w.previews && w.previews[preview].token == token && w.previews[preview].inputHash == inputHash
    && w.previews[preview].consumedAt.None? && now < w.previews[preview].expires
  }

  /** A call that presents the token and the hash of a preview that is neither consumed nor expired is
      answered, if nothing comes between and the queue takes the task: the task is new, queued for the
      preview, and recorded with it. */
  lemma OpenIsConfirmed(w: World, call: nat, preview: string, token: string, inputHash: string, key: string, id: string,
                        first: int, second: int, third: int, fourth: int, other: string, last: string)
    requires call !in w.calls && Open(w, preview, token, inputHash, first) && second < w.previews[preview].expires
    requires key !in w.keys && id !in w.tasks && id != ""
    ensures var begun := Step(w, Confirm(call, preview, token, inputHash, key, first));
      var queued := Step(Step(begun, Continue(call, second, other)), Continue(call, third, id));
      var v := Step(queued, Continue(call, fourth, last));
      && v.calls == w.calls && v.answers == w.answers + [(preview, id)] && id in v.tasks
      && v.previews[preview] == w.previews[preview].(consumedAt := Some(second), task := id)
      && v.keys == w.keys[key := KeyRow(ImportOf(preview), id)]
  {
    var begun := Step(w, Confirm(call, preview, token, inputHash, key, first));
    assert begun == At(w, call, Consuming(preview, token, inputHash, key));
    var won := Step(begun, Continue(call, second, other));
    assert won.calls[call] == Submitting(preview, key) && won.keys == w.keys && won.tasks == w.tasks;
    var queued := Step(won, Continue(call, third, id));
    assert queued.calls[call] == Recording(preview, id) && queued.answers == w.answers;
    var v := Step(queued, Continue(call, fourth, last));
    assert v.calls == w.calls[call := Consuming(preview, token, inputHash, key)][call := Submitting(preview, key)][call := Recording(preview, id)] - {call};
    assert v.calls == w.calls;
  }

  /** A call that presents another token or hash leaves no trace. */
  lemma StrangerIsRefused(w: World, call: nat, preview: string, token: string, inputHash: string, key: string, now: int)
    requires preview in w.previews && (w.previews[preview].token != token || w.previews[preview].inputHash != inputHash)
    ensures Step(w, Confirm(call, preview, token, inputHash, key, now)) == w
  {
  }

  /** Nor does one that comes too late, or for a preview that was consumed without a recorded task. */
  lemma LateIsRefused(w: World, call: nat, preview: string, token: string, inputHash: string, key: string, now: int)
    requires preview in w.previews
    requires if WasConsumed(w, preview) then w.previews[preview].task == "" else w.previews[preview].expires <= now
    ensures Step(w, Confirm(call, preview, token, inputHash, key, now)) == w
  {
  }

  /** A later call that presents them is answered with the recorded task, as long as the task is there. */
  lemma RecordedIsReplayed(w: World, call: nat, preview: string, token: string, inputHash: string, key: string, now: int, later: int, id: string)
    requires call !in w.calls && Recorded(w, preview)
    requires w.previews[preview].token == token && w.previews[preview].inputHash == inputHash
    ensures var v := Step(Step(w, Confirm(call, preview, token, inputHash, key, now)), Continue(call, later, id));
      v == if w.previews[preview].task in w.tasks then w.(answers := w.answers + [(preview, w.previews[preview].task)]) else w
  {
    var u := Step(w, Confirm(call, preview, token, inputHash, key, now));
    assert u == At(w, call, Replaying(preview, w.previews[preview].task));
    assert w.calls[call := Replaying(preview, w.previews[preview].task)] - {call} == w.calls;
  }

  /** A call that finds its preview consumed by another rereads it, and is answered with the recorded task
      if there is one by then and it is still there. */
  lemma LoserIsReplayed(w: World, call: nat, now: int, second: int, third: int, id: string, other: string, last: string)
    requires call in w.calls && w.calls[call].Consuming? && WasConsumed(w, w.calls[call].preview)
    ensures var preview := w.calls[call].preview;
      var v := Step(Step(Step(w, Continue(call, now, id)), Continue(call, second, other)), Continue(call, third, last));
      v == if Recorded(w, preview) && w.previews[preview].task in w.tasks
           then Leave(w.(answers := w.answers + [(preview, w.previews[preview].task)]), call) else Leave(w, call)
  {
    var preview := w.calls[call].preview;
    var u := Step(w, Continue(call, now, id));
    assert u == At(w, call, Rereading(preview));
    var t := Step(u, Continue(call, second, other));
    if Recorded(w, preview) {
      assert t.calls[call] == Replaying(preview, w.previews[preview].task);
      assert w.calls[call := Rereading(preview)][call := Replaying(preview, w.previews[preview].task)] - {call} == w.calls - {call};
    } else {
      assert w.calls[call := Rereading(preview)] - {call} == w.calls - {call};
      assert t == Leave(w, call) && Step(t, Continue(call, third, last)) == t;
    }
  }

  /** A call whose key has already queued a task for the preview is answered with that task, and none is
      made; a key that stands for anything else, or whose task is gone, ends the call. */
  lemma KnownKeyOutcome(w: World, call: nat, now: int, later: int, id: string, other: string)
    requires call in w.calls && w.calls[call].Submitting? && w.calls[call].preview in w.previews && w.calls[call].key in w.keys
    ensures var preview, row := w.calls[call].preview, w.keys[w.calls[call].key];
      var v := Step(Step(w, Continue(call, now, id)), Continue(call, later, other));
      && v.tasks == w.tasks && v.keys == w.keys && v.calls == w.calls - {call}
      && if row.payload == ImportOf(preview) && row.task in w.tasks
         then v.answers == w.answers + [(preview, row.task)] && v.previews == w.previews[preview := w.previews[preview].(task := row.task)]
         else v == Leave(w, call)
  {
    var preview, row := w.calls[call].preview, w.keys[w.calls[call].key];
    var u := Step(w, Continue(call, now, id));
    if row.payload == ImportOf(preview) && row.task in w.tasks {
      assert u.calls[call] == Recording(preview, row.task);
      assert w.calls[call := Recording(preview, row.task)] - {call} == w.calls - {call};
    } else {
      assert u == Leave(w, call) && Step(u, Continue(call, later, other)) == u;
    }
  }

  /** Step m presents the token and the hash of the preview. */
  ghost predicate PresentedAt(es: seq<Event>, m: int, preview: string) {
    && 0 <= m < |es| && es[m].Confirm? && es[m].preview == preview
    && var w := Run(START, es[..m]);
      preview in w.previews && w.previews[preview].token == es[m].token && w.previews[preview].inputHash == es[m].inputHash
  }

  ghost predicate Presented(es: seq<Event>, preview: string) {
    exists m :: PresentedAt(es, m, preview)
  }

  lemma PresentedLater(es: seq<Event>, e: Event)
    ensures forall p :: Presented(es, p) ==> Presented(es + [e], p)
  {
    hide Run;
    forall p | Presented(es, p) ensures Presented(es + [e], p) {
      var m :| PresentedAt(es, m, p);
      assert (es + [e])[..m] == es[..m];
      assert PresentedAt(es + [e], m, p);
    }
  }

  lemma PresentedNow(es: seq<Event>, e: Event, w: World)
    requires w == Run(START, es) && e.Confirm? && e.call !in w.calls && e.call in Step(w, e).calls
    ensures Presented(es + [e], e.preview)
  {
    hide Run;
    assert (es + [e])[..|es|] == es && (es + [e])[|es|] == e;
    assert PresentedAt(es + [e], |es|, e.preview);
  }

  /** Calls and answers are about previews whose token and hash were presented. */
  ghost predicate AllPresented(es: seq<Event>, w: World) {
    && (forall c :: c in w.calls ==> Presented(es, w.calls[c].preview))
    && (forall a :: a in w.answers ==> Presented(es, a.0))
  }

  lemma StepPresented(es: seq<Event>, w: World, e: Event)
    requires w == Run(START, es) && AllPresented(es, w)
    ensures AllPresented(es + [e], Step(w, e))
  {
    hide Run, Presented, Submit, Consumable;
    PresentedLater(es, e);
    if e.Continue? {
      hide Step;
      assert Step(w, e) == if e.call in w.calls then Advance(w, e.call, w.calls[e.call], e.now, e.id) else w by { StepContinues(w, e); }
      if e.call in w.calls { hide Advance; AdvancePresented(es, w, e); }
    } else {
      hide Advance;
      if e.Confirm? && e.call !in w.calls && e.call in Step(w, e).calls { PresentedNow(es, e, w); }
    }
  }

  lemma StepContinues(w: World, e: Event)
    requires e.Continue?
    ensures Step(w, e) == if e.call in w.calls then Advance(w, e.call, w.calls[e.call], e.now, e.id) else w
  {
  }

  lemma AdvancePresented(es: seq<Event>, w: World, e: Event)
    requires AllPresented(es, w) && e.Continue? && e.call in w.calls && forall p :: Presented(es, p) ==> Presented(es + [e], p)
    ensures AllPresented(es + [e], Advance(w, e.call, w.calls[e.call], e.now, e.id))
  {
    hide Presented, Submit, Consumable;
  }

  lemma {:induction false} RunPresented(es: seq<Event>)
    ensures AllPresented(es, Run(START, es))
  {
    hide Step, Presented;
    if es != [] {
      var init := es[..|es| - 1];
      RunPresented(init);
      StepPresented(init, Run(START, init), es[|es| - 1]);
      assert es == init + [es[|es| - 1]];
    }
  }

  /** In every run, who is answered about a preview has a confirmation behind it that presented its token and hash. */
  lemma AnsweredWasPresented(es: seq<Event>, a: (string, string))
    requires a in Run(START, es).answers
    ensures Presented(es, a.0)
  {
    RunPresented(es);
  }
}
