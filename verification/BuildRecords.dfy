/**
 * Builds of pack versions over the tables of recorded inputs and artifacts: inputs are recorded before
 * anything is written to disk, the artifact is registered last, and builds interleave.
 */
module BuildRecords {
  import opened Options

  datatype Kind = LockInput | ContentInput | QuestInput | ConfigInput

  /** Each of the four inputs of a build: its hash and its payload. */
  datatype Recorded = Recorded(hash: string, payload: string)

  datatype InputRow = InputRow(version: string, kind: Kind, value: Recorded)

  /** The four snapshots of a build, and the fingerprint of its whole manifest. */
  datatype Build = Build(version: string, inputs: map<Kind, Recorded>, fingerprint: string)

  datatype ArtifactRow = ArtifactRow(id: string, version: string, fingerprint: string, path: string)

  const KINDS := [LockInput, ContentInput, QuestInput, ConfigInput]

  predicate Complete(b: Build) { forall k: Kind :: k in b.inputs }

  // ----- recorded inputs -------------------------------------------------------------------

  predicate HasInput(rows: seq<InputRow>, version: string, kind: Kind) {
    exists i :: 0 <= i < |rows| && rows[i].version == version && rows[i].kind == kind
  }

  /** No row of the version contradicts the value. */
  predicate Agrees(rows: seq<InputRow>, version: string, kind: Kind, value: Recorded) {
    forall i :: 0 <= i < |rows| && rows[i].version == version && rows[i].kind == kind ==> rows[i].value == value
  }

  /** Records the inputs of the first n kinds one after another; None when one contradicts a row. */
  function RecordUpTo(rows: seq<InputRow>, b: Build, n: nat): Option<seq<InputRow>>
    requires n <= |KINDS| && Complete(b)
  {
    if n == 0 then Some(rows)
    else
      var t := RecordUpTo(rows, b, n - 1);
      var kind := KINDS[n - 1];
      if t.None? || !Agrees(t.value, b.version, kind, b.inputs[kind]) then None
      else if HasInput(t.value, b.version, kind) then t
      else Some(t.value + [InputRow(b.version, kind, b.inputs[kind])])
  }

  /** One transaction: all four are recorded or nothing is. */
  function Record(rows: seq<InputRow>, b: Build): Option<seq<InputRow>>
    requires Complete(b)
  {
    RecordUpTo(rows, b, |KINDS|)
  }

  /** One value for each version and kind. */
  ghost predicate OneValue(rows: seq<InputRow>) {
    forall i, j :: 0 <= i < |rows| && 0 <= j < |rows| && rows[i].version == rows[j].version && rows[i].kind == rows[j].kind ==> i == j
  }

  /** The version is recorded with exactly these inputs. */
  ghost predicate RecordedAs(rows: seq<InputRow>, version: string, inputs: map<Kind, Recorded>) {
    forall kind: Kind :: kind in inputs && HasInput(rows, version, kind) && Agrees(rows, version, kind, inputs[kind])
  }

  lemma {:induction false} RecordStep(rows: seq<InputRow>, b: Build, n: nat)
    requires n <= |KINDS| && Complete(b) && OneValue(rows) && RecordUpTo(rows, b, n).Some?
    ensures var t := RecordUpTo(rows, b, n).value;
      && rows <= t && OneValue(t)
      && forall k :: 0 <= k < n ==> HasInput(t, b.version, KINDS[k]) && Agrees(t, b.version, KINDS[k], b.inputs[KINDS[k]])
  {
    if n > 0 {
      RecordStep(rows, b, n - 1);
      var s, t := RecordUpTo(rows, b, n - 1).value, RecordUpTo(rows, b, n).value;
      var kind := KINDS[n - 1];
      if s != t {
        InputAdded(s, t, b.version, kind, b.inputs[kind]);
      }
      hide RecordUpTo, OneValue;
      forall k | 0 <= k < n - 1 ensures KINDS[k] != kind { DistinctKinds(k, n - 1); }
    }
  }

  lemma DistinctKinds(i: nat, j: nat)
    requires i < j < |KINDS|
    ensures KINDS[i] != KINDS[j]
  {
  }

  lemma InputAdded(s: seq<InputRow>, t: seq<InputRow>, version: string, kind: Kind, value: Recorded)
    requires OneValue(s) && !HasInput(s, version, kind) && t == s + [InputRow(version, kind, value)]
    ensures OneValue(t) && HasInput(t, version, kind) && Agrees(t, version, kind, value)
    ensures forall v, k :: HasInput(s, v, k) ==> HasInput(t, v, k)
    ensures forall v, k, x :: Agrees(s, v, k, x) && (v != version || k != kind) ==> Agrees(t, v, k, x)
  {
    assert t[|s|].kind == kind;
    forall v, k | HasInput(s, v, k) ensures HasInput(t, v, k) {
      var i :| 0 <= i < |s| && s[i].version == v && s[i].kind == k;
      assert t[i].version == v && t[i].kind == k;
    }
  }

  /** After a successful transaction the version is recorded with the inputs of the build. */
  lemma RecordDone(rows: seq<InputRow>, b: Build)
    requires Complete(b) && OneValue(rows) && Record(rows, b).Some?
    ensures var t := Record(rows, b).value; rows <= t && OneValue(t) && RecordedAs(t, b.version, b.inputs)
  {
    RecordStep(rows, b, |KINDS|);
    hide RecordUpTo, HasInput, Agrees;
    var t := Record(rows, b).value;
    forall kind: Kind ensures HasInput(t, b.version, kind) && Agrees(t, b.version, kind, b.inputs[kind]) { KindListed(kind); }
  }

  lemma KindListed(kind: Kind)
    ensures exists k :: 0 <= k < |KINDS| && KINDS[k] == kind
  {
    match kind
    case LockInput => assert KINDS[0] == kind;
    case ContentInput => assert KINDS[1] == kind;
    case QuestInput => assert KINDS[2] == kind;
    case ConfigInput => assert KINDS[3] == kind;
  }

  lemma RecordedStays(s: seq<InputRow>, t: seq<InputRow>, version: string, inputs: map<Kind, Recorded>)
    requires s <= t && OneValue(t) && RecordedAs(s, version, inputs)
    ensures RecordedAs(t, version, inputs)
  {
    forall kind: Kind ensures HasInput(t, version, kind) && Agrees(t, version, kind, inputs[kind]) {
      assert HasInput(s, version, kind);
      var i :| 0 <= i < |s| && s[i].version == version && s[i].kind == kind;
      assert t[i] == s[i];
    }
  }

  /** Two sets of inputs recorded for one version are the same. */
  lemma RecordedSame(rows: seq<InputRow>, version: string, a: map<Kind, Recorded>, b: map<Kind, Recorded>)
    requires RecordedAs(rows, version, a) && RecordedAs(rows, version, b)
    ensures a == b
  {
    forall kind: Kind ensures kind in a && kind in b && a[kind] == b[kind] {
      assert HasInput(rows, version, kind);
      var i :| 0 <= i < |rows| && rows[i].version == version && rows[i].kind == kind;
      assert rows[i].value == a[kind] && rows[i].value == b[kind];
    }
  }

  // ----- artifacts -------------------------------------------------------------------------

  predicate HasArtifact(rows: seq<ArtifactRow>, version: string, fingerprint: string) {
    exists i :: 0 <= i < |rows| && rows[i].version == version && rows[i].fingerprint == fingerprint
  }

  /** INSERT ... ON CONFLICT DO NOTHING: the first row of a version and fingerprint stays; ids in use are an error. */
  function Register(rows: seq<ArtifactRow>, r: ArtifactRow): seq<ArtifactRow> {
    if HasArtifact(rows, r.version, r.fingerprint) || exists i :: 0 <= i < |rows| && rows[i].id == r.id then rows
    else rows + [r]
  }

  ghost predicate OneArtifact(rows: seq<ArtifactRow>) {
    forall i, j :: 0 <= i < j < |rows| ==> !(rows[i].version == rows[j].version && rows[i].fingerprint == rows[j].fingerprint)
  }

  // ----- runs ------------------------------------------------------------------------------

  /** A build looks for a finished artifact, records its inputs, writes the file, registers it. */
  datatype Stage = Looking(b: Build) | Writing(b: Build)

  /** built remembers the build behind each artifact row. */
  datatype World = World(inputs: seq<InputRow>, artifacts: seq<ArtifactRow>, calls: map<nat, Stage>, built: seq<Build>)

  const START := World([], [], map[], [])

  datatype Event =
    | Begin(call: nat, b: Build)
    | RecordInputs(call: nat)
    | RegisterFile(call: nat, id: string, path: string)
    | Crash(call: nat)

  function Leave(w: World, call: nat): World { w.(calls := w.calls - {call}) }

  function Step(w: World, e: Event): World {
    match e
    case Begin(call, b) =>
      if call in w.calls || !Complete(b) || HasArtifact(w.artifacts, b.version, b.fingerprint) then w
      else w.(calls := w.calls[call := Looking(b)])
    case RecordInputs(call) =>
      if call in w.calls && w.calls[call].Looking? && Complete(w.calls[call].b) then
        var t := Record(w.inputs, w.calls[call].b);
        if t.None? then Leave(w, call) else w.(inputs := t.value, calls := w.calls[call := Writing(w.calls[call].b)])
      else w
    case RegisterFile(call, id, path) =>
      if call in w.calls && w.calls[call].Writing? then
        var b := w.calls[call].b;
        var rows := Register(w.artifacts, ArtifactRow(id, b.version, b.fingerprint, path));
        Leave(w.(artifacts := rows, built := if |rows| > |w.artifacts| then w.built + [b] else w.built), call)
      else w
    case Crash(call) => Leave(w, call)
  }

  function Run(w: World, es: seq<Event>): World {
    if es == [] then w else Step(Run(w, es[..|es| - 1]), es[|es| - 1])
  }

  ghost predicate Sound(w: World) {
    && OneValue(w.inputs) && OneArtifact(w.artifacts)
    && |w.built| == |w.artifacts|
    && (forall i :: 0 <= i < |w.artifacts| ==> w.artifacts[i].version == w.built[i].version && w.artifacts[i].fingerprint == w.built[i].fingerprint)
    && (forall i :: 0 <= i < |w.built| ==> RecordedAs(w.inputs, w.built[i].version, w.built[i].inputs))
    && (forall c :: c in w.calls && w.calls[c].Writing? ==> RecordedAs(w.inputs, w.calls[c].b.version, w.calls[c].b.inputs))
  }

  lemma RecordSound(w: World, call: nat)
    requires Sound(w) && call in w.calls && w.calls[call].Looking? && Complete(w.calls[call].b) && Record(w.inputs, w.calls[call].b).Some?
    ensures var t := Record(w.inputs, w.calls[call].b).value;
      w.inputs <= t && Sound(w.(inputs := t, calls := w.calls[call := Writing(w.calls[call].b)]))
  {
    hide Record;
    var b := w.calls[call].b;
    var t := Record(w.inputs, b).value;
    RecordDone(w.inputs, b);
    forall version, inputs | RecordedAs(w.inputs, version, inputs) ensures RecordedAs(t, version, inputs) {
      RecordedStays(w.inputs, t, version, inputs);
    }
    hide OneValue, OneArtifact, RecordedAs;
  }

  /** Recorded inputs and registered artifacts are never changed. */
  ghost predicate Keeps(w: World, v: World) { w.inputs <= v.inputs && w.artifacts <= v.artifacts }

  lemma StepSound(w: World, e: Event)
    requires Sound(w)
    ensures Sound(Step(w, e)) && Keeps(w, Step(w, e))
  {
    hide RecordedAs, OneValue, Record, Complete;
    if e.RecordInputs? {
      var call := e.call;
      if call in w.calls && w.calls[call].Looking? && Complete(w.calls[call].b) && Record(w.inputs, w.calls[call].b).Some? {
        RecordSound(w, call);
      }
    }
  }

  lemma {:induction false} RunSound(es: seq<Event>)
    ensures Sound(Run(START, es))
  {
    hide Step;
    if es != [] {
      RunSound(es[..|es| - 1]);
      StepSound(Run(START, es[..|es| - 1]), es[|es| - 1]);
    }
  }

  /** All artifacts of one version were built from the same four snapshots. */
  lemma SameSnapshots(es: seq<Event>, i: nat, j: nat)
    requires var w := Run(START, es); i < |w.artifacts| && j < |w.artifacts| && w.artifacts[i].version == w.artifacts[j].version
    ensures var w := Run(START, es); |w.built| == |w.artifacts| && w.built[i].inputs == w.built[j].inputs
  {
    RunSound(es);
    var w := Run(START, es);
    hide Run, RecordedAs;
    RecordedSame(w.inputs, w.artifacts[i].version, w.built[i].inputs, w.built[j].inputs);
  }

  /** One row for each version and fingerprint; whatever is registered or recorded stays as it is. */
  lemma {:induction false} RunKeeps(es: seq<Event>, k: nat)
    requires k <= |es|
    ensures OneArtifact(Run(START, es).artifacts) && Keeps(Run(START, es[..k]), Run(START, es))
    decreases |es|
  {
    hide Step;
    RunSound(es);
    if k == |es| {
      assert es[..k] == es;
    } else {
      var init := es[..|es| - 1];
      assert init[..k] == es[..k];
      RunKeeps(init, k);
      RunSound(init);
      StepSound(Run(START, init), es[|es| - 1]);
    }
  }

  /** A build that has been made already is not made again, and any other that is complete is begun. */
  lemma KnownIsReused(w: World, call: nat, b: Build)
    requires call !in w.calls && Complete(b)
    ensures Step(w, Begin(call, b)) ==
      if exists i :: 0 <= i < |w.artifacts| && w.artifacts[i].version == b.version && w.artifacts[i].fingerprint == b.fingerprint
      then w else w.(calls := w.calls[call := Looking(b)])
  {
    hide Complete;
  }

  // ----- the repository --------------------------------------------------------------------

  class Repository {
    var inputs: seq<InputRow>
    var artifacts: seq<ArtifactRow>

    constructor ()
      ensures inputs == [] && artifacts == []
    {
      inputs, artifacts := [], [];
    }

    /** One transaction over the four inputs; a contradiction undoes it. */
    method RecordBuildInputs(b: Build) returns (ok: bool)
      requires Complete(b)
      modifies this
      ensures artifacts == old(artifacts)
      ensures ok <==> Record(old(inputs), b).Some?
      ensures inputs == if ok then Record(old(inputs), b).value else old(inputs)
    {
      hide Agrees, HasInput;
      var snapshot := inputs;
      for n := 0 to |KINDS|
        invariant RecordUpTo(snapshot, b, n) == Some(inputs) && artifacts == old(artifacts)
      {
        var kind := KINDS[n];
        if !Agrees(inputs, b.version, kind, b.inputs[kind]) {
          inputs := snapshot;
          RecordFails(snapshot, b, n + 1);
          return false;
        }
        if !HasInput(inputs, b.version, kind) {
          inputs := inputs + [InputRow(b.version, kind, b.inputs[kind])];
        }
      }
      ok := true;
    }

    method RegisterArtifact(r: ArtifactRow)
      modifies this
      ensures artifacts == Register(old(artifacts), r) && inputs == old(inputs)
    {
      for i := 0 to |artifacts|
        invariant artifacts == old(artifacts) && inputs == old(inputs)
        invariant forall k :: 0 <= k < i ==>
          artifacts[k].id != r.id && !(artifacts[k].version == r.version && artifacts[k].fingerprint == r.fingerprint)
      {
        if artifacts[i].id == r.id || (artifacts[i].version == r.version && artifacts[i].fingerprint == r.fingerprint) { return; }
      }
      artifacts := artifacts + [r];
    }
  }

  lemma {:induction false} RecordFails(rows: seq<InputRow>, b: Build, n: nat)
    requires n <= |KINDS| && Complete(b) && RecordUpTo(rows, b, n).None?
    ensures Record(rows, b).None?
    decreases |KINDS| - n
  {
    if n < |KINDS| { RecordFails(rows, b, n + 1); }
  }
}
