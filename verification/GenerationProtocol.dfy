/**
 * Rebuilding and serving the item catalog of one pack while the pack is edited. A rebuild takes four
 * steps: read the sources, read the configuration revision, replace the catalog, publish a generation.
 * What a rebuild makes of its sources is a parameter of the runs.
 */
module GenerationProtocol {
  import opened Options
  import opened Sequences
  import opened CatalogFinish

  datatype Status = Building | Ready | Superseded

  /** An immutable copy of a catalog, made for a configuration revision from sources at a revision. */
  datatype Generation = Generation(id: string, config: nat, status: Status, revision: nat, content: Catalog)

  datatype Pack = Pack(
    config: nat, sources: Sources, revision: nat,
    built: nat, catalog: Catalog,
    generations: seq<Generation>, current: Option<string>)

  datatype Read = Served(catalog: Catalog) | Conflict

  // ----- the transactions ------------------------------------------------------------------

  predicate Names(gs: seq<Generation>, id: string) {
    exists i :: 0 <= i < |gs| && gs[i].id == id
  }

  predicate IsCurrent(p: Pack) {
    p.current.Some?
    && (exists i ::
      0 <= i < |p.generations| && p.generations[i].id == p.current.value
      && p.generations[i].status == Ready && p.generations[i].config == p.config)
  }

  function ReadCatalog(p: Pack): Read {
    if IsCurrent(p) && p.revision == p.built then Served(p.catalog) else Conflict
  }

  /** Triggers raise the source revision whenever an input row changes. */
  function EditSources(p: Pack, sources: Sources): Pack {
    p.(sources := sources, revision := p.revision + 1)
  }

  function Invalidate(p: Pack): Pack {
    p.(config := p.config + 1, current := None)
  }

  function Replace(p: Pack, revision: nat, catalog: Catalog): (Pack, bool) {
    if p.revision != revision then (p, false) else (p.(built := revision, catalog := catalog), true)
  }

  function Supersede(g: Generation): Generation {
    if g.status == Ready then g.(status := Superseded) else g
  }

  function Publish(p: Pack, config: nat, id: string, revision: nat, content: Catalog): (Pack, bool) {
    if p.config != config || Names(p.generations, id) then (p, false)
    else
      var others := Map((g: Generation) => Supersede(g), p.generations);
      (p.(generations := others + [Generation(id, config, Ready, revision, content)], current := Some(id)), true)
  }

  // ----- runs ------------------------------------------------------------------------------

  /** How far a rebuild has got. */
  datatype Stage =
    | Snapped(sources: Sources, revision: nat)
    | Configured(sources: Sources, revision: nat, config: nat)
    | Replaced(sources: Sources, revision: nat, config: nat)

  datatype World = World(p: Pack, calls: map<nat, Stage>)

  datatype Event =
    | Edit(sources: Option<Sources>, invalidate: bool)
    | Snapshot(call: nat)
    | ReadConfig(call: nat)
    | ReplaceStep(call: nat)
    | PublishStep(call: nat, id: string)
    | Crash(call: nat)

  /** An edit may change input rows, invalidate the generation, or do both in one transaction. */
  function ApplyEdit(p: Pack, sources: Option<Sources>, invalidate: bool): Pack {
    var q := if sources.Some? then EditSources(p, sources.value) else p;
    if invalidate then Invalidate(q) else q
  }

  function Step(w: World, build: Sources -> Catalog, e: Event): World {
    match e
    case Edit(sources, invalidate) => w.(p := ApplyEdit(w.p, sources, invalidate))
    case Snapshot(call) =>
      if call in w.calls then w else w.(calls := w.calls[call := Snapped(w.p.sources, w.p.revision)])
    case ReadConfig(call) =>
      if call in w.calls && w.calls[call].Snapped?
      then w.(calls := w.calls[call := Configured(w.calls[call].sources, w.calls[call].revision, w.p.config)]) else w
    case ReplaceStep(call) =>
      if call in w.calls && w.calls[call].Configured? then
        var s := w.calls[call];
        var (p, ok) := Replace(w.p, s.revision, build(s.sources));
        World(p, if ok then w.calls[call := Replaced(s.sources, s.revision, s.config)] else w.calls - {call})
      else w
    case PublishStep(call, id) =>
      if call in w.calls && w.calls[call].Replaced? then
        var s := w.calls[call];
        World(Publish(w.p, s.config, id, s.revision, build(s.sources)).0, w.calls - {call})
      else w
    case Crash(call) => w.(calls := w.calls - {call})
  }

  function Start(sources: Sources, none: Catalog): World {
    World(Pack(1, sources, 1, 0, none, [], None), map[])
  }

  function Run(w: World, build: Sources -> Catalog, es: seq<Event>): World {
    if es == [] then w else Step(Run(w, build, es[..|es| - 1]), build, es[|es| - 1])
  }

  // ----- generations and the current id -----------------------------------------------------------

  /** At most one generation is ready; the current id is null or its own, at the pack's own revision. */
  ghost predicate OneReady(p: Pack) {
    && (forall i, j :: 0 <= i < j < |p.generations| ==> p.generations[i].id != p.generations[j].id)
    && (forall i, j :: 0 <= i < j < |p.generations| ==> !(p.generations[i].status == Ready && p.generations[j].status == Ready))
    && (p.current.Some? ==> IsCurrent(p))
    && (forall i :: 0 <= i < |p.generations| ==> p.generations[i].config <= p.config)
  }

  /** The generation `id` is current, and it is the only ready one. */
  ghost predicate OnlyReady(p: Pack, id: string) {
    && p.current == Some(id) && IsCurrent(p) && Names(p.generations, id)
    && forall i :: 0 <= i < |p.generations| ==> (p.generations[i].status == Ready <==> p.generations[i].id == id)
  }

  /** Publishing succeeds at the expected revision, unless the id is in use; the new generation is then the
      one that is ready and current. */
  lemma PublishOneReady(p: Pack, config: nat, id: string, revision: nat, content: Catalog)
    requires OneReady(p)
    ensures var (q, ok) := Publish(p, config, id, revision, content);
      && OneReady(q) && (ok <==> p.config == config && !Names(p.generations, id))
      && (if ok then OnlyReady(q, id) else q == p)
  {
    var (q, ok) := Publish(p, config, id, revision, content);
    if ok {
      var n := |p.generations|;
      assert forall i :: 0 <= i < n ==> q.generations[i] == Supersede(p.generations[i]);
      assert q.generations[n] == Generation(id, config, Ready, revision, content);
    }
  }

  lemma EditOneReady(p: Pack, sources: Option<Sources>, invalidate: bool)
    requires OneReady(p)
    ensures OneReady(ApplyEdit(p, sources, invalidate))
  {
    var q := ApplyEdit(p, sources, invalidate);
    if p.current.Some? && !invalidate {
      var i :| 0 <= i < |p.generations| && p.generations[i].id == p.current.value
        && p.generations[i].status == Ready && p.generations[i].config == p.config;
      assert q.generations[i].id == q.current.value;
    }
  }

  lemma ReplaceOneReady(p: Pack, revision: nat, catalog: Catalog)
    requires OneReady(p)
    ensures OneReady(Replace(p, revision, catalog).0)
  {
    if p.current.Some? {
      var i :| 0 <= i < |p.generations| && p.generations[i].id == p.current.value
        && p.generations[i].status == Ready && p.generations[i].config == p.config;
      assert Replace(p, revision, catalog).0.generations[i].id == p.current.value;
    }
  }

  // ----- what is served --------------------------------------------------------------------

  /** Something derived from sources at a revision is right as long as that revision is the current one. */
  predicate Fresh(p: Pack, build: Sources -> Catalog, revision: nat, content: Catalog) {
    revision <= p.revision && (revision == p.revision ==> content == build(p.sources))
  }

  ghost predicate Honest(w: World, build: Sources -> Catalog) {
    && Fresh(w.p, build, w.p.built, w.p.catalog)
    && (forall i :: 0 <= i < |w.p.generations| ==> Fresh(w.p, build, w.p.generations[i].revision, w.p.generations[i].content))
    && (forall c :: c in w.calls ==> w.calls[c].revision <= w.p.revision)
    && (forall c :: c in w.calls && w.calls[c].revision == w.p.revision ==> w.calls[c].sources == w.p.sources)
  }

  lemma PublishHonest(w: World, build: Sources -> Catalog, call: nat, id: string)
    requires Honest(w, build) && call in w.calls && w.calls[call].Replaced?
    ensures Honest(Step(w, build, PublishStep(call, id)), build)
  {
    var s := w.calls[call];
    var q := Publish(w.p, s.config, id, s.revision, build(s.sources)).0;
    assert Fresh(w.p, build, s.revision, build(s.sources));
    assert forall i :: 0 <= i < |w.p.generations| ==>
      q.generations[i].revision == w.p.generations[i].revision && q.generations[i].content == w.p.generations[i].content;
    hide Names;
  }

  lemma StepOneReady(w: World, build: Sources -> Catalog, e: Event)
    requires OneReady(w.p)
    ensures OneReady(Step(w, build, e).p)
  {
    hide OneReady, Replace, Publish, ApplyEdit;
    match e
    case Edit(sources, invalidate) => EditOneReady(w.p, sources, invalidate);
    case ReplaceStep(call) =>
      if call in w.calls && w.calls[call].Configured? { ReplaceOneReady(w.p, w.calls[call].revision, build(w.calls[call].sources)); }
    case PublishStep(call, id) =>
      if call in w.calls && w.calls[call].Replaced? {
        PublishOneReady(w.p, w.calls[call].config, id, w.calls[call].revision, build(w.calls[call].sources));
      }
    case _ =>
  }

  lemma StepHonest(w: World, build: Sources -> Catalog, e: Event)
    requires Honest(w, build)
    ensures Honest(Step(w, build, e), build)
  {
    if e.PublishStep? {
      if e.call in w.calls && w.calls[e.call].Replaced? { PublishHonest(w, build, e.call, e.id); }
      hide Honest, Publish;
    }
  }

  lemma {:induction false} RunGood(sources: Sources, none: Catalog, build: Sources -> Catalog, es: seq<Event>)
    ensures var w := Run(Start(sources, none), build, es); OneReady(w.p) && Honest(w, build)
  {
    hide OneReady, Honest, Step;
    if es == [] {
      StartGood(sources, none, build);
    } else {
      RunGood(sources, none, build, es[..|es| - 1]);
      StepOneReady(Run(Start(sources, none), build, es[..|es| - 1]), build, es[|es| - 1]);
      StepHonest(Run(Start(sources, none), build, es[..|es| - 1]), build, es[|es| - 1]);
    }
  }

  lemma StartGood(sources: Sources, none: Catalog, build: Sources -> Catalog)
    ensures OneReady(Start(sources, none).p) && Honest(Start(sources, none), build)
  {
  }

  /** Whatever is served was built from the sources as they are now. */
  lemma ServedIsCurrent(sources: Sources, none: Catalog, build: Sources -> Catalog, es: seq<Event>)
    ensures var p := Run(Start(sources, none), build, es).p;
      ReadCatalog(p).Served? ==> ReadCatalog(p) == Served(build(p.sources))
  {
    RunGood(sources, none, build, es);
    hide Run;
  }

  /** A rebuild that nothing interrupts is served, whatever the state it starts from. */
  lemma RebuildIsServed(w: World, build: Sources -> Catalog, call: nat, id: string)
    requires call !in w.calls && !Names(w.p.generations, id)
    ensures var read := Step(Step(w, build, Snapshot(call)), build, ReadConfig(call));
      var v := Step(Step(read, build, ReplaceStep(call)), build, PublishStep(call, id));
      ReadCatalog(v.p) == Served(build(w.p.sources))
  {
    hide Names;
    var w1 := Step(w, build, Snapshot(call));
    var w2 := Step(w1, build, ReadConfig(call));
    var w3 := Step(w2, build, ReplaceStep(call));
    assert w3.calls[call] == Replaced(w.p.sources, w.p.revision, w.p.config) && w3.p.generations == w.p.generations;
    var v := Step(w3, build, PublishStep(call, id));
    assert v.p.generations[|w.p.generations|] == Generation(id, w.p.config, Ready, w.p.revision, build(w.p.sources));
  }

  // ----- the generation may lag behind what is served ---------------------------------------

  lemma RunNext(w: World, build: Sources -> Catalog, es: seq<Event>, e: Event)
    ensures Run(w, build, es + [e]) == Step(Run(w, build, es), build, e)
  {
    assert (es + [e])[..|es|] == es;
  }

  /** One rebuild has replaced the catalog; then the sources change and a second one replaces it again. */
  lemma TwoRebuilds(first: Sources, later: Sources, none: Catalog, build: Sources -> Catalog) returns (es: seq<Event>)
    ensures Run(Start(first, none), build, es)
         == World(Pack(1, later, 2, 2, build(later), [], None), map[1 := Replaced(first, 1, 1), 2 := Replaced(later, 2, 1)])
  {
    var start := Start(first, none);
    es := [];
    RunNext(start, build, es, Snapshot(1)); es := es + [Snapshot(1)];
    assert Run(start, build, es) == World(start.p, map[1 := Snapped(first, 1)]);
    RunNext(start, build, es, ReadConfig(1)); es := es + [ReadConfig(1)];
    assert Run(start, build, es) == World(start.p, map[1 := Configured(first, 1, 1)]);
    RunNext(start, build, es, ReplaceStep(1)); es := es + [ReplaceStep(1)];
    var p := Pack(1, first, 1, 1, build(first), [], None);
    assert Run(start, build, es) == World(p, map[1 := Replaced(first, 1, 1)]);
    RunNext(start, build, es, Edit(Some(later), false)); es := es + [Edit(Some(later), false)];
    var q := Pack(1, later, 2, 1, build(first), [], None);
    assert Run(start, build, es) == World(q, map[1 := Replaced(first, 1, 1)]);
    RunNext(start, build, es, Snapshot(2)); es := es + [Snapshot(2)];
    assert Run(start, build, es) == World(q, map[1 := Replaced(first, 1, 1), 2 := Snapped(later, 2)]);
    RunNext(start, build, es, ReadConfig(2)); es := es + [ReadConfig(2)];
    assert Run(start, build, es) == World(q, map[1 := Replaced(first, 1, 1), 2 := Configured(later, 2, 1)]);
    RunNext(start, build, es, ReplaceStep(2)); es := es + [ReplaceStep(2)];
  }

  /**
   * The first rebuild then publishes its copy: the catalog that is served is right, but the generation
   * marked current holds what was built from the sources before the edit.
   */
  lemma CurrentMayLag(first: Sources, later: Sources, none: Catalog, build: Sources -> Catalog) returns (es: seq<Event>)
    ensures var p := Run(Start(first, none), build, es).p;
      && p.sources == later && ReadCatalog(p) == Served(build(later))
      && |p.generations| == 1 && p.current == Some(p.generations[0].id) && p.generations[0].content == build(first)
  {
    var before := TwoRebuilds(first, later, none, build);
    RunNext(Start(first, none), build, before, PublishStep(1, "g"));
    es := before + [PublishStep(1, "g")];
    var q := Publish(Pack(1, later, 2, 2, build(later), [], None), 1, "g", 1, build(first));
    hide Run;
    assert q.1 && q.0.generations[0] == Generation("g", 1, Ready, 1, build(first));
  }

  /** A generation made from the current source revision does hold the current catalog. */
  lemma CurrentRightAtRevision(sources: Sources, none: Catalog, build: Sources -> Catalog, es: seq<Event>, k: nat)
    requires var p := Run(Start(sources, none), build, es).p; k < |p.generations| && p.generations[k].revision == p.revision
    ensures var p := Run(Start(sources, none), build, es).p; p.generations[k].content == build(p.sources)
  {
    RunGood(sources, none, build, es);
    hide Run;
    var p := Run(Start(sources, none), build, es).p;
    assert Fresh(p, build, p.generations[k].revision, p.generations[k].content);
  }

  // ----- the repository --------------------------------------------------------------------

  class Repository {
    var config: nat
    var sources: Sources
    var revision: nat
    var built: nat
    var catalog: Catalog
    var generations: seq<Generation>
    var current: Option<string>

    function Contents(): Pack
      reads this
    {
      Pack(config, sources, revision, built, catalog, generations, current)
    }

    constructor (sources: Sources, none: Catalog)
      ensures Contents() == Start(sources, none).p
    {
      this.config, this.sources, this.revision, this.built, this.catalog, this.generations, this.current :=
        1, sources, 1, 0, none, [], None;
    }

    method InvalidatePackGeneration()
      modifies this
      ensures Contents() == Invalidate(old(Contents()))
    {
      config, current := config + 1, None;
    }

    method ReplaceCatalog(from: nat, c: Catalog) returns (ok: bool)
      modifies this
      ensures (Contents(), ok) == Replace(old(Contents()), from, c)
    {
      ok := revision == from;
      if ok {
        catalog := c;
        built := from;
      }
    }

    /** A new generation is inserted as "building"; the ready ones are superseded and it becomes ready. */
    method PublishCatalogGeneration(configRevision: nat, id: string, from: nat, c: Catalog) returns (ok: bool)
      modifies this
      ensures (Contents(), ok) == Publish(old(Contents()), configRevision, id, from, c)
    {
      if config != configRevision || Names(generations, id) { return false; }
      ghost var before := generations;
      generations := generations + [Generation(id, configRevision, Building, from, c)];
      for i := 0 to |generations|
        invariant |generations| == |before| + 1
        invariant generations[|before|] == Generation(id, configRevision, if i > |before| then Ready else Building, from, c)
        invariant forall k :: 0 <= k < |before| ==> generations[k] == if k < i then Supersede(before[k]) else before[k]
        invariant config == old(config) && sources == old(sources) && revision == old(revision) && built == old(built) && catalog == old(catalog)
      {
        if generations[i].id == id {
          assert i == |before|;
          generations := generations[i := generations[i].(status := Ready)];
        } else if generations[i].status == Ready {
          generations := generations[i := generations[i].(status := Superseded)];
        }
      }
      current := Some(id);
      ok := true;
      assert Contents().generations == Publish(old(Contents()), configRevision, id, from, c).0.generations;
    }
  }
}
