/**
 * What must have happened before a catalog is served: after an edit nothing is served until a rebuild
 * that began late enough has gone through all its steps.
 */
module GenerationHistory {
  import opened Options
  import opened CatalogFinish
  import opened GenerationProtocol

  lemma PrefixNext(w: World, build: Sources -> Catalog, es: seq<Event>, j: nat)
    requires j < |es|
    ensures Run(w, build, es[..j + 1]) == Step(Run(w, build, es[..j]), build, es[j])
  {
    assert es[..j + 1][..j] == es[..j];
  }

  ghost predicate HasStage(w: World, call: nat, s: Stage) {
    call in w.calls && w.calls[call] == s
  }

  /** After each of the steps from a on, and up to b, the call stands at the stage s. */
  ghost predicate Stands(w: World, build: Sources -> Catalog, es: seq<Event>, a: nat, b: nat, call: nat, s: Stage)
    requires b <= |es|
  {
    forall m :: a < m <= b ==> HasStage(Run(w, build, es[..m]), call, s)
  }

  // ----- how a call got where it is --------------------------------------------------------

  lemma {:induction false} FindSnapshot(w: World, build: Sources -> Catalog, es: seq<Event>, b: nat, call: nat, s: Stage) returns (a: nat)
    requires w.calls == map[] && b <= |es| && HasStage(Run(w, build, es[..b]), call, s) && s.Snapped?
    ensures a < b && es[a] == Snapshot(call) && Stands(w, build, es, a, b, call, s)
    ensures var u := Run(w, build, es[..a]); call !in u.calls && s == Snapped(u.p.sources, u.p.revision)
    decreases b
  {
    hide Run, Replace, Publish, ApplyEdit;
    if b == 0 {
      assert Run(w, build, es[..0]) == w by { assert es[..0] == []; RunNone(w, build); }
    } else {
      PrefixNext(w, build, es, b - 1);
      if HasStage(Run(w, build, es[..b - 1]), call, s) {
        a := FindSnapshot(w, build, es, b - 1, call, s);
      } else {
        a := b - 1;
      }
    }
  }

  lemma RunNone(w: World, build: Sources -> Catalog)
    ensures Run(w, build, []) == w
  {
  }

  lemma {:induction false} FindReadConfig(w: World, build: Sources -> Catalog, es: seq<Event>, b: nat, call: nat, s: Stage) returns (a: nat)
    requires w.calls == map[] && b <= |es| && HasStage(Run(w, build, es[..b]), call, s) && s.Configured?
    ensures a < b && es[a] == ReadConfig(call) && Stands(w, build, es, a, b, call, s)
    ensures var u := Run(w, build, es[..a]); HasStage(u, call, Snapped(s.sources, s.revision)) && s.config == u.p.config
    decreases b
  {
    hide Run, Replace, Publish, ApplyEdit;
    if b == 0 {
      assert Run(w, build, es[..0]) == w by { assert es[..0] == []; RunNone(w, build); }
    } else {
      PrefixNext(w, build, es, b - 1);
      if HasStage(Run(w, build, es[..b - 1]), call, s) {
        a := FindReadConfig(w, build, es, b - 1, call, s);
      } else {
        a := b - 1;
      }
    }
  }

  lemma {:induction false} FindReplace(w: World, build: Sources -> Catalog, es: seq<Event>, b: nat, call: nat, s: Stage) returns (a: nat)
    requires w.calls == map[] && b <= |es| && HasStage(Run(w, build, es[..b]), call, s) && s.Replaced?
    ensures a < b && es[a] == ReplaceStep(call) && Stands(w, build, es, a, b, call, s)
    ensures var u := Run(w, build, es[..a]);
      HasStage(u, call, Configured(s.sources, s.revision, s.config)) && s.revision == u.p.revision
    decreases b
  {
    hide Run, Publish, ApplyEdit;
    if b == 0 {
      assert Run(w, build, es[..0]) == w by { assert es[..0] == []; RunNone(w, build); }
    } else {
      PrefixNext(w, build, es, b - 1);
      if HasStage(Run(w, build, es[..b - 1]), call, s) {
        a := FindReplace(w, build, es, b - 1, call, s);
      } else {
        a := b - 1;
      }
    }
  }

  /**
   * A rebuild: at step i the call reads the sources, at step j the configuration revision, at step k it
   * replaces the catalog; nothing else moves the call up to step n.
   */
  ghost predicate Replacing(w: World, build: Sources -> Catalog, es: seq<Event>, i: nat, j: nat, k: nat, n: nat, call: nat) {
    && i < j < k < n <= |es| && es[i] == Snapshot(call) && es[j] == ReadConfig(call) && es[k] == ReplaceStep(call)
    && var u, config := Run(w, build, es[..i]), Run(w, build, es[..j]).p.config;
      && call !in u.calls
      && Stands(w, build, es, i, j, call, Snapped(u.p.sources, u.p.revision))
      && Stands(w, build, es, j, k, call, Configured(u.p.sources, u.p.revision, config))
      && Stands(w, build, es, k, n, call, Replaced(u.p.sources, u.p.revision, config))
      && Run(w, build, es[..k]).p.revision == u.p.revision
  }

  lemma FindReplacing(w: World, build: Sources -> Catalog, es: seq<Event>, n: nat, call: nat, s: Stage) returns (i: nat, j: nat, k: nat)
    requires w.calls == map[] && n <= |es| && HasStage(Run(w, build, es[..n]), call, s) && s.Replaced?
    ensures Replacing(w, build, es, i, j, k, n, call)
    ensures s.sources == Run(w, build, es[..i]).p.sources && s.revision == Run(w, build, es[..i]).p.revision
    ensures s.config == Run(w, build, es[..j]).p.config && s.revision == Run(w, build, es[..k]).p.revision
  {
    hide Run, Stands;
    k := FindReplace(w, build, es, n, call, s);
    j := FindReadConfig(w, build, es, k, call, Configured(s.sources, s.revision, s.config));
    i := FindSnapshot(w, build, es, j, call, Snapped(s.sources, s.revision));
  }

  // ----- how the pack got where it is ------------------------------------------------------

  /** At step n the call publishes generation id, which is appended and becomes the current one. */
  ghost predicate Publishes(w: World, build: Sources -> Catalog, es: seq<Event>, n: nat, call: nat, id: string) {
    && n < |es| && es[n] == PublishStep(call, id)
    && var u, v := Run(w, build, es[..n]), Run(w, build, es[..n + 1]);
      && call in u.calls && u.calls[call].Replaced? && u.calls[call].config == u.p.config
      && v.p.current == Some(id) && |v.p.generations| == |u.p.generations| + 1
      && v.p.generations[|u.p.generations|]
         == Generation(id, u.p.config, Ready, u.calls[call].revision, build(u.calls[call].sources))
  }

  lemma CurrentFrom(w: World, build: Sources -> Catalog, e: Event, id: string)
    requires Step(w, build, e).p.current == Some(id)
    ensures w.p.current == Some(id) ==> Step(w, build, e).p.config == w.p.config
    ensures w.p.current != Some(id) ==>
      && e.PublishStep? && e.id == id && e.call in w.calls && w.calls[e.call].Replaced?
      && Step(w, build, e).p.config == w.p.config
      && Publish(w.p, w.calls[e.call].config, id, w.calls[e.call].revision, build(w.calls[e.call].sources)).1
  {
    hide Names;
  }

  lemma {:induction false} FindPublish(w: World, build: Sources -> Catalog, es: seq<Event>, b: nat, id: string) returns (n: nat, call: nat)
    requires w.p.current == None && b <= |es| && Run(w, build, es[..b]).p.current == Some(id)
    ensures n < b && Publishes(w, build, es, n, call, id)
    ensures Run(w, build, es[..b]).p.config == Run(w, build, es[..n]).p.config
    decreases b
  {
    hide Run, Step, Publish;
    if b == 0 {
      assert Run(w, build, es[..0]) == w by { assert es[..0] == []; RunNone(w, build); }
    } else {
      PrefixNext(w, build, es, b - 1);
      CurrentFrom(Run(w, build, es[..b - 1]), build, es[b - 1], id);
      if Run(w, build, es[..b - 1]).p.current == Some(id) {
        n, call := FindPublish(w, build, es, b - 1, id);
      } else {
        n, call := b - 1, es[b - 1].call;
        PublishesHere(w, build, es, n, call, id);
      }
    }
  }

  lemma PublishesHere(w: World, build: Sources -> Catalog, es: seq<Event>, n: nat, call: nat, id: string)
    requires n < |es| && es[n] == PublishStep(call, id)
    requires call in Run(w, build, es[..n]).calls && Run(w, build, es[..n]).calls[call].Replaced?
    requires var u := Run(w, build, es[..n]);
      Publish(u.p, u.calls[call].config, id, u.calls[call].revision, build(u.calls[call].sources)).1
    ensures Publishes(w, build, es, n, call, id)
  {
    hide Run, Names;
    PrefixNext(w, build, es, n);
  }

  lemma {:induction false} FindBuilt(w: World, build: Sources -> Catalog, es: seq<Event>, b: nat) returns (k: nat, call: nat, s: Stage)
    requires w.p.built == 0 && b <= |es| && Run(w, build, es[..b]).p.built > 0
    ensures k < b && es[k] == ReplaceStep(call) && s.Replaced? && HasStage(Run(w, build, es[..k + 1]), call, s)
    ensures s.revision == Run(w, build, es[..b]).p.built
    ensures Run(w, build, es[..b]).p.catalog == build(s.sources)
    decreases b
  {
    hide Run, Publish, ApplyEdit;
    if b == 0 {
      assert Run(w, build, es[..0]) == w by { assert es[..0] == []; RunNone(w, build); }
    } else {
      PrefixNext(w, build, es, b - 1);
      var u, v, e := Run(w, build, es[..b - 1]), Run(w, build, es[..b]), es[b - 1];
      if e.ReplaceStep? && e.call in u.calls && u.calls[e.call].Configured? && u.calls[e.call].revision == u.p.revision {
        k, call, s := b - 1, e.call, v.calls[e.call];
      } else {
        StaysBuilt(u, build, e);
        k, call, s := FindBuilt(w, build, es, b - 1);
      }
    }
  }

  lemma StaysBuilt(u: World, build: Sources -> Catalog, e: Event)
    requires !(e.ReplaceStep? && e.call in u.calls && u.calls[e.call].Configured? && u.calls[e.call].revision == u.p.revision)
    ensures Step(u, build, e).p.built == u.p.built && Step(u, build, e).p.catalog == u.p.catalog
  {
    hide Names;
  }

  lemma {:induction false} RevisionsGrow(w: World, build: Sources -> Catalog, es: seq<Event>, a: nat, b: nat)
    requires a <= b <= |es|
    ensures Run(w, build, es[..a]).p.config <= Run(w, build, es[..b]).p.config
    ensures Run(w, build, es[..a]).p.revision <= Run(w, build, es[..b]).p.revision
    decreases b
  {
    hide Run, Names;
    if a < b {
      RevisionsGrow(w, build, es, a, b - 1);
      PrefixNext(w, build, es, b - 1);
    }
  }

  // ----- nothing is served between an edit and a rebuild after it ----------------------------

  /**
   * After an edit that invalidates the generation nothing is served until a rebuild has read the
   * configuration revision after the edit, replaced the catalog and published its generation, no
   * other step moving that call in between.
   */
  lemma ServedAfterEdit(sources: Sources, none: Catalog, build: Sources -> Catalog, es: seq<Event>, edit: nat)
    returns (i: nat, j: nat, k: nat, n: nat, call: nat, id: string)
    requires edit < |es| && es[edit].Edit? && es[edit].invalidate
    requires ReadCatalog(Run(Start(sources, none), build, es).p).Served?
    ensures edit < j && Replacing(Start(sources, none), build, es, i, j, k, n, call)
    ensures Publishes(Start(sources, none), build, es, n, call, id)
  {
    var w: World := Start(sources, none);
    assert es[..|es|] == es;
    id := Run(w, build, es).p.current.value;
    hide Run, Stands;
    n, call := FindPublish(w, build, es, |es|, id);
    i, j, k := FindReplacing(w, build, es, n, call, Run(w, build, es[..n]).calls[call]);
    PrefixNext(w, build, es, edit);
    RevisionsGrow(w, build, es, edit + 1, |es|);
    if j <= edit {
      RevisionsGrow(w, build, es, j, edit);
      assert false;
    }
  }

  /**
   * After an edit of the sources nothing is served until a rebuild that read its sources after the edit
   * has replaced the catalog, no other step moving that call in between; its catalog is the one served.
   */
  lemma ServedAfterSources(sources: Sources, none: Catalog, build: Sources -> Catalog, es: seq<Event>, edit: nat)
    returns (i: nat, j: nat, k: nat, call: nat)
    requires edit < |es| && es[edit].Edit? && es[edit].sources.Some?
    requires ReadCatalog(Run(Start(sources, none), build, es).p).Served?
    ensures edit < i && Replacing(Start(sources, none), build, es, i, j, k, k + 1, call)
    ensures ReadCatalog(Run(Start(sources, none), build, es).p)
         == Served(build(Run(Start(sources, none), build, es[..i]).p.sources))
  {
    var w: World := Start(sources, none);
    assert es[..|es|] == es && es[..0] == [];
    RevisionsGrow(w, build, es, 0, |es|);
    hide Run, Stands;
    RunNone(w, build);
    var s: Stage;
    k, call, s := FindBuilt(w, build, es, |es|);
    i, j, k := FindReplacing(w, build, es, k + 1, call, s);
    PrefixNext(w, build, es, edit);
    RevisionsGrow(w, build, es, edit + 1, |es|);
    if i <= edit {
      RevisionsGrow(w, build, es, i, edit);
      assert false;
    }
  }

  /** A rebuild whose sources or configuration have changed since it read them ends without a trace. */
  lemma LateRebuildIsRefused(w: World, build: Sources -> Catalog, call: nat, id: string)
    requires call in w.calls
    ensures w.calls[call].Configured? && w.calls[call].revision != w.p.revision ==>
      Step(w, build, ReplaceStep(call)) == World(w.p, w.calls - {call})
    ensures w.calls[call].Replaced? && w.calls[call].config != w.p.config ==>
      Step(w, build, PublishStep(call, id)) == World(w.p, w.calls - {call})
  {
    hide Names;
  }

  // ----- what stays ------------------------------------------------------------------------

  /** A step that edits nothing leaves a served catalog served. */
  lemma StepServes(w: World, build: Sources -> Catalog, e: Event)
    requires OneReady(w.p) && Honest(w, build) && !e.Edit? && ReadCatalog(w.p).Served?
    ensures ReadCatalog(Step(w, build, e).p) == ReadCatalog(w.p)
  {
    match e
    case ReplaceStep(call) =>
      if call in w.calls && w.calls[call].Configured? { hide OneReady, IsCurrent; }
    case PublishStep(call, id) =>
      if call in w.calls && w.calls[call].Replaced? {
        var s := w.calls[call];
        PublishOneReady(w.p, s.config, id, s.revision, build(s.sources));
        hide OneReady, Honest;
      }
    case _ =>
  }

  /** Once a catalog is served it stays served until something is edited, whatever rebuilds do. */
  lemma {:induction false} ServedStays(sources: Sources, none: Catalog, build: Sources -> Catalog, es: seq<Event>, k: nat)
    requires k <= |es| && (forall m :: k <= m < |es| ==> !es[m].Edit?)
    requires ReadCatalog(Run(Start(sources, none), build, es[..k]).p).Served?
    ensures ReadCatalog(Run(Start(sources, none), build, es).p) == ReadCatalog(Run(Start(sources, none), build, es[..k]).p)
    decreases |es|
  {
    hide Step, OneReady, Honest, ReadCatalog, Start;
    if k == |es| {
      assert es[..k] == es;
    } else {
      var init := es[..|es| - 1];
      assert init[..k] == es[..k];
      ServedStays(sources, none, build, init, k);
      RunGood(sources, none, build, init);
      StepServes(Run(Start(sources, none), build, init), build, es[|es| - 1]);
    }
  }

  /** No generation is lost or rewritten, and one that is superseded is not made ready again. */
  ghost predicate GenerationsKept(p: Pack, q: Pack) {
    && |p.generations| <= |q.generations|
    && forall i :: 0 <= i < |p.generations| ==>
      q.generations[i] == p.generations[i] || q.generations[i] == p.generations[i].(status := Superseded)
  }

  ghost predicate AllBuilt(p: Pack) {
    forall i :: 0 <= i < |p.generations| ==> p.generations[i].status != Building
  }

  lemma StepKeeps(w: World, build: Sources -> Catalog, e: Event)
    requires AllBuilt(w.p)
    ensures GenerationsKept(w.p, Step(w, build, e).p) && AllBuilt(Step(w, build, e).p)
  {
    hide Names;
  }

  /** Every generation that was ever published is kept as it was built. */
  lemma {:induction false} RunKeeps(sources: Sources, none: Catalog, build: Sources -> Catalog, es: seq<Event>, k: nat)
    requires k <= |es|
    ensures GenerationsKept(Run(Start(sources, none), build, es[..k]).p, Run(Start(sources, none), build, es).p)
    decreases |es|
  {
    hide Step;
    if k == |es| {
      assert es[..k] == es;
    } else {
      var init := es[..|es| - 1];
      assert init[..k] == es[..k];
      RunKeeps(sources, none, build, init, k);
      NoneBuilding(sources, none, build, init);
      StepKeeps(Run(Start(sources, none), build, init), build, es[|es| - 1]);
    }
  }

  lemma {:induction false} NoneBuilding(sources: Sources, none: Catalog, build: Sources -> Catalog, es: seq<Event>)
    ensures AllBuilt(Run(Start(sources, none), build, es).p)
  {
    hide Step;
    if es != [] {
      NoneBuilding(sources, none, build, es[..|es| - 1]);
      StepKeeps(Run(Start(sources, none), build, es[..|es| - 1]), build, es[|es| - 1]);
    }
  }
}
