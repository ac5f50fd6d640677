/** What makes a tag resolved, partial or invalid, and which diagnostics it carries. */
module TagStatus {
  import opened Walks
  import opened TagResolution
  import opened TagOrders
  import opened TagTheorems

  /** Nothing is on record against a tag that starts out resolved. */
  ghost predicate CleanNode(n: Node) {
    n.status == Resolved ==> n.diagnostics == []
  }

  ghost predicate StartsClean(g: Graph) {
    forall k :: k in g.nodes ==> CleanNode(g.nodes[k])
  }

  /** k requires m, however far, and m did not start out resolved. */
  ghost predicate Unresolved(g: Graph, k: Key, m: Key) {
    m in g.nodes && g.nodes[m].status != Resolved && Reaches(g.RequiredRefs(), k, m)
  }

  ghost predicate RequiresUnresolved(g: Graph, k: Key) {
    exists m :: Unresolved(g, k, m)
  }

  /** Entry j of k requires the tag id. */
  ghost predicate RequiresAt(g: Graph, k: Key, j: int, id: string) {
    RefersAt(g, k, j) && g.nodes[k].edges[j].required && g.nodes[k].edges[j].id == id
  }

  ghost predicate Requires(g: Graph, k: Key, id: string) {
    exists j :: RequiresAt(g, k, j, id)
  }

  lemma RequiresIsRef(g: Graph, k: Key, id: string)
    requires k in g.nodes
    ensures Requires(g, k, id) <==> (k, Key(k.registry, id)) in g.RequiredRefs()
  {
    if (k, Key(k.registry, id)) in g.RequiredRefs() {
      var j :| 0 <= j < |g.nodes[k].edges| && g.nodes[k].edges[j].tag && g.nodes[k].edges[j].required && g.nodes[k].edges[j].id == id;
      assert RequiresAt(g, k, j, id);
    }
  }

  lemma RequiredRefIs(g: Graph, k: Key, c: Key)
    requires (k, c) in g.RequiredRefs()
    ensures k in g.nodes && c == Key(k.registry, c.id) && Requires(g, k, c.id)
  {
    RequiresIsRef(g, k, c.id);
  }

  /** A tag is not resolved to begin with, or requires one that is not. */
  lemma UnresolvedSplit(g: Graph, k: Key)
    requires k in g.nodes
    ensures RequiresUnresolved(g, k) <==>
      g.nodes[k].status != Resolved || exists id :: Requires(g, k, id) && RequiresUnresolved(g, Key(k.registry, id))
  {
    hide Requires, Graph.RequiredRefs;
    var edges := g.RequiredRefs();
    ReachesRefl(edges, k);
    if g.nodes[k].status != Resolved { assert Unresolved(g, k, k); }
    if id :| Requires(g, k, id) && RequiresUnresolved(g, Key(k.registry, id)) {
      RequiresIsRef(g, k, id);
      var m :| Unresolved(g, Key(k.registry, id), m);
      ReachesSplit(edges, k, m);
      assert Unresolved(g, k, m);
    }
    if m :| Unresolved(g, k, m) {
      ReachesSplit(edges, k, m);
      if m != k {
        var c :| (k, c) in edges && Reaches(edges, c, m);
        assert Unresolved(g, c, m);
        RequiredRefIs(g, k, c);
      }
    }
  }

  // ----- what the entries of one tag come to -------------------------------------------------

  /** The entries of n, each with what its target amounts to. */
  ghost function Folded(n: Node, ts: seq<Outcome>): Outcome
    requires |ts| <= |n.edges|
  {
    if ts == [] then Outcome(n.status, n.diagnostics, {})
    else Apply(Folded(n, ts[..|ts| - 1]), n.edges[|ts| - 1], ts[|ts| - 1])
  }

  /** Entry j requires a tag that is not resolved. */
  ghost predicate BlamesFor(n: Node, ts: seq<Outcome>, j: int)
    requires |ts| <= |n.edges|
  {
    0 <= j < |ts| && n.edges[j].tag && n.edges[j].required && ts[j].status != Resolved
  }

  ghost predicate Blames(n: Node, ts: seq<Outcome>, id: string)
    requires |ts| <= |n.edges|
  {
    exists j :: BlamesFor(n, ts, j) && n.edges[j].id == id
  }

  ghost predicate Condemned(n: Node, ts: seq<Outcome>)
    requires |ts| <= |n.edges|
  {
    exists j :: BlamesFor(n, ts, j) && ts[j].status == Invalid
  }

  /** Invalid for an invalid target, or else partial for any that is not resolved. */
  ghost predicate Judged(n: Node, ts: seq<Outcome>, status: Status)
    requires |ts| <= |n.edges|
  {
    status ==
      if n.status == Invalid || Condemned(n, ts) then Invalid
      else if n.status == Resolved && exists id :: Blames(n, ts, id) then Partial
      else n.status
  }

  lemma BlamesNext(n: Node, ts: seq<Outcome>, id: string)
    requires 0 < |ts| <= |n.edges|
    ensures Blames(n, ts, id) <==> Blames(n, ts[..|ts| - 1], id) || (BlamesFor(n, ts, |ts| - 1) && n.edges[|ts| - 1].id == id)
    ensures Condemned(n, ts) <==> Condemned(n, ts[..|ts| - 1]) || (BlamesFor(n, ts, |ts| - 1) && ts[|ts| - 1].status == Invalid)
  {
    var init := ts[..|ts| - 1];
    forall j ensures BlamesFor(n, init, j) <==> BlamesFor(n, ts, j) && j < |init| {}
    if j :| BlamesFor(n, init, j) && n.edges[j].id == id { assert BlamesFor(n, ts, j); }
    if j :| BlamesFor(n, init, j) && init[j].status == Invalid { assert BlamesFor(n, ts, j); }
  }

  /** The diagnostics are those of the start and one for each target that is not resolved, none twice. */
  lemma {:induction false} FoldedDiagnostics(n: Node, ts: seq<Outcome>, d: Diagnostic)
    requires |ts| <= |n.edges|
    ensures d in Folded(n, ts).diagnostics <==>
      d in n.diagnostics || (d.UnresolvedReference? && Blames(n, ts, d.id))
    ensures Simple(n.diagnostics) ==> Simple(Folded(n, ts).diagnostics)
  {
    if ts != [] {
      FoldedDiagnostics(n, ts[..|ts| - 1], d);
      if d.UnresolvedReference? { BlamesNext(n, ts, d.id); }
    }
  }

  lemma {:induction false} FoldedStatus(n: Node, ts: seq<Outcome>)
    requires |ts| <= |n.edges| && CleanNode(n)
    ensures Judged(n, ts, Folded(n, ts).status)
  {
    if ts != [] {
      var init, e := ts[..|ts| - 1], n.edges[|ts| - 1];
      FoldedStatus(n, init);
      BlamesNext(n, ts, e.id);
      FoldedDiagnostics(n, init, UnresolvedReference(e.id));
      forall id ensures Blames(n, init, id) ==> Blames(n, ts, id) { BlamesNext(n, ts, id); }
      if id :| Blames(n, ts, id) { BlamesNext(n, ts, id); }
    }
  }

  // ----- off the cycles --------------------------------------------------------------------

  ghost predicate Means(g: Graph, k: Key, status: Status) {
    g.Closed() && k in g.nodes && !ReachesCycle(g.Refs(), k) && Meaning(g, k).status == status
  }

  /** What the first i entries of k lead to. */
  ghost function Leads(g: Graph, k: Key, i: nat): (ts: seq<Outcome>)
    requires g.Closed() && k in g.nodes && i <= |g.nodes[k].edges| && !ReachesCycle(g.Refs(), k)
    ensures |ts| == i
  {
    if i == 0 then []
    else
      var e := g.nodes[k].edges[i - 1];
      Leads(g, k, i - 1) + [if e.tag then (ChildShrinks(g, k, i - 1); Meaning(g, Child(k, e))) else Direct(g, k.registry, e)]
  }

  lemma {:induction false} TargetAt(g: Graph, k: Key, i: nat, j: nat)
    requires g.Closed() && k in g.nodes && j < i <= |g.nodes[k].edges| && !ReachesCycle(g.Refs(), k)
    requires g.nodes[k].edges[j].tag
    ensures Means(g, Child(k, g.nodes[k].edges[j]), Leads(g, k, i)[j].status)
  {
    ChildShrinks(g, k, j);
    if j < i - 1 { TargetAt(g, k, i - 1, j); }
  }

  lemma {:induction false} MeaningFolded(g: Graph, k: Key, i: nat)
    requires g.Closed() && k in g.nodes && i <= |g.nodes[k].edges| && !ReachesCycle(g.Refs(), k)
    ensures MeaningUpTo(g, k, i) == Folded(g.nodes[k], Leads(g, k, i))
  {
    if i > 0 {
      MeaningFolded(g, k, i - 1);
      assert Leads(g, k, i)[..i - 1] == Leads(g, k, i - 1);
    }
  }

  lemma LeadsBlamed(g: Graph, k: Key, id: string)
    requires g.Closed() && k in g.nodes && !ReachesCycle(g.Refs(), k)
    ensures Blames(g.nodes[k], Leads(g, k, |g.nodes[k].edges|), id) <==> Requires(g, k, id) && !Means(g, Key(k.registry, id), Resolved)
  {
    hide Means, Meaning, ReachesCycle, Graph.Refs;
    var n, ts := |g.nodes[k].edges|, Leads(g, k, |g.nodes[k].edges|);
    forall j | 0 <= j < n && RefersAt(g, k, j) ensures ts[j].status == Resolved <==> Means(g, Child(k, g.nodes[k].edges[j]), Resolved) {
      TargetAt(g, k, n, j);
      MeansOne(g, Child(k, g.nodes[k].edges[j]), ts[j].status, Resolved);
    }
    if j :| BlamesFor(g.nodes[k], ts, j) && g.nodes[k].edges[j].id == id { assert RefersAt(g, k, j) && RequiresAt(g, k, j, id); }
    if Requires(g, k, id) && !Means(g, Key(k.registry, id), Resolved) {
      var j :| RequiresAt(g, k, j, id);
      assert BlamesFor(g.nodes[k], ts, j);
    }
  }

  lemma MeansOne(g: Graph, k: Key, a: Status, b: Status)
    requires Means(g, k, a)
    ensures Means(g, k, b) <==> a == b
  {
  }

  /** Off the cycles, the diagnostics of a tag are those it starts with and one for each tag that it
      requires and that means anything but resolved. */
  lemma DiagnosticsMeaning(g: Graph, k: Key, d: Diagnostic)
    requires g.Closed() && k in g.nodes && !ReachesCycle(g.Refs(), k)
    ensures d in Meaning(g, k).diagnostics <==>
      || d in g.nodes[k].diagnostics
      || (d.UnresolvedReference? && Requires(g, k, d.id) && !Means(g, Key(k.registry, d.id), Resolved))
    ensures Simple(g.nodes[k].diagnostics) ==> Simple(Meaning(g, k).diagnostics)
  {
    hide Blames, Requires, Means, Folded;
    var n := |g.nodes[k].edges|;
    MeaningFolded(g, k, n);
    FoldedDiagnostics(g.nodes[k], Leads(g, k, n), d);
    if d.UnresolvedReference? { LeadsBlamed(g, k, d.id); }
  }

  lemma {:induction false} ResolvedUpwards(g: Graph, k: Key)
    requires g.Closed() && StartsClean(g) && k in g.nodes && !ReachesCycle(g.Refs(), k)
    ensures Means(g, k, Resolved) <==> !RequiresUnresolved(g, k)
    decreases Reachable(g.Refs(), k)
  {
    var n := |g.nodes[k].edges|;
    var ts := Leads(g, k, n);
    assert CleanNode(g.nodes[k]);
    MeaningFolded(g, k, n);
    FoldedStatus(g.nodes[k], ts);
    hide Folded, Leads, MeaningUpTo, StartsClean, Graph.Refs, ReachesCycle, Reachable, Graph.Closed;
    if Condemned(g.nodes[k], ts) {
      var j :| BlamesFor(g.nodes[k], ts, j) && ts[j].status == Invalid;
      assert Blames(g.nodes[k], ts, g.nodes[k].edges[j].id);
    }
    assert Means(g, k, Resolved) <==> g.nodes[k].status == Resolved && forall id :: !Blames(g.nodes[k], ts, id);
    hide Blames, Condemned, Meaning, RequiresUnresolved;
    UnresolvedSplit(g, k);
    forall id ensures Blames(g.nodes[k], ts, id) <==> Requires(g, k, id) && RequiresUnresolved(g, Key(k.registry, id)) {
      LeadsBlamed(g, k, id);
      if Requires(g, k, id) {
        RequiredShrinks(g, k, id);
        ResolvedUpwards(g, Key(k.registry, id));
      }
    }
  }

  lemma RequiredShrinks(g: Graph, k: Key, id: string)
    requires g.Closed() && Requires(g, k, id) && !ReachesCycle(g.Refs(), k)
    ensures var c := Key(k.registry, id);
      c in g.nodes && !ReachesCycle(g.Refs(), c) && Reachable(g.Refs(), c) < Reachable(g.Refs(), k)
  {
    var j :| RequiresAt(g, k, j, id);
    ChildShrinks(g, k, j);
  }

  /**
   * Off the cycles the status is settled by the starts of the tags that k requires, however far:
   * invalid for a malformed one, or else its own start, a resolved start becoming partial for one
   * that does not start out resolved.
   */
  lemma StatusMeaning(g: Graph, k: Key)
    requires g.Closed() && StartsClean(g) && k in g.nodes && !ReachesCycle(g.Refs(), k)
    ensures Meaning(g, k).status ==
      if exists m :: Malformed(g, k, m) then Invalid
      else if g.nodes[k].status == Resolved && RequiresUnresolved(g, k) then Partial
      else g.nodes[k].status
  {
    var n := |g.nodes[k].edges|;
    var ts := Leads(g, k, n);
    assert CleanNode(g.nodes[k]);
    MeaningFolded(g, k, n);
    FoldedStatus(g.nodes[k], ts);
    InvalidMeaning(g, k);
    ResolvedUpwards(g, k);
    ReachesRefl(g.RequiredRefs(), k);
    assert g.nodes[k].status == Invalid ==> Malformed(g, k, k);
    hide Folded, Leads, MeaningUpTo, StartsClean, Malformed, RequiresUnresolved, Blames, Condemned, ReachesCycle;
  }

  // ----- finished searches -----------------------------------------------------------------

  /** In a settled search, off the cycles: the status, and the diagnostics in terms of the statuses in it. */
  lemma SettledStatus(g: Graph, s: Search, k: Key)
    requires g.Closed() && Settled(g, s) && StartsClean(g) && k in g.nodes && !ReachesCycle(g.Refs(), k)
    ensures s.tags[k].status ==
      if exists m :: Malformed(g, k, m) then Invalid
      else if g.nodes[k].status == Resolved && RequiresUnresolved(g, k) then Partial
      else g.nodes[k].status
  {
    assert TagPrecise(g, s, k);
    StatusMeaning(g, k);
  }

  lemma SettledDiagnostics(g: Graph, s: Search, k: Key, d: Diagnostic)
    requires g.Closed() && Settled(g, s) && k in g.nodes && !ReachesCycle(g.Refs(), k)
    ensures d in s.tags[k].diagnostics <==>
      || d in g.nodes[k].diagnostics
      || (d.UnresolvedReference? && Requires(g, k, d.id)
          && Key(k.registry, d.id) in s.tags && s.tags[Key(k.registry, d.id)].status != Resolved)
  {
    assert TagPrecise(g, s, k);
    DiagnosticsMeaning(g, k, d);
    if d.UnresolvedReference? && Requires(g, k, d.id) {
      RequiredShrinks(g, k, d.id);
      assert TagPrecise(g, s, Key(k.registry, d.id));
    }
  }
}
