/**
 * On every graph, in every order and at any depth: a tag that requires, however far, a tag that does not
 * start out resolved does not end resolved; and it ends resolved unless there is such a reason, or a
 * required tag was caught on a cycle or too deep.
 */
module TagWary {
  import opened Walks
  import opened Ordering
  import opened TagResolution
  import opened TagOrders
  import opened TagOutcomes
  import opened TagStatus

  ghost predicate IsResolved(s: Search, k: Key) {
    k in s.tags && s.tags[k].status == Resolved
  }

  /** What was not resolved, caught, or coloured in s is so in t. */
  ghost predicate WorseAt(s: Search, t: Search, k: Key) {
    && (IsResolved(t, k) ==> IsResolved(s, k))
    && (Caught(s, k) ==> Caught(t, k))
    && (k in s.colour ==> k in t.colour && t.colour[k] == s.colour[k])
  }

  ghost predicate Worse(s: Search, t: Search) {
    forall k :: WorseAt(s, t, k)
  }

  lemma WorseTrans(s: Search, t: Search, u: Search)
    requires Worse(s, t) && Worse(t, u)
    ensures Worse(s, u)
  {
    forall k ensures WorseAt(s, u, k) {
      assert WorseAt(s, t, k) && WorseAt(t, u, k);
    }
  }

  /** m is why k is not resolved: k requires it, however far, and it did not start out resolved or was caught. */
  ghost predicate Culprit(g: Graph, s: Search, k: Key, m: Key) {
    m in g.nodes && Reaches(g.RequiredRefs(), k, m) && (g.nodes[m].status != Resolved || Caught(s, m))
  }

  ghost predicate HasCulprit(g: Graph, s: Search, k: Key) {
    exists m :: Culprit(g, s, k, m)
  }

  /** A status stays what it is at the start, or a resolved one becomes partial, or it becomes invalid. */
  predicate StatusFrom(start: Status, status: Status) {
    status == Invalid || status == start || (start == Resolved && status == Partial)
  }

  ghost predicate WaryTag(g: Graph, s: Search, k: Key)
    requires k in g.nodes && k in s.tags
  {
    && StatusFrom(g.nodes[k].status, s.tags[k].status)
    && (s.tags[k].status == Resolved ==> s.tags[k].diagnostics == [])
    && (s.Black(k) && RequiresUnresolved(g, k) ==> s.tags[k].status != Resolved)
    && (s.tags[k].status != Resolved ==> HasCulprit(g, s, k))
  }

  ghost predicate Wary(g: Graph, s: Search) {
    g.Closed() && s.Over(g) && forall k :: k in g.nodes ==> WaryTag(g, s, k)
  }

  /** Those of the first i entries of key that lead to a tag not resolved to begin with have been heeded. */
  ghost predicate WarnedUpTo(g: Graph, s: Search, key: Key, i: int) {
    forall j, id :: j < i && RequiresAt(g, key, j, id) && RequiresUnresolved(g, Key(key.registry, id)) ==> !IsResolved(s, key)
  }

  ghost predicate CaughtStay(s: Search, t: Search) {
    forall m :: Caught(s, m) ==> Caught(t, m)
  }

  lemma CulpritLater(g: Graph, s: Search, t: Search, k: Key)
    requires HasCulprit(g, s, k) && CaughtStay(s, t)
    ensures HasCulprit(g, t, k)
  {
    hide Reaches, Graph.RequiredRefs;
    var m :| Culprit(g, s, k, m);
    assert Culprit(g, t, k, m);
  }

  /** A step that touches one tag is judged by that tag. */
  lemma StepWary(g: Graph, s: Search, t: Search, key: Key)
    requires Wary(g, s) && t.Over(g) && key in g.nodes && WaryTag(g, t, key) && CaughtStay(s, t)
    requires forall k :: k in g.nodes && k != key ==> t.tags[k] == s.tags[k] && (s.Black(k) <==> t.Black(k))
    ensures Wary(g, t)
  {
    hide RequiresUnresolved, HasCulprit, CaughtStay;
    forall k | k in g.nodes ensures WaryTag(g, t, k) {
      if k != key {
        assert WaryTag(g, s, k);
        if HasCulprit(g, s, k) { CulpritLater(g, s, t, k); }
      }
    }
  }

  /** Changing one tag for the worse. */
  lemma RetaggedWorse(g: Graph, s: Search, key: Key, t: Tag)
    requires s.Over(g) && key in g.nodes
    requires t.status == Resolved ==> s.tags[key].status == Resolved
    requires CycleOrTooDeep in s.tags[key].diagnostics ==> CycleOrTooDeep in t.diagnostics
    ensures var u := s.Retagged(key, t); u.Over(g) && Worse(s, u) && CaughtStay(s, u)
  {
    var u := s.Retagged(key, t);
    forall k ensures WorseAt(s, u, k) {}
    assert forall m :: Caught(s, m) ==> WorseAt(s, u, m);
  }

  lemma FlaggedWaryTag(g: Graph, s: Search, key: Key)
    requires Wary(g, s) && key in g.nodes
    ensures WaryTag(g, s.Retagged(key, Flagged(s.tags[key])), key)
  {
    hide RequiresUnresolved, Reaches, Graph.RequiredRefs;
    var t := s.Retagged(key, Flagged(s.tags[key]));
    ReachesRefl(g.RequiredRefs(), key);
    assert Culprit(g, t, key, key);
    assert WaryTag(g, s, key);
  }

  lemma FlaggedWary(g: Graph, s: Search, key: Key)
    requires Wary(g, s) && key in g.nodes
    ensures var t := s.Retagged(key, Flagged(s.tags[key])); Wary(g, t) && Worse(s, t) && !IsResolved(t, key)
  {
    FlaggedWaryTag(g, s, key);
    RetaggedWorse(g, s, key, Flagged(s.tags[key]));
    hide WaryTag, CaughtStay, Worse;
    StepWary(g, s, s.Retagged(key, Flagged(s.tags[key])), key);
  }

  lemma GreyedWary(g: Graph, s: Search, key: Key)
    requires Wary(g, s) && key in g.nodes && s.White(key)
    ensures var t := s.Coloured(key, Colour.Grey); Wary(g, t) && Worse(s, t)
  {
    hide RequiresUnresolved, HasCulprit;
    var t := s.Coloured(key, Colour.Grey);
    assert WaryTag(g, s, key);
    if HasCulprit(g, s, key) { CulpritLater(g, s, t, key); }
    StepWary(g, s, t, key);
  }

  lemma WarnedAll(g: Graph, s: Search, key: Key)
    requires g.Closed() && key in g.nodes && WarnedUpTo(g, s, key, |g.nodes[key].edges|) && RequiresUnresolved(g, key)
    ensures g.nodes[key].status != Resolved || !IsResolved(s, key)
  {
    UnresolvedSplit(g, key);
    hide RequiresUnresolved, IsResolved;
    if id :| Requires(g, key, id) && RequiresUnresolved(g, Key(key.registry, id)) {
      var j :| RequiresAt(g, key, j, id);
    }
  }

  lemma FinishedWorse(g: Graph, s: Search, key: Key, r: (Search, set<string>))
    requires s.White(key) && key in r.0.tags && Worse(s.Coloured(key, Colour.Grey), r.0)
    ensures Worse(s, Finished(key, r).0)
  {
    forall k ensures WorseAt(s, Finished(key, r).0, k) {
      assert WorseAt(s.Coloured(key, Colour.Grey), r.0, k);
    }
  }

  lemma FinishedWaryTag(g: Graph, key: Key, r: (Search, set<string>))
    requires Wary(g, r.0) && key in g.nodes && WarnedUpTo(g, r.0, key, |g.nodes[key].edges|)
    ensures Finished(key, r).0.Over(g) && WaryTag(g, Finished(key, r).0, key)
  {
    assert WaryTag(g, r.0, key);
    if RequiresUnresolved(g, key) { WarnedAll(g, r.0, key); }
    hide RequiresUnresolved, HasCulprit, WarnedUpTo;
    if HasCulprit(g, r.0, key) { CulpritLater(g, r.0, Finished(key, r).0, key); }
  }

  /** A tag all of whose entries have been heeded can be finished. */
  lemma FinishedWary(g: Graph, key: Key, r: (Search, set<string>))
    requires Wary(g, r.0) && key in g.nodes && r.0.Grey(key) && WarnedUpTo(g, r.0, key, |g.nodes[key].edges|)
    ensures var t := Finished(key, r).0; Wary(g, t) && t.Black(key)
  {
    FinishedWaryTag(g, key, r);
    hide WaryTag, WarnedUpTo;
    StepWary(g, r.0, Finished(key, r).0, key);
  }

  /** What a visit of c leaves: finished, or not resolved. */
  ghost predicate Left(s: Search, c: Key) {
    s.Black(c) || !IsResolved(s, c)
  }

  lemma BlamedWary(g: Graph, v: Search, key: Key, i: nat)
    requires Wary(g, v) && RefersAt(g, key, i) && v.Grey(key) && Left(v, Child(key, g.nodes[key].edges[i]))
    ensures var e := g.nodes[key].edges[i]; var u := Blamed(v, key, e);
      && Wary(g, u) && Worse(v, u) && u.Grey(key)
      && (e.required && RequiresUnresolved(g, Child(key, e)) ==> !IsResolved(u, key))
  {
    hide RequiresUnresolved, HasCulprit, Culprit;
    var e := g.nodes[key].edges[i];
    var c, u := Child(key, e), Blamed(v, key, e);
    assert WaryTag(g, v, key) && WaryTag(g, v, c);
    RetaggedWorse(g, v, key, Blame(v.tags[key], e, v.tags[c].status));
    hide CaughtStay, Worse;
    if HasCulprit(g, v, key) {
      CulpritLater(g, v, u, key);
    } else if e.required && HasCulprit(g, v, c) {
      CulpritAbove(g, v, key, i);
      CulpritLater(g, v, u, key);
    }
    StepWary(g, v, u, key);
  }

  lemma CulpritAbove(g: Graph, v: Search, key: Key, i: nat)
    requires RefersAt(g, key, i) && g.nodes[key].edges[i].required && HasCulprit(g, v, Child(key, g.nodes[key].edges[i]))
    ensures HasCulprit(g, v, key)
  {
    var c := Child(key, g.nodes[key].edges[i]);
    var m :| Culprit(g, v, c, m);
    assert (key, c) in g.RequiredRefs();
    ReachesStep(g.RequiredRefs(), key, c);
    ReachesTrans(g.RequiredRefs(), key, c, m);
    assert Culprit(g, v, key, m);
  }

  lemma WarnedLater(g: Graph, s: Search, t: Search, key: Key, i: nat)
    requires WarnedUpTo(g, s, key, i) && Worse(s, t)
    ensures WarnedUpTo(g, t, key, i)
  {
    assert WorseAt(s, t, key);
  }

  lemma {:induction false} VisitedWary(g: Graph, s: Search, key: Key, depth: nat)
    requires Wary(g, s) && key in g.nodes
    ensures var t := Visited(g, s, key, depth).0; Wary(g, t) && Worse(s, t) && Left(t, key)
    decreases g.nodes.Keys - s.colour.Keys, 0, 0
  {
    hide WaryTag, Worse, EntriesVisited;
    if s.Grey(key) || depth > MAX_DEPTH {
      FlaggedWary(g, s, key);
    } else if s.Black(key) {
      assert Worse(s, s) by { WorseRefl(s); }
    } else {
      var s1, n := s.Coloured(key, Colour.Grey), |g.nodes[key].edges|;
      GreyedWary(g, s, key);
      assert key in g.nodes.Keys - s.colour.Keys;
      EntriesWary(g, s1, key, depth, n);
      FinishedWary(g, key, EntriesVisited(g, s1, key, depth, n));
      FinishedWorse(g, s, key, EntriesVisited(g, s1, key, depth, n));
    }
  }

  lemma WorseRefl(s: Search)
    ensures Worse(s, s)
  {
    forall k ensures WorseAt(s, s, k) {}
  }

  lemma {:induction false} EntriesWary(g: Graph, s: Search, key: Key, depth: nat, i: nat)
    requires Wary(g, s) && key in g.nodes && s.Grey(key) && i <= |g.nodes[key].edges|
    ensures var t := EntriesVisited(g, s, key, depth, i).0;
      Wary(g, t) && Worse(s, t) && t.Grey(key) && WarnedUpTo(g, t, key, i)
    decreases g.nodes.Keys - s.colour.Keys, 1, i
  {
    hide WaryTag, Worse, Visited, RequiresUnresolved;
    if i == 0 {
      WorseRefl(s);
    } else {
      EntriesWary(g, s, key, depth, i - 1);
      var r, e := EntriesVisited(g, s, key, depth, i - 1).0, g.nodes[key].edges[i - 1];
      if e.tag {
        VisitedWary(g, r, Child(key, e), depth + 1);
        var v := Visited(g, r, Child(key, e), depth + 1).0;
        StaysGrey(r, v, key);
        BlamedWary(g, v, key, i - 1);
        var u := Blamed(v, key, e);
        WorseTrans(s, r, v);
        WorseTrans(s, v, u);
        WorseTrans(r, v, u);
        WarnedLater(g, r, u, key, i - 1);
      }
    }
  }

  lemma StaysGrey(s: Search, t: Search, key: Key)
    requires Worse(s, t) && s.Grey(key)
    ensures t.Grey(key)
  {
    assert WorseAt(s, t, key);
  }

  // ----- whole runs ------------------------------------------------------------------------

  lemma {:induction false} AllVisitedWary(g: Graph, order: seq<Key>)
    requires g.Closed() && StartsClean(g) && forall k :: k in order ==> k in g.nodes
    ensures Wary(g, AllVisited(g, order))
  {
    if order == [] {
      var s := Start(g);
      forall k | k in g.nodes ensures WaryTag(g, s, k) {
        assert CleanNode(g.nodes[k]);
        ReachesRefl(g.RequiredRefs(), k);
        if g.nodes[k].status != Resolved { assert Culprit(g, s, k, k); }
      }
    } else {
      AllVisitedWary(g, order[..|order| - 1]);
      VisitedWary(g, AllVisited(g, order[..|order| - 1]), Last(order), 0);
    }
  }

  /** A tag that requires, however far, one that does not start out resolved never ends resolved. */
  lemma RequiringIsUnresolved(g: Graph, order: seq<Key>, k: Key)
    requires g.Closed() && StartsClean(g) && Elements(order) == g.nodes.Keys && k in g.nodes && RequiresUnresolved(g, k)
    ensures AllVisited(g, order).tags[k].status != Resolved
  {
    ListedIff(g, order);
    AllVisitedWary(g, order);
    AllVisitedDone(g, order);
    assert WaryTag(g, AllVisited(g, order), k);
  }

  /** ... and a tag that does not end resolved requires such a tag, or one that was caught on a cycle or
      too deep. */
  lemma UnresolvedHasCulprit(g: Graph, order: seq<Key>, k: Key)
    requires g.Closed() && StartsClean(g) && Elements(order) == g.nodes.Keys && k in g.nodes
    ensures AllVisited(g, order).tags[k].status != Resolved ==> HasCulprit(g, AllVisited(g, order), k)
  {
    ListedIff(g, order);
    AllVisitedWary(g, order);
    assert WaryTag(g, AllVisited(g, order), k);
  }

  /** Short of invalid, only a resolved tag changes its status, and it becomes partial. */
  lemma StatusFromStart(g: Graph, order: seq<Key>, k: Key)
    requires g.Closed() && StartsClean(g) && Elements(order) == g.nodes.Keys && k in g.nodes
    ensures StatusFrom(g.nodes[k].status, AllVisited(g, order).tags[k].status)
  {
    ListedIff(g, order);
    AllVisitedWary(g, order);
    assert WaryTag(g, AllVisited(g, order), k);
  }

  /** While the cap is out of reach these are exactly the reasons, on the cycles and off them. */
  lemma ResolvedIff(g: Graph, order: seq<Key>, k: Key)
    requires g.Closed() && g.Shallow() && StartsClean(g) && NoneCaught(g) && Elements(order) == g.nodes.Keys && k in g.nodes
    ensures AllVisited(g, order).tags[k].status == Resolved <==> !HasCulprit(g, AllVisited(g, order), k)
  {
    var s := AllVisited(g, order);
    ListedIff(g, order);
    UnresolvedHasCulprit(g, order, k);
    if m :| Culprit(g, s, k, m) {
      if g.nodes[m].status != Resolved {
        assert Unresolved(g, k, m);
        RequiringIsUnresolved(g, order, k);
      } else {
        AllVisitedFit(g, order);
        AllVisitedDone(g, order);
        assert Caused(g, s, m);
        RequiringSpoilt(g, s, k, m);
      }
    }
  }
}
