/** How the outcome of tag resolution depends on the order of visits, while the cap is out of reach. */
module TagOrders {
  import opened Walks
  import opened Ordering
  import opened TagResolution
  import opened TagCycles

  ghost function Child(k: Key, e: Edge): Key { Key(k.registry, e.id) }

  /** Entry j of k is a reference. */
  ghost predicate RefersAt(g: Graph, k: Key, j: int) {
    k in g.nodes && 0 <= j < |g.nodes[k].edges| && g.nodes[k].edges[j].tag
  }

  /** k was met again while it was being resolved. */
  ghost predicate Caught(s: Search, k: Key) {
    k in s.tags && CycleOrTooDeep in s.tags[k].diagnostics
  }

  // ----- what a finished tag owes to the tags it refers to ----------------------------------

  ghost function Found(s: Search, c: Key): Outcome
    requires c in s.tags
  {
    Outcome(s.tags[c].status, s.tags[c].diagnostics, Elements(s.tags[c].members))
  }

  /** The first i entries of k, each reference replaced by what the tag it names holds in s. */
  ghost function LocalUpTo(g: Graph, s: Search, k: Key, i: nat): Outcome
    requires g.Closed() && s.Over(g) && k in g.nodes && i <= |g.nodes[k].edges|
  {
    if i == 0 then Outcome(g.nodes[k].status, g.nodes[k].diagnostics, {})
    else
      var e := g.nodes[k].edges[i - 1];
      Apply(LocalUpTo(g, s, k, i - 1), e, if e.tag then Found(s, Child(k, e)) else Direct(g, k.registry, e))
  }

  ghost function Local(g: Graph, s: Search, k: Key): Outcome
    requires g.Closed() && s.Over(g) && k in g.nodes
  {
    var all := LocalUpTo(g, s, k, |g.nodes[k].edges|);
    if all.status.Invalid? then all.(members := {}) else all
  }

  /** Reference j of k has been followed. */
  ghost predicate Heeded(g: Graph, s: Search, k: Key, j: int)
    requires RefersAt(g, k, j)
  {
    var c := Child(k, g.nodes[k].edges[j]);
    && !s.White(c) && (s.Black(c) || Spoilt(s, c))
    && (g.nodes[k].edges[j].required && Spoilt(s, c) ==> Spoilt(s, k))
    && (!Circular(g.Refs(), k) ==> s.Black(c))
  }

  ghost predicate HeededUpTo(g: Graph, s: Search, k: Key, i: int) {
    forall j :: 0 <= j < i && RefersAt(g, k, j) ==> Heeded(g, s, k, j)
  }

  ghost predicate FairUpTo(g: Graph, s: Search, k: Key, i: nat, result: set<string>) {
    && g.Closed() && s.Over(g) && k in g.nodes && i <= |g.nodes[k].edges| && HeededUpTo(g, s, k, i)
    && (!Circular(g.Refs(), k) ==>
      LocalUpTo(g, s, k, i) == Outcome(s.tags[k].status, s.tags[k].diagnostics, result))
  }

  /** A finished tag has heeded all its references; off the cycles it holds what they amount to. */
  ghost predicate FairTag(g: Graph, s: Search, k: Key)
    requires g.Closed() && s.Over(g) && k in g.nodes
  {
    s.Black(k) ==>
      && HeededUpTo(g, s, k, |g.nodes[k].edges|)
      && (!Circular(g.Refs(), k) ==> Realizes(s.tags[k], Local(g, s, k)))
  }

  /** m is a reason for k to be invalid: k requires it, however far, and it is malformed or was caught. */
  ghost predicate Reason(g: Graph, s: Search, k: Key, m: Key) {
    && m in g.nodes && Reaches(g.RequiredRefs(), k, m)
    && (g.nodes[m].status == Invalid || (Caught(s, m) && Circular(g.Refs(), m)))
  }

  ghost predicate HasReason(g: Graph, s: Search, k: Key) {
    exists m :: Reason(g, s, k, m)
  }

  /** Why k is invalid, and what being caught says. */
  ghost predicate Caused(g: Graph, s: Search, k: Key)
    requires k in g.nodes
  {
    && (Spoilt(s, k) ==> HasReason(g, s, k))
    && (Caught(s, k) ==> CycleOrTooDeep in g.nodes[k].diagnostics || (Spoilt(s, k) && Circular(g.Refs(), k)))
  }

  ghost predicate Fair(g: Graph, s: Search) {
    g.Closed() && s.Over(g) && forall k :: k in g.nodes ==> FairTag(g, s, k) && Caused(g, s, k)
  }

  // ----- moving on -------------------------------------------------------------------------

  /** Finished tags stay as they are, colours are not taken back, and invalid stays invalid. */
  ghost predicate LaterAt(s: Search, t: Search, k: Key) {
    && (s.Black(k) && k in s.tags ==> t.Black(k) && k in t.tags && t.tags[k] == s.tags[k])
    && (!s.White(k) ==> !t.White(k))
    && (Spoilt(s, k) ==> Spoilt(t, k))
  }

  ghost predicate Later(s: Search, t: Search) {
    forall k :: LaterAt(s, t, k)
  }

  lemma LaterRefl(s: Search)
    ensures Later(s, s)
  {
    forall k ensures LaterAt(s, s, k) {}
  }

  lemma LaterTrans(s: Search, t: Search, u: Search)
    requires Later(s, t) && Later(t, u)
    ensures Later(s, u)
  {
    forall k ensures LaterAt(s, u, k) {
      assert LaterAt(s, t, k) && LaterAt(t, u, k);
    }
  }

  lemma AnswersLater(g: Graph, s: Search, key: Key, r: (Search, set<string>))
    requires g.Shallow() && Precise(g, s) && Answers(g, s, key, r)
    ensures Later(s, r.0)
  {
    hide Precise, Valid;
    assert s.Over(g) && r.0.Over(g);
    forall k ensures LaterAt(s, r.0, k) {
      assert ColourKept(s, r.0, k);
      if k in g.nodes { assert TagKept(g, s, r.0, k); }
    }
  }

  lemma HeededLater(g: Graph, s: Search, t: Search, k: Key, i: int)
    requires Later(s, t) && HeededUpTo(g, s, k, i) && s.Over(g) && g.Closed()
    ensures HeededUpTo(g, t, k, i)
  {
    forall j | 0 <= j < i && RefersAt(g, k, j) ensures Heeded(g, t, k, j) {
      assert Heeded(g, s, k, j);
      var c := Child(k, g.nodes[k].edges[j]);
      assert c in g.nodes && LaterAt(s, t, c) && LaterAt(s, t, k);
    }
  }

  /** Off the cycles, what the entries of k amount to is settled once they have been followed. */
  lemma {:induction false} LocalLater(g: Graph, s: Search, t: Search, k: Key, i: nat)
    requires g.Closed() && s.Over(g) && t.Over(g) && k in g.nodes && i <= |g.nodes[k].edges|
    requires Later(s, t) && HeededUpTo(g, s, k, i) && !Circular(g.Refs(), k)
    ensures LocalUpTo(g, t, k, i) == LocalUpTo(g, s, k, i)
  {
    if i > 0 {
      LocalLater(g, s, t, k, i - 1);
      if g.nodes[k].edges[i - 1].tag {
        assert RefersAt(g, k, i - 1) && Heeded(g, s, k, i - 1);
        assert LaterAt(s, t, Child(k, g.nodes[k].edges[i - 1]));
      }
    }
  }

  lemma FairTagLater(g: Graph, s: Search, t: Search, k: Key)
    requires g.Closed() && s.Over(g) && t.Over(g) && k in g.nodes && s.Black(k) && FairTag(g, s, k) && Later(s, t)
    ensures FairTag(g, t, k)
  {
    HeededLater(g, s, t, k, |g.nodes[k].edges|);
    if !Circular(g.Refs(), k) { LocalLater(g, s, t, k, |g.nodes[k].edges|); }
    assert LaterAt(s, t, k);
  }

  lemma ReasonLater(g: Graph, s: Search, t: Search, k: Key)
    requires HasReason(g, s, k) && forall m :: Caught(s, m) ==> Caught(t, m)
    ensures HasReason(g, t, k)
  {
    var m :| Reason(g, s, k, m);
    assert Reason(g, t, k, m);
  }

  /** A step that touches one tag, which is not finished before it, is judged by that tag. */
  lemma StepFair(g: Graph, s: Search, t: Search, key: Key)
    requires Fair(g, s) && t.Over(g) && key in g.nodes && Later(s, t)
    requires forall k :: k in g.nodes && k != key ==> t.tags[k] == s.tags[k] && (s.Black(k) <==> t.Black(k))
    requires FairTag(g, t, key) && Caused(g, t, key) && (Caught(s, key) ==> Caught(t, key))
    ensures Fair(g, t)
  {
    assert forall m :: Caught(s, m) ==> Caught(t, m);
    forall k | k in g.nodes ensures FairTag(g, t, k) && Caused(g, t, k) {
      if k != key {
        assert Caused(g, s, k) && FairTag(g, s, k);
        if Spoilt(s, k) { ReasonLater(g, s, t, k); }
        if s.Black(k) { FairTagLater(g, s, t, k); }
      }
    }
  }

  lemma FlaggedFair(g: Graph, s: Search, key: Key)
    requires Fair(g, s) && key in g.nodes && s.Grey(key) && Circular(g.Refs(), key)
    ensures var t := s.Retagged(key, Flagged(s.tags[key])); Fair(g, t) && Later(s, t) && Spoilt(t, key)
  {
    var t := s.Retagged(key, Flagged(s.tags[key]));
    forall k ensures LaterAt(s, t, k) {}
    ReachesRefl(g.RequiredRefs(), key);
    assert Reason(g, t, key, key);
    StepFair(g, s, t, key);
  }

  lemma GreyedFair(g: Graph, s: Search, key: Key)
    requires Fair(g, s) && Precise(g, s) && key in g.nodes && s.White(key)
    ensures var t := s.Coloured(key, Colour.Grey); Fair(g, t) && Later(s, t) && FairUpTo(g, t, key, 0, {})
  {
    var t := s.Coloured(key, Colour.Grey);
    forall k ensures LaterAt(s, t, k) {}
    assert TagPrecise(g, s, key);
    assert Caused(g, s, key);
    if Spoilt(s, key) { ReasonLater(g, s, t, key); }
    StepFair(g, s, t, key);
  }

  lemma FinishedFair(g: Graph, key: Key, r: (Search, set<string>))
    requires Fair(g, r.0) && key in g.nodes && r.0.Grey(key) && FairUpTo(g, r.0, key, |g.nodes[key].edges|, r.1)
    ensures var t := Finished(key, r).0; Fair(g, t) && Later(r.0, t)
  {
    var t, n := Finished(key, r).0, |g.nodes[key].edges|;
    forall k ensures LaterAt(r.0, t, k) {}
    HeededLater(g, r.0, t, key, n);
    if !Circular(g.Refs(), key) { LocalLater(g, r.0, t, key, n); }
    assert Caused(g, r.0, key) && (Caught(t, key) <==> Caught(r.0, key));
    if Spoilt(r.0, key) { ReasonLater(g, r.0, t, key); }
    StepFair(g, r.0, t, key);
  }

  /** v is what visiting the tag of entry i has led to. */
  ghost predicate ChildVisited(g: Graph, s: Search, key: Key, c: Key, v: (Search, set<string>)) {
    && s.Over(g) && v.0.Over(g) && key in g.nodes && c in g.nodes
    && Fair(g, v.0) && Later(s, v.0) && v.0.Grey(key)
    && !v.0.White(c) && (v.0.Black(c) || Spoilt(v.0, c))
    && (!Circular(g.Refs(), key) ==>
      v.0.tags[key] == s.tags[key] && v.0.Black(c) && v.1 == Elements(v.0.tags[c].members))
  }

  lemma BlamedCaused(g: Graph, v: Search, key: Key, i: nat)
    requires g.Closed() && Fair(g, v) && v.Grey(key) && RefersAt(g, key, i)
    ensures var u := Blamed(v, key, g.nodes[key].edges[i]); Later(v, u) && Caused(g, u, key) && (Caught(v, key) ==> Caught(u, key))
  {
    var e := g.nodes[key].edges[i];
    var u := Blamed(v, key, e);
    forall k ensures LaterAt(v, u, k) {}
    var c := Child(key, e);
    assert forall m :: Caught(u, m) <==> Caught(v, m);
    assert Caused(g, v, key) && Caused(g, v, c);
    if Spoilt(v, key) {
      ReasonLater(g, v, u, key);
    } else if Spoilt(u, key) {
      var m :| Reason(g, v, c, m);
      assert (key, c) in g.RequiredRefs();
      ReachesStep(g.RequiredRefs(), key, c);
      ReachesTrans(g.RequiredRefs(), key, c, m);
      assert Reason(g, u, key, m);
    }
  }

  lemma BlamedFair(g: Graph, key: Key, i: nat, r: (Search, set<string>), v: (Search, set<string>))
    requires RefersAt(g, key, i) && FairUpTo(g, r.0, key, i, r.1)
    requires ChildVisited(g, r.0, key, Child(key, g.nodes[key].edges[i]), v)
    ensures var e := g.nodes[key].edges[i]; var u := Blamed(v.0, key, e);
      Fair(g, u) && Later(r.0, u) && FairUpTo(g, u, key, i + 1, Merge(r.1, e, v.1))
  {
    var e := g.nodes[key].edges[i];
    var u := Blamed(v.0, key, e);
    BlamedCaused(g, v.0, key, i);
    StepFair(g, v.0, u, key);
    LaterTrans(r.0, v.0, u);
    HeededLater(g, r.0, u, key, i);
    assert Heeded(g, u, key, i);
    if !Circular(g.Refs(), key) { LocalLater(g, r.0, u, key, i); }
  }

  ghost predicate Fit(g: Graph, s: Search) {
    g.Closed() && g.Shallow() && Valid(g, s) && Precise(g, s) && Fair(g, s)
  }

  /** The outcome of a call: a tag being resolved is caught, any other one is finished. */
  ghost predicate Met(g: Graph, s: Search, key: Key, v: (Search, set<string>)) {
    && Fit(g, s) && Fit(g, v.0) && Answers(g, s, key, v) && Later(s, v.0) && key in g.nodes
    && (s.Grey(key) ==> v.0.Grey(key) && Spoilt(v.0, key))
    && (!s.Grey(key) ==> v.0.Black(key) && v.1 == Elements(v.0.tags[key].members))
  }

  /** A reference to a tag being resolved closes a cycle; every other one is finished by the visit. */
  lemma ChildIsVisited(g: Graph, s: Search, path: seq<Key>, key: Key, i: nat, v: (Search, set<string>))
    requires g.Closed() && RefersAt(g, key, i) && OnPath(g, s, path + [key], Child(key, g.nodes[key].edges[i]))
    requires Met(g, s, Child(key, g.nodes[key].edges[i]), v)
    ensures ChildVisited(g, s, key, Child(key, g.nodes[key].edges[i]), v)
  {
    hide Precise, Graph.Shallow, Fair, Later, Valid, Graph.Closed, Reaches, Circular;
    var c := Child(key, g.nodes[key].edges[i]);
    assert key in path + [key];
    assert ColourKept(s, v.0, key) && TagKept(g, s, v.0, key);
    assert (key, c) in g.Refs();
    if s.Grey(c) {
      PathClosesCycle(g.Refs(), path + [key], c);
      EdgeCircular(g.Refs(), key, c);
    }
  }

  lemma DirectFair(g: Graph, key: Key, i: nat, r: (Search, set<string>))
    requires key in g.nodes && i < |g.nodes[key].edges| && !g.nodes[key].edges[i].tag && FairUpTo(g, r.0, key, i, r.1)
    ensures var e := g.nodes[key].edges[i];
      FairUpTo(g, r.0, key, i + 1, Merge(r.1, e, Direct(g, key.registry, e).members))
  {
  }

  // ----- every call ------------------------------------------------------------------------

  lemma CaughtMet(g: Graph, s: Search, path: seq<Key>, key: Key)
    requires Fit(g, s) && OnPath(g, s, path, key) && s.Grey(key)
    ensures Met(g, s, key, (s.Retagged(key, Flagged(s.tags[key])), {}))
  {
    var v: (Search, set<string>) := (s.Retagged(key, Flagged(s.tags[key])), {});
    GuardAnswers(g, s, path, key);
    PathClosesCycle(g.Refs(), path, key);
    FlaggedFair(g, s, key);
    assert v.0.Grey(key);
  }

  lemma MemoMet(g: Graph, s: Search, key: Key)
    requires Fit(g, s) && key in g.nodes && s.Black(key)
    ensures Met(g, s, key, (s, Elements(s.tags[key].members)))
  {
    MemoAnswers(g, s, key);
    LaterRefl(s);
  }

  /** A tag that is not on the path is met within the cap. */
  lemma WithinCap(g: Graph, s: Search, path: seq<Key>, key: Key)
    requires g.Shallow() && OnPath(g, s, path, key) && !s.Grey(key)
    ensures |path| <= MAX_DEPTH
  {
    assert Simple(path + [key]);
  }

  lemma {:induction false} VisitedFair(g: Graph, s: Search, path: seq<Key>, key: Key)
    requires Fit(g, s) && OnPath(g, s, path, key)
    ensures Met(g, s, key, Visited(g, s, key, |path|))
    decreases g.nodes.Keys - s.colour.Keys, 0, 0
  {
    hide Met, Fair, Precise, Graph.Shallow, Underway, AnswersUpTo, Answers, Opened, FairUpTo, EntriesVisited;
    if s.Grey(key) {
      CaughtMet(g, s, path, key);
    } else {
      WithinCap(g, s, path, key);
      if s.Black(key) {
        MemoMet(g, s, key);
      } else {
        var s1, n := s.Coloured(key, Colour.Grey), |g.nodes[key].edges|;
        VisitedAnswers(g, s, path, key);
        OpenAnswers(g, s, path, key);
        GreyedFair(g, s, key);
        assert key in g.nodes.Keys - s.colour.Keys;
        EntriesFair(g, s, s1, path, key, n);
        FinishedMet(g, s, path, key, EntriesVisited(g, s1, key, |path|, n));
      }
    }
  }

  lemma FinishedMet(g: Graph, s: Search, path: seq<Key>, key: Key, r: (Search, set<string>))
    requires Fit(g, s) && key in g.nodes && s.White(key)
    requires Underway(g, s.Coloured(key, Colour.Grey), key, |g.nodes[key].edges|, r) && r.0.Over(g)
    requires Answers(g, s, key, Finished(key, r))
    ensures Met(g, s, key, Finished(key, r))
  {
    hide Precise, Valid, Graph.Shallow, Graph.Closed, FairUpTo, Fair;
    assert key in r.0.tags;
    FinishedFair(g, key, r);
    AnswersLater(g, s, key, Finished(key, r));
  }

  /** The first i entries of the grey tag key have been followed. */
  ghost predicate Underway(g: Graph, s1: Search, key: Key, i: nat, r: (Search, set<string>)) {
    Fit(g, r.0) && Later(s1, r.0) && r.0.Grey(key) && FairUpTo(g, r.0, key, i, r.1)
  }

  lemma UnderwayAnswers(g: Graph, s: Search, s1: Search, key: Key, i: nat, r: (Search, set<string>))
    requires g.Closed() && g.Shallow() && Precise(g, s) && s1.Grey(key) && AnswersUpTo(g, s, s1, key, i, r)
    requires Fair(g, r.0) && Later(s1, r.0) && FairUpTo(g, r.0, key, i, r.1)
    ensures Underway(g, s1, key, i, r)
  {
    hide Precise, Graph.Shallow, Fair, Later, Valid, Graph.Closed, FairUpTo;
    assert ColourKept(s1, r.0, key);
  }

  lemma EntryFair(g: Graph, s: Search, s1: Search, path: seq<Key>, key: Key, i: nat, r: (Search, set<string>))
    requires g.Closed() && g.Shallow() && Precise(g, s) && Opened(g, s1, path, key) && RefersAt(g, key, i)
    requires r == EntriesVisited(g, s1, key, |path|, i) && Underway(g, s1, key, i, r)
    requires var c := Child(key, g.nodes[key].edges[i]);
      OnPath(g, r.0, path + [key], c) && Met(g, r.0, c, Visited(g, r.0, c, |path| + 1))
    requires AnswersUpTo(g, s, s1, key, i + 1, EntriesVisited(g, s1, key, |path|, i + 1))
    ensures Underway(g, s1, key, i + 1, EntriesVisited(g, s1, key, |path|, i + 1))
  {
    var e := g.nodes[key].edges[i];
    var v := Visited(g, r.0, Child(key, e), |path| + 1);
    assert EntriesVisited(g, s1, key, |path|, i + 1) == (Blamed(v.0, key, e), Merge(r.1, e, v.1));
    hide Precise, Graph.Shallow, Fair, Later, Valid, FairUpTo, AnswersUpTo, Visited, EntriesVisited, Blame, Merge;
    ChildIsVisited(g, r.0, path, key, i, v);
    BlamedFair(g, key, i, r, v);
    LaterTrans(s1, r.0, Blamed(v.0, key, e));
    assert key in path + [key];
    UnderwayAnswers(g, s, s1, key, i + 1, (Blamed(v.0, key, e), Merge(r.1, e, v.1)));
  }

  lemma DirectEntryFair(g: Graph, s: Search, s1: Search, path: seq<Key>, key: Key, i: nat, r: (Search, set<string>))
    requires g.Closed() && g.Shallow() && Precise(g, s) && Opened(g, s1, path, key)
    requires i < |g.nodes[key].edges| && !RefersAt(g, key, i)
    requires r == EntriesVisited(g, s1, key, |path|, i) && Underway(g, s1, key, i, r)
    requires AnswersUpTo(g, s, s1, key, i + 1, EntriesVisited(g, s1, key, |path|, i + 1))
    ensures Underway(g, s1, key, i + 1, EntriesVisited(g, s1, key, |path|, i + 1))
  {
    hide Precise, Graph.Shallow, Fair, Later, Valid, FairUpTo, AnswersUpTo, Visited, Merge;
    DirectFair(g, key, i, r);
    assert key in path + [key];
    UnderwayAnswers(g, s, s1, key, i + 1, EntriesVisited(g, s1, key, |path|, i + 1));
  }

  /** Before reference i is followed. */
  lemma EntryReady(g: Graph, s: Search, s1: Search, path: seq<Key>, key: Key, i: nat, r: (Search, set<string>))
    requires g.Closed() && Opened(g, s1, path, key) && RefersAt(g, key, i)
    requires AnswersUpTo(g, s, s1, key, i, r) && Underway(g, s1, key, i, r)
    ensures Fit(g, r.0) && OnPath(g, r.0, path + [key], Child(key, g.nodes[key].edges[i]))
    ensures g.nodes.Keys - r.0.colour.Keys <= g.nodes.Keys - s1.colour.Keys
  {
    hide AnswersUpTo, FairUpTo, Fair, Precise, OnPath, Opened;
    EntryStarts(g, s, s1, path, key, i, r);
  }

  lemma {:induction false} EntriesFair(g: Graph, s: Search, s1: Search, path: seq<Key>, key: Key, i: nat)
    requires Precise(g, s) && g.Closed() && g.Shallow() && Opened(g, s1, path, key) && i <= |g.nodes[key].edges|
    requires AnswersUpTo(g, s, s1, key, 0, (s1, {})) && Fair(g, s1) && FairUpTo(g, s1, key, 0, {})
    ensures Underway(g, s1, key, i, EntriesVisited(g, s1, key, |path|, i))
    decreases g.nodes.Keys - s1.colour.Keys, 1, i
  {
    hide AnswersUpTo, Precise, Graph.Closed, Graph.Shallow, Fair, FairUpTo, Later, Met, Fit, Merge, Blame, Visited, OnPath;
    assert key in path + [key] && s1.Grey(key) && s1.Over(g);
    hide Opened, Underway;
    if i == 0 {
      LaterRefl(s1);
      UnderwayAnswers(g, s, s1, key, 0, (s1, {}));
    } else {
      EntriesFair(g, s, s1, path, key, i - 1);
      EntriesAnswer(g, s, s1, path, key, i - 1);
      EntriesAnswer(g, s, s1, path, key, i);
      hide EntriesVisited;
      var r := EntriesVisited(g, s1, key, |path|, i - 1);
      if RefersAt(g, key, i - 1) {
        EntryReady(g, s, s1, path, key, i - 1, r);
        VisitedFair(g, r.0, path + [key], Child(key, g.nodes[key].edges[i - 1]));
        EntryFair(g, s, s1, path, key, i - 1, r);
      } else {
        DirectEntryFair(g, s, s1, path, key, i - 1, r);
      }
    }
  }
}
