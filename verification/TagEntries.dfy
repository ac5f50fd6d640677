/**
 * Only the tag of a cycle that is met first matters: what the search catches among the tags that
 * lie on cycles with it is the same as in a search that starts from it.
 */
module TagEntries {
  import opened Walks
  import opened Ordering
  import opened TagResolution
  import opened TagCycles
  import opened TagOrders
  import opened TagOutcomes

  /** f and k reach each other. */
  ghost predicate Joined(g: Graph, f: Key, k: Key) {
    Reaches(g.Refs(), f, k) && Reaches(g.Refs(), k, f)
  }

  lemma JoinedTrans(g: Graph, a: Key, b: Key, c: Key)
    requires Joined(g, a, b) && Joined(g, b, c)
    ensures Joined(g, a, c) && Joined(g, c, a)
  {
    ReachesTrans(g.Refs(), a, b, c);
    ReachesTrans(g.Refs(), c, b, a);
  }

  /** s and t have the same colour for k, and caught it or not alike. */
  ghost predicate Agree(s: Search, t: Search, k: Key) {
    && (k in s.colour <==> k in t.colour) && (k in s.colour ==> s.colour[k] == t.colour[k])
    && (Caught(s, k) <==> Caught(t, k))
  }

  ghost predicate Alike(g: Graph, f: Key, s: Search, t: Search) {
    forall k :: Joined(g, f, k) ==> Agree(s, t, k)
  }

  /** Blame catches nobody. */
  lemma BlamedAgrees(g: Graph, s: Search, key: Key, e: Edge)
    requires s.Over(g) && key in g.nodes && Child(key, e) in g.nodes
    ensures forall k :: Agree(s, Blamed(s, key, e), k)
  {
  }

  /** Finishing a tag catches nobody and colours no other tag. */
  lemma FinishedAgrees(g: Graph, key: Key, r: (Search, set<string>))
    requires r.0.Over(g) && key in g.nodes
    ensures var t := Finished(key, r).0;
      t.Black(key) && (Caught(t, key) <==> Caught(r.0, key)) && forall k :: k != key ==> Agree(r.0, t, k)
  {
  }

  // ----- a call touches only what it reaches -----------------------------------------------

  lemma {:induction false} VisitedLocal(g: Graph, s: Search, key: Key, depth: nat, k: Key)
    requires g.Closed() && s.Over(g) && key in g.nodes && !Reaches(g.Refs(), key, k)
    ensures Agree(s, Visited(g, s, key, depth).0, k)
    decreases g.nodes.Keys - s.colour.Keys, 0, 0
  {
    hide Reaches, Agree, EntriesVisited;
    ReachesRefl(g.Refs(), key);
    if s.White(key) && depth <= MAX_DEPTH {
      var s1, n := s.Coloured(key, Colour.Grey), |g.nodes[key].edges|;
      assert key in g.nodes.Keys - s.colour.Keys;
      EntriesLocal(g, s1, key, depth, n, k);
      FinishedAgrees(g, key, EntriesVisited(g, s1, key, depth, n));
      AgreeThrough(s, key, EntriesVisited(g, s1, key, depth, n).0, Visited(g, s, key, depth).0, k);
    } else {
      FlaggedAgrees(g, s, key, k);
    }
  }

  lemma AgreeThrough(s: Search, key: Key, r: Search, t: Search, k: Key)
    requires key != k && Agree(s.Coloured(key, Colour.Grey), r, k) && Agree(r, t, k)
    ensures Agree(s, t, k)
  {
  }

  lemma FlaggedAgrees(g: Graph, s: Search, key: Key, k: Key)
    requires s.Over(g) && key in g.nodes && k != key
    ensures Agree(s, s, k) && Agree(s, s.Retagged(key, Flagged(s.tags[key])), k)
  {
  }

  lemma {:induction false} EntriesLocal(g: Graph, s: Search, key: Key, depth: nat, i: nat, k: Key)
    requires g.Closed() && s.Over(g) && key in g.nodes && i <= |g.nodes[key].edges| && !Reaches(g.Refs(), key, k)
    ensures Agree(s, EntriesVisited(g, s, key, depth, i).0, k)
    decreases g.nodes.Keys - s.colour.Keys, 1, i
  {
    hide Reaches, Visited;
    if i > 0 {
      EntriesLocal(g, s, key, depth, i - 1, k);
      var r, e := EntriesVisited(g, s, key, depth, i - 1).0, g.nodes[key].edges[i - 1];
      if e.tag {
        var c := Child(key, e);
        assert (key, c) in g.Refs();
        if Reaches(g.Refs(), c, k) {
          ReachesStep(g.Refs(), key, c);
          ReachesTrans(g.Refs(), key, c, k);
        }
        VisitedLocal(g, r, c, depth + 1, k);
        BlamedAgrees(g, Visited(g, r, c, depth + 1).0, key, e);
      }
    }
  }

  // ----- two searches that look alike among joined tags go on alike ------------------------

  /** Both searches are about to visit key. */
  ghost predicate Poised(g: Graph, s: Search, path: seq<Key>, key: Key) {
    g.Closed() && g.Shallow() && Valid(g, s) && OnPath(g, s, path, key)
  }

  lemma {:induction false} VisitedAlike(g: Graph, f: Key, s: Search, sp: seq<Key>, t: Search, tp: seq<Key>, key: Key)
    requires Poised(g, s, sp, key) && Poised(g, t, tp, key) && Joined(g, f, key) && Alike(g, f, s, t)
    ensures Alike(g, f, Visited(g, s, key, |sp|).0, Visited(g, t, key, |tp|).0)
    decreases g.nodes.Keys - s.colour.Keys, 0, 0
  {
    hide Joined, EntriesVisited, Valid, Graph.Shallow;
    assert Agree(s, t, key);
    if s.Grey(key) {
      FlaggedAlike(g, f, s, t, key);
    } else {
      WithinCap(g, s, sp, key);
      WithinCap(g, t, tp, key);
      if s.White(key) {
        var s1, t1, n := s.Coloured(key, Colour.Grey), t.Coloured(key, Colour.Grey), |g.nodes[key].edges|;
        assert Alike(g, f, s1, t1);
        OpenAnswers(g, s, sp, key);
        OpenAnswers(g, t, tp, key);
        assert key in g.nodes.Keys - s.colour.Keys;
        EntriesAlike(g, f, s, s1, sp, t, t1, tp, key, n);
        var r, q := EntriesVisited(g, s1, key, |sp|, n), EntriesVisited(g, t1, key, |tp|, n);
        FinishedAlike(g, f, key, r, q);
      }
    }
  }

  lemma FlaggedAlike(g: Graph, f: Key, s: Search, t: Search, key: Key)
    requires s.Over(g) && t.Over(g) && key in g.nodes && Alike(g, f, s, t)
    ensures Alike(g, f, s.Retagged(key, Flagged(s.tags[key])), t.Retagged(key, Flagged(t.tags[key])))
  {
    hide Joined;
  }

  lemma FinishedAlike(g: Graph, f: Key, key: Key, r: (Search, set<string>), q: (Search, set<string>))
    requires r.0.Over(g) && q.0.Over(g) && key in g.nodes && Alike(g, f, r.0, q.0)
    ensures Alike(g, f, Finished(key, r).0, Finished(key, q).0)
  {
    hide Joined;
    FinishedAgrees(g, key, r);
    FinishedAgrees(g, key, q);
  }

  /** Entering entry i from two states at once. */
  lemma {:induction false} EntriesAlike(g: Graph, f: Key, s: Search, s1: Search, sp: seq<Key>,
                                        t: Search, t1: Search, tp: seq<Key>, key: Key, i: nat)
    requires g.Closed() && g.Shallow() && Joined(g, f, key) && Alike(g, f, s1, t1)
    requires Opened(g, s1, sp, key) && AnswersUpTo(g, s, s1, key, 0, (s1, {}))
    requires Opened(g, t1, tp, key) && AnswersUpTo(g, t, t1, key, 0, (t1, {})) && i <= |g.nodes[key].edges|
    ensures Alike(g, f, EntriesVisited(g, s1, key, |sp|, i).0, EntriesVisited(g, t1, key, |tp|, i).0)
    decreases g.nodes.Keys - s1.colour.Keys, 1, i
  {
    hide Joined, Visited, Valid, Graph.Shallow, AnswersUpTo, Alike;
    if i > 0 {
      EntriesAlike(g, f, s, s1, sp, t, t1, tp, key, i - 1);
      var r, q := EntriesVisited(g, s1, key, |sp|, i - 1), EntriesVisited(g, t1, key, |tp|, i - 1);
      var e := g.nodes[key].edges[i - 1];
      if e.tag {
        var c := Child(key, e);
        EntriesAnswer(g, s, s1, sp, key, i - 1);
        EntriesAnswer(g, t, t1, tp, key, i - 1);
        EntryStarts(g, s, s1, sp, key, i - 1, r);
        EntryStarts(g, t, t1, tp, key, i - 1, q);
        var v, u := Visited(g, r.0, c, |sp| + 1).0, Visited(g, q.0, c, |tp| + 1).0;
        if Joined(g, f, c) {
          VisitedAlike(g, f, r.0, sp + [key], q.0, tp + [key], c);
        } else {
          OutsideAlike(g, f, r.0, |sp| + 1, q.0, |tp| + 1, key, c);
        }
        BlamedAlike(g, f, v, u, key, e);
      }
    }
  }

  lemma BlamedAlike(g: Graph, f: Key, v: Search, u: Search, key: Key, e: Edge)
    requires v.Over(g) && u.Over(g) && key in g.nodes && Child(key, e) in g.nodes && Alike(g, f, v, u)
    ensures Alike(g, f, Blamed(v, key, e), Blamed(u, key, e))
  {
    hide Joined;
    BlamedAgrees(g, v, key, e);
    BlamedAgrees(g, u, key, e);
  }

  /** A tag that leads out of the joined ones does not lead back. */
  lemma LeavesJoined(g: Graph, f: Key, key: Key, c: Key, k: Key)
    requires Joined(g, f, key) && (key, c) in g.Refs() && !Joined(g, f, c) && Joined(g, f, k)
    ensures !Reaches(g.Refs(), c, k)
  {
    if Reaches(g.Refs(), c, k) {
      ReachesStep(g.Refs(), key, c);
      ReachesTrans(g.Refs(), f, key, c);
      ReachesTrans(g.Refs(), c, k, f);
    }
  }

  lemma OutsideAlike(g: Graph, f: Key, s: Search, d: nat, t: Search, e: nat, key: Key, c: Key)
    requires g.Closed() && s.Over(g) && t.Over(g) && c in g.nodes && Alike(g, f, s, t)
    requires Joined(g, f, key) && (key, c) in g.Refs() && !Joined(g, f, c)
    ensures Alike(g, f, Visited(g, s, c, d).0, Visited(g, t, c, e).0)
  {
    hide Joined, Visited;
    forall k | Joined(g, f, k) ensures Agree(Visited(g, s, c, d).0, Visited(g, t, c, e).0, k) {
      LeavesJoined(g, f, key, c, k);
      VisitedLocal(g, s, c, d, k);
      VisitedLocal(g, t, c, e, k);
    }
  }

  // ----- which tag was met first -----------------------------------------------------------

  /** Nobody joined to x has been met. */
  ghost predicate Untouched(g: Graph, x: Key, s: Search) {
    forall k :: Joined(g, x, k) ==> s.White(k)
  }

  /** Among the tags joined to x the search stands where a search from f would end. */
  ghost predicate EnteredAt(g: Graph, x: Key, f: Key, s: Search)
    requires g.Closed()
  {
    f in g.nodes && Joined(g, x, f) && Alike(g, x, AllVisited(g, [f]), s)
  }

  ghost predicate Entered(g: Graph, x: Key, s: Search)
    requires g.Closed()
  {
    Untouched(g, x, s) || exists f :: EnteredAt(g, x, f, s)
  }

  lemma EnteredLater(g: Graph, x: Key, s: Search, t: Search)
    requires g.Closed() && Entered(g, x, s) && Alike(g, x, s, t)
    ensures Entered(g, x, t)
  {
    hide Joined;
    if Untouched(g, x, s) {
      forall k | Joined(g, x, k) ensures t.White(k) { assert Agree(s, t, k); }
    } else {
      var f :| EnteredAt(g, x, f, s);
      assert EnteredAt(g, x, f, t);
    }
  }

  /** The path is clear of the tags joined to x. */
  ghost predicate Clear(g: Graph, x: Key, path: seq<Key>) {
    forall k :: k in path ==> !Joined(g, x, k)
  }

  /** A search from f finishes all the tags joined to f. */
  lemma AloneFinishes(g: Graph, f: Key, k: Key)
    requires g.Closed() && g.Shallow() && f in g.nodes && Reaches(g.Refs(), f, k)
    ensures AllVisited(g, [f]).Black(k)
  {
    hide AllVisited;
    AllVisitedReady(g, [f]);
    AllVisitedFit(g, [f]);
    var w :| Connects(g.Refs(), f, k, w);
    WalkBlack(g, AllVisited(g, [f]), w, |w| - 1);
  }

  lemma EnteredFinishes(g: Graph, x: Key, f: Key, s: Search, key: Key)
    requires g.Closed() && g.Shallow() && EnteredAt(g, x, f, s) && Joined(g, x, key)
    ensures s.Black(key)
  {
    hide AllVisited, Graph.Shallow;
    JoinedTrans(g, f, x, key);
    AloneFinishes(g, f, key);
    assert Agree(AllVisited(g, [f]), s, key);
  }

  /** The first tag joined to x decides for all of them. */
  lemma FirstEntered(g: Graph, x: Key, s: Search, path: seq<Key>, key: Key)
    requires Fit(g, s) && OnPath(g, s, path, key) && Joined(g, x, key) && s.White(key) && Entered(g, x, s)
    ensures EnteredAt(g, x, key, Visited(g, s, key, |path|).0)
  {
    hide Visited, AllVisited, Graph.Shallow, Fair;
    if !Untouched(g, x, s) {
      var f :| EnteredAt(g, x, f, s);
      EnteredFinishes(g, x, f, s, key);
      assert false;
    }
    forall k | Joined(g, x, k) ensures Agree(Start(g), s, k) {
      assert s.White(k);
      if k in g.nodes { assert TagPrecise(g, s, k); }
    }
    StartReady(g);
    RootOnPath(g, Start(g), key);
    VisitedAlike(g, x, Start(g), [], s, path, key);
    VisitedAlone(g, key);
  }

  lemma {:induction false} VisitedEntered(g: Graph, x: Key, s: Search, path: seq<Key>, key: Key)
    requires Fit(g, s) && OnPath(g, s, path, key) && Clear(g, x, path) && Entered(g, x, s)
    ensures Entered(g, x, Visited(g, s, key, |path|).0)
    decreases g.nodes.Keys - s.colour.Keys, 0, 0
  {
    hide Joined, Entered, EnteredAt, EntriesVisited, Valid, Fair, Precise, Graph.Shallow, Underway, Met;
    if s.Grey(key) {
      TouchedOutside(g, x, s, key);
    } else {
      WithinCap(g, s, path, key);
      if s.White(key) {
        if Joined(g, x, key) {
          FirstEntered(g, x, s, path, key);
          assert EnteredAt(g, x, key, Visited(g, s, key, |path|).0);
          EnteredBy(g, x, key, Visited(g, s, key, |path|).0);
        } else {
          var s1, n := s.Coloured(key, Colour.Grey), |g.nodes[key].edges|;
          assert Alike(g, x, s, s1);
          EnteredLater(g, x, s, s1);
          OpenAnswers(g, s, path, key);
          GreyedFair(g, s, key);
          assert key in g.nodes.Keys - s.colour.Keys;
          EntriesEntered(g, x, s, s1, path, key, n);
          var r := EntriesVisited(g, s1, key, |path|, n);
          FinishedAgrees(g, key, r);
          EnteredLater(g, x, r.0, Finished(key, r).0);
        }
      }
    }
  }

  lemma EnteredBy(g: Graph, x: Key, f: Key, s: Search)
    requires g.Closed() && EnteredAt(g, x, f, s)
    ensures Entered(g, x, s)
  {
  }

  lemma TouchedOutside(g: Graph, x: Key, s: Search, key: Key)
    requires g.Closed() && s.Over(g) && key in g.nodes && !Joined(g, x, key) && Entered(g, x, s)
    ensures Entered(g, x, s.Retagged(key, Flagged(s.tags[key])))
  {
    hide Joined;
    EnteredLater(g, x, s, s.Retagged(key, Flagged(s.tags[key])));
  }

  lemma {:induction false} EntriesEntered(g: Graph, x: Key, s: Search, s1: Search, path: seq<Key>, key: Key, i: nat)
    requires Precise(g, s) && g.Closed() && g.Shallow() && Opened(g, s1, path, key) && i <= |g.nodes[key].edges|
    requires AnswersUpTo(g, s, s1, key, 0, (s1, {})) && Fair(g, s1) && FairUpTo(g, s1, key, 0, {})
    requires Clear(g, x, path + [key]) && Entered(g, x, s1)
    ensures Entered(g, x, EntriesVisited(g, s1, key, |path|, i).0)
    decreases g.nodes.Keys - s1.colour.Keys, 1, i
  {
    hide Joined, Entered, Visited, Valid, Fair, Precise, Graph.Shallow, AnswersUpTo, FairUpTo, Later, Clear;
    if i > 0 {
      EntriesEntered(g, x, s, s1, path, key, i - 1);
      var r, e := EntriesVisited(g, s1, key, |path|, i - 1), g.nodes[key].edges[i - 1];
      if e.tag {
        var c := Child(key, e);
        EntriesFair(g, s, s1, path, key, i - 1);
        EntriesAnswer(g, s, s1, path, key, i - 1);
        EntryStarts(g, s, s1, path, key, i - 1, r);
        VisitedEntered(g, x, r.0, path + [key], c);
        var v := Visited(g, r.0, c, |path| + 1).0;
        BlamedAgrees(g, v, key, e);
        EnteredLater(g, x, v, Blamed(v, key, e));
      }
    }
  }

  lemma {:induction false} AllVisitedEntered(g: Graph, x: Key, order: seq<Key>)
    requires g.Closed() && g.Shallow() && forall k :: k in order ==> k in g.nodes
    ensures Entered(g, x, AllVisited(g, order))
  {
    hide Joined, Visited, Graph.Shallow;
    if order != [] {
      var front := order[..|order| - 1];
      var s := AllVisited(g, front);
      AllVisitedEntered(g, x, front);
      AllVisitedReady(g, front);
      AllVisitedFit(g, front);
      RootOnPath(g, s, Last(order));
      VisitedEntered(g, x, s, [], Last(order));
    }
  }

  /** In every order, some tag decides for all those it lies on cycles with: exactly those are caught
      among them that a search from it catches. */
  lemma EntryDecides(g: Graph, order: seq<Key>, x: Key) returns (f: Key)
    requires g.Closed() && g.Shallow() && Elements(order) == g.nodes.Keys && x in g.nodes
    ensures f in g.nodes && Joined(g, x, f)
    ensures forall k :: k in g.nodes && Joined(g, x, k) ==>
      (Caught(AllVisited(g, order), k) <==> Caught(AllVisited(g, [f]), k))
  {
    hide AllVisited, Graph.Shallow;
    ListedIff(g, order);
    var s := AllVisited(g, order);
    AllVisitedEntered(g, x, order);
    AllVisitedDone(g, order);
    ReachesRefl(g.Refs(), x);
    assert Joined(g, x, x) && s.Black(x);
    f :| EnteredAt(g, x, f, s);
    forall k | k in g.nodes && Joined(g, x, k) ensures Caught(s, k) <==> Caught(AllVisited(g, [f]), k) {
      assert Agree(AllVisited(g, [f]), s, k);
    }
  }

  // ----- when the order of visits does not matter ------------------------------------------

  /** Whichever tag of a cycle is visited first, all those it lies on cycles with end invalid. */
  ghost predicate CyclesSpoilt(g: Graph)
    requires g.Closed()
  {
    forall f, k :: f in g.nodes && Circular(g.Refs(), f) && Joined(g, f, k) ==> Spoilt(AllVisited(g, [f]), k)
  }

  ghost predicate SameOutcomes(g: Graph, s: Search, t: Search) {
    && s.Over(g) && t.Over(g)
    && forall k :: k in g.nodes ==> s.tags[k].status == t.tags[k].status && s.tags[k].members == t.tags[k].members
  }

  ghost predicate SameFor(g: Graph, o: seq<Key>, p: seq<Key>)
    requires g.Closed()
  {
    Lists(g, o) && Lists(g, p) ==>
      (ListedIff(g, o); ListedIff(g, p); SameOutcomes(g, AllVisited(g, o), AllVisited(g, p)))
  }

  /** Every tag ends with the same status and members, whatever the order of visits. */
  ghost predicate OrderFree(g: Graph)
    requires g.Closed()
  {
    forall o, p :: SameFor(g, o, p)
  }

  lemma JoinedCircular(g: Graph, k: Key, f: Key)
    requires Circular(g.Refs(), k) && Joined(g, k, f)
    ensures Circular(g.Refs(), f)
  {
    if f != k {
      ReachesSplit(g.Refs(), f, k);
      var b :| (f, b) in g.Refs() && Reaches(g.Refs(), b, k);
      ReachesTrans(g.Refs(), b, k, f);
      EdgeCircular(g.Refs(), f, b);
    }
  }

  lemma RequiredReaches(g: Graph, k: Key, m: Key)
    requires Reaches(g.RequiredRefs(), k, m)
    ensures Reaches(g.Refs(), k, m)
  {
    var w :| Connects(g.RequiredRefs(), k, m, w);
    assert Connects(g.Refs(), k, m, w);
  }

  lemma CircularInGraph(g: Graph, k: Key)
    requires Circular(g.Refs(), k)
    ensures k in g.nodes
  {
    var w :| IsCycle(g.Refs(), w) && w[0] == k;
    assert (w[0], w[1]) in g.Refs();
  }

  lemma BeyondReachesLess(g: Graph, k: Key, m: Key)
    requires Reaches(g.Refs(), k, m) && !Reaches(g.Refs(), m, k)
    ensures Reachable(g.Refs(), m) < Reachable(g.Refs(), k)
  {
    ReachesRefl(g.Refs(), k);
    forall c | c in Reachable(g.Refs(), m) ensures c in Reachable(g.Refs(), k) {
      ReachesTrans(g.Refs(), k, m, c);
      if c == m { ReachableIn(g.Refs(), k, m); }
    }
    assert k in Reachable(g.Refs(), k);
  }

  lemma {:induction false} CircularSpoilt(g: Graph, order: seq<Key>, k: Key)
    requires g.Closed() && g.Shallow() && NoneCaught(g) && CyclesSpoilt(g) && Elements(order) == g.nodes.Keys
    requires Circular(g.Refs(), k)
    ensures Spoilt(AllVisited(g, order), k)
    decreases Reachable(g.Refs(), k)
  {
    hide AllVisited, Graph.Shallow, Precise, Valid, Circular, Reaches, FairTag;
    ListedIff(g, order);
    CircularInGraph(g, k);
    var s := AllVisited(g, order);
    AllVisitedFit(g, order);
    AllVisitedDone(g, order);
    var f := EntryDecides(g, order, k);
    JoinedCircular(g, k, f);
    AllVisitedFit(g, [f]);
    var t := AllVisited(g, [f]);
    assert Spoilt(t, k) && Caused(g, t, k);
    var m :| Reason(g, t, k, m);
    MalformedSpoilt(g, order, m);
    if g.nodes[m].status != Invalid {
      if Joined(g, k, m) {
        assert Caused(g, s, m);
      } else {
        RequiredReaches(g, k, m);
        BeyondReachesLess(g, k, m);
        CircularSpoilt(g, order, m);
      }
    }
    RequiringSpoilt(g, s, k, m);
  }

  // ----- off the cycles everything follows -------------------------------------------------

  lemma {:induction false} LocalSame(g: Graph, s: Search, t: Search, k: Key, i: nat)
    requires g.Closed() && s.Over(g) && t.Over(g) && k in g.nodes && i <= |g.nodes[k].edges|
    requires forall j :: 0 <= j < i && RefersAt(g, k, j) ==> SameAt(s, t, Child(k, g.nodes[k].edges[j]))
    ensures LocalUpTo(g, s, k, i) == LocalUpTo(g, t, k, i)
  {
    if i > 0 {
      LocalSame(g, s, t, k, i - 1);
      if g.nodes[k].edges[i - 1].tag { assert RefersAt(g, k, i - 1); }
    }
  }

  ghost predicate SameAt(s: Search, t: Search, k: Key) {
    k in s.tags && k in t.tags && s.tags[k].status == t.tags[k].status && s.tags[k].members == t.tags[k].members
  }

  lemma {:induction false} OutcomeFollows(g: Graph, s: Search, t: Search, k: Key)
    requires Fit(g, s) && Done(g, s) && Fit(g, t) && Done(g, t) && k in g.nodes
    requires forall x :: Circular(g.Refs(), x) ==> Spoilt(s, x) && Spoilt(t, x)
    ensures SameAt(s, t, k)
    decreases Reachable(g.Refs(), k)
  {
    hide Circular, Graph.Refs, Graph.Shallow, Valid;
    assert TagPrecise(g, s, k) && TagPrecise(g, t, k) && FairTag(g, s, k) && FairTag(g, t, k);
    if !Circular(g.Refs(), k) {
      var n := |g.nodes[k].edges|;
      forall j | 0 <= j < n && RefersAt(g, k, j) ensures SameAt(s, t, Child(k, g.nodes[k].edges[j])) {
        ReferenceIn(g, k, j);
        SuccessorReachesLess(g.Refs(), k, Child(k, g.nodes[k].edges[j]));
        OutcomeFollows(g, s, t, Child(k, g.nodes[k].edges[j]));
      }
      LocalSame(g, s, t, k, n);
      AscendingUnique(s.tags[k].members, t.tags[k].members);
    }
  }

  lemma ReferenceIn(g: Graph, k: Key, j: int)
    requires RefersAt(g, k, j)
    ensures (k, Child(k, g.nodes[k].edges[j])) in g.Refs()
  {
  }

  lemma OrderFreeSpoils(g: Graph, order: seq<Key>, f: Key, k: Key)
    requires g.Closed() && g.Shallow() && Lists(g, order) && OrderFree(g)
    requires f in g.nodes && Circular(g.Refs(), f) && Joined(g, f, k)
    ensures Spoilt(AllVisited(g, [f]), k)
  {
    hide AllVisited, Graph.Shallow, Reaches;
    JoinedCircular(g, f, k);
    CircularInGraph(g, k);
    var o := MovedToFront(g, order, k);
    var p := MovedToFront(g, order, f);
    ListedIff(g, o);
    ListedIff(g, p);
    FirstSpoilt(g, o);
    assert SameFor(g, o, p);
    assert Spoilt(AllVisited(g, p), k);
    AloneFinishes(g, f, k);
    PrefixLater(g, p, 1);
    assert p[..1] == [f];
    AllVisitedFit(g, [f]);
    assert LaterAt(AllVisited(g, [f]), AllVisited(g, p), k);
  }

  /**
   * The order of visits does not matter exactly when, whichever tag of a cycle is visited first, all
   * the tags it lies on cycles with end invalid: one search from each such tag decides it.
   */
  lemma OrderFreeIff(g: Graph, order: seq<Key>)
    requires g.Closed() && g.Shallow() && NoneCaught(g) && Lists(g, order)
    ensures OrderFree(g) <==> CyclesSpoilt(g)
  {
    hide AllVisited, Graph.Shallow, Circular, Joined;
    if CyclesSpoilt(g) {
      forall o, p ensures SameFor(g, o, p) {
        if Lists(g, o) && Lists(g, p) { SpoiltSame(g, o, p); }
      }
    }
    if OrderFree(g) {
      forall f, k | f in g.nodes && Circular(g.Refs(), f) && Joined(g, f, k) ensures Spoilt(AllVisited(g, [f]), k) {
        OrderFreeSpoils(g, order, f, k);
      }
    }
  }

  lemma SpoiltSame(g: Graph, o: seq<Key>, p: seq<Key>)
    requires g.Closed() && g.Shallow() && NoneCaught(g) && CyclesSpoilt(g) && Lists(g, o) && Lists(g, p)
    ensures SameFor(g, o, p)
  {
    hide AllVisited, Graph.Shallow, Circular, CyclesSpoilt;
    ListedIff(g, o);
    ListedIff(g, p);
    AllVisitedFit(g, o);
    AllVisitedFit(g, p);
    AllVisitedDone(g, o);
    AllVisitedDone(g, p);
    var s, t := AllVisited(g, o), AllVisited(g, p);
    forall x | Circular(g.Refs(), x) ensures Spoilt(s, x) && Spoilt(t, x) {
      CircularSpoilt(g, o, x);
      CircularSpoilt(g, p, x);
    }
    forall k | k in g.nodes ensures SameAt(s, t, k) {
      OutcomeFollows(g, s, t, k);
    }
  }
}
