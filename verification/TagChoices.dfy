/**
 * Exactly which tags end invalid in every order: the first tag met on each cycle can be chosen freely
 * and independently, by visiting the tags that reach little before those that reach more.
 */
module TagChoices {
  import opened Walks
  import opened Ordering
  import opened TagResolution
  import opened TagCycles
  import opened TagOrders
  import opened TagOutcomes
  import opened TagEntries

  /** A search from f catches nothing that k requires among the tags joined to f. */
  ghost predicate Spares(g: Graph, k: Key, f: Key)
    requires g.Closed()
  {
    f in g.nodes && forall m :: Joined(g, f, m) && Reaches(g.RequiredRefs(), k, m) ==> !Caught(AllVisited(g, [f]), m)
  }

  /** The tags joined to x have not been met, or the first of them met spares k. */
  ghost predicate SparedAt(g: Graph, k: Key, x: Key, s: Search)
    requires g.Closed()
  {
    Untouched(g, x, s) || exists f :: EnteredAt(g, x, f, s) && Spares(g, k, f)
  }

  ghost predicate AllSpared(g: Graph, k: Key, s: Search)
    requires g.Closed()
  {
    forall x :: x in g.nodes ==> SparedAt(g, k, x, s)
  }

  ghost predicate CanSpare(g: Graph, k: Key, x: Key)
    requires g.Closed()
  {
    exists f :: Joined(g, x, f) && Spares(g, k, f)
  }

  ghost function Whites(g: Graph, s: Search): set<Key> {
    g.nodes.Keys - s.colour.Keys
  }

  /** y is not met yet and reaches least among those. */
  ghost predicate ReachesLeast(g: Graph, s: Search, y: Key) {
    y in Whites(g, s) && forall z :: z in Whites(g, s) ==> |Reachable(g.Refs(), y)| <= |Reachable(g.Refs(), z)|
  }

  lemma {:induction false} Least(g: Graph, some: set<Key>) returns (y: Key)
    requires some != {}
    ensures y in some && forall z :: z in some ==> |Reachable(g.Refs(), y)| <= |Reachable(g.Refs(), z)|
  {
    y :| y in some;
    if some != {y} {
      var rest := some - {y};
      var z := Least(g, rest);
      if |Reachable(g.Refs(), z)| < |Reachable(g.Refs(), y)| { y := z; }
      assert some == rest + {y} || y in rest;
    }
  }

  /** What a tag joined to a least one reaches is finished, or joined to it. */
  lemma WhitesJoined(g: Graph, s: Search, y: Key, f: Key, c: Key)
    requires ReachesLeast(g, s, y) && Joined(g, y, f) && Reaches(g.Refs(), f, c) && c in Whites(g, s)
    ensures Joined(g, f, c)
  {
    ReachesTrans(g.Refs(), y, f, c);
    if !Reaches(g.Refs(), c, y) {
      BeyondReachesLess(g, y, c);
      SmallerSet(Reachable(g.Refs(), c), Reachable(g.Refs(), y));
    }
    ReachesTrans(g.Refs(), c, y, f);
  }

  lemma SmallerSet<T>(a: set<T>, b: set<T>)
    requires a < b
    ensures |a| < |b|
  {
    assert b == a + (b - a) && b - a != {};
  }

  lemma JoinedSym(g: Graph, a: Key, b: Key)
    requires Joined(g, a, b)
    ensures Joined(g, b, a)
  {
  }

  /** Visiting a sparing tag that reaches least keeps everything spared. */
  lemma SparingVisit(g: Graph, k: Key, s: Search, y: Key, f: Key)
    requires Fit(g, s) && Ready(g, s) && AllSpared(g, k, s) && ReachesLeast(g, s, y) && Joined(g, y, f) && Spares(g, k, f)
    ensures AllSpared(g, k, Visited(g, s, f, 0).0) && Whites(g, Visited(g, s, f, 0).0) < Whites(g, s)
  {
    assert s.Over(g) && f in g.nodes;
    hide Visited, Fair, Precise, Valid, Graph.Shallow, Joined, Spares, AllVisited, EnteredAt, Met;
    var t := Visited(g, s, f, 0).0;
    RootOnPath(g, s, f);
    VisitedFair(g, s, [], f);
    MetLater(g, s, f, Visited(g, s, f, 0));
    FirstIsWhite(g, k, s, y, f);
    forall x | x in g.nodes ensures SparedAt(g, k, x, t) {
      if Joined(g, x, f) {
        FirstOfJoined(g, k, s, x, f);
      } else if Untouched(g, x, s) {
        StaysUntouched(g, s, y, f, x);
      } else {
        StaysEntered(g, k, s, t, x);
      }
    }
    assert f in Whites(g, s) && f !in Whites(g, t);
  }

  lemma MetLater(g: Graph, s: Search, key: Key, v: (Search, set<string>))
    requires Met(g, s, key, v)
    ensures Later(s, v.0) && (s.White(key) ==> v.0.Black(key)) && s.colour.Keys <= v.0.colour.Keys
  {
    hide Fit, Answers;
    forall c | c in s.colour ensures c in v.0.colour { assert LaterAt(s, v.0, c); }
  }

  lemma FirstIsWhite(g: Graph, k: Key, s: Search, y: Key, f: Key)
    requires Fit(g, s) && Ready(g, s) && AllSpared(g, k, s) && ReachesLeast(g, s, y) && Joined(g, y, f) && Spares(g, k, f)
    ensures Untouched(g, f, s) && s.White(f) && f in g.nodes
  {
    hide Fair, Precise, Valid, Graph.Shallow, AllVisited;
    assert SparedAt(g, k, y, s);
    ReachesRefl(g.Refs(), y);
    if !Untouched(g, y, s) {
      var h :| EnteredAt(g, y, h, s) && Spares(g, k, h);
      EnteredFinishes(g, y, h, s, y);
      assert false;
    }
    forall x | Joined(g, f, x) ensures s.White(x) { JoinedTrans(g, y, f, x); }
    ReachesRefl(g.Refs(), f);
    assert Joined(g, f, f);
  }

  lemma FirstOfJoined(g: Graph, k: Key, s: Search, x: Key, f: Key)
    requires Fit(g, s) && Ready(g, s) && Untouched(g, f, s) && s.White(f) && Joined(g, x, f) && Spares(g, k, f) && f in g.nodes
    ensures SparedAt(g, k, x, Visited(g, s, f, 0).0)
  {
    hide Visited, Fair, Precise, Valid, Graph.Shallow, AllVisited, Spares;
    RootOnPath(g, s, f);
    JoinedSym(g, x, f);
    forall z | Joined(g, x, z) ensures s.White(z) { JoinedTrans(g, f, x, z); }
    assert Untouched(g, x, s);
    FirstEntered(g, x, s, [], f);
  }

  lemma StaysUntouched(g: Graph, s: Search, y: Key, f: Key, x: Key)
    requires g.Closed() && s.Over(g) && ReachesLeast(g, s, y) && Joined(g, y, f) && f in g.nodes
    requires Untouched(g, x, s) && x in g.nodes && !Joined(g, x, f)
    ensures Untouched(g, x, Visited(g, s, f, 0).0)
  {
    hide Visited;
    forall z | Joined(g, x, z) ensures Visited(g, s, f, 0).0.White(z) {
      if Reaches(g.Refs(), f, z) {
        JoinedInGraph(g, x, z);
        WhitesJoined(g, s, y, f, z);
        JoinedTrans(g, f, z, x);
        assert false;
      }
      VisitedLocal(g, s, f, 0, z);
    }
  }

  lemma JoinedInGraph(g: Graph, x: Key, z: Key)
    requires g.Closed() && x in g.nodes && Joined(g, x, z)
    ensures z in g.nodes
  {
    var w :| Connects(g.Refs(), x, z, w);
    if |w| > 1 { assert (w[|w| - 2], w[|w| - 1]) in g.Refs(); }
  }

  lemma StaysEntered(g: Graph, k: Key, s: Search, t: Search, x: Key)
    requires g.Closed() && g.Shallow() && s.Over(g) && Later(s, t) && x in g.nodes && SparedAt(g, k, x, s) && !Untouched(g, x, s)
    ensures SparedAt(g, k, x, t)
  {
    hide Graph.Shallow, AllVisited, Spares;
    var f :| EnteredAt(g, x, f, s) && Spares(g, k, f);
    forall z | Joined(g, x, z) ensures Agree(AllVisited(g, [f]), t, z) {
      EnteredFinishes(g, x, f, s, z);
      JoinedInGraph(g, x, z);
      assert LaterAt(s, t, z) && Agree(AllVisited(g, [f]), s, z);
    }
    assert EnteredAt(g, x, f, t);
  }

  /** Some order, begun with the given tags, spares k throughout. */
  lemma {:induction false} SparingOrder(g: Graph, k: Key, order: seq<Key>) returns (o: seq<Key>)
    requires g.Closed() && g.Shallow() && Simple(order) && (forall x :: x in order ==> x in g.nodes)
    requires AllSpared(g, k, AllVisited(g, order)) && forall x :: x in g.nodes ==> CanSpare(g, k, x)
    ensures Simple(o) && forall x :: x in o ==> x in g.nodes
    ensures AllSpared(g, k, AllVisited(g, o)) && Whites(g, AllVisited(g, o)) == {}
    decreases Whites(g, AllVisited(g, order))
  {
    hide AllSpared, CanSpare, Graph.Shallow, Spares, Visited, AllVisited, Fit;
    var s := AllVisited(g, order);
    if Whites(g, s) == {} {
      o := order;
    } else {
      var y := Least(g, Whites(g, s));
      var f := SparingTag(g, k, y);
      AllVisitedReady(g, order);
      AllVisitedFit(g, order);
      SparingVisit(g, k, s, y, f);
      FirstIsWhite(g, k, s, y, f);
      OneMore(g, order, f);
      o := SparingOrder(g, k, order + [f]);
    }
  }

  lemma SparingTag(g: Graph, k: Key, x: Key) returns (f: Key)
    requires g.Closed() && CanSpare(g, k, x)
    ensures Joined(g, x, f) && Spares(g, k, f) && f in g.nodes
  {
    f :| Joined(g, x, f) && Spares(g, k, f);
  }

  lemma OneMore(g: Graph, order: seq<Key>, f: Key)
    requires g.Closed() && f in g.nodes && forall x :: x in order ==> x in g.nodes
    ensures AllVisited(g, order + [f]) == Visited(g, AllVisited(g, order), f, 0).0
  {
    assert (order + [f])[..|order|] == order;
  }

  /** Once every tag is finished, visiting the rest changes nothing. */
  lemma {:induction false} Completed(g: Graph, o: seq<Key>) returns (p: seq<Key>)
    requires g.Closed() && Simple(o) && (forall x :: x in o ==> x in g.nodes) && Whites(g, AllVisited(g, o)) == {}
    ensures Lists(g, p) && (forall x :: x in p ==> x in g.nodes) && AllVisited(g, p) == AllVisited(g, o)
    decreases g.nodes.Keys - Elements(o)
  {
    hide AllVisited;
    if Elements(o) == g.nodes.Keys {
      p := o;
    } else {
      assert Elements(o) <= g.nodes.Keys;
      var x :| x in g.nodes.Keys && x !in Elements(o);
      IdleVisit(g, o, x);
      assert Elements(o + [x]) == Elements(o) + {x};
      p := Completed(g, o + [x]);
    }
  }

  lemma IdleVisit(g: Graph, o: seq<Key>, x: Key)
    requires g.Closed() && x in g.nodes && (forall z :: z in o ==> z in g.nodes) && Whites(g, AllVisited(g, o)) == {}
    ensures AllVisited(g, o + [x]) == AllVisited(g, o)
  {
    hide AllVisited, Valid;
    AllVisitedReady(g, o);
    OneMore(g, o, x);
    assert x !in Whites(g, AllVisited(g, o)) && !AllVisited(g, o).Grey(x);
  }

  // ----- invalid in every order ------------------------------------------------------------

  /** Whichever tag joined to x is met first, the search catches one that k requires. */
  ghost predicate Traps(g: Graph, k: Key, x: Key)
    requires g.Closed()
  {
    x in g.nodes && !CanSpare(g, k, x)
  }

  lemma TrappedSpoilt(g: Graph, order: seq<Key>, k: Key, x: Key)
    requires g.Closed() && g.Shallow() && NoneCaught(g) && Elements(order) == g.nodes.Keys && Traps(g, k, x)
    ensures Spoilt(AllVisited(g, order), k)
  {
    hide AllVisited, Graph.Shallow, Precise, Valid, FairTag;
    var f := EntryDecides(g, order, x);
    ListedIff(g, order);
    AllVisitedFit(g, order);
    AllVisitedDone(g, order);
    assert !Spares(g, k, f);
    var m :| Joined(g, f, m) && Reaches(g.RequiredRefs(), k, m) && Caught(AllVisited(g, [f]), m);
    JoinedTrans(g, x, f, m);
    JoinedInGraph(g, x, m);
    assert Caused(g, AllVisited(g, order), m);
    RequiringSpoilt(g, AllVisited(g, order), k, m);
  }

  lemma SparedUncaught(g: Graph, k: Key, s: Search, m: Key)
    requires g.Closed() && SparedAt(g, k, m, s) && s.Black(m) && Reaches(g.RequiredRefs(), k, m)
    ensures !Caught(s, m)
  {
    hide AllVisited;
    ReachesRefl(g.Refs(), m);
    assert Joined(g, m, m) && !Untouched(g, m, s);
    var f :| EnteredAt(g, m, f, s) && Spares(g, k, f);
    assert Agree(AllVisited(g, [f]), s, m) && Joined(g, f, m);
  }

  lemma SparedValid(g: Graph, order: seq<Key>, k: Key)
    requires g.Closed() && g.Shallow() && NoneCaught(g) && Elements(order) == g.nodes.Keys && k in g.nodes
    requires AllSpared(g, k, AllVisited(g, order))
    requires forall m :: m in g.nodes && Reaches(g.RequiredRefs(), k, m) ==> g.nodes[m].status != Invalid
    ensures !Spoilt(AllVisited(g, order), k)
  {
    hide AllVisited, Graph.Shallow, Valid, SparedAt;
    var s := AllVisited(g, order);
    AllVisitedDone(g, order);
    InvalidIffReason(g, order, k);
    forall m ensures !Reason(g, s, k, m) {
      if m in g.nodes && Reaches(g.RequiredRefs(), k, m) { SparedUncaught(g, k, s, m); }
    }
  }

  lemma AllCanSpare(g: Graph, k: Key)
    requires g.Closed() && forall x :: !Traps(g, k, x)
    ensures forall x :: x in g.nodes ==> CanSpare(g, k, x)
  {
    forall x | x in g.nodes ensures CanSpare(g, k, x) { assert !Traps(g, k, x); }
  }

  lemma NothingMet(g: Graph, k: Key)
    requires g.Closed()
    ensures AllVisited(g, []) == Start(g) && AllSpared(g, k, Start(g))
  {
    forall x | x in g.nodes ensures SparedAt(g, k, x, Start(g)) {
      assert Untouched(g, x, Start(g));
    }
  }

  /**
   * A tag ends invalid in every order exactly when it requires, however far, a malformed tag, or when
   * there are joined tags among which every search, whichever it meets first, catches one it requires.
   */
  lemma InvalidInEveryOrderIff(g: Graph, k: Key)
    requires g.Closed() && g.Shallow() && NoneCaught(g) && k in g.nodes
    ensures (forall o :: Lists(g, o) ==> SpoiltIn(g, o, k)) <==>
      (exists m :: m in g.nodes && g.nodes[m].status == Invalid && Reaches(g.RequiredRefs(), k, m)) || exists x :: Traps(g, k, x)
  {
    hide AllVisited, Graph.Shallow, Traps, AllSpared, Spoilt, Reaches;
    if m :| m in g.nodes && g.nodes[m].status == Invalid && Reaches(g.RequiredRefs(), k, m) {
      forall o | Lists(g, o) ensures SpoiltIn(g, o, k) { RequiredMalformed(g, o, k, m); }
    } else if x :| Traps(g, k, x) {
      forall o | Lists(g, o) ensures SpoiltIn(g, o, k) {
        ListedIff(g, o);
        TrappedSpoilt(g, o, k, x);
      }
    } else {
      AllCanSpare(g, k);
      NothingMet(g, k);
      var o := SparingOrder(g, k, []);
      var p := Completed(g, o);
      SparedValid(g, p, k);
      assert Lists(g, p) && !SpoiltIn(g, p, k);
    }
  }

  lemma RequiredMalformed(g: Graph, o: seq<Key>, k: Key, m: Key)
    requires g.Closed() && g.Shallow() && Lists(g, o) && m in g.nodes && g.nodes[m].status == Invalid && Reaches(g.RequiredRefs(), k, m)
    ensures SpoiltIn(g, o, k)
  {
    hide AllVisited, Graph.Shallow, Reaches;
    ListedIff(g, o);
    AllVisitedFit(g, o);
    AllVisitedDone(g, o);
    MalformedSpoilt(g, o, m);
    RequiringSpoilt(g, AllVisited(g, o), k, m);
  }
}
