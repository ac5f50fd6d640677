/** Which tags end invalid, and when the order of visits decides it; the cap being out of reach. */
module TagOutcomes {
  import opened Walks
  import opened Ordering
  import opened TagResolution
  import opened TagCycles
  import opened TagOrders

  /** order lists the tags of g, each once. */
  ghost predicate Lists(g: Graph, order: seq<Key>) {
    Simple(order) && Elements(order) == g.nodes.Keys
  }

  lemma ListedIff(g: Graph, order: seq<Key>)
    requires Elements(order) == g.nodes.Keys
    ensures forall k :: k in order <==> k in g.nodes
  {
    forall k ensures k in order <==> k in g.nodes { assert k in order <==> k in Elements(order); }
  }

  // ----- whole runs are fair ---------------------------------------------------------------

  lemma StartFair(g: Graph)
    requires g.Closed()
    ensures Fair(g, Start(g))
  {
    var s := Start(g);
    forall k | k in g.nodes ensures FairTag(g, s, k) && Caused(g, s, k) {
      ReachesRefl(g.RequiredRefs(), k);
      if Spoilt(s, k) { assert Reason(g, s, k, k); }
    }
  }

  lemma {:induction false} AllVisitedFit(g: Graph, order: seq<Key>)
    requires g.Closed() && g.Shallow() && forall k :: k in order ==> k in g.nodes
    ensures Fit(g, AllVisited(g, order))
  {
    if order == [] {
      StartReady(g);
      StartFair(g);
    } else {
      var front := order[..|order| - 1];
      var s := AllVisited(g, front);
      AllVisitedReady(g, front);
      AllVisitedFit(g, front);
      RootOnPath(g, s, Last(order));
      VisitedFair(g, s, [], Last(order));
    }
  }

  lemma {:induction false} PrefixLater(g: Graph, order: seq<Key>, i: nat)
    requires g.Closed() && g.Shallow() && i <= |order| && forall k :: k in order ==> k in g.nodes
    ensures Later(AllVisited(g, order[..i]), AllVisited(g, order))
    decreases |order|
  {
    if i == |order| {
      assert order[..i] == order;
      LaterRefl(AllVisited(g, order));
    } else {
      var front := order[..|order| - 1];
      var s := AllVisited(g, front);
      assert front[..i] == order[..i];
      PrefixLater(g, front, i);
      AllVisitedReady(g, front);
      AllVisitedFit(g, front);
      RootOnPath(g, s, Last(order));
      VisitedFair(g, s, [], Last(order));
      LaterTrans(AllVisited(g, order[..i]), s, AllVisited(g, order));
    }
  }

  // ----- why a tag is invalid --------------------------------------------------------------

  /** Once every tag is finished, a tag that requires an invalid one, however far, is invalid. */
  lemma {:induction false} SpoiltUp(g: Graph, s: Search, w: seq<Key>)
    requires Fair(g, s) && Done(g, s) && IsWalk(g.RequiredRefs(), w) && Spoilt(s, Last(w))
    ensures Spoilt(s, w[0])
  {
    if |w| > 1 {
      WalkSlice(g.RequiredRefs(), w, 1, |w|);
      SpoiltUp(g, s, w[1..]);
      assert (w[0], w[1]) in g.RequiredRefs();
      var k := w[0];
      var j :| 0 <= j < |g.nodes[k].edges| && g.nodes[k].edges[j].tag && g.nodes[k].edges[j].required
               && w[1] == Key(k.registry, g.nodes[k].edges[j].id);
      assert FairTag(g, s, k) && RefersAt(g, k, j) && Heeded(g, s, k, j);
    }
  }

  lemma RequiringSpoilt(g: Graph, s: Search, k: Key, m: Key)
    requires Fair(g, s) && Done(g, s) && Reaches(g.RequiredRefs(), k, m) && Spoilt(s, m)
    ensures Spoilt(s, k)
  {
    var w :| Connects(g.RequiredRefs(), k, m, w);
    SpoiltUp(g, s, w);
  }

  /**
   * On every graph below the cap, a tag ends invalid exactly when it requires, however far, a
   * malformed tag or one on a cycle that was met again while it was being resolved.
   */
  lemma InvalidIffReason(g: Graph, order: seq<Key>, k: Key)
    requires g.Closed() && g.Shallow() && NoneCaught(g) && Elements(order) == g.nodes.Keys && k in g.nodes
    ensures var s := AllVisited(g, order); Spoilt(s, k) <==> HasReason(g, s, k)
  {
    ListedIff(g, order);
    var s := AllVisited(g, order);
    AllVisitedFit(g, order);
    AllVisitedDone(g, order);
    assert Caused(g, s, k);
    if m :| Reason(g, s, k, m) {
      assert Caused(g, s, m);
      MalformedSpoilt(g, order, m);
      RequiringSpoilt(g, s, k, m);
    }
  }

  lemma MalformedSpoilt(g: Graph, order: seq<Key>, m: Key)
    requires g.Closed() && g.Shallow() && m in g.nodes && forall k :: k in order ==> k in g.nodes
    ensures g.nodes[m].status == Invalid ==> Spoilt(AllVisited(g, order), m)
  {
    PrefixLater(g, order, 0);
    assert order[..0] == [];
    assert LaterAt(Start(g), AllVisited(g, order), m);
  }

  /** A tag that requires all the tags of some cycle is invalid in every order: so is each tag that
      refers to itself, and each with a cycle of required references ahead. */
  lemma RequiredCycleSpoils(g: Graph, order: seq<Key>, k: Key, w: seq<Key>)
    requires g.Closed() && g.Shallow() && Elements(order) == g.nodes.Keys && IsCycle(g.Refs(), w)
    requires forall x :: x in w ==> Reaches(g.RequiredRefs(), k, x)
    ensures Spoilt(AllVisited(g, order), k)
  {
    ListedIff(g, order);
    AllVisitedFit(g, order);
    AllVisitedDone(g, order);
    EveryCycleSpoilt(g, order, w);
    var x :| x in w && Spoilt(AllVisited(g, order), x);
    RequiringSpoilt(g, AllVisited(g, order), k, x);
  }

  // ----- the tag visited first -------------------------------------------------------------

  /** Between root visits, all that a finished tag refers to is finished. */
  lemma {:induction false} WalkBlack(g: Graph, s: Search, w: seq<Key>, i: nat)
    requires Fair(g, s) && (forall k :: !s.Grey(k)) && IsWalk(g.Refs(), w) && s.Black(w[0]) && i < |w|
    ensures s.Black(w[i])
  {
    if i > 0 {
      WalkBlack(g, s, w, i - 1);
      var k := w[i - 1];
      assert (k, w[i]) in g.Refs();
      var j :| 0 <= j < |g.nodes[k].edges| && g.nodes[k].edges[j].tag && w[i] == Key(k.registry, g.nodes[k].edges[j].id);
      assert FairTag(g, s, k) && RefersAt(g, k, j) && Heeded(g, s, k, j);
      assert !s.Grey(w[i]);
    }
  }

  /** A tag on a cycle that is finished last is invalid. */
  lemma LastFinishedSpoilt(g: Graph, s: Search, fin: seq<Key>, m: Key)
    requires Fair(g, s) && (forall k :: !s.Grey(k)) && Finishing(g, s, fin)
    requires fin != [] && Last(fin) == m && Circular(g.Refs(), m)
    ensures Spoilt(s, m)
  {
    hide Graph.Refs, Fair;
    var w :| IsCycle(g.Refs(), w) && w[0] == m;
    assert m in fin;
    WalkBlack(g, s, w, |w| - 2);
    var u := w[|w| - 2];
    assert (u, m) in g.Refs() && u in fin;
    var j :| 0 <= j < |fin| && fin[j] == u;
    assert Settles(s, fin[..j], m);
    assert m !in fin[..j];
  }

  lemma VisitedAlone(g: Graph, m: Key)
    requires g.Closed() && m in g.nodes
    ensures AllVisited(g, [m]) == Visited(g, Start(g), m, 0).0
  {
    hide Visited;
    AllVisitedNext(g, [m], 0);
    assert [m][..1] == [m] && [m][..0] == [];
  }

  lemma AloneSpoilt(g: Graph, m: Key)
    requires g.Closed() && g.Shallow() && m in g.nodes && Circular(g.Refs(), m)
    ensures Spoilt(AllVisited(g, [m]), m)
  {
    VisitedAlone(g, m);
    AllVisitedReady(g, [m]);
    AllVisitedFit(g, [m]);
    hide Visited, AllVisited, Fair, Circular, Graph.Refs, Graph.Shallow, Graph.Closed;
    assert Finishing(g, Start(g), []);
    hide Finishing;
    var fin := VisitedFinishing(g, Start(g), m, 0, []);
    LastFinishedSpoilt(g, AllVisited(g, [m]), fin, m);
  }

  /** A tag on a cycle that is visited first ends invalid. */
  lemma FirstSpoilt(g: Graph, order: seq<Key>)
    requires g.Closed() && g.Shallow() && order != [] && Circular(g.Refs(), order[0])
    requires forall k :: k in order ==> k in g.nodes
    ensures Spoilt(AllVisited(g, order), order[0])
  {
    hide Visited, AllVisited, Later, Circular, Graph.Refs, Graph.Shallow, Graph.Closed;
    assert order[..1] == [order[0]];
    AloneSpoilt(g, order[0]);
    PrefixLater(g, order, 1);
    SpoiltLater(AllVisited(g, order[..1]), AllVisited(g, order), order[0]);
  }

  lemma SpoiltLater(s: Search, t: Search, k: Key)
    requires Later(s, t) && Spoilt(s, k)
    ensures Spoilt(t, k)
  {
    assert LaterAt(s, t, k);
  }

  lemma {:induction false} MovedToFront(g: Graph, order: seq<Key>, k: Key) returns (moved: seq<Key>)
    requires Lists(g, order) && k in g.nodes
    ensures Lists(g, moved) && moved != [] && moved[0] == k
  {
    ListedIff(g, order);
    var i :| 0 <= i < |order| && order[i] == k;
    moved := [k] + order[..i] + order[i + 1..];
    forall x ensures x in moved <==> x in order {
      if x in order {
        var j :| 0 <= j < |order| && order[j] == x;
        assert j < i ==> x in order[..i];
        assert j > i ==> x == order[i + 1..][j - i - 1];
      }
    }
    assert Elements(moved) == Elements(order);
    forall a, b | 0 <= a < b < |moved| ensures moved[a] != moved[b] {
      assert moved[b] == if b <= i then order[b - 1] else order[b];
      assert moved[a] == if a == 0 then k else if a <= i then order[a - 1] else order[a];
    }
  }

  // ----- when some order makes a tag invalid ------------------------------------------------

  ghost predicate Endangers(g: Graph, k: Key, m: Key) {
    && m in g.nodes && Reaches(g.RequiredRefs(), k, m)
    && (g.nodes[m].status == Invalid || Circular(g.Refs(), m))
  }

  /** The first tag on a cycle, or else the malformed one, on the way from w[0] to Last(w). */
  lemma {:induction false} SpoilingOrder(g: Graph, order: seq<Key>, k: Key, m: Key) returns (other: seq<Key>)
    requires g.Closed() && g.Shallow() && Lists(g, order) && Endangers(g, k, m)
    ensures Lists(g, other) && Spoilt(AllVisited(g, other), k)
  {
    other := MovedToFront(g, order, m);
    ListedIff(g, other);
    AllVisitedFit(g, other);
    AllVisitedDone(g, other);
    if Circular(g.Refs(), m) { FirstSpoilt(g, other); }
    MalformedSpoilt(g, other, m);
    RequiringSpoilt(g, AllVisited(g, other), k, m);
  }

  ghost predicate SpoiltIn(g: Graph, order: seq<Key>, k: Key)
    requires g.Closed()
  {
    Lists(g, order) && (ListedIff(g, order); Spoilt(AllVisited(g, order), k))
  }

  /** Some order makes k invalid exactly when k requires, however far, a malformed tag or one on a
      cycle, whether its references are required or not. */
  lemma InvalidInSomeOrderIff(g: Graph, order: seq<Key>, k: Key)
    requires g.Closed() && g.Shallow() && Lists(g, order) && k in g.nodes
    ensures (exists o :: SpoiltIn(g, o, k)) <==> exists m :: Endangers(g, k, m)
  {
    if o :| SpoiltIn(g, o, k) {
      ListedIff(g, o);
      AllVisitedFit(g, o);
      assert Caused(g, AllVisited(g, o), k);
      var m :| Reason(g, AllVisited(g, o), k, m);
      assert Endangers(g, k, m);
    }
    if m :| Endangers(g, k, m) {
      var o := SpoilingOrder(g, order, k, m);
      assert SpoiltIn(g, o, k);
    }
  }
}
