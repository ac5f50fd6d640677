/** What the search makes of tags on cycles, for every graph, every order and any depth. */
module TagCycles {
  import opened Walks
  import opened Ordering
  import opened TagResolution

  ghost predicate Spoilt(s: Search, k: Key) {
    k in s.tags && s.tags[k].status == Invalid
  }

  /** Colours that are given stay, invalid stays invalid, and a finished tag keeps its members. */
  ghost predicate SteadyAt(s: Search, t: Search, k: Key) {
    && (k in s.colour && !s.White(k) ==> k in t.colour && t.colour[k] == s.colour[k])
    && (Spoilt(s, k) ==> Spoilt(t, k))
    && (s.Black(k) && k in s.tags ==> k in t.tags && t.tags[k].members == s.tags[k].members)
  }

  ghost predicate Steady(s: Search, t: Search) {
    forall k :: SteadyAt(s, t, k)
  }

  lemma SteadyTrans(s: Search, t: Search, u: Search)
    requires Steady(s, t) && Steady(t, u)
    ensures Steady(s, u)
  {
    forall k ensures SteadyAt(s, u, k) {
      assert SteadyAt(s, t, k) && SteadyAt(t, u, k);
    }
  }

  /** A reference to c is harmless: c is invalid, or was finished before. */
  ghost predicate Settles(s: Search, before: seq<Key>, c: Key) {
    Spoilt(s, c) || c in before
  }

  /** fin lists the finished tags in the order in which they were finished; each reference of a
      tag in it leads to a tag before it, or to an invalid one. */
  ghost predicate Finishing(g: Graph, s: Search, fin: seq<Key>) {
    && Simple(fin) && (forall k :: k in fin <==> s.Black(k))
    && forall j, c :: 0 <= j < |fin| && (fin[j], c) in g.Refs() ==> Settles(s, fin[..j], c)
  }

  /** The entries of key before i have been followed. */
  ghost predicate Followed(g: Graph, s: Search, fin: seq<Key>, key: Key, i: int)
    requires key in g.nodes && i <= |g.nodes[key].edges|
  {
    forall j :: 0 <= j < i && g.nodes[key].edges[j].tag ==> Settles(s, fin, Key(key.registry, g.nodes[key].edges[j].id))
  }

  /** Later states and longer lists keep what has been settled. */
  lemma SettlesLater(s: Search, t: Search, fin: seq<Key>, out: seq<Key>)
    requires Steady(s, t) && fin <= out
    ensures forall c :: Settles(s, fin, c) ==> Settles(t, out, c)
  {
    forall c | Settles(s, fin, c) ensures Settles(t, out, c) {
      assert SteadyAt(s, t, c);
      if c in fin {
        var i :| 0 <= i < |fin| && fin[i] == c;
        assert out[i] == c;
      }
    }
  }

  lemma RetaggedFinishing(g: Graph, s: Search, fin: seq<Key>, key: Key, t: Tag)
    requires s.Over(g) && key in g.nodes && Finishing(g, s, fin)
    requires t.members == s.tags[key].members && (s.tags[key].status == Invalid ==> t.status == Invalid)
    ensures Steady(s, s.Retagged(key, t)) && Finishing(g, s.Retagged(key, t), fin)
  {
    var u := s.Retagged(key, t);
    forall k ensures SteadyAt(s, u, k) {}
    forall j, c | 0 <= j < |fin| && (fin[j], c) in g.Refs() ensures Settles(u, fin[..j], c) {
      SettlesLater(s, u, fin[..j], fin[..j]);
    }
  }

  lemma GreyedFinishing(g: Graph, s: Search, fin: seq<Key>, key: Key)
    requires s.Over(g) && key in g.nodes && s.White(key) && Finishing(g, s, fin)
    ensures Steady(s, s.Coloured(key, Colour.Grey)) && Finishing(g, s.Coloured(key, Colour.Grey), fin)
  {
    var u := s.Coloured(key, Colour.Grey);
    forall k ensures SteadyAt(s, u, k) {}
    forall j, c | 0 <= j < |fin| && (fin[j], c) in g.Refs() ensures Settles(u, fin[..j], c) {
      assert Settles(s, fin[..j], c);
    }
  }

  /** A tag whose entries have all been followed can be appended. */
  lemma FinishedFinishing(g: Graph, s: Search, key: Key, r: (Search, set<string>), fin: seq<Key>)
    requires s.Over(g) && r.0.Over(g) && key in g.nodes && s.White(key) && r.0.Grey(key)
    requires Steady(s, r.0) && Finishing(g, r.0, fin) && Followed(g, r.0, fin, key, |g.nodes[key].edges|)
    ensures Steady(s, Finished(key, r).0) && Finishing(g, Finished(key, r).0, fin + [key])
  {
    var u, out := Finished(key, r).0, fin + [key];
    forall k ensures SteadyAt(s, u, k) && (Spoilt(r.0, k) ==> Spoilt(u, k)) {
      assert SteadyAt(s, r.0, k);
    }
    assert key !in fin;
    forall j, c | 0 <= j < |out| && (out[j], c) in g.Refs() ensures Settles(u, out[..j], c) {
      if j < |fin| {
        assert out[..j] == fin[..j] && Settles(r.0, fin[..j], c);
      } else {
        assert out[..j] == fin && Settles(r.0, fin, c);
      }
    }
  }

  lemma {:induction false} VisitedFinishing(g: Graph, s: Search, key: Key, depth: nat, fin: seq<Key>) returns (out: seq<Key>)
    requires g.Closed() && s.Over(g) && key in g.nodes && Finishing(g, s, fin)
    ensures var t := Visited(g, s, key, depth).0;
      Finishing(g, t, out) && Steady(s, t) && fin <= out && Settles(t, out, key)
    ensures s.White(key) && depth <= MAX_DEPTH ==> out != [] && Last(out) == key
    decreases g.nodes.Keys - s.colour.Keys, 0, 0
  {
    hide Finishing, Steady, Followed;
    if s.Grey(key) || depth > MAX_DEPTH {
      RetaggedFinishing(g, s, fin, key, Flagged(s.tags[key]));
      out := fin;
    } else if s.Black(key) {
      RetaggedFinishing(g, s, fin, key, s.tags[key]);
      assert s.Retagged(key, s.tags[key]) == s;
      FinishingBlack(g, s, fin, key);
      out := fin;
    } else {
      var s1, n := s.Coloured(key, Colour.Grey), |g.nodes[key].edges|;
      GreyedFinishing(g, s, fin, key);
      assert key in g.nodes.Keys - s.colour.Keys;
      var rest := EntriesFinishing(g, s1, key, depth, n, fin);
      var r := EntriesVisited(g, s1, key, depth, n);
      SteadyTrans(s, s1, r.0);
      SteadyGrey(s1, r.0, key);
      FinishedFinishing(g, s, key, r, rest);
      out := rest + [key];
    }
  }

  lemma FinishingBlack(g: Graph, s: Search, fin: seq<Key>, key: Key)
    requires Finishing(g, s, fin) && s.Black(key)
    ensures Settles(s, fin, key)
  {
  }

  lemma SteadyGrey(s: Search, t: Search, key: Key)
    requires Steady(s, t) && s.Grey(key)
    ensures t.Grey(key)
  {
    assert SteadyAt(s, t, key);
  }

  lemma FollowedLater(g: Graph, s: Search, t: Search, fin: seq<Key>, out: seq<Key>, key: Key, i: int)
    requires key in g.nodes && i <= |g.nodes[key].edges| && Followed(g, s, fin, key, i) && Steady(s, t) && fin <= out
    ensures Followed(g, t, out, key, i)
  {
    SettlesLater(s, t, fin, out);
  }

  /** Blaming key for entry i, once the tag it names has been visited. */
  lemma BlamedFinishing(g: Graph, s: Search, r: Search, v: Search, key: Key, i: nat, mid: seq<Key>, out: seq<Key>)
    requires g.Closed() && key in g.nodes && i < |g.nodes[key].edges| && g.nodes[key].edges[i].tag
    requires v.Over(g) && Steady(s, r) && Steady(r, v) && Finishing(g, v, out) && mid <= out
    requires Followed(g, r, mid, key, i) && Settles(v, out, Key(key.registry, g.nodes[key].edges[i].id))
    ensures var u := Blamed(v, key, g.nodes[key].edges[i]);
      Finishing(g, u, out) && Steady(s, u) && Followed(g, u, out, key, i + 1)
  {
    var e := g.nodes[key].edges[i];
    var child, u := Key(key.registry, e.id), Blamed(v, key, e);
    RetaggedFinishing(g, v, out, key, Blame(v.tags[key], e, v.tags[child].status));
    hide Finishing, Steady, Settles, Blame;
    SteadyTrans(s, r, v);
    SteadyTrans(s, v, u);
    SteadyTrans(r, v, u);
    FollowedLater(g, r, u, mid, out, key, i);
    SettlesLater(v, u, out, out);
  }

  lemma {:induction false} EntriesFinishing(g: Graph, s: Search, key: Key, depth: nat, i: nat, fin: seq<Key>) returns (out: seq<Key>)
    requires g.Closed() && s.Over(g) && key in g.nodes && i <= |g.nodes[key].edges| && Finishing(g, s, fin)
    ensures var t := EntriesVisited(g, s, key, depth, i).0;
      Finishing(g, t, out) && Steady(s, t) && fin <= out && Followed(g, t, out, key, i)
    decreases g.nodes.Keys - s.colour.Keys, 1, i
  {
    hide Finishing, Steady, Settles;
    if i == 0 {
      RetaggedFinishing(g, s, fin, key, s.tags[key]);
      assert s.Retagged(key, s.tags[key]) == s;
      out := fin;
    } else {
      var mid := EntriesFinishing(g, s, key, depth, i - 1, fin);
      var r, e := EntriesVisited(g, s, key, depth, i - 1), g.nodes[key].edges[i - 1];
      out := mid;
      if e.tag {
        var child := Key(key.registry, e.id);
        out := VisitedFinishing(g, r.0, child, depth + 1, mid);
        BlamedFinishing(g, s, r.0, Visited(g, r.0, child, depth + 1).0, key, i - 1, mid, out);
      }
    }
  }

  // ----- every cycle is spoilt -------------------------------------------------------------

  /** Along valid tags, references lead to tags that were finished earlier. */
  lemma {:induction false} ValidWalkDescends(g: Graph, s: Search, fin: seq<Key>, w: seq<Key>, j: nat)
    requires Finishing(g, s, fin) && IsWalk(g.Refs(), w) && |w| >= 2 && j < |fin| && fin[j] == w[0]
    requires forall i :: 0 < i < |w| ==> !Spoilt(s, w[i])
    ensures Last(w) in fin[..j]
    decreases |w|
  {
    assert (w[0], w[1]) in g.Refs();
    assert Settles(s, fin[..j], w[1]);
    if |w| > 2 {
      var i :| 0 <= i < j && fin[i] == w[1];
      WalkSlice(g.Refs(), w, 1, |w|);
      ValidWalkDescends(g, s, fin, w[1..], i);
    }
  }

  ghost predicate SpoiltOn(s: Search, w: seq<Key>) {
    exists i :: 0 <= i < |w| && Spoilt(s, w[i])
  }

  /** A cycle whose tags are finished holds an invalid one. */
  lemma FinishedCycleSpoilt(g: Graph, s: Search, fin: seq<Key>, w: seq<Key>)
    requires Finishing(g, s, fin) && IsCycle(g.Refs(), w) && s.Black(w[0])
    ensures SpoiltOn(s, w)
  {
    if !SpoiltOn(s, w) {
      assert w[0] in fin;
      var j :| 0 <= j < |fin| && fin[j] == w[0];
      forall i | 0 < i < |w| ensures !Spoilt(s, w[i]) {}
      ValidWalkDescends(g, s, fin, w, j);
    }
  }

  lemma {:induction false} AllVisitedFinishing(g: Graph, order: seq<Key>) returns (fin: seq<Key>)
    requires g.Closed() && forall k :: k in order ==> k in g.nodes
    ensures Finishing(g, AllVisited(g, order), fin)
  {
    fin := [];
    if order != [] {
      fin := AllVisitedFinishing(g, order[..|order| - 1]);
      fin := VisitedFinishing(g, AllVisited(g, order[..|order| - 1]), Last(order), 0, fin);
    }
  }

  /** Every cycle of references, required or not, holds a tag that ends invalid: on every graph, in
      every order, at any depth. */
  lemma EveryCycleSpoilt(g: Graph, order: seq<Key>, w: seq<Key>)
    requires g.Closed() && Elements(order) == g.nodes.Keys && IsCycle(g.Refs(), w)
    ensures exists k :: k in w && Spoilt(AllVisited(g, order), k)
  {
    AllVisitedDone(g, order);
    var s := AllVisited(g, order);
    var fin := AllVisitedFinishing(g, order);
    assert (w[0], w[1]) in g.Refs();
    FinishedCycleSpoilt(g, s, fin, w);
    var i :| 0 <= i < |w| && Spoilt(s, w[i]);
    assert w[i] in w;
  }
}
