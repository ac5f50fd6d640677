/** The cap on depth: when it is out of reach, and what happens beyond it. */
module TagDepth {
  import opened Walks
  import opened Ordering
  import opened TagResolution
  import opened TagCycles

  /** With at most 129 tags the cap is out of reach. */
  lemma FewTagsShallow(g: Graph)
    requires g.Closed() && |g.nodes| <= 129
    ensures g.Shallow()
  {
    forall w | IsWalk(g.Refs(), w) && Simple(w) ensures |w| <= MAX_DEPTH + 1 {
      if |w| > 1 {
        forall i | 0 <= i < |w| ensures w[i] in g.nodes.Keys {
          assert (if i == 0 then (w[0], w[1]) else (w[i - 1], w[i])) in g.Refs();
        }
        SimpleIsShort(w, g.nodes.Keys);
        assert |g.nodes.Keys| == |g.nodes|;
      }
    }
  }

  /** w is a chain of well-formed tags, each of which requires exactly the next. */
  ghost predicate Chain(g: Graph, w: seq<Key>) {
    && g.Closed() && Simple(w) && (forall i :: 0 <= i < |w| ==> w[i] in g.nodes)
    && forall i :: 0 <= i < |w| - 1 ==>
      w[i].registry == w[i + 1].registry && g.nodes[w[i]].edges == [Edge(w[i + 1].id, true, true, false)]
  }

  /** Visiting a tag of the chain is visiting the next one, and blaming. */
  lemma ChainLinkVisited(g: Graph, w: seq<Key>, s: Search, i: nat)
    requires Chain(g, w) && i < |w| - 1 && i <= MAX_DEPTH && s.Over(g) && s.White(w[i])
    ensures var e := Edge(w[i + 1].id, true, true, false);
      var v := Visited(g, s.Coloured(w[i], Colour.Grey), w[i + 1], i + 1);
      Visited(g, s, w[i], i) == Finished(w[i], (Blamed(v.0, w[i], e), Merge({}, e, v.1)))
  {
    var s1, e := s.Coloured(w[i], Colour.Grey), Edge(w[i + 1].id, true, true, false);
    assert g.nodes[w[i]].edges == [e];
    assert w[i + 1] == Key(w[i].registry, w[i + 1].id);
    var v := Visited(g, s1, w[i + 1], i + 1);
    assert EntriesVisited(g, s1, w[i], i, 0) == (s1, {});
    assert EntriesVisited(g, s1, w[i], i, 1) == (Blamed(v.0, w[i], e), Merge({}, e, v.1));
  }

  lemma BeyondCap(g: Graph, s: Search, k: Key, depth: nat)
    requires g.Closed() && s.Over(g) && k in g.nodes && depth > MAX_DEPTH
    ensures Visited(g, s, k, depth) == (s.Retagged(k, Flagged(s.tags[k])), {})
  {
  }

  /** The hypothesis on depth is sharp: visited from its head, a chain of 130 tags is invalid. */
  lemma {:induction false} DeepChainInvalid(g: Graph, w: seq<Key>, s: Search, i: nat)
    requires Chain(g, w) && |w| == 130 && i < |w| && s.Over(g)
    requires forall j :: i <= j < |w| ==> s.White(w[j])
    ensures Visited(g, s, w[i], i).0.tags[w[i]].status == Invalid
    decreases |w| - i
  {
    hide Visited, EntriesVisited;
    if i == |w| - 1 {
      BeyondCap(g, s, w[i], i);
    } else {
      ChainLinkVisited(g, w, s, i);
      DeepChainInvalid(g, w, s.Coloured(w[i], Colour.Grey), i + 1);
    }
  }

  // ----- when an invalid tag keeps members ---------------------------------------------------

  /** A chain of 130 different tags leads to k. */
  ghost predicate DeepAt(g: Graph, k: Key) {
    exists w :: IsWalk(g.Refs(), w) && Simple(w) && |w| == 130 && Last(w) == k
  }

  ghost predicate TidyTag(g: Graph, s: Search, k: Key)
    requires k in s.tags
  {
    s.Black(k) && s.tags[k].status == Invalid && s.tags[k].members != [] ==> DeepAt(g, k)
  }

  /** A finished tag that is invalid is empty, unless a chain of 130 tags leads to it. */
  ghost predicate Tidy(g: Graph, s: Search) {
    s.Over(g) && forall k :: k in g.nodes ==> TidyTag(g, s, k)
  }

  lemma MetDeep(g: Graph, s: Search, path: seq<Key>, key: Key)
    requires OnPath(g, s, path, key) && |path| > MAX_DEPTH && !s.Grey(key)
    ensures DeepAt(g, key)
  {
    var p, i := path + [key], |path| - MAX_DEPTH - 1;
    assert Simple(p) by { assert key !in path; }
    WalkSlice(g.Refs(), p, i, |p|);
    var w := p[i..];
    assert w == p[i..|p|] && forall a, b :: 0 <= a < b < |w| ==> w[a] == p[i + a] && w[b] == p[i + b];
    assert IsWalk(g.Refs(), w) && Simple(w) && |w| == MAX_DEPTH + 2 && Last(w) == key;
  }

  lemma GuardTidy(g: Graph, s: Search, path: seq<Key>, key: Key)
    requires Tidy(g, s) && OnPath(g, s, path, key) && (s.Grey(key) || |path| > MAX_DEPTH)
    ensures Tidy(g, s.Retagged(key, Flagged(s.tags[key])))
  {
    hide DeepAt;
    if !s.Grey(key) { MetDeep(g, s, path, key); }
    forall k | k in g.nodes ensures TidyTag(g, s.Retagged(key, Flagged(s.tags[key])), k) {
      assert TidyTag(g, s, k);
    }
  }

  /** Steps on a tag that is not finished, and finishing it. */
  lemma StepTidy(g: Graph, s: Search, t: Search, key: Key)
    requires Tidy(g, s) && t.Over(g) && key in g.nodes
    requires t.Black(key) && t.tags[key].status == Invalid ==> t.tags[key].members == []
    requires forall k :: k in g.nodes && k != key ==> t.tags[k] == s.tags[k] && (t.Black(k) <==> s.Black(k))
    ensures Tidy(g, t)
  {
    hide DeepAt;
    forall k | k in g.nodes ensures TidyTag(g, t, k) {
      assert TidyTag(g, s, k);
    }
  }

  lemma {:induction false} VisitedTidy(g: Graph, s: Search, path: seq<Key>, key: Key)
    requires g.Closed() && Valid(g, s) && OnPath(g, s, path, key) && Tidy(g, s)
    ensures Tidy(g, Visited(g, s, key, |path|).0)
    decreases g.nodes.Keys - s.colour.Keys, 0, 0
  {
    hide Tidy, EntriesVisited, Valid, AnswersUpTo;
    if s.Grey(key) || |path| > MAX_DEPTH {
      GuardTidy(g, s, path, key);
    } else if s.White(key) {
      var s1, n := s.Coloured(key, Colour.Grey), |g.nodes[key].edges|;
      OpenAnswers(g, s, path, key);
      StepTidy(g, s, s1, key);
      assert key in g.nodes.Keys - s.colour.Keys;
      EntriesTidy(g, s, s1, path, key, n);
      var r := EntriesVisited(g, s1, key, |path|, n);
      StepTidy(g, r.0, Finished(key, r).0, key);
    }
  }

  lemma {:induction false} EntriesTidy(g: Graph, s: Search, s1: Search, path: seq<Key>, key: Key, i: nat)
    requires g.Closed() && Opened(g, s1, path, key) && i <= |g.nodes[key].edges|
    requires AnswersUpTo(g, s, s1, key, 0, (s1, {})) && Tidy(g, s1)
    ensures Tidy(g, EntriesVisited(g, s1, key, |path|, i).0)
    decreases g.nodes.Keys - s1.colour.Keys, 1, i
  {
    hide Tidy, Visited, Valid, AnswersUpTo;
    if i > 0 {
      EntriesTidy(g, s, s1, path, key, i - 1);
      var r, e := EntriesVisited(g, s1, key, |path|, i - 1), g.nodes[key].edges[i - 1];
      if e.tag {
        var c := Key(key.registry, e.id);
        EntriesAnswer(g, s, s1, path, key, i - 1);
        EntryStarts(g, s, s1, path, key, i - 1, r);
        VisitedTidy(g, r.0, path + [key], c);
        VisitedAnswers(g, r.0, path + [key], c);
        StillGrey(g, r.0, path, key, c);
        StepTidy(g, Visited(g, r.0, c, |path| + 1).0, Blamed(Visited(g, r.0, c, |path| + 1).0, key, e), key);
      }
    }
  }

  lemma StillGrey(g: Graph, s: Search, path: seq<Key>, key: Key, c: Key)
    requires g.Closed() && OnPath(g, s, path + [key], c) && Answers(g, s, c, Visited(g, s, c, |path| + 1))
    ensures Visited(g, s, c, |path| + 1).0.Grey(key)
  {
    hide Visited, Valid;
    assert key in path + [key];
    assert ColourKept(s, Visited(g, s, c, |path| + 1).0, key);
  }

  lemma {:induction false} AllVisitedTidy(g: Graph, order: seq<Key>)
    requires g.Closed() && forall k :: k in order ==> k in g.nodes
    ensures Tidy(g, AllVisited(g, order))
  {
    hide Visited;
    if order != [] {
      var front := order[..|order| - 1];
      AllVisitedTidy(g, front);
      AllVisitedReady(g, front);
      RootOnPath(g, AllVisited(g, front), Last(order));
      VisitedTidy(g, AllVisited(g, front), [], Last(order));
    }
  }

  /** On every graph and in every order: a tag that ends invalid keeps members only if a chain of 130
      different tags leads to it. */
  lemma InvalidKeepsMembersOnlyDeep(g: Graph, order: seq<Key>, k: Key)
    requires g.Closed() && Elements(order) == g.nodes.Keys && Spoilt(AllVisited(g, order), k)
    ensures AllVisited(g, order).tags[k].members != [] ==> DeepAt(g, k)
  {
    AllVisitedDone(g, order);
    forall x | x in order ensures x in g.nodes { assert x in Elements(order); }
    AllVisitedTidy(g, order);
    assert TidyTag(g, AllVisited(g, order), k);
  }

  /** While the cap is out of reach, a tag that ends invalid ends without members. */
  lemma InvalidIsEmpty(g: Graph, order: seq<Key>, k: Key)
    requires g.Closed() && g.Shallow() && Elements(order) == g.nodes.Keys && Spoilt(AllVisited(g, order), k)
    ensures AllVisited(g, order).tags[k].members == []
  {
    InvalidKeepsMembersOnlyDeep(g, order, k);
  }

  // ----- a run in which an invalid tag keeps its members ------------------------------------

  lemma {:induction false} PrefixSteady(g: Graph, order: seq<Key>, i: nat)
    requires g.Closed() && i <= |order| && forall k :: k in order ==> k in g.nodes
    ensures Steady(AllVisited(g, order[..i]), AllVisited(g, order))
    decreases |order|
  {
    if i == |order| {
      assert order[..i] == order;
      forall k ensures SteadyAt(AllVisited(g, order), AllVisited(g, order), k) {}
    } else {
      var front := order[..|order| - 1];
      assert front[..i] == order[..i];
      PrefixSteady(g, front, i);
      var fin := AllVisitedFinishing(g, front);
      fin := VisitedFinishing(g, AllVisited(g, front), Last(order), 0, fin);
      SteadyTrans(AllVisited(g, order[..i]), AllVisited(g, front), AllVisited(g, order));
    }
  }

  /** Following a chain of 130 tags from its i-th, when only its last tag is finished. */
  lemma {:induction false} DeepChainEnd(g: Graph, w: seq<Key>, s: Search, i: nat)
    requires Chain(g, w) && |w| == 130 && i < |w| && s.Over(g) && s.Black(Last(w))
    requires forall j :: i <= j < |w| - 1 ==> s.White(w[j])
    ensures var t := Visited(g, s, w[i], i).0;
      Spoilt(t, Last(w)) && t.Black(Last(w)) && t.tags[Last(w)].members == s.tags[Last(w)].members
    decreases |w| - i
  {
    hide Visited, EntriesVisited;
    if i == |w| - 1 {
      BeyondCap(g, s, w[i], i);
    } else {
      ChainLinkVisited(g, w, s, i);
      var s1, e := s.Coloured(w[i], Colour.Grey), Edge(w[i + 1].id, true, true, false);
      DeepChainEnd(g, w, s1, i + 1);
      var v := Visited(g, s1, w[i + 1], i + 1);
      LinkKeepsOther(w[i], e, v, Last(w));
    }
  }

  /** Blaming and finishing a tag leaves another one as it is. */
  lemma LinkKeepsOther(k: Key, e: Edge, v: (Search, set<string>), other: Key)
    requires k in v.0.tags && Key(k.registry, e.id) in v.0.tags && other in v.0.tags && other != k
    ensures var t := Finished(k, (Blamed(v.0, k, e), Merge({}, e, v.1))).0;
      t.tags[other] == v.0.tags[other] && (t.Black(other) <==> v.0.Black(other))
  {
  }

  /** The last tag of the chain adds one member. */
  ghost predicate EndsIn(g: Graph, w: seq<Key>, m: string) {
    && Chain(g, w) && w != []
    && g.nodes[Last(w)] == Node(Resolved, [], [Edge(m, false, false, false)]) && m in g.Catalog(Last(w).registry)
  }

  lemma LeafVisited(g: Graph, k: Key, m: string)
    requires g.Closed() && k in g.nodes && m in g.Catalog(k.registry)
    requires g.nodes[k] == Node(Resolved, [], [Edge(m, false, false, false)])
    ensures var s := AllVisited(g, [k]); s.colour == map[k := Colour.Black] && s.tags[k].members == [m]
  {
    var s, e := Start(g), Edge(m, false, false, false);
    var s1 := s.Coloured(k, Colour.Grey);
    assert [k][..0] == [] && AllVisited(g, [k]) == Visited(g, s, k, 0).0;
    assert EntriesVisited(g, s1, k, 0, 0) == (s1, {});
    assert EntriesVisited(g, s1, k, 0, 1) == (s1, Merge({}, e, {m}));
    assert Merge({}, e, {m}) == {m};
    AscendingUnique(Listed({m}), [m]);
  }

  /** Visited after its last tag, a chain of 130 tags leaves that tag invalid with its member. */
  lemma DeepMemoRun(g: Graph, w: seq<Key>, m: string, order: seq<Key>)
    requires EndsIn(g, w, m) && |w| == 130 && (forall k :: k in order ==> k in g.nodes)
    requires |order| >= 2 && order[0] == Last(w) && order[1] == w[0]
    ensures var s := AllVisited(g, order); Spoilt(s, Last(w)) && s.tags[Last(w)].members == [m]
  {
    hide Visited;
    var k := Last(w);
    LeafVisited(g, k, m);
    assert order[..2][..1] == [k] && order[..2][..1] == order[..1];
    var s := AllVisited(g, [k]);
    assert AllVisited(g, order[..2]) == Visited(g, s, w[0], 0).0;
    DeepChainEnd(g, w, s, 0);
    PrefixSteady(g, order, 2);
    assert SteadyAt(AllVisited(g, order[..2]), AllVisited(g, order), k);
  }

  // ----- such a graph, visited in the order of its names -----------------------------------

  function Name(n: nat): (s: string)
    ensures |s| == n && forall i :: 0 <= i < n ==> s[i] == 'a'
  {
    if n == 0 then "" else ['a'] + Name(n - 1)
  }

  function Named(n: nat): Key { Key(ItemRegistry, "n:a" + Name(n)) }

  ghost function DeepNode(n: nat): Node {
    if n == 0 then Node(Resolved, [], [Edge("n:m", false, false, false)])
    else Node(Resolved, [], [Edge(Named(if n <= MAX_DEPTH then n + 1 else 0).id, true, true, false)])
  }

  ghost function DeepKeys(): set<Key> {
    set n: nat | n <= MAX_DEPTH + 1 :: Named(n)
  }

  /** The tags n:a, n:aa, n:aaa and so on: each but the first requires the next, and the last the first. */
  ghost function DeepGraph(): Graph {
    Graph(map k | k in DeepKeys() :: DeepNode(|k.id| - 3), {"n:m"}, {})
  }

  ghost function DeepOrder(): seq<Key> {
    seq(MAX_DEPTH + 2, n requires 0 <= n < MAX_DEPTH + 2 => Named(n))
  }

  lemma {:induction false} NameLess(a: nat, b: nat)
    requires a < b
    ensures Less(Name(a), Name(b))
  {
    if a > 0 {
      NameLess(a - 1, b - 1);
      assert Name(a)[1..] == Name(a - 1) && Name(b)[1..] == Name(b - 1);
    }
  }

  lemma NamedIn(n: nat)
    requires n <= MAX_DEPTH + 1
    ensures Named(n) in DeepGraph().nodes && DeepGraph().nodes[Named(n)] == DeepNode(n)
  {
    assert Named(n) in DeepKeys() && |Named(n).id| == n + 3;
  }

  lemma DeepGraphClosed()
    ensures DeepGraph().Closed()
  {
    var g := DeepGraph();
    forall k, i | k in g.nodes && 0 <= i < |g.nodes[k].edges| && g.nodes[k].edges[i].tag
      ensures Key(k.registry, g.nodes[k].edges[i].id) in g.nodes
    {
      var n: nat :| n <= MAX_DEPTH + 1 && k == Named(n);
      NamedIn(n);
      NamedIn(if n <= MAX_DEPTH then n + 1 else 0);
    }
  }

  lemma DeepOrderLists()
    ensures Elements(DeepOrder()) == DeepGraph().nodes.Keys
    ensures forall i, j :: 0 <= i < j < |DeepOrder()| ==> Less(DeepOrder()[i].id, DeepOrder()[j].id)
  {
    hide DeepNode, Name;
    var g, order := DeepGraph(), DeepOrder();
    forall i, j | 0 <= i < j < |order| ensures Less(order[i].id, order[j].id) {
      NameLess(i, j);
      LessPrefix("n:a", Name(i), Name(j));
    }
    forall k ensures k in order <==> k in g.nodes {
      if k in g.nodes {
        var n: nat :| n <= MAX_DEPTH + 1 && k == Named(n);
        assert order[n] == k;
      }
      if k in order {
        var n :| 0 <= n < |order| && order[n] == k;
        NamedIn(n);
      }
    }
  }

  ghost function DeepWalk(): seq<Key> {
    DeepOrder()[1..] + [Named(0)]
  }

  lemma DeepWalkEndsIn()
    ensures EndsIn(DeepGraph(), DeepWalk(), "n:m")
  {
    hide Name;
    DeepGraphClosed();
    var g, w := DeepGraph(), DeepWalk();
    hide DeepGraph, Graph.Closed;
    assert forall i :: 0 <= i < |w| - 1 ==> w[i] == Named(i + 1);
    NamedIn(0);
    assert Named(0) in g.nodes && g.nodes[Named(0)] == DeepNode(0);
    forall i | 0 <= i < |w| - 1
      ensures w[i] in g.nodes && w[i].registry == w[i + 1].registry
      ensures g.nodes[w[i]].edges == [Edge(w[i + 1].id, true, true, false)]
    {
      NamedIn(i + 1);
      assert w[i + 1] == Named(if i + 1 <= MAX_DEPTH then i + 2 else 0);
    }
    forall i, j | 0 <= i < j < |w| ensures w[i] != w[j] {
      assert |w[i].id| == i + 4 && |w[j].id| == if j < |w| - 1 then j + 4 else 3;
    }
    assert "n:m" in g.Catalog(ItemRegistry) by { assert DeepGraph().items == {"n:m"}; }
  }

  /**
   * The catalog visits tags in the order of their names. Here the first one is resolved first and
   * then met again beyond the cap: it ends invalid, and still holds its member.
   */
  lemma InvalidWithMember()
    ensures DeepGraph().Closed() && Elements(DeepOrder()) == DeepGraph().nodes.Keys
    ensures forall i, j :: 0 <= i < j < |DeepOrder()| ==> Less(DeepOrder()[i].id, DeepOrder()[j].id)
    ensures var s := AllVisited(DeepGraph(), DeepOrder());
      Spoilt(s, Named(0)) && s.tags[Named(0)].members == ["n:m"]
  {
    hide DeepGraph, DeepNode, Name, Graph.Closed;
    DeepOrderLists();
    DeepWalkEndsIn();
    var order, w := DeepOrder(), DeepWalk();
    assert forall k :: k in order ==> k in Elements(order);
    assert |order| == MAX_DEPTH + 2 && order[0] == Last(w) && order[1] == w[0];
    DeepMemoRun(DeepGraph(), w, "n:m", order);
  }
}
