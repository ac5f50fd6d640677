/** What tag resolution comes to, for every set of tags and every order of visits. */
module TagTheorems {
  import opened Walks
  import opened Ordering
  import opened TagResolution

  ghost predicate AllRequired(g: Graph) {
    forall k, i :: k in g.nodes && 0 <= i < |g.nodes[k].edges| && g.nodes[k].edges[i].tag ==> g.nodes[k].edges[i].required
  }

  /** A malformed tag that k depends on. */
  ghost predicate Malformed(g: Graph, k: Key, m: Key) {
    m in g.nodes && g.nodes[m].status == Invalid && Reaches(g.RequiredRefs(), k, m)
  }

  lemma RequiredChild(g: Graph, k: Key, i: nat)
    requires k in g.nodes && i < |g.nodes[k].edges| && g.nodes[k].edges[i].tag && g.nodes[k].edges[i].required
    ensures (k, Key(k.registry, g.nodes[k].edges[i].id)) in g.RequiredRefs()
  {
  }

  /** Entry j of k requires a tag that is invalid. */
  ghost predicate Spoils(g: Graph, k: Key, j: int)
    requires g.Closed() && k in g.nodes && 0 <= j < |g.nodes[k].edges| && !ReachesCycle(g.Refs(), k)
  {
    var e := g.nodes[k].edges[j];
    e.tag && e.required && (ChildShrinks(g, k, j); Meaning(g, Key(k.registry, e.id)).status == Invalid)
  }

  lemma {:induction false} InvalidUpTo(g: Graph, k: Key, i: nat)
    requires g.Closed() && k in g.nodes && i <= |g.nodes[k].edges| && !ReachesCycle(g.Refs(), k)
    ensures MeaningUpTo(g, k, i).status == Invalid <==>
      g.nodes[k].status == Invalid || exists j :: 0 <= j < i && Spoils(g, k, j)
  {
    if i > 0 {
      InvalidUpTo(g, k, i - 1);
      assert Spoils(g, k, i - 1) || !Spoils(g, k, i - 1);
    }
  }

  /** Off the cycles, a tag is invalid exactly when it requires, however far, a malformed tag. */
  lemma {:induction false} InvalidMeaning(g: Graph, k: Key)
    requires g.Closed() && k in g.nodes && !ReachesCycle(g.Refs(), k)
    ensures Meaning(g, k).status == Invalid <==> exists m :: Malformed(g, k, m)
    decreases Reachable(g.Refs(), k)
  {
    var n := |g.nodes[k].edges|;
    InvalidUpTo(g, k, n);
    ReachesRefl(g.RequiredRefs(), k);
    if g.nodes[k].status == Invalid {
      assert Malformed(g, k, k);
    }
    if j :| 0 <= j < n && Spoils(g, k, j) {
      var c := Key(k.registry, g.nodes[k].edges[j].id);
      ChildShrinks(g, k, j);
      InvalidMeaning(g, c);
      var m :| Malformed(g, c, m);
      RequiredChild(g, k, j);
      ReachesStep(g.RequiredRefs(), k, c);
      ReachesTrans(g.RequiredRefs(), k, c, m);
      assert Malformed(g, k, m);
    }
    if m :| Malformed(g, k, m) {
      ReachesSplit(g.RequiredRefs(), k, m);
      if k != m {
        var c :| (k, c) in g.RequiredRefs() && Reaches(g.RequiredRefs(), c, m);
        var j :| 0 <= j < n && g.nodes[k].edges[j].tag && g.nodes[k].edges[j].required
                 && c == Key(k.registry, g.nodes[k].edges[j].id);
        ChildShrinks(g, k, j);
        InvalidMeaning(g, c);
        assert Malformed(g, c, m);
        assert Spoils(g, k, j);
      }
    }
  }

  /**
   * When every reference is required, a tag ends invalid exactly when it refers, however far, to
   * a malformed tag or to a cycle; and an invalid tag has no members.
   */
  lemma InvalidIff(g: Graph, s: Search, k: Key)
    requires g.Closed() && Settled(g, s) && AllRequired(g) && k in g.nodes
    ensures s.tags[k].status == Invalid <==> ReachesCycle(g.Refs(), k) || exists m :: Malformed(g, k, m)
    ensures s.tags[k].status == Invalid ==> s.tags[k].members == []
    ensures forall m :: Malformed(g, k, m) <==> m in g.nodes && g.nodes[m].status == Invalid && Reaches(g.Refs(), k, m)
  {
    assert g.Refs() == g.RequiredRefs();
    assert TagPrecise(g, s, k);
    if !ReachesCycle(g.Refs(), k) {
      InvalidMeaning(g, k);
      NoElements(s.tags[k].members);
    }
  }

  /**
   * The outcome of a tag does not depend on the order of visits: not off the cycles, and not on
   * the way to a cycle of required references.
   */
  lemma OrderIndependent(g: Graph, s: Search, t: Search, k: Key)
    requires g.Closed() && Settled(g, s) && Settled(g, t) && k in g.nodes
    requires !ReachesCycle(g.Refs(), k) || ReachesCycle(g.RequiredRefs(), k)
    ensures s.tags[k].status == t.tags[k].status && s.tags[k].members == t.tags[k].members
    ensures !ReachesCycle(g.Refs(), k) ==> s.tags[k].diagnostics == t.tags[k].diagnostics
  {
    assert TagPrecise(g, s, k) && TagPrecise(g, t, k);
    if !ReachesCycle(g.Refs(), k) {
      AscendingUnique(s.tags[k].members, t.tags[k].members);
    }
  }

  // ----- members: the last word wins -------------------------------------------------------

  ghost function TargetMembers(g: Graph, k: Key, j: nat): set<string>
    requires g.Closed() && k in g.nodes && j < |g.nodes[k].edges| && !ReachesCycle(g.Refs(), k)
  {
    var e := g.nodes[k].edges[j];
    if e.tag then (ChildShrinks(g, k, j); Meaning(g, Key(k.registry, e.id)).members) else Direct(g, k.registry, e).members
  }

  /** Entry j adds m and no later entry before i takes it away. */
  ghost predicate LastWord(g: Graph, k: Key, i: nat, j: int, m: string)
    requires g.Closed() && k in g.nodes && i <= |g.nodes[k].edges| && !ReachesCycle(g.Refs(), k)
  {
    && 0 <= j < i && !g.nodes[k].edges[j].remove && m in TargetMembers(g, k, j)
    && forall l :: j < l < i && g.nodes[k].edges[l].remove ==> m !in TargetMembers(g, k, l)
  }

  /** A member belongs to a tag exactly when some entry adds it and no later entry removes it. */
  lemma {:induction false} MemberIffLastWord(g: Graph, k: Key, i: nat, m: string)
    requires g.Closed() && k in g.nodes && i <= |g.nodes[k].edges| && !ReachesCycle(g.Refs(), k)
    ensures m in MeaningUpTo(g, k, i).members <==> exists j :: LastWord(g, k, i, j, m)
  {
    if i > 0 {
      MemberIffLastWord(g, k, i - 1, m);
      var e := g.nodes[k].edges[i - 1];
      assert MeaningUpTo(g, k, i).members ==
        (if e.remove then MeaningUpTo(g, k, i - 1).members - TargetMembers(g, k, i - 1)
         else MeaningUpTo(g, k, i - 1).members + TargetMembers(g, k, i - 1));
      if m in MeaningUpTo(g, k, i).members {
        if !e.remove && m in TargetMembers(g, k, i - 1) {
          assert LastWord(g, k, i, i - 1, m);
        } else {
          var j :| LastWord(g, k, i - 1, j, m);
          assert LastWord(g, k, i, j, m);
        }
      }
      if j :| LastWord(g, k, i, j, m) {
        if j < i - 1 { assert LastWord(g, k, i - 1, j, m); }
      }
    }
  }

  // ----- where the guarantees stop ---------------------------------------------------------

  const A := Key(ItemRegistry, "n:a")
  const B := Key(ItemRegistry, "n:b")

  function Optional(id: string): Edge { Edge(id, true, false, false) }

  /** Two tags that refer to each other, neither reference being required. */
  function OptionalCycle(): Graph {
    Graph(map[A := Node(Resolved, [], [Optional("n:b")]), B := Node(Resolved, [], [Optional("n:a")])], {}, {})
  }

  /** The second tag, visited on the way from the first, finds the first on its path. */
  lemma InnerVisit(g: Graph, s: Search, first: Key, second: Key)
    requires g.Closed() && s.Over(g) && first in g.nodes && second in g.nodes && first != second
    requires first.registry == second.registry && g.nodes[second].edges == [Optional(first.id)]
    requires s.Grey(first) && s.White(second) && s.tags[second].status == Resolved
    ensures var t := Visited(g, s, second, 1).0;
      t.Grey(first) && t.tags[first].status == Invalid && t.tags[second].status == Resolved && t.Black(second)
  {
    var s2 := s.Coloured(second, Colour.Grey);
    assert first == Key(second.registry, first.id);
    assert Visited(g, s2, first, 2) == (s2.Retagged(first, Flagged(s2.tags[first])), {});
    assert EntriesVisited(g, s2, second, 1, 0) == (s2, {});
  }

  /** The first tag of the two, visited before the second. */
  lemma OuterVisit(g: Graph, s: Search, first: Key, second: Key)
    requires g.Closed() && s.Over(g) && first in g.nodes && second in g.nodes && first != second
    requires first.registry == second.registry
    requires g.nodes[first].edges == [Optional(second.id)] && g.nodes[second].edges == [Optional(first.id)]
    requires s.White(first) && s.White(second) && s.tags[second].status == Resolved
    ensures var t := Visited(g, s, first, 0).0;
      t.Black(second) && t.tags[first].status == Invalid && t.tags[second].status == Resolved
  {
    var s1 := s.Coloured(first, Colour.Grey);
    InnerVisit(g, s1, first, second);
    assert second == Key(first.registry, second.id);
    assert EntriesVisited(g, s1, first, 0, 0) == (s1, {});
  }

  lemma OptionalCycleVisit(first: Key, second: Key)
    requires (first == A && second == B) || (first == B && second == A)
    ensures OptionalCycle().Closed()
    ensures var s := Visited(OptionalCycle(), Start(OptionalCycle()), first, 0).0;
      s.Black(second) && s.tags[first].status == Invalid && s.tags[second].status == Resolved
  {
    hide Visited;
    OuterVisit(OptionalCycle(), Start(OptionalCycle()), first, second);
  }

  lemma SecondVisitIdle(g: Graph, first: Key, second: Key)
    requires g.Closed() && first in g.nodes && second in g.nodes && Visited(g, Start(g), first, 0).0.Black(second)
    ensures AllVisited(g, [first, second]) == Visited(g, Start(g), first, 0).0
  {
    var s, order := Visited(g, Start(g), first, 0).0, [first, second];
    assert Visited(g, s, second, 0).0 == s;
    hide Visited, EntriesVisited;
    assert order[..1] == [first] && order[..0] == [] && order[..2] == order;
    AllVisitedNext(g, order, 0);
    AllVisitedNext(g, order, 1);
  }

  /** On a cycle of optional references, which tag ends invalid depends on which is visited first. */
  lemma OptionalCycleDependsOnOrder()
    ensures OptionalCycle().Closed()
    ensures var s, t := AllVisited(OptionalCycle(), [A, B]), AllVisited(OptionalCycle(), [B, A]);
      s.tags[A].status == Invalid && s.tags[B].status == Resolved
      && t.tags[A].status == Resolved && t.tags[B].status == Invalid
  {
    hide Visited;
    OptionalCycleVisit(A, B);
    OptionalCycleVisit(B, A);
    SecondVisitIdle(OptionalCycle(), A, B);
    SecondVisitIdle(OptionalCycle(), B, A);
  }
}
