/**
 * Resolution of catalog tags: a depth-first search over tags that refer to tags, with a colour
 * per tag, memoised members, a status that only gets worse, a cycle guard and a depth cap.
 */
module TagResolution {
  import opened Walks
  import opened Ordering

  datatype Registry = ItemRegistry | BlockRegistry
  datatype Key = Key(registry: Registry, id: string)

  datatype Status = Missing | Resolved | Partial | Invalid

  datatype Diagnostic =
    | MalformedDefinition
    | RuntimeConditions
    | LoadOrderDependent
    | InvalidMember
    | CycleOrTooDeep
    | UnresolvedReference(id: string)

  /** One ordered entry of a tag: add or remove a member, or the members of another tag. */
  datatype Edge = Edge(id: string, tag: bool, required: bool, remove: bool)

  datatype Tag = Tag(status: Status, diagnostics: seq<Diagnostic>, members: seq<string>)

  /** A tag as it stands before the search: its status so far and its final ordered entries. */
  datatype Node = Node(status: Status, diagnostics: seq<Diagnostic>, edges: seq<Edge>)

  datatype Graph = Graph(nodes: map<Key, Node>, items: set<string>, blocks: set<string>) {
    function Catalog(r: Registry): set<string> {
      if r.ItemRegistry? then items else blocks
    }

    /** Every referenced tag exists. */
    ghost predicate Closed() {
      forall k, i :: k in nodes && 0 <= i < |nodes[k].edges| && nodes[k].edges[i].tag ==>
        Key(k.registry, nodes[k].edges[i].id) in nodes
    }

    ghost function Refs(): set<(Key, Key)> {
      set k, i | k in nodes && 0 <= i < |nodes[k].edges| && nodes[k].edges[i].tag
        :: (k, Key(k.registry, nodes[k].edges[i].id))
    }

    ghost function RequiredRefs(): set<(Key, Key)> {
      set k, i | k in nodes && 0 <= i < |nodes[k].edges| && nodes[k].edges[i].tag && nodes[k].edges[i].required
        :: (k, Key(k.registry, nodes[k].edges[i].id))
    }

    /** The cap is out of reach: no simple chain of more than 128 references. */
    ghost predicate Shallow() {
      forall w :: IsWalk(Refs(), w) && Simple(w) ==> |w| <= MAX_DEPTH + 1
    }
  }

  const MAX_DEPTH: nat := 128

  /** What a tag amounts to: the members are a set here, a sorted list in Tag. */
  datatype Outcome = Outcome(status: Status, diagnostics: seq<Diagnostic>, members: set<string>)

  function AddDiagnostic(t: Tag, d: Diagnostic): Tag {
    if d in t.diagnostics then t
    else t.(diagnostics := t.diagnostics + [d], status := if t.status.Resolved? then Partial else t.status)
  }

  // ----- the plain recursive meaning -------------------------------------------------------

  /** One entry applied to what the entries before it gave. */
  function Apply(acc: Outcome, e: Edge, target: Outcome): Outcome {
    var t := Tag(acc.status, acc.diagnostics, []);
    var t1 := if e.tag && e.required && !target.status.Resolved?
              then AddDiagnostic(t, UnresolvedReference(e.id)) else t;
    Outcome(if e.tag && e.required && target.status.Invalid? then Invalid else t1.status,
            t1.diagnostics,
            if e.remove then acc.members - target.members else acc.members + target.members)
  }

  function Direct(g: Graph, r: Registry, e: Edge): Outcome {
    Outcome(Resolved, [], if e.id in g.Catalog(r) then {e.id} else {})
  }

  lemma ChildShrinks(g: Graph, k: Key, i: nat)
    requires g.Closed() && k in g.nodes && i < |g.nodes[k].edges| && g.nodes[k].edges[i].tag
    requires !ReachesCycle(g.Refs(), k)
    ensures var c := Key(k.registry, g.nodes[k].edges[i].id);
      c in g.nodes && (k, c) in g.Refs() && !ReachesCycle(g.Refs(), c)
      && Reachable(g.Refs(), c) < Reachable(g.Refs(), k)
  {
    var c := Key(k.registry, g.nodes[k].edges[i].id);
    assert (k, c) in g.Refs();
    ReachableShrinks(g.Refs(), k, c);
  }

  /** The first i entries of k, each reference replaced by the meaning of the tag it names. */
  ghost function MeaningUpTo(g: Graph, k: Key, i: nat): Outcome
    requires g.Closed() && k in g.nodes && i <= |g.nodes[k].edges|
    requires !ReachesCycle(g.Refs(), k)
    decreases Reachable(g.Refs(), k), i
  {
    if i == 0 then Outcome(g.nodes[k].status, g.nodes[k].diagnostics, {})
    else
      var e := g.nodes[k].edges[i - 1];
      var target := if e.tag then (ChildShrinks(g, k, i - 1); Meaning(g, Key(k.registry, e.id)))
                    else Direct(g, k.registry, e);
      Apply(MeaningUpTo(g, k, i - 1), e, target)
  }

  /** Plain recursion: no colours, no memo, no cap. Only the members of an invalid tag are dropped. */
  ghost function Meaning(g: Graph, k: Key): Outcome
    requires g.Closed() && k in g.nodes
    requires !ReachesCycle(g.Refs(), k)
    decreases Reachable(g.Refs(), k), |g.nodes[k].edges| + 1
  {
    var all := MeaningUpTo(g, k, |g.nodes[k].edges|);
    if all.status.Invalid? then all.(members := {}) else all
  }

  /** t is the outcome o, with its members listed in order. */
  ghost predicate Realizes(t: Tag, o: Outcome) {
    t.status == o.status && t.diagnostics == o.diagnostics && Ascending(t.members) && Elements(t.members) == o.members
  }

  lemma PathClosesCycle(edges: set<(Key, Key)>, path: seq<Key>, key: Key)
    requires key in path && IsWalk(edges, path + [key])
    ensures ReachesCycle(edges, key) && Circular(edges, key) && Reaches(edges, key, Last(path))
  {
    var j :| 0 <= j < |path| && path[j] == key;
    var w, p := path[j..] + [key], path + [key];
    forall i | 0 < i < |w| ensures (w[i - 1], w[i]) in edges {
      assert w[i - 1] == p[j + i - 1] && w[i] == p[j + i];
    }
    assert w[0] == key && Last(w) == key;
    assert IsLasso(edges, key, w, 0) && IsCycle(edges, w);
    forall i | 0 < i < |path[j..]| ensures (path[j..][i - 1], path[j..][i]) in edges {
      assert path[j..][i - 1] == w[i - 1] && path[j..][i] == w[i];
    }
    assert path[j..][|path[j..]| - 1] == Last(path);
    assert Connects(edges, key, Last(path), path[j..]);
  }

  // ----- the search as a function of its state ---------------------------------------------

  datatype Colour = Grey | Black

  /** A tag without a colour has not been met (it is white). */
  datatype Search = Search(colour: map<Key, Colour>, tags: map<Key, Tag>) {
    predicate Over(g: Graph) {
      colour.Keys <= g.nodes.Keys && tags.Keys == g.nodes.Keys
    }

    predicate White(k: Key) { k !in colour }
    predicate Grey(k: Key) { k in colour && colour[k] == Colour.Grey }
    predicate Black(k: Key) { k in colour && colour[k] == Colour.Black }

    function Coloured(k: Key, c: Colour): Search {
      this.(colour := colour[k := c])
    }

    function Retagged(k: Key, t: Tag): Search {
      this.(tags := tags[k := t])
    }
  }

  function Start(g: Graph): Search {
    Search(map[], map k | k in g.nodes :: Tag(g.nodes[k].status, g.nodes[k].diagnostics, []))
  }

  /** Before the search no tag carries the diagnostic that the search gives. */
  ghost predicate NoneCaught(g: Graph) {
    forall k :: k in g.nodes ==> CycleOrTooDeep !in g.nodes[k].diagnostics
  }

  function Flagged(t: Tag): Tag {
    AddDiagnostic(t.(status := Invalid), CycleOrTooDeep)
  }

  /** What a reference does to the tag that holds it, once the tag it names has been visited. */
  function Blame(t: Tag, e: Edge, child: Status): Tag {
    if e.required && !child.Resolved? then
      var t1 := AddDiagnostic(t, UnresolvedReference(e.id));
      if child.Invalid? then t1.(status := Invalid) else t1
    else t
  }

  function Blamed(s: Search, key: Key, e: Edge): Search
    requires key in s.tags && Key(key.registry, e.id) in s.tags
  {
    s.Retagged(key, Blame(s.tags[key], e, s.tags[Key(key.registry, e.id)].status))
  }

  /** The last step of a call: drop the members of an invalid tag, record the rest, blacken. */
  ghost function Finished(key: Key, r: (Search, set<string>)): (Search, set<string>)
    requires key in r.0.tags
  {
    var t := r.0.tags[key];
    var members := if t.status.Invalid? then {} else r.1;
    (r.0.Retagged(key, t.(members := Listed(members))).Coloured(key, Colour.Black), members)
  }

  /** A call of the search, on any graph: the state it leaves and the members it returns. */
  ghost function Visited(g: Graph, s: Search, key: Key, depth: nat): (r: (Search, set<string>))
    requires g.Closed() && s.Over(g) && key in g.nodes
    ensures r.0.Over(g) && s.colour.Keys <= r.0.colour.Keys
    decreases g.nodes.Keys - s.colour.Keys, 0, 0
  {
    if s.Grey(key) || depth > MAX_DEPTH then
      (s.Retagged(key, Flagged(s.tags[key])), {})
    else if s.Black(key) then
      (s, Elements(s.tags[key].members))
    else
      assert key in g.nodes.Keys - s.colour.Keys;
      Finished(key, EntriesVisited(g, s.Coloured(key, Colour.Grey), key, depth, |g.nodes[key].edges|))
  }

  /** The first i entries of the grey tag key, in order. */
  ghost function EntriesVisited(g: Graph, s: Search, key: Key, depth: nat, i: nat): (r: (Search, set<string>))
    requires g.Closed() && s.Over(g) && key in g.nodes && i <= |g.nodes[key].edges|
    ensures r.0.Over(g) && s.colour.Keys <= r.0.colour.Keys
    decreases g.nodes.Keys - s.colour.Keys, 1, i
  {
    if i == 0 then (s, {})
    else
      var r := EntriesVisited(g, s, key, depth, i - 1);
      var e := g.nodes[key].edges[i - 1];
      if e.tag then
        var v := Visited(g, r.0, Key(key.registry, e.id), depth + 1);
        (Blamed(v.0, key, e), Merge(r.1, e, v.1))
      else
        (r.0, Merge(r.1, e, Direct(g, key.registry, e).members))
  }

  function Merge(result: set<string>, e: Edge, members: set<string>): set<string> {
    if e.remove then result - members else result + members
  }

  // ----- what every call keeps, on every graph ---------------------------------------------

  ghost predicate TagOk(g: Graph, s: Search, k: Key)
    requires s.Over(g) && k in g.nodes
  {
    if s.Black(k)
    then Ascending(s.tags[k].members) && Elements(s.tags[k].members) <= g.Catalog(k.registry)
    else s.tags[k].members == []
  }

  ghost predicate Valid(g: Graph, s: Search) {
    s.Over(g) && forall k :: k in g.nodes ==> TagOk(g, s, k)
  }

  /** Grey and black tags keep their colour, white ones stay white or are finished. */
  ghost predicate ColourKept(s: Search, t: Search, k: Key) {
    if s.White(k) then !t.Grey(k) else k in t.colour && t.colour[k] == s.colour[k]
  }

  ghost predicate ColoursKept(s: Search, t: Search) {
    forall k :: ColourKept(s, t, k)
  }

  /** r is a legal outcome of working on key from state s. */
  ghost predicate Sound(g: Graph, s: Search, key: Key, r: (Search, set<string>)) {
    Valid(g, r.0) && ColoursKept(s, r.0) && r.1 <= g.Catalog(key.registry)
  }

  lemma ColoursKeptTrans(s: Search, t: Search, u: Search)
    requires ColoursKept(s, t) && ColoursKept(t, u)
    ensures ColoursKept(s, u)
  {
    forall k ensures ColourKept(s, u, k) {
      assert ColourKept(s, t, k) && ColourKept(t, u, k);
    }
  }

  /** Changing the status and diagnostics of one tag keeps the rest. */
  lemma RetaggedValid(g: Graph, s: Search, key: Key, t: Tag)
    requires Valid(g, s) && key in g.nodes && t.members == s.tags[key].members
    ensures Valid(g, s.Retagged(key, t)) && ColoursKept(s, s.Retagged(key, t))
  {
    forall k | k in g.nodes ensures TagOk(g, s.Retagged(key, t), k) {
      assert TagOk(g, s, k);
    }
  }

  lemma GreyedValid(g: Graph, s: Search, key: Key)
    requires Valid(g, s) && key in g.nodes && s.White(key)
    ensures Valid(g, s.Coloured(key, Colour.Grey))
  {
    forall k | k in g.nodes ensures TagOk(g, s.Coloured(key, Colour.Grey), k) {
      assert TagOk(g, s, k);
    }
  }

  lemma FinishedSound(g: Graph, s: Search, key: Key, r: (Search, set<string>))
    requires key in g.nodes && s.Over(g) && s.White(key)
    requires Sound(g, s.Coloured(key, Colour.Grey), key, r)
    ensures Sound(g, s, key, Finished(key, r))
  {
    var s1, c := s.Coloured(key, Colour.Grey), Finished(key, r);
    forall k | k in g.nodes ensures TagOk(g, c.0, k) {
      assert TagOk(g, r.0, k);
    }
    forall k ensures ColourKept(s, c.0, k) {
      assert ColourKept(s1, r.0, k);
    }
  }

  lemma BlamedSound(g: Graph, s: Search, key: Key, e: Edge, r: (Search, set<string>), v: (Search, set<string>))
    requires key in g.nodes && Key(key.registry, e.id) in g.nodes
    requires Sound(g, s, key, r) && Sound(g, r.0, Key(key.registry, e.id), v)
    ensures Sound(g, s, key, (Blamed(v.0, key, e), Merge(r.1, e, v.1)))
  {
    RetaggedValid(g, v.0, key, Blame(v.0.tags[key], e, v.0.tags[Key(key.registry, e.id)].status));
    ColoursKeptTrans(s, r.0, v.0);
    ColoursKeptTrans(s, v.0, Blamed(v.0, key, e));
  }


  // ----- what every call establishes while the cap is out of reach --------------------------

  /** A white tag is untouched; a finished one has its meaning, or is invalid when a cycle of
      required references is ahead of it; and a finished tag that is invalid is empty. */
  ghost predicate TagPrecise(g: Graph, s: Search, k: Key)
    requires g.Closed() && s.Over(g) && k in g.nodes
  {
    && (s.White(k) ==> s.tags[k] == Tag(g.nodes[k].status, g.nodes[k].diagnostics, []))
    && (s.Black(k) && !ReachesCycle(g.Refs(), k) ==> Realizes(s.tags[k], Meaning(g, k)))
    && (s.Black(k) && ReachesCycle(g.RequiredRefs(), k) ==> s.tags[k].status == Invalid)
    && (s.Black(k) && s.tags[k].status == Invalid ==> s.tags[k].members == [])
  }

  ghost predicate Precise(g: Graph, s: Search) {
    g.Closed() && s.Over(g) && forall k :: k in g.nodes ==> TagPrecise(g, s, k)
  }

  /** Finished tags do not change, tags being resolved change only when they lie on a cycle, and
      invalid stays invalid. */
  ghost predicate TagKept(g: Graph, s: Search, t: Search, k: Key)
    requires s.Over(g) && t.Over(g) && k in g.nodes
  {
    && (s.Black(k) || (s.Grey(k) && !Circular(g.Refs(), k)) ==> t.tags[k] == s.tags[k])
    && (s.tags[k].status == Invalid ==> t.tags[k].status == Invalid)
  }

  ghost predicate OthersKept(g: Graph, s: Search, t: Search, key: Key) {
    s.Over(g) && t.Over(g) && forall k :: k in g.nodes && k != key ==> TagKept(g, s, t, k)
  }

  /** path lists the tags being resolved, from the root down to the one that refers to key. */
  ghost predicate OnPath(g: Graph, s: Search, path: seq<Key>, key: Key) {
    && s.Over(g) && key in g.nodes && Simple(path)
    && IsWalk(g.Refs(), path + [key])
    && forall k :: k in path <==> s.Grey(k)
  }

  /** key has just been greyed below path. */
  ghost predicate Opened(g: Graph, s: Search, path: seq<Key>, key: Key) {
    && s.Over(g) && key in g.nodes && Simple(path + [key])
    && IsWalk(g.Refs(), path + [key])
    && (forall k :: k in path + [key] <==> s.Grey(k))
  }

  /** Entry j of key requires a tag that reaches a cycle of required references. */
  ghost predicate DoomedBy(g: Graph, key: Key, j: int)
    requires key in g.nodes && 0 <= j < |g.nodes[key].edges|
  {
    var e := g.nodes[key].edges[j];
    e.tag && e.required && ReachesCycle(g.RequiredRefs(), Key(key.registry, e.id))
  }

  /** The outcome of a call. */
  ghost predicate Refined(g: Graph, s: Search, key: Key, r: (Search, set<string>)) {
    && s.Over(g) && r.0.Over(g) && key in g.nodes && Precise(g, r.0)
    && (forall k :: k in g.nodes ==> TagKept(g, s, r.0, k))
    && (!ReachesCycle(g.Refs(), key) ==>
      r.0.tags[key].status == Meaning(g, key).status && r.1 == Meaning(g, key).members)
    && (ReachesCycle(g.RequiredRefs(), key) ==> r.0.tags[key].status == Invalid)
  }

  /** The outcome of the first i entries of a grey tag. */
  ghost predicate RefinedUpTo(g: Graph, s: Search, key: Key, i: nat, r: (Search, set<string>)) {
    && s.Over(g) && r.0.Over(g) && key in g.nodes && i <= |g.nodes[key].edges| && Precise(g, r.0)
    && OthersKept(g, s, r.0, key) && (s.tags[key].status == Invalid ==> r.0.tags[key].status == Invalid)
    && (!ReachesCycle(g.Refs(), key) ==>
      MeaningUpTo(g, key, i) == Outcome(r.0.tags[key].status, r.0.tags[key].diagnostics, r.1))
    && (forall j :: 0 <= j < i && DoomedBy(g, key, j) ==> r.0.tags[key].status == Invalid)
  }

  lemma DoomedSomewhere(g: Graph, key: Key)
    requires key in g.nodes && ReachesCycle(g.RequiredRefs(), key)
    ensures exists j :: 0 <= j < |g.nodes[key].edges| && DoomedBy(g, key, j)
  {
    var c := ReachesCycleNext(g.RequiredRefs(), key);
    var j :| 0 <= j < |g.nodes[key].edges| && g.nodes[key].edges[j].tag && g.nodes[key].edges[j].required
             && c == Key(key.registry, g.nodes[key].edges[j].id);
    assert DoomedBy(g, key, j);
  }

  lemma GuardRefined(g: Graph, s: Search, key: Key, path: seq<Key>)
    requires Precise(g, s) && OnPath(g, s, path, key) && s.Grey(key)
    ensures Refined(g, s, key, (s.Retagged(key, Flagged(s.tags[key])), {}))
  {
    PathClosesCycle(g.Refs(), path, key);
    var t := s.Retagged(key, Flagged(s.tags[key]));
    forall k | k in g.nodes ensures TagPrecise(g, t, k) && TagKept(g, s, t, k) {
      assert TagPrecise(g, s, k);
    }
  }

  lemma MemoRefined(g: Graph, s: Search, key: Key)
    requires Precise(g, s) && key in g.nodes && s.Black(key)
    ensures Refined(g, s, key, (s, Elements(s.tags[key].members)))
  {
    assert TagPrecise(g, s, key);
  }

  /** Greying a white tag opens its entries. */
  lemma Opens(g: Graph, s: Search, path: seq<Key>, key: Key)
    requires OnPath(g, s, path, key) && s.White(key)
    ensures Opened(g, s.Coloured(key, Colour.Grey), path, key)
  {
    var w := path + [key];
    forall i, j | 0 <= i < j < |w| ensures w[i] != w[j] {
      assert w[i] == path[i] && w[i] in path;
    }
  }

  lemma GreyedRefined(g: Graph, s: Search, key: Key)
    requires Precise(g, s) && key in g.nodes && s.White(key)
    ensures var s1 := s.Coloured(key, Colour.Grey); RefinedUpTo(g, s1, key, 0, (s1, {}))
  {
    var s1 := s.Coloured(key, Colour.Grey);
    assert TagPrecise(g, s, key);
    forall k | k in g.nodes ensures TagPrecise(g, s1, k) {
      assert TagPrecise(g, s, k);
    }
  }

  lemma FinishedPrecise(g: Graph, s: Search, key: Key, r: (Search, set<string>))
    requires key in g.nodes && s.Over(g) && s.White(key)
    requires RefinedUpTo(g, s.Coloured(key, Colour.Grey), key, |g.nodes[key].edges|, r)
    ensures Precise(g, Finished(key, r).0)
  {
    if ReachesCycle(g.RequiredRefs(), key) { DoomedSomewhere(g, key); }
    forall k | k in g.nodes ensures TagPrecise(g, Finished(key, r).0, k) {
      if k != key { assert TagPrecise(g, r.0, k); }
    }
  }

  lemma FinishedKept(g: Graph, s: Search, key: Key, r: (Search, set<string>))
    requires key in g.nodes && s.Over(g) && s.White(key)
    requires OthersKept(g, s.Coloured(key, Colour.Grey), r.0, key)
    requires s.tags[key].status == Invalid ==> r.0.tags[key].status == Invalid
    ensures forall k :: k in g.nodes ==> TagKept(g, s, Finished(key, r).0, k)
  {
    hide Circular, Graph.Refs;
    var s1, t := s.Coloured(key, Colour.Grey), Finished(key, r).0;
    assert t.Over(g);
    forall k | k in g.nodes ensures TagKept(g, s, t, k) {
      if k != key {
        assert TagKept(g, s1, r.0, k);
        assert t.tags[k] == r.0.tags[k] && s1.tags[k] == s.tags[k];
      }
    }
  }

  lemma FinishedRefined(g: Graph, s: Search, key: Key, r: (Search, set<string>))
    requires key in g.nodes && s.Over(g) && s.White(key)
    requires RefinedUpTo(g, s.Coloured(key, Colour.Grey), key, |g.nodes[key].edges|, r)
    ensures Refined(g, s, key, Finished(key, r))
  {
    hide TagKept, OthersKept, MeaningUpTo, Graph.Refs, Graph.RequiredRefs, ReachesCycle;
    FinishedPrecise(g, s, key, r);
    FinishedKept(g, s, key, r);
    assert TagPrecise(g, Finished(key, r).0, key);
  }

  lemma BlamedPrecise(g: Graph, key: Key, e: Edge, v: Search)
    requires Precise(g, v) && key in g.nodes && Key(key.registry, e.id) in g.nodes && v.Grey(key)
    ensures Precise(g, Blamed(v, key, e))
  {
    forall k | k in g.nodes ensures TagPrecise(g, Blamed(v, key, e), k) {
      assert TagPrecise(g, v, k);
    }
  }

  lemma BlamedKept(g: Graph, s: Search, key: Key, e: Edge, r: Search, v: Search)
    requires key in g.nodes && Key(key.registry, e.id) in g.nodes
    requires OthersKept(g, s, r, key) && ColoursKept(s, r)
    requires v.Over(g) && forall k :: k in g.nodes ==> TagKept(g, r, v, k)
    ensures OthersKept(g, s, Blamed(v, key, e), key)
  {
    forall k | k in g.nodes && k != key ensures TagKept(g, s, Blamed(v, key, e), k) {
      assert TagKept(g, s, r, k) && TagKept(g, r, v, k) && ColourKept(s, r, k);
    }
  }

  lemma ReferenceMeaning(g: Graph, key: Key, i: nat, acc: Outcome, t: Tag, child: Outcome, members: set<string>)
    requires g.Closed() && key in g.nodes && i < |g.nodes[key].edges| && g.nodes[key].edges[i].tag
    requires !ReachesCycle(g.Refs(), key) && !ReachesCycle(g.Refs(), Key(key.registry, g.nodes[key].edges[i].id))
    requires acc == MeaningUpTo(g, key, i) && t.status == acc.status && t.diagnostics == acc.diagnostics
    requires child == Meaning(g, Key(key.registry, g.nodes[key].edges[i].id)) && members == child.members
    ensures var e, b := g.nodes[key].edges[i], Blame(t, g.nodes[key].edges[i], child.status);
      MeaningUpTo(g, key, i + 1) == Outcome(b.status, b.diagnostics, Merge(acc.members, e, members))
  {
    ChildShrinks(g, key, i);
  }

  /** Off the cycles, a followed reference extends the meaning by its entry. */
  lemma ReferenceMeans(g: Graph, s: Search, key: Key, i: nat, r: (Search, set<string>), v: (Search, set<string>))
    requires g.Closed() && key in g.nodes && i < |g.nodes[key].edges| && g.nodes[key].edges[i].tag
    requires RefinedUpTo(g, s, key, i, r) && r.0.Grey(key) && !ReachesCycle(g.Refs(), key)
    requires Refined(g, r.0, Key(key.registry, g.nodes[key].edges[i].id), v)
    ensures var b := Blamed(v.0, key, g.nodes[key].edges[i]).tags[key];
      MeaningUpTo(g, key, i + 1) == Outcome(b.status, b.diagnostics, Merge(r.1, g.nodes[key].edges[i], v.1))
  {
    hide DoomedBy, Precise, OthersKept, Blame, Merge, ReachesCycle, MeaningUpTo, Meaning, Graph.Refs, Graph.RequiredRefs;
    var child := Key(key.registry, g.nodes[key].edges[i].id);
    assert TagKept(g, r.0, v.0, key);
    if Circular(g.Refs(), key) { CircularReachesCycle(g.Refs(), key); }
    ChildShrinks(g, key, i);
    ReferenceMeaning(g, key, i, MeaningUpTo(g, key, i), v.0.tags[key], Meaning(g, child), v.1);
  }

  /** A tag that was invalid, or has followed an entry to a doomed tag, is invalid from then on. */
  lemma ReferenceDooms(g: Graph, s: Search, key: Key, i: nat, r: (Search, set<string>), v: (Search, set<string>))
    requires g.Closed() && key in g.nodes && i < |g.nodes[key].edges| && g.nodes[key].edges[i].tag
    requires RefinedUpTo(g, s, key, i, r) && r.0.Grey(key)
    requires Refined(g, r.0, Key(key.registry, g.nodes[key].edges[i].id), v)
    ensures s.tags[key].status == Invalid || (exists j :: 0 <= j < i + 1 && DoomedBy(g, key, j)) ==>
      Blamed(v.0, key, g.nodes[key].edges[i]).tags[key].status == Invalid
  {
    hide Precise, OthersKept, ReachesCycle, MeaningUpTo, Meaning, Graph.Refs, Graph.RequiredRefs;
    assert TagKept(g, r.0, v.0, key);
  }

  lemma ReferenceRefined(g: Graph, s: Search, key: Key, i: nat, r: (Search, set<string>), v: (Search, set<string>))
    requires g.Closed() && key in g.nodes && i < |g.nodes[key].edges| && g.nodes[key].edges[i].tag
    requires RefinedUpTo(g, s, key, i, r) && Sound(g, s, key, r) && s.Grey(key)
    requires var child := Key(key.registry, g.nodes[key].edges[i].id);
      Refined(g, r.0, child, v) && Sound(g, r.0, child, v)
    ensures var e := g.nodes[key].edges[i];
      RefinedUpTo(g, s, key, i + 1, (Blamed(v.0, key, e), Merge(r.1, e, v.1)))
  {
    hide DoomedBy, ReachesCycle, MeaningUpTo, Meaning, Graph.Refs, Graph.RequiredRefs, Precise, OthersKept, Valid, Blame, Merge;
    var e := g.nodes[key].edges[i];
    assert ColourKept(s, r.0, key) && ColourKept(r.0, v.0, key);
    BlamedPrecise(g, key, e, v.0);
    BlamedKept(g, s, key, e, r.0, v.0);
    ReferenceDooms(g, s, key, i, r, v);
    if !ReachesCycle(g.Refs(), key) { ReferenceMeans(g, s, key, i, r, v); }
  }

  lemma DirectRefined(g: Graph, s: Search, key: Key, i: nat, r: (Search, set<string>))
    requires g.Closed() && key in g.nodes && i < |g.nodes[key].edges| && !g.nodes[key].edges[i].tag
    requires RefinedUpTo(g, s, key, i, r)
    ensures var e := g.nodes[key].edges[i];
      RefinedUpTo(g, s, key, i + 1, (r.0, Merge(r.1, e, Direct(g, key.registry, e).members)))
  {
  }

  /** The path to a child of the grey tag at the end of the path. */
  lemma PathExtends(g: Graph, s: Search, path: seq<Key>, key: Key, i: nat, r: Search)
    requires g.Closed() && Opened(g, s, path, key) && i < |g.nodes[key].edges| && g.nodes[key].edges[i].tag
    requires ColoursKept(s, r) && r.Over(g)
    ensures OnPath(g, r, path + [key], Key(key.registry, g.nodes[key].edges[i].id))
  {
    var child := Key(key.registry, g.nodes[key].edges[i].id);
    assert (key, child) in g.Refs();
    forall k ensures k in path + [key] <==> r.Grey(k) {
      assert ColourKept(s, r, k);
    }
    var w := path + [key] + [child];
    forall i | 0 < i < |w| ensures (w[i - 1], w[i]) in g.Refs() {
      if i < |path + [key]| { assert w[i] == (path + [key])[i] && w[i - 1] == (path + [key])[i - 1]; }
    }
  }

  // ----- the search itself -----------------------------------------------------------------

  /** What a call made in state s ensures about its result. */
  ghost predicate Answers(g: Graph, s: Search, key: Key, r: (Search, set<string>)) {
    && Sound(g, s, key, r)
    && (Precise(g, s) && g.Shallow() ==> Refined(g, s, key, r))
  }

  ghost predicate AnswersUpTo(g: Graph, s: Search, s1: Search, key: Key, i: nat, r: (Search, set<string>)) {
    && Sound(g, s1, key, r)
    && (Precise(g, s) && g.Shallow() ==> RefinedUpTo(g, s1, key, i, r))
  }

  lemma GuardAnswers(g: Graph, s: Search, path: seq<Key>, key: Key)
    requires Valid(g, s) && OnPath(g, s, path, key) && (s.Grey(key) || |path| > MAX_DEPTH)
    ensures Answers(g, s, key, (s.Retagged(key, Flagged(s.tags[key])), {}))
  {
    RetaggedValid(g, s, key, Flagged(s.tags[key]));
    if Precise(g, s) && g.Shallow() {
      assert !s.Grey(key) ==> Simple(path + [key]);
      GuardRefined(g, s, key, path);
    }
  }

  lemma MemoAnswers(g: Graph, s: Search, key: Key)
    requires Valid(g, s) && key in g.nodes && s.Black(key)
    ensures Answers(g, s, key, (s, Elements(s.tags[key].members)))
  {
    assert TagOk(g, s, key);
    if Precise(g, s) { MemoRefined(g, s, key); }
  }

  lemma OpenAnswers(g: Graph, s: Search, path: seq<Key>, key: Key)
    requires Valid(g, s) && OnPath(g, s, path, key) && s.White(key)
    ensures var s1 := s.Coloured(key, Colour.Grey);
      Opened(g, s1, path, key) && AnswersUpTo(g, s, s1, key, 0, (s1, {}))
  {
    Opens(g, s, path, key);
    GreyedValid(g, s, key);
    if Precise(g, s) { GreyedRefined(g, s, key); }
  }

  /** Before entry i is followed: where it leads is ready to be visited. */
  lemma EntryStarts(g: Graph, s: Search, s1: Search, path: seq<Key>, key: Key, i: nat, r: (Search, set<string>))
    requires g.Closed() && Opened(g, s1, path, key) && i < |g.nodes[key].edges| && g.nodes[key].edges[i].tag
    requires AnswersUpTo(g, s, s1, key, i, r)
    ensures Valid(g, r.0) && OnPath(g, r.0, path + [key], Key(key.registry, g.nodes[key].edges[i].id))
    ensures s1.colour.Keys <= r.0.colour.Keys
  {
    PathExtends(g, s1, path, key, i, r.0);
    forall k | k in s1.colour ensures k in r.0.colour { assert ColourKept(s1, r.0, k); }
  }

  /** After entry i was followed. */
  lemma EntryEnds(g: Graph, s: Search, s1: Search, key: Key, i: nat, r: (Search, set<string>), v: (Search, set<string>))
    requires g.Closed() && key in g.nodes && i < |g.nodes[key].edges| && g.nodes[key].edges[i].tag && s1.Grey(key)
    requires AnswersUpTo(g, s, s1, key, i, r) && Answers(g, r.0, Key(key.registry, g.nodes[key].edges[i].id), v)
    ensures var e := g.nodes[key].edges[i];
      AnswersUpTo(g, s, s1, key, i + 1, (Blamed(v.0, key, e), Merge(r.1, e, v.1)))
  {
    BlamedSound(g, s1, key, g.nodes[key].edges[i], r, v);
    if Precise(g, s) && g.Shallow() { ReferenceRefined(g, s1, key, i, r, v); }
  }

  lemma DirectAnswers(g: Graph, s: Search, s1: Search, key: Key, i: nat, r: (Search, set<string>))
    requires g.Closed() && key in g.nodes && i < |g.nodes[key].edges| && !g.nodes[key].edges[i].tag
    requires AnswersUpTo(g, s, s1, key, i, r)
    ensures var e := g.nodes[key].edges[i];
      AnswersUpTo(g, s, s1, key, i + 1, (r.0, Merge(r.1, e, Direct(g, key.registry, e).members)))
  {
    if Precise(g, s) && g.Shallow() { DirectRefined(g, s1, key, i, r); }
  }

  lemma FinishAnswers(g: Graph, s: Search, key: Key, r: (Search, set<string>))
    requires key in g.nodes && s.Over(g) && s.White(key)
    requires AnswersUpTo(g, s, s.Coloured(key, Colour.Grey), key, |g.nodes[key].edges|, r)
    ensures Answers(g, s, key, Finished(key, r))
  {
    FinishedSound(g, s, key, r);
    if Precise(g, s) && g.Shallow() { FinishedRefined(g, s, key, r); }
  }

  /** Every call answers as it should. */
  lemma {:induction false} VisitedAnswers(g: Graph, s: Search, path: seq<Key>, key: Key)
    requires g.Closed() && Valid(g, s) && OnPath(g, s, path, key)
    ensures Answers(g, s, key, Visited(g, s, key, |path|))
    decreases g.nodes.Keys - s.colour.Keys, 0, 0
  {
    hide Answers, AnswersUpTo;
    if s.Grey(key) || |path| > MAX_DEPTH {
      GuardAnswers(g, s, path, key);
    } else if s.Black(key) {
      MemoAnswers(g, s, key);
    } else {
      var s1 := s.Coloured(key, Colour.Grey);
      OpenAnswers(g, s, path, key);
      assert key in g.nodes.Keys - s.colour.Keys;
      EntriesAnswer(g, s, s1, path, key, |g.nodes[key].edges|);
      FinishAnswers(g, s, key, EntriesVisited(g, s1, key, |path|, |g.nodes[key].edges|));
    }
  }

  lemma {:induction false} EntriesAnswer(g: Graph, s: Search, s1: Search, path: seq<Key>, key: Key, i: nat)
    requires g.Closed() && Opened(g, s1, path, key) && i <= |g.nodes[key].edges|
    requires AnswersUpTo(g, s, s1, key, 0, (s1, {}))
    ensures AnswersUpTo(g, s, s1, key, i, EntriesVisited(g, s1, key, |path|, i))
    decreases g.nodes.Keys - s1.colour.Keys, 1, i
  {
    hide Answers, AnswersUpTo, Valid, OnPath, Merge, Blame, Direct;
    if i > 0 {
      EntriesAnswer(g, s, s1, path, key, i - 1);
      var r, e := EntriesVisited(g, s1, key, |path|, i - 1), g.nodes[key].edges[i - 1];
      if e.tag {
        EntryStarts(g, s, s1, path, key, i - 1, r);
        VisitedAnswers(g, r.0, path + [key], Key(key.registry, e.id));
        EntryEnds(g, s, s1, key, i - 1, r, Visited(g, r.0, Key(key.registry, e.id), |path| + 1));
      } else {
        DirectAnswers(g, s, s1, key, i - 1, r);
      }
    }
  }

  lemma EntersOnce<T>(entered: seq<T>, k: T)
    requires Simple(entered) && k !in entered
    ensures Simple(entered + [k]) && Elements(entered + [k]) == Elements(entered) + {k}
  {
  }

  class Resolver {
    const g: Graph
    var colour: map<Key, Colour>
    var tags: map<Key, Tag>
    /** The tags whose bodies have been entered, in that order. */
    ghost var entered: seq<Key>

    constructor (g: Graph)
      ensures this.g == g && State() == Start(g)
      ensures EnteredOnce() && entered == []
    {
      this.g := g;
      colour := map[];
      tags := map k | k in g.nodes :: Tag(g.nodes[k].status, g.nodes[k].diagnostics, []);
      entered := [];
    }

    ghost function State(): Search
      reads this
    {
      Search(colour, tags)
    }

    /** Every tag that has a colour was entered, and none was entered twice. */
    ghost predicate EnteredOnce()
      reads this`colour, this`entered
    {
      Simple(entered) && Elements(entered) == colour.Keys
    }

    method Visit(key: Key, depth: nat, ghost path: seq<Key>) returns (result: set<string>)
      requires g.Closed() && Valid(g, State()) && OnPath(g, State(), path, key) && depth == |path|
      requires EnteredOnce()
      modifies this`colour, this`tags, this`entered
      decreases g.nodes.Keys - colour.Keys, 0
      ensures Answers(g, old(State()), key, (State(), result))
      ensures (State(), result) == Visited(g, old(State()), key, depth)
      ensures EnteredOnce() && old(entered) <= entered
    {
      hide Answers, AnswersUpTo, Simple, Opened;
      VisitedAnswers(g, State(), path, key);
      result := {};
      if (key in colour && colour[key] == Grey) || depth > MAX_DEPTH {
        tags := tags[key := Flagged(tags[key])];
        return;
      }
      if key in colour && colour[key] == Black {
        result := set m | m in tags[key].members;
        return;
      }
      ghost var s := State();
      OpenAnswers(g, s, path, key);
      assert key in g.nodes.Keys - colour.Keys;
      colour := colour[key := Grey];
      EntersOnce(entered, key);
      entered := entered + [key];
      result := VisitEntries(key, depth, path, s);
      result := Finish(key, result);
    }

    /** The end of Visit: the members are dropped or recorded, and the tag is black. */
    method Finish(key: Key, sofar: set<string>) returns (result: set<string>)
      requires key in tags && key in colour
      modifies this`colour, this`tags
      ensures (State(), result) == Finished(key, (old(State()), sofar))
      ensures colour.Keys == old(colour.Keys)
    {
      result := if tags[key].status.Invalid? then {} else sofar;
      var sorted := SortStrings(result);
      tags := tags[key := tags[key].(members := sorted)];
      colour := colour[key := Black];
    }

    /** Entry i: a tag is visited, blamed if need be, and its members taken or dropped; so is a direct member. */
    method FollowEntry(key: Key, i: nat, depth: nat, ghost path: seq<Key>, ghost s: Search, ghost s1: Search, sofar: set<string>)
      returns (result: set<string>)
      requires g.Closed() && Opened(g, s1, path, key) && depth == |path|
      requires i < |g.nodes[key].edges| && AnswersUpTo(g, s, s1, key, i, (State(), sofar))
      requires (State(), sofar) == EntriesVisited(g, s1, key, depth, i)
      requires EnteredOnce()
      modifies this`colour, this`tags, this`entered
      decreases g.nodes.Keys - s1.colour.Keys, 1
      ensures AnswersUpTo(g, s, s1, key, i + 1, (State(), result))
      ensures (State(), result) == EntriesVisited(g, s1, key, depth, i + 1)
      ensures EnteredOnce() && old(entered) <= entered
    {
      hide AnswersUpTo, Merge, Blame, Direct, EnteredOnce;
      ghost var r := (State(), sofar);
      var e := g.nodes[key].edges[i];
      if e.tag {
        var child := Key(key.registry, e.id);
        EntryStarts(g, s, s1, path, key, i, r);
        var members := Visit(child, depth + 1, path + [key]);
        EntryEnds(g, s, s1, key, i, r, (State(), members));
        tags := tags[key := Blame(tags[key], e, tags[child].status)];
        result := Merge(sofar, e, members);
      } else {
        DirectAnswers(g, s, s1, key, i, r);
        result := Merge(sofar, e, Direct(g, key.registry, e).members);
      }
    }

    /** The loop of Visit over the entries of the tag it has just greyed; s is the state before that. */
    method VisitEntries(key: Key, depth: nat, ghost path: seq<Key>, ghost s: Search) returns (result: set<string>)
      requires g.Closed() && Opened(g, State(), path, key) && depth == |path|
      requires AnswersUpTo(g, s, State(), key, 0, (State(), {}))
      requires EnteredOnce()
      modifies this`colour, this`tags, this`entered
      decreases g.nodes.Keys - colour.Keys, 2
      ensures AnswersUpTo(g, s, old(State()), key, |g.nodes[key].edges|, (State(), result))
      ensures (State(), result) == EntriesVisited(g, old(State()), key, depth, |g.nodes[key].edges|)
      ensures EnteredOnce() && old(entered) <= entered
    {
      hide AnswersUpTo, EnteredOnce;
      ghost var s1 := State();
      result := {};
      var i := 0;
      while i < |g.nodes[key].edges|
        invariant 0 <= i <= |g.nodes[key].edges|
        invariant AnswersUpTo(g, s, s1, key, i, (State(), result))
        invariant (State(), result) == EntriesVisited(g, s1, key, depth, i)
        invariant EnteredOnce() && old(entered) <= entered
      {
        result := FollowEntry(key, i, depth, path, s, s1, result);
        i := i + 1;
      }
    }

    /** Visits every tag from depth 0, in the given order; the body of each tag is entered once. */
    method VisitAll(order: seq<Key>)
      requires g.Closed() && State() == Start(g) && Elements(order) == g.nodes.Keys
      requires EnteredOnce()
      modifies this`colour, this`tags, this`entered
      ensures Done(g, State()) && State() == AllVisited(g, order)
      ensures g.Shallow() ==> Settled(g, State())
      ensures Simple(entered) && Elements(entered) == g.nodes.Keys
    {
      hide Ready, Settled, Graph.Closed;
      for i := 0 to |order|
        invariant EnteredOnce() && State() == AllVisited(g, order[..i])
      {
        var key := order[i];
        assert key in Elements(order);
        AllVisitedReady(g, order[..i]);
        RootOnPath(g, State(), key);
        var members := Visit(key, 0, []);
        AllVisitedNext(g, order, i);
      }
      assert order[..|order|] == order;
      AllVisitedDone(g, order);
    }
  }

  // ----- whole runs ------------------------------------------------------------------------

  /** Between two root visits: nothing is half resolved. */
  ghost predicate Ready(g: Graph, s: Search) {
    Valid(g, s) && (forall k :: !s.Grey(k)) && (g.Shallow() ==> Precise(g, s))
  }

  /** Every tag has been resolved. */
  ghost predicate Done(g: Graph, s: Search) {
    Valid(g, s) && forall k :: k in g.nodes ==> s.Black(k)
  }

  /** ... and the cap was never met. */
  ghost predicate Settled(g: Graph, s: Search) {
    Done(g, s) && Precise(g, s)
  }

  ghost function AllVisited(g: Graph, order: seq<Key>): (s: Search)
    requires g.Closed() && forall k :: k in order ==> k in g.nodes
    ensures s.Over(g)
  {
    if order == [] then Start(g)
    else Visited(g, AllVisited(g, order[..|order| - 1]), Last(order), 0).0
  }

  lemma StartReady(g: Graph)
    requires g.Closed()
    ensures Ready(g, Start(g))
  {
    forall k | k in g.nodes ensures TagOk(g, Start(g), k) && TagPrecise(g, Start(g), k) {}
  }

  lemma RootOnPath(g: Graph, s: Search, key: Key)
    requires Ready(g, s) && key in g.nodes
    ensures OnPath(g, s, [], key)
  {
    assert [] + [key] == [key];
  }

  lemma RootBlack(g: Graph, s: Search, key: Key)
    requires g.Closed() && s.Over(g) && key in g.nodes && !s.Grey(key)
    ensures Visited(g, s, key, 0).0.Black(key)
  {
  }

  lemma RootAnswers(g: Graph, s: Search, key: Key, r: (Search, set<string>))
    requires Ready(g, s) && key in g.nodes && Answers(g, s, key, r) && r.0.Black(key)
    ensures Ready(g, r.0)
    ensures forall k :: s.Black(k) ==> r.0.Black(k)
  {
    forall k ensures !r.0.Grey(k) && (s.Black(k) ==> r.0.Black(k)) {
      assert ColourKept(s, r.0, k) && !s.Grey(k);
    }
  }

  lemma {:induction false} AllVisitedReady(g: Graph, order: seq<Key>)
    requires g.Closed() && forall k :: k in order ==> k in g.nodes
    ensures Ready(g, AllVisited(g, order))
    ensures forall k :: k in order ==> AllVisited(g, order).Black(k)
  {
    if order == [] {
      StartReady(g);
    } else {
      var front, key := order[..|order| - 1], Last(order);
      AllVisitedReady(g, front);
      var s := AllVisited(g, front);
      RootOnPath(g, s, key);
      RootBlack(g, s, key);
      VisitedAnswers(g, s, [], key);
      RootAnswers(g, s, key, Visited(g, s, key, 0));
    }
  }

  /** Whatever the order, every tag is finished in the end, and exactly so while the cap is out of reach. */
  lemma AllVisitedDone(g: Graph, order: seq<Key>)
    requires g.Closed() && Elements(order) == g.nodes.Keys
    ensures Done(g, AllVisited(g, order))
    ensures g.Shallow() ==> Settled(g, AllVisited(g, order))
  {
    forall k ensures k in order <==> k in g.nodes { assert k in order <==> k in Elements(order); }
    AllVisitedReady(g, order);
  }

  lemma AllVisitedNext(g: Graph, order: seq<Key>, i: nat)
    requires g.Closed() && i < |order| && forall k :: k in order ==> k in g.nodes
    ensures AllVisited(g, order[..i + 1]) == Visited(g, AllVisited(g, order[..i]), order[i], 0).0
  {
    assert order[..i + 1][..i] == order[..i];
  }
}
