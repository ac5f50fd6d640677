/**
 * Finishing a catalog: build the tag graph, resolve it, and list for every item and block the
 * tags that hold it. Storing the catalog and reading it back rebuilds the same lists.
 */
module CatalogFinish {
  import opened Ordering
  import opened TagResolution
  import opened TagDefinitions
  import opened Walks
  import opened TagStatus
  import opened TagWary

  // ----- the graph -------------------------------------------------------------------------

  type Sources = map<Key, seq<Definition>>

  function NodeOf(defs: seq<Definition>): Node {
    var d := Expanded(defs);
    Node(d.tag.status, d.tag.diagnostics, d.edges)
  }

  const MISSING := Node(Missing, [], [])

  ghost function Referenced(sources: Sources): set<Key> {
    set k, e | k in sources && e in Expanded(sources[k]).edges && e.tag :: Key(k.registry, e.id)
  }

  ghost function AllRegistered(sources: Sources, r: Registry): set<string> {
    set k, id | k in sources && k.registry == r && id in Expanded(sources[k]).registered :: id
  }

  /** The graph of some sources: every tag that is defined or referred to, every id that is registered. */
  ghost predicate IsGraphOf(g: Graph, sources: Sources, items: set<string>, blocks: set<string>) {
    && g.nodes.Keys == sources.Keys + Referenced(sources)
    && (forall k :: k in g.nodes ==> g.nodes[k] == if k in sources then NodeOf(sources[k]) else MISSING)
    && g.items == items + AllRegistered(sources, ItemRegistry)
    && g.blocks == blocks + AllRegistered(sources, BlockRegistry)
  }

  lemma GraphClosed(g: Graph, sources: Sources, items: set<string>, blocks: set<string>)
    requires IsGraphOf(g, sources, items, blocks)
    ensures g.Closed()
  {
    forall k, i | k in g.nodes && 0 <= i < |g.nodes[k].edges| && g.nodes[k].edges[i].tag
      ensures Key(k.registry, g.nodes[k].edges[i].id) in g.nodes
    {
      assert g.nodes[k].edges[i] in Expanded(sources[k]).edges;
      assert Key(k.registry, g.nodes[k].edges[i].id) in Referenced(sources);
    }
  }

  /** The search starts with no tag caught on a cycle. */
  lemma GraphUncaught(g: Graph, sources: Sources, items: set<string>, blocks: set<string>)
    requires IsGraphOf(g, sources, items, blocks)
    ensures NoneCaught(g)
  {
    hide Expanded;
    forall k | k in g.nodes ensures CycleOrTooDeep !in g.nodes[k].diagnostics {
      if k in sources { ExpandedMeaning(sources[k]); }
    }
  }

  lemma GraphStartsClean(g: Graph, sources: Sources, items: set<string>, blocks: set<string>)
    requires IsGraphOf(g, sources, items, blocks)
    ensures StartsClean(g)
  {
    hide Expanded;
    forall k | k in g.nodes ensures CleanNode(g.nodes[k]) {
      if k in sources { ExpandedMeaning(sources[k]); }
    }
  }

  /** m is defined, and its own definitions leave it resolved. */
  ghost predicate WellDefined(sources: Sources, m: Key) {
    m in sources && Expanded(sources[m]).tag.status == Resolved
  }

  /** A finished tag is resolved only if all the tags that it requires, however far, are defined and
      leave nothing open. */
  lemma ResolvedIsDefined(g: Graph, sources: Sources, items: set<string>, blocks: set<string>, order: seq<Key>, k: Key, m: Key)
    requires IsGraphOf(g, sources, items, blocks) && g.Closed() && Elements(order) == g.nodes.Keys && k in g.nodes
    requires (forall x :: x in order ==> x in g.nodes) && AllVisited(g, order).tags[k].status == Resolved
    requires Reaches(g.RequiredRefs(), k, m)
    ensures WellDefined(sources, m)
  {
    hide Expanded;
    GraphStartsClean(g, sources, items, blocks);
    RequiredInGraph(g, k, m);
    if g.nodes[m].status != Resolved {
      assert Unresolved(g, k, m);
      RequiringIsUnresolved(g, order, k);
    }
  }

  lemma RequiredInGraph(g: Graph, k: Key, m: Key)
    requires g.Closed() && k in g.nodes && Reaches(g.RequiredRefs(), k, m)
    ensures m in g.nodes
  {
    var w :| Connects(g.RequiredRefs(), k, m, w);
    if |w| > 1 { assert (w[|w| - 2], w[|w| - 1]) in g.RequiredRefs(); }
  }

  /** A direct addition that counts always finds its target in the catalog. */
  lemma AdditionsFound(g: Graph, sources: Sources, items: set<string>, blocks: set<string>, k: Key, e: Edge)
    requires IsGraphOf(g, sources, items, blocks) && k in g.nodes
    requires e in g.nodes[k].edges && !e.tag && !e.remove
    ensures Direct(g, k.registry, e).members == {e.id}
  {
    ExpandedMeaning(sources[k]);
    AdditionRegistered(sources[k], e);
    assert e.id in AllRegistered(sources, k.registry);
  }

  class GraphBuilder {
    var items: set<string>
    var blocks: set<string>
    var nodes: map<Key, Node>

    constructor (items: set<string>, blocks: set<string>)
      ensures this.items == items && this.blocks == blocks && nodes == map[]
    {
      this.items, this.blocks, nodes := items, blocks, map[];
    }

    /** Expands one defined tag. */
    method ExpandTag(key: Key, defs: seq<Definition>)
      modifies this
      ensures nodes == old(nodes)[key := NodeOf(defs)]
      ensures items == old(items) + if key.registry.ItemRegistry? then Expanded(defs).registered else {}
      ensures blocks == old(blocks) + if key.registry.BlockRegistry? then Expanded(defs).registered else {}
    {
      hide Expanded;
      var builder := new TagBuilder();
      builder.Expand(defs);
      var d := builder.draft;
      nodes := nodes[key := Node(d.tag.status, d.tag.diagnostics, d.edges)];
      if key.registry.ItemRegistry? {
        items := items + d.registered;
      } else {
        blocks := blocks + d.registered;
      }
    }

    /** Expands every defined tag, in whatever order the map is walked. */
    method ExpandAll(sources: Sources)
      requires nodes == map[]
      modifies this
      ensures Collected(sources, sources.Keys, old(items), old(blocks), nodes, items, blocks)
    {
      hide Expanded, NodeOf, Collected;
      var rest := sources.Keys;
      CollectedNone(sources, items, blocks);
      assert sources.Keys - rest == {};
      while rest != {}
        invariant rest <= sources.Keys
        invariant Collected(sources, sources.Keys - rest, old(items), old(blocks), nodes, items, blocks)
        decreases |rest|
      {
        var key :| key in rest;
        CollectedNext(sources, sources.Keys - rest, old(items), old(blocks), nodes, items, blocks, key);
        assert sources.Keys - (rest - {key}) == (sources.Keys - rest) + {key};
        ExpandTag(key, sources[key]);
        rest := rest - {key};
      }
      assert sources.Keys - rest == sources.Keys;
    }

    /** Adds the tags that these entries refer to and that are not there yet. */
    method AddTargets(r: Registry, edges: seq<Edge>)
      modifies this`nodes
      ensures nodes.Keys == old(nodes).Keys + Targets(r, edges)
      ensures forall k :: k in nodes ==> nodes[k] == if k in old(nodes) then old(nodes)[k] else MISSING
    {
      var i := 0;
      while i < |edges|
        invariant 0 <= i <= |edges|
        invariant nodes.Keys == old(nodes).Keys + Targets(r, edges[..i])
        invariant forall k :: k in nodes ==> nodes[k] == if k in old(nodes) then old(nodes)[k] else MISSING
      {
        TargetsNext(r, edges, i);
        var target := Key(r, edges[i].id);
        if edges[i].tag && target !in nodes {
          nodes := nodes[target := MISSING];
        }
        i := i + 1;
      }
      assert edges[..i] == edges;
    }

    /** Adds what one of the defined tags refers to. */
    method AddTargetsOf(sources: Sources, ghost done: set<Key>, key: Key)
      requires done <= sources.Keys && key in sources && MissingAdded(sources, done, nodes)
      modifies this`nodes
      ensures MissingAdded(sources, done + {key}, nodes)
    {
      hide NodeOf, Targets, ReferencedBy;
      ghost var before := nodes;
      AddTargets(key.registry, nodes[key].edges);
      MissingNext(sources, done, key, before, nodes);
    }

    /** Adds the tags that are only referred to. */
    method AddMissing(sources: Sources)
      requires nodes.Keys == sources.Keys && forall k :: k in nodes ==> nodes[k] == NodeOf(sources[k])
      modifies this`nodes
      ensures MissingAdded(sources, sources.Keys, nodes)
    {
      MissingNone(sources, nodes);
      hide NodeOf, MissingAdded, Targets;
      ghost var done: set<Key> := {};
      var rest := sources.Keys;
      while rest != {}
        invariant rest <= sources.Keys
        invariant done == sources.Keys - rest && MissingAdded(sources, done, nodes)
        decreases |rest|
      {
        var key :| key in rest;
        AddTargetsOf(sources, done, key);
        done := done + {key};
        rest := rest - {key};
      }
      assert done == sources.Keys;
    }
  }

  ghost function RegisteredBy(sources: Sources, r: Registry, keys: set<Key>): set<string>
    requires keys <= sources.Keys
  {
    set k, id | k in keys && k.registry == r && id in Expanded(sources[k]).registered :: id
  }

  /** What expanding the tags in keys has produced. */
  ghost predicate Collected(sources: Sources, keys: set<Key>, items0: set<string>, blocks0: set<string>,
                            nodes: map<Key, Node>, items: set<string>, blocks: set<string>) {
    && keys <= sources.Keys && nodes.Keys == keys
    && (forall k :: k in keys ==> nodes[k] == NodeOf(sources[k]))
    && items == items0 + RegisteredBy(sources, ItemRegistry, keys)
    && blocks == blocks0 + RegisteredBy(sources, BlockRegistry, keys)
  }

  lemma CollectedNone(sources: Sources, items: set<string>, blocks: set<string>)
    ensures Collected(sources, {}, items, blocks, map[], items, blocks)
  {
    assert RegisteredBy(sources, ItemRegistry, {}) == {} && RegisteredBy(sources, BlockRegistry, {}) == {};
  }

  lemma RegisteredByNext(sources: Sources, r: Registry, keys: set<Key>, key: Key)
    requires keys <= sources.Keys && key in sources
    ensures RegisteredBy(sources, r, keys + {key}) ==
      RegisteredBy(sources, r, keys) + if key.registry == r then Expanded(sources[key]).registered else {}
  {
    hide Expanded;
  }

  lemma CollectedNext(sources: Sources, keys: set<Key>, items0: set<string>, blocks0: set<string>,
                      nodes: map<Key, Node>, items: set<string>, blocks: set<string>, key: Key)
    requires Collected(sources, keys, items0, blocks0, nodes, items, blocks) && key in sources
    ensures Collected(sources, keys + {key}, items0, blocks0, nodes[key := NodeOf(sources[key])],
                      items + (if key.registry.ItemRegistry? then Expanded(sources[key]).registered else {}),
                      blocks + (if key.registry.BlockRegistry? then Expanded(sources[key]).registered else {}))
  {
    hide Expanded, NodeOf;
    RegisteredByNext(sources, ItemRegistry, keys, key);
    RegisteredByNext(sources, BlockRegistry, keys, key);
  }

  lemma RegisteredByAll(sources: Sources, r: Registry)
    ensures RegisteredBy(sources, r, sources.Keys) == AllRegistered(sources, r)
  {
    hide Expanded;
  }

  ghost function Targets(r: Registry, edges: seq<Edge>): set<Key> {
    set e | e in edges && e.tag :: Key(r, e.id)
  }

  lemma TargetsNext(r: Registry, edges: seq<Edge>, i: nat)
    requires i < |edges|
    ensures Targets(r, edges[..i + 1]) == Targets(r, edges[..i]) + if edges[i].tag then {Key(r, edges[i].id)} else {}
  {
    assert forall e :: e in edges[..i + 1] <==> e in edges[..i] || e == edges[i];
  }

  ghost function ReferencedBy(sources: Sources, keys: set<Key>): set<Key>
    requires keys <= sources.Keys
  {
    set k, t | k in keys && t in Targets(k.registry, Expanded(sources[k]).edges) :: t
  }

  /** The nodes once the tags that some of the defined tags refer to have been added. */
  ghost predicate MissingAdded(sources: Sources, done: set<Key>, nodes: map<Key, Node>)
    requires done <= sources.Keys
  {
    && nodes.Keys == sources.Keys + ReferencedBy(sources, done)
    && forall k :: k in nodes ==> nodes[k] == if k in sources then NodeOf(sources[k]) else MISSING
  }

  lemma MissingNone(sources: Sources, nodes: map<Key, Node>)
    requires nodes.Keys == sources.Keys && forall k :: k in nodes ==> nodes[k] == NodeOf(sources[k])
    ensures MissingAdded(sources, {}, nodes)
  {
    assert ReferencedBy(sources, {}) == {};
  }

  lemma MissingNext(sources: Sources, done: set<Key>, key: Key, before: map<Key, Node>, nodes: map<Key, Node>)
    requires done <= sources.Keys && key in sources && key in before && MissingAdded(sources, done, before)
    requires nodes.Keys == before.Keys + Targets(key.registry, before[key].edges)
    requires forall k :: k in nodes ==> nodes[k] == if k in before then before[k] else MISSING
    ensures MissingAdded(sources, done + {key}, nodes)
  {
    hide NodeOf, ReferencedBy, Targets;
    ReferencedByNext(sources, done, key);
  }

  lemma ReferencedByNext(sources: Sources, keys: set<Key>, key: Key)
    requires keys <= sources.Keys && key in sources
    ensures ReferencedBy(sources, keys + {key}) == ReferencedBy(sources, keys) + Targets(key.registry, NodeOf(sources[key]).edges)
  {
    hide Expanded;
  }

  lemma ReferencedByAll(sources: Sources)
    ensures ReferencedBy(sources, sources.Keys) == Referenced(sources)
  {
    hide Expanded;
    forall t | t in ReferencedBy(sources, sources.Keys) ensures t in Referenced(sources) {
      var k :| k in sources && t in Targets(k.registry, Expanded(sources[k]).edges);
      var e :| e in Expanded(sources[k]).edges && e.tag && t == Key(k.registry, e.id);
    }
    forall t | t in Referenced(sources) ensures t in ReferencedBy(sources, sources.Keys) {
      var k, e :| k in sources && e in Expanded(sources[k]).edges && e.tag && t == Key(k.registry, e.id);
      assert t in Targets(k.registry, Expanded(sources[k]).edges);
    }
  }

  // ----- the inverse lists -----------------------------------------------------------------

  type Lists = map<string, seq<string>>

  /** The ids of the tags of one registry that hold m. */
  ghost function Holders(tags: map<Key, Tag>, r: Registry, m: string): set<string> {
    set k | k in tags && k.registry == r && m in tags[k].members :: k.id
  }

  /** lists gives, for every entry of the catalog, the tags that hold it, in order and once each. */
  ghost predicate Inverse(lists: Lists, tags: map<Key, Tag>, r: Registry, entries: set<string>) {
    && lists.Keys == entries
    && forall m :: m in entries ==> Ascending(lists[m]) && Elements(lists[m]) == Holders(tags, r, m)
  }

  lemma InverseUnique(a: Lists, b: Lists, tags: map<Key, Tag>, r: Registry, entries: set<string>)
    requires Inverse(a, tags, r, entries) && Inverse(b, tags, r, entries)
    ensures a == b
  {
    forall m | m in entries ensures a[m] == b[m] {
      AscendingUnique(a[m], b[m]);
    }
  }

  /** The name a tag is filed under; walking the catalog sorts by it. */
  function FileName(k: Key): string {
    (if k.registry.ItemRegistry? then "item\0" else "block\0") + k.id
  }

  ghost predicate Filed(order: seq<Key>) {
    forall i, j :: 0 <= i < j < |order| ==> Less(FileName(order[i]), FileName(order[j]))
  }

  lemma FiledByID(order: seq<Key>, i: nat, j: nat)
    requires Filed(order) && i < j < |order| && order[i].registry == order[j].registry
    ensures Less(order[i].id, order[j].id)
  {
    LessPrefix(if order[i].registry.ItemRegistry? then "item\0" else "block\0", order[i].id, order[j].id);
  }

  /** Adds id to the list of each member that is in the catalog. */
  method AppendTo(lists: Lists, members: seq<string>, id: string) returns (r: Lists)
    requires Ascending(members)
    ensures r.Keys == lists.Keys
    ensures forall m :: m in lists ==> r[m] == if m in members then lists[m] + [id] else lists[m]
  {
    r := lists;
    for i := 0 to |members|
      invariant r.Keys == lists.Keys
      invariant forall m :: m in lists ==> r[m] == if m in members[..i] then lists[m] + [id] else lists[m]
    {
      var m := members[i];
      assert m !in members[..i] by { LessIrreflexive(m); }
      if m in r {
        r := r[m := r[m] + [id]];
      }
    }
    assert members[..|members|] == members;
  }

  /** The ids, among the first i tags filed, of those of registry r that hold m. */
  ghost function HoldersUpTo(tags: map<Key, Tag>, order: seq<Key>, i: nat, r: Registry, m: string): set<string>
    requires i <= |order| && forall k :: k in order ==> k in tags
  {
    set j | 0 <= j < i && order[j].registry == r && m in tags[order[j]].members :: order[j].id
  }

  ghost predicate InverseUpTo(lists: Lists, tags: map<Key, Tag>, order: seq<Key>, i: nat, r: Registry, entries: set<string>)
    requires i <= |order| && forall k :: k in order ==> k in tags
  {
    && lists.Keys == entries
    && forall m :: m in entries ==> Ascending(lists[m]) && Elements(lists[m]) == HoldersUpTo(tags, order, i, r, m)
  }

  lemma ListNext(list: seq<string>, tags: map<Key, Tag>, order: seq<Key>, i: nat, r: Registry, m: string)
    requires i < |order| && (forall k :: k in order ==> k in tags) && Filed(order)
    requires Ascending(list) && Elements(list) == HoldersUpTo(tags, order, i, r, m)
    ensures var next := if order[i].registry == r && m in tags[order[i]].members then list + [order[i].id] else list;
      Ascending(next) && Elements(next) == HoldersUpTo(tags, order, i + 1, r, m)
  {
    if order[i].registry == r && m in tags[order[i]].members {
      forall x | x in list ensures Less(x, order[i].id) {
        assert x in Elements(list);
        var j :| 0 <= j < i && order[j].registry == r && m in tags[order[j]].members && order[j].id == x;
        FiledByID(order, j, i);
      }
      assert Elements(list + [order[i].id]) == Elements(list) + {order[i].id};
      assert HoldersUpTo(tags, order, i + 1, r, m) == HoldersUpTo(tags, order, i, r, m) + {order[i].id};
    } else {
      assert HoldersUpTo(tags, order, i + 1, r, m) == HoldersUpTo(tags, order, i, r, m);
    }
  }

  lemma InverseNext(lists: Lists, next: Lists, tags: map<Key, Tag>, order: seq<Key>, i: nat, r: Registry, entries: set<string>)
    requires i < |order| && (forall k :: k in order ==> k in tags) && Filed(order)
    requires InverseUpTo(lists, tags, order, i, r, entries) && next.Keys == lists.Keys
    requires forall m :: m in entries ==>
      (next[m] == if order[i].registry == r && m in tags[order[i]].members then lists[m] + [order[i].id] else lists[m])
    ensures InverseUpTo(next, tags, order, i + 1, r, entries)
  {
    forall m | m in entries ensures Ascending(next[m]) && Elements(next[m]) == HoldersUpTo(tags, order, i + 1, r, m) {
      ListNext(lists[m], tags, order, i, r, m);
    }
  }

  lemma InverseNone(lists: Lists, tags: map<Key, Tag>, order: seq<Key>, r: Registry, entries: set<string>)
    requires (forall k :: k in order ==> k in tags) && lists == map m | m in entries :: []
    ensures InverseUpTo(lists, tags, order, 0, r, entries)
  {
  }

  lemma InverseDone(lists: Lists, tags: map<Key, Tag>, order: seq<Key>, r: Registry, entries: set<string>)
    requires (forall k :: k in order ==> k in tags) && Elements(order) == tags.Keys
    requires InverseUpTo(lists, tags, order, |order|, r, entries)
    ensures Inverse(lists, tags, r, entries)
  {
    forall m | m in entries ensures HoldersUpTo(tags, order, |order|, r, m) == Holders(tags, r, m) {
      forall k | k in tags && k.registry == r && m in tags[k].members ensures k.id in HoldersUpTo(tags, order, |order|, r, m) {
        assert k in Elements(order);
        var j :| 0 <= j < |order| && order[j] == k;
      }
    }
  }

  /** Walks the resolved tags in file order and lists, under each member, the tags that hold it. */
  method ListHolders(tags: map<Key, Tag>, order: seq<Key>, items: set<string>, blocks: set<string>)
    returns (itemTags: Lists, blockTags: Lists)
    requires Filed(order) && Elements(order) == tags.Keys
    requires forall k :: k in tags ==> Ascending(tags[k].members)
    ensures Inverse(itemTags, tags, ItemRegistry, items) && Inverse(blockTags, tags, BlockRegistry, blocks)
  {
    assert forall k :: k in order ==> k in Elements(order);
    itemTags := map m | m in items :: [];
    blockTags := map m | m in blocks :: [];
    hide Filed, HoldersUpTo, Inverse;
    InverseNone(itemTags, tags, order, ItemRegistry, items);
    InverseNone(blockTags, tags, order, BlockRegistry, blocks);
    for i := 0 to |order|
      invariant InverseUpTo(itemTags, tags, order, i, ItemRegistry, items)
      invariant InverseUpTo(blockTags, tags, order, i, BlockRegistry, blocks)
    {
      var key := order[i];
      ghost var was, wasBlocks := itemTags, blockTags;
      if key.registry.ItemRegistry? {
        itemTags := AppendTo(itemTags, tags[key].members, key.id);
      } else {
        blockTags := AppendTo(blockTags, tags[key].members, key.id);
      }
      InverseNext(was, itemTags, tags, order, i, ItemRegistry, items);
      InverseNext(wasBlocks, blockTags, tags, order, i, BlockRegistry, blocks);
    }
    InverseDone(itemTags, tags, order, ItemRegistry, items);
    InverseDone(blockTags, tags, order, BlockRegistry, blocks);
  }

  // ----- the whole -------------------------------------------------------------------------

  /** The keys of a map sorted by file name: the names of blocks come before those of items. */
  method SortKeys(keys: set<Key>) returns (order: seq<Key>)
    ensures Filed(order) && Elements(order) == keys
  {
    var blocks := SortStrings(set k | k in keys && k.registry.BlockRegistry? :: k.id);
    var items := SortStrings(set k | k in keys && k.registry.ItemRegistry? :: k.id);
    order := KeysOf(BlockRegistry, blocks) + KeysOf(ItemRegistry, items);
    forall i, j | 0 <= i < j < |order| ensures Less(FileName(order[i]), FileName(order[j])) {
      if order[i].registry == order[j].registry {
        LessPrefix(if order[i].registry.ItemRegistry? then "item\0" else "block\0", order[i].id, order[j].id);
      }
    }
    forall k ensures k in order <==> k in keys {
      if k in keys {
        var list := if k.registry.ItemRegistry? then items else blocks;
        assert k.id in Elements(list);
        assert k in KeysOf(k.registry, list);
      }
      if k in order {
        assert k.id in Elements(if k.registry.ItemRegistry? then items else blocks);
      }
    }
  }

  function KeysOf(r: Registry, ids: seq<string>): (q: seq<Key>)
    ensures |q| == |ids| && forall i :: 0 <= i < |q| ==> q[i] == Key(r, ids[i])
    ensures forall i :: 0 <= i < |ids| ==> Key(r, ids[i]) in q
    ensures forall k :: k in q ==> k.registry == r && k.id in ids
  {
    var q := seq(|ids|, i requires 0 <= i < |ids| => Key(r, ids[i]));
    assert forall i :: 0 <= i < |ids| ==> q[i] == Key(r, ids[i]);
    q
  }

  /** A finished catalog, as it is stored. */
  datatype Catalog = Catalog(tags: map<Key, Tag>, items: set<string>, blocks: set<string>, itemTags: Lists, blockTags: Lists)

  /** Every member is an entry of its tag's registry, and the two directions agree. */
  ghost predicate Coherent(c: Catalog) {
    && (forall k :: k in c.tags ==> Ascending(c.tags[k].members))
    && (forall k :: k in c.tags ==> Elements(c.tags[k].members) <= if k.registry.ItemRegistry? then c.items else c.blocks)
    && Inverse(c.itemTags, c.tags, ItemRegistry, c.items)
    && Inverse(c.blockTags, c.tags, BlockRegistry, c.blocks)
  }

  /** Finishing: graph, search in file order, inverse lists. */
  method Finish(sources: Sources, items: set<string>, blocks: set<string>)
    returns (c: Catalog, ghost g: Graph, ghost s: Search, ghost order: seq<Key>)
    ensures IsGraphOf(g, sources, items, blocks) && g.Closed() && NoneCaught(g)
    ensures Filed(order) && Elements(order) == g.nodes.Keys && (forall k :: k in order ==> k in g.nodes)
    ensures s == AllVisited(g, order)
    ensures c.items == g.items && c.blocks == g.blocks && c.tags == s.tags
    ensures c.tags.Keys == sources.Keys + Referenced(sources) && Coherent(c)
    ensures Done(g, s) && (g.Shallow() ==> Settled(g, s))
    ensures forall k, m :: k in c.tags && c.tags[k].status == Resolved && Reaches(g.RequiredRefs(), k, m) ==> WellDefined(sources, m)
  {
    var builder := new GraphBuilder(items, blocks);
    builder.ExpandAll(sources);
    RegisteredByAll(sources, ItemRegistry);
    RegisteredByAll(sources, BlockRegistry);
    builder.AddMissing(sources);
    ReferencedByAll(sources);
    var graph := Graph(builder.nodes, builder.items, builder.blocks);
    g := graph;
    GraphClosed(g, sources, items, blocks);
    GraphUncaught(g, sources, items, blocks);
    var resolver := new Resolver(graph);
    var filed := SortKeys(graph.nodes.Keys);
    order := filed;
    assert forall k :: k in order ==> k in Elements(order);
    resolver.VisitAll(filed);
    s := resolver.State();
    forall k | k in g.nodes ensures Ascending(s.tags[k].members) && Elements(s.tags[k].members) <= g.Catalog(k.registry) {
      assert TagOk(g, s, k);
    }
    forall k, m | k in s.tags && s.tags[k].status == Resolved && Reaches(g.RequiredRefs(), k, m) ensures WellDefined(sources, m) {
      ResolvedIsDefined(g, sources, items, blocks, order, k, m);
    }
    var itemTags, blockTags := ListHolders(resolver.tags, filed, graph.items, graph.blocks);
    c := Catalog(resolver.tags, graph.items, graph.blocks, itemTags, blockTags);
  }

  // ----- storing and reading back ----------------------------------------------------------

  /** One row of the table of tag members. */
  datatype Row = Row(key: Key, member: string)

  /** Rows are read by registry, tag and member. */
  predicate RowLess(a: Row, b: Row) {
    (a.key.registry.BlockRegistry? && b.key.registry.ItemRegistry?)
    || (a.key.registry == b.key.registry && (Less(a.key.id, b.key.id) || (a.key.id == b.key.id && Less(a.member, b.member))))
  }

  ghost function Stored(c: Catalog): set<Row> {
    set k, m | k in c.tags && m in c.tags[k].members :: Row(k, m)
  }

  /** The result of the ordered query over the stored rows. */
  ghost predicate Selected(rows: seq<Row>, c: Catalog) {
    Elements(rows) == Stored(c) && forall i, j :: 0 <= i < j < |rows| ==> RowLess(rows[i], rows[j])
  }

  ghost function MembersIn(rows: seq<Row>, k: Key): set<string> {
    set r | r in rows && r.key == k :: r.member
  }

  ghost function HoldersIn(rows: seq<Row>, registry: Registry, m: string): set<string> {
    set r | r in rows && r.key.registry == registry && r.member == m :: r.key.id
  }

  lemma RowNext(rows: seq<Row>, c: Catalog, i: nat)
    requires Selected(rows, c) && i < |rows|
    ensures forall m :: m in MembersIn(rows[..i], rows[i].key) ==> Less(m, rows[i].member)
    ensures forall id :: id in HoldersIn(rows[..i], rows[i].key.registry, rows[i].member) ==> Less(id, rows[i].key.id)
    ensures forall k :: MembersIn(rows[..i + 1], k) == MembersIn(rows[..i], k) + if k == rows[i].key then {rows[i].member} else {}
    ensures forall r, m :: HoldersIn(rows[..i + 1], r, m) == HoldersIn(rows[..i], r, m) + HoldersIn([rows[i]], r, m)
    ensures HoldersIn([rows[i]], rows[i].key.registry, rows[i].member) == {rows[i].key.id}
    ensures forall r, m :: r != rows[i].key.registry || m != rows[i].member ==> HoldersIn([rows[i]], r, m) == {}
  {
    LessIrreflexive(rows[i].key.id);
    LessIrreflexive(rows[i].member);
    assert forall r :: r in rows[..i + 1] <==> r in rows[..i] || r == rows[i];
  }

  lemma AppendAscending(q: seq<string>, x: string)
    requires Ascending(q) && forall y :: y in Elements(q) ==> Less(y, x)
    ensures Ascending(q + [x]) && Elements(q + [x]) == Elements(q) + {x}
  {
    forall y | y in q ensures Less(y, x) { assert y in Elements(q); }
  }

  /** lists holds, in order, what the rows say about registry r. */
  ghost predicate ListsRead(rows: seq<Row>, r: Registry, lists: Lists, entries: set<string>) {
    lists.Keys == entries && forall m :: m in entries ==> Ascending(lists[m]) && Elements(lists[m]) == HoldersIn(rows, r, m)
  }

  ghost predicate MembersRead(rows: seq<Row>, members: map<Key, seq<string>>, keys: set<Key>) {
    members.Keys == keys && forall k :: k in keys ==> Ascending(members[k]) && Elements(members[k]) == MembersIn(rows, k)
  }

  function Added(lists: Lists, m: string, id: string): Lists {
    if m in lists then lists[m := lists[m] + [id]] else lists
  }

  lemma ListsReadNext(rows: seq<Row>, c: Catalog, i: nat, r: Registry, lists: Lists, entries: set<string>)
    requires Selected(rows, c) && i < |rows| && ListsRead(rows[..i], r, lists, entries)
    ensures ListsRead(rows[..i + 1], r, if rows[i].key.registry == r then Added(lists, rows[i].member, rows[i].key.id) else lists, entries)
  {
    hide HoldersIn, MembersIn, Ascending, Elements, Selected, RowLess;
    RowNext(rows, c, i);
    if rows[i].key.registry == r && rows[i].member in lists {
      AppendAscending(lists[rows[i].member], rows[i].key.id);
    }
  }

  lemma MembersReadNext(rows: seq<Row>, c: Catalog, i: nat, members: map<Key, seq<string>>, keys: set<Key>)
    requires Selected(rows, c) && i < |rows| && rows[i].key in keys && MembersRead(rows[..i], members, keys)
    ensures MembersRead(rows[..i + 1], members[rows[i].key := members[rows[i].key] + [rows[i].member]], keys)
  {
    hide HoldersIn, MembersIn, Ascending, Elements, Selected, RowLess;
    RowNext(rows, c, i);
    AppendAscending(members[rows[i].key], rows[i].member);
  }

  /** Rebuilds members and inverse lists while scanning the rows once. */
  method ReadTags(rows: seq<Row>, ghost c: Catalog, keys: set<Key>, items: set<string>, blocks: set<string>)
    returns (members: map<Key, seq<string>>, itemTags: Lists, blockTags: Lists)
    requires Coherent(c) && Selected(rows, c) && keys == c.tags.Keys && items == c.items && blocks == c.blocks
    ensures members.Keys == c.tags.Keys && forall k :: k in c.tags ==> members[k] == c.tags[k].members
    ensures itemTags == c.itemTags && blockTags == c.blockTags
  {
    members := map k | k in keys :: [];
    itemTags := map m | m in items :: [];
    blockTags := map m | m in blocks :: [];
    for i := 0 to |rows|
      invariant MembersRead(rows[..i], members, keys)
      invariant ListsRead(rows[..i], ItemRegistry, itemTags, items)
      invariant ListsRead(rows[..i], BlockRegistry, blockTags, blocks)
    {
      hide ListsRead, Coherent, Selected;
      var key, m := rows[i].key, rows[i].member;
      RowKnown(rows, c, i);
      MembersReadNext(rows, c, i, members, keys);
      ListsReadNext(rows, c, i, ItemRegistry, itemTags, items);
      ListsReadNext(rows, c, i, BlockRegistry, blockTags, blocks);
      members := members[key := members[key] + [m]];
      if key.registry.ItemRegistry? {
        itemTags := Added(itemTags, m, key.id);
      } else {
        blockTags := Added(blockTags, m, key.id);
      }
    }
    assert rows[..|rows|] == rows;
    ReadBack(rows, c, members, itemTags, blockTags);
  }

  lemma RowKnown(rows: seq<Row>, c: Catalog, i: nat)
    requires Selected(rows, c) && i < |rows|
    ensures rows[i].key in c.tags
  {
    assert rows[i] in Elements(rows);
  }

  lemma ReadBack(rows: seq<Row>, c: Catalog, members: map<Key, seq<string>>, itemTags: Lists, blockTags: Lists)
    requires Coherent(c) && Selected(rows, c)
    requires members.Keys == c.tags.Keys && itemTags.Keys == c.items && blockTags.Keys == c.blocks
    requires forall k :: k in members ==> Ascending(members[k]) && Elements(members[k]) == MembersIn(rows, k)
    requires forall m :: m in itemTags ==> Ascending(itemTags[m]) && Elements(itemTags[m]) == HoldersIn(rows, ItemRegistry, m)
    requires forall m :: m in blockTags ==> Ascending(blockTags[m]) && Elements(blockTags[m]) == HoldersIn(rows, BlockRegistry, m)
    ensures forall k :: k in members ==> members[k] == c.tags[k].members
    ensures itemTags == c.itemTags && blockTags == c.blockTags
  {
    assert forall r :: r in rows <==> r in Stored(c) by {
      assert forall r :: r in rows <==> r in Elements(rows);
    }
    forall k | k in members ensures members[k] == c.tags[k].members {
      StoredMembers(rows, c, k);
      AscendingUnique(members[k], c.tags[k].members);
    }
    forall r: Registry, m ensures HoldersIn(rows, r, m) == Holders(c.tags, r, m) {
      StoredHolders(rows, c, r, m);
    }
    InverseUnique(itemTags, c.itemTags, c.tags, ItemRegistry, c.items);
    InverseUnique(blockTags, c.blockTags, c.tags, BlockRegistry, c.blocks);
  }

  lemma StoredMembers(rows: seq<Row>, c: Catalog, k: Key)
    requires (forall r :: r in rows <==> r in Stored(c)) && k in c.tags
    ensures MembersIn(rows, k) == Elements(c.tags[k].members)
  {
    forall m | m in c.tags[k].members ensures m in MembersIn(rows, k) {
      assert Row(k, m) in rows;
    }
  }

  lemma StoredHolders(rows: seq<Row>, c: Catalog, r: Registry, m: string)
    requires forall row :: row in rows <==> row in Stored(c)
    ensures HoldersIn(rows, r, m) == Holders(c.tags, r, m)
  {
    forall id | id in Holders(c.tags, r, m) ensures id in HoldersIn(rows, r, m) {
      assert Row(Key(r, id), m) in rows;
    }
  }
}
