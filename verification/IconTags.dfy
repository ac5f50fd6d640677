/** Which item stands for a tag: a backtracking search through tags that refer to tags. */
module IconTags {
  import opened Options
  import opened Walks
  import TagDefinitions

  /** A raw tag entry: text, a record with an id, or something else; null reads as empty text. */
  datatype Raw = Text(value: string) | Record(id: string) | Other

  datatype Entry = Ref(id: string) | Member(id: string)

  type Tags = map<string, seq<Raw>>

  const MAX_TAGS: nat := 32

  function EntryOf(text: string): Entry {
    if text != "" && text[0] == '#' then Ref(TagDefinitions.ResourceID(text[1..])) else Member(TagDefinitions.ResourceID(text))
  }

  function Parse(raw: Raw): Option<Entry> {
    match raw
    case Text(s) => Some(EntryOf(s))
    case Record(s) => Some(EntryOf(s))
    case Other => None
  }

  /** name spells id, with the default namespace left out or not. */
  predicate SpellsName(name: string, id: string) {
    (id == name && (name == "" || ':' in name)) || (id == "minecraft:" + name && name != "" && ':' !in name)
  }

  function EntriesOf(tags: Tags, id: string): seq<Raw> {
    if id in tags then tags[id] else []
  }

  // ----- what a tag leads to ---------------------------------------------------------------

  ghost function Refs(tags: Tags): set<(string, string)> {
    set id, i | id in tags && 0 <= i < |tags[id]| && Parse(tags[id][i]).Some? && Parse(tags[id][i]).value.Ref?
      :: (id, Parse(tags[id][i]).value.id)
  }

  function TextOf(raw: Raw): string {
    match raw case Text(s) => s case Record(s) => s case Other => ""
  }

  /** A leading hash marks a reference to a tag; everything else names a member. */
  predicate IsRef(raw: Raw, id: string) {
    !raw.Other? && TextOf(raw) != "" && TextOf(raw)[0] == '#' && SpellsName(TextOf(raw)[1..], id)
  }

  predicate Gives(available: set<string>, raw: Raw, item: string) {
    !raw.Other? && (TextOf(raw) == "" || TextOf(raw)[0] != '#') && SpellsName(TextOf(raw), item) && item in available
  }

  ghost predicate Direct(tags: Tags, available: set<string>, id: string, item: string) {
    exists i :: 0 <= i < |EntriesOf(tags, id)| && Gives(available, EntriesOf(tags, id)[i], item)
  }

  /** w is a chain of at most 32 tags from id to one with an available direct member. */
  ghost predicate Leads(tags: Tags, available: set<string>, id: string, w: seq<string>, item: string) {
    IsWalk(Refs(tags), w) && w[0] == id && |w| <= 32 && Direct(tags, available, Last(w), item)
  }

  /** The same without repetition and outside of the tags being visited. */
  ghost predicate LeadsPast(tags: Tags, available: set<string>, seen: set<string>, id: string, w: seq<string>, item: string) {
    && IsWalk(Refs(tags), w) && w[0] == id && Direct(tags, available, Last(w), item)
    && Simple(w) && (forall i :: 0 <= i < |w| ==> w[i] !in seen) && |seen| + |w| <= MAX_TAGS
  }

  ghost predicate Found(tags: Tags, available: set<string>, seen: set<string>, id: string, item: string) {
    exists w :: LeadsPast(tags, available, seen, id, w, item)
  }

  /** What entry k of a tag contributes, the tag itself being among those visited. */
  ghost predicate EntryFinds(tags: Tags, available: set<string>, seen: set<string>, raw: Raw, item: string) {
    Gives(available, raw, item) || exists next :: IsRef(raw, next) && Found(tags, available, seen, next, item)
  }

  lemma RefEdge(tags: Tags, id: string, next: string)
    ensures (id, next) in Refs(tags) <==> exists i :: 0 <= i < |EntriesOf(tags, id)| && IsRef(EntriesOf(tags, id)[i], next)
  {
    if (id, next) in Refs(tags) {
      var i :| id in tags && 0 <= i < |tags[id]| && Parse(tags[id][i]).Some? && Parse(tags[id][i]).value.Ref? && Parse(tags[id][i]).value.id == next;
      assert IsRef(EntriesOf(tags, id)[i], next);
    }
    if i :| 0 <= i < |EntriesOf(tags, id)| && IsRef(EntriesOf(tags, id)[i], next) {
      assert Parse(tags[id][i]).value.id == next;
    }
  }

  /** A tag finds an item exactly when it is open and one of its entries finds it. */
  lemma FoundByEntries(tags: Tags, available: set<string>, seen: set<string>, id: string, item: string)
    ensures Found(tags, available, seen, id, item) <==>
      id !in seen && |seen| < MAX_TAGS
      && exists i :: 0 <= i < |EntriesOf(tags, id)| && EntryFinds(tags, available, seen + {id}, EntriesOf(tags, id)[i], item)
  {
    var q := EntriesOf(tags, id);
    if w :| LeadsPast(tags, available, seen, id, w, item) {
      FoundDown(tags, available, seen, id, w, item);
    }
    if i :| id !in seen && |seen| < MAX_TAGS && 0 <= i < |q| && EntryFinds(tags, available, seen + {id}, q[i], item) {
      FoundUp(tags, available, seen, id, i, item);
    }
  }

  lemma FoundDown(tags: Tags, available: set<string>, seen: set<string>, id: string, w: seq<string>, item: string)
    requires LeadsPast(tags, available, seen, id, w, item)
    ensures exists i :: 0 <= i < |EntriesOf(tags, id)| && EntryFinds(tags, available, seen + {id}, EntriesOf(tags, id)[i], item)
  {
    var q := EntriesOf(tags, id);
    if |w| == 1 {
      var i :| 0 <= i < |q| && Gives(available, q[i], item);
      assert EntryFinds(tags, available, seen + {id}, q[i], item);
    } else {
      assert (w[0], w[1]) in Refs(tags);
      RefEdge(tags, id, w[1]);
      var i :| 0 <= i < |q| && IsRef(q[i], w[1]);
      var x := w[1..];
      WalkSlice(Refs(tags), w, 1, |w|);
      assert x == w[1..|w|];
      assert LeadsPast(tags, available, seen + {id}, w[1], x, item);
      assert Found(tags, available, seen + {id}, w[1], item);
      assert EntryFinds(tags, available, seen + {id}, q[i], item);
    }
  }

  lemma FoundUp(tags: Tags, available: set<string>, seen: set<string>, id: string, i: nat, item: string)
    requires id !in seen && |seen| < MAX_TAGS && i < |EntriesOf(tags, id)|
    requires EntryFinds(tags, available, seen + {id}, EntriesOf(tags, id)[i], item)
    ensures Found(tags, available, seen, id, item)
  {
    var raw := EntriesOf(tags, id)[i];
    if Gives(available, raw, item) {
      assert Direct(tags, available, id, item);
      hide Direct;
      assert LeadsPast(tags, available, seen, id, [id], item);
    } else {
      var next :| IsRef(raw, next) && Found(tags, available, seen + {id}, next, item);
      RefEdge(tags, id, next);
      hide Gives, IsRef, Direct, Refs;
      var x :| LeadsPast(tags, available, seen + {id}, next, x, item);
      LeadsFurther(tags, available, seen, id, next, x, item);
    }
  }

  lemma LeadsFurther(tags: Tags, available: set<string>, seen: set<string>, id: string, next: string, x: seq<string>, item: string)
    requires id !in seen && (id, next) in Refs(tags) && LeadsPast(tags, available, seen + {id}, next, x, item)
    ensures LeadsPast(tags, available, seen, id, [id] + x, item)
  {
    hide Direct, Refs;
    WalkCons(Refs(tags), id, x);
    var w := [id] + x;
    assert forall k :: 0 < k < |w| ==> w[k] == x[k - 1];
  }

  /** Starting afresh, repetition does not matter: any chain of at most 32 tags will do. */
  lemma FoundFromStart(tags: Tags, available: set<string>, id: string, item: string)
    ensures Found(tags, available, {}, id, item) <==> exists w :: Leads(tags, available, id, w, item)
  {
    if w :| LeadsPast(tags, available, {}, id, w, item) {
      assert Leads(tags, available, id, w, item);
    }
    if w :| Leads(tags, available, id, w, item) {
      var x := Simplify(Refs(tags), w);
      assert LeadsPast(tags, available, {}, id, x, item);
    }
  }

  // ----- empty members ---------------------------------------------------------------------

  /** An icon without an id would make an empty member end the search of its tag: it answers nothing. */
  predicate Stops(available: set<string>, raw: Raw) { "" in available && Parse(raw) == Some(Member("")) }

  /** The entries before the first that ends the search. */
  function Cut(available: set<string>, q: seq<Raw>): seq<Raw> {
    if q == [] || Stops(available, q[0]) then [] else [q[0]] + Cut(available, q[1..])
  }

  function CutTags(available: set<string>, tags: Tags): Tags {
    map id | id in tags :: Cut(available, tags[id])
  }

  lemma {:induction false} CutAt(available: set<string>, q: seq<Raw>, k: nat)
    requires k <= |q| && forall i :: 0 <= i < k ==> !Stops(available, q[i])
    ensures if k == |q| || Stops(available, q[k]) then Cut(available, q) == q[..k] else q[..k + 1] <= Cut(available, q)
  {
    hide Stops;
    if k > 0 {
      CutAt(available, q[1..], k - 1);
      assert q[..k] == [q[0]] + q[1..][..k - 1];
      assert k < |q| ==> q[..k + 1] == [q[0]] + q[1..][..k];
    }
  }

  lemma CutEntries(available: set<string>, tags: Tags, id: string)
    ensures EntriesOf(CutTags(available, tags), id) == Cut(available, EntriesOf(tags, id))
  {
  }

  /** Icons of item models have ids, and then every entry takes part. */
  lemma NothingCut(available: set<string>, tags: Tags)
    requires "" !in available
    ensures CutTags(available, tags) == tags
  {
    forall id | id in tags ensures Cut(available, tags[id]) == tags[id] {
      CutAt(available, tags[id], |tags[id]|);
    }
  }

  // ----- the search ------------------------------------------------------------------------

  class Resolver {
    const tags: Tags
    const available: set<string>
    var seen: set<string>

    constructor (tags: Tags, available: set<string>)
      ensures this.tags == tags && this.available == available && seen == {}
    {
      this.tags, this.available, seen := tags, available, {};
    }

    /** Visits a tag unless it is being visited already or 32 tags are; the visit is undone on return. */
    method Resolve(id: string) returns (found: string)
      modifies this
      ensures seen == old(seen)
      ensures found != "" ==> Found(CutTags(available, tags), available, seen, id, found)
      ensures found == "" ==> forall item :: !Found(CutTags(available, tags), available, seen, id, item)
      decreases MAX_TAGS - |seen|, 0
    {
      hide Found, EntryFinds, Cut;
      ghost var cut := CutTags(available, tags);
      CutEntries(available, tags, id);
      forall item ensures Found(cut, available, seen, id, item) <==> (id !in seen && |seen| < MAX_TAGS
        && exists i :: 0 <= i < |EntriesOf(cut, id)| && EntryFinds(cut, available, seen + {id}, EntriesOf(cut, id)[i], item))
      {
        FoundByEntries(cut, available, seen, id, item);
      }
      if id in seen || |seen| >= MAX_TAGS { return ""; }
      seen := seen + {id};
      found := TryEntries(EntriesOf(tags, id));
      seen := seen - {id};
      assert seen == old(seen);
    }

    method TryEntries(q: seq<Raw>) returns (found: string)
      requires |seen| <= MAX_TAGS
      modifies this
      ensures seen == old(seen)
      ensures var cut, live := CutTags(available, tags), Cut(available, q);
        && (found != "" ==> exists i :: 0 <= i < |live| && EntryFinds(cut, available, seen, live[i], found))
        && (found == "" ==> forall i, item :: 0 <= i < |live| ==> !EntryFinds(cut, available, seen, live[i], item))
      decreases MAX_TAGS - |seen|, 1
    {
      hide Found, Cut, CutTags;
      ghost var cut := CutTags(available, tags);
      for k := 0 to |q|
        invariant seen == old(seen)
        invariant forall i :: 0 <= i < k ==> !Stops(available, q[i])
        invariant forall i, item :: 0 <= i < k ==> !EntryFinds(cut, available, seen, q[i], item)
      {
        CutAt(available, q, k);
        var e := Parse(q[k]);
        if e.None? { continue; }
        match e.value
        case Ref(next) =>
          found := Resolve(next);
          if found != "" {
            assert EntryFinds(cut, available, seen, Cut(available, q)[k], found);
            return;
          }
        case Member(item) =>
          if item in available {
            assert item != "" ==> EntryFinds(cut, available, seen, Cut(available, q)[k], item);
            return item;
          }
      }
      CutAt(available, q, |q|);
      found := "";
    }
  }

  /** Each tag of the map is looked up with nothing visited yet; tags that lead nowhere get no entry. */
  method TagIcons(tags: Tags, icons: seq<string>) returns (result: map<string, string>)
    ensures "" !in icons ==> CutTags(IconSet(icons), tags) == tags
    ensures forall key :: key in result ==> exists tag :: tag in tags && key == "#" + tag
    ensures var cut := CutTags(IconSet(icons), tags);
      && (forall tag :: tag in tags ==> ("#" + tag in result <==> exists item, w :: Leads(cut, IconSet(icons), tag, w, item)))
      && (forall tag :: tag in tags && "#" + tag in result ==> exists w :: Leads(cut, IconSet(icons), tag, w, result["#" + tag]))
  {
    hide Found, Leads, Cut, CutTags;
    var available: set<string> := {};
    for i := 0 to |icons|
      invariant available == IconSet(icons[..i])
    {
      assert icons[..i + 1] == icons[..i] + [icons[i]];
      available := available + {icons[i]};
    }
    assert icons[..|icons|] == icons;
    if "" !in icons { NothingCut(available, tags); }
    ghost var cut := CutTags(available, tags);
    result := map[];
    var resolver := new Resolver(tags, available);
    var rest := tags.Keys;
    while rest != {}
      invariant rest <= tags.Keys && resolver.seen == {} && resolver.tags == tags && resolver.available == available
      invariant forall key :: key in result ==> exists tag :: tag in tags.Keys - rest && key == "#" + tag
      invariant forall tag :: tag in tags.Keys - rest ==> Answered(cut, available, tag, result)
      decreases |rest|
    {
      var tag :| tag in rest;
      var item := resolver.Resolve(tag);
      AnswerGiven(cut, available, tag, item, result);
      ghost var before := result;
      if item != "" { result := result["#" + tag := item]; }
      forall other | other in tags.Keys - rest ensures Answered(cut, available, other, result) {
        OtherKey(tag, other);
      }
      forall same | "#" + tag == "#" + same ensures same == tag { OtherKey(tag, same); }
      assert "#" + tag !in before;
      assert Answered(cut, available, tag, result);
      rest := rest - {tag};
    }
    forall tag | tag in tags ensures Answered(cut, available, tag, result) { }
  }

  function IconSet(icons: seq<string>): set<string> { set i | i in icons }

  /** The entry of a tag is an item it leads to, and is missing only if there is none. */
  ghost predicate Answered(tags: Tags, available: set<string>, tag: string, result: map<string, string>) {
    if "#" + tag in result then exists w :: Leads(tags, available, tag, w, result["#" + tag])
    else forall item, w :: !Leads(tags, available, tag, w, item)
  }

  /** The outcome of a search from a fresh start is the answer for its tag. */
  lemma AnswerGiven(tags: Tags, available: set<string>, tag: string, item: string, result: map<string, string>)
    requires item != "" ==> Found(tags, available, {}, tag, item)
    requires item == "" ==> forall x :: !Found(tags, available, {}, tag, x)
    ensures item != "" ==> Answered(tags, available, tag, result["#" + tag := item])
    ensures item == "" && "#" + tag !in result ==> Answered(tags, available, tag, result)
  {
    hide Found, Leads;
    FoundFromStart(tags, available, tag, item);
    if item == "" {
      forall x, w ensures !Leads(tags, available, tag, w, x) {
        FoundFromStart(tags, available, tag, x);
      }
    }
  }

  lemma OtherKey(a: string, b: string)
    ensures "#" + a == "#" + b ==> a == b
  {
    assert ("#" + a)[1..] == a && ("#" + b)[1..] == b;
  }

  // ----- collecting tags -------------------------------------------------------------------

  /** A tag file: unreadable, or a list of values that extends or replaces what came before. */
  datatype File = Unreadable | Readable(values: seq<Raw>, replace: bool)

  /** The values of a tag after some files: those since the last replacement. */
  function LiveValues(files: seq<(string, File)>, id: string): seq<Raw> {
    if files == [] then []
    else
      var (tag, f) := files[|files| - 1];
      if tag != id || f.Unreadable? then LiveValues(files[..|files| - 1], id)
      else if f.replace then f.values
      else LiveValues(files[..|files| - 1], id) + f.values
  }

  /** Files are added one by one; a file that is not a tag has an empty id. */
  method AddTags(files: seq<(string, File)>) returns (tags: Tags)
    ensures forall id :: id != "" ==> EntriesOf(tags, id) == LiveValues(files, id)
  {
    tags := map[];
    for i := 0 to |files|
      invariant forall id :: id != "" ==> EntriesOf(tags, id) == LiveValues(files[..i], id)
    {
      assert files[..i + 1][..i] == files[..i];
      var (id, f) := files[i];
      if id == "" || f.Unreadable? { continue; }
      if f.replace { tags := tags[id := []]; }
      tags := tags[id := EntriesOf(tags, id) + f.values];
    }
    assert files[..|files|] == files;
  }
}
