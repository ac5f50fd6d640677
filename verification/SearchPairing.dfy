/** Pairing search results: the same mod on two platforms becomes one card with a mirror. */
module SearchPairing {
  import opened Options

  datatype Mirror = Mirror(provider: string, id: string, slug: string, downloads: int)

  /** folded is the name without case, spaces and punctuation. */
  datatype Item = Item(provider: string, id: string, slug: string, folded: string, downloads: int, mirror: Option<Mirror>)

  /** One mod known on both platforms. */
  datatype Identity = Identity(modrinth: string, curseforge: string)

  // ----- keys ------------------------------------------------------------------------------

  function PairKey(x: Identity): string { "pair:" + x.modrinth + "|" + x.curseforge }

  /** The pairs by provider and project; a later identity overrides an earlier one. */
  function ByID(identities: seq<Identity>): map<string, string> {
    if identities == [] then map[]
    else
      var x := identities[|identities| - 1];
      ByID(identities[..|identities| - 1])["modrinth:" + x.modrinth := PairKey(x)]["curseforge:" + x.curseforge := PairKey(x)]
  }

  function KeyOf(pairs: map<string, string>, x: Item): string {
    var k := x.provider + ":" + x.id;
    if k in pairs then pairs[k] else "name:" + x.folded
  }

  /** The identity speaks of the project. */
  predicate Names(x: Identity, provider: string, id: string) {
    (provider == "modrinth" && id == x.modrinth) || (provider == "curseforge" && id == x.curseforge)
  }

  /** The last identity that speaks of the project is the k-th. */
  ghost predicate LastNaming(identities: seq<Identity>, provider: string, id: string, k: int) {
    && 0 <= k < |identities| && Names(identities[k], provider, id)
    && forall j :: k < j < |identities| ==> !Names(identities[j], provider, id)
  }

  lemma NamesIff(x: Identity, provider: string, id: string)
    requires ':' !in provider
    ensures Names(x, provider, id) <==> provider + ":" + id == "modrinth:" + x.modrinth || provider + ":" + id == "curseforge:" + x.curseforge
  {
    ColonSplit(provider, id, "modrinth", x.modrinth);
    ColonSplit(provider, id, "curseforge", x.curseforge);
  }

  lemma FirstUnique(s: string, c: char, i: nat, j: nat)
    requires i < |s| && j < |s| && s[i] == c && s[j] == c
    requires (forall k :: 0 <= k < i ==> s[k] != c) && (forall k :: 0 <= k < j ==> s[k] != c)
    ensures i == j
  {
  }

  /** The first separator divides a text in one way. */
  lemma SplitOnce(c: char, a: string, b: string, x: string, y: string)
    requires c !in a && c !in x
    ensures a + [c] + b == x + [c] + y <==> a == x && b == y
  {
    var s, t := a + [c] + b, x + [c] + y;
    assert forall k :: 0 <= k < |a| ==> s[k] == a[k];
    assert forall k :: 0 <= k < |x| ==> t[k] == x[k];
    if s == t {
      FirstUnique(s, c, |a|, |x|);
      assert s[..|a|] == a && t[..|x|] == x && s[|a| + 1..] == b && t[|x| + 1..] == y;
    }
  }

  lemma ColonSplit(a: string, b: string, x: string, y: string)
    requires ':' !in a && ':' !in x
    ensures a + ":" + b == x + ":" + y <==> a == x && b == y
  {
    SplitOnce(':', a, b, x, y);
  }

  ghost predicate PairedRight(identities: seq<Identity>, provider: string, id: string) {
    var k := provider + ":" + id;
    && (k in ByID(identities) <==> exists i :: 0 <= i < |identities| && Names(identities[i], provider, id))
    && forall i :: LastNaming(identities, provider, id, i) ==> k in ByID(identities) && ByID(identities)[k] == PairKey(identities[i])
  }

  lemma PairedNext(identities: seq<Identity>, x: Identity, provider: string, id: string)
    requires ':' !in provider && PairedRight(identities, provider, id)
    ensures PairedRight(identities + [x], provider, id)
  {
    NamesIff(x, provider, id);
    hide PairKey, Names;
    var k, more := provider + ":" + id, identities + [x];
    assert more[..|identities|] == identities;
    assert ByID(more) == ByID(identities)["modrinth:" + x.modrinth := PairKey(x)]["curseforge:" + x.curseforge := PairKey(x)];
    hide ByID;
    assert forall i :: 0 <= i < |identities| ==> more[i] == identities[i];
    assert more[|identities|] == x;
    forall i | LastNaming(more, provider, id, i) && i < |identities| ensures LastNaming(identities, provider, id, i) { }
  }

  lemma {:induction false} PairedIff(identities: seq<Identity>, provider: string, id: string)
    requires ':' !in provider
    ensures PairedRight(identities, provider, id)
  {
    hide PairedRight, ByID, Names, PairKey;
    if identities == [] {
      PairedNone(provider, id);
    } else {
      var n := |identities| - 1;
      PairedIff(identities[..n], provider, id);
      PairedNext(identities[..n], identities[n], provider, id);
      assert identities[..n] + [identities[n]] == identities;
    }
  }

  lemma PairedNone(provider: string, id: string)
    ensures PairedRight([], provider, id)
  {
  }

  lemma {:induction false} LastExists(identities: seq<Identity>, provider: string, id: string) returns (k: nat)
    requires exists i :: 0 <= i < |identities| && Names(identities[i], provider, id)
    ensures LastNaming(identities, provider, id, k)
  {
    var n := |identities| - 1;
    if Names(identities[n], provider, id) {
      k := n;
    } else {
      var i :| 0 <= i < |identities| && Names(identities[i], provider, id);
      assert identities[..n][i] == identities[i];
      k := LastExists(identities[..n], provider, id);
    }
  }

  /** Two items come under one key exactly when the last identities that speak of them are the same pair,
      or no identity speaks of either and their folded names agree. */
  lemma SameKeyIff(identities: seq<Identity>, x: Item, y: Item)
    requires ':' !in x.provider && ':' !in y.provider
    requires forall k :: 0 <= k < |identities| ==> '|' !in identities[k].modrinth
    ensures KeyOf(ByID(identities), x) == KeyOf(ByID(identities), y) <==>
      || (exists i, j :: LastNaming(identities, x.provider, x.id, i) && LastNaming(identities, y.provider, y.id, j) && identities[i] == identities[j])
      || (x.folded == y.folded && forall i :: 0 <= i < |identities| ==>
           !Names(identities[i], x.provider, x.id) && !Names(identities[i], y.provider, y.id))
  {
    hide Names, ByID;
    var a := Named(identities, x);
    var b := Named(identities, y);
    NameAndPairDiffer(x.folded, y.folded);
    forall i, j | 0 <= i < |identities| && 0 <= j < |identities|
      ensures PairKey(identities[i]) == PairKey(identities[j]) <==> identities[i] == identities[j]
    {
      PairKeyOnce(identities[i], identities[j]);
    }
    hide PairKey;
  }

  /** The key of an item, from the identities. */
  lemma Named(identities: seq<Identity>, x: Item) returns (k: Option<nat>)
    requires ':' !in x.provider
    ensures k.None? ==> KeyOf(ByID(identities), x) == "name:" + x.folded
    ensures k.None? ==> forall i :: 0 <= i < |identities| ==> !Names(identities[i], x.provider, x.id)
    ensures k.Some? ==> LastNaming(identities, x.provider, x.id, k.value) && KeyOf(ByID(identities), x) == PairKey(identities[k.value])
  {
    PairedIff(identities, x.provider, x.id);
    hide Names, ByID, PairKey;
    if i :| 0 <= i < |identities| && Names(identities[i], x.provider, x.id) {
      var n := LastExists(identities, x.provider, x.id);
      k := Some(n);
    } else {
      k := None;
    }
  }

  lemma PairKeyOnce(x: Identity, y: Identity)
    requires '|' !in x.modrinth && '|' !in y.modrinth
    ensures PairKey(x) == PairKey(y) <==> x == y
  {
    SplitOnce('|', "pair:" + x.modrinth, x.curseforge, "pair:" + y.modrinth, y.curseforge);
    assert ("pair:" + x.modrinth)[5..] == x.modrinth && ("pair:" + y.modrinth)[5..] == y.modrinth;
  }

  lemma NameAndPairDiffer(a: string, b: string)
    ensures "name:" + a == "name:" + b <==> a == b
    ensures forall i: Identity :: PairKey(i) != "name:" + a && PairKey(i) != "name:" + b
  {
    assert ("name:" + a)[5..] == a && ("name:" + b)[5..] == b;
    assert ("name:" + a)[0] == 'n' && ("name:" + b)[0] == 'n';
    assert forall i: Identity :: PairKey(i)[0] == 'p';
  }

  // ----- what pairing keeps ----------------------------------------------------------------

  /** The downloads of the items with a key. */
  function Total(pairs: map<string, string>, q: seq<Item>, key: string): int {
    if q == [] then 0
    else Total(pairs, q[..|q| - 1], key) + if KeyOf(pairs, q[|q| - 1]) == key then q[|q| - 1].downloads else 0
  }

  function Sum(q: seq<Item>): int {
    if q == [] then 0 else Sum(q[..|q| - 1]) + q[|q| - 1].downloads
  }

  lemma {:induction false} SumUpdate(q: seq<Item>, i: nat, x: Item)
    requires i < |q|
    ensures Sum(q[i := x]) == Sum(q) - q[i].downloads + x.downloads
  {
    var n := |q| - 1;
    if i < n {
      SumUpdate(q[..n], i, x);
      assert q[i := x][..n] == q[..n][i := x];
    } else {
      assert q[i := x][..n] == q[..n];
    }
  }

  lemma {:induction false} TotalUpdate(pairs: map<string, string>, q: seq<Item>, i: nat, x: Item, key: string)
    requires i < |q| && KeyOf(pairs, x) == KeyOf(pairs, q[i])
    ensures Total(pairs, q[i := x], key)
         == Total(pairs, q, key) + if KeyOf(pairs, q[i]) == key then x.downloads - q[i].downloads else 0
  {
    hide KeyOf;
    var n := |q| - 1;
    if i < n {
      TotalUpdate(pairs, q[..n], i, x, key);
      assert q[i := x][..n] == q[..n][i := x];
    } else {
      assert q[i := x][..n] == q[..n];
    }
  }

  lemma TotalAppend(pairs: map<string, string>, q: seq<Item>, x: Item, key: string)
    ensures Total(pairs, q + [x], key) == Total(pairs, q, key) + if KeyOf(pairs, x) == key then x.downloads else 0
    ensures Sum(q + [x]) == Sum(q) + x.downloads
  {
    assert (q + [x])[..|q|] == q;
  }

  /** One of the items with the key is this project. */
  predicate Listed(pairs: map<string, string>, items: seq<Item>, key: string, provider: string, id: string, slug: string) {
    exists i :: 0 <= i < |items| && KeyOf(pairs, items[i]) == key
      && items[i].provider == provider && items[i].id == id && items[i].slug == slug
  }

  /** A mirror is on another platform than its card, and has at most as many downloads as the rest of the card. */
  predicate Mirrored(x: Item) {
    x.mirror.Some? ==> x.mirror.value.provider != x.provider && 2 * x.mirror.value.downloads <= x.downloads
  }

  /** A card and its mirror are projects of the list under the same key; a card without a mirror is an item of the list. */
  predicate Genuine(pairs: map<string, string>, items: seq<Item>, x: Item) {
    && Listed(pairs, items, KeyOf(pairs, x), x.provider, x.id, x.slug)
    && (x.mirror.Some? ==> Listed(pairs, items, KeyOf(pairs, x), x.mirror.value.provider, x.mirror.value.id, x.mirror.value.slug))
    && (x.mirror.None? ==> x in items)
  }

  ghost predicate CardsGenuine(pairs: map<string, string>, items: seq<Item>, out: seq<Item>) {
    forall i :: 0 <= i < |out| ==> Mirrored(out[i]) && Genuine(pairs, items, out[i])
  }

  /** Downloads are conserved key by key, the list gets no longer, and cards and mirrors are what they claim. */
  ghost predicate Conserves(pairs: map<string, string>, items: seq<Item>, out: seq<Item>) {
    && (forall key :: Total(pairs, out, key) == Total(pairs, items, key))
    && Sum(out) == Sum(items)
    && |out| <= |items|
    && CardsGenuine(pairs, items, out)
  }

  /** The place and the platform remembered for a key are those of its first card; only first cards have mirrors. */
  ghost predicate Indexed(pairs: map<string, string>, out: seq<Item>, pos: map<string, nat>, providerAt: map<string, string>) {
    && pos.Keys == providerAt.Keys
    && (forall k :: k in pos ==> pos[k] < |out| && KeyOf(pairs, out[pos[k]]) == k && out[pos[k]].provider == providerAt[k])
    && (forall i :: 0 <= i < |out| ==> KeyOf(pairs, out[i]) in pos && pos[KeyOf(pairs, out[i])] <= i)
    && (forall i :: 0 <= i < |out| && out[i].mirror.Some? ==> pos[KeyOf(pairs, out[i])] == i)
  }

  function MirrorOf(x: Item): Mirror { Mirror(x.provider, x.id, x.slug, x.downloads) }

  /** What a card becomes when an item of another platform joins it; the one with more downloads leads. */
  function Joined(card: Item, x: Item): Item {
    if x.downloads > card.downloads then x.(downloads := x.downloads + card.downloads, mirror := Some(MirrorOf(card)))
    else card.(mirror := Some(MirrorOf(x)), downloads := card.downloads + x.downloads)
  }

  lemma JoinKeepsKey(pairs: map<string, string>, card: Item, x: Item)
    requires KeyOf(pairs, x) == KeyOf(pairs, card) && x.provider != card.provider
    ensures KeyOf(pairs, Joined(card, x)) == KeyOf(pairs, card) && Mirrored(Joined(card, x))
    ensures Joined(card, x).downloads == card.downloads + x.downloads
  {
  }

  lemma GenuineStays(pairs: map<string, string>, items: seq<Item>, x: Item)
    ensures forall y :: Genuine(pairs, items, y) ==> Genuine(pairs, items + [x], y)
    ensures x.mirror == None ==> Genuine(pairs, items + [x], x)
  {
    hide KeyOf;
    var more := items + [x];
    forall key, p, i, s | Listed(pairs, items, key, p, i, s) ensures Listed(pairs, more, key, p, i, s) {
      var k :| 0 <= k < |items| && KeyOf(pairs, items[k]) == key && items[k].provider == p && items[k].id == i && items[k].slug == s;
      assert more[k] == items[k];
    }
    assert more[|items|] == x;
  }

  lemma JoinGenuine(pairs: map<string, string>, items: seq<Item>, card: Item, x: Item)
    requires Genuine(pairs, items, card) && KeyOf(pairs, x) == KeyOf(pairs, card) && x.provider != card.provider
    ensures Genuine(pairs, items + [x], Joined(card, x))
  {
    GenuineStays(pairs, items, x);
    JoinKeepsKey(pairs, card, x);
    hide KeyOf;
    assert (items + [x])[|items|] == x;
  }

  lemma AppendKeeps(pairs: map<string, string>, items: seq<Item>, out: seq<Item>, x: Item)
    requires Conserves(pairs, items, out) && x.mirror == None
    ensures Conserves(pairs, items + [x], out + [x])
  {
    GenuineStays(pairs, items, x);
    hide KeyOf, Total, Sum, Genuine;
    forall key ensures Total(pairs, out + [x], key) == Total(pairs, items + [x], key) {
      TotalAppend(pairs, out, x, key);
      TotalAppend(pairs, items, x, key);
    }
    TotalAppend(pairs, out, x, "");
    TotalAppend(pairs, items, x, "");
  }

  lemma CardsJoined(pairs: map<string, string>, items: seq<Item>, out: seq<Item>, i: nat, x: Item)
    requires CardsGenuine(pairs, items, out) && i < |out| && KeyOf(pairs, x) == KeyOf(pairs, out[i]) && x.provider != out[i].provider
    ensures CardsGenuine(pairs, items + [x], out[i := Joined(out[i], x)])
  {
    hide KeyOf, Genuine, Joined, Mirrored;
    JoinKeepsKey(pairs, out[i], x);
    GenuineStays(pairs, items, x);
    JoinGenuine(pairs, items, out[i], x);
  }

  lemma TotalJoined(pairs: map<string, string>, items: seq<Item>, out: seq<Item>, i: nat, x: Item, key: string)
    requires Total(pairs, out, key) == Total(pairs, items, key) && i < |out| && KeyOf(pairs, x) == KeyOf(pairs, out[i])
    requires KeyOf(pairs, Joined(out[i], x)) == KeyOf(pairs, out[i]) && Joined(out[i], x).downloads == out[i].downloads + x.downloads
    ensures Total(pairs, out[i := Joined(out[i], x)], key) == Total(pairs, items + [x], key)
  {
    hide KeyOf, Total, Sum, Joined;
    TotalUpdate(pairs, out, i, Joined(out[i], x), key);
    TotalAppend(pairs, items, x, key);
  }

  lemma JoinKeeps(pairs: map<string, string>, items: seq<Item>, out: seq<Item>, i: nat, x: Item)
    requires Conserves(pairs, items, out) && i < |out| && KeyOf(pairs, x) == KeyOf(pairs, out[i]) && x.provider != out[i].provider
    ensures Conserves(pairs, items + [x], out[i := Joined(out[i], x)])
  {
    JoinKeepsKey(pairs, out[i], x);
    CardsJoined(pairs, items, out, i, x);
    hide KeyOf, Total, Sum, Joined, CardsGenuine;
    forall key ensures Total(pairs, out[i := Joined(out[i], x)], key) == Total(pairs, items + [x], key) {
      TotalJoined(pairs, items, out, i, x, key);
    }
    SumUpdate(out, i, Joined(out[i], x));
    TotalAppend(pairs, items, x, "");
  }

  /** Items a and b have the key and are of two platforms. */
  ghost predicate Twins(pairs: map<string, string>, items: seq<Item>, key: string, a: int, b: int) {
    && 0 <= a < |items| && 0 <= b < |items| && items[a].provider != items[b].provider
    && KeyOf(pairs, items[a]) == key && KeyOf(pairs, items[b]) == key
  }

  ghost predicate OnTwo(pairs: map<string, string>, items: seq<Item>, key: string) {
    exists a, b :: Twins(pairs, items, key, a, b)
  }

  ghost predicate HasMirror(pairs: map<string, string>, out: seq<Item>, key: string) {
    exists i :: 0 <= i < |out| && KeyOf(pairs, out[i]) == key && out[i].mirror.Some?
  }

  /** While the first card of its key has no mirror, the item is on the platform of that card. */
  ghost predicate Placed(pairs: map<string, string>, x: Item, out: seq<Item>, pos: map<string, nat>, providerAt: map<string, string>) {
    var k := KeyOf(pairs, x);
    k in pos && k in providerAt && pos[k] < |out| && (out[pos[k]].mirror.None? ==> x.provider == providerAt[k])
  }

  ghost predicate AllPlaced(pairs: map<string, string>, items: seq<Item>, out: seq<Item>, pos: map<string, nat>, providerAt: map<string, string>) {
    forall i :: 0 <= i < |items| ==> Placed(pairs, items[i], out, pos, providerAt)
  }

  lemma MirroredIff(pairs: map<string, string>, items: seq<Item>, out: seq<Item>, pos: map<string, nat>, providerAt: map<string, string>, key: string)
    requires Conserves(pairs, items, out) && Indexed(pairs, out, pos, providerAt) && AllPlaced(pairs, items, out, pos, providerAt)
    ensures HasMirror(pairs, out, key) <==> OnTwo(pairs, items, key)
  {
    hide KeyOf, Total, Sum;
    if a, b :| Twins(pairs, items, key, a, b) {
      assert Placed(pairs, items[a], out, pos, providerAt) && Placed(pairs, items[b], out, pos, providerAt);
      assert out[pos[key]].mirror.Some?;
    }
    if i :| 0 <= i < |out| && KeyOf(pairs, out[i]) == key && out[i].mirror.Some? {
      assert Mirrored(out[i]) && Genuine(pairs, items, out[i]);
      var m := out[i].mirror.value;
      var a :| 0 <= a < |items| && KeyOf(pairs, items[a]) == key && items[a].provider == out[i].provider;
      var b :| 0 <= b < |items| && KeyOf(pairs, items[b]) == key && items[b].provider == m.provider;
      assert Twins(pairs, items, key, a, b);
    }
  }

  lemma PlacedAppend(pairs: map<string, string>, items: seq<Item>, out: seq<Item>, pos: map<string, nat>, providerAt: map<string, string>, x: Item)
    requires Indexed(pairs, out, pos, providerAt) && AllPlaced(pairs, items, out, pos, providerAt)
    requires KeyOf(pairs, x) in pos ==> providerAt[KeyOf(pairs, x)] == x.provider
    ensures var k := KeyOf(pairs, x);
      if k in pos then AllPlaced(pairs, items + [x], out + [x], pos, providerAt)
      else AllPlaced(pairs, items + [x], out + [x], pos[k := |out|], providerAt[k := x.provider])
  {
    hide KeyOf;
  }

  lemma PlacedJoin(pairs: map<string, string>, items: seq<Item>, out: seq<Item>, pos: map<string, nat>, providerAt: map<string, string>, x: Item, card: Item)
    requires Indexed(pairs, out, pos, providerAt) && AllPlaced(pairs, items, out, pos, providerAt)
    requires KeyOf(pairs, x) in pos && KeyOf(pairs, card) == KeyOf(pairs, x) && card.mirror.Some?
    ensures var k := KeyOf(pairs, x); AllPlaced(pairs, items + [x], out[pos[k] := card], pos, providerAt[k := card.provider])
  {
    hide KeyOf;
    var k := KeyOf(pairs, x);
    forall i | 0 <= i < |items| + 1 ensures Placed(pairs, (items + [x])[i], out[pos[k] := card], pos, providerAt[k := card.provider]) {
      if i < |items| { assert Placed(pairs, items[i], out, pos, providerAt); }
    }
  }

  lemma IndexAppend(pairs: map<string, string>, out: seq<Item>, pos: map<string, nat>, providerAt: map<string, string>, x: Item)
    requires Indexed(pairs, out, pos, providerAt) && x.mirror == None
    ensures var k := KeyOf(pairs, x);
      if k in pos then Indexed(pairs, out + [x], pos, providerAt)
      else Indexed(pairs, out + [x], pos[k := |out|], providerAt[k := x.provider])
  {
    hide KeyOf;
  }

  lemma IndexJoin(pairs: map<string, string>, out: seq<Item>, pos: map<string, nat>, providerAt: map<string, string>, card: Item)
    requires Indexed(pairs, out, pos, providerAt) && KeyOf(pairs, card) in pos
    ensures var k := KeyOf(pairs, card); Indexed(pairs, out[pos[k] := card], pos, providerAt[k := card.provider])
  {
    hide KeyOf;
  }

  method PairSearchItems(items: seq<Item>, identities: seq<Identity>) returns (out: seq<Item>)
    requires forall i :: 0 <= i < |items| ==> items[i].mirror == None
    ensures Conserves(ByID(identities), items, out)
    ensures forall i, j :: 0 <= i < j < |out| && KeyOf(ByID(identities), out[i]) == KeyOf(ByID(identities), out[j]) ==> out[j].mirror == None
    ensures forall key :: HasMirror(ByID(identities), out, key) <==> OnTwo(ByID(identities), items, key)
  {
    hide KeyOf, Conserves, Joined, HasMirror, OnTwo;
    var pairs: map<string, string> := map[];
    for i := 0 to |identities|
      invariant pairs == ByID(identities[..i])
    {
      assert identities[..i + 1][..i] == identities[..i];
      var k := PairKey(identities[i]);
      pairs := pairs["modrinth:" + identities[i].modrinth := k];
      pairs := pairs["curseforge:" + identities[i].curseforge := k];
    }
    assert identities[..|identities|] == identities;
    out := MergeCards(items, pairs);
  }

  /** The list of cards, the place of the first card of each key, and its platform. */
  method MergeCards(items: seq<Item>, pairs: map<string, string>) returns (out: seq<Item>)
    requires forall i :: 0 <= i < |items| ==> items[i].mirror == None
    ensures Conserves(pairs, items, out)
    ensures forall i, j :: 0 <= i < j < |out| && KeyOf(pairs, out[i]) == KeyOf(pairs, out[j]) ==> out[j].mirror == None
    ensures forall key :: HasMirror(pairs, out, key) <==> OnTwo(pairs, items, key)
  {
    hide KeyOf, Conserves, AllPlaced, Joined, MirrorOf, HasMirror, OnTwo;
    out := [];
    var pos: map<string, nat> := map[];
    var providerAt: map<string, string> := map[];
    Nothing(pairs);
    for n := 0 to |items|
      invariant Conserves(pairs, items[..n], out) && Indexed(pairs, out, pos, providerAt)
      invariant AllPlaced(pairs, items[..n], out, pos, providerAt)
    {
      var x := items[n];
      assert items[..n + 1] == items[..n] + [x];
      var k := KeyOf(pairs, x);
      if k !in pos || providerAt[k] == x.provider {
        AppendKeeps(pairs, items[..n], out, x);
        IndexAppend(pairs, out, pos, providerAt, x);
        PlacedAppend(pairs, items[..n], out, pos, providerAt, x);
        if k !in pos {
          pos := pos[k := |out|];
          providerAt := providerAt[k := x.provider];
        }
        out := out + [x];
        continue;
      }
      var idx := pos[k];
      JoinKeeps(pairs, items[..n], out, idx, x);
      JoinKeepsKey(pairs, out[idx], x);
      JoinedCases(out[idx], x);
      IndexJoin(pairs, out, pos, providerAt, Joined(out[idx], x));
      PlacedJoin(pairs, items[..n], out, pos, providerAt, x, Joined(out[idx], x));
      if x.downloads > out[idx].downloads {
        providerAt := providerAt[k := x.provider];
        out := out[idx := x.(downloads := x.downloads + out[idx].downloads, mirror := Some(MirrorOf(out[idx])))];
      } else {
        assert providerAt[k := out[idx].provider] == providerAt;
        out := out[idx := out[idx].(mirror := Some(MirrorOf(x)), downloads := out[idx].downloads + x.downloads)];
      }
    }
    assert items[..|items|] == items;
    forall key ensures HasMirror(pairs, out, key) <==> OnTwo(pairs, items, key) {
      MirroredIff(pairs, items, out, pos, providerAt, key);
    }
  }

  lemma JoinedCases(card: Item, x: Item)
    ensures x.downloads > card.downloads ==> Joined(card, x) == x.(downloads := x.downloads + card.downloads, mirror := Some(MirrorOf(card)))
    ensures x.downloads <= card.downloads ==> Joined(card, x) == card.(mirror := Some(MirrorOf(x)), downloads := card.downloads + x.downloads)
  {
  }

  lemma Nothing(pairs: map<string, string>)
    ensures Conserves(pairs, [], []) && Indexed(pairs, [], map[], map[]) && AllPlaced(pairs, [], [], map[], map[])
  {
  }
}
