/**
 * The content documents of one pack: each has a log of revisions. Drafts are saved against an expected
 * revision, the latest is applied after validation, and an old payload can be brought back as a draft.
 */
module ContentLog {
  import opened Options
  import opened RevisionLog

  /** What a revision holds; source is the revision a rollback copied. */
  datatype Entry = Entry(payload: string, source: Option<string>)

  datatype Document = Document(kind: string, slug: string, log: Log<Entry>)

  type Store = map<string, Document>

  datatype Outcome = Saved(number: nat) | Unchanged(number: nat) | Stale | Absent | Duplicate | Rejected

  predicate Taken(s: Store, id: string) {
    exists doc :: doc in s && Has(s[doc].log, id)
  }

  function Latest(d: Document): Revision<Entry>
    requires d.log.revisions != []
  {
    d.log.revisions[|d.log.revisions| - 1]
  }

  function AppendTo(s: Store, doc: string, id: string, e: Entry): Store
    requires doc in s
  {
    s[doc := s[doc].(log := Append(s[doc].log, id, e))]
  }

  function Create(s: Store, doc: string, kind: string, slug: string, id: string, payload: string): (Store, Outcome) {
    if doc in s || exists x :: x in s && s[x].kind == kind && s[x].slug == slug then (s, Duplicate)
    else if Taken(s, id) then (s, Rejected)
    else (s[doc := Document(kind, slug, Append(Log([], None), id, Entry(payload, None)))], Saved(1))
  }

  function Save(s: Store, doc: string, expected: int, id: string, payload: string): (Store, Outcome) {
    if doc !in s || s[doc].log.revisions == [] then (s, Absent)
    else if Latest(s[doc]).number != expected then (s, Stale)
    else if Latest(s[doc]).body.payload == payload then (s, Unchanged(Latest(s[doc]).number))
    else if Taken(s, id) then (s, Rejected)
    else (AppendTo(s, doc, id, Entry(payload, None)), Saved(Latest(s[doc]).number + 1))
  }

  function Rollback(s: Store, doc: string, target: string, id: string): (Store, Outcome) {
    if doc !in s || !Has(s[doc].log, target) then (s, Absent)
    else if Taken(s, id) then (s, Rejected)
    else
      var k := IndexOf(s[doc].log, target);
      (AppendTo(s, doc, id, Entry(s[doc].log.revisions[k].body.payload, Some(target))), Saved(|s[doc].log.revisions| + 1))
  }

  /** The first revision with an id; in a sound log there is no other. */
  function IndexOf<P>(l: Log<P>, id: string): (k: nat)
    requires exists i :: 0 <= i < |l.revisions| && l.revisions[i].id == id
    ensures k < |l.revisions| && l.revisions[k].id == id
    decreases |l.revisions|
  {
    var n := |l.revisions| - 1;
    if exists i :: 0 <= i < n && l.revisions[i].id == id then
      assert exists i :: 0 <= i < n && l.revisions[..n][i].id == id by {
        var i :| 0 <= i < n && l.revisions[i].id == id;
        assert l.revisions[..n][i].id == id;
      }
      IndexOf(l.(revisions := l.revisions[..n]), id)
    else n
  }

  function Apply(s: Store, doc: string, id: string): (Store, Promotion) {
    if doc !in s then (s, NotFound)
    else
      var (l, o) := Promote(s[doc].log, id);
      (s[doc := s[doc].(log := l)], o)
  }

  // ----- what every document keeps ---------------------------------------------------------

  ghost predicate AllSound(s: Store) {
    && (forall doc :: doc in s ==> Sound(s[doc].log) && s[doc].log.revisions != [])
    && (forall a, b, id :: a in s && b in s && Has(s[a].log, id) && Has(s[b].log, id) ==> a == b)
  }

  /** No document is lost and no log is rewritten. */
  ghost predicate AllGrow(s: Store, t: Store) {
    forall doc :: doc in s ==> doc in t && t[doc].kind == s[doc].kind && t[doc].slug == s[doc].slug && Grows(s[doc].log, t[doc].log)
  }

  lemma SameGrows(s: Store)
    ensures AllGrow(s, s)
  {
  }

  lemma AppendHas<P(!new)>(l: Log<P>, id: string, body: P)
    ensures forall x :: Has(Append(l, id, body), x) <==> Has(l, x) || x == id
  {
    var m := Append(l, id, body);
    forall x | Has(l, x) ensures Has(m, x) {
      var i :| 0 <= i < |l.revisions| && l.revisions[i].id == x;
      assert m.revisions[i].id == x;
    }
    assert m.revisions[|l.revisions|].id == id;
  }

  lemma AppendToSound(s: Store, doc: string, id: string, e: Entry)
    requires AllSound(s) && doc in s && !Taken(s, id)
    ensures AllSound(AppendTo(s, doc, id, e)) && AllGrow(s, AppendTo(s, doc, id, e))
  {
    AppendSound(s[doc].log, id, e);
    AppendHas(s[doc].log, id, e);
    hide Has, Sound, Append;
  }

  lemma CreateSound(s: Store, doc: string, kind: string, slug: string, id: string, payload: string)
    requires AllSound(s)
    ensures var t := Create(s, doc, kind, slug, id, payload).0; AllSound(t) && AllGrow(s, t)
  {
    var none: Log<Entry> := Log([], None);
    assert !Has(none, id) && Sound(none);
    AppendSound(none, id, Entry(payload, None));
    AppendHas(none, id, Entry(payload, None));
    SameGrows(s);
    hide Has, Sound, Grows;
  }

  lemma ApplySound(s: Store, doc: string, id: string)
    requires AllSound(s)
    ensures var t := Apply(s, doc, id).0; AllSound(t) && AllGrow(s, t) && s.Keys == t.Keys
  {
    hide Promote, Has, Sound, Grows;
    SameGrows(s);
    if doc in s {
      var m := Promote(s[doc].log, id).0;
      PromoteSound(s[doc].log, id);
      SameIds(s[doc].log, m);
      ReplaceLog(s, doc, m);
    }
  }

  lemma ReplaceLog(s: Store, doc: string, m: Log<Entry>)
    requires AllSound(s) && doc in s && Sound(m) && Grows(s[doc].log, m) && m.revisions != []
    requires forall x :: Has(m, x) <==> Has(s[doc].log, x)
    ensures AllSound(s[doc := s[doc].(log := m)]) && AllGrow(s, s[doc := s[doc].(log := m)])
  {
    SameGrows(s);
    hide Has, Sound, Grows;
  }

  lemma SameIds<P(!new)>(l: Log<P>, m: Log<P>)
    requires Grows(l, m) && |m.revisions| == |l.revisions|
    ensures forall x :: Has(l, x) <==> Has(m, x)
  {
    forall x | Has(l, x) ensures Has(m, x) {
      var i :| 0 <= i < |l.revisions| && l.revisions[i].id == x;
      assert m.revisions[i].id == x;
    }
  }

  // ----- saving and rolling back -----------------------------------------------------------

  /** Saving the same payload again appends nothing; repeating the first call is stale. */
  lemma SaveTwice(s: Store, doc: string, expected: int, id: string, payload: string, other: string)
    requires AllSound(s) && Save(s, doc, expected, id, payload).1.Saved?
    ensures var t := Save(s, doc, expected, id, payload).0;
      && Save(t, doc, expected + 1, other, payload) == (t, Unchanged(expected + 1))
      && Save(t, doc, expected, other, payload) == (t, Stale)
  {
    assert s[doc].log.revisions[|s[doc].log.revisions| - 1].number == |s[doc].log.revisions|;
  }

  /** The log of doc has one more revision, and nothing else has changed. */
  ghost predicate GainsLatest(s: Store, t: Store, doc: string, r: Revision<Entry>) {
    && t.Keys == s.Keys + {doc} && doc in t && t[doc].log.revisions != [] && Latest(t[doc]) == r
    && (forall other :: other in s && other != doc ==> t[other] == s[other])
    && t[doc].log.revisions[..|t[doc].log.revisions| - 1] == (if doc in s then s[doc].log.revisions else [])
    && t[doc].log.active == (if doc in s then s[doc].log.active else None)
    && (doc in s ==> t[doc].kind == s[doc].kind && t[doc].slug == s[doc].slug)
  }

  ghost predicate NewID(s: Store, id: string) {
    forall doc, i :: doc in s && 0 <= i < |s[doc].log.revisions| ==> s[doc].log.revisions[i].id != id
  }

  lemma NewIff(s: Store, id: string)
    ensures NewID(s, id) <==> !Taken(s, id)
  {
    if !NewID(s, id) {
      var doc, i :| doc in s && 0 <= i < |s[doc].log.revisions| && s[doc].log.revisions[i].id == id;
      assert Has(s[doc].log, id);
    }
  }

  /** A save succeeds exactly when it expects the latest revision and brings another payload and a new id;
      the payload is then the latest draft. It is stale exactly when it expects another revision. */
  lemma SavedIff(s: Store, doc: string, expected: int, id: string, payload: string)
    requires AllSound(s)
    ensures var (t, o) := Save(s, doc, expected, id, payload);
      && (o == Absent <==> doc !in s)
      && (o == Stale <==> doc in s && expected != |s[doc].log.revisions|)
      && (o.Unchanged? <==> doc in s && expected == |s[doc].log.revisions| && Latest(s[doc]).body.payload == payload)
      && (o.Saved? <==> doc in s && expected == |s[doc].log.revisions| && Latest(s[doc]).body.payload != payload && NewID(s, id))
      && (o.Saved? ==> o.number == expected + 1 && GainsLatest(s, t, doc, Revision(id, expected + 1, Drafted, Entry(payload, None))))
      && (!o.Saved? ==> t == s)
  {
    NewIff(s, id);
    hide Taken, NewID;
    if doc in s { assert Numbered(s[doc].log); }
  }

  /** A document is created exactly when it is new, no other has its kind and slug, and the revision id is new;
      its first revision is then its latest draft. */
  lemma CreatedIff(s: Store, doc: string, kind: string, slug: string, id: string, payload: string)
    ensures var (t, o) := Create(s, doc, kind, slug, id, payload);
      && (o == Duplicate <==> doc in s || exists x :: x in s && s[x].kind == kind && s[x].slug == slug)
      && (o == Saved(1) <==> doc !in s && (forall x :: x in s ==> s[x].kind != kind || s[x].slug != slug) && NewID(s, id))
      && (o == Saved(1) ==> GainsLatest(s, t, doc, Revision(id, 1, Drafted, Entry(payload, None))) && t[doc].kind == kind && t[doc].slug == slug)
      && (o != Saved(1) ==> t == s)
  {
    NewIff(s, id);
    hide Taken, NewID;
    var (t, o) := Create(s, doc, kind, slug, id, payload);
    if o == Saved(1) {
      var l := Append(Log([], None), id, Entry(payload, None));
      assert l == Log([Revision(id, 1, Drafted, Entry(payload, None))], None) && t == s[doc := Document(kind, slug, l)];
      hide Create, Append;
      assert l.revisions[..0] == [];
    }
  }

  /** A rollback succeeds exactly when its target is a revision of the document and the new id is new. */
  lemma RolledBackIff(s: Store, doc: string, target: string, id: string)
    ensures var (t, o) := Rollback(s, doc, target, id);
      && (o == Absent <==> doc !in s || forall k :: 0 <= k < |s[doc].log.revisions| ==> s[doc].log.revisions[k].id != target)
      && (o.Saved? <==> doc in s && NewID(s, id) && exists k :: 0 <= k < |s[doc].log.revisions| && s[doc].log.revisions[k].id == target)
      && (o.Saved? ==> o.number == |s[doc].log.revisions| + 1)
      && (!o.Saved? ==> t == s)
  {
    NewIff(s, id);
    hide Taken, NewID;
  }

  /** Applying succeeds exactly for a draft of the document, and touches no other document. */
  lemma AppliedIff(s: Store, doc: string, id: string)
    ensures var (t, o) := Apply(s, doc, id);
      && (o == NotFound <==> doc !in s || !Has(s[doc].log, id))
      && (o == Promoted <==> doc in s && IsDraft(s[doc].log, id))
      && (o != Promoted ==> t == s)
      && (o == Promoted ==> t.Keys == s.Keys && t[doc].log.active == Some(id) && t[doc].(log := s[doc].log) == s[doc])
      && (forall other :: other in s && other != doc ==> t[other] == s[other])
  {
    if doc in s { assert s[doc := s[doc].(log := s[doc].log)] == s; }
  }

  /** The revision applied becomes the applied one, the one before it archived, and the rest stays. */
  lemma AppliedRevision(s: Store, doc: string, id: string, i: nat)
    requires AllSound(s) && Apply(s, doc, id).1 == Promoted && i < |s[doc].log.revisions|
    ensures var l, m := s[doc].log, Apply(s, doc, id).0[doc].log;
      && |m.revisions| == |l.revisions|
      && m.revisions[i] == l.revisions[i].(state :=
           if l.revisions[i].id == id then Applied
           else if l.active == Some(l.revisions[i].id) then Archived
           else l.revisions[i].state)
  {
    SoundPart(s, doc);
    PromotedRow(s[doc].log, id, i);
    hide AllSound, Promote, Sound;
  }

  lemma PromotedRow(l: Log<Entry>, id: string, i: nat)
    requires Sound(l) && Promote(l, id).1 == Promoted && i < |l.revisions|
    ensures var m := Promote(l, id).0; |m.revisions| == |l.revisions| && m.revisions[i] == l.revisions[i].(state := m.revisions[i].state)
    ensures Promote(l, id).0.revisions[i].state ==
      if l.revisions[i].id == id then Applied else if l.active == Some(l.revisions[i].id) then Archived else l.revisions[i].state
  {
    PromoteChanges(l, id, i);
    var k := PromotedAt(l, id);
    hide Promote, Sound;
  }

  lemma SoundPart(s: Store, doc: string)
    requires AllSound(s) && doc in s
    ensures Sound(s[doc].log)
  {
  }

  /** A rollback brings the payload of the target back as the latest draft and names where it came from. */
  lemma RollbackRestores(s: Store, doc: string, target: string, id: string, k: nat)
    requires AllSound(s) && Rollback(s, doc, target, id).1.Saved?
    requires k < |s[doc].log.revisions| && s[doc].log.revisions[k].id == target
    ensures var t := Rollback(s, doc, target, id).0;
      && doc in t && |t[doc].log.revisions| == |s[doc].log.revisions| + 1
      && Latest(t[doc]) == Revision(id, |s[doc].log.revisions| + 1, Drafted, Entry(s[doc].log.revisions[k].body.payload, Some(target)))
      && t[doc].log.active == s[doc].log.active
      && forall other :: other in s && other != doc ==> t[other] == s[other]
  {
    assert Numbered(s[doc].log);
  }

  // ----- the repository --------------------------------------------------------------------

  class Repository {
    var documents: Store

    constructor ()
      ensures documents == map[]
    {
      documents := map[];
    }

    /** ORDER BY revision DESC LIMIT 1. */
    method LatestRow(rows: seq<Revision<Entry>>) returns (r: Revision<Entry>)
      requires rows != [] && forall i :: 0 <= i < |rows| ==> rows[i].number == i + 1
      ensures r == rows[|rows| - 1]
    {
      r := rows[0];
      for i := 1 to |rows|
        invariant r == rows[i - 1]
      {
        if rows[i].number > r.number { r := rows[i]; }
      }
    }

    method CreateContentDocument(doc: string, kind: string, slug: string, id: string, payload: string) returns (o: Outcome)
      modifies this
      ensures (documents, o) == Create(old(documents), doc, kind, slug, id, payload)
    {
      if doc in documents || exists x :: x in documents && documents[x].kind == kind && documents[x].slug == slug {
        return Duplicate;
      }
      if Taken(documents, id) { return Rejected; }
      var row := Revision(id, 1, Drafted, Entry(payload, None));
      assert [] + [row] == [row];
      documents := documents[doc := Document(kind, slug, Log([row], None))];
      o := Saved(1);
    }

    method SaveContentDraft(doc: string, expected: int, id: string, payload: string) returns (o: Outcome)
      requires AllSound(documents)
      modifies this
      ensures (documents, o) == Save(old(documents), doc, expected, id, payload)
    {
      hide Taken, Has;
      if doc !in documents { return Absent; }
      var d := documents[doc];
      var latest := LatestRow(d.log.revisions);
      if latest.number != expected { return Stale; }
      if latest.body.payload == payload { return Unchanged(latest.number); }
      if Taken(documents, id) { return Rejected; }
      var row := Revision(id, latest.number + 1, Drafted, Entry(payload, None));
      documents := documents[doc := d.(log := d.log.(revisions := d.log.revisions + [row]))];
      o := Saved(row.number);
    }

    method ApplyContent(doc: string, id: string) returns (o: Promotion)
      requires AllSound(documents)
      modifies this
      ensures (documents, o) == Apply(old(documents), doc, id)
    {
      if doc !in documents { return NotFound; }
      var d := documents[doc];
      var l;
      l, o := PromoteDraft(d.log, id);
      documents := documents[doc := d.(log := l)];
    }

    method RollbackContent(doc: string, target: string, id: string) returns (o: Outcome)
      requires AllSound(documents)
      modifies this
      ensures (documents, o) == Rollback(old(documents), doc, target, id)
    {
      hide Taken;
      if doc !in documents { return Absent; }
      var d := documents[doc];
      var found, payload := false, "";
      for i := 0 to |d.log.revisions|
        invariant !found ==> forall k :: 0 <= k < i ==> d.log.revisions[k].id != target
        invariant found ==> exists k :: 0 <= k < i && d.log.revisions[k].id == target && d.log.revisions[k].body.payload == payload
      {
        if d.log.revisions[i].id == target { found, payload := true, d.log.revisions[i].body.payload; }
      }
      if !found { return Absent; }
      assert payload == d.log.revisions[IndexOf(d.log, target)].body.payload;
      if Taken(documents, id) { return Rejected; }
      var latest := LatestRow(d.log.revisions);
      var row := Revision(id, latest.number + 1, Drafted, Entry(payload, Some(target)));
      documents := documents[doc := d.(log := d.log.(revisions := d.log.revisions + [row]))];
      o := Saved(row.number);
    }
  }
}
