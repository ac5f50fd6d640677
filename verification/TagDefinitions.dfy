/**
 * From the tag definitions of a catalog to the graph the search runs on: which entries of which
 * definitions count, what they make of the tag's status, and which ids they register.
 */
module TagDefinitions {
  import opened Options
  import opened TagResolution

  // ----- identifiers -----------------------------------------------------------------------

  predicate NamespaceChar(c: char) {
    'a' <= c <= 'z' || '0' <= c <= '9' || c == '_' || c == '.' || c == '-'
  }

  /** Namespace, colon, path: what the identifier pattern of the catalog accepts. */
  predicate ValidID(s: string) {
    exists i :: 0 < i < |s| - 1 && s[i] == ':'
      && (forall j :: 0 <= j < i ==> NamespaceChar(s[j]))
      && (forall j :: i < j < |s| ==> NamespaceChar(s[j]) || s[j] == '/')
  }

  /** The default namespace is filled in. */
  function ResourceID(s: string): string {
    if s != "" && ':' !in s then "minecraft:" + s else s
  }

  /** A raw entry: a string, a record with an optional flag, or neither. */
  datatype RawEntry = Text(value: string) | Record(id: string, required: Option<bool>) | Other

  function ParseEntry(raw: RawEntry, remove: bool): (r: Option<Edge>)
    ensures r.Some? ==> ValidID(r.value.id) && ResourceID(r.value.id) == r.value.id && r.value.remove == remove
  {
    match raw
    case Text(text) => EdgeTo(text, true, remove)
    case Record(id, required) => EdgeTo(id, required.None? || required.value, remove)
    case Other => None
  }

  /** A leading hash marks a reference to a tag. */
  function EdgeTo(text: string, required: bool, remove: bool): (r: Option<Edge>)
    ensures r.Some? ==> ValidID(r.value.id) && ResourceID(r.value.id) == r.value.id && r.value.remove == remove
  {
    var tag := text != "" && text[0] == '#';
    var id := ResourceID(if tag then text[1..] else text);
    if ValidID(id) then Some(Edge(id, tag, required, remove)) else None
  }

  /** raw spells the entry e: the id, bare or with the default namespace left out, after a hash when it
      names a tag; references and members are required unless a record says otherwise. */
  ghost predicate Spells(raw: RawEntry, e: Edge) {
    match raw
    case Text(text) => e.required && SpellsTarget(text, e)
    case Record(id, required) => e.required == (required != Some(false)) && SpellsTarget(id, e)
    case Other => false
  }

  ghost predicate SpellsTarget(text: string, e: Edge) {
    var mark := if e.tag then "#" else "";
    text == mark + e.id || (':' !in text && mark <= text && e.id == "minecraft:" + text[|mark|..])
  }

  /** Exactly the spellings of an entry are read as that entry. */
  lemma ParsedIff(raw: RawEntry, e: Edge)
    ensures ParseEntry(raw, e.remove) == Some(e) <==> ValidID(e.id) && Spells(raw, e)
  {
    match raw
    case Text(text) => TargetIff(text, true, e);
    case Record(id, required) => TargetIff(id, required.None? || required.value, e);
    case Other =>
  }

  lemma ValidIDShape(s: string)
    requires ValidID(s)
    ensures ':' in s && '#' !in s && s != "" && s != "minecraft:"
  {
  }

  lemma TargetSpelt(text: string, required: bool, e: Edge)
    requires EdgeTo(text, required, e.remove) == Some(e)
    ensures SpellsTarget(text, e)
  {
    hide ValidID;
    ValidIDShape(e.id);
    var mark := if e.tag then "#" else "";
    var rest := text[|mark|..];
    assert text == mark + rest && e.id == ResourceID(rest);
    assert ':' in text ==> ':' in rest;
  }

  lemma SpeltTarget(text: string, e: Edge)
    requires ValidID(e.id) && SpellsTarget(text, e)
    ensures EdgeTo(text, e.required, e.remove) == Some(e)
  {
    hide ValidID;
    ValidIDShape(e.id);
    var mark := if e.tag then "#" else "";
    var rest := text[|mark|..];
    assert text == mark + rest;
    assert e.id == rest || e.id == "minecraft:" + rest;
    assert forall i :: 0 <= i < |rest| ==> rest[i] == e.id[if e.id == rest then i else i + 10];
    assert e.id == ResourceID(rest);
    assert e.tag <==> text != "" && text[0] == '#';
  }

  lemma TargetIff(text: string, required: bool, e: Edge)
    ensures EdgeTo(text, required, e.remove) == Some(e) <==> ValidID(e.id) && required == e.required && SpellsTarget(text, e)
  {
    hide ValidID, SpellsTarget, ResourceID;
    if EdgeTo(text, required, e.remove) == Some(e) { TargetSpelt(text, required, e); }
    if ValidID(e.id) && SpellsTarget(text, e) { SpeltTarget(text, e); }
  }

  // ----- one tag ---------------------------------------------------------------------------

  datatype Definition =
    | Unreadable
    | Readable(values: seq<RawEntry>, removals: seq<RawEntry>, replace: bool, conditional: bool)

  /** A definition that takes part in the expansion. */
  predicate Live(d: Definition) {
    d.Readable? && !d.conditional
  }

  function ParsedEdges(raws: seq<RawEntry>, remove: bool): seq<Edge> {
    if raws == [] then []
    else
      var init := ParsedEdges(raws[..|raws| - 1], remove);
      var e := ParseEntry(raws[|raws| - 1], remove);
      if e.Some? then init + [e.value] else init
  }

  predicate HasBadEntry(raws: seq<RawEntry>) {
    raws != [] && (HasBadEntry(raws[..|raws| - 1]) || ParseEntry(raws[|raws| - 1], false).None?)
  }

  /** The ids that these entries, as additions, register. */
  function DirectIDs(raws: seq<RawEntry>): set<string> {
    if raws == [] then {}
    else
      var init := DirectIDs(raws[..|raws| - 1]);
      var e := ParseEntry(raws[|raws| - 1], false);
      if e.Some? && !e.value.tag then init + {e.value.id} else init
  }

  lemma {:induction false} ParsedProperties(raws: seq<RawEntry>, remove: bool)
    ensures forall e :: e in ParsedEdges(raws, remove) ==> e.remove == remove && ValidID(e.id)
    ensures forall e :: e in ParsedEdges(raws, false) && !e.tag ==> e.id in DirectIDs(raws)
  {
    if raws != [] { ParsedProperties(raws[..|raws| - 1], remove); }
  }

  /** The entries that count, in order: those of live definitions since the last live replacement. */
  function LiveEdges(defs: seq<Definition>): seq<Edge> {
    if defs == [] then []
    else
      var d := defs[|defs| - 1];
      var before := LiveEdges(defs[..|defs| - 1]);
      if !Live(d) then before
      else (if d.replace then [] else before) + ParsedEdges(d.values, false) + ParsedEdges(d.removals, true)
  }

  /** The ids that direct additions register in the catalog, whether or not they still count. */
  function Registered(defs: seq<Definition>): set<string> {
    if defs == [] then {}
    else
      var d := defs[|defs| - 1];
      Registered(defs[..|defs| - 1]) + if Live(d) then DirectIDs(d.values) else {}
  }

  predicate Spoiled(d: Definition) {
    d.Unreadable? || (Live(d) && (HasBadEntry(d.values) || HasBadEntry(d.removals)))
  }

  /** A live definition that replaces or removes, next to others whose order is not known. */
  predicate OrderSensitive(d: Definition) {
    Live(d) && (d.replace || d.removals != [])
  }

  /** No entry is spelled like raw. */
  ghost predicate Misspelt(raw: RawEntry) {
    forall e: Edge :: ValidID(e.id) ==> !Spells(raw, e)
  }

  /** The definition is no record, or is unconditional and holds an entry that is none. */
  ghost predicate Broken(d: Definition) {
    match d
    case Unreadable => true
    case Readable(values, removals, _, conditional) => !conditional && exists raw :: raw in values + removals && Misspelt(raw)
  }

  /** What the definition does depends on conditions, or on the order of several. */
  ghost predicate Unsettled(d: Definition, many: bool) {
    d.Readable? && (d.conditional || (many && (d.replace || d.removals != [])))
  }

  ghost predicate StatusMatches(status: Status, defs: seq<Definition>, n: nat, many: bool)
    requires n <= |defs|
  {
    status ==
      if exists i :: 0 <= i < n && Broken(defs[i]) then Invalid
      else if exists i :: 0 <= i < n && Unsettled(defs[i], many) then Partial
      else Resolved
  }

  lemma {:induction false} BadEntryIff(raws: seq<RawEntry>)
    ensures HasBadEntry(raws) <==> exists raw :: raw in raws && Misspelt(raw)
  {
    if raws != [] {
      var init, last := raws[..|raws| - 1], raws[|raws| - 1];
      BadEntryIff(init);
      MisspeltIff(last);
      assert raws == init + [last];
      hide Misspelt, ParseEntry;
    }
  }

  lemma MisspeltIff(raw: RawEntry)
    ensures Misspelt(raw) <==> ParseEntry(raw, false).None?
  {
    hide ValidID, Spells;
    if e: Edge :| ValidID(e.id) && Spells(raw, e) {
      SpeltSame(raw, e);
      ParsedIff(raw, e.(remove := false));
    }
    if ParseEntry(raw, false).Some? { ParsedIff(raw, ParseEntry(raw, false).value); }
  }

  lemma SpeltSame(raw: RawEntry, e: Edge)
    requires Spells(raw, e)
    ensures Spells(raw, e.(remove := false))
  {
  }

  lemma BrokenIff(d: Definition)
    ensures Spoiled(d) <==> Broken(d)
  {
    hide Misspelt, HasBadEntry;
    if d.Readable? {
      BadEntryIff(d.values);
      BadEntryIff(d.removals);
    }
  }

  /** A replacing definition makes every earlier one irrelevant. */
  lemma {:induction false} ReplaceForgets(before: seq<Definition>, d: Definition, after: seq<Definition>)
    requires d.Readable? && !d.conditional && d.replace
    ensures LiveEdges(before + [d] + after) == LiveEdges([d] + after)
  {
    if after == [] {
      assert (before + [d] + after)[..|before|] == before;
      assert before + [d] + after == before + [d] && [d] + after == [d];
    } else {
      var init := after[..|after| - 1];
      ReplaceForgets(before, d, init);
      assert (before + [d] + after)[..|before + [d] + after| - 1] == before + [d] + init;
      assert ([d] + after)[..|[d] + after| - 1] == [d] + init;
    }
  }

  /** A conditional or unreadable definition adds, removes, replaces and registers nothing. */
  lemma {:induction false} IdleDefinition(before: seq<Definition>, d: Definition, after: seq<Definition>)
    requires d.Unreadable? || d.conditional
    ensures LiveEdges(before + [d] + after) == LiveEdges(before + after)
    ensures Registered(before + [d] + after) == Registered(before + after)
  {
    hide ParsedEdges, DirectIDs;
    if after == [] {
      assert (before + [d] + after)[..|before|] == before;
      assert before + [d] + after == before + [d] && before + after == before;
    } else {
      var init := after[..|after| - 1];
      IdleDefinition(before, d, init);
      assert (before + [d] + after)[..|before + [d] + after| - 1] == before + [d] + init;
      assert (before + after)[..|before + after| - 1] == before + init;
    }
  }

  predicate Replaces(d: Definition) { d.Readable? && !d.conditional && d.replace }

  /** Definitions that replace nothing add their entries after the earlier ones. */
  lemma {:induction false} LiveJoin(before: seq<Definition>, after: seq<Definition>)
    requires forall d :: d in after ==> !Replaces(d)
    ensures LiveEdges(before + after) == LiveEdges(before) + LiveEdges(after)
  {
    hide ParsedEdges;
    if after == [] {
      assert before + after == before;
    } else {
      var init := after[..|after| - 1];
      assert (before + after)[..|before + after| - 1] == before + init;
      LiveJoin(before, init);
      assert !Replaces(after[|after| - 1]);
    }
  }

  /** One definition: what it adds, then what it removes, in the order of its lists. */
  lemma LiveOne(values: seq<RawEntry>, removals: seq<RawEntry>, replace: bool)
    ensures LiveEdges([Readable(values, removals, replace, false)]) == ParsedEdges(values, false) + ParsedEdges(removals, true)
  {
    hide ParsedEdges;
    var d := Readable(values, removals, replace, false);
    assert [d][..0] == [] && LiveEdges([]) == [];
  }

  lemma {:induction false} ParsedJoin(a: seq<RawEntry>, b: seq<RawEntry>, remove: bool)
    ensures ParsedEdges(a + b, remove) == ParsedEdges(a, remove) + ParsedEdges(b, remove)
  {
    hide ParseEntry;
    if b == [] {
      assert a + b == a;
    } else {
      assert (a + b)[..|a + b| - 1] == a + b[..|b| - 1];
      ParsedJoin(a, b[..|b| - 1], remove);
    }
  }

  lemma ParsedOne(raw: RawEntry, e: Edge)
    ensures ValidID(e.id) && Spells(raw, e) ==> ParsedEdges([raw], e.remove) == [e]
    ensures Misspelt(raw) ==> ParsedEdges([raw], e.remove) == []
  {
    ParsedIff(raw, e);
    MisspeltIff(raw);
    if ParseEntry(raw, e.remove).Some? {
      ParsedIff(raw, ParseEntry(raw, e.remove).value);
    }
    hide ParseEntry, Spells, ValidID;
    assert [raw][..0] == [] && ParsedEdges([], e.remove) == [];
  }

  /** raw spells the member id, required or not. */
  ghost predicate SpellsMember(raw: RawEntry, id: string) {
    ValidID(id) && exists required :: Spells(raw, Edge(id, false, required, false))
  }

  /** A definition that counts adds the member id directly. */
  ghost predicate AddsMember(d: Definition, raw: RawEntry, id: string) {
    d.Readable? && !d.conditional && raw in d.values && SpellsMember(raw, id)
  }

  lemma ParsedMember(raw: RawEntry, id: string)
    ensures SpellsMember(raw, id) <==>
      ParseEntry(raw, false).Some? && !ParseEntry(raw, false).value.tag && ParseEntry(raw, false).value.id == id
  {
    var e := ParseEntry(raw, false);
    if e.Some? && !e.value.tag && e.value.id == id {
      assert e.value == Edge(id, false, e.value.required, false);
      ParsedIff(raw, e.value);
    }
    hide ParseEntry, Spells, ValidID;
    if required :| ValidID(id) && Spells(raw, Edge(id, false, required, false)) {
      ParsedIff(raw, Edge(id, false, required, false));
    }
  }

  lemma {:induction false} DirectIff(raws: seq<RawEntry>, id: string)
    ensures id in DirectIDs(raws) <==> exists raw :: raw in raws && SpellsMember(raw, id)
  {
    hide ParseEntry, SpellsMember;
    if raws != [] {
      var init, last := raws[..|raws| - 1], raws[|raws| - 1];
      DirectIff(init, id);
      ParsedMember(last, id);
      assert raws == init + [last];
    }
  }

  /** The registered ids are those that some counting definition adds directly, replaced later or not. */
  lemma {:induction false} RegisteredIff(defs: seq<Definition>, id: string)
    ensures id in Registered(defs) <==> exists d, raw :: d in defs && AddsMember(d, raw, id)
  {
    if defs != [] {
      var init, last := defs[..|defs| - 1], defs[|defs| - 1];
      RegisteredIff(init, id);
      assert defs == init + [last];
      if last.Readable? { DirectIff(last.values, id); }
      hide SpellsMember, DirectIDs;
      if raw :| Live(last) && raw in last.values && SpellsMember(raw, id) { assert AddsMember(last, raw, id); }
    }
  }

  /** Every direct addition that counts names a registered id, so the catalog filters none of them. */
  lemma {:induction false} AdditionRegistered(defs: seq<Definition>, e: Edge)
    requires e in LiveEdges(defs) && !e.tag && !e.remove
    ensures e.id in Registered(defs)
  {
    var n := |defs| - 1;
    if e in LiveEdges(defs[..n]) {
      AdditionRegistered(defs[..n], e);
    } else {
      ParsedProperties(defs[n].values, false);
      ParsedProperties(defs[n].removals, true);
    }
  }

  // ----- the expansion, entry by entry -----------------------------------------------------

  /** A tag while its definitions are read. */
  datatype Draft = Draft(tag: Tag, edges: seq<Edge>, registered: set<string>) {
    function Diagnosed(d: Diagnostic): Draft {
      this.(tag := AddDiagnostic(tag, d))
    }

    function Invalidated(d: Diagnostic): Draft {
      this.(tag := AddDiagnostic(tag.(status := Invalid), d))
    }
  }

  function WithEntry(p: Draft, raw: RawEntry, remove: bool): Draft {
    var e := ParseEntry(raw, remove);
    if e.None? then p.Invalidated(InvalidMember)
    else p.(edges := p.edges + [e.value],
            registered := if !e.value.tag && !remove then p.registered + {e.value.id} else p.registered)
  }

  function WithEntries(p: Draft, raws: seq<RawEntry>, remove: bool): Draft {
    if raws == [] then p else WithEntry(WithEntries(p, raws[..|raws| - 1], remove), raws[|raws| - 1], remove)
  }

  function WithDefinition(p: Draft, d: Definition, many: bool): Draft {
    if d.Unreadable? then p.Invalidated(MalformedDefinition)
    else if d.conditional then p.Diagnosed(RuntimeConditions)
    else
      var p1 := if OrderSensitive(d) && many then p.Diagnosed(LoadOrderDependent) else p;
      WithEntries(WithEntries(if d.replace then p1.(edges := []) else p1, d.values, false), d.removals, true)
  }

  function WithDefinitions(p: Draft, defs: seq<Definition>, many: bool): Draft {
    if defs == [] then p
    else WithDefinition(WithDefinitions(p, defs[..|defs| - 1], many), defs[|defs| - 1], many)
  }

  /** A tag without definitions is missing; any other starts out resolved. */
  function Expanded(defs: seq<Definition>): Draft {
    WithDefinitions(Draft(Tag(if defs == [] then Missing else Resolved, [], []), [], {}), defs, |defs| > 1)
  }

  /** No diagnostic is on record against a resolved tag, and no tag has been caught on a cycle. */
  predicate Clean(t: Tag) {
    t.members == [] && (t.status == Resolved ==> t.diagnostics == []) && CycleOrTooDeep !in t.diagnostics
  }

  lemma {:induction false} EntriesEffect(p: Draft, raws: seq<RawEntry>, remove: bool)
    requires Clean(p.tag)
    ensures var q := WithEntries(p, raws, remove);
      && Clean(q.tag) && q.edges == p.edges + ParsedEdges(raws, remove)
      && q.registered == p.registered + (if remove then {} else DirectIDs(raws))
      && q.tag.status == if HasBadEntry(raws) then Invalid else p.tag.status
  {
    hide ValidID, ResourceID;
    if raws != [] { EntriesEffect(p, raws[..|raws| - 1], remove); }
  }

  lemma DefinitionEffect(p: Draft, d: Definition, many: bool)
    requires Clean(p.tag)
    ensures var q := WithDefinition(p, d, many);
      && Clean(q.tag)
      && q.edges == (if !Live(d) then p.edges
                     else (if d.replace then [] else p.edges) + ParsedEdges(d.values, false) + ParsedEdges(d.removals, true))
      && q.registered == p.registered + (if Live(d) then DirectIDs(d.values) else {})
      && q.tag.status == StatusAfter(p.tag.status, d, many)
  {
    if Live(d) {
      var p1 := if OrderSensitive(d) && many then p.Diagnosed(LoadOrderDependent) else p;
      var p2 := if d.replace then p1.(edges := []) else p1;
      EntriesEffect(p2, d.values, false);
      EntriesEffect(WithEntries(p2, d.values, false), d.removals, true);
    }
  }

  function StatusAfter(status: Status, d: Definition, many: bool): Status {
    if Spoiled(d) then Invalid
    else if status == Resolved && ((d.Readable? && d.conditional) || (many && OrderSensitive(d))) then Partial
    else status
  }

  lemma {:induction false} DefinitionsEffect(p: Draft, defs: seq<Definition>, many: bool, i: nat)
    requires i <= |defs| && p == Draft(Tag(Resolved, [], []), [], {})
    ensures var q := WithDefinitions(p, defs[..i], many);
      && Clean(q.tag) && q.edges == LiveEdges(defs[..i]) && q.registered == Registered(defs[..i])
      && StatusMatches(q.tag.status, defs, i, many)
  {
    hide WithDefinition, StatusAfter, ParsedEdges;
    if i > 0 {
      DefinitionsEffect(p, defs, many, i - 1);
      assert defs[..i][..i - 1] == defs[..i - 1];
      var q := WithDefinitions(p, defs[..i - 1], many);
      DefinitionEffect(q, defs[i - 1], many);
      assert defs[..i][i - 1] == defs[i - 1];
      StatusNext(q.tag.status, defs, i - 1, many);
    }
  }

  /**
   * What a tag's definitions come to: the entries that count, the ids registered, and the status:
   * invalid when any definition (even one replaced later) is spoiled, partial when some depend on
   * conditions or on an order that is not known.
   */
  lemma ExpandedMeaning(defs: seq<Definition>)
    ensures var q := Expanded(defs);
      && q.edges == LiveEdges(defs) && q.registered == Registered(defs) && q.tag.members == []
      && (if defs == [] then q.tag == Tag(Missing, [], []) else StatusMatches(q.tag.status, defs, |defs|, |defs| > 1))
      && (q.tag.status == Resolved ==> q.tag.diagnostics == []) && CycleOrTooDeep !in q.tag.diagnostics
  {
    if defs != [] {
      DefinitionsEffect(Draft(Tag(Resolved, [], []), [], {}), defs, |defs| > 1, |defs|);
      assert defs[..|defs|] == defs;
    }
  }

  lemma StatusNext(status: Status, defs: seq<Definition>, i: nat, many: bool)
    requires i < |defs| && StatusMatches(status, defs, i, many)
    ensures StatusMatches(StatusAfter(status, defs[i], many), defs, i + 1, many)
  {
    BrokenIff(defs[i]);
    assert OrderSensitive(defs[i]) <==> defs[i].Readable? && !defs[i].conditional && (defs[i].replace || defs[i].removals != []);
    hide Broken, Spoiled, OrderSensitive;
    assert (exists j :: 0 <= j < i + 1 && Broken(defs[j])) <==> (exists j :: 0 <= j < i && Broken(defs[j])) || Broken(defs[i]);
    assert (exists j :: 0 <= j < i + 1 && Unsettled(defs[j], many)) <==> (exists j :: 0 <= j < i && Unsettled(defs[j], many)) || Unsettled(defs[i], many);
  }

  /** What one definition puts on record against its tag. */
  ghost predicate Records(d: Definition, many: bool, x: Diagnostic) {
    match x
    case MalformedDefinition => d.Unreadable?
    case RuntimeConditions => d.Readable? && d.conditional
    case LoadOrderDependent => d.Readable? && !d.conditional && many && (d.replace || d.removals != [])
    case InvalidMember => d.Readable? && Broken(d)
    case _ => false
  }

  lemma {:induction false} EntriesRecord(p: Draft, raws: seq<RawEntry>, remove: bool, x: Diagnostic)
    ensures x in WithEntries(p, raws, remove).tag.diagnostics <==>
      x in p.tag.diagnostics || (x == InvalidMember && HasBadEntry(raws))
  {
    hide ValidID, ResourceID;
    if raws != [] { EntriesRecord(p, raws[..|raws| - 1], remove, x); }
  }

  lemma DefinitionRecords(p: Draft, d: Definition, many: bool, x: Diagnostic)
    ensures x in WithDefinition(p, d, many).tag.diagnostics <==> x in p.tag.diagnostics || Records(d, many, x)
  {
    BrokenIff(d);
    hide WithEntries, HasBadEntry, Broken;
    if d.Readable? && !d.conditional {
      var p1 := if OrderSensitive(d) && many then p.Diagnosed(LoadOrderDependent) else p;
      var p2 := if d.replace then p1.(edges := []) else p1;
      EntriesRecord(p2, d.values, false, x);
      EntriesRecord(WithEntries(p2, d.values, false), d.removals, true, x);
    }
  }

  lemma {:induction false} DefinitionsRecord(p: Draft, defs: seq<Definition>, many: bool, x: Diagnostic)
    ensures x in WithDefinitions(p, defs, many).tag.diagnostics <==>
      x in p.tag.diagnostics || exists d :: d in defs && Records(d, many, x)
  {
    hide WithDefinition, Records;
    if defs != [] {
      var init, last := defs[..|defs| - 1], defs[|defs| - 1];
      DefinitionsRecord(p, init, many, x);
      DefinitionRecords(WithDefinitions(p, init, many), last, many, x);
      assert defs == init + [last];
    }
  }

  /** The diagnostics of a tag before the search are those that some definition of it puts on record. */
  lemma ExpandedDiagnostics(defs: seq<Definition>, x: Diagnostic)
    ensures x in Expanded(defs).tag.diagnostics <==> exists d :: d in defs && Records(d, |defs| > 1, x)
  {
    hide WithDefinitions, Records;
    DefinitionsRecord(Draft(Tag(if defs == [] then Missing else Resolved, [], []), [], {}), defs, |defs| > 1, x);
  }

  // ----- the loops -------------------------------------------------------------------------

  class TagBuilder {
    var draft: Draft

    constructor ()
      ensures draft == Draft(Tag(Missing, [], []), [], {})
    {
      draft := Draft(Tag(Missing, [], []), [], {});
    }

    method AddEntries(raws: seq<RawEntry>, remove: bool)
      modifies this
      ensures draft == WithEntries(old(draft), raws, remove)
    {
      hide WithEntry;
      var i := 0;
      while i < |raws|
        invariant 0 <= i <= |raws| && draft == WithEntries(old(draft), raws[..i], remove)
      {
        assert raws[..i + 1][..i] == raws[..i];
        draft := WithEntry(draft, raws[i], remove);
        i := i + 1;
      }
      assert raws[..i] == raws;
    }

    method AddDefinition(d: Definition, many: bool)
      modifies this
      ensures draft == WithDefinition(old(draft), d, many)
    {
      if d.Unreadable? {
        draft := draft.Invalidated(MalformedDefinition);
        return;
      }
      if d.conditional {
        draft := draft.Diagnosed(RuntimeConditions);
        return;
      }
      if many && (d.replace || |d.removals| > 0) {
        draft := draft.Diagnosed(LoadOrderDependent);
      }
      if d.replace {
        draft := draft.(edges := []);
      }
      AddEntries(d.values, false);
      AddEntries(d.removals, true);
    }

    method Expand(defs: seq<Definition>)
      modifies this
      ensures draft == Expanded(defs)
    {
      hide WithDefinition;
      draft := Draft(Tag(if defs == [] then Missing else Resolved, [], []), [], {});
      ghost var start := draft;
      var i := 0;
      while i < |defs|
        invariant 0 <= i <= |defs| && draft == WithDefinitions(start, defs[..i], |defs| > 1)
      {
        assert defs[..i + 1][..i] == defs[..i];
        AddDefinition(defs[i], |defs| > 1);
        i := i + 1;
      }
      assert defs[..i] == defs;
    }
  }
}
