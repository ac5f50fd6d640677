/**
 * Append-only revisions with one applied at a time: what content documents and quest books have in
 * common. The newest draft is promoted, the one applied before it is archived.
 */
module RevisionLog {
  import opened Options
  import opened Sequences

  datatype State = Drafted | Applied | Archived

  datatype Revision<P> = Revision(id: string, number: nat, state: State, body: P)

  datatype Log<P> = Log(revisions: seq<Revision<P>>, active: Option<string>)

  datatype Promotion = Promoted | NotFound | Conflict

  predicate Has<P(!new)>(l: Log<P>, id: string) {
    exists i :: 0 <= i < |l.revisions| && l.revisions[i].id == id
  }

  predicate IsDraft<P(!new)>(l: Log<P>, id: string) {
    exists i :: 0 <= i < |l.revisions| && l.revisions[i].id == id && l.revisions[i].state == Drafted
  }

  function Append<P>(l: Log<P>, id: string, body: P): Log<P> {
    l.(revisions := l.revisions + [Revision(id, |l.revisions| + 1, Drafted, body)])
  }

  /** A row after its neighbour `id` has become the applied one. */
  function Demoted<P>(r: Revision<P>): Revision<P> {
    if r.state == Applied then r.(state := Archived) else r
  }

  function Raised<P>(id: string, r: Revision<P>): Revision<P> {
    if r.id == id then r.(state := Applied) else r
  }

  function Promote<P(!new)>(l: Log<P>, id: string): (Log<P>, Promotion) {
    if !Has(l, id) then (l, NotFound)
    else if !IsDraft(l, id) then (l, Conflict)
    else (Log(Map((r: Revision<P>) => Raised(id, Demoted(r)), l.revisions), Some(id)), Promoted)
  }

  // ----- what every log keeps --------------------------------------------------------------

  ghost predicate Numbered<P>(l: Log<P>) {
    && (forall i :: 0 <= i < |l.revisions| ==> l.revisions[i].number == i + 1)
    && (forall i, j :: 0 <= i < j < |l.revisions| ==> l.revisions[i].id != l.revisions[j].id)
  }

  /** The applied revision is the active one; there is none without the other. */
  ghost predicate OneActive<P(!new)>(l: Log<P>) {
    && (forall i :: 0 <= i < |l.revisions| && l.revisions[i].state == Applied ==> l.active == Some(l.revisions[i].id))
    && (l.active.Some? ==> exists i :: 0 <= i < |l.revisions| && l.revisions[i].id == l.active.value && l.revisions[i].state == Applied)
  }

  ghost predicate Sound<P(!new)>(l: Log<P>) { Numbered(l) && OneActive(l) }

  function Rank(s: State): nat {
    match s case Drafted => 0 case Applied => 1 case Archived => 2
  }

  /** Nothing written is lost or rewritten; a state only ever moves forward. */
  ghost predicate Grows<P>(l: Log<P>, m: Log<P>) {
    && |l.revisions| <= |m.revisions|
    && forall i :: 0 <= i < |l.revisions| ==>
      && m.revisions[i].id == l.revisions[i].id
      && m.revisions[i].number == l.revisions[i].number
      && m.revisions[i].body == l.revisions[i].body
      && Rank(l.revisions[i].state) <= Rank(m.revisions[i].state)
  }

  lemma AppendSound<P(!new)>(l: Log<P>, id: string, body: P)
    requires Sound(l) && !Has(l, id)
    ensures Sound(Append(l, id, body)) && Grows(l, Append(l, id, body))
  {
    var m := Append(l, id, body);
    if l.active.Some? {
      var i :| 0 <= i < |l.revisions| && l.revisions[i].id == l.active.value && l.revisions[i].state == Applied;
      assert m.revisions[i] == l.revisions[i];
    }
  }

  lemma PromotedAt<P(!new)>(l: Log<P>, id: string) returns (k: nat)
    requires Numbered(l) && Promote(l, id).1 == Promoted
    ensures k < |l.revisions| && l.revisions[k].id == id && l.revisions[k].state == Drafted
    ensures var m := Promote(l, id).0;
      && |m.revisions| == |l.revisions| && m.active == Some(id)
      && m.revisions[k] == l.revisions[k].(state := Applied)
      && forall i :: 0 <= i < |l.revisions| && i != k ==> m.revisions[i] == Demoted(l.revisions[i])
  {
    k :| 0 <= k < |l.revisions| && l.revisions[k].id == id && l.revisions[k].state == Drafted;
    forall i | 0 <= i < |l.revisions| && i != k ensures l.revisions[i].id != id { }
    hide Numbered;
  }

  lemma PromoteSound<P(!new)>(l: Log<P>, id: string)
    requires Sound(l)
    ensures var m := Promote(l, id).0; Sound(m) && Grows(l, m) && |m.revisions| == |l.revisions|
  {
    if Promote(l, id).1 == Promoted {
      var k := PromotedAt(l, id);
      hide Promote, OneActive;
      ReplacedSound(l, Promote(l, id).0, k);
    }
  }

  lemma ReplacedSound<P(!new)>(l: Log<P>, m: Log<P>, k: nat)
    requires Numbered(l) && k < |l.revisions| && l.revisions[k].state == Drafted
    requires |m.revisions| == |l.revisions| && m.active == Some(l.revisions[k].id)
    requires m.revisions[k] == l.revisions[k].(state := Applied)
    requires forall i :: 0 <= i < |l.revisions| && i != k ==> m.revisions[i] == Demoted(l.revisions[i])
    ensures Sound(m) && Grows(l, m)
  {
    forall i | 0 <= i < |l.revisions|
      ensures m.revisions[i].id == l.revisions[i].id && m.revisions[i].number == l.revisions[i].number
      ensures m.revisions[i].body == l.revisions[i].body && (m.revisions[i].state == Applied ==> i == k)
      ensures Rank(l.revisions[i].state) <= Rank(m.revisions[i].state)
    {
    }
    hide Demoted, Rank;
  }

  lemma GrowsTransitive<P>(a: Log<P>, b: Log<P>, c: Log<P>)
    requires Grows(a, b) && Grows(b, c)
    ensures Grows(a, c)
  {
  }

  /** In a sound log the promoted revision becomes the only applied one, and nothing else is touched but the one it replaces. */
  lemma PromoteChanges<P(!new)>(l: Log<P>, id: string, i: nat)
    requires Sound(l) && Promote(l, id).1 == Promoted && i < |l.revisions|
    ensures |Promote(l, id).0.revisions| == |l.revisions|
    ensures Promote(l, id).0.revisions[i].state ==
      if l.revisions[i].id == id then Applied
      else if l.active == Some(l.revisions[i].id) then Archived
      else l.revisions[i].state
  {
    if l.active == Some(l.revisions[i].id) {
      var k :| 0 <= k < |l.revisions| && l.revisions[k].id == l.active.value && l.revisions[k].state == Applied;
    }
  }

  // ----- newer revisions -------------------------------------------------------------------

  /** Some revision numbered above n is or was applied. */
  ghost predicate NewerUsed<P(!new)>(l: Log<P>, n: nat) {
    exists k :: n <= k < |l.revisions| && l.revisions[k].state != Drafted
  }

  /** The promotion of id succeeds, and id is numbered above n. */
  ghost predicate PromotesNewer<P(!new)>(l: Log<P>, id: string, n: nat) {
    Promote(l, id).1 == Promoted && exists k :: n <= k < |l.revisions| && l.revisions[k].id == id
  }

  lemma AppendNewer<P(!new)>(l: Log<P>, id: string, body: P, n: nat)
    ensures NewerUsed(Append(l, id, body), n) <==> NewerUsed(l, n)
  {
    var m := Append(l, id, body);
    if k :| n <= k < |l.revisions| && l.revisions[k].state != Drafted { assert m.revisions[k].state != Drafted; }
  }

  lemma PromoteNewer<P(!new)>(l: Log<P>, id: string, n: nat)
    requires Sound(l)
    ensures NewerUsed(Promote(l, id).0, n) <==> NewerUsed(l, n) || PromotesNewer(l, id, n)
  {
    if Promote(l, id).1 == Promoted {
      var m := Promote(l, id).0;
      var k := PromotedAt(l, id);
      hide Promote;
      if i :| n <= i < |l.revisions| && l.revisions[i].state != Drafted { assert m.revisions[i].state != Drafted; }
      if n <= k { assert m.revisions[k].state != Drafted; }
      if i :| n <= i < |m.revisions| && m.revisions[i].state != Drafted { assert i == k || l.revisions[i].state != Drafted; }
    }
  }

  /** Promoting revision n leaves a newer one archived exactly when one had been used. */
  lemma PromoteOverNewer<P(!new)>(l: Log<P>, id: string, n: nat)
    requires Sound(l) && Promote(l, id).1 == Promoted && 0 < n <= |l.revisions| && l.revisions[n - 1].id == id
    ensures var m := Promote(l, id).0;
      && |m.revisions| == |l.revisions| && m.revisions[n - 1].state == Applied
      && ((exists k :: n <= k < |m.revisions| && m.revisions[k].state == Archived) <==> NewerUsed(l, n))
  {
    var m := Promote(l, id).0;
    var k := PromotedAt(l, id);
    hide Promote;
    assert k == n - 1;
    if i :| n <= i < |l.revisions| && l.revisions[i].state != Drafted { assert m.revisions[i].state == Archived; }
  }

  // ----- the statements --------------------------------------------------------------------

  /** UPDATE ... SET state='archived' WHERE state='applied'. */
  method ArchiveApplied<P>(rows: seq<Revision<P>>) returns (r: seq<Revision<P>>)
    ensures r == Map(Demoted, rows)
  {
    r := rows;
    for i := 0 to |rows|
      invariant |r| == |rows|
      invariant forall k :: 0 <= k < i ==> r[k] == Demoted(rows[k])
      invariant forall k :: i <= k < |rows| ==> r[k] == rows[k]
    {
      if r[i].state == Applied {
        r := r[i := r[i].(state := Archived)];
      }
    }
  }

  /** UPDATE ... SET state='applied' WHERE id=?. */
  method MarkApplied<P>(rows: seq<Revision<P>>, id: string) returns (r: seq<Revision<P>>)
    ensures r == Map((x: Revision<P>) => Raised(id, x), rows)
  {
    r := rows;
    for i := 0 to |rows|
      invariant |r| == |rows|
      invariant forall k :: 0 <= k < i ==> r[k] == Raised(id, rows[k])
      invariant forall k :: i <= k < |rows| ==> r[k] == rows[k]
    {
      if r[i].id == id {
        r := r[i := r[i].(state := Applied)];
      }
    }
  }

  /** The state of a revision, if it exists. */
  method StateOf<P(!new)>(l: Log<P>, id: string) returns (s: Option<State>)
    requires Numbered(l)
    ensures s.Some? <==> Has(l, id)
    ensures s == Some(Drafted) <==> IsDraft(l, id)
  {
    s := None;
    for i := 0 to |l.revisions|
      invariant s == None ==> forall k :: 0 <= k < i ==> l.revisions[k].id != id
      invariant s.Some? ==> exists k :: 0 <= k < i && l.revisions[k].id == id && l.revisions[k].state == s.value
    {
      if l.revisions[i].id == id { s := Some(l.revisions[i].state); }
    }
  }

  /** One transaction: archive the applied revision, apply the draft, set the active id. */
  method PromoteDraft<P(!new)>(l: Log<P>, id: string) returns (m: Log<P>, o: Promotion)
    requires Sound(l)
    ensures (m, o) == Promote(l, id)
  {
    var state := StateOf(l, id);
    if state == None { return l, NotFound; }
    if state != Some(Drafted) { return l, Conflict; }
    var rows := ArchiveApplied(l.revisions);
    rows := MarkApplied(rows, id);
    m, o := Log(rows, Some(id)), Promoted;
    assert m.revisions == Promote(l, id).0.revisions;
  }
}
