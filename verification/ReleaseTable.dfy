/** The table of releases: rows under a provider and an idempotency key, moved from status to status. */
module ReleaseTable {
  import opened Sequences
  import opened Blanks

  datatype Status = Pending | Publishing | Succeeded | Failed

  /** What a release is about; the same key must always come with the same target. */
  datatype Target = Target(pack: string, version: string, artifact: string)

  datatype Row = Row(id: string, provider: string, key: string, target: Target, status: Status, remoteID: string)

  datatype Finished = Done | Conflict | Clash

  // ----- the table -------------------------------------------------------------------------

  predicate HasID(rows: seq<Row>, id: string) {
    exists i :: 0 <= i < |rows| && rows[i].id == id
  }

  predicate HasKey(rows: seq<Row>, provider: string, key: string) {
    exists i :: 0 <= i < |rows| && rows[i].provider == provider && rows[i].key == key
  }

  predicate InStatus(rows: seq<Row>, id: string, s: Status) {
    exists i :: 0 <= i < |rows| && rows[i].id == id && rows[i].status == s
  }

  /** Another release of the provider already carries the remote id. */
  predicate RemoteTaken(rows: seq<Row>, id: string, remoteID: string) {
    remoteID != ""
    && (exists i, j ::
      0 <= i < |rows| && 0 <= j < |rows| && rows[i].id == id && rows[j].id != id
      && rows[j].provider == rows[i].provider && rows[j].remoteID == remoteID)
  }

  /** INSERT ... ON CONFLICT(provider, idempotency_key) DO NOTHING; an id in use is an error. */
  function Create(rows: seq<Row>, id: string, provider: string, key: string, target: Target): seq<Row> {
    if HasKey(rows, provider, key) || HasID(rows, id) then rows
    else rows + [Row(id, provider, key, target, Pending, "")]
  }

  function Reserved(id: string, r: Row): Row {
    if r.id == id && (r.status == Pending || r.status == Failed) then r.(status := Publishing) else r
  }

  predicate Reservable(rows: seq<Row>, id: string) { InStatus(rows, id, Pending) || InStatus(rows, id, Failed) }

  function Reserve(rows: seq<Row>, id: string): seq<Row> {
    Map((r: Row) => Reserved(id, r), rows)
  }

  function Ended(id: string, s: Status, remoteID: string, r: Row): Row {
    if r.id == id && r.status == Publishing then r.(status := s, remoteID := remoteID) else r
  }

  function Finish(rows: seq<Row>, id: string, s: Status, remoteID: string): (seq<Row>, Finished) {
    if !InStatus(rows, id, Publishing) then (rows, Conflict)
    else if RemoteTaken(rows, id, remoteID) then (rows, Clash)
    else (Map((r: Row) => Ended(id, s, remoteID, r), rows), Done)
  }

  class Repository {
    var rows: seq<Row>

    constructor ()
      ensures rows == []
    {
      rows := [];
    }

    method CreateRelease(id: string, provider: string, key: string, target: Target)
      modifies this
      ensures rows == Create(old(rows), id, provider, key, target)
    {
      for i := 0 to |rows|
        invariant rows == old(rows)
        invariant forall k :: 0 <= k < i ==> rows[k].id != id && !(rows[k].provider == provider && rows[k].key == key)
      {
        if rows[i].id == id || (rows[i].provider == provider && rows[i].key == key) { return; }
      }
      rows := rows + [Row(id, provider, key, target, Pending, "")];
    }

    /** UPDATE ... SET status='publishing' WHERE id=? AND status IN ('pending','failed'). */
    method SetReleasePublishing(id: string) returns (ok: bool)
      modifies this
      ensures rows == Reserve(old(rows), id)
      ensures ok <==> Reservable(old(rows), id)
    {
      var affected := 0;
      for i := 0 to |rows|
        invariant |rows| == |old(rows)|
        invariant forall k :: 0 <= k < i ==> rows[k] == Reserved(id, old(rows)[k])
        invariant forall k :: i <= k < |rows| ==> rows[k] == old(rows)[k]
        invariant affected > 0 <==> exists k ::
          0 <= k < i && old(rows)[k].id == id && (old(rows)[k].status == Pending || old(rows)[k].status == Failed)
      {
        if rows[i].id == id && (rows[i].status == Pending || rows[i].status == Failed) {
          rows := rows[i := rows[i].(status := Publishing)];
          affected := affected + 1;
        }
      }
      ok := affected > 0;
      assert rows == Reserve(old(rows), id);
    }

    /** UPDATE ... WHERE id=? AND status='publishing', under the unique index on remote ids. */
    method FinishRelease(id: string, s: Status, remoteID: string) returns (f: Finished)
      modifies this
      ensures (rows, f) == Finish(old(rows), id, s, remoteID)
    {
      if InStatus(rows, id, Publishing) && RemoteTaken(rows, id, remoteID) { return Clash; }
      hide RemoteTaken;
      var affected := 0;
      for i := 0 to |rows|
        invariant |rows| == |old(rows)|
        invariant forall k :: 0 <= k < i ==> rows[k] == Ended(id, s, remoteID, old(rows)[k])
        invariant forall k :: i <= k < |rows| ==> rows[k] == old(rows)[k]
        invariant affected > 0 <==> exists k :: 0 <= k < i && old(rows)[k].id == id && old(rows)[k].status == Publishing
      {
        if rows[i].id == id && rows[i].status == Publishing {
          rows := rows[i := rows[i].(status := s, remoteID := remoteID)];
          affected := affected + 1;
        }
      }
      f := if affected == 0 then Conflict else Done;
      if affected == 0 {
        assert rows == old(rows);
      } else {
        assert rows == Finish(old(rows), id, s, remoteID).0;
      }
    }
  }

  // ----- remote status ---------------------------------------------------------------------

  /** Lower case as far as the words below can tell: besides A to Z one letter, the dotted capital I
      (two bytes), has a lower case letter that occurs in them. */
  function Lower(s: string): string {
    if s == "" then ""
    else if |s| >= 2 && s[0] == '\U{C4}' && s[1] == '\U{B0}' then ['i'] + Lower(s[2..])
    else [if 'A' <= s[0] <= 'Z' then s[0] - 'A' + 'a' else s[0]] + Lower(s[1..])
  }

  function Normalize(remote: string): Status {
    match Lower(TrimSpace(remote))
    case "succeeded" => Succeeded
    case "success" => Succeeded
    case "published" => Succeeded
    case "complete" => Succeeded
    case "completed" => Succeeded
    case "failed" => Failed
    case "error" => Failed
    case "rejected" => Failed
    case _ => Publishing
  }

  const SUCCESSES := ["succeeded", "success", "published", "complete", "completed"]
  const FAILURES := ["failed", "error", "rejected"]

  /** The word w in any mixture of capital and small letters. */
  ghost predicate Spelled(text: string, w: string) {
    |text| == |w| && forall i :: 0 <= i < |w| ==> 'a' <= w[i] <= 'z' && (text[i] == w[i] || text[i] as int + 32 == w[i] as int)
  }

  lemma {:induction false} LowerSpelled(text: string, w: string)
    requires Spelled(text, w)
    ensures Lower(text) == w
  {
    if w != "" {
      LowerSpelled(text[1..], w[1..]);
      assert w == [w[0]] + w[1..];
    }
  }

  lemma NormalizeListed(remote: string)
    ensures Normalize(remote) == Succeeded <==> Lower(TrimSpace(remote)) in SUCCESSES
    ensures Normalize(remote) == Failed <==> Lower(TrimSpace(remote)) in FAILURES
    ensures Normalize(remote) != Pending
  {
    hide TrimSpace, Lower;
  }

  /** A listed word means what it says in any capitalisation and with any white space around it. */
  lemma WordIsRead(a: string, text: string, b: string, w: string)
    requires AllWhite(a) && AllWhite(b) && Spelled(text, w)
    ensures w in SUCCESSES ==> Normalize(a + text + b) == Succeeded
    ensures w in FAILURES ==> Normalize(a + text + b) == Failed
    ensures w != "" && w !in SUCCESSES && w !in FAILURES ==> Normalize(a + text + b) == Publishing
  {
    if w != "" {
      TrimAround(a, text, b);
      LowerSpelled(text, w);
      NormalizeListed(a + text + b);
    }
    hide Normalize;
  }
}
