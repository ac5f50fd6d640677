/** Reading rows page by page, each page starting after the last id of the one before. */
module Paging {
  import opened Ordering
  import opened Sequences

  datatype Row = Row(id: string, pack: string, mod: string, kind: string, payload: string)

  /** What a query asks for; an empty kind means any. */
  datatype Query = Query(pack: string, mod: string, kind: string)

  predicate Matches(q: Query, r: Row) {
    r.pack == q.pack && r.mod == q.mod && (q.kind == "" || r.kind == q.kind)
  }

  predicate ById(a: Row, b: Row) { Less(a.id, b.id) }

  /** Primary keys: distinct, and never empty. */
  ghost predicate Table(rows: seq<Row>) {
    && (forall i, j :: 0 <= i < j < |rows| ==> rows[i].id != rows[j].id)
    && (forall i :: 0 <= i < |rows| ==> rows[i].id != "")
  }

  predicate After(cursor: string, r: Row) { cursor == "" || Less(cursor, r.id) }

  /** The rows a query asks for, and those of them after a cursor. */
  function Selected(rows: seq<Row>, q: Query): seq<Row> { Filter((r: Row) => Matches(q, r), rows) }

  function Following(rows: seq<Row>, q: Query, cursor: string): seq<Row> {
    Filter((r: Row) => Matches(q, r) && After(cursor, r), rows)
  }

  lemma {:induction false} FilterTable(keep: Row -> bool, rows: seq<Row>)
    requires Table(rows)
    ensures Table(Filter(keep, rows))
  {
    if rows != [] {
      var n := |rows| - 1;
      var r := rows[n];
      TableFront(rows);
      FilterTable(keep, rows[..n]);
      assert Filter(keep, rows) == if keep(r) then Filter(keep, rows[..n]) + [r] else Filter(keep, rows[..n]);
      assert forall x :: x in Filter(keep, rows[..n]) ==> x in rows[..n];
      hide Filter, Table;
      TableGrows(Filter(keep, rows[..n]), r);
    }
  }

  lemma TableFront(rows: seq<Row>)
    requires Table(rows) && rows != []
    ensures var n := |rows| - 1; Table(rows[..n]) && rows[n].id != "" && forall r :: r in rows[..n] ==> r.id != rows[n].id
  {
  }

  lemma TableGrows(rows: seq<Row>, r: Row)
    requires Table(rows) && r.id != "" && forall x :: x in rows ==> x.id != r.id
    ensures Table(rows + [r])
  {
    forall i | 0 <= i < |rows| ensures rows[i].id != r.id { assert rows[i] in rows; }
  }

  lemma IdsTotal(rows: seq<Row>)
    requires Table(rows)
    ensures Transitive(ById) && TotalOn(ById, rows)
  {
    hide Less;
    forall a, b, c | Less(a, b) && Less(b, c) ensures Less(a, c) { LessTransitive(a, b, c); }
    forall a, b | a != b ensures Less(a, b) || Less(b, a) { LessTotal(a, b); }
  }

  lemma ByIdStrict(q: seq<Row>)
    ensures AsymmetricOn(ById, q)
  {
    hide Less;
    forall a, b | Less(a, b) ensures !Less(b, a) {
      if Less(b, a) { LessTransitive(a, b, a); LessIrreflexive(a); }
    }
  }

  /** One page: at most limit rows, and where to go on if there are more. */
  method ListModContent(rows: seq<Row>, q: Query, limit: nat, cursor: string, ghost all: seq<Row>)
    returns (page: seq<Row>, next: string, total: nat)
    requires Table(rows) && limit >= 1 && Ordered(ById, Following(rows, q, cursor), all)
    ensures total == |Selected(rows, q)|
    ensures |page| <= limit && page <= all
    ensures if |all| > limit then |page| == limit && next == all[limit - 1].id else page == all && next == ""
  {
    hide Table, Less;
    total := |Selected(rows, q)|;
    var found := Following(rows, q, cursor);
    FilterTable((r: Row) => Matches(q, r) && After(cursor, r), rows);
    IdsTotal(found);
    var sorted := Sort(ById, found);
    ByIdStrict(sorted);
    SortedUnique(ById, sorted, all);
    page := if |sorted| > limit + 1 then sorted[..limit + 1] else sorted;
    next := "";
    if |page| > limit {
      next := page[limit - 1].id;
      page := page[..limit];
    }
  }

  /** What follows the n-th row in order is what is left of the ordered rows. */
  lemma FollowingRest(rows: seq<Row>, q: Query, all: seq<Row>, n: nat)
    requires Table(rows) && Ordered(ById, Selected(rows, q), all) && 0 < n <= |all|
    ensures Ordered(ById, Following(rows, q, all[n - 1].id), all[n..])
  {
    var cursor := all[n - 1].id;
    var rest := all[n..];
    SelectedTable(rows, q, all);
    FilterTable((r: Row) => Matches(q, r) && After(cursor, r), rows);
    var f := Following(rows, q, cursor);
    forall r: Row ensures r in f <==> r in rest {
      AfterIsRest(all, n, r);
      assert r in all <==> r in Selected(rows, q) by {
        assert r in all <==> r in multiset(all);
        assert r in Selected(rows, q) <==> r in multiset(Selected(rows, q));
      }
    }
    hide Less, Table;
    forall i, j | 0 <= i < j < |rest| ensures rest[i] != rest[j] {
      assert ById(all[n + i], all[n + j]);
      LessIrreflexive(rest[i].id);
    }
    SameElements(f, rest);
  }

  lemma SelectedTable(rows: seq<Row>, q: Query, all: seq<Row>)
    requires Table(rows) && Ordered(ById, Selected(rows, q), all)
    ensures (forall i :: 0 <= i < |all| ==> all[i].id != "") && SortedBy(ById, all)
  {
    FilterTable((r: Row) => Matches(q, r), rows);
    forall i | 0 <= i < |all| ensures all[i].id != "" {
      var k := FindIn(all, Selected(rows, q), all[i]);
    }
  }

  lemma AfterIsRest(all: seq<Row>, n: nat, r: Row)
    requires SortedBy(ById, all) && 0 < n <= |all| && all[n - 1].id != ""
    ensures r in all && After(all[n - 1].id, r) <==> r in all[n..]
  {
    hide Less;
    if i :| 0 <= i < |all| && all[i] == r {
      if i >= n {
        assert ById(all[n - 1], all[i]);
        assert all[n..][i - n] == r;
      } else if After(all[n - 1].id, r) {
        if i < n - 1 {
          assert ById(all[i], all[n - 1]);
          LessTransitive(r.id, all[n - 1].id, r.id);
        }
        LessIrreflexive(r.id);
      }
    }
  }

  /** Following the cursors to the end yields every selected row once, in id order. */
  method ReadAll(rows: seq<Row>, q: Query, limit: nat) returns (out: seq<Row>)
    requires Table(rows) && limit >= 1
    ensures Ordered(ById, Selected(rows, q), out)
    ensures forall i, j :: 0 <= i < j < |out| ==> Less(out[i].id, out[j].id)
    ensures forall r :: r in out <==> r in rows && r.pack == q.pack && r.mod == q.mod && (q.kind == "" || r.kind == q.kind)
  {
    hide Less, Table, Following, Selected, SortedBy, Ordered;
    SelectedTotal(rows, q);
    ghost var all := OrderedExists(ById, Selected(rows, q));
    SelectedTable(rows, q, all);
    FromStart(rows, q);
    out := [];
    var cursor, more := "", true;
    while more
      invariant |out| <= |all| && out == all[..|out|]
      invariant if more then Ordered(ById, Following(rows, q, cursor), all[|out|..]) else out == all
      decreases |all| - |out|, more
    {
      var page, next, total := ListModContent(rows, q, limit, cursor, all[|out|..]);
      ghost var n := |out|;
      assert page == all[n..n + |page|];
      out := out + page;
      assert out == all[..|out|];
      if next == "" {
        more := false;
      } else {
        assert all[n..][limit - 1] == all[|out| - 1];
        FollowingRest(rows, q, all, |out|);
        cursor := next;
      }
    }
    WholeSelection(rows, q, out);
  }

  lemma WholeSelection(rows: seq<Row>, q: Query, all: seq<Row>)
    requires Ordered(ById, Selected(rows, q), all)
    ensures forall i, j :: 0 <= i < j < |all| ==> Less(all[i].id, all[j].id)
    ensures forall r :: r in all <==> r in rows && r.pack == q.pack && r.mod == q.mod && (q.kind == "" || r.kind == q.kind)
  {
    hide Less;
    forall i, j | 0 <= i < j < |all| ensures Less(all[i].id, all[j].id) { assert ById(all[i], all[j]); }
    forall r ensures r in all <==> r in Selected(rows, q) {
      assert r in all <==> r in multiset(all);
      assert r in Selected(rows, q) <==> r in multiset(Selected(rows, q));
    }
  }

  lemma SelectedTotal(rows: seq<Row>, q: Query)
    requires Table(rows)
    ensures Transitive(ById) && TotalOn(ById, Selected(rows, q))
  {
    FilterTable((r: Row) => Matches(q, r), rows);
    IdsTotal(Selected(rows, q));
  }

  lemma {:induction false} SameFilter(f: Row -> bool, g: Row -> bool, rows: seq<Row>)
    requires forall r :: f(r) == g(r)
    ensures Filter(f, rows) == Filter(g, rows)
  {
    if rows != [] { SameFilter(f, g, rows[..|rows| - 1]); }
  }

  lemma FromStart(rows: seq<Row>, q: Query)
    ensures Following(rows, q, "") == Selected(rows, q)
  {
    SameFilter((r: Row) => Matches(q, r) && After("", r), (r: Row) => Matches(q, r), rows);
  }
}
