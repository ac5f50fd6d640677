/** Paths inside a built archive: cleaning and accepting them. A string is a sequence of bytes here. */
module ArchivePaths {
  import opened Options

  // ----- segments --------------------------------------------------------------------------

  /** The segments between slashes; there is always at least one. */
  function Split(v: string): (parts: seq<string>)
    ensures |parts| >= 1
    ensures forall i :: 0 <= i < |parts| ==> '/' !in parts[i]
  {
    if v == "" then [""]
    else
      var rest := Split(v[1..]);
      if v[0] == '/' then [""] + rest else [[v[0]] + rest[0]] + rest[1..]
  }

  function Join(parts: seq<string>): string {
    if parts == [] then "" else if |parts| == 1 then parts[0] else parts[0] + "/" + Join(parts[1..])
  }

  lemma {:induction false} SplitSegment(s: string)
    requires '/' !in s
    ensures Split(s) == [s]
  {
    if s != "" {
      SplitSegment(s[1..]);
      assert s == [s[0]] + s[1..];
    }
  }

  lemma {:induction false} SplitFirst(s: string, t: string)
    requires '/' !in s
    ensures Split(s + "/" + t) == [s] + Split(t)
  {
    var v := s + "/" + t;
    if s == "" {
      assert v[1..] == t;
    } else {
      assert v[1..] == s[1..] + "/" + t;
      SplitFirst(s[1..], t);
      assert s == [s[0]] + s[1..];
    }
  }

  lemma {:induction false} SplitJoin(parts: seq<string>)
    requires parts != [] && forall i :: 0 <= i < |parts| ==> '/' !in parts[i]
    ensures Split(Join(parts)) == parts
  {
    if |parts| == 1 {
      SplitSegment(parts[0]);
    } else {
      SplitJoin(parts[1..]);
      SplitFirst(parts[0], Join(parts[1..]));
    }
  }

  lemma {:induction false} JoinSplit(v: string)
    ensures Join(Split(v)) == v
  {
    if v != "" {
      JoinSplit(v[1..]);
      var rest := Split(v[1..]);
      if v[0] == '/' {
        assert ([""] + rest)[1..] == rest;
      } else if |rest| > 1 {
        assert ([[v[0]] + rest[0]] + rest[1..])[1..] == rest[1..];
        assert Join(rest) == rest[0] + "/" + Join(rest[1..]);
      }
    }
  }

  // ----- cleaning --------------------------------------------------------------------------

  /** Empty segments and dots are dropped; two dots take back the segment before, or stand alone. */
  function Push(stack: seq<string>, part: string): seq<string> {
    if part == "" || part == "." then stack
    else if part == ".." then (if stack == [] then [".."] else stack[..|stack| - 1])
    else stack + [part]
  }

  function CleanParts(parts: seq<string>): seq<string> {
    if parts == [] then [] else Push(CleanParts(parts[..|parts| - 1]), parts[|parts| - 1])
  }

  function Clean(v: string): string { Join(CleanParts(Split(v))) }

  method PathCleanSlash(v: string) returns (r: string)
    ensures r == Clean(v)
  {
    var parts := Split(v);
    var stack: seq<string> := [];
    for i := 0 to |parts|
      invariant stack == CleanParts(parts[..i])
    {
      assert parts[..i + 1][..i] == parts[..i];
      if parts[i] == "" || parts[i] == "." { continue; }
      if parts[i] == ".." {
        if |stack| > 0 { stack := stack[..|stack| - 1]; } else { stack := stack + [".."]; }
      } else {
        stack := stack + [parts[i]];
      }
    }
    assert parts[..|parts|] == parts;
    r := Join(stack);
  }

  /** A proper name of something inside a directory. */
  predicate Plain(s: string) { s != "" && s != "." && s != ".." && '/' !in s }

  predicate AllPlain(parts: seq<string>) { forall i :: 0 <= i < |parts| ==> Plain(parts[i]) }

  /** Cleaned segments are plain, but the first may go up. */
  predicate Cleaned(parts: seq<string>) {
    forall i :: 0 <= i < |parts| ==> Plain(parts[i]) || (i == 0 && parts[i] == "..")
  }

  lemma {:induction false} CleanShape(parts: seq<string>)
    requires forall i :: 0 <= i < |parts| ==> '/' !in parts[i]
    ensures Cleaned(CleanParts(parts))
  {
    if parts != [] {
      CleanShape(parts[..|parts| - 1]);
    }
  }

  lemma {:induction false} CleanFixed(parts: seq<string>)
    requires Cleaned(parts)
    ensures CleanParts(parts) == parts
  {
    if parts != [] {
      CleanFixed(parts[..|parts| - 1]);
      assert parts == parts[..|parts| - 1] + [parts[|parts| - 1]];
    }
  }

  lemma CleanSplit(v: string)
    ensures CleanParts(Split(Clean(v))) == CleanParts(Split(v))
    ensures CleanParts(Split(v)) != [] ==> Split(Clean(v)) == CleanParts(Split(v))
  {
    var out := CleanParts(Split(v));
    CleanShape(Split(v));
    if out == [] {
      assert Clean(v) == "";
      assert [""][..0] == [];
      assert CleanParts([""]) == [];
    } else {
      SplitJoin(out);
      CleanFixed(out);
    }
  }

  lemma CleanIdempotent(v: string)
    ensures Clean(Clean(v)) == Clean(v)
  {
    CleanSplit(v);
  }

  // ----- the usual lexical clean, and where this one differs --------------------------------

  /** The usual rule: two dots never take back two dots. */
  function StandardPush(stack: seq<string>, part: string): seq<string> {
    if part == "" || part == "." then stack
    else if part == ".." && stack != [] && stack[|stack| - 1] != ".." then stack[..|stack| - 1]
    else stack + [part]
  }

  function StandardParts(parts: seq<string>): seq<string> {
    if parts == [] then [] else StandardPush(StandardParts(parts[..|parts| - 1]), parts[|parts| - 1])
  }

  /** How many leading segments go up. */
  function Ups(parts: seq<string>): (n: nat)
    ensures n <= |parts|
  {
    if parts != [] && parts[0] == ".." then 1 + Ups(parts[1..]) else 0
  }

  function UpSegments(n: nat): (parts: seq<string>)
    ensures |parts| == n && forall i :: 0 <= i < n ==> parts[i] == ".."
  {
    if n == 0 then [] else UpSegments(n - 1) + [".."]
  }

  lemma {:induction false} UpsOf(n: nat, rest: seq<string>)
    requires rest == [] || rest[0] != ".."
    ensures Ups(UpSegments(n) + rest) == n
  {
    if n == 0 {
      assert UpSegments(0) + rest == rest;
    } else {
      var parts := UpSegments(n) + rest;
      assert parts[1..] == UpSegments(n - 1) + rest;
      UpsOf(n - 1, rest);
    }
  }

  lemma PushBoth(n: nat, rest: seq<string>, part: string) returns (m: nat, more: seq<string>)
    requires AllPlain(rest) && '/' !in part
    ensures AllPlain(more)
    ensures StandardPush(UpSegments(n) + rest, part) == UpSegments(m) + more
    ensures Push(UpSegments(n % 2) + rest, part) == UpSegments(m % 2) + more
  {
    m, more := n, rest;
    if part == "" || part == "." {
    } else if part != ".." {
      more := rest + [part];
      PushPlain(UpSegments(n), rest, part);
      PushPlain(UpSegments(n % 2), rest, part);
    } else if rest != [] {
      more := rest[..|rest| - 1];
      PopPlain(UpSegments(n), rest);
      PopPlain(UpSegments(n % 2), rest);
    } else {
      m := n + 1;
      PushUp(n);
    }
  }

  lemma PushPlain(ups: seq<string>, rest: seq<string>, part: string)
    requires Plain(part)
    ensures StandardPush(ups + rest, part) == Push(ups + rest, part) == ups + (rest + [part])
  {
    assert (ups + rest) + [part] == ups + (rest + [part]);
  }

  lemma PopPlain(ups: seq<string>, rest: seq<string>)
    requires AllPlain(rest) && rest != []
    ensures StandardPush(ups + rest, "..") == Push(ups + rest, "..") == ups + rest[..|rest| - 1]
  {
    assert (ups + rest)[..|ups + rest| - 1] == ups + rest[..|rest| - 1];
    assert Plain(rest[|rest| - 1]);
  }

  lemma PushUp(n: nat)
    ensures StandardPush(UpSegments(n) + [], "..") == UpSegments(n + 1) + []
    ensures Push(UpSegments(n % 2) + [], "..") == UpSegments((n + 1) % 2) + []
  {
    assert UpSegments(n) + [] == UpSegments(n) && UpSegments(n % 2) + [] == UpSegments(n % 2);
    if n % 2 == 1 { assert UpSegments(1)[..0] == UpSegments(0); }
  }

  /** Both rules keep the same plain segments; of the leading ups this one keeps one if they are odd in number. */
  lemma {:induction false} UpsCancelInPairs(parts: seq<string>) returns (n: nat, rest: seq<string>)
    requires forall i :: 0 <= i < |parts| ==> '/' !in parts[i]
    ensures AllPlain(rest)
    ensures StandardParts(parts) == UpSegments(n) + rest && CleanParts(parts) == UpSegments(n % 2) + rest
  {
    hide Push, StandardPush, UpSegments;
    if parts == [] {
      n, rest := 0, [];
    } else {
      var m, r := UpsCancelInPairs(parts[..|parts| - 1]);
      n, rest := PushBoth(m, r, parts[|parts| - 1]);
    }
  }

  /** The two rules agree exactly on paths that go up at most one level in the end. */
  lemma CleanIsStandardIff(v: string)
    ensures CleanParts(Split(v)) == StandardParts(Split(v)) <==> Ups(StandardParts(Split(v))) <= 1
  {
    hide CleanParts, StandardParts, Split, UpSegments;
    var n, rest := UpsCancelInPairs(Split(v));
    assert rest != [] ==> Plain(rest[0]);
    UpsOf(n, rest);
    assert n >= 2 ==> |UpSegments(n) + rest| != |UpSegments(n % 2) + rest|;
  }

  // ----- accepting -------------------------------------------------------------------------

  function Slashed(v: string): (r: string)
    ensures |r| == |v| && forall i :: 0 <= i < |v| ==> r[i] == if v[i] == '\\' then '/' else v[i]
  {
    if v == "" then "" else Slashed(v[..|v| - 1]) + [if v[|v| - 1] == '\\' then '/' else v[|v| - 1]]
  }

  /** A drive letter, or what looks like one. */
  predicate Drive(v: string) { |v| >= 2 && v[1] == ':' }

  function Safe(raw: string): Option<string> {
    if raw == "" || '\0' in raw then None
    else
      var v := Slashed(raw);
      if v[0] == '/' || Drive(v) then None
      else
        var c := Clean(v);
        if c == "." || c == "" || c == ".." || "../" <= c then None else Some(c)
  }

  /** The segments an accepted path stands for. */
  lemma SafeSegments(raw: string)
    requires Safe(raw).Some?
    ensures var v := Safe(raw).value;
      v != "" && AllPlain(Split(v)) && Split(v) == CleanParts(Split(Slashed(raw))) && Join(Split(v)) == v
  {
    var parts := CleanParts(Split(Slashed(raw)));
    var v := Safe(raw).value;
    CleanShape(Split(Slashed(raw)));
    CleanSplit(Slashed(raw));
    JoinSplit(v);
    GoesUp(parts);
  }

  lemma GoesUp(parts: seq<string>)
    requires parts != []
    ensures parts[0] == ".." ==> Join(parts) == ".." || "../" <= Join(parts)
  {
    if |parts| > 1 && parts[0] == ".." {
      assert Join(parts) == "../" + Join(parts[1..]);
    }
  }

  /** Which paths are accepted: relative ones whose cleaned form neither is empty nor goes up. */
  lemma SafeIff(raw: string)
    ensures var parts := CleanParts(Split(Slashed(raw)));
      Safe(raw).Some? <==>
        && raw != "" && '\0' !in raw && raw[0] != '/' && raw[0] != '\\' && (|raw| < 2 || raw[1] != ':')
        && parts != [] && parts[0] != ".."
    ensures Safe(raw).Some? ==> Safe(raw).value == Join(CleanParts(Split(Slashed(raw))))
  {
    var v := Slashed(raw);
    var parts := CleanParts(Split(v));
    if Safe(raw).Some? { SafeSegments(raw); }
    if raw != "" && parts != [] && parts[0] != ".." {
      CleanShape(Split(v));
      assert Plain(parts[0]);
      FirstSegment(parts);
      CleanSplit(v);
    }
  }

  lemma FirstSegment(parts: seq<string>)
    requires parts != [] && Plain(parts[0])
    ensures var c := Join(parts); c != "" && c != "." && c != ".." && !("../" <= c)
  {
    var c := Join(parts);
    SplitHead(parts[0], if |parts| == 1 then "" else "/" + Join(parts[1..]));
    assert c == parts[0] + if |parts| == 1 then "" else "/" + Join(parts[1..]);
    SplitSegment("");
    SplitSegment(".");
    SplitSegment("..");
    LeadingUp(c);
  }

  lemma LeadingUp(c: string)
    ensures "../" <= c ==> Split(c)[0] == ".."
    ensures "/" <= c ==> Split(c)[0] == ""
  {
    if "../" <= c {
      assert c == ".." + c[2..];
      SplitHead("..", c[2..]);
    }
  }

  /** The first segment of a text that starts with a segment and goes on with nothing or a slash. */
  lemma SplitHead(s: string, t: string)
    requires '/' !in s && (t == "" || t[0] == '/')
    ensures Split(s + t)[0] == s
  {
    if t == "" {
      assert s + t == s;
      SplitSegment(s);
    } else {
      assert s + t == s + "/" + t[1..];
      SplitFirst(s, t[1..]);
    }
  }

  /** Accepting an accepted path again changes nothing, unless cleaning has brought a drive letter to the front. */
  lemma SafeStable(raw: string)
    requires Safe(raw).Some?
    ensures Safe(Safe(raw).value) == Safe(raw) <==> !Drive(Safe(raw).value)
  {
    var v := Safe(raw).value;
    SafeSegments(raw);
    CleanNoBackslash(raw);
    assert Slashed(v) == v;
    CleanIdempotent(Slashed(raw));
    LeadingUp(v);
  }

  /** The bytes of a cleaned path are bytes of the path, or slashes and dots. */
  lemma CleanNoBackslash(raw: string)
    requires Safe(raw).Some?
    ensures '\\' !in Safe(raw).value && '\0' !in Safe(raw).value
  {
    var v := Slashed(raw);
    forall c | c == '\\' || c == '\0' ensures c !in v { }
    SplitKeepsOut(v, '\\');
    SplitKeepsOut(v, '\0');
    CleanKeepsOut(Split(v), '\\');
    CleanKeepsOut(Split(v), '\0');
    JoinKeepsOut(CleanParts(Split(v)), '\\');
    JoinKeepsOut(CleanParts(Split(v)), '\0');
  }

  predicate NotIn(parts: seq<string>, c: char) { forall i :: 0 <= i < |parts| ==> c !in parts[i] }

  lemma {:induction false} SplitKeepsOut(v: string, c: char)
    requires c !in v
    ensures NotIn(Split(v), c)
  {
    if v != "" { SplitKeepsOut(v[1..], c); }
  }

  lemma {:induction false} CleanKeepsOut(parts: seq<string>, c: char)
    requires NotIn(parts, c) && c != '.'
    ensures NotIn(CleanParts(parts), c)
  {
    if parts != [] { CleanKeepsOut(parts[..|parts| - 1], c); }
  }

  lemma {:induction false} JoinKeepsOut(parts: seq<string>, c: char)
    requires NotIn(parts, c) && c != '/'
    ensures c !in Join(parts)
  {
    if |parts| > 1 { JoinKeepsOut(parts[1..], c); }
  }
}
