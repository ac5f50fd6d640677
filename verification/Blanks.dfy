/** White space around text: Unicode's, in UTF-8 bytes. */
module Blanks {

  /** The bytes of one white space character. */
  predicate White(r: string) {
    match |r|
    case 1 => '\t' <= r[0] <= '\r' || r[0] == ' '
    case 2 => r[0] == '\U{C2}' && (r[1] == '\U{85}' || r[1] == '\U{A0}')
    case 3 =>
      || (r[0] == '\U{E1}' && r[1] == '\U{9A}' && r[2] == '\U{80}')
      || (r[0] == '\U{E2}' && r[1] == '\U{80}' && ('\U{80}' <= r[2] <= '\U{8A}' || r[2] == '\U{A8}' || r[2] == '\U{A9}' || r[2] == '\U{AF}'))
      || (r[0] == '\U{E2}' && r[1] == '\U{81}' && r[2] == '\U{9F}')
      || (r[0] == '\U{E3}' && r[1] == '\U{80}' && r[2] == '\U{80}')
    case _ => false
  }

  /** The characters that Unicode calls white space. */
  predicate WhiteCode(c: nat) {
    || 9 <= c <= 13 || c == 0x20 || c == 0x85 || c == 0xA0 || c == 0x1680 || 0x2000 <= c <= 0x200A
    || c == 0x2028 || c == 0x2029 || c == 0x202F || c == 0x205F || c == 0x3000
  }

  /** The UTF-8 form of a character below 0x10000, section 3 of RFC 3629. */
  function Utf8(c: nat): string
    requires c < 0xD800
  {
    if c < 0x80 then [c as char]
    else if c < 0x800 then [(0xC0 + c / 64) as char, (0x80 + c % 64) as char]
    else [(0xE0 + c / 4096) as char, (0x80 + c / 64 % 64) as char, (0x80 + c % 64) as char]
  }

  /** The code that one to three bytes stand for. */
  function Code(r: string): int {
    match |r|
    case 1 => r[0] as int
    case 2 => (r[0] as int - 0xC0) * 64 + (r[1] as int - 0x80)
    case 3 => (r[0] as int - 0xE0) * 4096 + (r[1] as int - 0x80) * 64 + (r[2] as int - 0x80)
    case _ => -1
  }

  lemma CodeBack(r: string)
    requires White(r)
    ensures 0 <= Code(r) < 0xD800 && WhiteCode(Code(r)) && Utf8(Code(r)) == r
  {
  }

  lemma CodeWhite(c: nat)
    requires c < 0xD800 && WhiteCode(c)
    ensures White(Utf8(c))
  {
  }

  /** The bytes are those of a white space character exactly when Unicode calls it one. */
  lemma WhiteIff(r: string)
    ensures White(r) <==> exists c: nat :: c < 0xD800 && WhiteCode(c) && r == Utf8(c)
  {
    if White(r) { CodeBack(r); }
    hide White, WhiteCode, Utf8, Code;
    if c: nat :| c < 0xD800 && WhiteCode(c) && r == Utf8(c) { CodeWhite(c); }
  }

  /** The width of the white space character that s begins with, or zero. */
  function Leading(s: string): (n: nat)
    ensures n <= |s| && (n > 0 ==> White(s[..n]))
  {
    if |s| >= 1 && White(s[..1]) then 1 else if |s| >= 2 && White(s[..2]) then 2 else if |s| >= 3 && White(s[..3]) then 3 else 0
  }

  function Trailing(s: string): (n: nat)
    ensures n <= |s| && (n > 0 ==> White(s[|s| - n..]))
  {
    if |s| >= 1 && White(s[|s| - 1..]) then 1
    else if |s| >= 2 && White(s[|s| - 2..]) then 2
    else if |s| >= 3 && White(s[|s| - 3..]) then 3
    else 0
  }

  function TrimLeft(s: string): string {
    if Leading(s) == 0 then s else TrimLeft(s[Leading(s)..])
  }

  function TrimRight(s: string): string {
    if Trailing(s) == 0 then s else TrimRight(s[..|s| - Trailing(s)])
  }

  function TrimSpace(s: string): string { TrimRight(TrimLeft(s)) }

  predicate BlankText(s: string) { TrimSpace(s) == "" }

  /** Trimming leaves nothing to trim. */
  lemma {:induction false} TrimLeftDone(s: string)
    ensures Leading(TrimLeft(s)) == 0
  {
    if Leading(s) > 0 { TrimLeftDone(s[Leading(s)..]); }
  }

  /** s consists of white space characters. */
  ghost predicate AllWhite(s: string) {
    s == "" || exists n :: 0 < n <= |s| && White(s[..n]) && AllWhite(s[n..])
  }

  /** White space characters are not prefixes of one another. */
  lemma WhitePrefixFree(r: string, n: nat)
    requires White(r) && n <= |r| && White(r[..n])
    ensures n == |r|
  {
  }

  lemma LeadingIs(s: string, n: nat)
    requires 0 < n <= |s| && White(s[..n])
    ensures Leading(s) == n
  {
    var k := Leading(s);
    assert 0 < k <= n;
    assert s[..n][..k] == s[..k];
    WhitePrefixFree(s[..n], k);
  }

  lemma {:induction false} BlankIffAllWhite(s: string)
    ensures TrimLeft(s) == "" <==> AllWhite(s)
  {
    if s != "" {
      if Leading(s) > 0 { BlankIffAllWhite(s[Leading(s)..]); }
      if n :| 0 < n <= |s| && White(s[..n]) && AllWhite(s[n..]) { LeadingIs(s, n); }
    }
  }

  lemma WholeWhite(t: string)
    requires White(t) && t != ""
    ensures Leading(t) == |t|
  {
    assert t[..|t|] == t;
    LeadingIs(t, |t|);
  }

  lemma KeepsMore(t: string)
    requires Leading(t) == 0 && t != ""
    ensures Trailing(t) < |t| && Leading(t[..|t| - Trailing(t)]) == 0
  {
    hide White;
    if White(t) { WholeWhite(t); }
    var n := Trailing(t);
    assert t[0..] == t;
    var u := t[..|t| - n];
    var k := Leading(u);
    assert u[..k] == t[..k];
    if k > 0 { LeadingIs(t, k); }
  }

  /** Trimming on the right does not reach the first character that is no white space. */
  lemma {:induction false} KeepsFirst(t: string)
    requires Leading(t) == 0
    ensures TrimRight(t) == "" ==> t == ""
  {
    if t != "" {
      KeepsMore(t);
      if Trailing(t) > 0 { KeepsFirst(t[..|t| - Trailing(t)]); }
    }
  }

  lemma BlankTextIff(s: string)
    ensures BlankText(s) <==> AllWhite(s)
  {
    BlankIffAllWhite(s);
    TrimLeftDone(s);
    KeepsFirst(TrimLeft(s));
  }

  /** Text of printing ASCII characters is left alone. */
  lemma PlainStays(s: string)
    requires forall i :: 0 <= i < |s| ==> '!' <= s[i] <= '~'
    ensures TrimSpace(s) == s
  {
    forall r: string | 0 < |r| && '!' <= r[0] <= '~' ensures !White(r) {}
    assert Leading(s) == 0 && Trailing(s) == 0;
  }

  predicate Printing(c: char) { '!' <= c <= '~' }

  lemma PrintingNotWhite(r: string)
    requires r != "" && (Printing(r[0]) || Printing(r[|r| - 1]))
    ensures !White(r)
  {
  }

  lemma PrefixNotWhite(s: string, n: nat)
    requires 0 < n <= |s| && Printing(s[0])
    ensures !White(s[..n])
  {
    hide White;
    assert s[..n][0] == s[0];
    PrintingNotWhite(s[..n]);
  }

  lemma SuffixNotWhite(s: string, n: nat)
    requires 0 < n <= |s| && Printing(s[|s| - 1])
    ensures !White(s[|s| - n..])
  {
    hide White;
    var r := s[|s| - n..];
    assert r[|r| - 1] == s[|s| - 1];
    PrintingNotWhite(r);
  }

  lemma PrintingStart(s: string)
    requires s != "" && Printing(s[0])
    ensures Leading(s) == 0
  {
    hide White, Printing;
    PrefixNotWhite(s, 1);
    if |s| >= 2 { PrefixNotWhite(s, 2); }
    if |s| >= 3 { PrefixNotWhite(s, 3); }
  }

  lemma PrintingEnd(s: string)
    requires s != "" && Printing(s[|s| - 1])
    ensures Trailing(s) == 0
  {
    hide White, Printing;
    SuffixNotWhite(s, 1);
    if |s| >= 2 { SuffixNotWhite(s, 2); }
    if |s| >= 3 { SuffixNotWhite(s, 3); }
  }

  lemma AllWhiteCons(b: string, k: nat)
    requires 0 < k <= |b| && White(b[..k]) && AllWhite(b[k..])
    ensures AllWhite(b)
  {
    hide White;
  }

  lemma NothingIsWhite()
    ensures AllWhite("")
  {
  }

  lemma AllWhiteSplit(b: string) returns (k: nat)
    requires AllWhite(b) && b != ""
    ensures 0 < k <= |b| && White(b[..k]) && AllWhite(b[k..])
  {
    hide White;
    k :| 0 < k <= |b| && White(b[..k]) && AllWhite(b[k..]);
  }

  /** White space before a printing character is trimmed. */
  lemma {:induction false} TrimLeftWhite(a: string, s: string)
    requires AllWhite(a) && s != "" && Printing(s[0])
    ensures TrimLeft(a + s) == s
  {
    hide White, AllWhite, Leading, Printing;
    if a == "" {
      assert a + s == s;
      PrintingStart(s);
    } else {
      var n := AllWhiteSplit(a);
      assert (a + s)[..n] == a[..n] && (a + s)[n..] == a[n..] + s;
      LeadingIs(a + s, n);
      TrimLeftWhite(a[n..], s);
    }
  }

  /** White space can be taken apart from its end. */
  lemma {:induction false} WhiteEnd(b: string) returns (n: nat)
    requires AllWhite(b) && b != ""
    ensures 0 < n <= |b| && White(b[|b| - n..]) && AllWhite(b[..|b| - n])
  {
    hide White, AllWhite;
    var k := AllWhiteSplit(b);
    if k == |b| {
      n := k;
      assert b[..k] == b && b[|b| - n..] == b && b[..|b| - n] == "";
      NothingIsWhite();
    } else {
      n := WhiteEnd(b[k..]);
      var front := b[..|b| - n];
      assert b[k..][|b[k..]| - n..] == b[|b| - n..];
      assert front[..k] == b[..k] && front[k..] == b[k..][..|b[k..]| - n];
      AllWhiteCons(front, k);
    }
  }

  lemma TrailingIs(s: string, n: nat)
    requires 0 < n <= |s| && White(s[|s| - n..])
    ensures Trailing(s) == n
  {
    var r := s[|s| - n..];
    assert n <= 3;
    assert n > 1 ==> s[|s| - 1..] == r[n - 1..];
    assert n > 2 ==> s[|s| - 2..] == r[n - 2..];
    WhiteSuffixFree(r);
    hide White;
  }

  lemma WhiteSuffixFree(r: string)
    requires White(r)
    ensures |r| > 1 ==> !White(r[|r| - 1..])
    ensures |r| > 2 ==> !White(r[|r| - 2..])
  {
  }

  lemma {:induction false} TrimRightWhite(s: string, b: string)
    requires AllWhite(b) && s != "" && Printing(s[|s| - 1])
    ensures TrimRight(s + b) == s
  {
    hide White, AllWhite, Trailing, Printing;
    var t := s + b;
    if b == "" {
      assert t == s;
      PrintingEnd(s);
    } else {
      var n := WhiteEnd(b);
      assert t[|t| - n..] == b[|b| - n..] && t[..|t| - n] == s + b[..|b| - n];
      TrailingIs(t, n);
      TrimRightWhite(s, b[..|b| - n]);
    }
  }

  /** Trimming takes exactly the white space around a text that begins and ends with printing characters. */
  lemma TrimAround(a: string, s: string, b: string)
    requires AllWhite(a) && AllWhite(b) && s != "" && Printing(s[0]) && Printing(s[|s| - 1])
    ensures TrimSpace(a + s + b) == s
  {
    hide TrimLeft, TrimRight, AllWhite, Printing;
    assert a + s + b == a + (s + b) && (s + b)[0] == s[0];
    TrimLeftWhite(a, s + b);
    TrimRightWhite(s, b);
  }
}
