/** What a build is made of: validated files in a canonical order, and the snapshots beside them. */
module BuildManifest {
  import opened Options
  import opened Ordering
  import opened Sequences
  import opened ArchivePaths
  import opened Blanks

  type Bytes = seq<bv8>

  datatype File = File(path: string, content: Bytes)

  datatype Input = Input(pack: string, version: string, exportDir: string, files: seq<File>,
                         lockJSON: string, content: string, quest: string, config: string)

  datatype Entry = Entry(path: string, hash: string, size: nat)

  datatype Snapshots = Snapshots(lockJSON: string, content: string, quest: string, config: string)

  datatype Manifest = Manifest(files: seq<Entry>, snapshots: Snapshots)

  const MAX_FILE: nat := 536870912

  // ----- validation ------------------------------------------------------------------------

  predicate GoodFile(f: File) { Safe(f.path).Some? && |f.content| <= 536870912 }

  predicate GoodFiles(files: seq<File>) {
    && (forall i :: 0 <= i < |files| ==> GoodFile(files[i]))
    && (forall i, j :: 0 <= i < j < |files| ==> Safe(files[i].path) != Safe(files[j].path))
  }

  predicate Valid(x: Input) {
    !BlankText(x.pack) && !BlankText(x.version) && !BlankText(x.exportDir) && x.files != [] && GoodFiles(x.files)
  }

  lemma GoodNext(files: seq<File>, i: nat)
    requires i < |files|
    ensures GoodFiles(files[..i + 1]) <==>
      GoodFiles(files[..i]) && GoodFile(files[i]) && forall k :: 0 <= k < i ==> Safe(files[k].path) != Safe(files[i].path)
  {
    hide GoodFile, Safe;
    var p := files[..i + 1];
    assert p == files[..i] + [files[i]];
  }

  lemma BadPrefix(files: seq<File>, i: nat)
    requires i <= |files| && !GoodFiles(files[..i])
    ensures !GoodFiles(files)
  {
    hide GoodFile, Safe;
  }

  method ValidateBuildInput(x: Input) returns (ok: bool)
    ensures ok <==> Valid(x)
    ensures ok <==>
      && !BlankText(x.pack) && !BlankText(x.version) && !BlankText(x.exportDir) && |x.files| > 0
      && (forall i :: 0 <= i < |x.files| ==> Safe(x.files[i].path).Some? && |x.files[i].content| <= 536870912)
      && (forall i, j :: 0 <= i < j < |x.files| ==> Safe(x.files[i].path) != Safe(x.files[j].path))
  {
    ValidIs(x);
    hide Safe, BlankText, GoodFiles;
    if BlankText(x.pack) || BlankText(x.version) || BlankText(x.exportDir) || |x.files| == 0 { return false; }
    var seen: set<Option<string>> := {};
    GoodNone(x.files);
    for i := 0 to |x.files|
      invariant GoodFiles(x.files[..i])
      invariant seen == set k | 0 <= k < i :: Safe(x.files[k].path)
    {
      var path := Safe(x.files[i].path);
      GoodNext(x.files, i);
      if path.None? || |x.files[i].content| > MAX_FILE || path in seen {
        BadPrefix(x.files, i + 1);
        return false;
      }
      seen := seen + {path};
    }
    assert x.files[..|x.files|] == x.files;
    ok := true;
  }

  lemma ValidIs(x: Input)
    ensures Valid(x) <==>
      && !BlankText(x.pack) && !BlankText(x.version) && !BlankText(x.exportDir) && |x.files| > 0
      && (forall i :: 0 <= i < |x.files| ==> Safe(x.files[i].path).Some? && |x.files[i].content| <= 536870912)
      && (forall i, j :: 0 <= i < j < |x.files| ==> Safe(x.files[i].path) != Safe(x.files[j].path))
  {
    hide Safe, BlankText;
  }

  lemma GoodNone(files: seq<File>)
    ensures GoodFiles(files[..0])
  {
  }

  // ----- the manifest ----------------------------------------------------------------------

  /** The file as it goes into the archive. */
  function Normalized(f: File): File {
    if Safe(f.path).Some? then f.(path := Safe(f.path).value) else f
  }

  function NormalizedFiles(files: seq<File>): (r: seq<File>)
    ensures |r| == |files| && forall i :: 0 <= i < |files| ==> r[i] == Normalized(files[i])
  {
    if files == [] then [] else NormalizedFiles(files[..|files| - 1]) + [Normalized(files[|files| - 1])]
  }

  predicate PathBefore(a: File, b: File) { Less(a.path, b.path) }

  function EntryOf(hash: Bytes -> string, f: File): Entry { Entry(f.path, hash(f.content), |f.content|) }

  function SnapshotsOf(x: Input, normalize: string -> Option<string>): Option<Snapshots> {
    var l, c, q, g := normalize(x.lockJSON), normalize(x.content), normalize(x.quest), normalize(x.config);
    if l.Some? && c.Some? && q.Some? && g.Some? then Some(Snapshots(l.value, c.value, q.value, g.value)) else None
  }

  /** m describes exactly the files and snapshots of x, the files in path order. */
  ghost predicate Describes(x: Input, hash: Bytes -> string, normalize: string -> Option<string>, m: Manifest)
    requires Valid(x)
  {
    && SnapshotsOf(x, normalize) == Some(m.snapshots)
    && exists sorted :: Ordered(PathBefore, NormalizedFiles(x.files), sorted) && m.files == Map(f => EntryOf(hash, f), sorted)
  }

  lemma PathsTotal(files: seq<File>)
    requires forall i, j :: 0 <= i < j < |files| ==> files[i].path != files[j].path
    ensures Transitive(PathBefore) && TotalOn(PathBefore, files)
  {
    hide Less;
    forall a, b, c | Less(a, b) && Less(b, c) ensures Less(a, c) { LessTransitive(a, b, c); }
    forall a, b | a != b ensures Less(a, b) || Less(b, a) { LessTotal(a, b); }
  }

  method BuildManifest(x: Input, hash: Bytes -> string, normalize: string -> Option<string>) returns (m: Option<Manifest>)
    requires Valid(x)
    ensures m.Some? <==> SnapshotsOf(x, normalize).Some?
    ensures m.Some? <==>
      normalize(x.lockJSON).Some? && normalize(x.content).Some? && normalize(x.quest).Some? && normalize(x.config).Some?
    ensures m.Some? ==> Describes(x, hash, normalize, m.value)
    ensures m.Some? ==> EachNormalized(x, normalize, m.value) && EachListed(x, hash, m.value)
  {
    hide EachListed, Safe, Ordered, Less, BlankText, SortedBy, TotalOn, Transitive;
    var files: seq<File> := [];
    for i := 0 to |x.files|
      invariant files == NormalizedFiles(x.files[..i])
    {
      assert x.files[..i + 1][..i] == x.files[..i];
      files := files + [File(Safe(x.files[i].path).value, x.files[i].content)];
    }
    assert x.files[..|x.files|] == x.files;
    PathsTotal(files);
    var sorted := Sort(PathBefore, files);
    var l, c, q, g := normalize(x.lockJSON), normalize(x.content), normalize(x.quest), normalize(x.config);
    if l.None? || c.None? || q.None? || g.None? { return None; }
    var entries: seq<Entry> := [];
    for i := 0 to |sorted|
      invariant |entries| == i && forall k :: 0 <= k < i ==> entries[k] == EntryOf(hash, sorted[k])
    {
      entries := entries + [Entry(sorted[i].path, hash(sorted[i].content), |sorted[i].content|)];
    }
    assert entries == Map(f => EntryOf(hash, f), sorted);
    m := Some(Manifest(entries, Snapshots(l.value, c.value, q.value, g.value)));
    DescribedParts(x, hash, normalize, m.value);
  }

  // ----- what a manifest tells -------------------------------------------------------------

  /** The content of each path of the archive. */
  function ContentsOf(x: Input): map<string, Bytes>
    requires Valid(x)
  {
    map i | 0 <= i < |x.files| :: Safe(x.files[i].path).value := x.files[i].content
  }

  /** Each of the four snapshots is the normalised text of its own field. */
  ghost predicate EachNormalized(x: Input, normalize: string -> Option<string>, m: Manifest) {
    && normalize(x.lockJSON) == Some(m.snapshots.lockJSON)
    && normalize(x.content) == Some(m.snapshots.content)
    && normalize(x.quest) == Some(m.snapshots.quest)
    && normalize(x.config) == Some(m.snapshots.config)
  }

  /** The entries are exactly the paths of the archive, each once and in order, with the hash and size of its content. */
  ghost predicate EachListed(x: Input, hash: Bytes -> string, m: Manifest)
    requires Valid(x)
  {
    && (forall i, j :: 0 <= i < j < |m.files| ==> Less(m.files[i].path, m.files[j].path))
    && (forall e :: e in m.files ==>
      e.path in ContentsOf(x) && e.hash == hash(ContentsOf(x)[e.path]) && e.size == |ContentsOf(x)[e.path]|)
    && (forall path :: path in ContentsOf(x) ==> exists i :: 0 <= i < |m.files| && m.files[i].path == path)
  }

  /** The file of an entry, and the entry of a file. */
  lemma EntryHolds(x: Input, hash: Bytes -> string, p: seq<File>, q: seq<Entry>, e: Entry)
    requires Valid(x) && (forall f :: f in p <==> f in NormalizedFiles(x.files))
    requires |p| == |q| && (forall i :: 0 <= i < |p| ==> q[i] == EntryOf(hash, p[i])) && e in q
    ensures e.path in ContentsOf(x) && e.hash == hash(ContentsOf(x)[e.path]) && e.size == |ContentsOf(x)[e.path]|
  {
    hide NormalizedFiles, Valid, ContentsOf;
    var i :| 0 <= i < |q| && q[i] == e;
    assert p[i] in p;
    ListedHeld(x, p[i]);
  }

  lemma PathListed(x: Input, hash: Bytes -> string, p: seq<File>, q: seq<Entry>, path: string)
    requires Valid(x) && (forall f :: f in p <==> f in NormalizedFiles(x.files))
    requires |p| == |q| && (forall i :: 0 <= i < |p| ==> q[i] == EntryOf(hash, p[i])) && path in ContentsOf(x)
    ensures exists i :: 0 <= i < |q| && q[i].path == path
  {
    hide NormalizedFiles, Valid, ContentsOf;
    var f := File(path, ContentsOf(x)[path]);
    HeldListed(x, f);
    var i :| 0 <= i < |p| && p[i] == f;
    assert q[i].path == path;
  }

  lemma SameAsMultisets(a: seq<File>, b: seq<File>)
    requires multiset(a) == multiset(b)
    ensures forall f :: f in a <==> f in b
  {
    forall f ensures f in a <==> f in b {
      assert f in a <==> f in multiset(a);
    }
  }

  lemma DescribedParts(x: Input, hash: Bytes -> string, normalize: string -> Option<string>, m: Manifest)
    requires Valid(x) && Describes(x, hash, normalize, m)
    ensures EachNormalized(x, normalize, m) && EachListed(x, hash, m)
  {
    var p := DescribedFiles(x, hash, normalize, m);
    hide Valid, Describes, ContentsOf, NormalizedFiles, Ordered, EntryOf, Less, Map;
    FilesListed(x, hash, p, m);
    hide EachListed;
  }

  /** The files behind the entries. */
  lemma DescribedFiles(x: Input, hash: Bytes -> string, normalize: string -> Option<string>, m: Manifest) returns (p: seq<File>)
    requires Valid(x) && Describes(x, hash, normalize, m)
    ensures Ordered(PathBefore, NormalizedFiles(x.files), p)
    ensures |p| == |m.files| && forall i :: 0 <= i < |p| ==> m.files[i] == EntryOf(hash, p[i])
  {
    hide Valid, NormalizedFiles, Ordered, EntryOf, SnapshotsOf;
    p :| Ordered(PathBefore, NormalizedFiles(x.files), p) && m.files == Map(f => EntryOf(hash, f), p);
  }

  lemma EntriesHeld(x: Input, hash: Bytes -> string, p: seq<File>, q: seq<Entry>)
    requires Valid(x) && (forall f :: f in p <==> f in NormalizedFiles(x.files))
    requires |p| == |q| && (forall i :: 0 <= i < |p| ==> q[i] == EntryOf(hash, p[i]))
    ensures forall e :: e in q ==> e.path in ContentsOf(x) && e.hash == hash(ContentsOf(x)[e.path]) && e.size == |ContentsOf(x)[e.path]|
  {
    hide *;
    forall e | e in q ensures e.path in ContentsOf(x) && e.hash == hash(ContentsOf(x)[e.path]) && e.size == |ContentsOf(x)[e.path]| {
      EntryHolds(x, hash, p, q, e);
    }
  }

  lemma PathsListed(x: Input, hash: Bytes -> string, p: seq<File>, q: seq<Entry>)
    requires Valid(x) && (forall f :: f in p <==> f in NormalizedFiles(x.files))
    requires |p| == |q| && (forall i :: 0 <= i < |p| ==> q[i] == EntryOf(hash, p[i]))
    ensures forall path :: path in ContentsOf(x) ==> exists i :: 0 <= i < |q| && q[i].path == path
  {
    hide *;
    forall path | path in ContentsOf(x) ensures exists i :: 0 <= i < |q| && q[i].path == path {
      PathListed(x, hash, p, q, path);
    }
  }

  lemma FilesListed(x: Input, hash: Bytes -> string, p: seq<File>, m: Manifest)
    requires Valid(x) && Ordered(PathBefore, NormalizedFiles(x.files), p)
    requires |p| == |m.files| && forall i :: 0 <= i < |p| ==> m.files[i] == EntryOf(hash, p[i])
    ensures EachListed(x, hash, m)
  {
    SortedPaths(p, m.files, x, hash);
    SameAsMultisets(p, NormalizedFiles(x.files));
    EntriesHeld(x, hash, p, m.files);
    PathsListed(x, hash, p, m.files);
  }

  lemma SortedPaths(p: seq<File>, q: seq<Entry>, x: Input, hash: Bytes -> string)
    requires |p| == |q| && forall i :: 0 <= i < |p| ==> q[i] == EntryOf(hash, p[i])
    ensures SortedBy(PathBefore, p) ==> forall i, j :: 0 <= i < j < |q| ==> Less(q[i].path, q[j].path)
  {
    hide Less;
    if SortedBy(PathBefore, p) {
      forall i, j | 0 <= i < j < |q| ensures Less(q[i].path, q[j].path) {
        assert PathBefore(p[i], p[j]);
      }
    }
  }

  ghost predicate Injective<A(!new), B>(f: A -> B) { forall a, b :: f(a) == f(b) ==> a == b }

  lemma NormalizedPaths(files: seq<File>)
    requires GoodFiles(files)
    ensures var r := NormalizedFiles(files);
      && (forall i :: 0 <= i < |r| ==> Safe(files[i].path) == Some(r[i].path) && r[i].content == files[i].content)
      && (forall i, j :: 0 <= i < j < |r| ==> r[i].path != r[j].path)
  {
    hide Safe;
    var r := NormalizedFiles(files);
    forall i | 0 <= i < |r| ensures Safe(files[i].path) == Some(r[i].path) && r[i].content == files[i].content {
      assert GoodFile(files[i]);
    }
  }

  lemma HeldListed(x: Input, f: File)
    requires Valid(x) && Holds(x, f.path, f.content)
    ensures f in NormalizedFiles(x.files)
  {
    NormalizedPaths(x.files);
    ContentsKnown(x);
    hide Safe, NormalizedFiles, Normalized, Valid, ContentsOf;
    var r := NormalizedFiles(x.files);
    var i :| 0 <= i < |x.files| && Safe(x.files[i].path).value == f.path;
    assert r[i].path == f.path && r[i].content == f.content;
    assert r[i] == f;
  }

  lemma ListedHeld(x: Input, f: File)
    requires Valid(x) && f in NormalizedFiles(x.files)
    ensures Holds(x, f.path, f.content)
  {
    NormalizedPaths(x.files);
    ContentsKnown(x);
    hide Safe, NormalizedFiles, Normalized, BlankText, GoodFiles, GoodFile, Holds;
    var i :| 0 <= i < |x.files| && NormalizedFiles(x.files)[i] == f;
    assert Holds(x, Safe(x.files[i].path).value, x.files[i].content);
  }

  lemma PathsDistinct(x: Input)
    requires Valid(x)
    ensures var r := NormalizedFiles(x.files); forall i, j :: 0 <= i < j < |r| ==> r[i].path != r[j].path
    ensures forall f :: f in NormalizedFiles(x.files) <==> f.path in ContentsOf(x) && ContentsOf(x)[f.path] == f.content
  {
    hide Safe, NormalizedFiles, Normalized, BlankText, ContentsOf;
    NormalizedPaths(x.files);
    forall f ensures f in NormalizedFiles(x.files) <==> Holds(x, f.path, f.content) {
      if Holds(x, f.path, f.content) { HeldListed(x, f); }
      if f in NormalizedFiles(x.files) { ListedHeld(x, f); }
    }
  }

  ghost predicate Holds(x: Input, path: string, content: Bytes)
    requires Valid(x)
  {
    path in ContentsOf(x) && ContentsOf(x)[path] == content
  }

  lemma ContentsKnown(x: Input)
    requires Valid(x)
    ensures forall i :: 0 <= i < |x.files| ==> Safe(x.files[i].path).Some? && Holds(x, Safe(x.files[i].path).value, x.files[i].content)
    ensures forall p :: p in ContentsOf(x) ==> exists i :: 0 <= i < |x.files| && Safe(x.files[i].path).value == p
  {
    hide Safe, BlankText;
    assert forall i :: 0 <= i < |x.files| ==> GoodFile(x.files[i]);
  }

  lemma BeforeIsStrict(q: seq<File>)
    ensures AsymmetricOn(PathBefore, q)
  {
    hide Less;
    forall i, j | 0 <= i < |q| && 0 <= j < |q| ensures !(PathBefore(q[i], q[j]) && PathBefore(q[j], q[i])) {
      if PathBefore(q[i], q[j]) && PathBefore(q[j], q[i]) {
        LessTransitive(q[i].path, q[j].path, q[i].path);
        LessIrreflexive(q[i].path);
      }
    }
  }

  /** Two inputs with the same contents have the same files, up to order. */
  lemma SameFiles(x: Input, y: Input)
    requires Valid(x) && Valid(y) && ContentsOf(x) == ContentsOf(y)
    ensures multiset(NormalizedFiles(x.files)) == multiset(NormalizedFiles(y.files))
  {
    hide ContentsOf, Safe;
    PathsDistinct(x);
    PathsDistinct(y);
    SameElements(NormalizedFiles(x.files), NormalizedFiles(y.files));
  }

  /** The order in which the files are given does not matter, nor does anything but their contents. */
  lemma SameContentsSameManifest(x: Input, y: Input, hash: Bytes -> string, normalize: string -> Option<string>, m: Manifest, n: Manifest)
    requires Valid(x) && Valid(y) && ContentsOf(x) == ContentsOf(y) && SnapshotsOf(x, normalize) == SnapshotsOf(y, normalize)
    requires Describes(x, hash, normalize, m) && Describes(y, hash, normalize, n)
    ensures m == n
  {
    hide SnapshotsOf, ContentsOf, PathBefore, NormalizedFiles, Valid, GoodFiles, EntryOf, Map;
    SameFiles(x, y);
    var p :| Ordered(PathBefore, NormalizedFiles(x.files), p) && m.files == Map(f => EntryOf(hash, f), p);
    var q :| Ordered(PathBefore, NormalizedFiles(y.files), q) && n.files == Map(f => EntryOf(hash, f), q);
    BeforeIsStrict(p);
    SortedUnique(PathBefore, p, q);
  }

  /** With a hash that tells contents apart, equal manifests come from equal contents and equal snapshots. */
  lemma SameManifestSameContents(x: Input, y: Input, hash: Bytes -> string, normalize: string -> Option<string>, m: Manifest)
    requires Valid(x) && Valid(y) && Injective(hash)
    requires Describes(x, hash, normalize, m) && Describes(y, hash, normalize, m)
    ensures ContentsOf(x) == ContentsOf(y) && SnapshotsOf(x, normalize) == SnapshotsOf(y, normalize)
  {
    hide SnapshotsOf, ContentsOf, PathBefore, NormalizedFiles, Valid, GoodFiles, Map, Less;
    var p :| Ordered(PathBefore, NormalizedFiles(x.files), p) && m.files == Map(f => EntryOf(hash, f), p);
    var q :| Ordered(PathBefore, NormalizedFiles(y.files), q) && m.files == Map(f => EntryOf(hash, f), q);
    forall i | 0 <= i < |p| ensures p[i] == q[i] {
      assert EntryOf(hash, p[i]) == m.files[i] == EntryOf(hash, q[i]);
    }
    assert p == q;
    SamePermutation(NormalizedFiles(x.files), NormalizedFiles(y.files), p);
    SameElementsSameContents(x, y);
  }

  lemma SnapshotsEqualIff(x: Input, y: Input, hash: Bytes -> string, normalize: string -> Option<string>, m: Manifest, n: Manifest)
    requires Valid(x) && Valid(y) && Describes(x, hash, normalize, m) && Describes(y, hash, normalize, n)
    ensures SnapshotsOf(x, normalize) == SnapshotsOf(y, normalize) <==>
      && normalize(x.lockJSON) == normalize(y.lockJSON) && normalize(x.content) == normalize(y.content)
      && normalize(x.quest) == normalize(y.quest) && normalize(x.config) == normalize(y.config)
  {
    hide Valid;
  }

  /** With such a hash, manifests are equal exactly when contents and normalised snapshots are. */
  lemma ManifestsEqualIff(x: Input, y: Input, hash: Bytes -> string, normalize: string -> Option<string>, m: Manifest, n: Manifest)
    requires Valid(x) && Valid(y) && Injective(hash)
    requires Describes(x, hash, normalize, m) && Describes(y, hash, normalize, n)
    ensures m == n <==> ContentsOf(x) == ContentsOf(y) && SnapshotsOf(x, normalize) == SnapshotsOf(y, normalize)
    ensures m == n <==>
      && ContentsOf(x) == ContentsOf(y)
      && normalize(x.lockJSON) == normalize(y.lockJSON) && normalize(x.content) == normalize(y.content)
      && normalize(x.quest) == normalize(y.quest) && normalize(x.config) == normalize(y.config)
  {
    SnapshotsEqualIff(x, y, hash, normalize, m, n);
    hide *;
    if m == n {
      SameManifestSameContents(x, y, hash, normalize, m);
    }
    if ContentsOf(x) == ContentsOf(y) && SnapshotsOf(x, normalize) == SnapshotsOf(y, normalize) {
      SameContentsSameManifest(x, y, hash, normalize, m, n);
    }
  }

  lemma SamePermutation(a: seq<File>, b: seq<File>, p: seq<File>)
    requires Ordered(PathBefore, a, p) && Ordered(PathBefore, b, p)
    ensures forall f :: f in a <==> f in b
  {
    forall f ensures f in a <==> f in b {
      assert f in a <==> f in multiset(p);
      assert f in b <==> f in multiset(p);
    }
  }

  lemma SameElementsSameContents(x: Input, y: Input)
    requires Valid(x) && Valid(y) && forall f :: f in NormalizedFiles(x.files) <==> f in NormalizedFiles(y.files)
    ensures ContentsOf(x) == ContentsOf(y)
  {
    hide ContentsOf, NormalizedFiles, GoodFiles, BlankText;
    PathsDistinct(x);
    PathsDistinct(y);
    forall k | k in ContentsOf(x) ensures k in ContentsOf(y) && ContentsOf(x)[k] == ContentsOf(y)[k] {
      assert File(k, ContentsOf(x)[k]) in NormalizedFiles(x.files);
    }
    forall k | k in ContentsOf(y) ensures k in ContentsOf(x) {
      assert File(k, ContentsOf(y)[k]) in NormalizedFiles(y.files);
    }
  }
}
