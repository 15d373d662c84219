/**
 * The listfile mechanism: installing a staged package tree into
 * `installed/<triplet>/` while recording one line per walked directory or regular file in
 * `vcpkg/info/<name>_<triplet>.list`, and removing a package by consuming
 * that list.
 *
 * The staged tree is the sequence of entries the recursive directory walk
 * yields, in walk order. Per-entry filesystem failures are flags on the
 * entries (install) or a set of paths whose status cannot be queried
 * (removal).
 */
module Listfile {
  import opened Wrappers
  import opened Records
  import opened FileSystem

  // ---------------------------------------------------------------------
  // listfile_path and get_fullpkgname_from_listfile
  // ---------------------------------------------------------------------

  /** listfile_path: `vcpkg/info/<fullstem>.list`. */
  function ListfilePath(spec: PackageSpec): Path {
    INFO_DIR + "/" + FullStem(spec) + ".list"
  }

  /** The last component of a path (empty after a trailing separator). */
  function FileName(p: string): string
    decreases |p|
  {
    if p == [] || p[|p| - 1] == '/' then []
    else FileName(p[..|p| - 1]) + [p[|p| - 1]]
  }

  /** The file name is the part of the path after its last separator. */
  lemma {:induction false} FileNameIsLastComponent(p: string)
    ensures '/' !in FileName(p)
    ensures |FileName(p)| <= |p| && FileName(p) == p[|p| - |FileName(p)|..]
    ensures |FileName(p)| < |p| ==> p[|p| - |FileName(p)| - 1] == '/'
    decreases |p|
  {
    if p != [] && p[|p| - 1] != '/' {
      var init := p[..|p| - 1];
      FileNameIsLastComponent(init);
      var r := FileName(p);
      assert r == FileName(init) + [p[|p| - 1]];
      assert init[|init| - |FileName(init)|..] + [p[|p| - 1]] == p[|p| - |r|..];
    }
  }

  /** The position of the last '.', if any. */
  function LastDot(f: string): (r: Option<nat>)
    ensures r.Some? ==> r.value < |f| && f[r.value] == '.'
    ensures r.Some? ==> forall j :: r.value < j < |f| ==> f[j] != '.'
    ensures r.None? ==> '.' !in f
    decreases |f|
  {
    if f == [] then None
    else if f[|f| - 1] == '.' then Some(|f| - 1)
    else LastDot(f[..|f| - 1])
  }

  /**
   * path::stem of a file name: the name without its last extension. A
   * leading dot does not start an extension, and "." and ".." are kept.
   */
  function Stem(f: string): (r: string)
    ensures |r| <= |f| && r == f[..|r|]
    ensures f != "." && f != ".." && |r| < |f| ==> f[|r|] == '.' && 0 < |r| && '.' !in f[|r| + 1..]
  {
    if f == "." || f == ".." then f
    else match LastDot(f)
      case None => f
      case Some(i) => if i > 0 then f[..i] else f
  }

  /** std::replace(…, '_', ':'). */
  function UnderscoresToColons(s: string): (r: string)
    ensures |r| == |s|
    ensures forall i :: 0 <= i < |s| ==> r[i] == (if s[i] == '_' then ':' else s[i])
  {
    seq(|s|, i requires 0 <= i < |s| => if s[i] == '_' then ':' else s[i])
  }

  /** get_fullpkgname_from_listfile. */
  function FullPkgNameFromListfile(path: Path): string {
    UnderscoresToColons(Stem(FileName(path)))
  }

  lemma {:induction false} FileNameAfterSlash(dir: string, x: string)
    requires '/' !in x
    ensures FileName(dir + "/" + x) == x
    decreases |x|
  {
    if x == [] {
      assert dir + "/" + x == dir + "/";
    } else {
      var p := dir + "/" + x;
      assert p[..|p| - 1] == dir + "/" + x[..|x| - 1];
      FileNameAfterSlash(dir, x[..|x| - 1]);
    }
  }

  /**
   * The listfile name gives back the package's display name, for names and
   * triplets without '_' (which the conversion cannot tell from the
   * separator) and without '/'.
   */
  lemma ListfileNameRoundTrip(spec: PackageSpec)
    requires '_' !in spec.name && '_' !in spec.triplet
    requires '/' !in spec.name && '/' !in spec.triplet
    ensures FullPkgNameFromListfile(ListfilePath(spec)) == DisplayName(spec)
  {
    var stem := FullStem(spec);
    var f := stem + ".list";
    assert ListfilePath(spec) == INFO_DIR + "/" + f;
    assert '/' !in f by {
      assert f == spec.name + "_" + spec.triplet + ".list";
    }
    FileNameAfterSlash(INFO_DIR, f);
    StemDropsExtension(stem, ".list");
    ColonsAppend(spec.name, "_");
    ColonsAppend(spec.name + "_", spec.triplet);
    NoUnderscoreUnchanged(spec.name);
    NoUnderscoreUnchanged(spec.triplet);
    assert UnderscoresToColons("_") == ":";
  }

  lemma ColonsAppend(a: string, b: string)
    ensures UnderscoresToColons(a + b) == UnderscoresToColons(a) + UnderscoresToColons(b)
  {
    var l, r := UnderscoresToColons(a + b), UnderscoresToColons(a) + UnderscoresToColons(b);
    assert |l| == |r|;
    forall i | 0 <= i < |l| ensures l[i] == r[i] {
      if i < |a| {
        assert (a + b)[i] == a[i];
      } else {
        assert (a + b)[i] == b[i - |a|];
      }
    }
  }

  lemma NoUnderscoreUnchanged(a: string)
    requires '_' !in a
    ensures UnderscoresToColons(a) == a
  {
    assert forall i :: 0 <= i < |a| ==> a[i] != '_';
  }

  /** The stem of `x.ext` is `x`, for a non-empty `x` and an extension with a single leading dot. */
  lemma {:induction false} StemDropsExtension(x: string, ext: string)
    requires x != [] && |ext| > 1 && ext[0] == '.' && '.' !in ext[1..]
    ensures Stem(x + ext) == x
  {
    var f := x + ext;
    assert f != "." && f != "..";
    LastDotSuffix(x, ext);
  }

  lemma {:induction false} LastDotSuffix(x: string, ext: string)
    requires ext != [] && ext[0] == '.' && '.' !in ext[1..]
    ensures LastDot(x + ext) == Some(|x|)
    decreases |ext|
  {
    var f := x + ext;
    if |ext| > 1 {
      assert f[..|f| - 1] == x + ext[..|ext| - 1];
      assert ext[..|ext| - 1][1..] == ext[1..|ext| - 1];
      assert ext[|ext| - 1] in ext[1..];
      LastDotSuffix(x, ext[..|ext| - 1]);
    }
  }

  /** The listfile lies in the info directory, apart from the journal and the payload. */
  lemma ListfileDisjoint(spec: PackageSpec, n: string, rel: string)
    ensures ListfilePath(spec) != UpdatePath(n) && ListfilePath(spec) != InstalledPath(rel)
    ensures !IsRotated(ListfilePath(spec))
    ensures ListfilePath(spec) != INSTALLED_DIR && ListfilePath(spec) != VCPKG_DIR
    ensures ListfilePath(spec) != INFO_DIR && ListfilePath(spec) != UPDATES_DIR
  {
    var p := ListfilePath(spec);
    var x := FullStem(spec) + ".list";
    assert p == "vcpkg/info/" + x;
    PrefixesDiffer("vcpkg/info/", "vcpkg/updates/", x, n, 6);
    PrefixesDiffer("vcpkg/info/", "installed/", x, rel, 0);
    PrefixesDiffer("vcpkg/info/", "vcpkg/status", x, "", 6);
    PrefixesDiffer("vcpkg/info/", "vcpkg/status-old", x, "", 6);
    PrefixesDiffer("vcpkg/info/", "vcpkg/status-new", x, "", 6);
    PrefixesDiffer("vcpkg/info/", "installed", x, "", 0);
    PrefixesDiffer("vcpkg/info/", "vcpkg/updates", x, "", 6);
    assert |p| > |INFO_DIR| && |p| > |VCPKG_DIR|;
  }

  // ---------------------------------------------------------------------
  // install_and_write_listfile
  // ---------------------------------------------------------------------

  datatype EntryKind = StagedDir | StagedFile(content: Content) | StagedOther

  /**
   * One entry of the staged package tree: its path relative to the package
   * directory, its type, and which of the filesystem calls on it fail:
   * `statusThrows`, the status query of the control-file test, which has no
   * error code and throws out of the walk; `statusFails`, the later status
   * query with an error code, which only skips the entry; `copyFails`, the
   * creation or copy of its target.
   */
  datatype StagedEntry = StagedEntry(suffix: string, kind: EntryKind, statusThrows: bool, statusFails: bool, copyFails: bool)

  /** How many entries the walk handles before a status query throws: the position of the first such entry, or all. */
  function WalkLength(es: seq<StagedEntry>): (n: nat)
    ensures n <= |es|
    ensures forall j :: 0 <= j < n ==> !es[j].statusThrows
    ensures n < |es| ==> es[n].statusThrows
    decreases |es|
  {
    if es == [] || es[0].statusThrows then 0 else 1 + WalkLength(es[1..])
  }

  /** The walk stops with an exception. */
  predicate WalkAborts(es: seq<StagedEntry>) {
    WalkLength(es) < |es|
  }

  /** The entries the walk handles. */
  function Walked(es: seq<StagedEntry>): seq<StagedEntry> {
    es[..WalkLength(es)]
  }

  /** The two spellings of the package control file's name. */
  predicate IsControlName(f: string) {
    f == "CONTROL" || f == "control"
  }

  /** A regular file named CONTROL or control, at any depth. */
  predicate IsControlFile(e: StagedEntry) {
    e.kind.StagedFile? && IsControlName(FileName(e.suffix))
  }

  /** An entry that gets a listfile line: a directory or regular file, not a control file, whose status is known. */
  predicate Listed(e: StagedEntry) {
    !IsControlFile(e) && !e.statusFails && (e.kind.StagedDir? || e.kind.StagedFile?)
  }

  /** The listfile line of an entry: `<triplet>/<suffix>`. */
  function ListLine(t: Triplet, e: StagedEntry): string {
    t + "/" + e.suffix
  }

  /** Where an entry is installed: `installed/<triplet>/<suffix>`. */
  function InstalledTarget(t: Triplet, e: StagedEntry): Path {
    InstalledPath(ListLine(t, e))
  }

  /** The lines written for the walked entries, in walk order. */
  function ListedLines(t: Triplet, es: seq<StagedEntry>): (r: seq<string>)
    ensures |r| <= |es|
    decreases |es|
  {
    if es == [] then []
    else
      var e := es[|es| - 1];
      ListedLines(t, es[..|es| - 1]) + (if Listed(e) then [ListLine(t, e)] else [])
  }

  /** The listfile names exactly the listed entries. */
  lemma {:induction false} ListedLinesMembers(t: Triplet, es: seq<StagedEntry>)
    ensures forall line :: line in ListedLines(t, es) <==>
      exists i :: 0 <= i < |es| && Listed(es[i]) && line == ListLine(t, es[i])
    decreases |es|
  {
    if es != [] {
      var init := es[..|es| - 1];
      var e := es[|es| - 1];
      ListedLinesMembers(t, init);
      var last := if Listed(e) then [ListLine(t, e)] else [];
      assert ListedLines(t, es) == ListedLines(t, init) + last;
      forall line ensures line in ListedLines(t, es) <==>
        exists i :: 0 <= i < |es| && Listed(es[i]) && line == ListLine(t, es[i])
      {
        if line in ListedLines(t, init) {
          var i :| 0 <= i < |init| && Listed(init[i]) && line == ListLine(t, init[i]);
          assert es[i] == init[i];
        } else if line in last {
          assert Listed(es[|es| - 1]) && line == ListLine(t, es[|es| - 1]);
        } else {
          assert line !in ListedLines(t, es);
          forall i | 0 <= i < |es| && Listed(es[i]) ensures line != ListLine(t, es[i]) {
            if i < |init| {
              assert init[i] == es[i];
            }
          }
        }
      }
    }
  }

  /** The walk's lines compose: the lines of a longer walk extend those of its prefix. */
  lemma {:induction false} ListedLinesAppend(t: Triplet, a: seq<StagedEntry>, b: seq<StagedEntry>)
    ensures ListedLines(t, a + b) == ListedLines(t, a) + ListedLines(t, b)
    decreases |b|
  {
    if b == [] {
      assert a + b == a;
    } else {
      assert (a + b)[..|a + b| - 1] == a + b[..|b| - 1];
      ListedLinesAppend(t, a, b[..|b| - 1]);
    }
  }

  /** Installs one walked entry: a directory is created, a file copied, unless it exists or the operation fails. */
  function CopyEntry(s: Store, t: Triplet, e: StagedEntry): (r: Store)
    ensures forall k :: k in s ==> k in r && r[k] == s[k]
    ensures forall k :: k in r && k !in s ==> Listed(e) && k == InstalledTarget(t, e)
    ensures Listed(e) && !e.copyFails ==> InstalledTarget(t, e) in r
    ensures Listed(e) && !e.copyFails && e.kind.StagedFile? && InstalledTarget(t, e) !in s ==>
      r[InstalledTarget(t, e)] == File(e.kind.content)
  {
    var target := InstalledTarget(t, e);
    if !Listed(e) || e.copyFails || target in s then s
    else if e.kind.StagedDir? then CreateDirectory(s, target)
    else s[target := File(e.kind.content)]
  }

  /** The copying part of the walk, entry by entry in walk order. */
  function CopyEntries(s: Store, t: Triplet, es: seq<StagedEntry>): Store
    decreases |es|
  {
    if es == [] then s
    else CopyEntry(CopyEntries(s, t, es[..|es| - 1]), t, es[|es| - 1])
  }

  /**
   * The walk keeps every existing entry as it was, adds only targets of
   * listed entries, and installs every listed entry whose copy did not fail.
   */
  lemma {:induction false} CopyEntriesFacts(s: Store, t: Triplet, es: seq<StagedEntry>)
    ensures forall k :: k in s ==> k in CopyEntries(s, t, es) && CopyEntries(s, t, es)[k] == s[k]
    ensures forall k :: k in CopyEntries(s, t, es) && k !in s ==>
      exists i :: 0 <= i < |es| && Listed(es[i]) && k == InstalledTarget(t, es[i])
    ensures forall i :: 0 <= i < |es| && Listed(es[i]) && !es[i].copyFails ==>
      InstalledTarget(t, es[i]) in CopyEntries(s, t, es)
    decreases |es|
  {
    if es != [] {
      var init := es[..|es| - 1];
      var e := es[|es| - 1];
      var prev := CopyEntries(s, t, init);
      var r := CopyEntries(s, t, es);
      CopyEntriesFacts(s, t, init);
      assert r == CopyEntry(prev, t, e);
      forall k | k in r && k !in s
        ensures exists i :: 0 <= i < |es| && Listed(es[i]) && k == InstalledTarget(t, es[i])
      {
        if k in prev {
          var i :| 0 <= i < |init| && Listed(init[i]) && k == InstalledTarget(t, init[i]);
          assert es[i] == init[i];
        } else {
          assert Listed(es[|es| - 1]) && k == InstalledTarget(t, es[|es| - 1]);
        }
      }
      forall i | 0 <= i < |es| && Listed(es[i]) && !es[i].copyFails
        ensures InstalledTarget(t, es[i]) in r
      {
        if i < |init| {
          assert es[i] == init[i];
        }
      }
    }
  }

  /** The complete listfile: the triplet, then one line per listed entry. */
  function ListfileLines(t: Triplet, es: seq<StagedEntry>): seq<string> {
    [t] + ListedLines(t, es)
  }

  /**
   * install_and_write_listfile as a function of the store: the listfile is
   * created empty, the triplet directory is created, the entries are
   * installed until a status query throws, and the listfile ends up holding
   * the lines written until then (the stream is flushed as it is destroyed).
   */
  function InstallFiles(s: Store, spec: PackageSpec, es: seq<StagedEntry>): (r: Store)
    ensures IsFile(r, ListfilePath(spec))
  {
    var lf := ListfilePath(spec);
    var s1 := s[lf := File(Text([]))];
    var s2 := CreateDirectory(s1, InstalledPath(spec.triplet));
    var w := Walked(es);
    CopyEntries(s2, spec.triplet, w)[lf := File(Text(ListfileLines(spec.triplet, w)))]
  }

  /**
   * What an install leaves: the listfile starts with the triplet and lists
   * exactly the listed entries; nothing that existed is changed apart from
   * the listfile; every new entry is the triplet directory or the target of
   * a listed entry; a listed entry whose copy did not fail is installed.
   */
  lemma InstallOutcome(s: Store, spec: PackageSpec, es: seq<StagedEntry>)
    ensures var r, w := InstallFiles(s, spec, es), Walked(es);
      && IsFile(r, ListfilePath(spec))
      && ReadLines(r[ListfilePath(spec)].content) == ListfileLines(spec.triplet, w)
      && ReadLines(r[ListfilePath(spec)].content)[0] == spec.triplet
      && (forall k :: k in s && k != ListfilePath(spec) ==> k in r && r[k] == s[k])
      && (forall k :: k in r && k !in s && k != ListfilePath(spec) ==>
            k == InstalledPath(spec.triplet) ||
            exists i :: 0 <= i < |w| && Listed(w[i]) && k == InstalledTarget(spec.triplet, w[i]))
      && InstalledPath(spec.triplet) in r
      && (InstalledPath(spec.triplet) !in s ==> r[InstalledPath(spec.triplet)] == Dir)
      && (forall i :: 0 <= i < |w| && Listed(w[i]) && !w[i].copyFails ==> InstalledTarget(spec.triplet, w[i]) in r)
  {
    var lf := ListfilePath(spec);
    ListfileDisjoint(spec, "", spec.triplet);
    CopyEntriesFacts(CreateDirectory(s[lf := File(Text([]))], InstalledPath(spec.triplet)), spec.triplet, Walked(es));
  }

  /** The walk handles every entry before the first whose status query throws, and stops there. */
  lemma WalkedPrefix(es: seq<StagedEntry>)
    ensures |Walked(es)| == WalkLength(es)
    ensures forall i :: 0 <= i < |Walked(es)| ==> Walked(es)[i] == es[i] && !es[i].statusThrows
    ensures WalkAborts(es) <==> exists i :: 0 <= i < |es| && es[i].statusThrows
  {
    if exists i :: 0 <= i < |es| && es[i].statusThrows {
      var i :| 0 <= i < |es| && es[i].statusThrows;
      assert WalkLength(es) <= i;
    }
  }

  // ---------------------------------------------------------------------
  // The removal half of deinstall_package
  // ---------------------------------------------------------------------

  /** A trailing carriage return is dropped from a line. */
  function StripCR(line: string): (r: string)
    ensures line != [] && line[|line| - 1] == '\r' ==> r + ['\r'] == line
    ensures line == [] || line[|line| - 1] != '\r' ==> r == line
  {
    if line != [] && line[|line| - 1] == '\r' then line[..|line| - 1] else line
  }

  /** The path a listfile line names: `installed/<line>`. */
  function Target(line: string): Path {
    InstalledPath(StripCR(line))
  }

  /** The targets of the lines, in line order. */
  function LineTargets(lines: seq<string>): (r: seq<Path>)
    ensures |r| == |lines| && forall i :: 0 <= i < |lines| ==> r[i] == Target(lines[i])
  {
    seq(|lines|, i requires 0 <= i < |lines| => Target(lines[i]))
  }

  /** No path comes before a path it lies below: directories precede their contents. */
  ghost predicate ParentsFirst(ps: seq<Path>) {
    forall i, j :: 0 <= i < j < |ps| ==> !Under(ps[j], ps[i])
  }

  /**
   * The first pass over the listfile: each regular file is removed at once,
   * each directory is remembered for later, anything else is skipped, as is
   * a target whose status cannot be queried.
   */
  function RemoveListed(s: Store, lines: seq<string>, broken: set<Path>): (r: (Store, seq<Path>))
    ensures forall k :: k in r.0 ==> k in s && r.0[k] == s[k]
    ensures forall k :: k in s ==> (k !in r.0 <==> k in LineTargets(lines) && IsFile(s, k) && k !in broken)
    ensures forall d :: d in r.1 <==> d in LineTargets(lines) && IsDirectory(s, d) && d !in broken
    decreases |lines|
  {
    if lines == [] then (s, [])
    else
      var (t, ds) := RemoveListed(s, lines[..|lines| - 1], broken);
      var target := Target(lines[|lines| - 1]);
      LineTargetsSnoc(lines);
      if target in broken then (t, ds)
      else if IsDirectory(t, target) then (t, ds + [target])
      else if IsFile(t, target) then (t - {target}, ds)
      else (t, ds)
  }

  /** The directories are remembered in line order, so directories listed first stay first. */
  lemma {:induction false} RemoveListedParentsFirst(s: Store, lines: seq<string>, broken: set<Path>)
    requires ParentsFirst(LineTargets(lines))
    ensures ParentsFirst(RemoveListed(s, lines, broken).1)
    decreases |lines|
  {
    if lines != [] {
      var init := lines[..|lines| - 1];
      var ds := RemoveListed(s, init, broken).1;
      var target := Target(lines[|lines| - 1]);
      LineTargetsSnoc(lines);
      ParentsFirstPrefix(LineTargets(lines), LineTargets(init));
      RemoveListedParentsFirst(s, init, broken);
      var r := RemoveListed(s, lines, broken).1;
      if r != ds {
        assert r == ds + [target];
        LastNotBelowEarlier(LineTargets(lines), ds);
        ParentsFirstSnoc(ds, target);
      }
    }
  }

  /** In a parents-first list, the last path lies below none of the paths before it. */
  lemma LastNotBelowEarlier(ps: seq<Path>, ds: seq<Path>)
    requires ps != [] && ParentsFirst(ps)
    requires forall d :: d in ds ==> d in ps[..|ps| - 1]
    ensures forall i :: 0 <= i < |ds| ==> !Under(ps[|ps| - 1], ds[i])
  {
    forall i | 0 <= i < |ds| ensures !Under(ps[|ps| - 1], ds[i]) {
      var earlier := ps[..|ps| - 1];
      assert ds[i] in ds;
      var j :| 0 <= j < |earlier| && earlier[j] == ds[i];
      assert ps[j] == ds[i];
    }
  }

  /** A path below none of the earlier ones can follow them. */
  lemma ParentsFirstSnoc(ds: seq<Path>, x: Path)
    requires ParentsFirst(ds)
    requires forall i :: 0 <= i < |ds| ==> !Under(x, ds[i])
    ensures ParentsFirst(ds + [x])
  {
  }

  lemma LineTargetsSnoc(lines: seq<string>)
    requires lines != []
    ensures LineTargets(lines) == LineTargets(lines[..|lines| - 1]) + [Target(lines[|lines| - 1])]
  {
    var a := LineTargets(lines);
    var b := LineTargets(lines[..|lines| - 1]) + [Target(lines[|lines| - 1])];
    assert |a| == |b|;
    forall i | 0 <= i < |a| ensures a[i] == b[i] {
      if i < |lines| - 1 {
        assert lines[..|lines| - 1][i] == lines[i];
      }
    }
  }

  lemma ParentsFirstPrefix(ps: seq<Path>, qs: seq<Path>)
    requires |qs| <= |ps| && forall i :: 0 <= i < |qs| ==> qs[i] == ps[i]
    ensures ParentsFirst(ps) ==> ParentsFirst(qs)
  {
  }

  /** One step of the second pass: the directory is removed when nothing lies below it. */
  function RemoveIfEmpty(s: Store, d: Path): (r: Store)
    ensures forall k :: k in r ==> k in s && r[k] == s[k]
    ensures forall k :: k in s && k != d ==> k in r
    ensures d in r <==> d in s && !IsEmptyDirectory(s, d)
  {
    if IsEmptyDirectory(s, d) then s - {d} else s
  }

  /**
   * The second pass: the remembered directories, last to first, each removed
   * only when it is empty at that moment.
   */
  function RemoveEmptyDirs(s: Store, dirs: seq<Path>): (r: Store)
    ensures forall k :: k in r ==> k in s && r[k] == s[k]
    ensures forall k :: k in s && k !in r ==> k in dirs && IsDirectory(s, k)
    decreases |dirs|
  {
    if dirs == [] then s
    else
      var init := dirs[..|dirs| - 1];
      var t := RemoveIfEmpty(s, dirs[|dirs| - 1]);
      assert forall k :: k in init ==> k in dirs;
      RemoveEmptyDirs(t, init)
  }

  /** A directory is removed only after everything below it is gone. */
  lemma {:induction false} RemoveEmptyDirsNoOrphans(s: Store, dirs: seq<Path>)
    ensures var r := RemoveEmptyDirs(s, dirs);
      forall d, k :: d in s && d !in r && Under(d, k) ==> k !in r
    decreases |dirs|
  {
    if dirs != [] {
      var init := dirs[..|dirs| - 1];
      var last := dirs[|dirs| - 1];
      var t := RemoveIfEmpty(s, last);
      RemoveEmptyDirsNoOrphans(t, init);
    }
  }

  /**
   * Walking the directories in reverse leaves no listed directory empty when
   * directories are listed before their contents.
   */
  lemma {:induction false} RemoveEmptyDirsComplete(s: Store, dirs: seq<Path>)
    requires ParentsFirst(dirs)
    ensures var r := RemoveEmptyDirs(s, dirs);
      forall i :: 0 <= i < |dirs| && IsDirectory(s, dirs[i]) ==> !IsEmptyDirectory(r, dirs[i]) || dirs[i] !in r
    decreases |dirs|
  {
    if dirs != [] {
      var init := dirs[..|dirs| - 1];
      var last := dirs[|dirs| - 1];
      var t := RemoveIfEmpty(s, last);
      var r := RemoveEmptyDirs(t, init);
      assert ParentsFirst(init);
      RemoveEmptyDirsComplete(t, init);
      forall i | 0 <= i < |dirs| && IsDirectory(s, dirs[i]) && dirs[i] in r
        ensures !IsEmptyDirectory(r, dirs[i])
      {
        var d := dirs[i];
        if i < |init| && IsDirectory(t, d) {
          assert init[i] == d;
        } else {
          // The directory was kept at its own step: something lay below it then.
          assert d == last || d !in t;
          assert d in t;
          assert d == last;
          var k :| k in s && Under(last, k);
          assert k in t;
        }
      }
    }
  }

  /**
   * The removal half of deinstall_package: when the listfile can be opened,
   * its targets are removed (files first, then empty directories in reverse
   * order) and the listfile itself is removed; otherwise nothing changes.
   */
  function RemovePackageFiles(s: Store, lf: Path, broken: set<Path>): (r: Store)
    ensures forall k :: k in r ==> k in s && r[k] == s[k]
    ensures IsFile(s, lf) ==> lf !in r
  {
    if IsFile(s, lf) then
      var (t, dirs) := RemoveListed(s, ReadLines(s[lf].content), broken);
      RemoveEmptyDirs(t, dirs) - {lf}
    else s
  }

  /** The lines of the listfile at `lf`, when it can be read. */
  function ListfileContents(s: Store, lf: Path): seq<string> {
    if IsFile(s, lf) then ReadLines(s[lf].content) else []
  }

  /** Everything the listfile names lies in the payload, apart from the listfile itself. */
  lemma TargetsAreNotListfile(spec: PackageSpec, lines: seq<string>)
    ensures ListfilePath(spec) !in LineTargets(lines)
    ensures forall d :: d in LineTargets(lines) ==> !Under(d, ListfilePath(spec))
  {
    forall i | 0 <= i < |lines| ensures Target(lines[i]) != ListfilePath(spec) && !Under(Target(lines[i]), ListfilePath(spec)) {
      ListfileDisjoint(spec, "", StripCR(lines[i]));
      var d := Target(lines[i]);
      var lf := ListfilePath(spec);
      assert d[0] == 'i' && lf[0] == 'v';
    }
  }

  /**
   * What removing a package's files leaves: without a readable listfile
   * nothing changes; otherwise the listfile is gone, so is every listed
   * regular file whose status could be queried, and nothing unlisted is
   * touched.
   */
  lemma RemovalOutcome(s: Store, spec: PackageSpec, broken: set<Path>)
    ensures var lf := ListfilePath(spec);
      var r := RemovePackageFiles(s, lf, broken);
      var lines := ListfileContents(s, lf);
      && (!IsFile(s, lf) ==> r == s)
      && (IsFile(s, lf) ==> lf !in r)
      && (forall k :: k in r ==> k in s && r[k] == s[k])
      && (forall k :: k in s && k != lf && k !in LineTargets(lines) ==> k in r)
      && (forall k :: k in LineTargets(lines) && IsFile(s, k) && k !in broken ==> k !in r)
  {
    var lf := ListfilePath(spec);
    var lines := ListfileContents(s, lf);
    if IsFile(s, lf) {
      var (t, dirs) := RemoveListed(s, lines, broken);
      TargetsAreNotListfile(spec, lines);
    }
  }

  /** After removing a package's files, a directory is gone only with everything below it. */
  lemma RemovalLeavesNoOrphans(s: Store, spec: PackageSpec, broken: set<Path>)
    ensures var r := RemovePackageFiles(s, ListfilePath(spec), broken);
      forall d, k :: IsDirectory(s, d) && d !in r && Under(d, k) ==> k !in r
  {
    var lf := ListfilePath(spec);
    if IsFile(s, lf) {
      var (t, dirs) := RemoveListed(s, ReadLines(s[lf].content), broken);
      var r2 := RemoveEmptyDirs(t, dirs);
      assert RemovePackageFiles(s, lf, broken) == r2 - {lf};
      RemoveEmptyDirsNoOrphans(t, dirs);
    }
  }

  /**
   * When the listfile names directories before their contents, removing a
   * package's files leaves none of its listed directories empty.
   */
  lemma RemovalClearsDirectories(s: Store, spec: PackageSpec, broken: set<Path>)
    requires ParentsFirst(LineTargets(ListfileContents(s, ListfilePath(spec))))
    ensures var lf := ListfilePath(spec);
      var r := RemovePackageFiles(s, lf, broken);
      forall d :: d in LineTargets(ListfileContents(s, lf)) && IsDirectory(s, d) && d !in broken && d in r ==>
        !IsEmptyDirectory(r, d)
  {
    var lf := ListfilePath(spec);
    var lines := ListfileContents(s, lf);
    if IsFile(s, lf) {
      var (t, dirs) := RemoveListed(s, lines, broken);
      var r2 := RemoveEmptyDirs(t, dirs);
      assert RemovePackageFiles(s, lf, broken) == r2 - {lf};
      RemoveListedParentsFirst(s, lines, broken);
      RemoveEmptyDirsComplete(t, dirs);
      TargetsAreNotListfile(spec, lines);
      forall d | d in LineTargets(lines) && IsDirectory(s, d) && d !in broken && d in r2 - {lf}
        ensures !IsEmptyDirectory(r2 - {lf}, d)
      {
        assert d in dirs;
        var i :| 0 <= i < |dirs| && dirs[i] == d;
        assert IsDirectory(t, d);
        NotEmptyWithout(r2, lf, d);
      }
    }
  }

  /** Removing a path that does not lie below a non-empty directory leaves it non-empty. */
  lemma NotEmptyWithout(r: Store, lf: Path, d: Path)
    requires d in r && d != lf && !IsEmptyDirectory(r, d) && IsDirectory(r, d) && !Under(d, lf)
    ensures !IsEmptyDirectory(r - {lf}, d)
  {
    var k :| k in r && Under(d, k);
    assert k in r - {lf};
  }

  // ---------------------------------------------------------------------
  // Installing a package and then removing it
  // ---------------------------------------------------------------------

  /** A line the removal reads back unchanged: it does not end in a carriage return. */
  predicate CRFree(line: string) {
    line == [] || line[|line| - 1] != '\r'
  }

  /**
   * The listfile an install writes names the triplet directory and the
   * target of every listed entry, and nothing else, when none of its lines
   * ends in a carriage return.
   */
  lemma ListfileTargets(t: Triplet, w: seq<StagedEntry>)
    requires forall line :: line in ListfileLines(t, w) ==> CRFree(line)
    ensures forall p :: p in LineTargets(ListfileLines(t, w)) <==>
      p == InstalledPath(t) || exists i :: 0 <= i < |w| && Listed(w[i]) && p == InstalledTarget(t, w[i])
  {
    var lines := ListfileLines(t, w);
    ListedLinesMembers(t, w);
    forall p ensures p in LineTargets(lines) <==>
      p == InstalledPath(t) || exists i :: 0 <= i < |w| && Listed(w[i]) && p == InstalledTarget(t, w[i])
    {
      if p in LineTargets(lines) {
        var j :| 0 <= j < |lines| && LineTargets(lines)[j] == p;
        assert lines[j] in lines;
        if j > 0 {
          assert lines[j] in ListedLines(t, w);
        }
      }
      if p == InstalledPath(t) {
        assert t in lines;
        TargetOfLine(lines, t);
      }
      if exists i :: 0 <= i < |w| && Listed(w[i]) && p == InstalledTarget(t, w[i]) {
        var i :| 0 <= i < |w| && Listed(w[i]) && p == InstalledTarget(t, w[i]);
        var line := ListLine(t, w[i]);
        assert line in ListedLines(t, w);
        assert line in lines;
        TargetOfLine(lines, line);
      }
    }
  }

  /** Every entry's target lies in the triplet directory: it starts with `installed/<triplet>/`. */
  lemma TargetInTriplet(t: Triplet, e: StagedEntry)
    ensures |InstalledTarget(t, e)| > |InstalledPath(t)|
    ensures InstalledTarget(t, e)[..|InstalledPath(t)| + 1] == InstalledPath(t) + "/"
  {
    assert InstalledTarget(t, e) == InstalledPath(t) + "/" + e.suffix;
  }

  /** What lies below the triplet directory, or below a path inside it, lies below the triplet directory. */
  lemma UnderTriplet(tp: Path, k: Path, k2: Path)
    requires k == tp || (|k| > |tp| && k[..|tp| + 1] == tp + "/")
    requires Under(k, k2)
    ensures Under(tp, k2)
  {
    if k != tp {
      assert k2[..|tp| + 1] == (k + "/")[..|tp| + 1];
    }
  }

  /** The longest path of a non-empty set. */
  lemma {:induction false} Longest(ks: set<Path>) returns (m: Path)
    requires ks != {}
    ensures m in ks && forall k :: k in ks ==> |k| <= |m|
    decreases |ks|
  {
    var x :| x in ks;
    if ks == {x} {
      m := x;
    } else {
      var n := Longest(ks - {x});
      m := if |x| < |n| then n else x;
    }
  }

  /** A finite set of paths in which every path has a longer one is empty. */
  lemma NoEndlessAscent(ks: set<Path>)
    requires forall k :: k in ks ==> exists k2 :: k2 in ks && |k2| > |k|
    ensures ks == {}
  {
    if ks != {} {
      var m := Longest(ks);
      assert false;
    }
  }

  /**
   * Installing a package and then removing it by its listfile: the listfile
   * is gone, everything that was there before apart from the triplet
   * directory is back as it was, and all that the install added and the
   * removal left behind are directories. This holds when none of the
   * package's listed targets existed before and no listfile line ends in a
   * carriage return.
   */
  lemma InstallThenRemove(s: Store, spec: PackageSpec, es: seq<StagedEntry>)
    requires forall line :: line in ListfileLines(spec.triplet, Walked(es)) ==> CRFree(line)
    requires forall i :: 0 <= i < |es| && Listed(es[i]) ==> InstalledTarget(spec.triplet, es[i]) !in s
    ensures var r := RemovePackageFiles(InstallFiles(s, spec, es), ListfilePath(spec), {});
      && ListfilePath(spec) !in r
      && (forall k :: k in s && k != ListfilePath(spec) && k != InstalledPath(spec.triplet) ==> k in r && r[k] == s[k])
      && (forall k :: k in r ==> k in s || r[k] == Dir)
  {
    var t, lf := spec.triplet, ListfilePath(spec);
    var r1, w := InstallFiles(s, spec, es), Walked(es);
    var lines := ListfileLines(t, w);
    var r := RemovePackageFiles(r1, lf, {});
    InstallOutcome(s, spec, es);
    RemovalOutcome(r1, spec, {});
    ListfileTargets(t, w);
    WalkedPrefix(es);
    assert ListfileContents(r1, lf) == lines;
    forall k | k in r && k !in s ensures r[k] == Dir {
      ListfileDisjoint(spec, "", t);
      if k != InstalledPath(t) {
        assert k in LineTargets(lines);
        assert !IsFile(r1, k);
      }
    }
  }

  /**
   * When, moreover, the listfile names directories before their contents and
   * nothing else lies in the triplet directory, the removal undoes the
   * install exactly: only the listfile and the triplet directory are gone.
   */
  lemma InstallThenRemoveRestores(s: Store, spec: PackageSpec, es: seq<StagedEntry>)
    requires forall line :: line in ListfileLines(spec.triplet, Walked(es)) ==> CRFree(line)
    requires forall i :: 0 <= i < |es| && Listed(es[i]) ==> InstalledTarget(spec.triplet, es[i]) !in s
    requires ParentsFirst(LineTargets(ListfileLines(spec.triplet, Walked(es))))
    requires forall k :: k in s ==> !Under(InstalledPath(spec.triplet), k)
    ensures RemovePackageFiles(InstallFiles(s, spec, es), ListfilePath(spec), {}) ==
      s - {ListfilePath(spec), InstalledPath(spec.triplet)}
  {
    var lf, tp := ListfilePath(spec), InstalledPath(spec.triplet);
    var r := RemovePackageFiles(InstallFiles(s, spec, es), lf, {});
    InstallThenRemove(s, spec, es);
    LeftoversAscend(s, spec, es);
    NoLeftover(r, s, tp);
    SameEntries(r, s - {lf, tp});
  }

  /** Every path the install added and the removal left has a longer one beside it. */
  lemma LeftoversAscend(s: Store, spec: PackageSpec, es: seq<StagedEntry>)
    requires forall line :: line in ListfileLines(spec.triplet, Walked(es)) ==> CRFree(line)
    requires ParentsFirst(LineTargets(ListfileLines(spec.triplet, Walked(es))))
    requires forall k :: k in s ==> !Under(InstalledPath(spec.triplet), k)
    ensures var r := RemovePackageFiles(InstallFiles(s, spec, es), ListfilePath(spec), {});
      forall k :: k in r && (k == InstalledPath(spec.triplet) || k !in s) ==> exists k2 :: k2 in r && k2 !in s && |k2| > |k|
  {
    var r := RemovePackageFiles(InstallFiles(s, spec, es), ListfilePath(spec), {});
    forall k | k in r && (k == InstalledPath(spec.triplet) || k !in s) ensures exists k2 :: k2 in r && k2 !in s && |k2| > |k| {
      var k2 := LeftoverHasLonger(s, spec, es, k);
    }
  }

  /**
   * When every path left over beyond `s` (or the triplet directory) has a
   * longer one left over beyond `s`, nothing is left over.
   */
  lemma NoLeftover(r: Store, s: Store, tp: Path)
    requires forall k :: k in r && (k == tp || k !in s) ==> exists k2 :: k2 in r && k2 !in s && |k2| > |k|
    ensures forall k :: k in r ==> k in s && k != tp
  {
    var added := set k | k in r.Keys && (k == tp || k !in s);
    forall k | k in added ensures exists k2 :: k2 in added && |k2| > |k| {
      var k2 :| k2 in r && k2 !in s && |k2| > |k|;
      assert k2 in added;
    }
    NoEndlessAscent(added);
    forall k | k in r ensures k in s && k != tp {
      assert k !in added;
    }
  }

  /**
   * The descent step: whatever the install added and the removal left lies
   * in a directory the removal found non-empty, so something longer, below
   * the triplet directory, was added and left too.
   */
  lemma LeftoverHasLonger(s: Store, spec: PackageSpec, es: seq<StagedEntry>, k: Path) returns (k2: Path)
    requires forall line :: line in ListfileLines(spec.triplet, Walked(es)) ==> CRFree(line)
    requires ParentsFirst(LineTargets(ListfileLines(spec.triplet, Walked(es))))
    requires forall k :: k in s ==> !Under(InstalledPath(spec.triplet), k)
    requires var r := RemovePackageFiles(InstallFiles(s, spec, es), ListfilePath(spec), {});
      k in r && (k == InstalledPath(spec.triplet) || k !in s)
    ensures var r := RemovePackageFiles(InstallFiles(s, spec, es), ListfilePath(spec), {});
      k2 in r && k2 !in s && |k2| > |k|
  {
    var t, lf, tp := spec.triplet, ListfilePath(spec), InstalledPath(spec.triplet);
    var r1, w := InstallFiles(s, spec, es), Walked(es);
    var lines := ListfileLines(t, w);
    var r := RemovePackageFiles(r1, lf, {});
    InstalledKeysListed(s, spec, es);
    TargetsInTriplet(t, w);
    assert ListfileContents(r1, lf) == lines;
    RemovalOutcome(r1, spec, {});
    RemovalClearsDirectories(r1, spec, {});
    assert k in LineTargets(lines);
    assert IsDirectory(r1, k) && r[k] == r1[k];
    k2 := SomethingBelow(r, k);
    UnderTriplet(tp, k, k2);
  }

  /** Two stores with the same paths and the same entry at each are the same store. */
  lemma SameEntries(a: Store, b: Store)
    requires forall k :: k in a <==> k in b
    requires forall k :: k in a ==> a[k] == b[k]
    ensures a == b
  {
  }

  /** A directory that is not empty has something below it. */
  lemma SomethingBelow(s: Store, d: Path) returns (k: Path)
    requires IsDirectory(s, d) && !IsEmptyDirectory(s, d)
    ensures k in s && Under(d, k)
  {
    k :| k in s && Under(d, k);
  }

  /** What the install adds, and the triplet directory, are targets of the listfile it writes. */
  lemma InstalledKeysListed(s: Store, spec: PackageSpec, es: seq<StagedEntry>)
    requires forall line :: line in ListfileLines(spec.triplet, Walked(es)) ==> CRFree(line)
    ensures var r1, tp := InstallFiles(s, spec, es), InstalledPath(spec.triplet);
      && IsFile(r1, ListfilePath(spec))
      && ReadLines(r1[ListfilePath(spec)].content) == ListfileLines(spec.triplet, Walked(es))
      && forall x :: x in r1 && x != ListfilePath(spec) && (x == tp || x !in s) ==>
           x in LineTargets(ListfileLines(spec.triplet, Walked(es)))
  {
    InstallOutcome(s, spec, es);
    ListfileTargets(spec.triplet, Walked(es));
  }

  /** Every target of the listfile an install writes is the triplet directory or lies inside it. */
  lemma TargetsInTriplet(t: Triplet, w: seq<StagedEntry>)
    requires forall line :: line in ListfileLines(t, w) ==> CRFree(line)
    ensures forall x :: x in LineTargets(ListfileLines(t, w)) ==>
      x == InstalledPath(t) || (|x| > |InstalledPath(t)| && x[..|InstalledPath(t)| + 1] == InstalledPath(t) + "/")
  {
    ListfileTargets(t, w);
    forall x | x in LineTargets(ListfileLines(t, w)) && x != InstalledPath(t)
      ensures |x| > |InstalledPath(t)| && x[..|InstalledPath(t)| + 1] == InstalledPath(t) + "/"
    {
      var i :| 0 <= i < |w| && Listed(w[i]) && x == InstalledTarget(t, w[i]);
      TargetInTriplet(t, w[i]);
    }
  }

  /** The listfile does not lie in the triplet directory. */
  lemma BelowTripletNotListfile(spec: PackageSpec, x: Path)
    requires Under(InstalledPath(spec.triplet), x)
    ensures x != ListfilePath(spec)
  {
    var tp := InstalledPath(spec.triplet);
    assert x[..|tp| + 1] == tp + "/";
    assert x[0] == tp[0] == 'i';
    assert ListfilePath(spec)[0] == 'v';
  }

  /**
   * A listed regular file whose target already exists is not copied (the
   * copy fails and the existing file stays), yet its line is written, so
   * removing the package deletes the file it did not install.
   */
  lemma PreexistingFileRemoved(s: Store, spec: PackageSpec, es: seq<StagedEntry>, i: nat, broken: set<Path>)
    requires i < WalkLength(es) && Listed(es[i]) && es[i].kind.StagedFile?
    requires IsFile(s, InstalledTarget(spec.triplet, es[i])) && InstalledTarget(spec.triplet, es[i]) !in broken
    requires CRFree(ListLine(spec.triplet, es[i]))
    ensures var target, r1 := InstalledTarget(spec.triplet, es[i]), InstallFiles(s, spec, es);
      && target in r1 && r1[target] == s[target]
      && ListLine(spec.triplet, es[i]) in ListfileContents(r1, ListfilePath(spec))
      && target !in RemovePackageFiles(r1, ListfilePath(spec), broken)
  {
    var t, lf := spec.triplet, ListfilePath(spec);
    var target, r1, w := InstalledTarget(t, es[i]), InstallFiles(s, spec, es), Walked(es);
    var lines := ListfileLines(t, w);
    var line := ListLine(t, es[i]);
    WalkedPrefix(es);
    InstallOutcome(s, spec, es);
    RemovalOutcome(r1, spec, broken);
    ListedLinesMembers(t, w);
    ListfileDisjoint(spec, "", line);
    assert w[i] == es[i];
    assert line in ListedLines(t, w);
    assert line in lines;
    assert Target(line) == target;
    TargetOfLine(lines, line);
  }

  /** A line of the listfile names its target among the removal's targets. */
  lemma TargetOfLine(lines: seq<string>, line: string)
    requires line in lines
    ensures Target(line) in LineTargets(lines)
  {
    var j :| 0 <= j < |lines| && lines[j] == line;
    assert LineTargets(lines)[j] == Target(line);
  }

  /** A directory holding something the package did not list survives its removal. */
  lemma SharedDirectoryKept(s: Store, spec: PackageSpec, broken: set<Path>, d: Path, k: Path)
    requires IsDirectory(s, d) && k in s && Under(d, k)
    requires k != ListfilePath(spec) && k !in LineTargets(ListfileContents(s, ListfilePath(spec)))
    ensures d in RemovePackageFiles(s, ListfilePath(spec), broken)
  {
    RemovalOutcome(s, spec, broken);
    RemovalLeavesNoOrphans(s, spec, broken);
  }

  /**
   * The reverse walk removes every listed directory when whatever lies below
   * a listed directory is listed after it.
   */
  lemma {:induction false} RemoveEmptyDirsAll(s: Store, dirs: seq<Path>)
    requires forall i :: 0 <= i < |dirs| && dirs[i] in s ==> s[dirs[i]].Dir?
    requires forall i, k :: 0 <= i < |dirs| && k in s && Under(dirs[i], k) ==> k in dirs[i + 1..]
    ensures forall i :: 0 <= i < |dirs| ==> dirs[i] !in RemoveEmptyDirs(s, dirs)
    decreases |dirs|
  {
    if dirs != [] {
      var init := dirs[..|dirs| - 1];
      var t := RemoveIfEmpty(s, dirs[|dirs| - 1]);
      LastDirectoryGoes(s, dirs);
      RemoveEmptyDirsAll(t, init);
      var r := RemoveEmptyDirs(s, dirs);
      assert r == RemoveEmptyDirs(t, init);
      forall i | 0 <= i < |dirs| ensures dirs[i] !in r {
        if i < |init| {
          assert dirs[i] == init[i];
        } else {
          assert dirs[i] !in t;
        }
      }
    }
  }

  /** One step of the reverse walk: the last directory goes, and the rest still satisfies the ordering. */
  lemma LastDirectoryGoes(s: Store, dirs: seq<Path>)
    requires dirs != []
    requires forall i :: 0 <= i < |dirs| && dirs[i] in s ==> s[dirs[i]].Dir?
    requires forall i, k :: 0 <= i < |dirs| && k in s && Under(dirs[i], k) ==> k in dirs[i + 1..]
    ensures var init, t := dirs[..|dirs| - 1], RemoveIfEmpty(s, dirs[|dirs| - 1]);
      && dirs[|dirs| - 1] !in t
      && (forall i :: 0 <= i < |init| && init[i] in t ==> t[init[i]].Dir?)
      && (forall i, k :: 0 <= i < |init| && k in t && Under(init[i], k) ==> k in init[i + 1..])
  {
    var init := dirs[..|dirs| - 1];
    var last := dirs[|dirs| - 1];
    var t := RemoveIfEmpty(s, last);
    if last in s {
      assert IsEmptyDirectory(s, last);
      assert t == s - {last};
    }
    forall i, k | 0 <= i < |init| && k in t && Under(init[i], k)
      ensures k in init[i + 1..]
    {
      assert init[i] == dirs[i];
      assert k != last && k in dirs[i + 1..];
      LaterWithoutLast(dirs, i);
    }
  }

  /** The paths after position `i` are those of the shorter sequence after `i`, then the last one. */
  lemma LaterWithoutLast(dirs: seq<Path>, i: nat)
    requires i < |dirs| - 1
    ensures dirs[i + 1..] == dirs[..|dirs| - 1][i + 1..] + [dirs[|dirs| - 1]]
  {
  }


}
