/**
 * The filesystem as an abstract store: a map from path to entry.
 *
 * Paths are strings joined with '/'. The installed payload lives under
 * `installed/`, the installer's own files under `vcpkg/` (status files,
 * `updates/` journal, `info/` listfiles).
 */
module FileSystem {
  import opened Records

  type Path = string

  datatype Entry = File(content: Content) | Dir

  type Store = map<Path, Entry>

  const INSTALLED_DIR: Path := "installed"
  const VCPKG_DIR: Path := "vcpkg"
  const INFO_DIR: Path := "vcpkg/info"
  const UPDATES_DIR: Path := "vcpkg/updates"
  const STATUS_FILE: Path := "vcpkg/status"
  const STATUS_OLD: Path := "vcpkg/status-old"
  const STATUS_NEW: Path := "vcpkg/status-new"

  /** The temporary name a journal record is written under before its commit. */
  const INCOMPLETE: string := "incomplete"

  function UpdatePath(name: string): Path {
    "vcpkg/updates/" + name
  }

  function InstalledPath(rel: string): Path {
    "installed/" + rel
  }

  /** A single path component: non-empty and without a separator. */
  predicate IsName(n: string) {
    n != "" && '/' !in n
  }

  /** `k` lies somewhere below directory `dir`. */
  predicate Under(dir: Path, k: Path) {
    |k| > |dir| + 1 && k[..|dir| + 1] == dir + "/"
  }

  predicate IsFile(s: Store, p: Path) {
    p in s && s[p].File?
  }

  predicate IsDirectory(s: Store, p: Path) {
    p in s && s[p].Dir?
  }

  /** A directory with nothing below it. */
  predicate IsEmptyDirectory(s: Store, d: Path) {
    IsDirectory(s, d) && forall k :: k in s ==> !Under(d, k)
  }

  /** create_directory(p, ec): creates `p` when nothing is there; an existing entry is left alone. */
  function CreateDirectory(s: Store, p: Path): (r: Store)
    ensures p in r && (p !in s ==> r[p] == Dir) && (p in s ==> r[p] == s[p])
    ensures r.Keys == s.Keys + {p}
    ensures forall k :: k in s && k != p ==> r[k] == s[k]
  {
    if p in s then s else s[p := Dir]
  }

  /** rename(from, to): the entry moves, replacing whatever was at `to`. */
  function Rename(s: Store, from: Path, to: Path): (r: Store)
    requires from in s
    ensures to in r && r[to] == s[from]
    ensures from != to ==> from !in r
    ensures r.Keys == (s.Keys - {from}) + {to}
    ensures forall k :: k in s && k != from && k != to ==> r[k] == s[k]
  {
    s - {from} + map[to := s[from]]
  }

  /** The three names the compaction rotates. */
  predicate IsRotated(p: Path) {
    p == STATUS_FILE || p == STATUS_OLD || p == STATUS_NEW
  }

  /** Two paths that disagree at some position inside both prefixes differ. */
  lemma PrefixesDiffer(p: string, q: string, x: string, y: string, i: nat)
    requires i < |p| && i < |q| && p[i] != q[i]
    ensures p + x != q + y
  {
    assert (p + x)[i] == p[i];
    assert (q + y)[i] == q[i];
  }

  /** The update files, the status files and the installed payload never collide. */
  lemma LayoutDisjoint(n: string, rel: string)
    ensures UpdatePath(n) != STATUS_FILE && UpdatePath(n) != STATUS_OLD && UpdatePath(n) != STATUS_NEW
    ensures InstalledPath(rel) != STATUS_FILE && InstalledPath(rel) != STATUS_OLD && InstalledPath(rel) != STATUS_NEW
    ensures InstalledPath(rel) != UpdatePath(n)
  {
    PrefixesDiffer("vcpkg/updates/", "vcpkg/status", n, "", 6);
    PrefixesDiffer("vcpkg/updates/", "vcpkg/status-old", n, "", 6);
    PrefixesDiffer("vcpkg/updates/", "vcpkg/status-new", n, "", 6);
    PrefixesDiffer("installed/", "vcpkg/status", rel, "", 0);
    PrefixesDiffer("installed/", "vcpkg/status-old", rel, "", 0);
    PrefixesDiffer("installed/", "vcpkg/status-new", rel, "", 0);
    PrefixesDiffer("installed/", "vcpkg/updates/", rel, n, 0);
  }

  /** The directories the loader creates are none of the files it rotates or replays. */
  lemma DirectoriesAreNotFiles(n: string)
    ensures !IsRotated(INSTALLED_DIR) && !IsRotated(VCPKG_DIR) && !IsRotated(INFO_DIR) && !IsRotated(UPDATES_DIR)
    ensures UpdatePath(n) != INSTALLED_DIR && UpdatePath(n) != VCPKG_DIR
    ensures UpdatePath(n) != INFO_DIR && UpdatePath(n) != UPDATES_DIR
  {
    assert |UpdatePath(n)| > |UPDATES_DIR|;
    PrefixesDiffer("vcpkg/updates/", "vcpkg/info", n, "", 6);
    PrefixesDiffer("vcpkg/updates/", "installed", n, "", 0);
    PrefixesDiffer("vcpkg/status", "installed", "", "", 0);
    PrefixesDiffer("vcpkg/status-old", "installed", "", "", 0);
    PrefixesDiffer("vcpkg/status-new", "installed", "", "", 0);
    PrefixesDiffer("vcpkg/status", "vcpkg/info", "", "", 6);
    PrefixesDiffer("vcpkg/status-old", "vcpkg/info", "", "", 6);
    PrefixesDiffer("vcpkg/status-new", "vcpkg/info", "", "", 6);
    PrefixesDiffer("vcpkg/status", "vcpkg/updates", "", "", 6);
    PrefixesDiffer("vcpkg/status-old", "vcpkg/updates", "", "", 6);
    PrefixesDiffer("vcpkg/status-new", "vcpkg/updates", "", "", 6);
  }
}
