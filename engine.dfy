/**
 * The installer at run time: the file store, the in-memory status database
 * and the process-wide update counter, as one object whose methods are the
 * imperative operations of the core (database_load_check, write_update,
 * install_package, deinstall_package). The loops that walk a package tree,
 * a listfile or the updates directory are methods over a store value.
 *
 * Each method states its new state as a function of the old one (LoadCheck,
 * CommitUpdate, InstallEffect, RemovalEffect); what those functions keep is
 * proved in the Recovery, Durability and Lifecycle modules.
 */
module Engine {
  import opened Wrappers
  import opened Records
  import opened FileSystem
  import opened StatusDb
  import opened Journal
  import Recovery
  import opened Listfile
  import opened Plan
  import opened Lifecycle

  /**
   * How install_package ended: refused because the dependency at `at` is not
   * installed, stopped by a status query that threw during the walk, or
   * installed.
   */
  datatype InstallResult =
    | UnmetDependency(at: nat)
    | WalkAborted
    | InstallDone

  /** How deinstall_package ended: nothing to remove, refused because of dependents, or removed. */
  datatype DeinstallResult =
    | NothingToRemove
    | BlockedBy(dependents: seq<StatusParagraph>)
    | Removed

  class Installation {
    var store: Store
    var db: Database
    var nextId: nat

    /** A fresh process: the update counter starts at 0 and nothing is loaded yet. */
    constructor(s: Store)
      ensures store == s && db == [] && nextId == 0
    {
      store := s;
      db := [];
      nextId := 0;
    }

    /**
     * write_update: the record is written to `incomplete`, which is then
     * renamed to the decimal name of the counter; the counter moves on.
     */
    method WriteUpdate(rec: StatusParagraph)
      modifies this
      ensures store == CommitUpdate(old(store), old(nextId), rec)
      ensures nextId == old(nextId) + 1
      ensures db == old(db)
    {
      store := WriteUpdateFile(store, nextId, rec);
      nextId := nextId + 1;
    }

    /**
     * database_load_check, with the updates directory listed in `order`:
     * the layout is created, the current database loaded, the update files
     * replayed, the merged database rotated into place and the update files
     * removed; on success the result becomes the in-memory database. An
     * error stops it where it occurs.
     */
    method DatabaseLoadCheck(order: seq<string>) returns (r: Result<Database, LoadError>)
      modifies this
      ensures (r, store) == LoadCheck(old(store), order)
      ensures db == if r.Ok? then r.value else old(db)
      ensures nextId == old(nextId)
    {
      var t;
      r, t := LoadAndCompact(store, order);
      store := t;
      if r.Ok? {
        db := r.value;
      }
    }

    /**
     * install_package: with every dependency installed on the package's
     * triplet, the half-installed record is journaled and inserted, the
     * files are installed, and the installed record is journaled and
     * inserted. The first missing dependency stops it before anything is
     * written; a status query that throws during the walk stops it after
     * the listfile is written, with the package left half installed.
     */
    method InstallPackage(pkg: BinaryParagraph, es: seq<StagedEntry>) returns (r: InstallResult)
      modifies this
      ensures r.UnmetDependency? ==> r.at < |pkg.depends| &&
                                     FindInstalled(old(db), PackageSpec(pkg.depends[r.at], pkg.spec.triplet)).None?
      ensures !r.UnmetDependency? <==> forall j :: 0 <= j < |pkg.depends| ==>
        FindInstalled(old(db), PackageSpec(pkg.depends[j], pkg.spec.triplet)).Some?
      ensures r.UnmetDependency? ==> store == old(store) && db == old(db) && nextId == old(nextId)
      ensures !r.UnmetDependency? ==> (r == WalkAborted <==> WalkAborts(es))
      ensures !r.UnmetDependency? ==> store == InstallEffect(old(store), old(nextId), pkg, es)
      ensures !r.UnmetDependency? ==> db == InsertAll(old(db), InstallUpdates(pkg, es))
      ensures !r.UnmetDependency? ==> nextId == old(nextId) + |InstallUpdates(pkg, es)|
    {
      var missing := MissingDependency(db, pkg);
      if missing.Some? {
        return UnmetDependency(missing.value);
      }
      InstallUpdatesReplay(db, pkg, es);
      var rec := HalfInstalledRecord(pkg);
      db := Insert(db, rec);
      var aborted;
      store, aborted := InstallWithJournal(store, nextId, pkg, es);
      if aborted {
        nextId := nextId + 1;
        return WalkAborted;
      }
      rec := rec.(state := Installed);
      db := Insert(db, rec);
      nextId := nextId + 2;
      r := InstallDone;
    }

    /**
     * deinstall_package: a package that is absent or not installed is left
     * alone, and one with dependents is refused; otherwise its record is set
     * in place to purge/half-installed and journaled, its files and the
     * listfile are removed, and the record is set to not-installed and
     * journaled. The record stays in the database.
     */
    method DeinstallPackage(spec: PackageSpec, broken: set<Path>) returns (r: DeinstallResult)
      modifies this
      ensures var plan := DeinstallPackagePlan(old(db), Find(old(db), spec));
        && (r == NothingToRemove <==> plan.0 == NotInstalledPlan)
        && (r.BlockedBy? <==> plan.0 == DependenciesNotSatisfied)
        && (r.BlockedBy? ==> r.dependents == plan.1 && r.dependents != [])
        && (r == Removed <==> plan.0 == ShouldDeinstall)
      ensures !r.Removed? ==> store == old(store) && db == old(db) && nextId == old(nextId)
      ensures r.Removed? ==> Find(old(db), spec).Some?
      ensures r.Removed? ==>
        var i := Find(old(db), spec).value;
        && store == RemovalEffect(old(store), old(nextId), old(db)[i], broken)
        && db == old(db)[i := RemovedRecord(old(db)[i])]
        && nextId == old(nextId) + 2
    {
      var at := Find(db, spec);
      var plan := DeinstallPackagePlan(db, at);
      if plan.0 == NotInstalledPlan {
        return NothingToRemove;
      } else if plan.0 == DependenciesNotSatisfied {
        return BlockedBy(plan.1);
      }
      RemoveRecordAt(at.value, broken);
      return Removed;
    }

    /**
     * The removal proper, for the record at position `i`: the record is set
     * in place to purge/half-installed and then to not-installed, each state
     * journaled, with the files and the listfile removed in between.
     */
    method RemoveRecordAt(i: nat, broken: set<Path>)
      requires i < |db|
      modifies this
      ensures store == RemovalEffect(old(store), old(nextId), old(db)[i], broken)
      ensures db == old(db)[i := RemovedRecord(old(db)[i])]
      ensures nextId == old(nextId) + 2
    {
      var p := db[i];
      var rec := p.(want := Purge, state := HalfInstalled);
      db := db[i := rec];
      rec := rec.(state := NotInstalled);
      db := db[i := rec];
      store := RemoveWithJournal(store, nextId, p, broken);
      nextId := nextId + 2;
    }
  }

  /**
   * The writes of install_package, with the update counter at `id`: the
   * half-installed record is journaled, the files and the listfile are
   * installed, and, unless the walk threw, the installed record is journaled.
   */
  method InstallWithJournal(s: Store, id: nat, pkg: BinaryParagraph, es: seq<StagedEntry>)
    returns (t: Store, aborted: bool)
    ensures t == InstallEffect(s, id, pkg, es)
    ensures aborted <==> WalkAborts(es)
  {
    var rec := HalfInstalledRecord(pkg);
    t := WriteUpdateFile(s, id, rec);
    t, aborted := InstallAndWriteListfile(t, pkg, es);
    if !aborted {
      rec := rec.(state := Installed);
      t := WriteUpdateFile(t, id + 1, rec);
    }
  }

  /**
   * The writes of deinstall_package for the record `p`: purge/half-installed
   * is journaled, the files and the listfile are removed, and not-installed
   * is journaled.
   */
  method RemoveWithJournal(s: Store, id: nat, p: StatusParagraph, broken: set<Path>) returns (t: Store)
    ensures t == RemovalEffect(s, id, p, broken)
  {
    var rec := p.(want := Purge, state := HalfInstalled);
    t := WriteUpdateFile(s, id, rec);
    t := RemoveInstalledFiles(t, ListfilePath(rec.package.spec), broken);
    rec := rec.(state := NotInstalled);
    t := WriteUpdateFile(t, id + 1, rec);
  }

  // ---------------------------------------------------------------------
  // database_load_check, step by step
  // ---------------------------------------------------------------------

  /**
   * The file work of write_update: the record is written to `incomplete`,
   * which is then renamed to the decimal name of `id`.
   */
  method WriteUpdateFile(s: Store, id: nat, rec: StatusParagraph) returns (t: Store)
    ensures t == CommitUpdate(s, id, rec)
  {
    var tmp := UpdatePath(INCOMPLETE);
    t := s[tmp := File(Stanzas([ToParagraph(rec)]))];
    t := Rename(t, tmp, UpdatePath(Decimal(id)));
  }

  /**
   * The store work of database_load_check: the layout is created, the
   * current database loaded, the update files replayed, the merged database
   * rotated into place and the update files removed. An error stops it
   * where it occurs.
   */
  method LoadAndCompact(s0: Store, order: seq<string>) returns (r: Result<Database, LoadError>, s: Store)
    ensures (r, s) == LoadCheck(s0, order)
  {
    s := CreateLayoutDirectories(s0);
    var loaded := LoadCurrentDatabase(s);
    s := loaded.1;
    if loaded.0.Err? {
      return loaded.0, s;
    }
    if !IsDirectory(s, UPDATES_DIR) {
      return Err(NotADirectory(UPDATES_DIR)), s;
    }
    if order == [] {
      return loaded.0, s;
    }
    r := ReplayUpdates(s, order, loaded.0.value);
    if r.Err? {
      return;
    }
    s := RotateStatusFiles(s, Serialize(r.value));
    s := RemoveListedUpdateFiles(s, order);
  }

  /** The four create_directory calls, each tolerating an existing entry. */
  method CreateLayoutDirectories(s: Store) returns (t: Store)
    ensures t == CreateLayout(s)
  {
    t := CreateDirectory(s, INSTALLED_DIR);
    t := CreateDirectory(t, VCPKG_DIR);
    t := CreateDirectory(t, INFO_DIR);
    t := CreateDirectory(t, UPDATES_DIR);
  }

  /**
   * The replay loop (lib.cpp lines 89-102): every regular file of the listing other
   * than `incomplete` is parsed and its paragraphs inserted into `current`
   * in order; the first file that does not parse stops the replay.
   */
  method ReplayUpdates(s: Store, order: seq<string>, current: Database) returns (r: Result<Database, LoadError>)
    ensures UpdateRecords(s, order).Err? ==> r == Err(UpdateRecords(s, order).error)
    ensures UpdateRecords(s, order).Ok? ==> r == Ok(InsertAll(current, UpdateRecords(s, order).value))
  {
    var merged := current;
    var i := 0;
    while i < |order|
      invariant 0 <= i <= |order|
      invariant UpdateRecords(s, order[..i]).Ok?
      invariant merged == InsertAll(current, UpdateRecords(s, order[..i]).value)
    {
      UpdateRecordsStep(s, order, i);
      var path := UpdatePath(order[i]);
      if IsFile(s, path) && order[i] != INCOMPLETE {
        match ParseParagraphs(s[path].content)
        case Err(_) =>
          UpdateRecordsErrorStays(s, order, i + 1);
          return Err(Unparsable(path));
        case Ok(ps) =>
          ghost var before := merged;
          var j := 0;
          while j < |ps|
            invariant 0 <= j <= |ps|
            invariant merged == InsertAll(before, StatusRecords(ps[..j]))
          {
            InsertAllSnoc(before, StatusRecords(ps[..j]), StatusOf(ps[j]));
            StatusRecordsSnoc(ps, j);
            merged := Insert(merged, StatusOf(ps[j]));
            j := j + 1;
          }
          assert ps[..j] == ps;
          InsertAllAppend(current, UpdateRecords(s, order[..i]).value, StatusRecords(ps));
      }
      i := i + 1;
    }
    assert order[..i] == order;
    return Ok(merged);
  }

  /**
   * The rotation (lib.cpp lines 104-111): write status-new, remove a stale
   * status-old, move status to status-old, move status-new to status,
   * remove status-old.
   */
  method RotateStatusFiles(s: Store, merged: Content) returns (t: Store)
    ensures t == Rotate(s, merged)
  {
    t := s[STATUS_NEW := File(merged)];
    assert t == RotationPrefix(s, merged, 1);
    if STATUS_OLD in t {
      t := t - {STATUS_OLD};
    }
    assert t == RotationPrefix(s, merged, 2);
    if STATUS_FILE in t {
      t := Rename(t, STATUS_FILE, STATUS_OLD);
    }
    assert t == RotationPrefix(s, merged, 3);
    t := Rename(t, STATUS_NEW, STATUS_FILE);
    assert t == RotationPrefix(s, merged, 4);
    t := t - {STATUS_OLD};
  }

  /** The clean-up loop (lib.cpp lines 113-119): every listed regular file is removed. */
  method RemoveListedUpdateFiles(s: Store, order: seq<string>) returns (t: Store)
    ensures t == RemoveUpdateFiles(s, order)
  {
    t := s;
    var k := 0;
    while k < |order|
      invariant 0 <= k <= |order|
      invariant t == RemoveUpdateFiles(s, order[..k])
    {
      assert order[..k + 1][..k] == order[..k];
      var path := UpdatePath(order[k]);
      if IsFile(t, path) {
        t := t - {path};
      }
      k := k + 1;
    }
    assert order[..k] == order;
  }

  // ---------------------------------------------------------------------
  // install_and_write_listfile and the dependency check of install_package
  // ---------------------------------------------------------------------

  /**
   * install_and_write_listfile: the listfile is created, the triplet
   * directory made, and the staged entries walked in order, each directory
   * created and each regular file copied, every listed one getting its line
   * after the triplet line. A status query that throws ends the walk; the
   * lines written so far still reach the listfile.
   */
  method InstallAndWriteListfile(s: Store, pkg: BinaryParagraph, es: seq<StagedEntry>)
    returns (r: Store, aborted: bool)
    ensures r == InstallFiles(s, pkg.spec, es)
    ensures aborted <==> WalkAborts(es)
  {
    var t := pkg.spec.triplet;
    var listfile := ListfilePath(pkg.spec);
    r := s[listfile := File(Text([]))];
    r := CreateDirectory(r, InstalledPath(t));
    ghost var start := r;
    var lines := [t];
    var i := 0;
    assert es[..i] == [] && [t] + [] == [t];
    while i < |es|
      invariant 0 <= i <= |es|
      invariant forall j :: 0 <= j < i ==> !es[j].statusThrows
      invariant r == CopyEntries(start, t, es[..i])
      invariant lines == [t] + ListedLines(t, es[..i])
    {
      if es[i].statusThrows {
        break;
      }
      WalkStep(start, t, es, i);
      var listed;
      r, listed := InstallEntry(r, t, es[i]);
      if listed {
        lines := lines + [ListLine(t, es[i])];
      }
      i := i + 1;
    }
    WalkStops(es, i);
    aborted := i < |es|;
    r := r[listfile := File(Text(lines))];
  }

  /**
   * One step of the walk: a control file or an entry whose status cannot be
   * read is skipped; a directory is created and a regular file copied unless
   * the copy fails (an existing target is kept); both get a listfile line.
   */
  method InstallEntry(s: Store, t: Triplet, e: StagedEntry) returns (r: Store, listed: bool)
    ensures r == CopyEntry(s, t, e)
    ensures listed <==> Listed(e)
  {
    r, listed := s, false;
    var target := InstalledTarget(t, e);
    if !IsControlFile(e) && !e.statusFails {
      match e.kind
      case StagedDir =>
        if !e.copyFails {
          r := CreateDirectory(r, target);
        }
        listed := true;
      case StagedFile(c) =>
        if !e.copyFails && target !in r {
          r := r[target := File(c)];
        }
        listed := true;
      case StagedOther =>
    }
  }

  /**
   * The dependency check of install_package: the position of the first
   * dependency that is not installed on the package's triplet, or None when
   * all of them are.
   */
  method MissingDependency(db: Database, pkg: BinaryParagraph) returns (missing: Option<nat>)
    ensures missing.Some? ==> missing.value < |pkg.depends|
    ensures missing.Some? ==> FindInstalled(db, PackageSpec(pkg.depends[missing.value], pkg.spec.triplet)).None?
    ensures missing.Some? ==> forall j :: 0 <= j < missing.value ==>
      FindInstalled(db, PackageSpec(pkg.depends[j], pkg.spec.triplet)).Some?
    ensures missing.None? <==> forall j :: 0 <= j < |pkg.depends| ==>
      FindInstalled(db, PackageSpec(pkg.depends[j], pkg.spec.triplet)).Some?
  {
    var i := 0;
    while i < |pkg.depends|
      invariant 0 <= i <= |pkg.depends|
      invariant forall j :: 0 <= j < i ==> FindInstalled(db, PackageSpec(pkg.depends[j], pkg.spec.triplet)).Some?
    {
      if FindInstalled(db, PackageSpec(pkg.depends[i], pkg.spec.triplet)).None? {
        return Some(i);
      }
      i := i + 1;
    }
    return None;
  }

  // ---------------------------------------------------------------------
  // The removal half of deinstall_package
  // ---------------------------------------------------------------------

  /**
   * The getline loop: each line loses a trailing carriage return; a regular
   * file is removed at once and a directory remembered in line order; a
   * target in `broken` (whose status cannot be queried) is skipped.
   */
  method RemoveListedTargets(s: Store, lines: seq<string>, broken: set<Path>) returns (t: Store, dirs: seq<Path>)
    ensures (t, dirs) == RemoveListed(s, lines, broken)
  {
    t, dirs := s, [];
    var j := 0;
    while j < |lines|
      invariant 0 <= j <= |lines|
      invariant (t, dirs) == RemoveListed(s, lines[..j], broken)
    {
      assert lines[..j + 1][..j] == lines[..j];
      var target := InstalledPath(StripCR(lines[j]));
      if target !in broken {
        if IsDirectory(t, target) {
          dirs := dirs + [target];
        } else if IsFile(t, target) {
          t := t - {target};
        }
      }
      j := j + 1;
    }
    assert lines[..j] == lines;
  }

  /**
   * The file removal of deinstall_package: when the listfile can be opened,
   * the listed files go, then the emptied directories, then the listfile.
   */
  method RemoveInstalledFiles(s: Store, listfile: Path, broken: set<Path>) returns (t: Store)
    ensures t == RemovePackageFiles(s, listfile, broken)
  {
    t := s;
    if IsFile(s, listfile) {
      var dirs;
      t, dirs := RemoveListedTargets(s, ReadLines(s[listfile].content), broken);
      t := RemoveEmptyDirectories(t, dirs);
      t := t - {listfile};
    }
  }

  /** The reverse walk: the remembered directories, last to first, each removed when empty. */
  method RemoveEmptyDirectories(s: Store, dirs: seq<Path>) returns (t: Store)
    ensures t == RemoveEmptyDirs(s, dirs)
  {
    t := s;
    var k := |dirs|;
    assert dirs[..k] == dirs;
    while k > 0
      invariant 0 <= k <= |dirs|
      invariant RemoveEmptyDirs(t, dirs[..k]) == RemoveEmptyDirs(s, dirs)
    {
      assert dirs[..k][..k - 1] == dirs[..k - 1];
      var d := dirs[k - 1];
      if IsEmptyDirectory(t, d) {
        t := t - {d};
      }
      k := k - 1;
    }
  }

  // ---------------------------------------------------------------------
  // Steps of the loops above
  // ---------------------------------------------------------------------

  /** Walking one more staged entry: one more copy, and its line when it is listed. */
  lemma WalkStep(s: Store, t: Triplet, es: seq<StagedEntry>, i: nat)
    requires i < |es|
    ensures CopyEntries(s, t, es[..i + 1]) == CopyEntry(CopyEntries(s, t, es[..i]), t, es[i])
    ensures ListedLines(t, es[..i + 1]) ==
      ListedLines(t, es[..i]) + (if Listed(es[i]) then [ListLine(t, es[i])] else [])
  {
    assert es[..i + 1][..i] == es[..i];
  }

  /** The walk stops at the first entry whose status query throws. */
  lemma WalkStops(es: seq<StagedEntry>, i: nat)
    requires i <= |es|
    requires forall j :: 0 <= j < i ==> !es[j].statusThrows
    requires i < |es| ==> es[i].statusThrows
    ensures WalkLength(es) == i && es[..i] == Walked(es)
    ensures WalkAborts(es) <==> i < |es|
  {
  }

  /** Replaying one more record is one more insert. */
  lemma InsertAllSnoc(db: Database, recs: seq<StatusParagraph>, p: StatusParagraph)
    ensures InsertAll(db, recs + [p]) == Insert(InsertAll(db, recs), p)
  {
    assert (recs + [p])[..|recs|] == recs;
  }

  lemma StatusRecordsSnoc(ps: seq<Paragraph>, j: nat)
    requires j < |ps|
    ensures StatusRecords(ps[..j + 1]) == StatusRecords(ps[..j]) + [StatusOf(ps[j])]
  {
  }

  /** The replay of one more listed entry: skipped, failed, or its records appended. */
  lemma UpdateRecordsStep(s: Store, order: seq<string>, i: nat)
    requires i < |order|
    ensures var prev := UpdateRecords(s, order[..i]);
      var path := UpdatePath(order[i]);
      prev.Ok? ==>
        UpdateRecords(s, order[..i + 1]) ==
          if !IsReplayed(s, order[i]) then prev
          else match ParseParagraphs(s[path].content)
            case Err(_) => Err(Unparsable(path))
            case Ok(ps) => Ok(prev.value + StatusRecords(ps))
  {
    var a := Replayed(s, order[..i]);
    assert order[..i + 1] == order[..i] + [order[i]];
    Recovery.ReplayedSplit(s, order[..i], [order[i]]);
    assert Replayed(s, [order[i]]) == if IsReplayed(s, order[i]) then [order[i]] else [] by {
      assert [order[i]][..0] == [];
    }
    if IsReplayed(s, order[i]) {
      assert (a + [order[i]])[..|a|] == a;
    } else {
      assert a + [] == a;
    }
  }

  /** An error in the replay of a prefix is the error of the whole replay. */
  lemma UpdateRecordsErrorStays(s: Store, order: seq<string>, i: nat)
    requires i <= |order|
    requires UpdateRecords(s, order[..i]).Err?
    ensures UpdateRecords(s, order) == UpdateRecords(s, order[..i])
  {
    assert order == order[..i] + order[i..];
    Recovery.ReplayedSplit(s, order[..i], order[i..]);
    ReadUpdatesErrorStays(s, Replayed(s, order[..i]), Replayed(s, order[i..]));
  }

  lemma {:induction false} ReadUpdatesErrorStays(s: Store, a: seq<string>, b: seq<string>)
    requires forall i :: 0 <= i < |a + b| ==> IsFile(s, UpdatePath((a + b)[i]))
    requires forall i :: 0 <= i < |a| ==> IsFile(s, UpdatePath(a[i]))
    requires ReadUpdates(s, a).Err?
    ensures ReadUpdates(s, a + b) == ReadUpdates(s, a)
    decreases |b|
  {
    if b == [] {
      assert a + b == a;
    } else {
      var b' := b[..|b| - 1];
      assert (a + b)[..|a + b| - 1] == a + b';
      ReadUpdatesErrorStays(s, a, b');
    }
  }
}
