/**
 * What a running installer keeps on disk: the status file holds the
 * database loaded at startup, and every record written since sits in its
 * own update file. A restart whose listing presents the update files in id
 * order rebuilds the in-memory database from that state.
 */
module Durability {
  import opened Wrappers
  import opened Records
  import opened FileSystem
  import opened StatusDb
  import opened Journal
  import opened Recovery
  import opened Listfile

  /** The names of the update files `first`, `first + 1`, …, in id order. */
  function PendingNames(first: nat, n: nat): (r: seq<string>)
    ensures |r| == n && forall i :: 0 <= i < n ==> r[i] == Decimal(first + i)
  {
    seq(n, i requires 0 <= i < n => Decimal(first + i))
  }

  /** The update file `name` holds exactly the record `rec`. */
  predicate Holds(s: Store, name: string, rec: StatusParagraph) {
    IsFile(s, UpdatePath(name)) && s[UpdatePath(name)].content == Stanzas([ToParagraph(rec)])
  }

  /**
   * The state a restart finds: `status` (or `status-old`) reads as `base`,
   * the updates directory exists, and its regular files are exactly the
   * records `pending`, written under the ids from `first` on.
   */
  ghost predicate Journaled(s: Store, base: Database, first: nat, pending: seq<StatusParagraph>) {
    && LoadCurrentDatabase(CreateLayout(s)).0 == Ok(base)
    && IsDirectory(s, UPDATES_DIR)
    && (forall i :: 0 <= i < |pending| ==> Holds(s, Decimal(first + i), pending[i]))
    && (forall n :: IsName(n) && IsFile(s, UpdatePath(n)) ==> n in PendingNames(first, |pending|))
  }

  /** `p` lies in the installed tree or the info directory (the directory name with a separator, or below). */
  predicate InPayload(p: Path) {
    (|p| >= |INSTALLED_DIR| + 1 && p[..|INSTALLED_DIR| + 1] == INSTALLED_DIR + "/")
    || (|p| >= |INFO_DIR| + 1 && p[..|INFO_DIR| + 1] == INFO_DIR + "/")
  }

  /** `t` differs from `s` only in the installed tree and the info directory. */
  ghost predicate PayloadChangeOnly(s: Store, t: Store) {
    forall p :: !InPayload(p) ==> (p in s <==> p in t) && (p in s ==> s[p] == t[p])
  }

  /** The payload is apart from the status files, the updates directory and the update files. */
  lemma PayloadApart(p: Path, n: string)
    requires InPayload(p)
    ensures !IsRotated(p) && p != UPDATES_DIR && p != UpdatePath(n)
  {
    if |p| >= |INSTALLED_DIR| + 1 && p[..|INSTALLED_DIR| + 1] == INSTALLED_DIR + "/" {
      assert p[0] == 'i';
    } else {
      assert p[6] == 'i';
    }
  }

  // ---------------------------------------------------------------------
  // Reload
  // ---------------------------------------------------------------------

  lemma {:induction false} ReadPending(s: Store, first: nat, pending: seq<StatusParagraph>)
    requires forall i :: 0 <= i < |pending| ==> Holds(s, Decimal(first + i), pending[i])
    ensures forall i :: 0 <= i < |pending| ==> IsFile(s, UpdatePath(PendingNames(first, |pending|)[i]))
    ensures ReadUpdates(s, PendingNames(first, |pending|)) == Ok(pending)
    decreases |pending|
  {
    var names := PendingNames(first, |pending|);
    if pending != [] {
      var n := |pending| - 1;
      assert names[..n] == PendingNames(first, n);
      ReadPending(s, first, pending[..n]);
      assert StatusRecords([ToParagraph(pending[n])]) == [pending[n]];
      assert pending[..n] + [pending[n]] == pending;
    }
  }

  /**
   * A restart rebuilds the database: when the listing presents the update
   * files in id order, the load replays the pending records over the base.
   */
  lemma Reload(s: Store, base: Database, first: nat, pending: seq<StatusParagraph>, order: seq<string>)
    requires Journaled(s, base, first, pending)
    requires Replayed(s, order) == PendingNames(first, |pending|)
    ensures LoadCheck(s, order).0 == Ok(InsertAll(base, pending))
  {
    var s1 := Prepared(s);
    PreparedFacts(s);
    SameUpdatesAgree(s1, s, order);
    UpdateRecordsFrame(s1, s, order);
    ReadPending(s, first, pending);
    assert IsDirectory(s1, UPDATES_DIR);
    if order == [] {
      assert pending == [];
    }
  }

  /**
   * A listing sorted by name presents update `10` before update `9`. The
   * load then replays the older record last, so for two records of the same
   * package the older one wins.
   */
  lemma NameOrderLetsOlderWin(s: Store, base: Database, a: StatusParagraph, b: StatusParagraph, order: seq<string>)
    requires Journaled(s, base, 9, [a, b])
    requires Replayed(s, order) == ["10", "9"]
    ensures LoadCheck(s, order).0 == Ok(Insert(Insert(base, b), a))
    ensures KeyOf(a) == KeyOf(b) ==> Lookup(LoadCheck(s, order).0.value, KeyOf(a)) == Some(a)
    ensures KeyOf(a) == KeyOf(b) && a != b ==>
      Lookup(LoadCheck(s, order).0.value, KeyOf(a)) != Lookup(InsertAll(base, [a, b]), KeyOf(a))
  {
    LoadTenThenNine(s, base, a, b, order);
    SwappedPairDisagrees(base, a, b);
  }

  /** The load of NameOrderLetsOlderWin: update `10`, then update `9`, replayed into the base. */
  lemma LoadTenThenNine(s: Store, base: Database, a: StatusParagraph, b: StatusParagraph, order: seq<string>)
    requires Journaled(s, base, 9, [a, b])
    requires Replayed(s, order) == ["10", "9"]
    ensures LoadCheck(s, order).0 == Ok(Insert(Insert(base, b), a))
  {
    NineAndTen();
    assert Holds(s, Decimal(9 + 0), [a, b][0]) && Holds(s, Decimal(9 + 1), [a, b][1]);
    LoadSwapped(s, base, a, b, order);
  }

  /** The load of a store holding `a` under `9` and `b` under `10`, listed `10` first. */
  lemma LoadSwapped(s: Store, base: Database, a: StatusParagraph, b: StatusParagraph, order: seq<string>)
    requires LoadCurrentDatabase(CreateLayout(s)).0 == Ok(base) && IsDirectory(s, UPDATES_DIR)
    requires Holds(s, "9", a) && Holds(s, "10", b)
    requires Replayed(s, order) == ["10", "9"]
    ensures LoadCheck(s, order).0 == Ok(Insert(Insert(base, b), a))
  {
    var s1 := Prepared(s);
    PreparedFacts(s);
    SameUpdatesAgree(s1, s, order);
    UpdateRecordsFrame(s1, s, order);
    ReadTwo(s, "10", "9", b, a);
    assert UpdateRecords(s1, order) == Ok([b, a]);
    PreparedUpdatesDir(s);
    ReplayTwo(base, b, a);
    assert LoadResult(Ok(base), s1, order) == Ok(Insert(Insert(base, b), a));
    LoadCheckResult(s, order);
  }

  /** Two records of one key replayed older last leave the older one, unlike the id order. */
  lemma SwappedPairDisagrees(base: Database, a: StatusParagraph, b: StatusParagraph)
    ensures KeyOf(a) == KeyOf(b) ==> Lookup(Insert(Insert(base, b), a), KeyOf(a)) == Some(a)
    ensures KeyOf(a) == KeyOf(b) && a != b ==>
      Lookup(Insert(Insert(base, b), a), KeyOf(a)) != Lookup(InsertAll(base, [a, b]), KeyOf(a))
  {
    if KeyOf(a) == KeyOf(b) && a != b {
      ReplayTwo(base, b, a);
      assert [b, a][..1] == [b] && [a, b][..1] == [a];
      ReplayOrderMatters(base, [b, a], [a, b], KeyOf(a));
    }
  }

  /** The names of updates 9 and 10. */
  lemma NineAndTen()
    ensures Decimal(9) == "9" && Decimal(10) == "10"
  {
    assert Decimal(1) == "1";
  }

  /**
   * A write_update stopped after writing the temporary file and before
   * renaming it leaves a record no load can see: whatever `incomplete`
   * holds, the replay and the loaded database are those of the store
   * without it.
   */
  lemma IncompleteInvisible(s: Store, c: Content, order: seq<string>)
    ensures var t := s[UpdatePath(INCOMPLETE) := File(c)];
      && Replayed(t, order) == Replayed(s, order)
      && UpdateRecords(t, order) == UpdateRecords(s, order)
      && LoadCheck(t, order).0 == LoadCheck(s, order).0
  {
    var t := s[UpdatePath(INCOMPLETE) := File(c)];
    IncompleteAside(s, c);
    UpdateRecordsIgnoreIncomplete(s, t, order);
    LoadIgnoresIncomplete(s, t, order);
  }

  /** Writing `incomplete` touches no other update path, no status name and not the updates directory. */
  lemma IncompleteAside(s: Store, c: Content)
    ensures var t := s[UpdatePath(INCOMPLETE) := File(c)];
      && AgreeBesidesIncomplete(s, t)
      && (forall p :: IsRotated(p) ==> (p in s <==> p in t) && (p in s ==> s[p] == t[p]))
      && (UPDATES_DIR in s <==> UPDATES_DIR in t) && (UPDATES_DIR in s ==> s[UPDATES_DIR] == t[UPDATES_DIR])
  {
    var t := s[UpdatePath(INCOMPLETE) := File(c)];
    forall n | n != INCOMPLETE
      ensures (UpdatePath(n) in s <==> UpdatePath(n) in t) && (UpdatePath(n) in s ==> s[UpdatePath(n)] == t[UpdatePath(n)])
    {
      UpdatePathInjective(n, INCOMPLETE);
    }
    LayoutDisjoint(INCOMPLETE, "");
    DirectoriesAreNotFiles(INCOMPLETE);
  }

  /** Stores that differ at most in `incomplete` load the same database. */
  lemma LoadIgnoresIncomplete(s: Store, t: Store, order: seq<string>)
    requires AgreeBesidesIncomplete(s, t)
    requires forall p :: IsRotated(p) ==> (p in s <==> p in t) && (p in s ==> s[p] == t[p])
    requires (UPDATES_DIR in s <==> UPDATES_DIR in t) && (UPDATES_DIR in s ==> s[UPDATES_DIR] == t[UPDATES_DIR])
    ensures LoadCheck(t, order).0 == LoadCheck(s, order).0
  {
    LoadFrame(s, t);
    PreparedFacts(s);
    PreparedFacts(t);
    PreparedIgnoresIncomplete(s, t);
    UpdateRecordsIgnoreIncomplete(Prepared(s), Prepared(t), order);
    PreparedUpdatesDir(s);
    PreparedUpdatesDir(t);
    LoadCheckResult(s, order);
    LoadCheckResult(t, order);
  }

  /** The updates directory is a directory after the layout step unless something else held its name. */
  lemma PreparedUpdatesDir(s: Store)
    ensures IsDirectory(Prepared(s), UPDATES_DIR) <==> UPDATES_DIR !in s || s[UPDATES_DIR] == Dir
  {
    DirectoriesAreNotFiles("");
    var s0 := CreateLayout(s);
    assert UPDATES_DIR in s0 && (UPDATES_DIR in s ==> s0[UPDATES_DIR] == s[UPDATES_DIR]);
    assert UPDATES_DIR !in s ==> s0[UPDATES_DIR] == Dir;
  }

  /** The database (or error) database_load_check returns, from what it reads. */
  function LoadResult(cur: Result<Database, LoadError>, p: Store, order: seq<string>): Result<Database, LoadError> {
    if cur.Err? then cur
    else if !IsDirectory(p, UPDATES_DIR) then Err(NotADirectory(UPDATES_DIR))
    else if order == [] then cur
    else
      match UpdateRecords(p, order)
      case Err(e) => Err(e)
      case Ok(recs) => Ok(InsertAll(cur.value, recs))
  }

  lemma LoadCheckResult(s: Store, order: seq<string>)
    ensures LoadCheck(s, order).0 == LoadResult(LoadCurrentDatabase(CreateLayout(s)).0, Prepared(s), order)
  {
  }

  lemma PreparedIgnoresIncomplete(s: Store, t: Store)
    requires AgreeBesidesIncomplete(s, t)
    requires SameUpdates(s, Prepared(s)) && SameUpdates(t, Prepared(t))
    ensures AgreeBesidesIncomplete(Prepared(s), Prepared(t))
  {
  }

  /**
   * From a journaled state, a stop between writing `incomplete` and renaming
   * it loses exactly the record being written: the restart loads the base
   * with the earlier pending records.
   */
  lemma StoppedBeforeRename(s: Store, base: Database, first: nat, pending: seq<StatusParagraph>,
                            rec: StatusParagraph, order: seq<string>)
    requires Journaled(s, base, first, pending)
    requires Replayed(s, order) == PendingNames(first, |pending|)
    ensures LoadCheck(s[UpdatePath(INCOMPLETE) := File(Stanzas([ToParagraph(rec)]))], order).0 ==
      Ok(InsertAll(base, pending))
  {
    IncompleteInvisible(s, Stanzas([ToParagraph(rec)]), order);
    Reload(s, base, first, pending, order);
  }

  /** Two listed update files, each holding one record, read as those records in listing order. */
  lemma ReadTwo(s: Store, m: string, n: string, x: StatusParagraph, y: StatusParagraph)
    requires Holds(s, m, x) && Holds(s, n, y)
    ensures ReadUpdates(s, [m, n]) == Ok([x, y])
  {
    assert StatusRecords([ToParagraph(x)]) == [x] && StatusRecords([ToParagraph(y)]) == [y];
    assert [m, n][..1] == [m] && [m][..0] == [];
    assert ReadUpdates(s, [m]) == Ok([] + [x]);
    assert [] + [x] == [x] && [x] + [y] == [x, y];
  }

  /** Replaying two records is two inserts, in that order. */
  lemma ReplayTwo(base: Database, x: StatusParagraph, y: StatusParagraph)
    ensures InsertAll(base, [x, y]) == Insert(Insert(base, x), y)
  {
    assert [x][..0] == [];
    assert InsertAll(base, [x]) == Insert(base, x);
    assert [x, y][..1] == [x];
  }

  // ---------------------------------------------------------------------
  // Preservation
  // ---------------------------------------------------------------------

  /** The loaded database depends only on the three status names. */
  lemma LoadFrame(s: Store, t: Store)
    requires forall p :: IsRotated(p) ==> (p in s <==> p in t) && (p in s ==> s[p] == t[p])
    ensures LoadCurrentDatabase(CreateLayout(s)).0 == LoadCurrentDatabase(CreateLayout(t)).0
  {
    DirectoriesAreNotFiles("");
    var a, b := CreateLayout(s), CreateLayout(t);
    assert STATUS_FILE in a <==> STATUS_FILE in b;
    assert STATUS_OLD in a <==> STATUS_OLD in b;
    if STATUS_FILE in a {
      assert a[STATUS_FILE] == b[STATUS_FILE];
      ReadStatusFrame(a, b);
    } else if STATUS_OLD in a {
      assert a[STATUS_OLD] == b[STATUS_OLD];
      ReadStatusFrame(Rename(a, STATUS_OLD, STATUS_FILE), Rename(b, STATUS_OLD, STATUS_FILE));
    }
  }

  lemma ReadStatusFrame(a: Store, b: Store)
    requires STATUS_FILE in a && STATUS_FILE in b && a[STATUS_FILE] == b[STATUS_FILE]
    ensures ReadStatusFile(a) == ReadStatusFile(b)
  {
  }

  /** Committing the next record extends the journal by that record. */
  lemma JournaledCommit(s: Store, base: Database, first: nat, pending: seq<StatusParagraph>, rec: StatusParagraph, id: nat)
    requires Journaled(s, base, first, pending)
    requires id == first + |pending|
    ensures Journaled(CommitUpdate(s, id, rec), base, first, pending + [rec])
  {
    var t := CommitUpdate(s, id, rec);
    assert LoadCurrentDatabase(CreateLayout(t)).0 == Ok(base) && IsDirectory(t, UPDATES_DIR) by {
      CommitKeepsLayout(s, id, rec);
    }
    CommitKeepsOthers(s, first, pending, rec, id);
    CommitAddsOne(s, first, pending, rec, id);
  }

  /** A commit leaves the status files and the updates directory alone. */
  lemma CommitKeepsLayout(s: Store, id: nat, rec: StatusParagraph)
    ensures LoadCurrentDatabase(CreateLayout(CommitUpdate(s, id, rec))).0 == LoadCurrentDatabase(CreateLayout(s)).0
    ensures IsDirectory(s, UPDATES_DIR) ==> IsDirectory(CommitUpdate(s, id, rec), UPDATES_DIR)
  {
    var t := CommitUpdate(s, id, rec);
    LayoutDisjoint(Decimal(id), "");
    LayoutDisjoint(INCOMPLETE, "");
    LoadFrame(s, t);
    DirectoriesAreNotFiles(Decimal(id));
    DirectoriesAreNotFiles(INCOMPLETE);
  }

  lemma CommitKeepsOthers(s: Store, first: nat, pending: seq<StatusParagraph>, rec: StatusParagraph, id: nat)
    requires forall i :: 0 <= i < |pending| ==> Holds(s, Decimal(first + i), pending[i])
    requires id == first + |pending|
    ensures var t := CommitUpdate(s, id, rec);
      forall i :: 0 <= i < |pending + [rec]| ==> Holds(t, Decimal(first + i), (pending + [rec])[i])
  {
    var t := CommitUpdate(s, id, rec);
    var p := pending + [rec];
    forall i | 0 <= i < |p| ensures Holds(t, Decimal(first + i), p[i]) {
      if i < |pending| {
        assert Holds(s, Decimal(first + i), pending[i]);
        UpdatePathInjective(Decimal(first + i), Decimal(id));
        if Decimal(first + i) == Decimal(id) {
          DecimalInjective(first + i, id);
        }
        UpdatePathInjective(Decimal(first + i), INCOMPLETE);
        DecimalIsUpdateName(first + i);
      } else {
        assert StatusRecords([ToParagraph(rec)]) == [rec];
      }
    }
  }

  lemma CommitAddsOne(s: Store, first: nat, pending: seq<StatusParagraph>, rec: StatusParagraph, id: nat)
    requires forall n :: IsName(n) && IsFile(s, UpdatePath(n)) ==> n in PendingNames(first, |pending|)
    requires id == first + |pending|
    ensures var t := CommitUpdate(s, id, rec);
      forall n :: IsName(n) && IsFile(t, UpdatePath(n)) ==> n in PendingNames(first, |pending + [rec]|)
  {
    var t := CommitUpdate(s, id, rec);
    assert |pending + [rec]| == |pending| + 1;
    forall n | IsName(n) && IsFile(t, UpdatePath(n)) ensures n in PendingNames(first, |pending| + 1) {
      UpdatePathInjective(n, Decimal(id));
      UpdatePathInjective(n, INCOMPLETE);
      if n != Decimal(id) {
        assert n in PendingNames(first, |pending|);
        var i :| 0 <= i < |pending| && PendingNames(first, |pending|)[i] == n;
        assert PendingNames(first, |pending| + 1)[i] == n;
      } else {
        assert PendingNames(first, |pending| + 1)[|pending|] == n;
      }
    }
  }

  /** Changes confined to the installed tree and the info directory keep the journal. */
  lemma JournaledFrame(s: Store, t: Store, base: Database, first: nat, pending: seq<StatusParagraph>)
    requires Journaled(s, base, first, pending)
    requires PayloadChangeOnly(s, t)
    ensures Journaled(t, base, first, pending)
  {
    JournalFilesKept(s, t);
    LoadFrame(s, t);
    assert IsDirectory(t, UPDATES_DIR);
    forall i | 0 <= i < |pending| ensures Holds(t, Decimal(first + i), pending[i]) {
      assert Holds(s, Decimal(first + i), pending[i]);
    }
    forall n | IsName(n) && IsFile(t, UpdatePath(n)) ensures n in PendingNames(first, |pending|) {
      assert IsFile(s, UpdatePath(n));
    }
  }

  /** The status files, the updates directory and every update file lie outside the payload. */
  lemma JournalFilesKept(s: Store, t: Store)
    requires PayloadChangeOnly(s, t)
    ensures forall q :: IsRotated(q) ==> (q in s <==> q in t) && (q in s ==> s[q] == t[q])
    ensures UPDATES_DIR in s <==> UPDATES_DIR in t
    ensures UPDATES_DIR in s ==> s[UPDATES_DIR] == t[UPDATES_DIR]
    ensures forall n :: (UpdatePath(n) in s <==> UpdatePath(n) in t) && (UpdatePath(n) in s ==> s[UpdatePath(n)] == t[UpdatePath(n)])
  {
    forall q | IsRotated(q) || q == UPDATES_DIR ensures !InPayload(q) {
      if InPayload(q) {
        PayloadApart(q, "");
      }
    }
    forall n ensures !InPayload(UpdatePath(n)) {
      if InPayload(UpdatePath(n)) {
        PayloadApart(UpdatePath(n), n);
      }
    }
  }

  /** Installing a package's files touches only the payload. */
  lemma InstallIsPayload(s: Store, spec: PackageSpec, es: seq<StagedEntry>)
    ensures PayloadChangeOnly(s, InstallFiles(s, spec, es))
  {
    var r := InstallFiles(s, spec, es);
    var w := Walked(es);
    InstallOutcome(s, spec, es);
    forall p | !InPayload(p) ensures (p in s <==> p in r) && (p in s ==> s[p] == r[p]) {
      assert p != ListfilePath(spec);
      assert p != InstalledPath(spec.triplet);
      forall i | 0 <= i < |w| ensures p != InstalledTarget(spec.triplet, w[i]) {
        assert InstalledTarget(spec.triplet, w[i])[..10] == "installed/";
      }
    }
  }

  /** Removing a package's files touches only the payload. */
  lemma RemovalIsPayload(s: Store, spec: PackageSpec, broken: set<Path>)
    ensures PayloadChangeOnly(s, RemovePackageFiles(s, ListfilePath(spec), broken))
  {
    var r := RemovePackageFiles(s, ListfilePath(spec), broken);
    var lines := ListfileContents(s, ListfilePath(spec));
    RemovalOutcome(s, spec, broken);
    forall p | !InPayload(p) ensures (p in s <==> p in r) && (p in s ==> s[p] == r[p]) {
      assert p != ListfilePath(spec);
      forall i | 0 <= i < |lines| ensures p != LineTargets(lines)[i] {
        assert LineTargets(lines)[i][..10] == "installed/";
      }
    }
  }

  /** A successful load leaves a journal with no pending record, based on the loaded database. */
  lemma JournaledAfterLoad(s: Store, order: seq<string>, first: nat)
    requires ListsUpdates(s, order)
    requires LoadCheck(s, order).0.Ok?
    ensures Journaled(LoadCheck(s, order).1, LoadCheck(s, order).0.value, first, [])
  {
    if order == [] {
      LoadedWithoutUpdates(s, first);
    } else {
      LoadedWithUpdates(s, order, first);
    }
  }

  /** JournaledAfterLoad for an empty updates directory: nothing is rewritten. */
  lemma LoadedWithoutUpdates(s: Store, first: nat)
    requires ListsUpdates(s, []) && LoadCheck(s, []).0.Ok?
    ensures Journaled(LoadCheck(s, []).1, LoadCheck(s, []).0.value, first, [])
  {
    var t := LoadCheck(s, []).1;
    PreparedFacts(s);
    assert t == Prepared(s);
    ReloadAfterRotation(s, Serialize([]), 0);
    assert RotationPrefix(t, Serialize([]), 0) == t;
    assert CreateLayout(t) == t;
    assert forall n :: IsName(n) ==> !IsFile(t, UpdatePath(n));
  }

  /** JournaledAfterLoad after a compaction: the merged database is the new base. */
  lemma LoadedWithUpdates(s: Store, order: seq<string>, first: nat)
    requires ListsUpdates(s, order) && order != []
    requires LoadCheck(s, order).0.Ok?
    ensures Journaled(LoadCheck(s, order).1, LoadCheck(s, order).0.value, first, [])
  {
    var r := LoadCheck(s, order).0;
    LoadCheckReplays(s, order);
    CleanedStore(s, order, Serialize(r.value), |order|);
    assert order[..|order|] == order;
    CompactionOutcome(s, order);
  }
}
