/**
 * The record lifecycle of install_package and deinstall_package, and what
 * each leaves on disk: install journals half_installed then installed
 * around copying the files; removal journals purge/half_installed, removes
 * the files and the listfile, then journals not_installed. Both keep the
 * journal, so a restart that replays the updates in id order rebuilds the
 * database the running process holds.
 */
module Lifecycle {
  import opened Wrappers
  import opened Records
  import opened FileSystem
  import opened StatusDb
  import opened Journal
  import opened Listfile
  import opened Durability

  /** The record an install writes first: wanted installed, half installed. */
  function HalfInstalledRecord(pkg: BinaryParagraph): (r: StatusParagraph)
    ensures r.package == pkg && r.want == Install && r.state == HalfInstalled
  {
    StatusParagraph(pkg, Install, HalfInstalled)
  }

  /** The record an install writes last: the same, now installed. */
  function InstalledRecord(pkg: BinaryParagraph): (r: StatusParagraph)
    ensures r == HalfInstalledRecord(pkg).(state := Installed)
  {
    StatusParagraph(pkg, Install, Installed)
  }

  /** The record a removal writes first: the package's record, wanted purged, half installed. */
  function PurgingRecord(p: StatusParagraph): (r: StatusParagraph)
    ensures r.package == p.package && r.want == Purge && r.state == HalfInstalled
  {
    p.(want := Purge, state := HalfInstalled)
  }

  /** The record a removal writes last: purged and not installed. */
  function RemovedRecord(p: StatusParagraph): (r: StatusParagraph)
    ensures r == PurgingRecord(p).(state := NotInstalled)
  {
    p.(want := Purge, state := NotInstalled)
  }

  /**
   * The records install_package journals: half installed, then installed,
   * unless the walk over the staged tree throws, which leaves only the first.
   */
  function InstallUpdates(pkg: BinaryParagraph, es: seq<StagedEntry>): (r: seq<StatusParagraph>)
    ensures 0 < |r| <= 2 && r[0].state == HalfInstalled
    ensures forall i :: 0 <= i < |r| ==> r[i].package == pkg && r[i].want == Install
    ensures r[|r| - 1].state == Installed <==> !WalkAborts(es)
  {
    if WalkAborts(es) then [HalfInstalledRecord(pkg)] else [HalfInstalledRecord(pkg), InstalledRecord(pkg)]
  }

  /**
   * The store after install_package, from the store `s` before it, with the
   * update counter at `id`: first update, the files and the listfile, and
   * the second update unless the walk threw.
   */
  function InstallEffect(s: Store, id: nat, pkg: BinaryParagraph, es: seq<StagedEntry>): (r: Store)
    ensures !WalkAborts(es) ==> IsFile(r, UpdatePath(Decimal(id + 1))) && UpdatePath(INCOMPLETE) !in r
    ensures !WalkAborts(es) ==> ParseParagraphs(r[UpdatePath(Decimal(id + 1))].content) == Ok([ToParagraph(InstalledRecord(pkg))])
  {
    var s2 := InstallFiles(CommitUpdate(s, id, HalfInstalledRecord(pkg)), pkg.spec, es);
    if WalkAborts(es) then s2 else CommitUpdate(s2, id + 1, InstalledRecord(pkg))
  }

  /** The store after deinstall_package removed the package whose record is `p`. */
  function RemovalEffect(s: Store, id: nat, p: StatusParagraph, broken: set<Path>): (r: Store)
    ensures IsFile(r, UpdatePath(Decimal(id + 1))) && UpdatePath(INCOMPLETE) !in r
    ensures ParseParagraphs(r[UpdatePath(Decimal(id + 1))].content) == Ok([ToParagraph(RemovedRecord(p))])
  {
    CommitUpdate(RemovePackageFiles(CommitUpdate(s, id, PurgingRecord(p)), ListfilePath(p.package.spec), broken),
                 id + 1, RemovedRecord(p))
  }

  /** Two records appended one at a time are the two appended together. */
  lemma AppendTwo(pending: seq<StatusParagraph>, a: StatusParagraph, b: StatusParagraph)
    ensures pending + [a] + [b] == pending + [a, b]
    ensures (pending + [a] + [b])[..|pending| + 1] == pending + [a]
    ensures (pending + [a])[..|pending|] == pending
  {
  }

  /** Two updates written one after the other are replayed one after the other. */
  lemma InsertAllTwo(base: Database, pending: seq<StatusParagraph>, a: StatusParagraph, b: StatusParagraph)
    ensures InsertAll(base, pending + [a, b]) == Insert(Insert(InsertAll(base, pending), a), b)
  {
    AppendTwo(pending, a, b);
    var p1 := pending + [a];
    assert InsertAll(base, p1) == Insert(InsertAll(base, pending), a);
    assert InsertAll(base, p1 + [b]) == Insert(InsertAll(base, p1), b);
  }

  /** The first half of an install keeps the journal: the half-installed record is pending. */
  lemma InstallFirstHalf(s: Store, base: Database, first: nat, pending: seq<StatusParagraph>,
                         pkg: BinaryParagraph, es: seq<StagedEntry>)
    requires Journaled(s, base, first, pending)
    ensures Journaled(InstallFiles(CommitUpdate(s, first + |pending|, HalfInstalledRecord(pkg)), pkg.spec, es),
                      base, first, pending + [HalfInstalledRecord(pkg)])
  {
    var s1 := CommitUpdate(s, first + |pending|, HalfInstalledRecord(pkg));
    JournaledCommit(s, base, first, pending, HalfInstalledRecord(pkg), first + |pending|);
    InstallIsPayload(s1, pkg.spec, es);
    JournaledFrame(s1, InstallFiles(s1, pkg.spec, es), base, first, pending + [HalfInstalledRecord(pkg)]);
  }

  /**
   * An install keeps the journal: the records it writes join the pending
   * updates under the next ids.
   */
  lemma InstallKeepsJournal(s: Store, base: Database, first: nat, pending: seq<StatusParagraph>,
                            pkg: BinaryParagraph, es: seq<StagedEntry>)
    requires Journaled(s, base, first, pending)
    ensures Journaled(InstallEffect(s, first + |pending|, pkg, es), base, first, pending + InstallUpdates(pkg, es))
  {
    var s2 := InstallFiles(CommitUpdate(s, first + |pending|, HalfInstalledRecord(pkg)), pkg.spec, es);
    InstallFirstHalf(s, base, first, pending, pkg, es);
    if !WalkAborts(es) {
      SecondCommit(s2, base, first, pending, HalfInstalledRecord(pkg), InstalledRecord(pkg));
    }
  }

  /** The second of two commits extends the journal by its record, after the first one's. */
  lemma SecondCommit(s2: Store, base: Database, first: nat, pending: seq<StatusParagraph>,
                     a: StatusParagraph, b: StatusParagraph)
    requires Journaled(s2, base, first, pending + [a])
    ensures Journaled(CommitUpdate(s2, first + |pending| + 1, b), base, first, pending + [a, b])
  {
    JournaledCommit(s2, base, first, pending + [a], b, first + |pending| + 1);
    AppendTwo(pending, a, b);
  }

  /** The first half of a removal keeps the journal: the purging record is pending. */
  lemma RemovalFirstHalf(s: Store, base: Database, first: nat, pending: seq<StatusParagraph>,
                         p: StatusParagraph, broken: set<Path>)
    requires Journaled(s, base, first, pending)
    ensures Journaled(RemovePackageFiles(CommitUpdate(s, first + |pending|, PurgingRecord(p)),
                                         ListfilePath(p.package.spec), broken),
                      base, first, pending + [PurgingRecord(p)])
  {
    var s1 := CommitUpdate(s, first + |pending|, PurgingRecord(p));
    JournaledCommit(s, base, first, pending, PurgingRecord(p), first + |pending|);
    RemovalIsPayload(s1, p.package.spec, broken);
    JournaledFrame(s1, RemovePackageFiles(s1, ListfilePath(p.package.spec), broken), base, first,
                   pending + [PurgingRecord(p)]);
  }

  /** A removal keeps the journal: its two records join the pending updates under the next two ids. */
  lemma RemovalKeepsJournal(s: Store, base: Database, first: nat, pending: seq<StatusParagraph>,
                            p: StatusParagraph, broken: set<Path>)
    requires Journaled(s, base, first, pending)
    ensures Journaled(RemovalEffect(s, first + |pending|, p, broken), base, first,
                      pending + [PurgingRecord(p), RemovedRecord(p)])
  {
    var s2 := RemovePackageFiles(CommitUpdate(s, first + |pending|, PurgingRecord(p)),
                                 ListfilePath(p.package.spec), broken);
    RemovalFirstHalf(s, base, first, pending, p, broken);
    SecondCommit(s2, base, first, pending, PurgingRecord(p), RemovedRecord(p));
  }

  /**
   * After an install, the database holds the package with the package
   * paragraph it was given: installed, or half installed when the walk
   * threw. Every other key keeps its record.
   */
  lemma InstallRecords(db: Database, pkg: BinaryParagraph, es: seq<StagedEntry>)
    ensures var r := InsertAll(db, InstallUpdates(pkg, es));
      && Lookup(r, pkg.spec) == Some(if WalkAborts(es) then HalfInstalledRecord(pkg) else InstalledRecord(pkg))
      && (forall k :: k != pkg.spec ==> Lookup(r, k) == Lookup(db, k))
      && (FindInstalled(r, pkg.spec).Some? <==> !WalkAborts(es))
  {
    InstallUpdatesReplay(db, pkg, es);
  }

  /** Replaying the install's records is inserting them one after the other. */
  lemma InstallUpdatesReplay(db: Database, pkg: BinaryParagraph, es: seq<StagedEntry>)
    ensures InsertAll(db, InstallUpdates(pkg, es)) ==
      if WalkAborts(es) then Insert(db, HalfInstalledRecord(pkg))
      else Insert(Insert(db, HalfInstalledRecord(pkg)), InstalledRecord(pkg))
  {
    var a, b := HalfInstalledRecord(pkg), InstalledRecord(pkg);
    assert [a][..0] == [];
    assert InsertAll(db, [a]) == Insert(db, a);
    assert [a, b][..1] == [a];
    assert InsertAll(db, [a, b]) == Insert(InsertAll(db, [a]), b);
  }

  /**
   * After a removal, the record stays in the database, in place, as purged
   * and not installed; nothing else changes.
   */
  lemma RemovalRecords(db: Database, i: nat)
    requires i < |db| && Find(db, KeyOf(db[i])) == Some(i)
    ensures var r := db[i := RemovedRecord(db[i])];
      && r == Insert(Insert(db, PurgingRecord(db[i])), RemovedRecord(db[i]))
      && |r| == |db|
      && Lookup(r, KeyOf(db[i])) == Some(RemovedRecord(db[i]))
      && (forall k :: k != KeyOf(db[i]) ==> Lookup(r, k) == Lookup(db, k))
      && FindInstalled(r, KeyOf(db[i])).None?
  {
    var p := db[i];
    var d1 := db[i := PurgingRecord(p)];
    assert d1 == Insert(db, PurgingRecord(p));
    assert Find(d1, KeyOf(p)) == Some(i) by {
      FindFirst(d1, KeyOf(p), Some(i));
    }
    assert d1[i := RemovedRecord(p)] == db[i := RemovedRecord(p)];
  }

  /**
   * Installing and then removing a package leaves its record purged and not
   * installed, wherever the install stopped; every other key keeps the
   * record it had before the install.
   */
  lemma InstallThenRemoveRecords(db: Database, pkg: BinaryParagraph, es: seq<StagedEntry>)
    ensures var d1 := InsertAll(db, InstallUpdates(pkg, es));
      && Find(d1, pkg.spec).Some?
      && var i := Find(d1, pkg.spec).value;
         var d2 := d1[i := RemovedRecord(d1[i])];
         && d1[i].package == pkg
         && Lookup(d2, pkg.spec) == Some(StatusParagraph(pkg, Purge, NotInstalled))
         && FindInstalled(d2, pkg.spec).None?
         && (forall k :: k != pkg.spec ==> Lookup(d2, k) == Lookup(db, k))
  {
    var d1 := InsertAll(db, InstallUpdates(pkg, es));
    InstallRecords(db, pkg, es);
    var i := Find(d1, pkg.spec).value;
    RemovalRecords(d1, i);
  }

  /**
   * An install survives a restart: from a journaled state whose pending
   * updates rebuild the database, a restart after the install that replays
   * the update files in id order loads the database the running process
   * holds, the install's records replayed over it.
   */
  lemma InstallSurvivesRestart(s: Store, base: Database, first: nat, pending: seq<StatusParagraph>,
                               pkg: BinaryParagraph, es: seq<StagedEntry>, order: seq<string>)
    requires Journaled(s, base, first, pending)
    requires var t := InstallEffect(s, first + |pending|, pkg, es);
      Replayed(t, order) == PendingNames(first, |pending| + |InstallUpdates(pkg, es)|)
    ensures LoadCheck(InstallEffect(s, first + |pending|, pkg, es), order).0 ==
      Ok(InsertAll(InsertAll(base, pending), InstallUpdates(pkg, es)))
  {
    var t := InstallEffect(s, first + |pending|, pkg, es);
    var p := pending + InstallUpdates(pkg, es);
    InstallKeepsJournal(s, base, first, pending, pkg, es);
    Reload(t, base, first, p, order);
    InsertAllAppend(base, pending, InstallUpdates(pkg, es));
  }

  /** A removal survives a restart in the same way. */
  lemma RemovalSurvivesRestart(s: Store, base: Database, first: nat, pending: seq<StatusParagraph>,
                               p: StatusParagraph, broken: set<Path>, order: seq<string>)
    requires Journaled(s, base, first, pending)
    requires var t := RemovalEffect(s, first + |pending|, p, broken);
      Replayed(t, order) == PendingNames(first, |pending| + 2)
    ensures LoadCheck(RemovalEffect(s, first + |pending|, p, broken), order).0 ==
      Ok(Insert(Insert(InsertAll(base, pending), PurgingRecord(p)), RemovedRecord(p)))
  {
    var t := RemovalEffect(s, first + |pending|, p, broken);
    var q := pending + [PurgingRecord(p), RemovedRecord(p)];
    RemovalKeepsJournal(s, base, first, pending, p, broken);
    Reload(t, base, first, q, order);
    InsertAllTwo(base, pending, PurgingRecord(p), RemovedRecord(p));
  }
}
