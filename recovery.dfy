/**
 * What database_load_check leaves behind, and why a stop at any point of the
 * compaction loses nothing: the next load, listing the updates directory in
 * the same relative order, rebuilds a database with the same records.
 */
module Recovery {
  import opened Wrappers
  import opened Records
  import opened FileSystem
  import opened StatusDb
  import opened Journal

  /** `s` and `t` hold the same entries at the given update names. */
  ghost predicate AgreeOn(s: Store, t: Store, names: seq<string>) {
    forall i :: 0 <= i < |names| ==>
      && (UpdatePath(names[i]) in s <==> UpdatePath(names[i]) in t)
      && (UpdatePath(names[i]) in s ==> s[UpdatePath(names[i])] == t[UpdatePath(names[i])])
  }

  /** `s` and `t` hold the same entries at every update path. */
  ghost predicate SameUpdates(s: Store, t: Store) {
    forall n :: (UpdatePath(n) in s <==> UpdatePath(n) in t) && (UpdatePath(n) in s ==> s[UpdatePath(n)] == t[UpdatePath(n)])
  }

  /** The entries of `names` still present in `s`, in the same order. */
  function Present(s: Store, names: seq<string>): (r: seq<string>)
    ensures forall n :: n in r <==> n in names && UpdatePath(n) in s
    ensures (forall i, j :: 0 <= i < j < |names| ==> names[i] != names[j]) ==>
            (forall i, j :: 0 <= i < j < |r| ==> r[i] != r[j])
    decreases |names|
  {
    if names == [] then []
    else
      var init := names[..|names| - 1];
      var last := names[|names| - 1];
      var prev := Present(s, init);
      assert (forall i, j :: 0 <= i < j < |names| ==> names[i] != names[j]) ==> last !in init;
      prev + (if UpdatePath(last) in s then [last] else [])
  }

  // ---------------------------------------------------------------------
  // Frame and split lemmas about the replay
  // ---------------------------------------------------------------------

  lemma {:induction false} ReadUpdatesFrame(s: Store, t: Store, names: seq<string>)
    requires forall i :: 0 <= i < |names| ==> IsFile(s, UpdatePath(names[i]))
    requires AgreeOn(s, t, names)
    ensures forall i :: 0 <= i < |names| ==> IsFile(t, UpdatePath(names[i]))
    ensures ReadUpdates(s, names) == ReadUpdates(t, names)
    decreases |names|
  {
    if names != [] {
      ReadUpdatesFrame(s, t, names[..|names| - 1]);
    }
  }

  lemma {:induction false} ReplayedFrame(s: Store, t: Store, names: seq<string>)
    requires AgreeOn(s, t, names)
    ensures Replayed(s, names) == Replayed(t, names)
    decreases |names|
  {
    if names != [] {
      ReplayedFrame(s, t, names[..|names| - 1]);
    }
  }

  /** The replay reads only the update entries it lists. */
  lemma UpdateRecordsFrame(s: Store, t: Store, names: seq<string>)
    requires AgreeOn(s, t, names)
    ensures Replayed(s, names) == Replayed(t, names)
    ensures UpdateRecords(s, names) == UpdateRecords(t, names)
  {
    ReplayedFrame(s, t, names);
    var r := Replayed(s, names);
    forall i | 0 <= i < |r|
      ensures (UpdatePath(r[i]) in s <==> UpdatePath(r[i]) in t)
      ensures UpdatePath(r[i]) in s ==> s[UpdatePath(r[i])] == t[UpdatePath(r[i])]
    {
      assert r[i] in names;
      var j :| 0 <= j < |names| && names[j] == r[i];
    }
    ReadUpdatesFrame(s, t, r);
  }

  /** `s` and `t` hold the same entries at every update path except the temporary one. */
  ghost predicate AgreeBesidesIncomplete(s: Store, t: Store) {
    forall n :: n != INCOMPLETE ==>
      && (UpdatePath(n) in s <==> UpdatePath(n) in t)
      && (UpdatePath(n) in s ==> s[UpdatePath(n)] == t[UpdatePath(n)])
  }

  lemma {:induction false} ReplayedIgnoresIncomplete(s: Store, t: Store, names: seq<string>)
    requires AgreeBesidesIncomplete(s, t)
    ensures Replayed(s, names) == Replayed(t, names)
    decreases |names|
  {
    if names != [] {
      ReplayedIgnoresIncomplete(s, t, names[..|names| - 1]);
      var last := names[|names| - 1];
      assert IsReplayed(s, last) <==> IsReplayed(t, last);
    }
  }

  /** The replay never reads the temporary update file, whatever it holds. */
  lemma UpdateRecordsIgnoreIncomplete(s: Store, t: Store, names: seq<string>)
    requires AgreeBesidesIncomplete(s, t)
    ensures Replayed(s, names) == Replayed(t, names)
    ensures UpdateRecords(s, names) == UpdateRecords(t, names)
  {
    ReplayedIgnoresIncomplete(s, t, names);
    var r := Replayed(s, names);
    forall i | 0 <= i < |r|
      ensures (UpdatePath(r[i]) in s <==> UpdatePath(r[i]) in t)
      ensures UpdatePath(r[i]) in s ==> s[UpdatePath(r[i])] == t[UpdatePath(r[i])]
    {
      assert IsReplayed(s, r[i]);
    }
    ReadUpdatesFrame(s, t, r);
  }

  lemma {:induction false} ReplayedSplit(s: Store, a: seq<string>, b: seq<string>)
    ensures Replayed(s, a + b) == Replayed(s, a) + Replayed(s, b)
    decreases |b|
  {
    if b == [] {
      assert a + b == a;
    } else {
      assert (a + b)[..|a + b| - 1] == a + b[..|b| - 1];
      ReplayedSplit(s, a, b[..|b| - 1]);
    }
  }

  lemma {:induction false} ReadUpdatesSplit(s: Store, a: seq<string>, b: seq<string>)
    requires forall i :: 0 <= i < |a| ==> IsFile(s, UpdatePath(a[i]))
    requires forall i :: 0 <= i < |b| ==> IsFile(s, UpdatePath(b[i]))
    requires forall i :: 0 <= i < |a + b| ==> IsFile(s, UpdatePath((a + b)[i]))
    ensures ReadUpdates(s, a + b).Ok? ==>
      && ReadUpdates(s, a).Ok? && ReadUpdates(s, b).Ok?
      && ReadUpdates(s, a + b).value == ReadUpdates(s, a).value + ReadUpdates(s, b).value
    decreases |b|
  {
    if b == [] {
      assert a + b == a;
    } else {
      var b' := b[..|b| - 1];
      assert (a + b)[..|a + b| - 1] == a + b';
      ReadUpdatesSplit(s, a, b');
    }
  }

  lemma {:induction false} ReplayedPresent(s: Store, names: seq<string>)
    ensures Replayed(s, Present(s, names)) == Replayed(s, names)
    decreases |names|
  {
    if names != [] {
      var init := names[..|names| - 1];
      var last := names[|names| - 1];
      ReplayedPresent(s, init);
      if UpdatePath(last) in s {
        assert Present(s, names) == Present(s, init) + [last];
        ReplayedSplit(s, Present(s, init), [last]);
      } else {
        assert Present(s, names) == Present(s, init);
      }
    }
  }

  /** Names none of which is a regular file are not replayed. */
  lemma {:induction false} ReplayedNone(s: Store, names: seq<string>)
    requires forall i :: 0 <= i < |names| ==> !IsFile(s, UpdatePath(names[i]))
    ensures Replayed(s, names) == []
    decreases |names|
  {
    if names != [] {
      ReplayedNone(s, names[..|names| - 1]);
    }
  }

  lemma SameUpdatesAgree(s: Store, t: Store, names: seq<string>)
    requires SameUpdates(s, t)
    ensures AgreeOn(s, t, names)
  {
  }

  lemma SameUpdatesLists(s: Store, t: Store, order: seq<string>)
    requires SameUpdates(s, t) && ListsUpdates(s, order)
    ensures ListsUpdates(t, order)
  {
  }

  // ---------------------------------------------------------------------
  // The store the replay starts from
  // ---------------------------------------------------------------------

  /** Creating the directories and taking back status-old touch no update entry. */
  lemma PreparedFacts(s: Store)
    ensures SameUpdates(s, Prepared(s))
    ensures INSTALLED_DIR in Prepared(s) && VCPKG_DIR in Prepared(s)
    ensures INFO_DIR in Prepared(s) && UPDATES_DIR in Prepared(s)
    ensures UPDATES_DIR in s ==> Prepared(s)[UPDATES_DIR] == s[UPDATES_DIR]
  {
    var s0 := CreateLayout(s);
    DirectoriesAreNotFiles("");
    forall n ensures (UpdatePath(n) in s <==> UpdatePath(n) in Prepared(s))
      && (UpdatePath(n) in s ==> s[UpdatePath(n)] == Prepared(s)[UpdatePath(n)])
    {
      DirectoriesAreNotFiles(n);
      LayoutDisjoint(n, "");
    }
  }

  /** One of the four directories the loader creates. */
  predicate IsLayoutDir(p: Path) {
    p == INSTALLED_DIR || p == VCPKG_DIR || p == INFO_DIR || p == UPDATES_DIR
  }

  /** The rotation touches only the three status names. */
  lemma RotationKeepsUpdates(s: Store, merged: Content, k: nat)
    requires k <= 5
    ensures SameUpdates(s, RotationPrefix(s, merged, k))
    ensures forall d :: IsLayoutDir(d) && d in s ==>
      d in RotationPrefix(s, merged, k) && RotationPrefix(s, merged, k)[d] == s[d]
  {
    DirectoriesAreNotFiles("");
    forall n ensures (UpdatePath(n) in s <==> UpdatePath(n) in RotationPrefix(s, merged, k))
      && (UpdatePath(n) in s ==> s[UpdatePath(n)] == RotationPrefix(s, merged, k)[UpdatePath(n)])
    {
      LayoutDisjoint(n, "");
    }
  }

  // ---------------------------------------------------------------------
  // End state of a completed load
  // ---------------------------------------------------------------------

  /**
   * With an empty updates directory the load returns the database it read
   * and does not rewrite `status`.
   */
  lemma LoadWithoutUpdates(s: Store)
    ensures LoadCheck(s, []).1 == Prepared(s)
    ensures LoadCheck(s, []).0.Ok? ==> LoadCheck(s, []).0 == LoadCurrentDatabase(CreateLayout(s)).0
    ensures STATUS_FILE in s ==> LoadCheck(s, []).1[STATUS_FILE] == s[STATUS_FILE]
    ensures (STATUS_NEW in LoadCheck(s, []).1 <==> STATUS_NEW in s)
    ensures STATUS_FILE !in s && STATUS_OLD !in s && !IsFile(s, UPDATES_DIR) ==> LoadCheck(s, []).0 == Ok([])
  {
    DirectoriesAreNotFiles("");
  }

  /**
   * After a compaction, `status` holds the merged database (and reads back
   * as it), neither `status-new` nor `status-old` exists, and no regular file
   * is left in the updates directory, `incomplete` included.
   */
  lemma CompactionOutcome(s: Store, order: seq<string>)
    requires ListsUpdates(s, order) && order != []
    requires LoadCheck(s, order).0.Ok?
    ensures var (r, t) := LoadCheck(s, order);
      && STATUS_FILE in t && t[STATUS_FILE] == File(Serialize(r.value))
      && ReadStatusFile(t) == r
      && STATUS_NEW !in t && STATUS_OLD !in t
      && (forall n :: IsName(n) ==> !IsFile(t, UpdatePath(n)))
    ensures var cur := LoadCurrentDatabase(CreateLayout(s)).0;
      cur.Ok? && LoadCheck(s, order).0.value == InsertAll(cur.value, UpdateRecords(Prepared(s), order).value)
  {
    var s1 := Prepared(s);
    var cur := LoadCurrentDatabase(CreateLayout(s)).0;
    var recs := UpdateRecords(s1, order).value;
    var db := InsertAll(cur.value, recs);
    var rot := Rotate(s1, Serialize(db));
    var t := RemoveUpdateFiles(rot, order);
    assert LoadCheck(s, order) == (Ok(db), t);
    PreparedFacts(s);
    RotationKeepsUpdates(s1, Serialize(db), 5);
    LayoutDisjoint("", "");
    forall n | IsName(n) ensures !IsFile(t, UpdatePath(n)) {
      LayoutDisjoint(n, "");
      if UpdatePath(n) in t {
        assert n in order;
        var i :| 0 <= i < |order| && order[i] == n;
      }
    }
    forall i | 0 <= i < |order| ensures STATUS_FILE != UpdatePath(order[i]) {
      LayoutDisjoint(order[i], "");
    }
  }

  // ---------------------------------------------------------------------
  // Stops part-way
  // ---------------------------------------------------------------------

  /**
   * A stop after any of the five rotation steps (lib.cpp lines 104-111) loses nothing:
   * a stop before `status-new` is renamed leaves the old `status` (or, between
   * the two renames, `status-old`, which the next load takes back), and the
   * next load replays every update again; a stop after it replays the updates
   * into the merged database, which changes no record.
   */
  lemma CrashDuringRotation(s: Store, order: seq<string>, k: nat)
    requires ListsUpdates(s, order) && order != [] && k <= 5
    requires LoadCheck(s, order).0.Ok?
    ensures var db := LoadCheck(s, order).0.value;
      var crashed := RotationPrefix(Prepared(s), Serialize(db), k);
      && ListsUpdates(crashed, order)
      && LoadCheck(crashed, order).0.Ok?
      && SameRecords(LoadCheck(crashed, order).0.value, db)
  {
    var s1 := Prepared(s);
    var cur := LoadCurrentDatabase(CreateLayout(s)).0;
    LoadCheckReplays(s, order);
    var recs := UpdateRecords(s1, order).value;
    var db := InsertAll(cur.value, recs);
    var c := RotationPrefix(s1, Serialize(db), k);
    RotatedStore(s, order, Serialize(db), k);
    ReloadAfterRotation(s, Serialize(db), k);
    assert LoadCurrentDatabase(CreateLayout(c)).0.Ok?;
    PreparedFacts(c);
    assert IsDirectory(Prepared(c), UPDATES_DIR);
    LoadCheckReplays(c, order);
    if k > 3 {
      ReplayIdempotent(cur.value, recs);
    }
  }

  /** With a non-empty listing, a successful load replays every update into the current database. */
  lemma LoadCheckReplays(s: Store, order: seq<string>)
    requires order != []
    ensures var cur := LoadCurrentDatabase(CreateLayout(s)).0;
      LoadCheck(s, order).0.Ok? <==>
        cur.Ok? && IsDirectory(Prepared(s), UPDATES_DIR) && UpdateRecords(Prepared(s), order).Ok?
    ensures var cur := LoadCurrentDatabase(CreateLayout(s)).0;
      LoadCheck(s, order).0.Ok? ==>
        LoadCheck(s, order).0.value == InsertAll(cur.value, UpdateRecords(Prepared(s), order).value)
  {
  }

  /** A store stopped part-way through the rotation keeps the layout and every update file. */
  lemma RotatedStore(s: Store, order: seq<string>, merged: Content, k: nat)
    requires ListsUpdates(s, order) && k <= 5 && IsDirectory(Prepared(s), UPDATES_DIR)
    ensures var c := RotationPrefix(Prepared(s), merged, k);
      && ListsUpdates(c, order) && CreateLayout(c) == c && IsDirectory(c, UPDATES_DIR)
      && UpdateRecords(Prepared(c), order) == UpdateRecords(Prepared(s), order)
  {
    var s1 := Prepared(s);
    var c := RotationPrefix(s1, merged, k);
    PreparedFacts(s);
    RotationKeepsUpdates(s1, merged, k);
    SameUpdatesLists(s, s1, order);
    SameUpdatesLists(s1, c, order);
    var p := Prepared(c);
    PreparedFacts(c);
    assert AgreeOn(p, s1, order);
    UpdateRecordsFrame(p, s1, order);
  }

  /**
   * Loading a store stopped part-way through the rotation: before `status-new`
   * is renamed the loader finds the database it started from, after it the
   * merged one.
   */
  lemma ReloadAfterRotation(s: Store, merged: Content, k: nat)
    requires k <= 5 && ParseParagraphs(merged).Ok?
    ensures var c := RotationPrefix(Prepared(s), merged, k);
      LoadCurrentDatabase(c).0 ==
        if k <= 3 then LoadCurrentDatabase(CreateLayout(s)).0
        else Ok(StatusRecords(merged.paragraphs))
  {
    var s1 := Prepared(s);
    var cur := LoadCurrentDatabase(CreateLayout(s)).0;
    if k <= 3 && STATUS_FILE !in s1 {
      assert STATUS_OLD !in s1 && cur == Ok([]);
    }
  }

  /** Removing update files keeps the directories and `status`. */
  lemma RemovalKeepsLayout(t: Store, names: seq<string>)
    ensures forall p :: (IsLayoutDir(p) || p == STATUS_FILE) && p in t ==>
      p in RemoveUpdateFiles(t, names) && RemoveUpdateFiles(t, names)[p] == t[p]
  {
    forall p | (IsLayoutDir(p) || p == STATUS_FILE) && p in t
      ensures p in RemoveUpdateFiles(t, names)
    {
      forall i | 0 <= i < |names| ensures p != UpdatePath(names[i]) {
        DirectoriesAreNotFiles(names[i]);
        LayoutDisjoint(names[i], "");
      }
    }
  }

  /** After some removals, the listing still present is the old listing filtered. */
  lemma PresentLists(t: Store, r: Store, order: seq<string>)
    requires ListsUpdates(t, order)
    requires forall k :: k in r ==> k in t
    ensures ListsUpdates(r, Present(r, order))
  {
    var rest := Present(r, order);
    forall i | 0 <= i < |rest| ensures IsName(rest[i]) && UpdatePath(rest[i]) in r {
      assert rest[i] in rest;
      var j :| 0 <= j < |order| && order[j] == rest[i];
    }
  }

  /**
   * Once the first `j` listed entries are removed, the replay of what is left
   * reads exactly the update files listed after them.
   */
  lemma SuffixStillThere(t: Store, order: seq<string>, j: nat)
    requires ListsUpdates(t, order) && j <= |order|
    ensures var c := RemoveUpdateFiles(t, order[..j]);
      UpdateRecords(c, Present(c, order)) == UpdateRecords(t, order[j..])
  {
    var c := RemoveUpdateFiles(t, order[..j]);
    RemovedHeadKeepsTail(t, order, j);
    ReplayAfterHeadRemoved(c, order, j);
    UpdateRecordsFrame(c, t, order[j..]);
  }

  /** When none of the first `j` listed entries is a regular file, the replay reads only the rest. */
  lemma ReplayAfterHeadRemoved(c: Store, order: seq<string>, j: nat)
    requires j <= |order|
    requires forall i :: 0 <= i < j ==> !IsFile(c, UpdatePath(order[..j][i]))
    ensures Replayed(c, Present(c, order)) == Replayed(c, order[j..])
  {
    var head, tail := order[..j], order[j..];
    assert order == head + tail;
    ReplayedNone(c, head);
    ReplayedPresent(c, order);
    ReplayedSplit(c, head, tail);
  }

  /** Removing the update files of the first `j` listed entries leaves those listed after them alone. */
  lemma RemovedHeadKeepsTail(t: Store, order: seq<string>, j: nat)
    requires ListsUpdates(t, order) && j <= |order|
    ensures AgreeOn(RemoveUpdateFiles(t, order[..j]), t, order[j..])
  {
    var head, tail := order[..j], order[j..];
    var c := RemoveUpdateFiles(t, head);
    forall m | 0 <= m < |tail|
      ensures (UpdatePath(tail[m]) in c <==> UpdatePath(tail[m]) in t)
      ensures UpdatePath(tail[m]) in c ==> c[UpdatePath(tail[m])] == t[UpdatePath(tail[m])]
    {
      forall i | 0 <= i < |head| ensures UpdatePath(tail[m]) != UpdatePath(head[i]) {
        UpdatePathInjective(tail[m], head[i]);
        assert head[i] == order[i] && tail[m] == order[j + m];
      }
    }
  }

  /** The records of a listing are the records of its first `j` entries, then of the rest. */
  lemma UpdateRecordsSplit(t: Store, order: seq<string>, j: nat)
    requires j <= |order|
    ensures UpdateRecords(t, order).Ok? ==>
      && UpdateRecords(t, order[..j]).Ok? && UpdateRecords(t, order[j..]).Ok?
      && UpdateRecords(t, order).value == UpdateRecords(t, order[..j]).value + UpdateRecords(t, order[j..]).value
  {
    assert order == order[..j] + order[j..];
    ReplayedSplit(t, order[..j], order[j..]);
    ReadUpdatesSplit(t, Replayed(t, order[..j]), Replayed(t, order[j..]));
  }

  /**
   * A stop in the clean-up loop (lib.cpp lines 113-119) after the first `j` listed
   * entries loses nothing: the next load reads the merged `status` and replays
   * only the update files still present, a tail of the journal, which changes
   * no record.
   */
  lemma CrashDuringCleanup(s: Store, order: seq<string>, j: nat)
    requires ListsUpdates(s, order) && order != [] && j <= |order|
    requires LoadCheck(s, order).0.Ok?
    ensures var db := LoadCheck(s, order).0.value;
      var crashed := RemoveUpdateFiles(Rotate(Prepared(s), Serialize(db)), order[..j]);
      var rest := Present(crashed, order);
      && ListsUpdates(crashed, rest)
      && LoadCheck(crashed, rest).0.Ok?
      && SameRecords(LoadCheck(crashed, rest).0.value, db)
  {
    var s1 := Prepared(s);
    var cur := LoadCurrentDatabase(CreateLayout(s)).0;
    LoadCheckReplays(s, order);
    var recs := UpdateRecords(s1, order).value;
    var db := InsertAll(cur.value, recs);
    var c := RemoveUpdateFiles(Rotate(s1, Serialize(db)), order[..j]);
    var rest := Present(c, order);
    CleanedStore(s, order, Serialize(db), j);
    if rest != [] {
      LoadCheckReplays(c, rest);
      UpdateRecordsSplit(s1, order, j);
      ReplaySuffixAgain(cur.value, UpdateRecords(s1, order[..j]).value, UpdateRecords(s1, order[j..]).value);
    }
  }

  /**
   * A store stopped in the clean-up loop holds the merged `status` and the
   * layout, and the update files it still holds are those listed after the stop.
   */
  lemma CleanedStore(s: Store, order: seq<string>, merged: Content, j: nat)
    requires ListsUpdates(s, order) && IsDirectory(Prepared(s), UPDATES_DIR) && j <= |order|
    requires ParseParagraphs(merged).Ok?
    ensures var c := RemoveUpdateFiles(Rotate(Prepared(s), merged), order[..j]);
      && CreateLayout(c) == c && IsDirectory(c, UPDATES_DIR)
      && LoadCurrentDatabase(c) == (Ok(StatusRecords(merged.paragraphs)), c)
      && ListsUpdates(c, Present(c, order))
      && UpdateRecords(c, Present(c, order)) == UpdateRecords(Prepared(s), order[j..])
  {
    var s1 := Prepared(s);
    var rot := Rotate(s1, merged);
    var c := RemoveUpdateFiles(rot, order[..j]);
    RotatedStore(s, order, merged, 5);
    assert CreateLayout(c) == c && IsDirectory(c, UPDATES_DIR) && STATUS_FILE in c && c[STATUS_FILE] == File(merged) by {
      RemovalKeepsLayout(rot, order[..j]);
    }
    assert ListsUpdates(c, Present(c, order)) by {
      PresentLists(rot, c, order);
    }
    assert UpdateRecords(c, Present(c, order)) == UpdateRecords(s1, order[j..]) by {
      SuffixStillThere(rot, order, j);
      RotationKeepsUpdates(s1, merged, 5);
      SameUpdatesAgree(rot, s1, order[j..]);
      UpdateRecordsFrame(rot, s1, order[j..]);
    }
  }
}
