/**
 * The in-memory status database (StatusParagraphs): a sequence of status
 * records in insertion order. `Find` returns the first record for a key and
 * `Insert` is an upsert: it replaces that record in place, or appends when
 * the key is new.
 */
module StatusDb {
  import opened Wrappers
  import opened Records

  type Database = seq<StatusParagraph>

  function KeyOf(p: StatusParagraph): PackageSpec {
    p.package.spec
  }

  /** find(name, triplet): the position of the first record for `spec`. */
  function Find(db: Database, spec: PackageSpec): (r: Option<nat>)
    ensures r.Some? ==> r.value < |db| && KeyOf(db[r.value]) == spec
    ensures r.Some? ==> forall j :: 0 <= j < r.value ==> KeyOf(db[j]) != spec
    ensures r.None? ==> forall j :: 0 <= j < |db| ==> KeyOf(db[j]) != spec
  {
    if db == [] then None
    else if KeyOf(db[0]) == spec then Some(0)
    else match Find(db[1..], spec)
      case None => None
      case Some(i) => Some(i + 1)
  }

  /** The record the database holds for `spec`, if any. */
  function Lookup(db: Database, spec: PackageSpec): (r: Option<StatusParagraph>)
    ensures r.Some? <==> exists j :: 0 <= j < |db| && KeyOf(db[j]) == spec
    ensures r.Some? ==> r.value in db && KeyOf(r.value) == spec
  {
    match Find(db, spec)
    case None => None
    case Some(i) => Some(db[i])
  }

  /** At most one record per key. */
  ghost predicate Unique(db: Database) {
    forall i, j :: 0 <= i < j < |db| ==> KeyOf(db[i]) != KeyOf(db[j])
  }

  /** Two databases that hold the same record for every key. */
  ghost predicate SameRecords(a: Database, b: Database) {
    forall k :: Lookup(a, k) == Lookup(b, k)
  }

  /** insert: the record for its key becomes `p`; every other key keeps its record. */
  function Insert(db: Database, p: StatusParagraph): (r: Database)
    ensures Lookup(r, KeyOf(p)) == Some(p)
    ensures forall k :: k != KeyOf(p) ==> Lookup(r, k) == Lookup(db, k)
    ensures |r| == if Lookup(db, KeyOf(p)).Some? then |db| else |db| + 1
    ensures Unique(db) ==> Unique(r)
  {
    match Find(db, KeyOf(p))
    case Some(i) =>
      var r := db[i := p];
      assert Find(r, KeyOf(p)) == Some(i) by { FindFirst(r, KeyOf(p), Some(i)); }
      assert forall k :: k != KeyOf(p) ==> Find(r, k) == Find(db, k) by {
        forall k | k != KeyOf(p) ensures Find(r, k) == Find(db, k) {
          FindUnaffected(db, i, p, k);
        }
      }
      r
    case None =>
      var r := db + [p];
      assert forall k :: k != KeyOf(p) ==> Find(r, k) == Find(db, k) by {
        forall k | k != KeyOf(p) ensures Find(r, k) == Find(db, k) {
          FindAppend(db, p, k);
        }
      }
      assert Find(r, KeyOf(p)) == Some(|db|) by { FindAppend(db, p, KeyOf(p)); }
      r
  }

  /** `Find` is determined by the keys: it is the first position holding `k`. */
  lemma FindFirst(db: Database, k: PackageSpec, m: Option<nat>)
    requires m.Some? ==> m.value < |db| && KeyOf(db[m.value]) == k
    requires m.Some? ==> forall j :: 0 <= j < m.value ==> KeyOf(db[j]) != k
    requires m.None? ==> forall j :: 0 <= j < |db| ==> KeyOf(db[j]) != k
    ensures Find(db, k) == m
  {
    var f := Find(db, k);
    if f != m {
      assert false;
    }
  }

  lemma FindUnaffected(db: Database, i: nat, p: StatusParagraph, k: PackageSpec)
    requires i < |db| && KeyOf(db[i]) == KeyOf(p) && k != KeyOf(p)
    ensures Find(db[i := p], k) == Find(db, k)
  {
    FindFirst(db[i := p], k, Find(db, k));
  }

  lemma FindAppend(db: Database, p: StatusParagraph, k: PackageSpec)
    ensures Find(db + [p], k) ==
      if Find(db, k).Some? then Find(db, k) else if KeyOf(p) == k then Some(|db|) else None
  {
    FindFirst(db + [p], k, if Find(db, k).Some? then Find(db, k) else if KeyOf(p) == k then Some(|db|) else None);
  }

  /** find_installed(name, triplet): the record for `spec`, only when it is installed and wanted. */
  function FindInstalled(db: Database, spec: PackageSpec): (r: Option<nat>)
    ensures r.Some? ==> r.value < |db| && KeyOf(db[r.value]) == spec
    ensures r.Some? ==> db[r.value].want == Install && db[r.value].state == Installed
    ensures r.None? <==> match Lookup(db, spec)
                         case None => true
                         case Some(p) => p.want != Install || p.state != Installed
  {
    match Find(db, spec)
    case None => None
    case Some(i) => if db[i].want == Install && db[i].state == Installed then Some(i) else None
  }

  /** Replays `recs` into `db`, first to last. */
  function InsertAll(db: Database, recs: seq<StatusParagraph>): (r: Database)
    ensures |db| <= |r| <= |db| + |recs|
    decreases |recs|
  {
    if recs == [] then db else Insert(InsertAll(db, recs[..|recs| - 1]), recs[|recs| - 1])
  }

  /** Replaying `a + b` is replaying `a`, then `b`. */
  lemma {:induction false} InsertAllAppend(db: Database, a: seq<StatusParagraph>, b: seq<StatusParagraph>)
    ensures InsertAll(db, a + b) == InsertAll(InsertAll(db, a), b)
    decreases |b|
  {
    if b == [] {
      assert a + b == a;
    } else {
      assert (a + b)[..|a + b| - 1] == a + b[..|b| - 1];
      InsertAllAppend(db, a, b[..|b| - 1]);
    }
  }

  /** The last record in `recs` for key `k`, if any. */
  function LastWrite(recs: seq<StatusParagraph>, k: PackageSpec): (r: Option<StatusParagraph>)
    ensures r.Some? ==> r.value in recs && KeyOf(r.value) == k
    ensures r.None? ==> forall j :: 0 <= j < |recs| ==> KeyOf(recs[j]) != k
    decreases |recs|
  {
    if recs == [] then None
    else if KeyOf(recs[|recs| - 1]) == k then Some(recs[|recs| - 1])
    else LastWrite(recs[..|recs| - 1], k)
  }

  /** Replay is last-write-wins: a key takes its last record in `recs`, or keeps its old one. */
  lemma {:induction false} InsertAllLookup(db: Database, recs: seq<StatusParagraph>, k: PackageSpec)
    ensures Lookup(InsertAll(db, recs), k) ==
      if LastWrite(recs, k).Some? then LastWrite(recs, k) else Lookup(db, k)
    decreases |recs|
  {
    if recs != [] {
      InsertAllLookup(db, recs[..|recs| - 1], k);
    }
  }

  /** Replaying into a database with one record per key keeps one record per key. */
  lemma {:induction false} InsertAllUnique(db: Database, recs: seq<StatusParagraph>)
    requires Unique(db)
    ensures Unique(InsertAll(db, recs))
    decreases |recs|
  {
    if recs != [] {
      InsertAllUnique(db, recs[..|recs| - 1]);
    }
  }

  lemma {:induction false} LastWriteAppend(a: seq<StatusParagraph>, b: seq<StatusParagraph>, k: PackageSpec)
    ensures LastWrite(a + b, k) == if LastWrite(b, k).Some? then LastWrite(b, k) else LastWrite(a, k)
    decreases |b|
  {
    if b == [] {
      assert a + b == a;
    } else {
      assert (a + b)[..|a + b| - 1] == a + b[..|b| - 1];
      LastWriteAppend(a, b[..|b| - 1], k);
    }
  }

  /**
   * Replaying the tail of an already merged journal changes no record: the
   * redundant replay after an interrupted compaction is harmless.
   */
  lemma ReplaySuffixAgain(db: Database, a: seq<StatusParagraph>, b: seq<StatusParagraph>)
    ensures SameRecords(InsertAll(InsertAll(db, a + b), b), InsertAll(db, a + b))
  {
    forall k ensures Lookup(InsertAll(InsertAll(db, a + b), b), k) == Lookup(InsertAll(db, a + b), k) {
      InsertAllLookup(InsertAll(db, a + b), b, k);
      InsertAllLookup(db, a + b, k);
      LastWriteAppend(a, b, k);
    }
  }

  /** Replaying the same records twice gives the same database as replaying them once. */
  lemma ReplayIdempotent(db: Database, recs: seq<StatusParagraph>)
    ensures SameRecords(InsertAll(InsertAll(db, recs), recs), InsertAll(db, recs))
  {
    assert [] + recs == recs;
    ReplaySuffixAgain(db, [], recs);
  }

  /**
   * Replay depends only on each key's last record: two listings that agree
   * on it, in whatever order they list the records, give the same records.
   */
  lemma ReplayOrderInsensitive(db: Database, a: seq<StatusParagraph>, b: seq<StatusParagraph>)
    requires forall k :: LastWrite(a, k) == LastWrite(b, k)
    ensures SameRecords(InsertAll(db, a), InsertAll(db, b))
  {
    forall k ensures Lookup(InsertAll(db, a), k) == Lookup(InsertAll(db, b), k) {
      InsertAllLookup(db, a, k);
      InsertAllLookup(db, b, k);
    }
  }

  /**
   * And conversely: when two listings both hold records for a key but end
   * with different ones, the replays disagree on that key.
   */
  lemma ReplayOrderMatters(db: Database, a: seq<StatusParagraph>, b: seq<StatusParagraph>, k: PackageSpec)
    requires LastWrite(a, k).Some? && LastWrite(b, k).Some? && LastWrite(a, k) != LastWrite(b, k)
    ensures Lookup(InsertAll(db, a), k) == LastWrite(a, k)
    ensures Lookup(InsertAll(db, a), k) != Lookup(InsertAll(db, b), k)
  {
    InsertAllLookup(db, a, k);
    InsertAllLookup(db, b, k);
  }

  /** Replay over databases with the same records gives databases with the same records. */
  lemma ReplayRespectsSameRecords(a: Database, b: Database, recs: seq<StatusParagraph>)
    requires SameRecords(a, b)
    ensures SameRecords(InsertAll(a, recs), InsertAll(b, recs))
  {
    forall k ensures Lookup(InsertAll(a, recs), k) == Lookup(InsertAll(b, recs), k) {
      InsertAllLookup(a, recs, k);
      InsertAllLookup(b, recs, k);
    }
  }
}
