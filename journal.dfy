/**
 * The update journal and its compaction, as functions of the store.
 *
 * `write_update` commits one status record under a fresh decimal name in
 * `vcpkg/updates/`. At startup `database_load_check` loads `vcpkg/status`
 * (taking back `status-old` when an earlier compaction stopped half-way),
 * replays every update file, writes the merged database through
 * `status-new`, rotates the three status names and deletes the updates.
 *
 * The order in which the updates directory is listed is not specified by the
 * filesystem; it is an input `order` that names every entry exactly once.
 */
module Journal {
  import opened Wrappers
  import opened Records
  import opened FileSystem
  import opened StatusDb

  datatype LoadError = Unreadable(path: Path) | Unparsable(path: Path) | NotADirectory(path: Path)

  // ---------------------------------------------------------------------
  // Update names and write_update
  // ---------------------------------------------------------------------

  function Digit(d: nat): (c: char)
    requires d < 10
    ensures '0' <= c <= '9' && c as int - '0' as int == d
  {
    ('0' as int + d) as char
  }

  /** std::to_string of a non-negative id: its decimal digits, most significant first. */
  function Decimal(n: nat): (r: string)
    ensures |r| >= 1 && (n < 10 <==> |r| == 1)
    ensures forall i :: 0 <= i < |r| ==> '0' <= r[i] <= '9'
    decreases n
  {
    if n < 10 then [Digit(n)] else Decimal(n / 10) + [Digit(n % 10)]
  }

  /** Distinct ids get distinct file names. */
  lemma {:induction false} DecimalInjective(a: nat, b: nat)
    requires Decimal(a) == Decimal(b)
    ensures a == b
    decreases a
  {
    if a >= 10 && b >= 10 {
      var sa, sb := Decimal(a), Decimal(b);
      assert sa[|sa| - 1] == Digit(a % 10) && sb[|sb| - 1] == Digit(b % 10);
      assert sa[..|sa| - 1] == Decimal(a / 10) && sb[..|sb| - 1] == Decimal(b / 10);
      DecimalInjective(a / 10, b / 10);
    } else if a < 10 && b < 10 {
      assert Decimal(a)[0] == Digit(a) && Decimal(b)[0] == Digit(b);
    }
  }

  /** A decimal name is a plain file name, and never the temporary name. */
  lemma DecimalIsUpdateName(n: nat)
    ensures IsName(Decimal(n)) && Decimal(n) != INCOMPLETE
  {
    var d := Decimal(n);
    assert forall i :: 0 <= i < |d| ==> d[i] != '/';
    assert INCOMPLETE[0] == 'i';
    assert d[0] != 'i';
  }

  lemma UpdatePathInjective(a: string, b: string)
    ensures UpdatePath(a) == UpdatePath(b) ==> a == b
  {
    assert a == UpdatePath(a)[14..];
    assert b == UpdatePath(b)[14..];
  }

  /**
   * write_update: the record is written under the temporary name and then
   * renamed to the decimal name of its id, replacing anything there.
   */
  function CommitUpdate(s: Store, id: nat, rec: StatusParagraph): (r: Store)
    ensures IsFile(r, UpdatePath(Decimal(id)))
    ensures ParseParagraphs(r[UpdatePath(Decimal(id))].content) == Ok([ToParagraph(rec)])
    ensures UpdatePath(INCOMPLETE) !in r
    ensures r.Keys == s.Keys - {UpdatePath(INCOMPLETE)} + {UpdatePath(Decimal(id))}
    ensures forall k :: k in s && k != UpdatePath(Decimal(id)) && k != UpdatePath(INCOMPLETE) ==> r[k] == s[k]
  {
    DecimalIsUpdateName(id);
    UpdatePathInjective(INCOMPLETE, Decimal(id));
    var tmp := s[UpdatePath(INCOMPLETE) := File(Stanzas([ToParagraph(rec)]))];
    Rename(tmp, UpdatePath(INCOMPLETE), UpdatePath(Decimal(id)))
  }

  // ---------------------------------------------------------------------
  // load_current_database
  // ---------------------------------------------------------------------

  /** The four directories database_load_check creates, tolerating existing entries. */
  function CreateLayout(s: Store): (r: Store)
    ensures INSTALLED_DIR in r && VCPKG_DIR in r && INFO_DIR in r && UPDATES_DIR in r
    ensures forall k :: k in s ==> k in r && r[k] == s[k]
    ensures forall k :: k in r && k !in s ==> r[k] == Dir
    ensures forall k :: k in r && k !in s ==> k == INSTALLED_DIR || k == VCPKG_DIR || k == INFO_DIR || k == UPDATES_DIR
    ensures INSTALLED_DIR in s && VCPKG_DIR in s && INFO_DIR in s && UPDATES_DIR in s ==> r == s
  {
    CreateDirectory(CreateDirectory(CreateDirectory(CreateDirectory(s, INSTALLED_DIR), VCPKG_DIR), INFO_DIR), UPDATES_DIR)
  }

  /** Reads and parses `vcpkg/status`; a directory cannot be read, a malformed text cannot be parsed. */
  function ReadStatusFile(s: Store): (r: Result<Database, LoadError>)
    requires STATUS_FILE in s
    ensures r.Ok? <==> IsFile(s, STATUS_FILE) && ParseParagraphs(s[STATUS_FILE].content).Ok?
    ensures r.Ok? ==> r.value == StatusRecords(s[STATUS_FILE].content.paragraphs)
  {
    match s[STATUS_FILE]
    case Dir => Err(Unreadable(STATUS_FILE))
    case File(c) =>
      match ParseParagraphs(c)
      case Err(_) => Err(Unparsable(STATUS_FILE))
      case Ok(ps) => Ok(StatusRecords(ps))
  }

  /**
   * load_current_database: returns the loaded database and the store after
   * the one rename it may perform.
   */
  function LoadCurrentDatabase(s: Store): (r: (Result<Database, LoadError>, Store))
    ensures STATUS_FILE !in s && STATUS_OLD !in s ==> r == (Ok([]), s)
    ensures STATUS_FILE !in s && STATUS_OLD in s ==>
      && STATUS_OLD !in r.1 && STATUS_FILE in r.1 && r.1[STATUS_FILE] == s[STATUS_OLD]
      && r.1.Keys == s.Keys - {STATUS_OLD} + {STATUS_FILE}
    ensures STATUS_FILE !in s && IsFile(s, STATUS_OLD) && s[STATUS_OLD].content.Stanzas? ==>
      r.0 == Ok(StatusRecords(s[STATUS_OLD].content.paragraphs))
    ensures STATUS_FILE in s ==> r.1 == s
    ensures STATUS_FILE in r.1 ==> r.0 == ReadStatusFile(r.1)
    ensures forall k :: !IsRotated(k) ==> (k in r.1 <==> k in s) && (k in s ==> r.1[k] == s[k])
  {
    if STATUS_FILE !in s then
      if STATUS_OLD !in s then (Ok([]), s)
      else
        var s1 := Rename(s, STATUS_OLD, STATUS_FILE);
        (ReadStatusFile(s1), s1)
    else
      (ReadStatusFile(s), s)
  }

  // ---------------------------------------------------------------------
  // database_load_check: replay, rotation, clean-up
  // ---------------------------------------------------------------------

  /** `order` lists the entries of the updates directory, each exactly once. */
  ghost predicate ListsUpdates(s: Store, order: seq<string>) {
    && (forall i :: 0 <= i < |order| ==> IsName(order[i]) && UpdatePath(order[i]) in s)
    && (forall n :: IsName(n) && UpdatePath(n) in s ==> n in order)
    && (forall i, j :: 0 <= i < j < |order| ==> order[i] != order[j])
  }

  /** An entry the replay reads: a regular file that is not the temporary name. */
  predicate IsReplayed(s: Store, n: string) {
    IsFile(s, UpdatePath(n)) && n != INCOMPLETE
  }

  /** The entries the replay reads, in listing order. */
  function Replayed(s: Store, names: seq<string>): (r: seq<string>)
    ensures forall n :: n in r <==> n in names && IsReplayed(s, n)
    ensures forall i :: 0 <= i < |r| ==> IsReplayed(s, r[i])
    decreases |names|
  {
    if names == [] then []
    else
      var last := names[|names| - 1];
      Replayed(s, names[..|names| - 1]) + (if IsReplayed(s, last) then [last] else [])
  }

  /** Reads and parses the given update files, concatenating their records in order. */
  function ReadUpdates(s: Store, names: seq<string>): Result<seq<StatusParagraph>, LoadError>
    requires forall i :: 0 <= i < |names| ==> IsFile(s, UpdatePath(names[i]))
    decreases |names|
  {
    if names == [] then Ok([])
    else
      match ReadUpdates(s, names[..|names| - 1])
      case Err(e) => Err(e)
      case Ok(prev) =>
        var path := UpdatePath(names[|names| - 1]);
        assert IsFile(s, path);
        match ParseParagraphs(s[path].content)
        case Err(_) => Err(Unparsable(path))
        case Ok(ps) => Ok(prev + StatusRecords(ps))
  }

  /** Every record of every replayed update file, in listing order (lib.cpp lines 89-102). */
  function UpdateRecords(s: Store, names: seq<string>): Result<seq<StatusParagraph>, LoadError> {
    ReadUpdates(s, Replayed(s, names))
  }

  /**
   * The store after the first `k` of the compaction's five file operations:
   * write status-new, remove a stale status-old, rename status to status-old,
   * rename status-new to status, remove status-old.
   */
  function RotationPrefix(s: Store, merged: Content, k: nat): (r: Store)
    requires k <= 5
    ensures k == 0 ==> r == s
    ensures 1 <= k <= 3 ==> STATUS_NEW in r && r[STATUS_NEW] == File(merged)
    ensures k >= 4 ==> STATUS_FILE in r && r[STATUS_FILE] == File(merged) && STATUS_NEW !in r
    ensures k == 5 ==> STATUS_OLD !in r
    ensures k <= 2 ==> (STATUS_FILE in r <==> STATUS_FILE in s) && (STATUS_FILE in s ==> r[STATUS_FILE] == s[STATUS_FILE])
    ensures k <= 1 ==> (STATUS_OLD in r <==> STATUS_OLD in s) && (STATUS_OLD in s ==> r[STATUS_OLD] == s[STATUS_OLD])
    ensures k == 2 ==> STATUS_OLD !in r
    ensures k == 3 ==> STATUS_FILE !in r
    ensures k == 3 ==> (STATUS_OLD in r <==> STATUS_FILE in s) && (STATUS_FILE in s ==> r[STATUS_OLD] == s[STATUS_FILE])
    ensures k == 4 ==> (STATUS_OLD in r <==> STATUS_FILE in s) && (STATUS_FILE in s ==> r[STATUS_OLD] == s[STATUS_FILE])
    ensures forall p :: !IsRotated(p) ==> (p in r <==> p in s) && (p in s ==> r[p] == s[p])
  {
    if k == 0 then s
    else
      var t := RotationPrefix(s, merged, k - 1);
      if k == 1 then t[STATUS_NEW := File(merged)]
      else if k == 2 then (if STATUS_OLD in t then t - {STATUS_OLD} else t)
      else if k == 3 then (if STATUS_FILE in t then Rename(t, STATUS_FILE, STATUS_OLD) else t)
      else if k == 4 then Rename(t, STATUS_NEW, STATUS_FILE)
      else t - {STATUS_OLD}
  }

  /** The whole rotation leaves only `status`, holding the merged database. */
  function Rotate(s: Store, merged: Content): (r: Store)
    ensures STATUS_FILE in r && r[STATUS_FILE] == File(merged)
    ensures STATUS_NEW !in r && STATUS_OLD !in r
    ensures forall p :: !IsRotated(p) ==> (p in r <==> p in s) && (p in s ==> r[p] == s[p])
  {
    RotationPrefix(s, merged, 5)
  }

  /** The clean-up loop (lib.cpp lines 113-119): every regular file listed is removed, `incomplete` included. */
  function RemoveUpdateFiles(s: Store, names: seq<string>): (r: Store)
    ensures forall i :: 0 <= i < |names| ==> !IsFile(r, UpdatePath(names[i]))
    ensures forall k :: k in r ==> k in s && r[k] == s[k]
    ensures forall k :: k in s && (forall i :: 0 <= i < |names| ==> k != UpdatePath(names[i])) ==> k in r
    ensures forall i :: 0 <= i < |names| && IsDirectory(s, UpdatePath(names[i])) ==> UpdatePath(names[i]) in r
    decreases |names|
  {
    if names == [] then s
    else
      var t := RemoveUpdateFiles(s, names[..|names| - 1]);
      var path := UpdatePath(names[|names| - 1]);
      if IsFile(t, path) then t - {path} else t
  }

  /** The store the replay starts from: directories created, status-old taken back. */
  function Prepared(s: Store): Store {
    LoadCurrentDatabase(CreateLayout(s)).1
  }

  /** database_load_check: the loaded database, or the error it stops with, and the new store. */
  function LoadCheck(s: Store, order: seq<string>): (Result<Database, LoadError>, Store) {
    var s0 := CreateLayout(s);
    var (cur, s1) := LoadCurrentDatabase(s0);
    if cur.Err? then (cur, s1)
    else if !IsDirectory(s1, UPDATES_DIR) then (Err(NotADirectory(UPDATES_DIR)), s1)
    else if order == [] then (cur, s1)
    else
      match UpdateRecords(s1, order)
      case Err(e) => (Err(e), s1)
      case Ok(recs) =>
        var db := InsertAll(cur.value, recs);
        (Ok(db), RemoveUpdateFiles(Rotate(s1, Serialize(db)), order))
  }
}
