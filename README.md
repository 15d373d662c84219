# vcpkg installer core, modelled in Dafny

This project models the transactional core of the vcpkg package manager,
`toolsrc/src/lib.cpp`. The core has four parts:

- **The status database and its update journal.** `write_update` commits
  each status record to `vcpkg/updates/<id>` through a temporary file named
  `incomplete`. At startup, `database_load_check` does the following:
  - loads `vcpkg/status`, taking back `status-old` if an earlier compaction
    stopped half-way;
  - replays the update files;
  - writes the merged database through `status-new`;
  - rotates the three status names;
  - deletes the update files.
- **Listfiles.** `install_and_write_listfile` copies a staged package tree
  into `installed/<triplet>/`. It records one line per walked directory or
  regular file in `vcpkg/info/<name>_<triplet>.list`, whether or not its
  creation or copy succeeded. `deinstall_package` reads that list
  back to remove:
  - files first;
  - then the directories that became empty, in reverse order;
  - then the listfile itself.
- **The lifecycle of install and removal.** An install journals
  half_installed, then installed, around copying the files. A removal
  journals purge/half_installed, removes the files, then journals
  not_installed. `deinstall_package_plan` refuses a removal while some
  record wanted installed on the same triplet names the package as a
  dependency. Its state does not matter, and the package's own record is
  included.
- **Dependency lookup.** This reads the dependencies from a staged CONTROL
  file, or else from the port's CONTROL file.

The filesystem is a value: `map<Path, Entry>`, where an entry is a file
(paragraph text or lines) or a directory.

- The running installer is the class `Engine.Installation`. Its fields are
  the store, the in-memory database and the process-wide update counter.
  Its methods are `write_update`, `database_load_check`, `install_package`
  and `deinstall_package`.
- The loops of the source are methods with loop invariants. Each method is
  proved equal to a function of the store: `LoadCheck`, `CommitUpdate`,
  `InstallFiles`, `RemovePackageFiles`, `InstallEffect` and
  `RemovalEffect`.
- The properties of those functions are proved as lemmas. They are:
  - last-write-wins replay;
  - crash safety at every stop point of the compaction;
  - preservation of the journal by install and removal, so that a restart
    rebuilds the database the process holds;
  - what an install or removal leaves on disk;
  - the removal plan.

Inputs the source reads from the environment become parameters:

- **`order`**: the order of the updates directory listing.
- **`StagedEntry` sequence**: the staged tree as the recursive walk yields
  it. Each entry carries flags for a failing status query or a failing copy.
- **`broken`**: the set of removal targets whose status query fails.
- **`Option<Content>`**: the contents of the CONTROL files.
- **`TripletFilter`**: the triplet filter.

## Model

| member | source | states |
|---|---|---|
| Records.ParseParagraphs | toolsrc/src/lib.cpp:53-54 | The parser succeeds exactly on paragraph text, and then yields its paragraphs. |
| Records.ToParagraph | toolsrc/src/lib.cpp:142-143 | A status record written as a paragraph reads back as the same record. |
| Records.Serialize | toolsrc/src/lib.cpp:104 | The text written for a database parses, and its paragraphs read back as exactly that database, record for record and in order. |
| Records.StatusRecords | toolsrc/src/lib.cpp:56-60 | Every paragraph of a file becomes one status record, in file order. |
| FileSystem.CreateDirectory | toolsrc/src/lib.cpp:69-73 | Creating a directory leaves any existing entry as it was and adds nothing else. |
| FileSystem.Rename | toolsrc/src/lib.cpp:50 | The entry moves to its new name and replaces whatever was there; no other entry changes. |
| FileSystem.LayoutDisjoint | toolsrc/src/lib.cpp:75-77 | Update files, status files and installed payload paths never coincide. |
| StatusDb.Find | toolsrc/src/lib.cpp:326 | Find returns the first position holding the key, or None when no record has it. |
| StatusDb.Lookup | toolsrc/src/lib.cpp:326 | A record is found for a key exactly when some record in the database has that key. |
| StatusDb.Insert | toolsrc/src/lib.cpp:100 | The upsert makes the record the one found for its key. Every other key keeps its record. Length grows only for a new key. It keeps one record per key. |
| StatusDb.FindInstalled | toolsrc/src/lib.cpp:267 | A package counts as installed exactly when its record exists, is wanted installed, and is in the installed state. |
| StatusDb.InsertAll | toolsrc/src/lib.cpp:98-101 | Replaying records never shrinks the database and adds at most one record per replayed record. Its last-write-wins meaning is stated by StatusDb.InsertAllLookup, and its uniqueness by StatusDb.InsertAllUnique. |
| StatusDb.InsertAllAppend | toolsrc/src/lib.cpp:89-102 | Replaying two batches of records is replaying the first, then the second. |
| StatusDb.InsertAllLookup | toolsrc/src/lib.cpp:98-101 | The replay is last-write-wins: each key ends with its last record among the replayed ones, or keeps its old record. |
| StatusDb.InsertAllUnique | toolsrc/src/lib.cpp:98-101 | Replaying into a database with one record per key keeps one record per key. |
| StatusDb.ReplaySuffixAgain | toolsrc/src/lib.cpp:104-119 | Replaying again a tail of the records already merged changes no record. |
| StatusDb.ReplayIdempotent | toolsrc/src/lib.cpp:89-102 | Replaying the same updates twice gives the records of replaying them once. |
| StatusDb.ReplayOrderInsensitive | toolsrc/src/lib.cpp:89-102 | Two listings that give every key the same last record replay to the same records, whatever the order of the other records. |
| StatusDb.ReplayOrderMatters | toolsrc/src/lib.cpp:89-102 | Two listings whose last records for a key differ replay to different records for that key; each gives the key its own last record. |
| StatusDb.ReplayRespectsSameRecords | toolsrc/src/lib.cpp:89-102 | Replay over two databases with the same records gives databases with the same records. |
| Journal.Decimal | toolsrc/src/lib.cpp:141 | The name of an update id is a non-empty string of decimal digits. It has one digit exactly for ids below ten. |
| Journal.DecimalInjective | toolsrc/src/lib.cpp:138-141 | Distinct update ids get distinct file names. |
| Journal.DecimalIsUpdateName | toolsrc/src/lib.cpp:140-141 | An update's name is a plain file name and never the temporary name `incomplete`. |
| Journal.CommitUpdate | toolsrc/src/lib.cpp:136-146 | After write_update, the file named by the id holds exactly the record, `incomplete` is gone, and every other entry is untouched. |
| Journal.CreateLayout | toolsrc/src/lib.cpp:69-73 | The four directories exist afterwards. Existing entries are untouched. Only those four may be added, and a complete layout is left unchanged. |
| Journal.ReadStatusFile | toolsrc/src/lib.cpp:53-62 | The status file loads exactly when it is a file of paragraph text, and then yields its records in order. |
| Journal.LoadCurrentDatabase | toolsrc/src/lib.cpp:40-63 | No status file and no status-old gives the empty database. Without a status file, status-old is renamed back and then read. Otherwise the status file is read and the store is unchanged. Nothing else is touched. |
| Journal.Replayed | toolsrc/src/lib.cpp:89-94 | The replay reads exactly the listed regular files not named `incomplete`. |
| Journal.UpdateRecords | toolsrc/src/lib.cpp:89-102 | The records of the replayed files, in listing order. Recovery.UpdateRecordsFrame states that they depend only on the listed update files, and Durability.Reload what they are for a journaled store. |
| Journal.RotationPrefix | toolsrc/src/lib.cpp:104-111 | The state after each of the five rotation steps, stated for every status name: no step taken leaves the store as it was, and after four steps `status-old` holds what `status` held. No other path changes. |
| Journal.Rotate | toolsrc/src/lib.cpp:104-111 | After the rotation, `status` holds the merged text and neither `status-new` nor `status-old` exists. No other path changes. |
| Journal.RemoveUpdateFiles | toolsrc/src/lib.cpp:113-119 | After the clean-up no listed regular file is left and no other entry changes. Listed directories are kept. |
| Journal.LoadCheck | toolsrc/src/lib.cpp:65-122 | database_load_check as a function of the store. Its contract is carried by Recovery.LoadCheckReplays (when it succeeds and what it returns), Recovery.LoadWithoutUpdates, Recovery.CompactionOutcome (the store after compaction), and Recovery.CrashDuringRotation and Recovery.CrashDuringCleanup (every stop point). |
| Recovery.UpdateRecordsIgnoreIncomplete | toolsrc/src/lib.cpp:89-102 | Two stores that differ at most in `updates/incomplete` replay the same files and the same records. |
| Recovery.UpdateRecordsFrame | toolsrc/src/lib.cpp:89-102 | The replay depends only on the entries at the listed update names. |
| Recovery.LoadCheckReplays | toolsrc/src/lib.cpp:79-102 | With a non-empty listing, the load succeeds exactly when the current database loads, the updates directory is a directory and every replayed file parses. The result is the current database with the update records replayed. |
| Recovery.LoadWithoutUpdates | toolsrc/src/lib.cpp:81-87 | With an empty updates directory the load returns the database it read, without rewriting `status` or touching `status-new`. A fresh store gives the empty database. |
| Recovery.CompactionOutcome | toolsrc/src/lib.cpp:65-122 | After a compaction, `status` holds the merged database and reads back as it. Neither `status-new` nor `status-old` exists, and no regular file is left in the updates directory. The merged database is the current one with every update replayed. |
| Recovery.RotatedStore | toolsrc/src/lib.cpp:104-111 | A store stopped in the rotation keeps the layout, the listing and every update record. |
| Recovery.ReloadAfterRotation | toolsrc/src/lib.cpp:104-111 | Loading a store stopped in the rotation finds the starting database before `status-new` is renamed, and the merged one after. |
| Recovery.CrashDuringRotation | toolsrc/src/lib.cpp:104-111 | A stop after any rotation step loses nothing: when the next load lists the remaining update files in the same relative order, it yields the same records as the completed one. |
| Recovery.CleanedStore | toolsrc/src/lib.cpp:113-119 | A store stopped in the clean-up holds the merged `status` and the layout. The update files still present are those listed after the stop. |
| Recovery.SuffixStillThere | toolsrc/src/lib.cpp:113-119 | Once the first listed entries are removed, what is left to replay is the records of the entries listed after them. |
| Recovery.CrashDuringCleanup | toolsrc/src/lib.cpp:113-119 | A stop anywhere in the clean-up loop loses nothing: when the next load lists the update files still present in the same relative order, it yields the same records as the completed one. |
| Durability.Reload | toolsrc/src/lib.cpp:65-122 | From a journaled state, a restart that lists the update files in id order loads the base database with the pending records replayed. |
| Durability.NameOrderLetsOlderWin | toolsrc/src/lib.cpp:89-102 | Two records pending under ids 9 and 10, listed by name (`10` before `9`), are replayed older last. When both are for the same package, the reloaded database holds the older record, and when the two records differ it differs from the database replayed in id order. |
| Durability.SwappedPairDisagrees | toolsrc/src/lib.cpp:89-102 | For any two records of one package, replaying them in reverse order leaves the first one, and when they differ this is not what replaying them in order leaves. |
| Durability.IncompleteInvisible | toolsrc/src/lib.cpp:140-145 | A record written to `updates/incomplete` but not yet renamed is invisible: the replayed files, their records and the loaded database are those of the store without it, for every listing. |
| Durability.StoppedBeforeRename | toolsrc/src/lib.cpp:136-146 | A write_update stopped after writing `incomplete` and before the rename loses only that record: a restart in id order loads the base database with the earlier pending records replayed. |
| Durability.JournaledAfterLoad | toolsrc/src/lib.cpp:65-122 | A successful load leaves a journaled state with no pending record, based on the loaded database. |
| Durability.JournaledCommit | toolsrc/src/lib.cpp:136-146 | Committing the next update, under the id that follows the pending ones, extends the journal by that record. |
| Durability.CommitKeepsLayout | toolsrc/src/lib.cpp:140-145 | A commit changes neither the loaded status database nor the updates directory. |
| Durability.LoadFrame | toolsrc/src/lib.cpp:40-63 | The loaded database depends only on the three status names. |
| Durability.JournaledFrame | toolsrc/src/lib.cpp:148-207 | Changes confined to the installed tree and the info directory keep the journal. |
| Durability.InstallIsPayload | toolsrc/src/lib.cpp:148-207 | Installing a package's files changes only the installed tree and the info directory. |
| Durability.RemovalIsPayload | toolsrc/src/lib.cpp:359-419 | Removing a package's files changes only the installed tree and the info directory. |
| Dependencies.ControlParagraphs | toolsrc/src/lib.cpp:217-224 | A control file that does not parse counts as having no paragraph. |
| Dependencies.UnmetBuildDependencies | toolsrc/src/lib.cpp:238-257 | Without the port's CONTROL file the package is not found. A file without exactly one paragraph is invalid. Otherwise the result is its dependencies filtered for the triplet. |
| Dependencies.UnmetDependencies | toolsrc/src/lib.cpp:210-236 | A staged CONTROL file must hold exactly one paragraph, whose dependency names are returned verbatim and in order. Without that file the port's CONTROL file decides. |
| Dependencies.StagedControlDecides | toolsrc/src/lib.cpp:214-233 | A staged CONTROL file decides alone: neither the port's file nor the triplet filter matters. |
| Dependencies.NotFoundOnlyWithoutControlFiles | toolsrc/src/lib.cpp:235-256 | The package is reported not found exactly when neither CONTROL file can be read. |
| Listfile.ListfileNameRoundTrip | toolsrc/src/lib.cpp:124-134 | The name recovered from a package's listfile path is `name:triplet`, for names and triplets without `_` and `/`. |
| Listfile.ListfileDisjoint | toolsrc/src/lib.cpp:124-127 | The listfile lies in the info directory, apart from the status files, the journal and the payload. |
| Listfile.FileNameIsLastComponent | toolsrc/src/lib.cpp:163 | A path's file name is the part after its last separator and holds no separator. |
| Listfile.LastDot | toolsrc/src/lib.cpp:131 | Finds the last dot of a file name, or reports that there is none. |
| Listfile.Stem | toolsrc/src/lib.cpp:131 | The stem is a prefix of the file name. When shorter, it stops at a dot that is not leading, and no dot follows that one. |
| Listfile.StemDropsExtension | toolsrc/src/lib.cpp:131 | The stem of `x.list` is `x`. |
| Listfile.UnderscoresToColons | toolsrc/src/lib.cpp:132 | Every `_` becomes `:` and every other character is kept. |
| Listfile.ListfilePath | toolsrc/src/lib.cpp:124-127 | The listfile of a package is `vcpkg/info/<name>_<triplet>.list`. Listfile.ListfileDisjoint places it apart from the status files, the journal and the payload, and Listfile.ListfileNameRoundTrip reads the package's name back from it. |
| Listfile.FullPkgNameFromListfile | toolsrc/src/lib.cpp:129-134 | The stem of the file name with every `_` turned into `:`. Listfile.ListfileNameRoundTrip states that it recovers `name:triplet`. |
| Listfile.WalkLength | toolsrc/src/lib.cpp:161-164 | The walk reaches exactly the entries before the first whose status query throws. |
| Listfile.WalkedPrefix | toolsrc/src/lib.cpp:161-164 | The walked entries are a prefix of the staged ones, none of which throws, and the walk aborts exactly when some entry throws. |
| Listfile.ListedLinesMembers | toolsrc/src/lib.cpp:161-204 | The listfile names exactly the walked entries that are listed: directories and regular files, not control files, with a readable status. |
| Listfile.ListedLinesAppend | toolsrc/src/lib.cpp:161-204 | The lines of a longer walk extend, in order, those of its prefix. |
| Listfile.CopyEntry | toolsrc/src/lib.cpp:163-203 | Installing one entry changes no existing entry. It adds only the target of a listed entry. A listed entry whose copy does not fail is present afterwards, with the staged contents when it is a file that did not exist. |
| Listfile.CopyEntriesFacts | toolsrc/src/lib.cpp:161-204 | The walk keeps every existing entry and adds only targets of listed entries. It installs every listed entry whose copy did not fail. |
| Listfile.InstallOutcome | toolsrc/src/lib.cpp:148-207 | After install_and_write_listfile the listfile starts with the triplet and lists exactly the listed entries walked before any throwing status query. Nothing else that existed changes. New entries are the triplet directory, which exists afterwards, or targets of listed entries. Every listed entry whose copy did not fail is installed. |
| Listfile.InstallFiles | toolsrc/src/lib.cpp:148-207 | The listfile is a file afterwards. The full outcome is stated by Listfile.InstallOutcome, and the round trip with the removal by Listfile.InstallThenRemove and Listfile.InstallThenRemoveRestores. |
| Listfile.ListfileTargets | toolsrc/src/lib.cpp:159-196 | When no line ends in a carriage return, the paths the listfile names are exactly the triplet directory and the targets of the walked listed entries. |
| Listfile.StripCR | toolsrc/src/lib.cpp:366-367 | A trailing carriage return is dropped, and only that. |
| Listfile.LineTargets | toolsrc/src/lib.cpp:371 | Each listfile line names `installed/<line>`, in line order. |
| Listfile.RemoveListed | toolsrc/src/lib.cpp:364-400 | The first pass removes exactly the listed regular files whose status can be queried and changes nothing else. It remembers exactly the listed directories. |
| Listfile.RemoveListedParentsFirst | toolsrc/src/lib.cpp:380-383 | Directories are remembered in line order, so a listfile naming parents first gives a parents-first directory list. |
| Listfile.RemoveIfEmpty | toolsrc/src/lib.cpp:406-414 | A remembered directory is removed exactly when it is an empty directory; nothing else changes. |
| Listfile.RemoveEmptyDirs | toolsrc/src/lib.cpp:402-415 | The reverse pass removes only remembered directories and changes nothing else. |
| Listfile.RemoveEmptyDirsNoOrphans | toolsrc/src/lib.cpp:402-415 | A directory is removed only after everything below it is gone. |
| Listfile.RemoveEmptyDirsComplete | toolsrc/src/lib.cpp:402-415 | When directories are listed before their contents, no remembered directory is left empty. |
| Listfile.RemoveEmptyDirsAll | toolsrc/src/lib.cpp:402-415 | When everything below each listed directory is listed after it, every listed directory is removed. |
| Listfile.LastDirectoryGoes | toolsrc/src/lib.cpp:404-414 | One step of the reverse pass removes the last directory and keeps the ordering for the rest. |
| Listfile.RemovalOutcome | toolsrc/src/lib.cpp:359-419 | Without a readable listfile nothing changes. Otherwise the listfile and every listed regular file whose status can be queried are removed, and nothing unlisted is touched. |
| Listfile.RemovePackageFiles | toolsrc/src/lib.cpp:359-419 | The removal only deletes entries, never changes or adds one, and a listfile that is a file is gone afterwards. The full outcome is stated by Listfile.RemovalOutcome, Listfile.RemovalLeavesNoOrphans and Listfile.RemovalClearsDirectories. |
| Listfile.RemovalLeavesNoOrphans | toolsrc/src/lib.cpp:402-415 | After a removal, a directory is gone only with everything below it. |
| Listfile.RemovalClearsDirectories | toolsrc/src/lib.cpp:402-415 | When the listfile names directories before their contents, no listed directory is left empty. |
| Listfile.SharedDirectoryKept | toolsrc/src/lib.cpp:406 | A directory holding something the package did not list survives the removal. |
| Listfile.InstallThenRemove | toolsrc/src/lib.cpp:148-419 | Installing a package whose listed targets did not exist and then removing it leaves no listfile. Every entry that existed before, other than the triplet directory, is back unchanged, and whatever else remains is a directory. |
| Listfile.InstallThenRemoveRestores | toolsrc/src/lib.cpp:148-419 | When, moreover, the listfile names directories before their contents and nothing lay below the triplet directory, the removal gives back exactly the store before the install, less the listfile and the triplet directory. |
| Listfile.PreexistingFileRemoved | toolsrc/src/lib.cpp:186-196 | A regular file already present at a listed file's target keeps its old contents through the install, is listed all the same, and is deleted by the removal (lines 373-386). |
| Plan.Dependents | toolsrc/src/lib.cpp:303-316 | The blocking records are exactly those wanted installed, on the same triplet, that name the package as a dependency. |
| Plan.DependentsAppend | toolsrc/src/lib.cpp:303-316 | The blockers are collected in database order. |
| Plan.DeinstallPackagePlan | toolsrc/src/lib.cpp:289-322 | The plan is not-installed exactly when there is no record or it is not installed, and then the list is empty. Otherwise the list is the blockers, and removal is refused exactly when it is non-empty. |
| Plan.SelfDependencyBlocks | toolsrc/src/lib.cpp:303-319 | An installed package that names itself as a dependency is blocked by its own record. |
| Plan.PlanAllowsRemoval | toolsrc/src/lib.cpp:318-321 | An installed package may be removed exactly when no record depends on it. |
| Plan.NoDependents | toolsrc/src/lib.cpp:303-316 | With no dependent record, the scan finds nothing. |
| Lifecycle.HalfInstalledRecord | toolsrc/src/lib.cpp:261-264 | The first install record is the package, wanted installed, half installed. |
| Lifecycle.InstalledRecord | toolsrc/src/lib.cpp:277 | The second install record differs from the first only in being installed. |
| Lifecycle.PurgingRecord | toolsrc/src/lib.cpp:355-356 | The first removal record keeps the package, wanted purged, half installed. |
| Lifecycle.RemovedRecord | toolsrc/src/lib.cpp:421 | The second removal record differs from the first only in being not installed. |
| Lifecycle.InsertAllTwo | toolsrc/src/lib.cpp:272-279 | Two updates written one after the other replay as two inserts in that order. |
| Lifecycle.InstallFirstHalf | toolsrc/src/lib.cpp:272-275 | After the first write and the file copy, the journal holds the half-installed record as pending. |
| Lifecycle.InstallUpdates | toolsrc/src/lib.cpp:259-280 | The records an install journals: the first is half installed, every one is the package wanted installed, and the last is installed exactly when the walk completed. Lifecycle.InstallUpdatesReplay and Lifecycle.InstallRecords state what replaying them gives. |
| Lifecycle.InstallEffect | toolsrc/src/lib.cpp:259-280 | When the walk completes, the update file under the second id holds the installed record and no `incomplete` is left. The journal, the records and the restart are stated by Lifecycle.InstallKeepsJournal, Lifecycle.InstallRecords and Lifecycle.InstallSurvivesRestart. |
| Lifecycle.RemovalEffect | toolsrc/src/lib.cpp:324-424 | The update file under the second id holds the removed record and no `incomplete` is left. The journal, the records and the restart are stated by Lifecycle.RemovalKeepsJournal, Lifecycle.RemovalRecords and Lifecycle.RemovalSurvivesRestart. |
| Lifecycle.InstallKeepsJournal | toolsrc/src/lib.cpp:259-280 | An install keeps the journal. The half-installed record joins the pending updates under the next id, and the installed record under the one after, unless a status query aborted the walk. |
| Lifecycle.RemovalFirstHalf | toolsrc/src/lib.cpp:355-419 | After the first write and the file removal, the journal holds the purging record as pending. |
| Lifecycle.RemovalKeepsJournal | toolsrc/src/lib.cpp:355-422 | A removal keeps the journal: its two records join the pending updates under the next two ids. |
| Lifecycle.InstallRecords | toolsrc/src/lib.cpp:272-279 | After a completed install the package is found installed with the given paragraph. After an aborted walk its record is the half-installed one and it is not found installed. Every other key keeps its record. |
| Lifecycle.InstallUpdatesReplay | toolsrc/src/lib.cpp:272-279 | Replaying an install's records is the in-memory upserts of install_package: the half-installed record, then the installed one unless the walk aborted. |
| Lifecycle.InstallThenRemoveRecords | toolsrc/src/lib.cpp:259-424 | After an install and a removal of the same package, its record is wanted purged and not installed, it is no longer found installed, and every other key keeps the record it had before the install. |
| Lifecycle.RemovalRecords | toolsrc/src/lib.cpp:355-422 | After a removal the record stays in place as purged and not installed, and is no longer found installed. Every other key keeps its record, and this equals the two upserts. |
| Lifecycle.InstallSurvivesRestart | toolsrc/src/lib.cpp:259-280 | After an install, completed or aborted by a status query, a restart that replays the updates in id order loads the database the running process holds. |
| Lifecycle.RemovalSurvivesRestart | toolsrc/src/lib.cpp:324-424 | After a removal, a restart that replays the updates in id order loads the database the running process holds. |
| Engine.Installation.constructor | toolsrc/src/lib.cpp:138 | A fresh process starts the update counter at 0 with nothing loaded. |
| Engine.Installation.WriteUpdate | toolsrc/src/lib.cpp:136-146 | The store becomes the committed update under the current counter. The counter advances by one and the database is unchanged. |
| Engine.Installation.DatabaseLoadCheck | toolsrc/src/lib.cpp:65-122 | The result and new store are those of the load-and-compact function. On success the in-memory database becomes the result. |
| Engine.Installation.InstallPackage | toolsrc/src/lib.cpp:259-280 | It refuses exactly when some dependency is not installed on the triplet, reporting that dependency and changing nothing. Otherwise it reports an aborted walk exactly when a status query throws, and the store, database and counter take the install's effect: two records, or only the half-installed one after an abort. |
| Engine.Installation.DeinstallPackage | toolsrc/src/lib.cpp:324-424 | The outcome follows the removal plan exactly. It returns the blockers when refused and changes nothing unless it removes. A removal takes the removal's effect on the record found. |
| Engine.Installation.RemoveRecordAt | toolsrc/src/lib.cpp:355-422 | The record is set in place to removed, the store takes the removal's effect, and the counter advances by two. |
| Engine.InstallWithJournal | toolsrc/src/lib.cpp:272-279 | The writes of an install are a commit, the file installation, and a second commit made exactly when the walk did not abort. |
| Engine.RemoveWithJournal | toolsrc/src/lib.cpp:355-422 | The writes of a removal are two commits around the file removal. |
| Engine.WriteUpdateFile | toolsrc/src/lib.cpp:140-145 | Writing `incomplete` and renaming it is the commit of the record. |
| Engine.LoadAndCompact | toolsrc/src/lib.cpp:65-122 | The step-by-step load computes the load-and-compact function, error paths included. |
| Engine.CreateLayoutDirectories | toolsrc/src/lib.cpp:69-73 | The four directory creations give the layout. |
| Engine.ReplayUpdates | toolsrc/src/lib.cpp:89-102 | The replay loop yields the current database with every replayed record inserted in order. It stops with the error of the first file that does not parse. |
| Engine.UpdateRecordsStep | toolsrc/src/lib.cpp:89-101 | One more listed entry is skipped, fails to parse, or adds its records. |
| Engine.RotateStatusFiles | toolsrc/src/lib.cpp:104-111 | The five file operations perform the rotation. |
| Engine.RemoveListedUpdateFiles | toolsrc/src/lib.cpp:113-119 | The clean-up loop removes every listed regular file. |
| Engine.InstallAndWriteListfile | toolsrc/src/lib.cpp:148-207 | The walk over the staged tree computes the install of the files and the listfile. It reports an abort exactly when some entry's status query throws, and then only the entries before it are installed and listed. |
| Engine.WalkStops | toolsrc/src/lib.cpp:161-164 | A walk that stops at the first throwing entry, or at the end, has walked exactly the walk's prefix, and aborted exactly when it stopped early. |
| Engine.InstallEntry | toolsrc/src/lib.cpp:163-203 | One step of the walk installs the entry as the copy function says, and writes a line exactly for a listed entry. |
| Engine.MissingDependency | toolsrc/src/lib.cpp:265-271 | Returns the first dependency not installed on the triplet, or None exactly when all are installed. |
| Engine.RemoveListedTargets | toolsrc/src/lib.cpp:364-400 | The getline loop computes the first removal pass. |
| Engine.RemoveInstalledFiles | toolsrc/src/lib.cpp:359-419 | The file removal of deinstall_package computes the removal of the package's files. |
| Engine.RemoveEmptyDirectories | toolsrc/src/lib.cpp:402-415 | The reverse loop computes the removal of the remembered empty directories. |

## Left out

- **Flat store.** The store is a flat map from path strings to entries,
  with `installed/` and `vcpkg/` as separate roots. In the real layout the
  `vcpkg` directory sits inside the installed tree, so a triplet named
  `vcpkg` could collide with it; the model does not capture that.
- **Update counter.** The counter is a field of the installation object,
  not a function-local static. Its `int` overflow after 2^31 updates is not
  modelled.
- **Journal write failures.** Failures of the journal writes themselves
  (the temporary file or its rename) are not modelled; the source lets them
  throw. Per-entry failures are modelled by flags:
  - a staged entry whose first status query (line 164) throws: the walk
    stops there, the listfile keeps the lines written so far, and the
    package is left half installed (`WalkAborted`);
  - a staged entry whose second status query (line 173) fails: the entry
    is skipped;
  - a staged entry whose create or copy fails;
  - a removal target whose status query fails.
- **Failed removals.** A failed removal of a listed regular file or of an
  empty directory is not modelled: in the model such a removal always
  succeeds.
- **Directory listing.** The listing of the updates directory is an input,
  `order`, naming every entry once. The clean-up loop lists the directory
  again; the model reuses the same order, which only matters for the order
  of the removals.
- Durability.Reload: the restart lemmas assume a listing in id order. The
  source replays in directory-listing order, which the filesystem does not
  specify; see "## Findings".
- **Fatal exits as results.** Fatal exits are result values:
  - `Checks::unreachable` on an unmet dependency is the `UnmetDependency`
    result of `InstallPackage`;
  - the exception of a throwing status query during the walk is its
    `WalkAborted` result;
  - `exit(EXIT_FAILURE)` on dependents is `BlockedBy`;
  - `check_exit` and `exit_with_message` in the dependency lookup are the
    `LookupError` cases;
  - `get_or_throw` on an unreadable status file is the `Unreadable` load
    error, and a status or update file that does not parse is `Unparsable`.
- **Unreadable files.** The status file is unreadable when its path is a
  directory. A directory in the updates directory is skipped by the replay
  (line 91), never read. A listfile path that is a directory counts as
  unopenable. A file that does not parse is any file held as `Text`.
- **Update file read failures.** A regular update file whose read throws
  (line 95) is not modelled: every regular update file can be read, and
  only a parse failure is an error.
- **Record fields.** `parse_paragraphs` and the paragraph constructors are
  collaborators. A paragraph holds the fields they read, and the other
  fields of a record are not modelled. `filter_dependencies` is the
  `TripletFilter` parameter.
- **Console output.** All console output is left out.
- **Concurrency.** Concurrency between processes is left out.
- Listfile.ListfileNameRoundTrip: holds only for names and triplets without
  `_` or `/`. `get_fullpkgname_from_listfile` turns every `_` into `:`, so a
  name containing `_` does not round-trip.
- Listfile.RemoveListed: a directory listed twice is remembered twice. In
  the reverse pass the model skips it once it is gone, whereas querying a
  removed directory in the source would throw.
- **No deduplication on load.** `load_current_database` builds the database
  from the status file without merging records with the same key.
  `StatusDb.InsertAllUnique` therefore states one record per key only for a
  database that starts with one.
- **Durability as lemmas.** Durability is stated about the store functions
  as lemmas over a journaled state, not as an invariant of the
  `Installation` object.
- **Rest of `lib.cpp`.** `search_file`, `binary_import` and its helpers,
  `find_or_default`, the dry-run flag and `open_status_file` are outside
  this core.
- Listfile.InstallThenRemove: the round trip holds only when no listed
  target existed before the install. A file already at a target is kept by
  the failed copy (line 191), listed anyway (line 196), and deleted by the
  removal (lines 373-386); Listfile.PreexistingFileRemoved states this.
- **Behaviour of the code kept as written.**
  - Listfile lines are written even when a copy or a directory creation
    fails (lines 181-196).
  - Updates are replayed in directory-listing order (lines 89-102).
  - A package that names itself as a dependency blocks its own removal
    (lines 303-319).

## Findings

| source | as written | input that shows it | evidently intended | confidence | as-written member | corrected member |
|---|---|---|---|---|---|---|
| toolsrc/src/lib.cpp:89-102 | the update files are replayed in directory-listing order | a listing sorted by name puts `10` before `9`, so the record written under id 9 is replayed last and wins over the newer one under id 10. One install or removal writes ids 2k and 2k+1 (lines 272/278, 357/422), which never straddle 9 and 10, so the two records must come from two operations on the same package in one process, made by a caller outside `lib.cpp` | replay in id order, so the newest record wins; StatusDb.ReplayOrderInsensitive shows that any listing giving each package the same last record would do | not executed | Durability.NameOrderLetsOlderWin | Durability.Reload |
