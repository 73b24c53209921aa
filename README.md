# smartdedupe catalog and duplicate rules, in Dafny

smartdedupe keeps a catalog of the files it has seen on one or more machines. The catalog has three tables: `computers`, `folders` and `files`. The program uses it to report duplicate files and, if asked, to delete them. This project models the catalog and the operations the program runs on it:

- the get-or-create lookups `get_computer_id`, `get_or_create_folder` and `get_or_create_file`;
- the row methods `File.update`, `File.delete` and `File.get_full_path`, and the constructors `Folder.__init__` and `File.__init__`;
- the three duplicate passes `remove_neighbor_dupes`, `kill_from_pc` and `prune`;
- the chunked read loop of `md5`.

Modules, leaf first:

- `Options`: the optional value, standing for a NULL column or a query that finds no row.
- `Hasher`: `md5` as a method with its `while True` chunk loop. The MD5 function itself is a parameter, `digest`, that maps the bytes fed to the hasher to a hex string.
- `Paths`:
  - Python's `str.split` and `sep.join`, with their round trip;
  - the last path component;
  - `File.get_full_path`;
  - the `"%d"` conversion, with its round trip;
  - the substring test `a in b`.
- `Tables`: a table is a sequence of rows, each with an integer primary key. The module holds:
  - `.first()` on a filter;
  - the key SQLite gives an inserted row (one more than the largest key, or 1);
  - deletion by key.
- `Catalog`: the `Computer`, `Folder` and `File` records and the catalog value `Db`. Each lookup, update and delete is a function from one catalog to the next. `Valid` is the uniqueness the lookups maintain: primary keys, computer names, folder paths and file (path, name) pairs are each unique.
- `Rules`: the three match filters and each pass as a function of the starting catalog and the walked files. The lemmas here state what the passes report, remove and keep.
- `SmartDedupe`: class `Session` holds the three tables as fields. Its methods update those fields in place and loop over the walked files. Each method is proved to produce exactly the catalog and the result that the `Catalog` and `Rules` functions specify.

The filesystem is a parameter `Env`:

- a map from full path to modification time and content (`None` when `open` raises `IOError`);
- the MD5 function;
- the value `datetime.now()` returns.

`os.walk` is given as the list of (root, name) pairs it yields. `os.remove` is reported as the list of paths it was called on. `COMPUTER_NAME` is the session's constant `host`.

## Behaviour worth knowing

The model does what the code does in each case below.

- **Deleting removes the row.** `File.delete` deletes the row itself (smartdedupe.py:144); the `files` table has no deleted flag.
- **Missing hashes match.** No query leaves out files without a hash. A Python `None` compared with `==` becomes `IS NULL`, so two unreadable files can match each other. `Option` equality gives exactly that.
- **The neighbour pass never deletes.** `remove_neighbor_dupes` accepts `to_delete` and ignores it.
- **`File.update` compares the wrong timestamp.** It compares the stored `last_checked` with the file's modification time, and it never updates either timestamp. So a file whose modification time has not changed is hashed again whenever it was last checked at another time (`Catalog.RefreshedIgnoresLastModified`).
- **The file key leaves out the computer.** `get_or_create_file` looks rows up by (path, file name) only. A second machine scanning the same path finds the first machine's row and refreshes it in place, and the row keeps the first machine's computer id (`Catalog.LookupFileIgnoresComputer`).
- **`prune` deletes at most one file.** `prune` builds `File(root, f)` and never adds it to the session. When it deletes, `File.delete` first removes the file from disk. Then `s.delete` refuses the object, because the session never persisted it, and the exception ends the pass. So `prune` never changes the `files` table, and it removes at most one file from disk. The model records this as `aborted`.
- **Folders never get a parent.** `get_or_create_folder` never passes a parent id, so every folder has parent id -1 and the shrunk path `{-1}` + separator + name.

## Model

| member | source | states |
|---|---|---|
| `Hasher.ReadChunk` | smartdedupe.py:53-55 | a read returns at most 10240 bytes, the ones at the current position, and returns nothing exactly at end of file |
| `Hasher.DigestOf` | smartdedupe.py:48-60 | what `md5(path)` returns: no digest when the file cannot be opened, else the MD5 of its content |
| `Hasher.Md5` | smartdedupe.py:48-60 | no digest when the file cannot be opened; otherwise the loop feeds every byte once, in order, and the result is the digest of the whole content |
| `Paths.Split` | smartdedupe.py:91 | `split` yields at least one part and no part contains the separator |
| `Paths.Join` | smartdedupe.py:130 | `sep.join(parts)`: the parts with one separator between neighbours |
| `Paths.JoinSplit` | smartdedupe.py:91 | joining the parts of a split with the separator gives back the original string |
| `Paths.LastComponent` | smartdedupe.py:91-92 | `full_path.split(PATH_SEP)[-1]` |
| `Paths.LastComponentIsSuffix` | smartdedupe.py:92 | `split(sep)[-1]` is the longest separator-free suffix: it ends the path and is preceded by a separator or by nothing |
| `Paths.FullPath` | smartdedupe.py:128-130 | the full path is `PATH_SEP.join((path, file_name))` |
| `Paths.FullPathParts` | smartdedupe.py:128-130 | for a name without separator, the full path starts with the directory and its last component is the name |
| `Paths.FullPathInjective` | smartdedupe.py:128-130 | two files with separator-free names share a full path only if they share directory and name |
| `Paths.Decimal` | smartdedupe.py:96 | `"%d"` output has no separator and no braces, and is canonical: digits without leading zeros, a minus sign only before a non-zero value |
| `Paths.DecimalRoundTrip` | smartdedupe.py:96 | `"%d"` output is an optional minus sign and digits, and parses back to the same integer, negatives included |
| `Paths.Contains` | smartdedupe.py:224 | Python's substring test `a in b`, as a prefix check at each offset |
| `Paths.ContainsIff` | smartdedupe.py:224 | Python's `a in b` holds exactly when `a` occurs at some offset of `b` |
| `Tables.FirstIndex` | smartdedupe.py:151 | `.first()` gives the earliest row satisfying the filter, and gives none exactly when no row does |
| `Tables.First` | smartdedupe.py:151 | `.first()`: the row at `FirstIndex`, or none |
| `Tables.FirstSound` | smartdedupe.py:185-189 | a row `.first()` returns is in the table and satisfies the filter |
| `Tables.NextId` | smartdedupe.py:67 | the key of an inserted row is larger than every key in the table |
| `Tables.RemoveId` | smartdedupe.py:144 | deleting by key: the result is no longer than the table and holds no row with that key |
| `Tables.RemoveIdKeeps` | smartdedupe.py:144 | deleting by key keeps exactly the rows with other keys |
| `Tables.RemoveIdCount` | smartdedupe.py:144 | with unique keys, deleting a present key removes exactly one row |
| `Catalog.Valid` | smartdedupe.py:149-157 | the uniqueness the get-or-create lookups keep: primary keys, computer names, folder paths and file (path, name) pairs are each unique |
| `Catalog.ComputerNamed` | smartdedupe.py:151 | `get_computer_id`'s filter `Computer.computer_name == COMPUTER_NAME` |
| `Catalog.LookupComputer` | smartdedupe.py:149-157 | if a computer with the host name exists, nothing changes; otherwise exactly one row with that name and a fresh key is added; the id returned is a row named after the host; other tables untouched |
| `Catalog.LookupComputerIdempotent` | smartdedupe.py:149-157 | first writer wins: a second call returns the same id and changes nothing |
| `Catalog.LookupComputerFindsNamed` | smartdedupe.py:151 | in a valid catalog the id returned is that of the one row with the host name |
| `Catalog.LookupComputerKeepsValid` | smartdedupe.py:152-155 | the insert keeps keys and computer names unique |
| `Catalog.NewFolder` | smartdedupe.py:87-96 | the folder keeps the full path unchanged and records the given parent and computer |
| `Catalog.NewFolderNames` | smartdedupe.py:91-96 | the folder name is the separator-free tail of the path; the shrunk path is `{`, the canonical decimal text of the parent id (as `"%d"` writes it), `}`, the separator and the folder name, whose last component is the folder name |
| `Catalog.FolderAt` | smartdedupe.py:232 | `get_or_create_folder`'s filter `Folder.path == path` |
| `Catalog.LookupFolder` | smartdedupe.py:231-237 | the folder returned has the path and is in the table; on a hit nothing changes; on a miss exactly that folder is appended, it is `Folder(path)` with parent id -1 and the computer id `get_computer_id` gives, and the computers table is the one `get_computer_id` leaves |
| `Catalog.LookupFolderIdempotent` | smartdedupe.py:231-237 | a second call with the same path returns the same folder and adds nothing, so two calls add at most one folder |
| `Catalog.LookupFolderFindsPath` | smartdedupe.py:232-233 | in a valid catalog, for a path already cataloged, the folder returned is the one folder with that path and nothing changes |
| `Catalog.LookupFolderKeepsValid` | smartdedupe.py:232-236 | folder keys and paths stay unique |
| `Catalog.HashOf` | smartdedupe.py:124 | `md5(full_path)` of a filesystem entry |
| `Catalog.NewFile` | smartdedupe.py:118-126 | a new file records its directory, name, computer, the digest and modification time of its full path, and the current time as last checked |
| `Catalog.Refreshed` | smartdedupe.py:136-140 | only the digest may change; it is recomputed when `last_checked` differs from the current modification time and left alone otherwise |
| `Catalog.RefreshedIgnoresLastModified` | smartdedupe.py:139 | a file whose recorded modification time is current is still hashed again when `last_checked` differs |
| `Catalog.FileAt` | smartdedupe.py:240 | `get_or_create_file`'s filter on file name and path, which leaves out the computer |
| `Catalog.LookupFile` | smartdedupe.py:239-247 | the row returned has the key and is in the table; existing rows keep their position, key and (path, name); a row with the key exists iff nothing is added and the computers are untouched; then the returned row is the first row with the key, refreshed by `File.update`, and only its digest changed; otherwise the returned row is `File(path, file_name)` built with the id `get_computer_id` gives, appended after the computers `get_computer_id` leaves |
| `Catalog.LookupFileTwice` | smartdedupe.py:239-247 | two calls with one key add at most one row and return the same row key |
| `Catalog.LookupFileUnique` | smartdedupe.py:240 | after the call, the first row with the key is the one returned |
| `Catalog.LookupFileIgnoresComputer` | smartdedupe.py:240 | a row of any computer with the same (path, name) is the one found, and it keeps its computer id |
| `Catalog.LookupFileKeepsValid` | smartdedupe.py:239-247 | file keys and (path, name) pairs stay unique |
| `Catalog.Deleted` | smartdedupe.py:142-145 | the delete removes exactly the rows with the file's key and leaves the other tables alone |
| `Catalog.DeletedCount` | smartdedupe.py:144 | in a valid catalog exactly one row disappears |
| `Catalog.DeletedKeepsValid` | smartdedupe.py:144 | deletion keeps keys and (path, name) pairs unique |
| `Rules.NeighborOf` | smartdedupe.py:185-189 | `remove_neighbor_dupes`'s query filter: equal digest (NULL equals NULL), equal path, another name |
| `Rules.OnOtherComputer` | smartdedupe.py:201-204 | `kill_from_pc`'s query filter: equal digest, another computer id |
| `Rules.CopyElsewhere` | smartdedupe.py:221-223 | `prune`'s query filter: equal digest, another path |
| `Rules.OutsideDirectory` | smartdedupe.py:224 | `directory not in existing_copy.get_full_path()` |
| `Rules.NeighborStep` | smartdedupe.py:183-192 | one walked file of `remove_neighbor_dupes`: `get_or_create_file`, then the first neighbour, reported and never deleted |
| `Rules.NeighborPass` | smartdedupe.py:182-192 | `remove_neighbor_dupes` as one step per walked file, in walk order |
| `Rules.KillStep` | smartdedupe.py:199-208 | one walked file of `kill_from_pc`: `get_or_create_file`, the first cross-computer copy, and with `to_delete` `File.delete` on the walked row |
| `Rules.KillPass` | smartdedupe.py:198-208 | `kill_from_pc` as one step per walked file, in walk order |
| `Rules.PruneStep` | smartdedupe.py:218-228 | one walked file of `prune`: the transient `File(root, f)`, the query and the substring test; with `to_delete` the file is removed from disk and the pass stops on the exception |
| `Rules.PrunePass` | smartdedupe.py:217-228 | `prune` as one step per walked file, in walk order, until the first stop |
| `Rules.OutsideDirectoryNotUnder` | smartdedupe.py:224 | a copy whose full path does not contain the pruned directory does not lie under it, so it is not in any directory the walk visits |
| `Rules.CandidatePaths` | smartdedupe.py:206-208 | the list of reported walked files' full paths, one per report, in order |
| `Rules.NeighborPassSnoc` | smartdedupe.py:182-184 | proof step for the loop, not a property of the program: walking one more file applies one more neighbour step |
| `Rules.NeighborStepFacts` | smartdedupe.py:184-190 | one walked file adds at most one report, whose walked file is (root, name) and whose copy has its digest and directory and another name; every row keeps its place; nothing is removed |
| `Rules.NeighborPassFacts` | smartdedupe.py:178-192 | every report's copy has the reported file's digest and directory and another name; the pass never removes a file or a row, whatever `to_delete` is |
| `Rules.NeighborCandidatesWalked` | smartdedupe.py:182-184 | every reported file is a (root, name) the walk listed |
| `Rules.KillPassSnoc` | smartdedupe.py:198-200 | proof step for the loop, not a property of the program: walking one more file applies one more kill step |
| `Rules.KillStepFacts` | smartdedupe.py:200-208 | one walked file adds at most one report, whose walked file is (root, name) and whose copy has its digest on another computer; with `to_delete` a report adds exactly `FullPath(root, name)` to the removals; without it every row is kept |
| `Rules.KillDeletesCandidate` | smartdedupe.py:207-208 | with `to_delete`, after a report no row with the walked (root, name) is left in the catalog |
| `Rules.KillPassFacts` | smartdedupe.py:194-208 | every report's copy has the reported file's digest and another computer id; with `to_delete` the removed paths are exactly the reported files' full paths in order, and without it none and every row is kept |
| `Rules.KillCandidatesWalked` | smartdedupe.py:198-200 | every reported file, and so every removed path, is a (root, name) the walk listed |
| `Rules.KillStepKeepsValid` | smartdedupe.py:200-208 | one step keeps keys and (path, name) pairs unique |
| `Rules.KillStepKeepsOthers` | smartdedupe.py:200-208 | a step deletes no row except one with the walked (root, name), and only when it reported that file with `to_delete` set |
| `Rules.KillPassKeepsOthers` | smartdedupe.py:198-208 | every starting row survives with its key unless `to_delete` is set and a reported file, one the walk listed, had its (path, name) |
| `Rules.KillStepSingleHost` | smartdedupe.py:201-204 | in a catalog written only by this machine a step finds no match |
| `Rules.KillPassSingleHost` | smartdedupe.py:198-205 | in a catalog written only by this machine the pass reports and removes nothing |
| `Rules.PrunePassSnoc` | smartdedupe.py:217-220 | proof step for the loop, not a property of the program: walking one more file applies one more prune step, unless the pass has stopped |
| `Rules.PruneStepFacts` | smartdedupe.py:220-228 | one walked file leaves files and folders alone and adds at most one report, whose walked file is (root, name) and whose copy has its digest, another directory and a full path without the pruned directory; it stops the pass exactly when it reports with `to_delete`, removing `FullPath(root, name)` |
| `Rules.PrunePassFacts` | smartdedupe.py:212-228 | every reported copy has the candidate's digest, another directory, and a full path without the pruned directory in it; the files and folders tables never change; a stopped pass had `to_delete` set and removed exactly the last reported file, otherwise nothing is removed |
| `Rules.PruneHitsOutside` | smartdedupe.py:217-224 | every reported walked file lies under the pruned directory and every reported copy outside it |
| `Rules.PruneCandidatesWalked` | smartdedupe.py:217-220 | every reported file is a (root, name) the walk listed |
| `Rules.PruneAbortFinal` | smartdedupe.py:227-228 | after the exception no further walked file is visited |
| `SmartDedupe.Session.GetComputerId` | smartdedupe.py:149-157 | the session's tables and the returned id are those `Catalog.LookupComputer` gives; uniqueness is kept |
| `SmartDedupe.Session.InitFolder` | smartdedupe.py:87-96 | asks for the computer id, then builds `Catalog.NewFolder` |
| `SmartDedupe.Session.GetOrCreateFolder` | smartdedupe.py:231-237 | new tables and result are those of `Catalog.LookupFolder` |
| `SmartDedupe.Session.InitFile` | smartdedupe.py:118-126 | asks for the computer id, hashes the file, and builds `Catalog.NewFile`, without adding it to the table |
| `SmartDedupe.Session.UpdateFile` | smartdedupe.py:136-140 | only the row at the index changes, to `Catalog.Refreshed` of it |
| `SmartDedupe.Session.GetOrCreateFile` | smartdedupe.py:239-247 | new tables and result are those of `Catalog.LookupFile` |
| `SmartDedupe.Session.DeleteFile` | smartdedupe.py:142-145 | returns the full path handed to `os.remove`; the tables become `Catalog.Deleted` of the old ones |
| `SmartDedupe.Session.NeighborVisit` | smartdedupe.py:184-192 | one pass of the inner loop changes the tables and the reports as `Rules.NeighborStep` does |
| `SmartDedupe.Session.RemoveNeighborDupes` | smartdedupe.py:178-192 | the loop's tables and reports are those of `Rules.NeighborPass` |
| `SmartDedupe.Session.KillVisit` | smartdedupe.py:200-208 | one pass of the inner loop changes the tables, reports and removals as `Rules.KillStep` does |
| `SmartDedupe.Session.KillFromPc` | smartdedupe.py:194-208 | the loop's tables, reports and removals are those of `Rules.KillPass` |
| `SmartDedupe.Session.PruneVisit` | smartdedupe.py:220-228 | one pass of the inner loop changes the tables, reports, removals and stop flag as `Rules.PruneStep` does |
| `SmartDedupe.Session.Prune` | smartdedupe.py:212-228 | the loop's tables, reports, removals and early stop are those of `Rules.PrunePass` |

## Left out

- Settings bootstrap, `ConfigParser`, engine and session creation (smartdedupe.py:19-40, 276-278): configuration and I/O. `Session`'s constructor starts from an empty catalog.
- `main` and the argparse dispatch (smartdedupe.py:249-271): command-line plumbing. Each pass is one method call.
- `populate_db` (smartdedupe.py:160-175): its `os.listdir`/`os.access` recursion and its `WindowsError` handling enumerate the filesystem. Per entry it calls `GetOrCreateFolder` or `GetOrCreateFile`, which are modelled.
- `os.walk`: the walk is given as a list of (root, name) pairs. `Rules.PruneHitsOutside` takes as a hypothesis that every root starts with the walked directory.
- `md5string` and the MD5 algorithm (smartdedupe.py:42-46, 51, 56, 58): foreign `hashlib` calls. The digest is a function parameter.
- Hasher.Md5: an `IOError` raised by a `read` after a successful `open` is not modelled; only a failing `open` yields no digest.
- `Folder.get_full_path` (smartdedupe.py:98-103): its truncated branch is dead, because `path_is_truncated` is never set, and it would fail anyway, because `join` gets two arguments. The live branch returns `path`, which is a field of the record. The never-written folder columns (`path_is_truncated`, `last_modified`, `last_checked`, `md5_hash`) are not in the record.
- `File.check_exists` (smartdedupe.py:132-134): nothing calls it.
- `os.remove`, `os.path.getmtime` and `os.path.exists`: the filesystem is read-only and is the same for the whole call.
  - A removal is reported, not applied.
  - A failing `os.remove` is not modelled; in the source its exception would end the pass.
  - `getmtime` raises on a missing path. The model requires the path to exist instead (`FullPath(path, name) in env.fs`).
- `datetime.now()`: one value per call. Every row created in one pass gets the same `last_checked`.
- Printing: the reported pairs are returned as `Hit` values instead of printed lines.
- Text encoding: strings are sequences of characters. The source is Python 2, and walked names and command-line paths are byte strings. With its default settings the sqlite3 driver refuses a non-ASCII byte string as a query parameter, and the test `directory not in` a unicode full path (smartdedupe.py:224) decodes `directory` as ASCII. In the source a non-ASCII name therefore ends a pass with an exception in `get_or_create_file` or `prune`; the model accepts every string.
- The path separator: `Paths.Sep` is `/`. In the source it is `os.path.sep` (smartdedupe.py:17), which is `\` on Windows, the platform the code targets (`WindowsError`, smartdedupe.py:174). No contract or proof depends on which character it is.
- Column types and widths are not modelled. The `String(…)` lengths are not enforced by SQLite, and `files.computer_id` is declared as a string while it holds the integer `Computer.computer_id`. Computer ids are plain integers in the model.
- Other writers, transactions and commits are not modelled. Each method's final state is the committed state, and the natural-key invariant `Catalog.Valid` assumes this session is the only writer.
- `.first()` without `ORDER BY`: SQL only promises some matching row. The model picks the first in storage order. The rule lemmas rely only on the filter holding. The lookup lemmas show that, with unique keys, there is only one candidate.
- ORM object identity: objects are values. The row for an object is found by its primary key.
