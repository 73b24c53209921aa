/** The three tables of smartdedupe.py (`computers`, `folders`, `files`), the
    records their rows hold, and the catalog operations as functions from
    one catalog state to the next: `get_computer_id`, `Folder.__init__`,
    `get_or_create_folder`, `File.__init__`, `File.update`,
    `get_or_create_file` and the catalog half of `File.delete`.  The
    imperative session in module SmartDedupe is proved to follow them. */
module Catalog {
  import opened Options
  import opened Tables
  import opened Paths
  import opened Hasher

  // ------------------------------------------------------------------ records

  datatype Computer = Computer(computerName: string)

  /** A `folders` row.  The columns `path_is_truncated`, `last_modified`,
      `last_checked` and `md5_hash` are never written and are left out. */
  datatype Folder = Folder(
    folderName: string,
    path: string,
    shrunkPath: string,
    parentId: int,
    computerId: int)

  /** A `files` row.  `md5Hash` is `None` where the column is NULL. */
  datatype File = File(
    fileName: string,
    path: string,
    computerId: int,
    folderId: int,
    md5Hash: Option<Digest>,
    lastModified: int,
    lastChecked: int)

  /** The catalog: the three tables in storage order. */
  datatype Db = Db(computers: seq<Row<Computer>>, folders: seq<Row<Folder>>, files: seq<Row<File>>)

  /** What the filesystem says about one path: its modification time
      (`os.path.getmtime`) and what opening it yields (`None` when `open`
      raises `IOError`). */
  datatype Entry = Entry(mtime: int, content: Option<seq<byte>>)

  /** The world outside the catalog during one call: the filesystem by full
      path, the MD5 function, and the value `datetime.now()` returns. */
  datatype Env = Env(fs: map<string, Entry>, digest: seq<byte> -> Digest, now: int)

  /** A catalog operation's new state and its result. */
  datatype Step<T> = Step(db: Db, out: T)

  // ------------------------------------------------------------- query keys

  /** `Computer.computer_name == COMPUTER_NAME`. */
  function ComputerNamed(host: string): Computer -> bool
  {
    (c: Computer) => c.computerName == host
  }

  /** `Folder.path == path`. */
  function FolderAt(path: string): Folder -> bool
  {
    (f: Folder) => f.path == path
  }

  /** The (name, path) key `get_or_create_file` looks files up by; it does
      not include the computer. */
  function FileAt(path: string, name: string): File -> bool
  {
    (f: File) => f.fileName == name && f.path == path
  }

  predicate SameKey(a: File, b: File)
  {
    a.fileName == b.fileName && a.path == b.path
  }

  /** The natural keys the lookups maintain: primary keys, computer names,
      folder paths and file (path, name) pairs are each unique. */
  ghost predicate Valid(db: Db)
  {
    IdsDistinct(db.computers) && IdsDistinct(db.folders) && IdsDistinct(db.files) &&
    (forall i, j :: 0 <= i < j < |db.computers| ==>
      db.computers[i].val.computerName != db.computers[j].val.computerName) &&
    (forall i, j :: 0 <= i < j < |db.folders| ==> db.folders[i].val.path != db.folders[j].val.path) &&
    (forall i, j :: 0 <= i < j < |db.files| ==> !SameKey(db.files[i].val, db.files[j].val))
  }

  // ----------------------------------------------------------- get_computer_id

  /** `get_computer_id()`: the id of the first computer named `host`, or a new
      row named `host` with the next key, inserted and committed. */
  function LookupComputer(db: Db, host: string): (s: Step<int>)
    ensures s.db.folders == db.folders && s.db.files == db.files
    ensures Row(s.out, Computer(host)) in s.db.computers
    ensures (exists j :: 0 <= j < |db.computers| && db.computers[j].val.computerName == host) ==> s.db == db
    ensures (forall j :: 0 <= j < |db.computers| ==> db.computers[j].val.computerName != host) ==>
      s.db.computers == db.computers + [Row(s.out, Computer(host))] &&
      forall j :: 0 <= j < |db.computers| ==> db.computers[j].id != s.out
  {
    match FirstIndex(db.computers, ComputerNamed(host))
    case Some(i) => Step(db, db.computers[i].id)
    case None =>
      var id := NextId(db.computers);
      Step(db.(computers := db.computers + [Row(id, Computer(host))]), id)
  }

  /** First writer wins: once some computer carries the name, every later call
      returns that row's id and changes nothing. */
  lemma LookupComputerIdempotent(db: Db, host: string)
    ensures var s := LookupComputer(db, host);
      LookupComputer(s.db, host) == s
  {
    var s := LookupComputer(db, host);
    if FirstIndex(db.computers, ComputerNamed(host)).None? {
      var n := |db.computers|;
      assert s.db.computers[n] == Row(s.out, Computer(host));
      assert FirstIndex(s.db.computers, ComputerNamed(host)) == Some(n);
    }
  }

  /** With unique names the tie-break does not matter: the id returned is the
      id of whichever row has the name. */
  lemma LookupComputerFindsNamed(db: Db, host: string, j: nat)
    requires Valid(db)
    requires j < |db.computers| && db.computers[j].val.computerName == host
    ensures LookupComputer(db, host) == Step(db, db.computers[j].id)
  {
  }

  lemma LookupComputerKeepsValid(db: Db, host: string)
    requires Valid(db)
    ensures Valid(LookupComputer(db, host).db)
  {
    if FirstIndex(db.computers, ComputerNamed(host)).None? {
      InsertKeepsIdsDistinct(db.computers, Computer(host));
    }
  }

  // --------------------------------------------------------------- folders

  /** `Folder(full_path, parent_id)`: the path is kept whole, the name is the
      last component after splitting on the separator, and the shrunk path is
      the parent id in braces followed by a separator and the name. */
  function NewFolder(fullPath: string, parentId: int, computerId: int): (f: Folder)
    ensures f.path == fullPath && f.parentId == parentId && f.computerId == computerId
  {
    var name := LastComponent(fullPath);
    Folder(name, fullPath, "{" + Decimal(parentId) + "}" + [Sep] + name, parentId, computerId)
  }

  /** The name a folder gets is the separator-free tail of its path, and it is
      also the last component of its shrunk path, which starts with the
      parent id written in decimal between braces. */
  lemma NewFolderNames(fullPath: string, parentId: int, computerId: int)
    ensures var f := NewFolder(fullPath, parentId, computerId);
      Sep !in f.folderName &&
      |f.folderName| <= |fullPath| && fullPath[|fullPath| - |f.folderName|..] == f.folderName &&
      (|f.folderName| < |fullPath| ==> fullPath[|fullPath| - |f.folderName| - 1] == Sep) &&
      LastComponent(f.shrunkPath) == f.folderName &&
      exists d :: CanonicalDecimal(d) && f.shrunkPath == "{" + d + "}" + [Sep] + f.folderName && ParseDecimal(d) == parentId
  {
    var f := NewFolder(fullPath, parentId, computerId);
    LastComponentIsSuffix(fullPath);
    LastComponentAfterSep("{" + Decimal(parentId) + "}", f.folderName);
    DecimalRoundTrip(parentId);
  }

  /** `get_or_create_folder(path)`: the first folder with that path, or a new
      one (with the default parent id -1) appended after `get_computer_id`. */
  function LookupFolder(db: Db, host: string, path: string): (s: Step<Row<Folder>>)
    ensures s.out in s.db.folders && s.out.val.path == path
    ensures s.db.files == db.files
    ensures (exists j :: 0 <= j < |db.folders| && db.folders[j].val.path == path) ==> s.db == db
    ensures (forall j :: 0 <= j < |db.folders| ==> db.folders[j].val.path != path) ==>
      s.db.folders == db.folders + [s.out] &&
      |db.computers| <= |s.db.computers| <= |db.computers| + 1 &&
      s.db.computers[..|db.computers|] == db.computers
    // the folder added on a miss is `Folder(path)`, built after `get_computer_id`
    ensures var c := LookupComputer(db, host);
      FirstIndex(db.folders, FolderAt(path)).None? ==>
        s.db.computers == c.db.computers && s.out.val == NewFolder(path, -1, c.out)
  {
    match FirstIndex(db.folders, FolderAt(path))
    case Some(i) => Step(db, db.folders[i])
    case None =>
      var c := LookupComputer(db, host);
      var row := Row(NextId(c.db.folders), NewFolder(path, -1, c.out));
      Step(c.db.(folders := c.db.folders + [row]), row)
  }

  /** Asking twice for the same path adds at most one folder in total: the
      second call finds what the first returned and changes nothing. */
  lemma LookupFolderIdempotent(db: Db, host: string, path: string)
    ensures var s := LookupFolder(db, host, path);
      LookupFolder(s.db, host, path) == s
  {
    var s := LookupFolder(db, host, path);
    if FirstIndex(db.folders, FolderAt(path)).None? {
      var n := |db.folders|;
      assert s.db.folders[n] == s.out;
      assert FirstIndex(s.db.folders, FolderAt(path)) == Some(n);
    }
  }

  /** In a valid catalog the folder returned for a path already cataloged is
      the one folder with that path. */
  lemma LookupFolderFindsPath(db: Db, host: string, path: string, j: nat)
    requires Valid(db)
    requires j < |db.folders| && db.folders[j].val.path == path
    ensures LookupFolder(db, host, path) == Step(db, db.folders[j])
  {
  }

  lemma LookupFolderKeepsValid(db: Db, host: string, path: string)
    requires Valid(db)
    ensures Valid(LookupFolder(db, host, path).db)
  {
    if FirstIndex(db.folders, FolderAt(path)).None? {
      LookupComputerKeepsValid(db, host);
      var c := LookupComputer(db, host);
      InsertKeepsIdsDistinct(c.db.folders, NewFolder(path, -1, c.out));
    }
  }

  // ----------------------------------------------------------------- files

  /** The digest `md5(full_path)` yields for a filesystem entry. */
  function HashOf(e: Entry, digest: seq<byte> -> Digest): Option<Digest>
  {
    DigestOf(e.content, digest)
  }

  /** `File(path, file_name)`: folder id -1, the file's digest and
      modification time, checked now. */
  function NewFile(path: string, name: string, computerId: int, e: Entry, env: Env): (f: File)
    ensures f.path == path && f.fileName == name && f.computerId == computerId
    ensures f.md5Hash == HashOf(e, env.digest) && f.lastModified == e.mtime && f.lastChecked == env.now
  {
    File(name, path, computerId, -1, HashOf(e, env.digest), e.mtime, env.now)
  }

  /** `File.update()`: the digest is recomputed when the stored `last_checked`
      differs from the file's current modification time; nothing else about
      the row changes, the timestamps included. */
  function Refreshed(f: File, e: Entry, digest: seq<byte> -> Digest): (r: File)
    ensures r == f.(md5Hash := r.md5Hash)
    ensures f.lastChecked != e.mtime ==> r.md5Hash == HashOf(e, digest)
    ensures f.lastChecked == e.mtime ==> r == f
  {
    if f.lastChecked != e.mtime then f.(md5Hash := HashOf(e, digest)) else f
  }

  /** The comparison is against `last_checked`, not `last_modified`: a file
      whose modification time is exactly the one recorded is still re-hashed
      whenever it was last checked at another time. */
  lemma RefreshedIgnoresLastModified(f: File, e: Entry, digest: seq<byte> -> Digest)
    requires f.lastModified == e.mtime && f.lastChecked != e.mtime
    ensures Refreshed(f, e, digest).md5Hash == HashOf(e, digest)
    ensures Refreshed(f, e, digest).lastModified == f.lastModified
  {
  }

  /** `get_or_create_file(path, file_name)`: on a hit the first row with that
      key is refreshed in place; on a miss `File(path, file_name)` is built
      (after `get_computer_id`) and appended with the next key.  The full path
      must exist: both branches call `os.path.getmtime` on it. */
  function LookupFile(db: Db, host: string, env: Env, path: string, name: string): (s: Step<Row<File>>)
    requires FullPath(path, name) in env.fs
    ensures s.out in s.db.files && s.out.val.path == path && s.out.val.fileName == name
    ensures s.db.folders == db.folders
    ensures |s.db.files| <= |db.files| + 1 && Retains(db.files, s.db.files)
    // hit: the existing row is updated in place (only its digest may change), nothing is added
    ensures (exists j :: 0 <= j < |db.files| && FileAt(path, name)(db.files[j].val)) <==>
      (|s.db.files| == |db.files| && s.db.computers == db.computers)
    ensures forall j :: 0 <= j < |db.files| ==>
      s.db.files[j] == db.files[j] ||
      (s.db.files[j] == s.out && s.out.val == db.files[j].val.(md5Hash := s.out.val.md5Hash))
    // miss: exactly one row with the key is appended
    ensures |s.db.files| == |db.files| + 1 ==> s.db.files == db.files + [s.out]
    // the row returned: the first row with the key after `File.update`, or a
    // new `File` built after `get_computer_id`
    ensures var i := FirstIndex(db.files, FileAt(path, name));
      i.Some? ==> s.out == Row(db.files[i.value].id, Refreshed(db.files[i.value].val, env.fs[FullPath(path, name)], env.digest))
    ensures var c := LookupComputer(db, host);
      FirstIndex(db.files, FileAt(path, name)).None? ==>
        s.db.computers == c.db.computers && s.out.val == NewFile(path, name, c.out, env.fs[FullPath(path, name)], env)
  {
    var e := env.fs[FullPath(path, name)];
    match FirstIndex(db.files, FileAt(path, name))
    case Some(i) =>
      var row := Row(db.files[i].id, Refreshed(db.files[i].val, e, env.digest));
      var files := db.files[i := row];
      assert files[i] == row;
      Step(db.(files := files), row)
    case None =>
      var c := LookupComputer(db, host);
      var row := Row(NextId(c.db.files), NewFile(path, name, c.out, e, env));
      Step(c.db.(files := c.db.files + [row]), row)
  }

  /** Calling `get_or_create_file` twice with one key adds at most one row. */
  lemma LookupFileTwice(db: Db, host: string, env: Env, path: string, name: string)
    requires FullPath(path, name) in env.fs
    ensures var s1 := LookupFile(db, host, env, path, name);
      var s2 := LookupFile(s1.db, host, env, path, name);
      |s2.db.files| <= |db.files| + 1 && s2.out.id == s1.out.id
  {
    var s1 := LookupFile(db, host, env, path, name);
    var k :| 0 <= k < |s1.db.files| && s1.db.files[k] == s1.out;
    assert FileAt(path, name)(s1.db.files[k].val);
    LookupFileUnique(db, host, env, path, name);
  }

  /** The first row matching the key after a lookup is the row the lookup returned. */
  lemma LookupFileUnique(db: Db, host: string, env: Env, path: string, name: string)
    requires FullPath(path, name) in env.fs
    ensures var s := LookupFile(db, host, env, path, name);
      FirstIndex(s.db.files, FileAt(path, name)).Some? &&
      s.db.files[FirstIndex(s.db.files, FileAt(path, name)).value].id == s.out.id
  {
    var s := LookupFile(db, host, env, path, name);
    match FirstIndex(db.files, FileAt(path, name))
    case Some(i) =>
      assert FileAt(path, name)(s.db.files[i].val);
      assert FirstIndex(s.db.files, FileAt(path, name)) == Some(i);
    case None =>
      var n := |db.files|;
      assert s.db.files[n] == s.out;
      assert FirstIndex(s.db.files, FileAt(path, name)) == Some(n);
  }

  /** The lookup key leaves out the computer: a row another machine cataloged
      under the same directory and name is the one found and refreshed, and
      it keeps that machine's computer id. */
  lemma LookupFileIgnoresComputer(db: Db, host: string, env: Env, path: string, name: string, j: nat)
    requires FullPath(path, name) in env.fs
    requires Valid(db)
    requires j < |db.files| && FileAt(path, name)(db.files[j].val)
    ensures var s := LookupFile(db, host, env, path, name);
      s.out.id == db.files[j].id && s.out.val.computerId == db.files[j].val.computerId &&
      s.db.computers == db.computers
  {
    var i := FirstIndex(db.files, FileAt(path, name)).value;
    assert i == j by {
      if i != j {
        assert SameKey(db.files[i].val, db.files[j].val);
      }
    }
  }

  lemma LookupFileKeepsValid(db: Db, host: string, env: Env, path: string, name: string)
    requires FullPath(path, name) in env.fs
    requires Valid(db)
    ensures Valid(LookupFile(db, host, env, path, name).db)
  {
    if FirstIndex(db.files, FileAt(path, name)).None? {
      LookupComputerKeepsValid(db, host);
      var c := LookupComputer(db, host);
      InsertKeepsIdsDistinct(c.db.files, NewFile(path, name, c.out, env.fs[FullPath(path, name)], env));
    }
  }

  // ------------------------------------------------------------------ delete

  /** The catalog half of `File.delete()`: the row with the file's key is gone. */
  function Deleted(db: Db, id: int): (r: Db)
    ensures r.computers == db.computers && r.folders == db.folders
    ensures forall x :: x in r.files <==> x in db.files && x.id != id
  {
    RemoveIdKeeps(db.files, id);
    db.(files := RemoveId(db.files, id))
  }

  /** In a valid catalog the delete removes exactly the one row with that key. */
  lemma DeletedCount(db: Db, id: int)
    requires Valid(db)
    requires id in Ids(db.files)
    ensures |Deleted(db, id).files| == |db.files| - 1
    ensures Ids(Deleted(db, id).files) == Ids(db.files) - {id}
  {
    RemoveIdCount(db.files, id);
    RemoveIdKeeps(db.files, id);
  }

  /** Deleting a row keeps every natural key unique. */
  lemma DeletedKeepsValid(db: Db, id: int)
    requires Valid(db)
    ensures Valid(Deleted(db, id))
  {
    var r := RemoveId(db.files, id);
    forall i, j | 0 <= i < j < |r| ensures r[i].id != r[j].id && !SameKey(r[i].val, r[j].val) {
      RemoveIdOrder(db.files, id, i, j);
    }
  }

  /** `after` still holds every row of `before` at its place, with its key and
      its (path, name): rows were at most refreshed in place or added at the end. */
  ghost predicate Retains(before: seq<Row<File>>, after: seq<Row<File>>)
  {
    |before| <= |after| &&
    forall j :: 0 <= j < |before| ==> after[j].id == before[j].id && SameKey(after[j].val, before[j].val)
  }

  lemma RetainsTrans(a: seq<Row<File>>, b: seq<Row<File>>, c: seq<Row<File>>)
    requires Retains(a, b) && Retains(b, c)
    ensures Retains(a, c)
  {
  }
}
