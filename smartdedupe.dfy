/** The catalog session of smartdedupe.py as the program drives it: the three
    tables as fields the methods update in place, one method per catalog
    operation, and the three duplicate passes as loops over the walked files.
    Each method is proved to produce exactly the state and result that the
    specification in modules Catalog and Rules gives. */
module SmartDedupe {
  import opened Options
  import opened Tables
  import opened Paths
  import opened Hasher
  import opened Catalog
  import opened Rules

  class Session {
    /** `COMPUTER_NAME`, the host name of the machine running the program. */
    const host: string

    var computers: seq<Row<Computer>>
    var folders: seq<Row<Folder>>
    var files: seq<Row<File>>

    /** The catalog the session holds. */
    function State(): Db
      reads this
    {
      Db(computers, folders, files)
    }

    ghost predicate Valid()
      reads this
    {
      Catalog.Valid(State())
    }

    /** A session on an empty catalog (`Base.metadata.create_all` on a fresh database). */
    constructor (hostName: string)
      ensures host == hostName && State() == Db([], [], []) && Valid()
    {
      host := hostName;
      computers, folders, files := [], [], [];
    }

    /** `get_computer_id()`. */
    method GetComputerId() returns (id: int)
      requires Valid()
      modifies this
      ensures Valid()
      ensures var s := LookupComputer(old(State()), host); State() == s.db && id == s.out
    {
      LookupComputerKeepsValid(State(), host);
      var found := FirstIndex(computers, ComputerNamed(host));
      if found.Some? {
        id := computers[found.value].id;
      } else {
        id := NextId(computers);
        computers := computers + [Row(id, Computer(host))];
      }
    }

    /** `Folder(full_path, parent_id)`: asks for the computer id, then builds the record. */
    method InitFolder(fullPath: string, parentId: int) returns (folder: Folder)
      requires Valid()
      modifies this
      ensures Valid()
      ensures var c := LookupComputer(old(State()), host);
        State() == c.db && folder == NewFolder(fullPath, parentId, c.out)
    {
      var computerId := GetComputerId();
      folder := NewFolder(fullPath, parentId, computerId);
    }

    /** `get_or_create_folder(path)`. */
    method GetOrCreateFolder(path: string) returns (folder: Row<Folder>)
      requires Valid()
      modifies this
      ensures Valid()
      ensures var s := LookupFolder(old(State()), host, path); State() == s.db && folder == s.out
    {
      LookupFolderKeepsValid(State(), host, path);
      var found := FirstIndex(folders, FolderAt(path));
      if found.Some? {
        folder := folders[found.value];
      } else {
        var record := InitFolder(path, -1);
        folder := Row(NextId(folders), record);
        folders := folders + [folder];
      }
    }

    /** `File(path, file_name)`: asks for the computer id, hashes the file and
        reads its modification time and the clock.  The object is not added
        to the session here. */
    method InitFile(env: Env, path: string, name: string) returns (file: File)
      requires Valid() && FullPath(path, name) in env.fs
      modifies this
      ensures Valid()
      ensures var c := LookupComputer(old(State()), host);
        State() == c.db && file == NewFile(path, name, c.out, env.fs[FullPath(path, name)], env)
    {
      var computerId := GetComputerId();
      var fullPath := FullPath(path, name);
      var hash := Md5(env.fs[fullPath].content, env.digest);
      file := File(name, path, computerId, -1, hash, env.fs[fullPath].mtime, env.now);
    }

    /** `File.update()` on the row at position `i`. */
    method UpdateFile(env: Env, i: nat)
      requires i < |files| && FullPath(files[i].val.path, files[i].val.fileName) in env.fs
      modifies this
      ensures computers == old(computers) && folders == old(folders)
      ensures var f := old(files)[i];
        files == old(files)[i := Row(f.id, Refreshed(f.val, env.fs[FullPath(f.val.path, f.val.fileName)], env.digest))]
    {
      var f := files[i].val;
      var e := env.fs[FullPath(f.path, f.fileName)];
      if f.lastChecked != e.mtime {
        var hash := Md5(e.content, env.digest);
        files := files[i := Row(files[i].id, f.(md5Hash := hash))];
      } else {
        assert files == files[i := Row(files[i].id, f)];
      }
    }

    /** `get_or_create_file(path, file_name)`. */
    method GetOrCreateFile(env: Env, path: string, name: string) returns (file: Row<File>)
      requires Valid() && FullPath(path, name) in env.fs
      modifies this
      ensures Valid()
      ensures var s := LookupFile(old(State()), host, env, path, name); State() == s.db && file == s.out
    {
      LookupFileKeepsValid(State(), host, env, path, name);
      var found := FirstIndex(files, FileAt(path, name));
      if found.Some? {
        UpdateFile(env, found.value);
        file := files[found.value];
      } else {
        var record := InitFile(env, path, name);
        file := Row(NextId(files), record);
        files := files + [file];
      }
    }

    /** `File.delete()`: the path handed to `os.remove`, and the row gone from
        the catalog. */
    method DeleteFile(file: Row<File>) returns (removedPath: string)
      requires Valid()
      modifies this
      ensures Valid()
      ensures removedPath == FullPath(file.val.path, file.val.fileName)
      ensures State() == Deleted(old(State()), file.id)
    {
      DeletedKeepsValid(State(), file.id);
      removedPath := FullPath(file.val.path, file.val.fileName);
      files := RemoveId(files, file.id);
    }

    /** The body of `remove_neighbor_dupes`'s loop for one walked file. */
    method NeighborVisit(env: Env, root: string, name: string, hits: seq<Hit>, ghost p: Pass)
      returns (hits': seq<Hit>)
      requires Valid() && FullPath(root, name) in env.fs
      requires p.db == State() && p.hits == hits
      modifies this
      ensures Valid()
      ensures var q := NeighborStep(p, host, env, root, name); State() == q.db && hits' == q.hits
    {
      var file1 := GetOrCreateFile(env, root, name);
      var existing := First(files, NeighborOf(file1.val));
      hits' := hits;
      if existing.Some? {
        hits' := hits + [Hit(file1.val, existing.value.val)];
      }
    }

    /** `remove_neighbor_dupes(path, to_delete)` over the files `os.walk(path)`
        lists.  `toDelete` is accepted and never used, as in the source. */
    method RemoveNeighborDupes(env: Env, walk: Walk, toDelete: bool) returns (hits: seq<Hit>)
      requires Valid() && Walked(env, walk)
      modifies this
      ensures Valid()
      ensures var p := NeighborPass(old(State()), host, env, walk); State() == p.db && hits == p.hits
    {
      hits := [];
      for i := 0 to |walk|
        invariant Valid()
        invariant var p := NeighborPass(old(State()), host, env, walk[..i]); State() == p.db && hits == p.hits
      {
        NeighborPassSnoc(old(State()), host, env, walk, i);
        hits := NeighborVisit(env, walk[i].0, walk[i].1, hits, NeighborPass(old(State()), host, env, walk[..i]));
      }
      assert walk[..|walk|] == walk;
    }

    /** The body of `kill_from_pc`'s loop for one walked file. */
    method KillVisit(env: Env, root: string, name: string, toDelete: bool,
                     hits: seq<Hit>, removed: seq<string>, ghost p: Pass)
      returns (hits': seq<Hit>, removed': seq<string>)
      requires Valid() && FullPath(root, name) in env.fs
      requires p.db == State() && p.hits == hits && p.removed == removed && !p.aborted
      modifies this
      ensures Valid()
      ensures var q := KillStep(p, host, env, toDelete, root, name);
        State() == q.db && hits' == q.hits && removed' == q.removed && !q.aborted
    {
      var file1 := GetOrCreateFile(env, root, name);
      var existing := First(files, OnOtherComputer(file1.val));
      hits', removed' := hits, removed;
      if existing.Some? {
        hits' := hits + [Hit(file1.val, existing.value.val)];
        if toDelete {
          var path := DeleteFile(file1);
          removed' := removed + [path];
        }
      }
    }

    /** `kill_from_pc(path, to_delete)` over the files `os.walk(path)` lists. */
    method KillFromPc(env: Env, walk: Walk, toDelete: bool) returns (hits: seq<Hit>, removed: seq<string>)
      requires Valid() && Walked(env, walk)
      modifies this
      ensures Valid()
      ensures var p := KillPass(old(State()), host, env, toDelete, walk);
        State() == p.db && hits == p.hits && removed == p.removed
    {
      hits, removed := [], [];
      for i := 0 to |walk|
        invariant Valid()
        invariant var p := KillPass(old(State()), host, env, toDelete, walk[..i]);
          State() == p.db && hits == p.hits && removed == p.removed && !p.aborted
      {
        KillPassSnoc(old(State()), host, env, toDelete, walk, i);
        hits, removed := KillVisit(env, walk[i].0, walk[i].1, toDelete, hits, removed,
                                   KillPass(old(State()), host, env, toDelete, walk[..i]));
      }
      assert walk[..|walk|] == walk;
    }

    /** The body of `prune`'s loop for one walked file.  When the file is to
        be deleted, `os.remove` runs and the session's refusal to delete the
        never-added `File` object ends the pass (`aborted`). */
    method PruneVisit(env: Env, directory: string, root: string, name: string, toDelete: bool,
                      hits: seq<Hit>, removed: seq<string>, ghost p: Pass)
      returns (hits': seq<Hit>, removed': seq<string>, aborted: bool)
      requires Valid() && FullPath(root, name) in env.fs
      requires p.db == State() && p.hits == hits && p.removed == removed && !p.aborted
      modifies this
      ensures Valid()
      ensures var q := PruneStep(p, host, env, directory, toDelete, root, name);
        State() == q.db && hits' == q.hits && removed' == q.removed && aborted == q.aborted
    {
      var file2 := InitFile(env, root, name);
      var existing := First(files, CopyElsewhere(file2));
      hits', removed', aborted := hits, removed, false;
      if existing.Some? && OutsideDirectory(directory, existing.value.val) {
        hits' := hits + [Hit(file2, existing.value.val)];
        if toDelete {
          removed' := removed + [FullPath(file2.path, file2.fileName)];
          aborted := true;
        }
      }
    }

    /** `prune(directory, to_delete)` over the files `os.walk(directory)`
        lists; the loop stops at the first exception. */
    method Prune(env: Env, directory: string, walk: Walk, toDelete: bool)
      returns (hits: seq<Hit>, removed: seq<string>, aborted: bool)
      requires Valid() && Walked(env, walk)
      modifies this
      ensures Valid()
      ensures var p := PrunePass(old(State()), host, env, directory, toDelete, walk);
        State() == p.db && hits == p.hits && removed == p.removed && aborted == p.aborted
    {
      hits, removed, aborted := [], [], false;
      var i := 0;
      while i < |walk| && !aborted
        invariant 0 <= i <= |walk|
        invariant Valid()
        invariant var p := PrunePass(old(State()), host, env, directory, toDelete, walk[..i]);
          State() == p.db && hits == p.hits && removed == p.removed && aborted == p.aborted
      {
        PrunePassSnoc(old(State()), host, env, directory, toDelete, walk, i);
        hits, removed, aborted := PruneVisit(env, directory, walk[i].0, walk[i].1, toDelete, hits, removed,
                                             PrunePass(old(State()), host, env, directory, toDelete, walk[..i]));
        i := i + 1;
      }
      if aborted {
        PruneAbortFinal(old(State()), host, env, directory, toDelete, walk, i);
      } else {
        assert walk[..i] == walk;
      }
    }
  }
}
