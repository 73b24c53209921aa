/** The three duplicate-matching rules of smartdedupe.py and the passes that
    apply them to the files a directory walk lists: `remove_neighbor_dupes`,
    `kill_from_pc` and `prune`.  Each pass is a function of the catalog it
    starts from and the walk, built one walked file at a time so that the
    imperative loops in module SmartDedupe can be proved to follow it. */
module Rules {
  import opened Options
  import opened Tables
  import opened Paths
  import opened Hasher
  import opened Catalog

  /** One reported duplicate: the walked file and the catalog row the query found. */
  datatype Hit = Hit(candidate: File, copy: File)

  /** The outcome of a pass: the catalog afterwards, the reported duplicates
      in walk order, the paths handed to `os.remove`, and whether the pass
      ended early with an uncaught exception. */
  datatype Pass = Pass(db: Db, hits: seq<Hit>, removed: seq<string>, aborted: bool)

  /** What `os.walk` produced: each file as its directory (`root`) and name. */
  type Walk = seq<(string, string)>

  /** Every walked file exists on the filesystem. */
  predicate Walked(env: Env, walk: Walk)
  {
    forall k :: 0 <= k < |walk| ==> FullPath(walk[k].0, walk[k].1) in env.fs
  }

  // ------------------------------------------------------------ the filters

  /** `remove_neighbor_dupes`: equal digest, equal path, different name.  Two
      NULL digests compare equal, as `== None` becomes `IS NULL`. */
  function NeighborOf(f: File): File -> bool
  {
    (g: File) => g.md5Hash == f.md5Hash && g.path == f.path && g.fileName != f.fileName
  }

  /** `kill_from_pc`: equal digest, different computer. */
  function OnOtherComputer(f: File): File -> bool
  {
    (g: File) => g.md5Hash == f.md5Hash && g.computerId != f.computerId
  }

  /** `prune`'s query: equal digest, different path. */
  function CopyElsewhere(f: File): File -> bool
  {
    (g: File) => g.md5Hash == f.md5Hash && g.path != f.path
  }

  /** `prune`'s second test: `directory not in existing_copy.get_full_path()`. */
  predicate OutsideDirectory(directory: string, g: File)
  {
    !Contains(FullPath(g.path, g.fileName), directory)
  }

  /** A copy prune acts on does not lie under the pruned directory: its path
      does not start with it, so it is not the walked file's own directory
      either, since every directory the walk visits does. */
  lemma OutsideDirectoryNotUnder(directory: string, g: File, root: string)
    requires OutsideDirectory(directory, g)
    requires IsPrefix(directory, root)
    ensures !IsPrefix(directory, g.path) && g.path != root
  {
    if IsPrefix(directory, g.path) {
      PrefixContained(directory, g.path, g.fileName);
    }
  }

  // ------------------------------------------------------- remove_neighbor_dupes

  /** One walked file: `get_or_create_file`, then the neighbour query; a match
      is reported and nothing is deleted, whatever `to_delete` says. */
  function NeighborStep(p: Pass, host: string, env: Env, root: string, name: string): Pass
    requires FullPath(root, name) in env.fs
  {
    var s := LookupFile(p.db, host, env, root, name);
    match First(s.db.files, NeighborOf(s.out.val))
    case None => p.(db := s.db)
    case Some(copy) => p.(db := s.db, hits := p.hits + [Hit(s.out.val, copy.val)])
  }

  function NeighborPass(db: Db, host: string, env: Env, walk: Walk): Pass
    requires Walked(env, walk)
    decreases |walk|
  {
    if |walk| == 0 then Pass(db, [], [], false)
    else
      var (root, name) := walk[|walk| - 1];
      NeighborStep(NeighborPass(db, host, env, walk[..|walk| - 1]), host, env, root, name)
  }

  /** Walking one more file is one more step. */
  lemma NeighborPassSnoc(db: Db, host: string, env: Env, walk: Walk, i: nat)
    requires Walked(env, walk) && i < |walk|
    ensures Walked(env, walk[..i]) && FullPath(walk[i].0, walk[i].1) in env.fs
    ensures NeighborPass(db, host, env, walk[..i + 1]) ==
      NeighborStep(NeighborPass(db, host, env, walk[..i]), host, env, walk[i].0, walk[i].1)
  {
    assert walk[..i + 1][..i] == walk[..i];
  }

  // ------------------------------------------------------------- kill_from_pc

  /** One walked file: `get_or_create_file`, the cross-computer query, and on a
      match with `to_delete` set, `File.delete()` on the walked file's row. */
  function KillStep(p: Pass, host: string, env: Env, toDelete: bool, root: string, name: string): Pass
    requires FullPath(root, name) in env.fs
  {
    var s := LookupFile(p.db, host, env, root, name);
    match First(s.db.files, OnOtherComputer(s.out.val))
    case None => p.(db := s.db)
    case Some(copy) =>
      var hits := p.hits + [Hit(s.out.val, copy.val)];
      if toDelete then Pass(Deleted(s.db, s.out.id), hits, p.removed + [FullPath(root, name)], false)
      else p.(db := s.db, hits := hits)
  }

  function KillPass(db: Db, host: string, env: Env, toDelete: bool, walk: Walk): Pass
    requires Walked(env, walk)
    decreases |walk|
  {
    if |walk| == 0 then Pass(db, [], [], false)
    else
      var (root, name) := walk[|walk| - 1];
      KillStep(KillPass(db, host, env, toDelete, walk[..|walk| - 1]), host, env, toDelete, root, name)
  }

  /** Walking one more file is one more step. */
  lemma KillPassSnoc(db: Db, host: string, env: Env, toDelete: bool, walk: Walk, i: nat)
    requires Walked(env, walk) && i < |walk|
    ensures Walked(env, walk[..i]) && FullPath(walk[i].0, walk[i].1) in env.fs
    ensures KillPass(db, host, env, toDelete, walk[..i + 1]) ==
      KillStep(KillPass(db, host, env, toDelete, walk[..i]), host, env, toDelete, walk[i].0, walk[i].1)
  {
    assert walk[..i + 1][..i] == walk[..i];
  }

  // -------------------------------------------------------------------- prune

  /** One walked file: a transient `File(root, f)` (which calls
      `get_computer_id` but is never added to the session), the query, and the
      substring test.  With `to_delete` set, `File.delete()` removes the file
      from disk and then fails, because the session refuses to delete an
      object it never persisted; the exception ends the pass. */
  function PruneStep(p: Pass, host: string, env: Env, directory: string, toDelete: bool,
                     root: string, name: string): Pass
    requires FullPath(root, name) in env.fs
  {
    var c := LookupComputer(p.db, host);
    var cand := NewFile(root, name, c.out, env.fs[FullPath(root, name)], env);
    var found := First(c.db.files, CopyElsewhere(cand));
    if found.Some? && OutsideDirectory(directory, found.value.val) then
      var hits := p.hits + [Hit(cand, found.value.val)];
      if toDelete then Pass(c.db, hits, p.removed + [FullPath(root, name)], true)
      else p.(db := c.db, hits := hits)
    else p.(db := c.db)
  }

  function PrunePass(db: Db, host: string, env: Env, directory: string, toDelete: bool, walk: Walk): Pass
    requires Walked(env, walk)
    decreases |walk|
  {
    if |walk| == 0 then Pass(db, [], [], false)
    else
      var p := PrunePass(db, host, env, directory, toDelete, walk[..|walk| - 1]);
      if p.aborted then p
      else
        var (root, name) := walk[|walk| - 1];
        PruneStep(p, host, env, directory, toDelete, root, name)
  }

  /** Walking one more file is one more step, unless the pass has stopped. */
  lemma PrunePassSnoc(db: Db, host: string, env: Env, directory: string, toDelete: bool, walk: Walk, i: nat)
    requires Walked(env, walk) && i < |walk|
    ensures Walked(env, walk[..i]) && FullPath(walk[i].0, walk[i].1) in env.fs
    ensures var p := PrunePass(db, host, env, directory, toDelete, walk[..i]);
      PrunePass(db, host, env, directory, toDelete, walk[..i + 1]) ==
      if p.aborted then p else PruneStep(p, host, env, directory, toDelete, walk[i].0, walk[i].1)
  {
    assert walk[..i + 1][..i] == walk[..i];
  }

  // ------------------------------------------------------------- properties

  /** The full path of a reported walked file. */
  function CandidatePath(h: Hit): string
  {
    FullPath(h.candidate.path, h.candidate.fileName)
  }

  /** The full paths of the reported walked files, in order. */
  function CandidatePaths(hits: seq<Hit>): (r: seq<string>)
    ensures |r| == |hits|
    ensures forall k :: 0 <= k < |hits| ==> r[k] == CandidatePath(hits[k])
    decreases |hits|
  {
    if |hits| == 0 then []
    else CandidatePaths(hits[..|hits| - 1]) + [CandidatePath(hits[|hits| - 1])]
  }

  /** A pair `remove_neighbor_dupes` may report: same digest, same directory, another name. */
  predicate NeighborHit(h: Hit)
  {
    h.copy.md5Hash == h.candidate.md5Hash && h.copy.path == h.candidate.path &&
    h.copy.fileName != h.candidate.fileName
  }

  /** A pair `kill_from_pc` may report: same digest, another computer. */
  predicate KillHit(h: Hit)
  {
    h.copy.md5Hash == h.candidate.md5Hash && h.copy.computerId != h.candidate.computerId
  }

  /** A pair `prune` may report: same digest, another directory, and a copy
      whose full path does not contain the pruned directory. */
  predicate PruneHit(directory: string, h: Hit)
  {
    h.copy.md5Hash == h.candidate.md5Hash && h.copy.path != h.candidate.path &&
    OutsideDirectory(directory, h.copy)
  }

  /** The report is about the walked file `(root, name)`. */
  predicate About(h: Hit, root: string, name: string)
  {
    h.candidate.path == root && h.candidate.fileName == name
  }

  /** Every report's walked file is one the walk listed. */
  predicate CandidatesWalked(hits: seq<Hit>, walk: Walk)
  {
    forall k :: 0 <= k < |hits| ==> (hits[k].candidate.path, hits[k].candidate.fileName) in walk
  }

  /** A step that keeps the earlier reports and adds only reports about the
      last walked file keeps every report's walked file in the walk. */
  lemma ExtendCandidatesWalked(hits: seq<Hit>, hits': seq<Hit>, walk: Walk)
    requires |walk| > 0 && CandidatesWalked(hits, walk[..|walk| - 1]) && hits <= hits'
    requires forall k :: |hits| <= k < |hits'| ==> About(hits'[k], walk[|walk| - 1].0, walk[|walk| - 1].1)
    ensures CandidatesWalked(hits', walk)
  {
    var prefix := walk[..|walk| - 1];
    forall k | 0 <= k < |hits'|
      ensures (hits'[k].candidate.path, hits'[k].candidate.fileName) in walk
    {
      var c := (hits'[k].candidate.path, hits'[k].candidate.fileName);
      if k < |hits| {
        assert hits'[k] == hits[k];
        var i :| 0 <= i < |prefix| && prefix[i] == c;
        assert walk[i] == c;
      } else {
        assert walk[|walk| - 1] == c;
      }
    }
  }

  /** One step of `remove_neighbor_dupes` reports at most one pair, about the
      walked file and of the neighbour kind, and removes nothing. */
  lemma NeighborStepFacts(p: Pass, host: string, env: Env, root: string, name: string)
    requires FullPath(root, name) in env.fs
    ensures var q := NeighborStep(p, host, env, root, name);
      q.removed == p.removed && q.aborted == p.aborted && Retains(p.db.files, q.db.files) &&
      |q.hits| <= |p.hits| + 1 && p.hits <= q.hits &&
      forall k :: |p.hits| <= k < |q.hits| ==> NeighborHit(q.hits[k]) && About(q.hits[k], root, name)
  {
  }

  /** `remove_neighbor_dupes`: every reported copy has the walked file's
      digest and directory and another name, so no file is reported as its
      own copy; and the pass removes nothing, from disk or from the catalog,
      whatever `to_delete` is. */
  lemma {:induction false} NeighborPassFacts(db: Db, host: string, env: Env, walk: Walk)
    requires Walked(env, walk)
    ensures var p := NeighborPass(db, host, env, walk);
      p.removed == [] && !p.aborted && Retains(db.files, p.db.files) && |p.hits| <= |walk| &&
      forall k :: 0 <= k < |p.hits| ==> NeighborHit(p.hits[k])
    decreases |walk|
  {
    if |walk| > 0 {
      var prefix := walk[..|walk| - 1];
      NeighborPassFacts(db, host, env, prefix);
      var p := NeighborPass(db, host, env, prefix);
      var (root, name) := walk[|walk| - 1];
      NeighborStepFacts(p, host, env, root, name);
      RetainsTrans(db.files, p.db.files, NeighborStep(p, host, env, root, name).db.files);
    }
  }

  /** Every walked file `remove_neighbor_dupes` reports is one the walk listed. */
  lemma {:induction false} NeighborCandidatesWalked(db: Db, host: string, env: Env, walk: Walk)
    requires Walked(env, walk)
    ensures CandidatesWalked(NeighborPass(db, host, env, walk).hits, walk)
    decreases |walk|
  {
    if |walk| > 0 {
      var prefix := walk[..|walk| - 1];
      NeighborCandidatesWalked(db, host, env, prefix);
      var p := NeighborPass(db, host, env, prefix);
      var (root, name) := walk[|walk| - 1];
      NeighborStepFacts(p, host, env, root, name);
      ExtendCandidatesWalked(p.hits, NeighborStep(p, host, env, root, name).hits, walk);
    }
  }

  /** One step of `kill_from_pc` reports at most one pair, about the walked
      file and of the cross-computer kind; with `to_delete` a report removes
      the walked file's full path, and without it every row is kept. */
  lemma KillStepFacts(p: Pass, host: string, env: Env, toDelete: bool, root: string, name: string)
    requires FullPath(root, name) in env.fs
    ensures var q := KillStep(p, host, env, toDelete, root, name);
      (!p.aborted ==> !q.aborted) && |q.hits| <= |p.hits| + 1 && p.hits <= q.hits &&
      (forall k :: |p.hits| <= k < |q.hits| ==> KillHit(q.hits[k]) && About(q.hits[k], root, name)) &&
      q.removed == (if toDelete && |q.hits| > |p.hits| then p.removed + [FullPath(root, name)] else p.removed) &&
      (!toDelete ==> Retains(p.db.files, q.db.files))
  {
  }

  /** With `to_delete`, a reported walked file has no row left in the catalog:
      `File.delete` removes the walked file's own row, the only one with its
      (path, name). */
  lemma KillDeletesCandidate(p: Pass, host: string, env: Env, toDelete: bool, root: string, name: string)
    requires FullPath(root, name) in env.fs
    requires Valid(p.db)
    ensures var q := KillStep(p, host, env, toDelete, root, name);
      toDelete && |q.hits| > |p.hits| ==>
        forall j :: 0 <= j < |q.db.files| ==> !(q.db.files[j].val.path == root && q.db.files[j].val.fileName == name)
  {
    var s := LookupFile(p.db, host, env, root, name);
    LookupFileKeepsValid(p.db, host, env, root, name);
    var q := KillStep(p, host, env, toDelete, root, name);
    if toDelete && |q.hits| > |p.hits| {
      forall j | 0 <= j < |q.db.files|
        ensures !(q.db.files[j].val.path == root && q.db.files[j].val.fileName == name)
      {
        var x := q.db.files[j];
        assert x in s.db.files && x.id != s.out.id;
        var a :| 0 <= a < |s.db.files| && s.db.files[a] == x;
        var b :| 0 <= b < |s.db.files| && s.db.files[b] == s.out;
        assert a != b;
      }
    }
  }

  /** `kill_from_pc`: every reported copy has the walked file's digest and sits
      on another computer; a file is removed from disk exactly when it was
      reported and `to_delete` is set; without `to_delete` the catalog keeps
      every row. */
  lemma {:induction false} KillPassFacts(db: Db, host: string, env: Env, toDelete: bool, walk: Walk)
    requires Walked(env, walk)
    ensures var p := KillPass(db, host, env, toDelete, walk);
      !p.aborted && |p.hits| <= |walk| &&
      p.removed == (if toDelete then CandidatePaths(p.hits) else []) &&
      forall k :: 0 <= k < |p.hits| ==> KillHit(p.hits[k])
    ensures !toDelete ==> Retains(db.files, KillPass(db, host, env, toDelete, walk).db.files)
    decreases |walk|
  {
    if |walk| > 0 {
      var prefix := walk[..|walk| - 1];
      KillPassFacts(db, host, env, toDelete, prefix);
      var p := KillPass(db, host, env, toDelete, prefix);
      var (root, name) := walk[|walk| - 1];
      KillStepFacts(p, host, env, toDelete, root, name);
      var q := KillStep(p, host, env, toDelete, root, name);
      if toDelete {
        if |q.hits| > |p.hits| {
          var n := |q.hits|;
          assert q.hits[..n - 1] == p.hits;
          assert CandidatePath(q.hits[n - 1]) == FullPath(root, name);
          assert CandidatePaths(q.hits) == CandidatePaths(p.hits) + [FullPath(root, name)];
        }
      } else {
        RetainsTrans(db.files, p.db.files, q.db.files);
      }
    }
  }

  /** Every walked file `kill_from_pc` reports, and so every path it hands
      to `os.remove`, is one the walk listed. */
  lemma {:induction false} KillCandidatesWalked(db: Db, host: string, env: Env, toDelete: bool, walk: Walk)
    requires Walked(env, walk)
    ensures CandidatesWalked(KillPass(db, host, env, toDelete, walk).hits, walk)
    decreases |walk|
  {
    if |walk| > 0 {
      var prefix := walk[..|walk| - 1];
      KillCandidatesWalked(db, host, env, toDelete, prefix);
      var p := KillPass(db, host, env, toDelete, prefix);
      var (root, name) := walk[|walk| - 1];
      KillStepFacts(p, host, env, toDelete, root, name);
      ExtendCandidatesWalked(p.hits, KillStep(p, host, env, toDelete, root, name).hits, walk);
    }
  }

  /** Some row of `t` has `r`'s id and (path, name). */
  ghost predicate Survives(t: seq<Row<File>>, r: Row<File>)
  {
    exists x :: x in t && x.id == r.id && SameKey(x.val, r.val)
  }

  /** Some reported walked file has `f`'s (path, name). */
  ghost predicate Reported(hits: seq<Hit>, f: File)
  {
    exists h :: h in hits && SameKey(h.candidate, f)
  }

  /** Every row of `db` is still in `p`'s catalog with its key and (path,
      name), unless `to_delete` is set and a reported walked file had that
      (path, name). */
  ghost predicate KeepsUnreported(db: Db, p: Pass, toDelete: bool)
  {
    forall r :: r in db.files ==> Survives(p.db.files, r) || (toDelete && Reported(p.hits, r.val))
  }

  /** One step of `kill_from_pc` keeps the catalog's ids and natural keys unique. */
  lemma KillStepKeepsValid(p: Pass, host: string, env: Env, toDelete: bool, root: string, name: string)
    requires FullPath(root, name) in env.fs
    requires Valid(p.db)
    ensures Valid(KillStep(p, host, env, toDelete, root, name).db)
  {
    var s := LookupFile(p.db, host, env, root, name);
    LookupFileKeepsValid(p.db, host, env, root, name);
    DeletedKeepsValid(s.db, s.out.id);
  }

  /** One step of `kill_from_pc` deletes no row but the walked file's own,
      and only when it reported the walked file with `to_delete` set. */
  lemma KillStepKeepsOthers(p: Pass, host: string, env: Env, toDelete: bool, root: string, name: string)
    requires FullPath(root, name) in env.fs
    requires Valid(p.db)
    ensures var q := KillStep(p, host, env, toDelete, root, name);
      forall x :: x in p.db.files ==>
        Survives(q.db.files, x) ||
        (toDelete && |q.hits| > |p.hits| && x.val.path == root && x.val.fileName == name)
  {
    var s := LookupFile(p.db, host, env, root, name);
    LookupFileKeepsValid(p.db, host, env, root, name);
    var q := KillStep(p, host, env, toDelete, root, name);
    var deleting := First(s.db.files, OnOtherComputer(s.out.val)).Some? && toDelete;
    forall x | x in p.db.files
      ensures Survives(q.db.files, x) ||
        (toDelete && |q.hits| > |p.hits| && x.val.path == root && x.val.fileName == name)
    {
      var j :| 0 <= j < |p.db.files| && p.db.files[j] == x;
      var y := s.db.files[j];
      if deleting && y.id == s.out.id {
        var k :| 0 <= k < |s.db.files| && s.db.files[k] == s.out;
        assert k == j;
      } else {
        assert y in q.db.files;
      }
    }
  }

  /** `kill_from_pc` deletes no row but the reported walked files': every row
      of the starting catalog survives with its key and (path, name) unless
      `to_delete` is set and a reported walked file had that (path, name). */
  lemma {:induction false} KillPassKeepsOthers(db: Db, host: string, env: Env, toDelete: bool, walk: Walk)
    requires Walked(env, walk)
    requires Valid(db)
    ensures var p := KillPass(db, host, env, toDelete, walk);
      Valid(p.db) && KeepsUnreported(db, p, toDelete)
    decreases |walk|
  {
    if |walk| > 0 {
      var prefix := walk[..|walk| - 1];
      KillPassKeepsOthers(db, host, env, toDelete, prefix);
      var p := KillPass(db, host, env, toDelete, prefix);
      var (root, name) := walk[|walk| - 1];
      KillStepKeepsValid(p, host, env, toDelete, root, name);
      KillStepKeepsOthers(p, host, env, toDelete, root, name);
      KillStepFacts(p, host, env, toDelete, root, name);
      var q := KillStep(p, host, env, toDelete, root, name);
      forall r | r in db.files
        ensures Survives(q.db.files, r) || (toDelete && Reported(q.hits, r.val))
      {
        if toDelete && Reported(p.hits, r.val) {
          var h :| h in p.hits && SameKey(h.candidate, r.val);
          assert h in q.hits;
        } else {
          var x :| x in p.db.files && x.id == r.id && SameKey(x.val, r.val);
          if toDelete && |q.hits| > |p.hits| && x.val.path == root && x.val.fileName == name {
            var h := q.hits[|p.hits|];
            assert h in q.hits && SameKey(h.candidate, r.val);
          } else {
            var y :| y in q.db.files && y.id == x.id && SameKey(y.val, x.val);
            assert y.id == r.id && SameKey(y.val, r.val);
          }
        }
      }
    }
  }

  /** Every file row belongs to the host's computer, whose id is `cid`. */
  ghost predicate OnlyHost(db: Db, host: string, cid: int)
  {
    Row(cid, Computer(host)) in db.computers &&
    forall j :: 0 <= j < |db.files| ==> db.files[j].val.computerId == cid
  }

  /** One step of `kill_from_pc` on a single-machine catalog: no match. */
  lemma KillStepSingleHost(p: Pass, host: string, env: Env, toDelete: bool, root: string, name: string, cid: int)
    requires FullPath(root, name) in env.fs
    requires Valid(p.db) && OnlyHost(p.db, host, cid)
    ensures var q := KillStep(p, host, env, toDelete, root, name);
      q.hits == p.hits && q.removed == p.removed && OnlyHost(q.db, host, cid)
  {
    var k :| 0 <= k < |p.db.computers| && p.db.computers[k] == Row(cid, Computer(host));
    LookupComputerFindsNamed(p.db, host, k);
    var s := LookupFile(p.db, host, env, root, name);
    assert s.out.val.computerId == cid;
    assert OnlyHost(s.db, host, cid);
    assert First(s.db.files, OnOtherComputer(s.out.val)).None?;
  }

  /** A catalog only this machine has written to never gives `kill_from_pc` a
      match: nothing is reported and nothing removed, and the catalog stays a
      single-machine one. */
  lemma {:induction false} KillPassSingleHost(db: Db, host: string, env: Env, toDelete: bool, walk: Walk, cid: int)
    requires Walked(env, walk)
    requires Valid(db) && OnlyHost(db, host, cid)
    ensures var p := KillPass(db, host, env, toDelete, walk);
      p.hits == [] && p.removed == [] && OnlyHost(p.db, host, cid)
    decreases |walk|
  {
    if |walk| > 0 {
      var prefix := walk[..|walk| - 1];
      KillPassSingleHost(db, host, env, toDelete, prefix, cid);
      KillPassKeepsOthers(db, host, env, toDelete, prefix);
      var (root, name) := walk[|walk| - 1];
      KillStepSingleHost(KillPass(db, host, env, toDelete, prefix), host, env, toDelete, root, name, cid);
    }
  }

  /** One step of `prune` leaves the files and folders tables alone and
      reports at most one pair, about the walked file and of the prune kind;
      it stops the pass exactly when it reports with `to_delete` set, having
      removed the walked file's full path. */
  lemma PruneStepFacts(p: Pass, host: string, env: Env, directory: string, toDelete: bool, root: string, name: string)
    requires FullPath(root, name) in env.fs
    ensures var q := PruneStep(p, host, env, directory, toDelete, root, name);
      q.db.files == p.db.files && q.db.folders == p.db.folders &&
      |q.hits| <= |p.hits| + 1 && p.hits <= q.hits &&
      (forall k :: |p.hits| <= k < |q.hits| ==> PruneHit(directory, q.hits[k]) && About(q.hits[k], root, name)) &&
      q.aborted == (p.aborted || (toDelete && |q.hits| > |p.hits|))
    ensures var q := PruneStep(p, host, env, directory, toDelete, root, name);
      q.removed == (if toDelete && |q.hits| > |p.hits| then p.removed + [FullPath(root, name)] else p.removed)
  {
  }

  /** `prune`: every reported copy has the candidate's digest, another path,
      and a full path that does not contain the pruned directory; the files
      table is never changed (the candidates are never added to the session);
      and at most one file is removed from disk, after which the pass stops. */
  lemma {:induction false} PrunePassFacts(db: Db, host: string, env: Env, directory: string, toDelete: bool, walk: Walk)
    requires Walked(env, walk)
    ensures var p := PrunePass(db, host, env, directory, toDelete, walk);
      p.db.files == db.files && p.db.folders == db.folders && |p.hits| <= |walk|
    ensures var p := PrunePass(db, host, env, directory, toDelete, walk);
      (p.aborted ==> toDelete && |p.hits| > 0 && p.removed == [CandidatePath(p.hits[|p.hits| - 1])]) &&
      (!p.aborted ==> p.removed == [])
    ensures var p := PrunePass(db, host, env, directory, toDelete, walk);
      forall k :: 0 <= k < |p.hits| ==> PruneHit(directory, p.hits[k])
    decreases |walk|
  {
    if |walk| > 0 {
      var prefix := walk[..|walk| - 1];
      PrunePassFacts(db, host, env, directory, toDelete, prefix);
      var p := PrunePass(db, host, env, directory, toDelete, prefix);
      if !p.aborted {
        var (root, name) := walk[|walk| - 1];
        PruneStepFacts(p, host, env, directory, toDelete, root, name);
      }
    }
  }

  /** Given that `os.walk(directory)` only visits directories that start with
      `directory`, every reported pair has the walked file inside the pruned
      directory and the copy outside it. */
  lemma PruneHitsOutside(db: Db, host: string, env: Env, directory: string, toDelete: bool, walk: Walk)
    requires Walked(env, walk)
    requires forall k :: 0 <= k < |walk| ==> IsPrefix(directory, walk[k].0)
    ensures var p := PrunePass(db, host, env, directory, toDelete, walk);
      forall h :: h in p.hits ==> IsPrefix(directory, h.candidate.path) && !IsPrefix(directory, h.copy.path)
  {
    PruneCandidatesWalked(db, host, env, directory, toDelete, walk);
    PrunePassFacts(db, host, env, directory, toDelete, walk);
    var p := PrunePass(db, host, env, directory, toDelete, walk);
    forall h | h in p.hits
      ensures IsPrefix(directory, h.candidate.path) && !IsPrefix(directory, h.copy.path)
    {
      var k :| 0 <= k < |p.hits| && p.hits[k] == h;
      var i :| 0 <= i < |walk| && walk[i] == (h.candidate.path, h.candidate.fileName);
      OutsideDirectoryNotUnder(directory, h.copy, h.candidate.path);
    }
  }

  /** Every walked file prune reports is one the walk listed. */
  lemma {:induction false} PruneCandidatesWalked(db: Db, host: string, env: Env, directory: string, toDelete: bool, walk: Walk)
    requires Walked(env, walk)
    ensures CandidatesWalked(PrunePass(db, host, env, directory, toDelete, walk).hits, walk)
    decreases |walk|
  {
    if |walk| > 0 {
      var prefix := walk[..|walk| - 1];
      PruneCandidatesWalked(db, host, env, directory, toDelete, prefix);
      var p := PrunePass(db, host, env, directory, toDelete, prefix);
      if !p.aborted {
        var (root, name) := walk[|walk| - 1];
        PruneStepFacts(p, host, env, directory, toDelete, root, name);
        ExtendCandidatesWalked(p.hits, PruneStep(p, host, env, directory, toDelete, root, name).hits, walk);
      } else {
        ExtendCandidatesWalked(p.hits, p.hits, walk);
      }
    }
  }

  /** Once prune has stopped on an exception, the rest of the walk is never visited. */
  lemma {:induction false} PruneAbortFinal(db: Db, host: string, env: Env, directory: string, toDelete: bool, walk: Walk, i: nat)
    requires Walked(env, walk) && i <= |walk|
    requires PrunePass(db, host, env, directory, toDelete, walk[..i]).aborted
    ensures PrunePass(db, host, env, directory, toDelete, walk) == PrunePass(db, host, env, directory, toDelete, walk[..i])
    decreases |walk| - i
  {
    if i < |walk| {
      assert walk[..|walk| - 1][..i] == walk[..i];
      PruneAbortFinal(db, host, env, directory, toDelete, walk[..|walk| - 1], i);
    } else {
      assert walk[..i] == walk;
    }
  }
}
