/**
 The prune pass of `folder_sync`: walk the replica top-down; in every
 directory visited, remove each file, and remove with all its contents each
 directory, that has no entry (of either kind) at the same path in the
 source. A removed directory is still among those the walk goes on to, but
 it no longer exists and yields nothing, as `os.walk` ignores the error.
 */
module Prune {
  import opened Paths
  import opened Trees
  import opened SyncSpec
  import opened Walk

  /** The replica entries the pass has decided on: those directly inside the visited directories. */
  ghost function Handled(rep0: Entries, visited: set<Path>): (s: set<Path>) {
    set p | p in rep0 && p != [] && Parent(p) in visited
  }

  /** The removals of the pass that concern entries already decided on. */
  ghost function RemovalsWithin(rep0: Entries, src: Entries, done: set<Path>): (s: set<Event>) {
    set e | e in PruneEvents(rep0, src) && e.path in done
  }

  /** The entries among `ps` with nothing at their path in the source: those the pass removes. */
  function Unkept(src: Entries, ps: set<Path>): (s: set<Path>) {
    set p | p in ps && p !in src
  }

  /** Before a loop over `all` starts, it has removed nothing. */
  lemma UnkeptNone(src: Entries, m: Entries, all: set<Path>)
    ensures m - Unkept(src, all - all) == m
    ensures WithoutSubtrees(m, Unkept(src, all - all)) == m
  {
    assert Unkept(src, all - all) == {};
    WithoutNoSubtrees(m);
  }

  /** A directory that does not exist lists nothing, so visiting it removes nothing. */
  lemma NothingListed(src: Entries, m: Entries, r: Path)
    requires WellFormed(m) && r !in m
    ensures DirChildren(m, r) == {}
    ensures WithoutSubtrees(m - Unkept(src, FileChildren(m, r)), Unkept(src, DirChildren(m, r))) == m
  {
    assert FileChildren(m, r) == {} && DirChildren(m, r) == {};
    assert Unkept(src, {}) == {};
    assert m - {} == m;
    WithoutNoSubtrees(m);
  }

  /** Deciding on one more file `x` of the loop over `all` removes it exactly when it is unkept. */
  lemma UnkeptFileStep(src: Entries, m: Entries, all: set<Path>, left: set<Path>, x: Path)
    requires x in left && left <= all
    ensures (if x in src then m - Unkept(src, all - left) else m - Unkept(src, all - left) - {x})
            == m - Unkept(src, all - (left - {x}))
  {
    if x in src {
      assert Unkept(src, all - left) == Unkept(src, all - (left - {x}));
    } else {
      assert Unkept(src, all - left) + {x} == Unkept(src, all - (left - {x}));
    }
  }

  /** Deciding on one more directory `x` of the loop over `all` removes its subtree exactly when it is unkept. */
  lemma UnkeptDirStep(src: Entries, m: Entries, all: set<Path>, left: set<Path>, x: Path)
    requires x in left && left <= all
    ensures (if x in src then WithoutSubtrees(m, Unkept(src, all - left))
             else WithoutSubtree(WithoutSubtrees(m, Unkept(src, all - left)), x))
            == WithoutSubtrees(m, Unkept(src, all - (left - {x})))
  {
    if x in src {
      assert Unkept(src, all - left) == Unkept(src, all - (left - {x}));
    } else {
      assert Unkept(src, all - left) + {x} == Unkept(src, all - (left - {x}));
      WithoutOneMoreSubtree(m, Unkept(src, all - left), x);
    }
  }

  /** The replica directories the walk must reach: those the pass keeps. */
  ghost function KeptDirs(rep0: Entries, src: Entries): (s: set<Path>) {
    set d | d in rep0 && rep0[d].Dir? && Kept(src, d)
  }

  /**
   The replica `now` part way through the pass, which has decided on the
   entries `done`: it holds only entries of the replica as they were, all the
   kept ones among them, and no unkept one that was decided on; an entry gone
   was either decided on or lay inside a directory the pass does not keep.
   */
  ghost predicate PruneProgress(src: Entries, rep0: Entries, now: Entries, done: set<Path>) {
    && (forall p :: p in now ==> p in rep0 && now[p] == rep0[p])
    && (forall p :: p in rep0 && Kept(src, p) ==> p in now)
    && (forall p :: p in now && !Kept(src, p) ==> p !in done)
    && (forall p :: p in rep0 && p !in now ==> p != [] && (p in done || !Kept(src, Parent(p))))
  }

  lemma KeptDirsParentClosed(rep0: Entries, src: Entries)
    requires WellFormed(rep0) && WellFormed(src)
    ensures ParentClosed(KeptDirs(rep0, src))
  {
  }

  /** Deciding on `p`, directly inside a kept directory, adds its removal when the pass removes it. */
  lemma RemovalsGrow(rep0: Entries, src: Entries, done: set<Path>, p: Path)
    requires p in rep0 && p != [] && Kept(src, Parent(p)) && p !in done
    ensures Kept(src, p) ==> RemovalsWithin(rep0, src, done + {p}) == RemovalsWithin(rep0, src, done)
    ensures !Kept(src, p) && rep0[p].File? ==>
      RemovalsWithin(rep0, src, done + {p}) == RemovalsWithin(rep0, src, done) + {RemovedFile(p)}
    ensures !Kept(src, p) && rep0[p].Dir? ==>
      RemovalsWithin(rep0, src, done + {p}) == RemovalsWithin(rep0, src, done) + {RemovedDir(p)}
  {
  }

  /** An entry directly inside a kept directory and not decided on is still in the replica. */
  lemma StillThere(src: Entries, rep0: Entries, now: Entries, done: set<Path>, p: Path)
    requires PruneProgress(src, rep0, now, done)
    requires p in rep0 && p != [] && Kept(src, Parent(p)) && p !in done
    ensures p in now && now[p] == rep0[p]
  {
  }

  /** Removing an unkept file keeps the progress of the pass. */
  lemma RemoveStep(src: Entries, rep0: Entries, now: Entries, done: set<Path>, f: Path)
    requires PruneProgress(src, rep0, now, done)
    requires f in now && !Kept(src, f)
    ensures PruneProgress(src, rep0, now - {f}, done + {f})
  {
  }

  /** Removing an unkept directory with everything below it keeps the progress of the pass. */
  lemma RmTreeStep(src: Entries, rep0: Entries, now: Entries, done: set<Path>, d: Path)
    requires WellFormed(src) && PruneProgress(src, rep0, now, done)
    requires d in now && !Kept(src, d)
    ensures PruneProgress(src, rep0, WithoutSubtree(now, d), done + {d})
  {
    var now' := WithoutSubtree(now, d);
    forall p | p in rep0 && Kept(src, p)
      ensures p in now'
    {
      if d <= p {
        BelowMissingIsMissing(src, d, p);
      }
    }
    forall p | p in rep0 && p !in now'
      ensures p != [] && (p in done + {d} || !Kept(src, Parent(p)))
    {
      if p in now && p != d {
        assert Parent(p) != [] && d <= Parent(p) by {
          ProperPrefixOfParent(d, p);
        }
        BelowMissingIsMissing(src, d, Parent(p));
      }
    }
  }

  /**
   One iteration of `for file in files`: the replica file `f` is removed
   when the source has nothing at its path, and nothing else changes.
   */
  method PruneFile(source: Tree, replica: Tree, r: Path, f: Path, ghost rep0: Entries, ghost done: set<Path>, log0: seq<Event>)
    returns (log: seq<Event>)
    requires source != replica && source.Valid() && replica.Valid()
    requires Kept(source.entries, r) && f in FileChildren(rep0, r) && f !in done
    requires PruneProgress(source.entries, rep0, replica.entries, done)
    requires EventSet(log0) == RemovalsWithin(rep0, source.entries, done) && NoRepeats(log0)
    modifies replica
    ensures replica.Valid() && NoRepeats(log)
    ensures replica.entries == if f in source.entries then old(replica.entries) else old(replica.entries) - {f}
    ensures PruneProgress(source.entries, rep0, replica.entries, done + {f})
    ensures EventSet(log) == RemovalsWithin(rep0, source.entries, done + {f})
  {
    log := log0;
    RemovalsGrow(rep0, source.entries, done, f);
    StillThere(source.entries, rep0, replica.entries, done, f);
    if !source.Exists(f) {
      RemoveStep(source.entries, rep0, replica.entries, done, f);
      replica.Remove(f);
      assert RemovedFile(f) !in EventSet(log);
      LogGrows(log, RemovedFile(f));
      log := log + [RemovedFile(f)];
    }
  }

  /**
   One iteration of `for dir in dirs`: the replica directory `d` is removed,
   with everything in it, when the source has nothing at its path, and
   nothing else changes.
   */
  method PruneSubdir(source: Tree, replica: Tree, r: Path, d: Path, ghost rep0: Entries, ghost done: set<Path>, log0: seq<Event>)
    returns (log: seq<Event>)
    requires source != replica && source.Valid() && replica.Valid()
    requires Kept(source.entries, r) && d in DirChildren(rep0, r) && d !in done
    requires PruneProgress(source.entries, rep0, replica.entries, done)
    requires EventSet(log0) == RemovalsWithin(rep0, source.entries, done) && NoRepeats(log0)
    modifies replica
    ensures replica.Valid() && NoRepeats(log)
    ensures replica.entries == if d in source.entries then old(replica.entries) else WithoutSubtree(old(replica.entries), d)
    ensures PruneProgress(source.entries, rep0, replica.entries, done + {d})
    ensures EventSet(log) == RemovalsWithin(rep0, source.entries, done + {d})
  {
    log := log0;
    RemovalsGrow(rep0, source.entries, done, d);
    StillThere(source.entries, rep0, replica.entries, done, d);
    if !source.Exists(d) {
      RmTreeStep(source.entries, rep0, replica.entries, done, d);
      replica.RmTree(d);
      assert RemovedDir(d) !in EventSet(log);
      LogGrows(log, RemovedDir(d));
      log := log + [RemovedDir(d)];
    }
  }

  /** The `for file in files` loop of the visited directory `r`: it removes exactly the unkept files. */
  method PruneFiles(source: Tree, replica: Tree, r: Path, files: set<Path>,
                    ghost rep0: Entries, ghost done0: set<Path>, log0: seq<Event>)
    returns (log: seq<Event>)
    requires source != replica && source.Valid() && replica.Valid()
    requires Kept(source.entries, r) && files <= FileChildren(rep0, r) && files !! done0
    requires PruneProgress(source.entries, rep0, replica.entries, done0)
    requires EventSet(log0) == RemovalsWithin(rep0, source.entries, done0) && NoRepeats(log0)
    modifies replica
    ensures replica.Valid() && NoRepeats(log)
    ensures replica.entries == old(replica.entries) - Unkept(source.entries, files)
    ensures PruneProgress(source.entries, rep0, replica.entries, done0 + files)
    ensures EventSet(log) == RemovalsWithin(rep0, source.entries, done0 + files)
  {
    log := log0;
    var left := files;
    assert done0 + (files - left) == done0;
    UnkeptNone(source.entries, replica.entries, files);
    while left != {}
      invariant replica.Valid() && NoRepeats(log)
      invariant left <= files
      invariant replica.entries == old(replica.entries) - Unkept(source.entries, files - left)
      invariant PruneProgress(source.entries, rep0, replica.entries, done0 + (files - left))
      invariant EventSet(log) == RemovalsWithin(rep0, source.entries, done0 + (files - left))
      decreases left
    {
      var f :| f in left;
      log := PruneFile(source, replica, r, f, rep0, done0 + (files - left), log);
      TakeOne(done0, files, left, f);
      UnkeptFileStep(source.entries, old(replica.entries), files, left, f);
      left := left - {f};
    }
    assert files - left == files;
  }

  /** The `for dir in dirs` loop of the visited directory `r`: it removes exactly the subtrees of the unkept directories. */
  method PruneSubdirs(source: Tree, replica: Tree, r: Path, dirs: set<Path>,
                      ghost rep0: Entries, ghost done0: set<Path>, log0: seq<Event>)
    returns (log: seq<Event>)
    requires source != replica && source.Valid() && replica.Valid()
    requires Kept(source.entries, r) && dirs <= DirChildren(rep0, r) && dirs !! done0
    requires PruneProgress(source.entries, rep0, replica.entries, done0)
    requires EventSet(log0) == RemovalsWithin(rep0, source.entries, done0) && NoRepeats(log0)
    modifies replica
    ensures replica.Valid() && NoRepeats(log)
    ensures replica.entries == WithoutSubtrees(old(replica.entries), Unkept(source.entries, dirs))
    ensures PruneProgress(source.entries, rep0, replica.entries, done0 + dirs)
    ensures EventSet(log) == RemovalsWithin(rep0, source.entries, done0 + dirs)
  {
    log := log0;
    var left := dirs;
    assert done0 + (dirs - left) == done0;
    UnkeptNone(source.entries, replica.entries, dirs);
    while left != {}
      invariant replica.Valid() && NoRepeats(log)
      invariant left <= dirs
      invariant replica.entries == WithoutSubtrees(old(replica.entries), Unkept(source.entries, dirs - left))
      invariant PruneProgress(source.entries, rep0, replica.entries, done0 + (dirs - left))
      invariant EventSet(log) == RemovalsWithin(rep0, source.entries, done0 + (dirs - left))
      decreases left
    {
      var d :| d in left;
      log := PruneSubdir(source, replica, r, d, rep0, done0 + (dirs - left), log);
      TakeOne(done0, dirs, left, d);
      UnkeptDirStep(source.entries, old(replica.entries), dirs, left, d);
      left := left - {d};
    }
    assert dirs - left == dirs;
  }

  /**
   A directory the walk takes that still exists is one the pass keeps, and
   what `os.walk` lists in it is what the replica held there at the start.
   */
  lemma VisitListed(src: Entries, rep0: Entries, now: Entries, todo: set<Path>, visited: set<Path>, r: Path)
    requires WellFormed(rep0) && WellFormed(src)
    requires WalkState(KeptDirs(rep0, src), DirsOf(rep0), todo, visited) && r in todo
    requires PruneProgress(src, rep0, now, Handled(rep0, visited)) && r in now
    ensures Kept(src, r)
    ensures FileChildren(now, r) == FileChildren(rep0, r) && DirChildren(now, r) == DirChildren(rep0, r)
    ensures FileChildren(rep0, r) !! Handled(rep0, visited) && DirChildren(rep0, r) !! Handled(rep0, visited)
    ensures Handled(rep0, visited + {r}) == Handled(rep0, visited) + FileChildren(rep0, r) + DirChildren(rep0, r)
    ensures forall d :: d in KeptDirs(rep0, src) && d != [] && Parent(d) == r ==> d in DirChildren(rep0, r)
  {
    forall p | p in rep0 && p != [] && Parent(p) == r
      ensures p in now
    {
      assert p !in Handled(rep0, visited);
    }
  }

  /** A directory the walk takes that no longer exists yields nothing and was not kept. */
  lemma VisitGone(src: Entries, rep0: Entries, now: Entries, visited: set<Path>, r: Path)
    requires WellFormed(src) && WellFormed(now)
    requires PruneProgress(src, rep0, now, Handled(rep0, visited)) && r !in now
    ensures PruneProgress(src, rep0, now, Handled(rep0, visited + {r}))
    ensures RemovalsWithin(rep0, src, Handled(rep0, visited + {r})) == RemovalsWithin(rep0, src, Handled(rep0, visited))
    ensures forall d :: d in KeptDirs(rep0, src) && d != [] && Parent(d) == r ==> false
  {
  }

  /** Every entry left once the walk has reached every kept directory is kept. */
  lemma {:induction false} LeftIsKept(src: Entries, rep0: Entries, now: Entries, visited: set<Path>, p: Path)
    requires WellFormed(now) && PruneProgress(src, rep0, now, Handled(rep0, visited))
    requires KeptDirs(rep0, src) <= visited && p in now
    ensures Kept(src, p)
    decreases |p|
  {
    if p != [] {
      LeftIsKept(src, rep0, now, visited, Parent(p));
      assert Parent(p) in KeptDirs(rep0, src);
      assert p in Handled(rep0, visited);
    }
  }

  /** When the walk has reached every kept directory, the replica is pruned and every removal is logged. */
  lemma PruneComplete(src: Entries, rep0: Entries, now: Entries, visited: set<Path>)
    requires WellFormed(rep0) && WellFormed(src) && WellFormed(now)
    requires PruneProgress(src, rep0, now, Handled(rep0, visited))
    requires KeptDirs(rep0, src) <= visited
    ensures now == Pruned(rep0, src)
    ensures RemovalsWithin(rep0, src, Handled(rep0, visited)) == PruneEvents(rep0, src)
  {
    forall p | p in now
      ensures Kept(src, p)
    {
      LeftIsKept(src, rep0, now, visited, p);
    }
    assert now.Keys == Pruned(rep0, src).Keys;
    forall e | e in PruneEvents(rep0, src)
      ensures e.path in Handled(rep0, visited)
    {
      assert Parent(e.path) in KeptDirs(rep0, src);
    }
  }

  /**
   One step of the walk over the replica: `os.walk` lists directory `r`
   when it still exists, then its unkept files are removed and its unkept
   subdirectories removed with their contents, and nothing else changes. The
   subdirectories listed are those the walk goes on to.
   */
  method VisitReplicaDir(source: Tree, replica: Tree, r: Path, ghost rep0: Entries,
                         ghost todo: set<Path>, ghost visited: set<Path>, log0: seq<Event>)
    returns (dirs: set<Path>, log: seq<Event>)
    requires source != replica && source.Valid() && replica.Valid() && WellFormed(rep0)
    requires WalkState(KeptDirs(rep0, source.entries), DirsOf(rep0), todo, visited) && r in todo
    requires PruneProgress(source.entries, rep0, replica.entries, Handled(rep0, visited))
    requires EventSet(log0) == RemovalsWithin(rep0, source.entries, Handled(rep0, visited)) && NoRepeats(log0)
    modifies replica
    ensures replica.Valid() && NoRepeats(log)
    ensures dirs == DirChildren(old(replica.entries), r)
    ensures replica.entries == WithoutSubtrees(old(replica.entries) - Unkept(source.entries, FileChildren(old(replica.entries), r)),
                                               Unkept(source.entries, DirChildren(old(replica.entries), r)))
    ensures dirs <= DirsOf(rep0)
    ensures forall d :: d in KeptDirs(rep0, source.entries) && d != [] && Parent(d) == r ==> d in dirs
    ensures PruneProgress(source.entries, rep0, replica.entries, Handled(rep0, visited + {r}))
    ensures EventSet(log) == RemovalsWithin(rep0, source.entries, Handled(rep0, visited + {r}))
  {
    var src := source.entries;
    log := log0;
    if replica.Exists(r) {
      // os.walk lists the directory before the body runs
      var files := FileChildren(replica.entries, r);
      dirs := DirChildren(replica.entries, r);
      VisitListed(src, rep0, replica.entries, todo, visited, r);
      log := PruneFiles(source, replica, r, files, rep0, Handled(rep0, visited), log);
      log := PruneSubdirs(source, replica, r, dirs, rep0, Handled(rep0, visited) + files, log);
    } else {
      // os.walk cannot list a directory removed earlier in the pass, and yields nothing for it
      dirs := {};
      VisitGone(src, rep0, replica.entries, visited, r);
      NothingListed(src, replica.entries, r);
    }
  }

  /**
   The prune pass. It leaves the replica equal to `Pruned`, having removed
   exactly what `PruneEvents` names, each once, whatever order the walk takes.
   */
  method PrunePass(source: Tree, replica: Tree) returns (log: seq<Event>)
    requires source != replica && source.Valid() && replica.Valid()
    modifies replica
    ensures replica.Valid() && NoRepeats(log)
    ensures replica.entries == Pruned(old(replica.entries), source.entries)
    ensures EventSet(log) == PruneEvents(old(replica.entries), source.entries)
  {
    var src := source.entries;
    ghost var rep0 := replica.entries;
    var todo: set<Path> := if replica.Exists([]) then {[]} else {};
    ghost var visited: set<Path> := {};
    log := [];
    WalkStart(KeptDirs(rep0, src), DirsOf(rep0), todo);
    while todo != {}
      invariant replica.Valid() && NoRepeats(log)
      invariant WalkState(KeptDirs(rep0, src), DirsOf(rep0), todo, visited)
      invariant PruneProgress(src, rep0, replica.entries, Handled(rep0, visited))
      invariant EventSet(log) == RemovalsWithin(rep0, src, Handled(rep0, visited))
      decreases DirsOf(rep0) - visited
    {
      var r :| r in todo;
      var dirs;
      dirs, log := VisitReplicaDir(source, replica, r, rep0, todo, visited, log);
      WalkStep(KeptDirs(rep0, src), DirsOf(rep0), todo, visited, r, dirs);
      todo := todo - {r} + dirs;
      visited := visited + {r};
    }
    KeptDirsParentClosed(rep0, src);
    WalkEnd(KeptDirs(rep0, src), DirsOf(rep0), visited);
    PruneComplete(src, rep0, replica.entries, visited);
  }
}
