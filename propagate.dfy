/**
 The propagate pass of `folder_sync`: walk the source top-down; for every
 source directory (the root included) create the replica directory when it
 does not exist, then copy every file of that directory whose replica copy is
 missing or has another checksum.

 The walk keeps a set of directories still to visit and takes any of them
 next; a directory's subdirectories join the set when it is visited, so a
 directory is always visited after its parent, as with `os.walk`. The
 contract holds for every such order.
 */
module Propagate {
  import opened Paths
  import opened Trees
  import opened SyncSpec
  import opened Walk

  /** The entries a walk has dealt with: the visited directories and the files directly inside them. */
  ghost function Done(src: Entries, visited: set<Path>): (s: set<Path>) {
    visited + set f | f in src && f != [] && src[f].File? && Parent(f) in visited
  }

  /** The events of the pass that concern entries already dealt with. */
  ghost function EventsWithin(src: Entries, rep: Entries, sum: Content -> Digest, done: set<Path>): (s: set<Event>) {
    set e | e in PropagateEvents(src, rep, sum) && e.path in done
  }

  /** Once every source entry is dealt with, the replica is exactly the propagated one. */
  lemma {:induction false} PropagateComplete(src: Entries, rep0: Entries, sum: Content -> Digest, now: Entries)
    requires forall p :: p in src ==> AsAfter(now, Propagated(src, rep0, sum), p)
    requires forall p :: p !in src ==> AsBefore(rep0, now, p)
    ensures now == Propagated(src, rep0, sum)
  {
    var target := Propagated(src, rep0, sum);
    forall p | p !in src
      ensures (p in target <==> p in rep0) && (p in target ==> target[p] == rep0[p])
    {
      assert p !in ToCreate(src, rep0) && p !in ToCopy(src, rep0, sum);
    }
    assert now.Keys == target.Keys;
  }

  /** A finished pass raised nothing: each clash would have stopped it at the clashing entry. */
  lemma {:induction false} NoRaiseAfterFullPass(src: Entries, rep0: Entries, sum: Content -> Digest, now: Entries)
    requires WellFormed(now)
    requires forall p :: p in src ==> AsAfter(now, Propagated(src, rep0, sum), p)
    requires forall p :: p in src && p in rep0 && rep0[p].Dir? ==> src[p].Dir?
    ensures !Raises(src, rep0)
  {
    if p :| RaisesAt(src, rep0, p) {
      if src[p].File? {
        assert false;
      }
      var n :| p + [n] in src;
      ParentOfChild(p, n);
      assert false;
    }
  }

  /**
   A directory of the source that the pass has dealt with but is still a
   file in the replica was a file there before the pass: a clash that raises
   as soon as something must go inside it.
   */
  lemma DirOverFileRaises(src: Entries, rep0: Entries, sum: Content -> Digest, now: Entries, r: Path, n: Name)
    requires r in src && src[r].Dir? && r + [n] in src
    requires AsAfter(now, Propagated(src, rep0, sum), r) && now[r].File?
    ensures Raises(src, rep0)
  {
    assert r !in ToCreate(src, rep0) && r !in ToCopy(src, rep0, sum);
    assert RaisesAt(src, rep0, r);
  }

  /**
   `os.makedirs(r)` raises only when a directory above `r` is a file; as the
   parent of `r` has been dealt with, that file is the parent, a file in the
   replica before the pass, over a source directory holding `r`.
   */
  lemma MakeDirsRaises(src: Entries, rep0: Entries, sum: Content -> Digest, now: Entries, done: set<Path>, r: Path)
    requires WellFormed(src) && WellFormed(now) && Progress(src, rep0, sum, now, done)
    requires r in src && r !in now && (r != [] ==> Parent(r) in done)
    requires !forall q :: q < r && q in now ==> now[q].Dir?
    ensures Raises(src, rep0)
  {
    var q :| q < r && q in now && now[q].File?;
    ProperPrefixOfParent(q, r);
    if q != Parent(r) {
      AncestorIsDir(now, Parent(r), q);
    }
    ChildOfParent(r);
    DirOverFileRaises(src, rep0, sum, now, Parent(r), r[|r| - 1]);
  }

  /**
   Progress of the pass once the entries in `done` are dealt with: those are
   as the pass leaves them, the others as they were, and no source file dealt
   with was a directory in the replica.
   */
  ghost predicate Progress(src: Entries, rep0: Entries, sum: Content -> Digest, now: Entries, done: set<Path>) {
    && done <= src.Keys
    && (forall p :: p in done ==> AsAfter(now, Propagated(src, rep0, sum), p))
    && (forall p :: p !in done ==> AsBefore(rep0, now, p))
    && (forall p :: p in done && p in rep0 && rep0[p].Dir? ==> src[p].Dir?)
  }

  /** Visiting a source directory that exists in the replica changes nothing. */
  lemma VisitExisting(src: Entries, rep0: Entries, sum: Content -> Digest, now: Entries, done: set<Path>, r: Path)
    requires Progress(src, rep0, sum, now, done)
    requires r in src && src[r].Dir? && r !in done && r in now
    ensures Progress(src, rep0, sum, now, done + {r})
    ensures EventsWithin(src, rep0, sum, done + {r}) == EventsWithin(src, rep0, sum, done)
  {
    assert AsBefore(rep0, now, r);
    assert r !in ToCreate(src, rep0) && r !in ToCopy(src, rep0, sum);
  }

  /** Visiting a source directory missing from the replica creates it, and only it. */
  lemma VisitMissing(src: Entries, rep0: Entries, sum: Content -> Digest, now: Entries, done: set<Path>, r: Path)
    requires Progress(src, rep0, sum, now, done)
    requires r in src && src[r].Dir? && r !in done && r !in now
    ensures r in ToCreate(src, rep0)
    ensures Progress(src, rep0, sum, now[r := Dir], done + {r})
  {
    assert AsBefore(rep0, now, r);
    assert r in ToCreate(src, rep0) && r !in ToCopy(src, rep0, sum);
  }

  /** Dealing with a source directory the pass creates adds its creation to the events. */
  lemma CreatedLogged(src: Entries, rep0: Entries, sum: Content -> Digest, done: set<Path>, r: Path)
    requires r in ToCreate(src, rep0) && r !in done
    ensures EventsWithin(src, rep0, sum, done + {r}) == EventsWithin(src, rep0, sum, done) + {MadeDir(r)}
  {
  }

  /** Dealing with a source file: it is copied exactly when `ToCopy` names it. */
  lemma VisitFile(src: Entries, rep0: Entries, sum: Content -> Digest, now: Entries, done: set<Path>, f: Path, copy: bool)
    requires Progress(src, rep0, sum, now, done)
    requires f in src && src[f].File? && f !in done && !(f in now && now[f].Dir?)
    requires copy <==> (f !in now || sum(src[f].content) != sum(now[f].content))
    ensures copy <==> f in ToCopy(src, rep0, sum)
    ensures Progress(src, rep0, sum, if copy then now[f := src[f]] else now, done + {f})
  {
    assert AsBefore(rep0, now, f);
    assert f !in ToCreate(src, rep0);
  }

  /** Dealing with a source file adds its copy to the events exactly when `ToCopy` names it. */
  lemma FileLogged(src: Entries, rep0: Entries, sum: Content -> Digest, done: set<Path>, f: Path)
    requires f in src && src[f].File? && f !in done
    ensures f in ToCopy(src, rep0, sum) ==>
      EventsWithin(src, rep0, sum, done + {f}) == EventsWithin(src, rep0, sum, done) + {CopiedFile(f)}
    ensures f !in ToCopy(src, rep0, sum) ==>
      EventsWithin(src, rep0, sum, done + {f}) == EventsWithin(src, rep0, sum, done)
  {
    assert f !in ToCreate(src, rep0);
  }

  /** Visiting `r` deals with `r` and the files directly inside it, which were not dealt with before. */
  lemma DoneGrows(src: Entries, visited: set<Path>, r: Path)
    requires r in DirsOf(src) && r !in visited && visited <= DirsOf(src)
    ensures r !in Done(src, visited) && FileChildren(src, r) !! Done(src, visited)
    ensures Done(src, visited + {r}) == Done(src, visited) + {r} + FileChildren(src, r)
  {
  }

  /** A pass stopped at any point leaves each entry as it was or as the pass sets it. */
  lemma ProgressBetween(src: Entries, rep0: Entries, sum: Content -> Digest, now: Entries, done: set<Path>)
    requires Progress(src, rep0, sum, now, done)
    ensures forall p :: AsBefore(rep0, now, p) || AsAfter(now, Propagated(src, rep0, sum), p)
  {
    forall p ensures AsBefore(rep0, now, p) || AsAfter(now, Propagated(src, rep0, sum), p) {
      if p in done {
        assert AsAfter(now, Propagated(src, rep0, sum), p);
      } else {
        assert AsBefore(rep0, now, p);
      }
    }
  }

  /**
   One step of the walk over the source: directory `r` of the source is
   created in the replica when missing, then each file directly inside it is
   copied unless the replica holds a file with the same checksum. The step
   raises exactly where the source raises, and then only on a clash.
   */
  method VisitDir(source: Tree, replica: Tree, sum: Content -> Digest, r: Path,
                  ghost rep0: Entries, ghost done: set<Path>, log0: seq<Event>)
    returns (ok: bool, log: seq<Event>)
    requires source != replica && source.Valid() && replica.Valid()
    requires r in source.entries && source.entries[r].Dir? && r !in done
    requires r != [] ==> Parent(r) in done
    requires FileChildren(source.entries, r) !! done
    requires Progress(source.entries, rep0, sum, replica.entries, done)
    requires EventSet(log0) == EventsWithin(source.entries, rep0, sum, done)
    requires NoRepeats(log0)
    modifies replica
    ensures replica.Valid()
    ensures NoRepeats(log)
    ensures ok ==> Progress(source.entries, rep0, sum, replica.entries, done + {r} + FileChildren(source.entries, r))
    ensures ok ==> EventSet(log) == EventsWithin(source.entries, rep0, sum, done + {r} + FileChildren(source.entries, r))
    ensures !ok ==> Raises(source.entries, rep0)
    ensures !ok ==> forall p :: AsBefore(rep0, replica.entries, p)
                            || AsAfter(replica.entries, Propagated(source.entries, rep0, sum), p)
  {
    var src := source.entries;
    ok, log := true, log0;
    if replica.Exists(r) {
      VisitExisting(src, rep0, sum, replica.entries, done, r);
    } else {
      ghost var before := replica.entries;
      var made := replica.MakeDirs(r);
      if !made {
        // os.makedirs raises: the directory that should hold r is a file
        MakeDirsRaises(src, rep0, sum, replica.entries, done, r);
        ProgressBetween(src, rep0, sum, replica.entries, done);
        return false, log;
      }
      MakeDirsBelowExisting(before, r);
      VisitMissing(src, rep0, sum, before, done, r);
      CreatedLogged(src, rep0, sum, done, r);
      assert MadeDir(r) !in EventSet(log);
      LogGrows(log, MadeDir(r));
      log := log + [MadeDir(r)];
    }
    ok, log := CopyFiles(source, replica, sum, r, rep0, done + {r}, log);
  }

  /**
   The `for file in files` loop of one visited directory `r`: each file
   directly inside `r` is copied unless the replica holds a file with the
   same checksum there. It raises exactly where the source raises.
   */
  method CopyFiles(source: Tree, replica: Tree, sum: Content -> Digest, r: Path,
                   ghost rep0: Entries, ghost visiting: set<Path>, log0: seq<Event>)
    returns (ok: bool, log: seq<Event>)
    requires source != replica && source.Valid() && replica.Valid()
    requires r in source.entries && source.entries[r].Dir? && r in visiting
    requires FileChildren(source.entries, r) !! visiting
    requires Progress(source.entries, rep0, sum, replica.entries, visiting)
    requires EventSet(log0) == EventsWithin(source.entries, rep0, sum, visiting)
    requires NoRepeats(log0)
    modifies replica
    ensures replica.Valid()
    ensures NoRepeats(log)
    ensures ok ==> Progress(source.entries, rep0, sum, replica.entries, visiting + FileChildren(source.entries, r))
    ensures ok ==> EventSet(log) == EventsWithin(source.entries, rep0, sum, visiting + FileChildren(source.entries, r))
    ensures !ok ==> Raises(source.entries, rep0)
    ensures !ok ==> forall p :: AsBefore(rep0, replica.entries, p)
                            || AsAfter(replica.entries, Propagated(source.entries, rep0, sum), p)
  {
    var src := source.entries;
    ok, log := true, log0;
    var listed := FileChildren(src, r);
    var files := listed;
    assert visiting + (listed - files) == visiting;
    while files != {}
      invariant replica.Valid()
      invariant files <= listed
      invariant Progress(src, rep0, sum, replica.entries, visiting + (listed - files))
      invariant NoRepeats(log)
      invariant EventSet(log) == EventsWithin(src, rep0, sum, visiting + (listed - files))
      decreases files
    {
      var f :| f in files;
      ok, log := CopyFile(source, replica, sum, f, rep0, visiting + (listed - files), log);
      if !ok {
        return;
      }
      TakeOne(visiting, listed, files, f);
      files := files - {f};
    }
    assert listed - files == listed;
  }

  /**
   The body of that loop for the file `f`: its checksum is compared with
   the replica's and it is copied when the replica has no file with that
   checksum there. It raises exactly where the source raises.
   */
  method CopyFile(source: Tree, replica: Tree, sum: Content -> Digest, f: Path,
                  ghost rep0: Entries, ghost done: set<Path>, log0: seq<Event>)
    returns (ok: bool, log: seq<Event>)
    requires source != replica && source.Valid() && replica.Valid()
    requires f in source.entries && source.entries[f].File? && f !in done
    requires f != [] && Parent(f) in done
    requires Progress(source.entries, rep0, sum, replica.entries, done)
    requires EventSet(log0) == EventsWithin(source.entries, rep0, sum, done)
    requires NoRepeats(log0)
    modifies replica
    ensures replica.Valid()
    ensures NoRepeats(log)
    ensures ok ==> Progress(source.entries, rep0, sum, replica.entries, done + {f})
    ensures ok ==> EventSet(log) == EventsWithin(source.entries, rep0, sum, done + {f})
    ensures !ok ==> Raises(source.entries, rep0) && replica.entries == old(replica.entries)
    ensures !ok ==> forall p :: AsBefore(rep0, replica.entries, p)
                            || AsAfter(replica.entries, Propagated(source.entries, rep0, sum), p)
  {
    var src := source.entries;
    ok, log := true, log0;
    var copy := true;
    if replica.Exists(f) {
      if replica.entries[f].Dir? {
        // calculate_checksum raises on a replica directory
        assert AsBefore(rep0, replica.entries, f);
        assert RaisesAt(src, rep0, f);
        ProgressBetween(src, rep0, sum, replica.entries, done);
        return false, log;
      }
      copy := sum(src[f].content) != sum(replica.entries[f].content);
    }
    VisitFile(src, rep0, sum, replica.entries, done, f, copy);
    FileLogged(src, rep0, sum, done, f);
    if copy {
      var copied := replica.Copy(f, src[f]);
      if !copied {
        // shutil.copy2 raises: the replica directory meant to hold f is a file
        ChildOfParent(f);
        DirOverFileRaises(src, rep0, sum, replica.entries, Parent(f), f[|f| - 1]);
        ProgressBetween(src, rep0, sum, replica.entries, done);
        return false, log;
      }
      assert CopiedFile(f) !in EventSet(log);
      LogGrows(log, CopiedFile(f));
      log := log + [CopiedFile(f)];
    }
  }

  /**
   The propagate pass. It either raises, leaving every replica entry as it
   was or as the pass sets it, or finishes with the replica equal to
   `Propagated`, having created and copied exactly what `PropagateEvents`
   names. It raises exactly when the trees clash as `Raises` says.
   */
  method PropagatePass(source: Tree, replica: Tree, sum: Content -> Digest) returns (ok: bool, log: seq<Event>)
    requires source != replica && source.Valid() && replica.Valid()
    modifies replica
    ensures replica.Valid()
    ensures NoRepeats(log)
    ensures ok <==> !Raises(source.entries, old(replica.entries))
    ensures ok ==> replica.entries == Propagated(source.entries, old(replica.entries), sum)
    ensures ok ==> EventSet(log) == PropagateEvents(source.entries, old(replica.entries), sum)
    ensures forall p :: AsBefore(old(replica.entries), replica.entries, p)
                     || AsAfter(replica.entries, Propagated(source.entries, old(replica.entries), sum), p)
  {
    var src := source.entries;
    ghost var rep0 := replica.entries;
    var todo: set<Path> := if [] in src then {[]} else {};
    ghost var visited: set<Path> := {};
    ok, log := true, [];
    WalkStart(DirsOf(src), DirsOf(src), todo);
    while todo != {}
      invariant replica.Valid()
      invariant WalkState(DirsOf(src), DirsOf(src), todo, visited)
      invariant Progress(src, rep0, sum, replica.entries, Done(src, visited))
      invariant NoRepeats(log)
      invariant EventSet(log) == EventsWithin(src, rep0, sum, Done(src, visited))
      decreases DirsOf(src) - visited
    {
      var r :| r in todo;
      DoneGrows(src, visited, r);
      ok, log := VisitDir(source, replica, sum, r, rep0, Done(src, visited), log);
      if !ok {
        return;
      }
      WalkStep(DirsOf(src), DirsOf(src), todo, visited, r, DirChildren(src, r));
      todo := todo - {r} + DirChildren(src, r);
      visited := visited + {r};
    }
    DirsParentClosed(src);
    WalkEnd(DirsOf(src), DirsOf(src), visited);
    assert forall p :: p in src ==> p in Done(src, visited) by {
      forall p | p in src ensures p in Done(src, visited) {
        if src[p].File? {
          assert p != [];
        }
      }
    }
    PropagateComplete(src, rep0, sum, replica.entries);
    NoRaiseAfterFullPass(src, rep0, sum, replica.entries);
  }
}
