/**
 What a synchronization promises about the replica it leaves, proved on the
 functions of module `SyncSpec` that `Sync.FolderSync` is proved to follow.
 */
module SyncProperties {
  import opened Paths
  import opened Trees
  import opened SyncSpec

  /** Every path of the source is in the replica after the propagate pass. */
  lemma PropagatedHasSource(src: Entries, rep: Entries, sum: Content -> Digest, p: Path)
    requires p in src
    ensures p in Propagated(src, rep, sum)
  {
    if p !in rep {
      if src[p].Dir? {
        assert p in ToCreate(src, rep);
      } else {
        assert p in ToCopy(src, rep, sum);
      }
    }
  }

  /**
   After a propagate pass that does not raise, every source file is in the
   replica with the source's checksum, and every source directory is a
   directory there, except an empty one over a replica file, which stays a
   file.
   */
  lemma PropagateCoversSource(src: Entries, rep: Entries, sum: Content -> Digest, p: Path)
    requires !Raises(src, rep) && p in src
    ensures p in Propagated(src, rep, sum)
    ensures src[p].File? ==> SameChecksum(sum, Propagated(src, rep, sum)[p], src[p])
    ensures src[p].Dir? && !Propagated(src, rep, sum)[p].Dir? ==>
      p in rep && rep[p].File? && forall n :: p + [n] !in src
  {
    PropagatedHasSource(src, rep, sum, p);
    if p in rep && !RaisesAt(src, rep, p) {
      assert !(src[p].File? && rep[p].Dir?);
    }
  }

  /** The propagate pass of two well-formed trees that does not raise leaves a well-formed replica. */
  lemma PropagatedWellFormed(src: Entries, rep: Entries, sum: Content -> Digest)
    requires WellFormed(src) && WellFormed(rep) && !Raises(src, rep)
    ensures WellFormed(Propagated(src, rep, sum))
  {
    var m := Propagated(src, rep, sum);
    forall p | p in m && p != []
      ensures Parent(p) in m && m[Parent(p)].Dir?
    {
      var q := Parent(p);
      ChildOfParent(p);
      assert !RaisesAt(src, rep, q);
      if p in src {
        PropagatedHasSource(src, rep, sum, q);
      }
    }
  }

  /** The prune pass leaves a well-formed replica well-formed. */
  lemma PrunedWellFormed(rep: Entries, src: Entries)
    requires WellFormed(src) && WellFormed(rep)
    ensures WellFormed(Pruned(rep, src))
  {
    var m := Pruned(rep, src);
    forall p | p in m && p != []
      ensures Parent(p) in m
    {
      assert Parent(p) in src;
    }
  }

  /**
   A source file is in the replica after a synchronization: as the replica
   held it, content and modification time alike, when the checksums agree;
   as the source holds it, content and modification time alike, otherwise.
   */
  lemma FileAfterSync(src: Entries, rep: Entries, sum: Content -> Digest, f: Path)
    requires f in src && src[f].File?
    ensures f in Synced(src, rep, sum)
    ensures Synced(src, rep, sum)[f] == if f in rep && SameChecksum(sum, rep[f], src[f]) then rep[f] else src[f]
  {
    PropagatedHasSource(src, rep, sum, f);
  }

  /**
   No spurious copy: a replica file whose checksum agrees with its source
   file is not copied onto, and keeps its content and modification time.
   */
  lemma NoSpuriousCopy(src: Entries, rep: Entries, sum: Content -> Digest, f: Path)
    requires f in src && f in rep && SameChecksum(sum, rep[f], src[f])
    ensures CopiedFile(f) !in SyncEvents(src, rep, sum)
    ensures f in Synced(src, rep, sum) && Synced(src, rep, sum)[f] == rep[f]
  {
    FileAfterSync(src, rep, sum, f);
    assert f !in ToCopy(src, rep, sum);
  }

  /** Every path of the source survives the prune pass. */
  lemma SyncKeepsSource(src: Entries, rep: Entries, sum: Content -> Digest, p: Path)
    requires p in src
    ensures p in Synced(src, rep, sum)
  {
    PropagatedHasSource(src, rep, sum, p);
  }

  /**
   A replica entry with nothing at its path in the source is gone after a
   synchronization, and so is everything below it, however full or empty.
   */
  lemma PruneRemovesSubtree(src: Entries, rep: Entries, sum: Content -> Digest, d: Path, q: Path)
    requires WellFormed(src) && d in rep && d != [] && d !in src && d <= q
    ensures q !in Synced(src, rep, sum)
  {
    BelowMissingIsMissing(src, d, q);
  }

  /**
   The prune pass removes only entries the replica held before the
   synchronization and the source does not hold: nothing the propagate pass
   created or copied.
   */
  lemma RemovalsOnlyStale(src: Entries, rep: Entries, sum: Content -> Digest, p: Path)
    requires RemovedFile(p) in SyncEvents(src, rep, sum) || RemovedDir(p) in SyncEvents(src, rep, sum)
    ensures p in rep && p != [] && p !in src && p !in Synced(src, rep, sum)
    ensures RemovedFile(p) in SyncEvents(src, rep, sum) ==> rep[p].File?
    ensures RemovedDir(p) in SyncEvents(src, rep, sum) ==> rep[p].Dir?
  {
    var m := Propagated(src, rep, sum);
    assert p in m && !Kept(src, p);
    assert p !in ToCreate(src, rep) && p !in ToCopy(src, rep, sum);
  }

  /** Trees whose paths never differ in kind do not raise. */
  lemma KindsAgreeNoRaise(src: Entries, rep: Entries)
    requires KindsAgree(src, rep)
    ensures !Raises(src, rep)
  {
  }

  /**
   Convergence: whatever the replica held, a synchronization with a source
   whose root exists and whose paths agree in kind with the replica's leaves
   a mirror of the source.
   */
  lemma SyncMirrorsSource(src: Entries, rep: Entries, sum: Content -> Digest)
    requires [] in src && KindsAgree(src, rep)
    ensures !Raises(src, rep)
    ensures Mirrors(Synced(src, rep, sum), src, sum)
  {
    var m := Synced(src, rep, sum);
    forall p | p in src
      ensures p in m && m[p].Dir? == src[p].Dir?
      ensures src[p].File? ==> SameChecksum(sum, m[p], src[p])
    {
      PropagatedHasSource(src, rep, sum, p);
    }
    assert m.Keys == src.Keys;
  }

  /**
   Idempotence: after a synchronization that does not raise, a second one
   with the same source does not raise, changes nothing and logs nothing.
   */
  lemma SyncIdempotent(src: Entries, rep: Entries, sum: Content -> Digest)
    requires !Raises(src, rep)
    ensures !Raises(src, Synced(src, rep, sum))
    ensures Synced(src, Synced(src, rep, sum), sum) == Synced(src, rep, sum)
    ensures SyncEvents(src, Synced(src, rep, sum), sum) == {}
  {
    var once := Synced(src, rep, sum);
    forall p | p in src
      ensures p in once && (src[p].File? ==> SameChecksum(sum, once[p], src[p]))
    {
      PropagateCoversSource(src, rep, sum, p);
    }
    if p :| RaisesAt(src, once, p) {
      PropagateCoversSource(src, rep, sum, p);
      assert false;
    }
    assert ToCreate(src, once) == {};
    assert ToCopy(src, once, sum) == {};
    assert Propagated(src, once, sum) == once;
  }

  /** With no source root, the propagate pass changes nothing. */
  lemma PropagateFromMissingSource(rep: Entries, sum: Content -> Digest)
    ensures !Raises(map[], rep)
    ensures Propagated(map[], rep, sum) == rep
  {
    assert ToCreate(map[], rep) == {} && ToCopy(map[], rep, sum) == {};
  }

  /**
   A source root that does not exist leaves nothing to walk in the source,
   and the prune pass then removes everything inside the replica root.
   */
  lemma MissingSourceEmptiesReplica(rep: Entries, sum: Content -> Digest)
    requires WellFormed(rep)
    ensures !Raises(map[], rep)
    ensures Synced(map[], rep, sum) == if [] in rep then map[[] := Dir] else map[]
  {
    PropagateFromMissingSource(rep, sum);
    var m := Pruned(rep, map[]);
    assert m.Keys == if [] in rep then {[]} else {};
  }

  /** With no source root, the removals logged are those of the entries directly inside the replica root. */
  lemma MissingSourceRemovals(rep: Entries, sum: Content -> Digest, e: Event)
    requires e in SyncEvents(map[], rep, sum)
    ensures e.path in rep && |e.path| == 1
  {
    PropagateFromMissingSource(rep, sum);
    assert e in PruneEvents(rep, map[]);
  }

  /**
   A source root that exists and is empty leaves the replica as an empty
   root, whatever the replica held.
   */
  lemma EmptySourceEmptiesReplica(rep: Entries, sum: Content -> Digest)
    requires WellFormed(rep)
    ensures !Raises(map[[] := Dir], rep)
    ensures Synced(map[[] := Dir], rep, sum) == map[[] := Dir]
  {
    var src: Entries := map[[] := Dir];
    assert KindsAgree(src, rep);
    SyncMirrorsSource(src, rep, sum);
    var m := Synced(src, rep, sum);
    assert m.Keys == {[]};
  }

  /**
   A directory of the source with nothing in it, over a file of the
   replica, raises nothing, and the file stays: the replica does not mirror
   the source.
   */
  lemma EmptyDirOverFileStays(sum: Content -> Digest)
    ensures var src: Entries := map[[] := Dir, ["a"] := Dir];
            var rep: Entries := map[[] := Dir, ["a"] := File([], 0)];
            && !Raises(src, rep)
            && Synced(src, rep, sum)[["a"]] == File([], 0)
            && !Mirrors(Synced(src, rep, sum), src, sum)
  {
    var src: Entries := map[[] := Dir, ["a"] := Dir];
    var rep: Entries := map[[] := Dir, ["a"] := File([], 0)];
    if p :| RaisesAt(src, rep, p) {
      assert false;
    }
    assert ["a"] !in ToCopy(src, rep, sum) && ["a"] !in ToCreate(src, rep);
  }

  /** The tree of the scenario below, before `sub/b.txt` is deleted from it. */
  function ScenarioFirst(hello: Content, world: Content, t1: int, t2: int): (m: Entries) {
    map[[] := Dir, ["a.txt"] := File(hello, t1), ["sub"] := Dir, ["sub", "b.txt"] := File(world, t2)]
  }

  /** The tree of the scenario below, after `sub/b.txt` is deleted from it. */
  function ScenarioSecond(hello: Content, t1: int): (m: Entries) {
    map[[] := Dir, ["a.txt"] := File(hello, t1), ["sub"] := Dir]
  }

  /**
   First pass of a small scenario: `a.txt` and `sub/b.txt` are copied into
   an empty replica, with their modification times, and `sub` is created.
   */
  lemma ScenarioFirstPass(sum: Content -> Digest, hello: Content, world: Content, t1: int, t2: int)
    ensures !Raises(ScenarioFirst(hello, world, t1, t2), map[[] := Dir])
    ensures Synced(ScenarioFirst(hello, world, t1, t2), map[[] := Dir], sum) == ScenarioFirst(hello, world, t1, t2)
  {
    var first, empty := ScenarioFirst(hello, world, t1, t2), map[[] := Dir];
    assert KindsAgree(first, empty);
    SyncMirrorsSource(first, empty, sum);
    FileAfterSync(first, empty, sum, ["a.txt"]);
    FileAfterSync(first, empty, sum, ["sub", "b.txt"]);
  }

  /**
   Second pass of the scenario, once `sub/b.txt` is deleted from the source:
   it goes from the replica, and `sub` stays.
   */
  lemma ScenarioSecondPass(sum: Content -> Digest, hello: Content, world: Content, t1: int, t2: int)
    ensures !Raises(ScenarioSecond(hello, t1), ScenarioFirst(hello, world, t1, t2))
    ensures Synced(ScenarioSecond(hello, t1), ScenarioFirst(hello, world, t1, t2), sum) == ScenarioSecond(hello, t1)
  {
    var first, second := ScenarioFirst(hello, world, t1, t2), ScenarioSecond(hello, t1);
    assert KindsAgree(second, first);
    SyncMirrorsSource(second, first, sum);
    FileAfterSync(second, first, sum, ["a.txt"]);
  }
}
