/**
 What one `folder_sync(source, replica)` pass does, stated as functions of
 the two trees before the pass. `Sync.FolderSync` is proved to leave the
 replica exactly as these functions say; module `SyncProperties` proves what
 the resulting replica looks like.

 The checksum (`calculate_checksum`, SHA-256 in the source) is the parameter
 `sum`: nothing is assumed about it beyond being a function of the content.
 */
module SyncSpec {
  import opened Paths
  import opened Trees

  /** The mutations one pass performs; each is the one the source reports with a debug log line. */
  datatype Event =
    | MadeDir(path: Path)
    | CopiedFile(path: Path)
    | RemovedFile(path: Path)
    | RemovedDir(path: Path)

  /** The events a log records, in any order. */
  function EventSet(log: seq<Event>): (s: set<Event>) {
    set e | e in log
  }

  /** No mutation is logged twice. */
  predicate NoRepeats(log: seq<Event>) {
    forall i, j :: 0 <= i < j < |log| ==> log[i] != log[j]
  }

  /** Appending one event to a log adds that event to its set, and repeats nothing when it is new. */
  lemma LogGrows(log: seq<Event>, x: Event)
    ensures EventSet(log + [x]) == EventSet(log) + {x}
    ensures NoRepeats(log) && x !in EventSet(log) ==> NoRepeats(log + [x])
  {
    assert forall e :: e in log + [x] <==> e in log || e == x;
  }

  /** The events of two logs one after the other are those of either; they repeat nothing when neither does and none is in both. */
  lemma LogsJoin(a: seq<Event>, b: seq<Event>)
    ensures EventSet(a + b) == EventSet(a) + EventSet(b)
    ensures NoRepeats(a) && NoRepeats(b) && EventSet(a) !! EventSet(b) ==> NoRepeats(a + b)
  {
    assert forall e :: e in a + b <==> e in a || e in b;
    if NoRepeats(a) && NoRepeats(b) && EventSet(a) !! EventSet(b) {
      forall i, j | 0 <= i < j < |a + b|
        ensures (a + b)[i] != (a + b)[j]
      {
        if i < |a| && |a| <= j {
          assert (a + b)[i] in EventSet(a) && (a + b)[j] in EventSet(b);
        }
      }
    }
  }

  /** Both entries are files and their checksums agree: the source's test for "unchanged". */
  predicate SameChecksum(sum: Content -> Digest, a: Node, b: Node) {
    a.File? && b.File? && sum(a.content) == sum(b.content)
  }

  // ---------------------------------------------------------------- propagate

  /** Source directories the propagate pass creates in the replica (they do not exist there). */
  function ToCreate(src: Entries, rep: Entries): (s: set<Path>) {
    set d | d in src && src[d].Dir? && d !in rep
  }

  /** Source files the propagate pass copies: absent from the replica, or with another checksum there. */
  function ToCopy(src: Entries, rep: Entries, sum: Content -> Digest): (s: set<Path>) {
    set f | f in src && src[f].File? && !(f in rep && SameChecksum(sum, rep[f], src[f]))
  }

  /** The replica after the propagate pass. */
  function Propagated(src: Entries, rep: Entries, sum: Content -> Digest): (m: Entries) {
    rep
    + (map d | d in ToCreate(src, rep) :: Dir)
    + (map f | f in ToCopy(src, rep, sum) :: src[f])
  }

  function PropagateEvents(src: Entries, rep: Entries, sum: Content -> Digest): (s: set<Event>) {
    (set d | d in ToCreate(src, rep) :: MadeDir(d)) + (set f | f in ToCopy(src, rep, sum) :: CopiedFile(f))
  }

  /**
   The propagate pass raises at `p`: `calculate_checksum` cannot open a
   replica directory where the source has a file; and where the source has a
   directory with something in it but the replica has a file, copying into it
   or creating a directory below it fails. (A source directory with nothing
   in it over a replica file raises nothing.)
   */
  ghost predicate RaisesAt(src: Entries, rep: Entries, p: Path) {
    && p in src && p in rep
    && (|| (src[p].File? && rep[p].Dir?)
        || (src[p].Dir? && rep[p].File? && exists n :: p + [n] in src))
  }

  /** `folder_sync` raises somewhere in its propagate pass. */
  ghost predicate Raises(src: Entries, rep: Entries) {
    exists p :: RaisesAt(src, rep, p)
  }

  /** No path is a file in one tree and a directory in the other. */
  predicate KindsAgree(src: Entries, rep: Entries) {
    forall p :: p in src && p in rep ==> src[p].Dir? == rep[p].Dir?
  }

  // ---------------------------------------------------------------- prune

  /** The prune pass keeps the replica root and every path that exists in the source. */
  predicate Kept(src: Entries, p: Path) {
    p == [] || p in src
  }

  /** The replica after the prune pass. */
  function Pruned(rep: Entries, src: Entries): (m: Entries) {
    map p | p in rep && Kept(src, p) :: rep[p]
  }

  /**
   The prune pass removes, one call each, the replica entries that are gone
   from the source while the directory holding them is not; whatever lies
   below a removed directory goes with it and is never visited.
   */
  function PruneEvents(rep: Entries, src: Entries): (s: set<Event>) {
    (set p | p in rep && !Kept(src, p) && Kept(src, Parent(p)) && rep[p].File? :: RemovedFile(p))
    + (set p | p in rep && !Kept(src, p) && Kept(src, Parent(p)) && rep[p].Dir? :: RemovedDir(p))
  }

  // ---------------------------------------------------------------- whole pass

  /** The two passes' logs, one after the other, log exactly `SyncEvents`, each once. */
  lemma SyncLogJoins(src: Entries, rep: Entries, sum: Content -> Digest, created: seq<Event>, removed: seq<Event>)
    requires NoRepeats(created) && EventSet(created) == PropagateEvents(src, rep, sum)
    requires NoRepeats(removed) && EventSet(removed) == PruneEvents(Propagated(src, rep, sum), src)
    ensures NoRepeats(created + removed)
    ensures EventSet(created + removed) == SyncEvents(src, rep, sum)
  {
    PassesLogApart(src, rep, sum, Propagated(src, rep, sum));
    LogsJoin(created, removed);
  }

  /** The propagate pass only creates and copies, the prune pass only removes: no event is logged by both. */
  lemma PassesLogApart(src: Entries, rep: Entries, sum: Content -> Digest, mid: Entries)
    ensures PropagateEvents(src, rep, sum) !! PruneEvents(mid, src)
  {
    forall e | e in PropagateEvents(src, rep, sum)
      ensures e.MadeDir? || e.CopiedFile?
    {
    }
  }

  /** The replica after a `folder_sync` pass that does not raise. */
  function Synced(src: Entries, rep: Entries, sum: Content -> Digest): (m: Entries) {
    Pruned(Propagated(src, rep, sum), src)
  }

  function SyncEvents(src: Entries, rep: Entries, sum: Content -> Digest): (s: set<Event>) {
    PropagateEvents(src, rep, sum) + PruneEvents(Propagated(src, rep, sum), src)
  }

  /** `rep` mirrors `src`: the same paths, the same kind at each, the same checksum at each file. */
  predicate Mirrors(rep: Entries, src: Entries, sum: Content -> Digest) {
    && rep.Keys == src.Keys
    && forall p :: p in src ==> rep[p].Dir? == src[p].Dir? && (src[p].File? ==> SameChecksum(sum, rep[p], src[p]))
  }

  // ---------------------------------------------------------------- progress of a pass

  /** Path `p` of `now` is as it was in `before`. */
  predicate AsBefore(before: Entries, now: Entries, p: Path) {
    (p in now <==> p in before) && (p in now ==> now[p] == before[p])
  }

  /** Path `p` of `now` is as the pass leaves it in `target`. */
  predicate AsAfter(now: Entries, target: Entries, p: Path) {
    p in now && p in target && now[p] == target[p]
  }
}
