/**
 `folder_sync(source, replica)`: the propagate pass, then the prune pass.
 An exception in the propagate pass ends the call there, before any pruning.
 */
module Sync {
  import opened Paths
  import opened Trees
  import opened SyncSpec
  import opened Propagate
  import opened Prune

  /**
   One synchronization. It raises exactly when the trees clash as `Raises`
   says, leaving the replica part way through the propagate pass. Otherwise
   the replica ends as `Synced` says, and the log names exactly the
   mutations of `SyncEvents`, each once. The source is never changed.
   */
  method FolderSync(source: Tree, replica: Tree, sum: Content -> Digest) returns (ok: bool, log: seq<Event>)
    requires source != replica && source.Valid() && replica.Valid()
    modifies replica
    ensures replica.Valid() && NoRepeats(log)
    ensures source.entries == old(source.entries)
    ensures ok <==> !Raises(source.entries, old(replica.entries))
    ensures ok ==> replica.entries == Synced(source.entries, old(replica.entries), sum)
    ensures ok ==> EventSet(log) == SyncEvents(source.entries, old(replica.entries), sum)
    ensures !ok ==> forall p :: AsBefore(old(replica.entries), replica.entries, p)
                             || AsAfter(replica.entries, Propagated(source.entries, old(replica.entries), sum), p)
  {
    ok, log := PropagatePass(source, replica, sum);
    if !ok {
      return;
    }
    var removals := PrunePass(source, replica);
    SyncLogJoins(source.entries, old(replica.entries), sum, log, removals);
    log := log + removals;
  }
}
