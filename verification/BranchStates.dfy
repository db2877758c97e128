/** The lifecycle states of a branch. */
module BranchStates {
  import opened DirectedGraph

  datatype BranchStatus =
    | Active
    | Dormant
    | MergedInto(target: Uuid, mergedAt: int)
    | Discarded(discardedAt: int)
    | Archived
    | Orphan
    | Purged
  {
    predicate IsLive() {
      Active? || Dormant?
    }
  }
}
