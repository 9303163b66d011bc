/** The append-only list of execution checkpoints, and which adaptations it makes safe. */
module Checkpoints {
  import opened Options
  import opened RuntimeStats
  import opened PlanSwitch

  datatype CheckpointState = NotStarted | InProgress(rowsEmitted: U64) | Completed(totalRows: U64)

  datatype Checkpoint = Checkpoint(nodeId: NodeId, sequence: nat, state: CheckpointState, materialized: bool) {
    predicate IsCompleted() {
      state.Completed?
    }

    function RowsEmitted(): U64 {
      match state
      case NotStarted => 0
      case InProgress(rows) => rows
      case Completed(total) => total
    }
  }

  /** The last checkpoint of a node in list order. */
  function LatestFor(checkpoints: seq<Checkpoint>, node: NodeId): Option<Checkpoint> {
    if checkpoints == [] then None else
    var last := checkpoints[|checkpoints| - 1];
    if last.nodeId == node then Some(last) else LatestFor(checkpoints[..|checkpoints| - 1], node)
  }

  predicate IsSafeTransition(checkpoints: seq<Checkpoint>, a: Adaptation) {
    match a
    case ReoptimizePlan(_) => checkpoints != []
    case _ =>
      var latest := LatestFor(checkpoints, a.nodeId);
      latest.Some? && !latest.value.IsCompleted()
  }

  /** Sequence numbers count the list, so a larger one is a later one. */
  ghost predicate Numbered(checkpoints: seq<Checkpoint>) {
    forall i :: 0 <= i < |checkpoints| ==> checkpoints[i].sequence == i
  }

  class CheckpointManager {
    var checkpoints: seq<Checkpoint>
    var nextSequence: nat

    ghost predicate Valid()
      reads this
    {
      Numbered(checkpoints) && nextSequence == |checkpoints|
    }

    constructor ()
      ensures Valid() && checkpoints == []
    {
      checkpoints, nextSequence := [], 0;
    }

    method Record(node: NodeId, state: CheckpointState) returns (cp: Checkpoint)
      requires Valid()
      modifies this
      ensures Valid()
      ensures cp == Checkpoint(node, |old(checkpoints)|, state, false)
      ensures checkpoints == old(checkpoints) + [cp]
    {
      cp := Checkpoint(node, nextSequence, state, false);
      nextSequence := nextSequence + 1;
      checkpoints := checkpoints + [cp];
    }

    /** Searches from the end of the list. */
    method FindLast(node: NodeId) returns (index: Option<nat>)
      ensures index.None? ==> LatestFor(checkpoints, node).None?
      ensures index.Some? ==>
        && index.value < |checkpoints|
        && checkpoints[index.value].nodeId == node
        && (forall j :: index.value < j < |checkpoints| ==> checkpoints[j].nodeId != node)
        && LatestFor(checkpoints, node) == Some(checkpoints[index.value])
    {
      var i := |checkpoints|;
      assert checkpoints[..i] == checkpoints;
      while i > 0
        invariant 0 <= i <= |checkpoints|
        invariant forall j :: i <= j < |checkpoints| ==> checkpoints[j].nodeId != node
        invariant LatestFor(checkpoints, node) == LatestFor(checkpoints[..i], node)
      {
        i := i - 1;
        assert checkpoints[..i + 1][..i] == checkpoints[..i];
        if checkpoints[i].nodeId == node {
          return Some(i);
        }
      }
      index := None;
    }

    method Safe(a: Adaptation) returns (safe: bool)
      ensures safe == IsSafeTransition(checkpoints, a)
    {
      if a.ReoptimizePlan? {
        safe := checkpoints != [];
      } else {
        var i := FindLast(a.nodeId);
        safe := i.Some? && !checkpoints[i.value].IsCompleted();
      }
    }

    /** Marks the latest checkpoint of the node and no other, and changes nothing else about it. */
    method MarkMaterialized(node: NodeId) returns (found: bool)
      requires Valid()
      modifies this`checkpoints
      ensures Valid()
      ensures found == LatestFor(old(checkpoints), node).Some?
      ensures !found ==> checkpoints == old(checkpoints)
      ensures found ==>
        exists i :: 0 <= i < |old(checkpoints)|
          && Some(old(checkpoints)[i]) == LatestFor(old(checkpoints), node)
          && checkpoints == old(checkpoints)[i := old(checkpoints)[i].(materialized := true)]
    {
      var i := FindLast(node);
      found := i.Some?;
      if found {
        checkpoints := checkpoints[i.value := checkpoints[i.value].(materialized := true)];
      }
    }
  }

  /** The latest checkpoint of a node is the one with the greatest sequence number among the node's checkpoints. */
  lemma {:induction false} LatestHasGreatestSequence(checkpoints: seq<Checkpoint>, node: NodeId)
    requires Numbered(checkpoints)
    ensures LatestFor(checkpoints, node).None? <==> forall i :: 0 <= i < |checkpoints| ==> checkpoints[i].nodeId != node
    ensures LatestFor(checkpoints, node).Some? ==>
              var latest := LatestFor(checkpoints, node).value;
              && latest.sequence < |checkpoints| && latest == checkpoints[latest.sequence] && latest.nodeId == node
              && forall i :: 0 <= i < |checkpoints| && checkpoints[i].nodeId == node ==>
                   checkpoints[i].sequence <= latest.sequence
  {
    if checkpoints != [] {
      LatestHasGreatestSequence(checkpoints[..|checkpoints| - 1], node);
    }
  }

  lemma LatestAfterRecord(checkpoints: seq<Checkpoint>, cp: Checkpoint, node: NodeId)
    ensures LatestFor(checkpoints + [cp], node) == if cp.nodeId == node then Some(cp) else LatestFor(checkpoints, node)
  {
    assert (checkpoints + [cp])[..|checkpoints|] == checkpoints;
  }
}
