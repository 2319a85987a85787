/** The bounded window of sequences seen (`replay.rs`). */
module Replay {
  import opened Core

  /** The last `capacity` entries. */
  function Newest(capacity: nat, seen: seq<u64>): (r: seq<u64>)
  {
    if |seen| <= capacity then seen else seen[|seen| - capacity..]
  }

  function Recorded(capacity: nat, seen: seq<u64>, sequence: u64): seq<u64> {
    if sequence in seen then seen else Newest(capacity, seen + [sequence])
  }

  predicate Ascending(seen: seq<u64>) {
    forall i, j | 0 <= i < j < |seen| :: seen[i] < seen[j]
  }

  /** Recording something newer than everything seen keeps the window ascending, with that at its end. */
  lemma RecordNewest(capacity: nat, seen: seq<u64>, sequence: u64)
    requires capacity >= 1 && |seen| <= capacity && Ascending(seen)
    requires seen == [] || seen[|seen| - 1] < sequence
    ensures var r := Recorded(capacity, seen, sequence);
            && Ascending(r) && 1 <= |r| <= capacity && r[|r| - 1] == sequence
            && forall s | s in r :: s in seen || s == sequence
  {
  }

  /** Nothing is recorded twice, and nothing is dropped that there is room for. */
  lemma RecordKeepsTheLast(capacity: nat, seen: seq<u64>, sequence: u64)
    requires |seen| <= capacity
    ensures var r := Recorded(capacity, seen, sequence);
            if sequence in seen then r == seen
            else |r| == Min(capacity, |seen| + 1) && r == (seen + [sequence])[|seen| + 1 - |r|..]
  {
  }

  class ReplayWindow {
    const capacity: nat
    var seen: seq<u64>

    constructor (capacity: nat)
      ensures this.capacity == Max(capacity, 1) && seen == []
    {
      this.capacity := Max(capacity, 1);
      seen := [];
    }

    predicate Contains(sequence: u64)
      reads this
    {
      sequence in seen
    }

    method Clear()
      modifies this
      ensures seen == []
    {
      seen := [];
    }

    method Record(sequence: u64)
      modifies this
      ensures seen == Recorded(capacity, old(seen), sequence)
    {
      if Contains(sequence) {
        return;
      }
      seen := seen + [sequence];
      ghost var all := seen;
      while |seen| > capacity
        invariant |seen| <= |all| && seen == all[|all| - |seen|..]
        invariant |seen| >= Min(|all|, capacity)
        decreases |seen|
      {
        seen := seen[1..];
      }
    }
  }
}
