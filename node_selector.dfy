/**
 * The round-robin node selector: every non-zero allocation takes the node
 * the cursor `next_node_to_use` names and advances the cursor by one,
 * wrapping at `num_nodes`.
 */
module NodeSelector {

  import opened Machine

  /** The cursor after one allocation: the next node, wrapping to node 0 after the last. */
  function Advance(cursor: nat, numNodes: nat): (next: nat)
    requires cursor < numNodes
    ensures next < numNodes
  {
    if cursor + 1 < numNodes then cursor + 1 else 0
  }

  /** Advance is the update `next_node_to_use = (next_node_to_use + 1) % num_nodes`. */
  lemma AdvanceIsMod(cursor: nat, numNodes: nat)
    requires cursor < numNodes
    ensures Advance(cursor, numNodes) == (cursor + 1) % numNodes
    ensures Advance(cursor, numNodes) < numNodes
  {
    WrapOnce(cursor + 1, numNodes);
  }

  /** The nodes targeted, in call order, by k consecutive non-zero allocations from `cursor`. */
  function Schedule(cursor: nat, k: nat, numNodes: nat): (nodes: seq<nat>)
    requires cursor < numNodes
    ensures |nodes| == k
    ensures forall i :: 0 <= i < k ==> nodes[i] < numNodes
    decreases k
  {
    if k == 0 then [] else [cursor] + Schedule(Advance(cursor, numNodes), k - 1, numNodes)
  }

  /** The cursor left behind by k consecutive non-zero allocations from `cursor`. */
  function CursorAfter(cursor: nat, k: nat, numNodes: nat): (last: nat)
    requires cursor < numNodes
    ensures last < numNodes
    decreases k
  {
    if k == 0 then cursor else CursorAfter(Advance(cursor, numNodes), k - 1, numNodes)
  }

  /** One more allocation appends the node the cursor has reached to the schedule. */
  lemma {:induction false} ScheduleExtend(cursor: nat, k: nat, numNodes: nat)
    requires cursor < numNodes
    ensures Schedule(cursor, k + 1, numNodes) == Schedule(cursor, k, numNodes) + [CursorAfter(cursor, k, numNodes)]
    decreases k
  {
    if k > 0 {
      ScheduleExtend(Advance(cursor, numNodes), k - 1, numNodes);
    }
  }

  /** One more allocation advances the cursor the schedule left behind. */
  lemma {:induction false} CursorAfterExtend(cursor: nat, k: nat, numNodes: nat)
    requires cursor < numNodes
    ensures CursorAfter(cursor, k + 1, numNodes) == Advance(CursorAfter(cursor, k, numNodes), numNodes)
    decreases k
  {
    if k > 0 {
      CursorAfterExtend(Advance(cursor, numNodes), k - 1, numNodes);
    }
  }

  lemma ModAddModulus(x: nat, n: nat)
    requires 0 < n
    ensures (x + n) % n == x % n
  {
    DivModUnique(x + n, n, x / n + 1, x % n);
  }

  lemma WrapOnce(x: nat, n: nat)
    requires 0 < n && x < 2 * n
    ensures x % n == if x < n then x else x - n
  {
    if x < n {
      DivModUnique(x, n, 0, x);
    } else {
      DivModUnique(x, n, 1, x - n);
    }
  }

  /** One advance of the cursor agrees with adding one modulo the node count. */
  lemma AdvanceMod(cursor: nat, i: nat, numNodes: nat)
    requires cursor < numNodes
    ensures (Advance(cursor, numNodes) + i) % numNodes == (cursor + 1 + i) % numNodes
  {
    if cursor + 1 == numNodes {
      ModAddModulus(i, numNodes);
    }
  }

  /** The i-th of k consecutive allocations from `cursor` targets node (cursor + i) mod num_nodes. */
  lemma {:induction false} ScheduleAt(cursor: nat, k: nat, numNodes: nat, i: nat)
    requires cursor < numNodes && i < k
    ensures Schedule(cursor, k, numNodes)[i] == (cursor + i) % numNodes
    decreases i
  {
    if i == 0 {
      DivModUnique(cursor, numNodes, 0, cursor);
    } else {
      var next := Advance(cursor, numNodes);
      ScheduleAt(next, k - 1, numNodes, i - 1);
      assert Schedule(cursor, k, numNodes)[i] == Schedule(next, k - 1, numNodes)[i - 1];
      AdvanceMod(cursor, i - 1, numNodes);
    }
  }

  /** k consecutive allocations from `cursor` leave the cursor at (cursor + k) mod num_nodes. */
  lemma {:induction false} CursorAfterMod(cursor: nat, k: nat, numNodes: nat)
    requires cursor < numNodes
    ensures CursorAfter(cursor, k, numNodes) == (cursor + k) % numNodes
    decreases k
  {
    if k == 0 {
      DivModUnique(cursor, numNodes, 0, cursor);
    } else {
      CursorAfterMod(Advance(cursor, numNodes), k - 1, numNodes);
      AdvanceMod(cursor, k - 1, numNodes);
    }
  }

  /**
   * k consecutive allocations from cursor c target c, c+1, ..., c+k-1
   * (mod num_nodes) and leave the cursor at c+k (mod num_nodes).
   */
  lemma ScheduleIsRoundRobin(cursor: nat, k: nat, numNodes: nat)
    requires cursor < numNodes
    ensures forall i :: 0 <= i < k ==> Schedule(cursor, k, numNodes)[i] == (cursor + i) % numNodes
    ensures CursorAfter(cursor, k, numNodes) == (cursor + k) % numNodes
  {
    forall i | 0 <= i < k
      ensures Schedule(cursor, k, numNodes)[i] == (cursor + i) % numNodes
    {
      ScheduleAt(cursor, k, numNodes, i);
    }
    CursorAfterMod(cursor, k, numNodes);
  }

  /** Up to num_nodes consecutive allocations all target different nodes. */
  lemma ScheduleNoRepeat(cursor: nat, k: nat, numNodes: nat)
    requires cursor < numNodes && k <= numNodes
    ensures forall i, j :: 0 <= i < j < k ==> Schedule(cursor, k, numNodes)[i] != Schedule(cursor, k, numNodes)[j]
  {
    ScheduleIsRoundRobin(cursor, k, numNodes);
    forall i, j | 0 <= i < j < k
      ensures Schedule(cursor, k, numNodes)[i] != Schedule(cursor, k, numNodes)[j]
    {
      WrapOnce(cursor + i, numNodes);
      WrapOnce(cursor + j, numNodes);
    }
  }

  /** Two nodes, five allocations from cursor 0: nodes 0, 1, 0, 1, 0, cursor back at 1. */
  lemma TwoNodesFiveAllocations()
    ensures Schedule(0, 5, 2) == [0, 1, 0, 1, 0]
    ensures CursorAfter(0, 5, 2) == 1
  {
    ScheduleIsRoundRobin(0, 5, 2);
  }
}
