/**
 * The older tree store of tree.hpp. Its nodes are the same four-field records
 * as in the newer store, but child insertion always appends: inserting a child
 * twice orphans the first one instead of returning it.
 */
module LegacyTree {
  import opened TreeStore

  class LegacyDecisionTree {
    var nodes: seq<Node>

    ghost predicate Valid()
      reads this
    {
      Ordered(nodes)
    }

    constructor (reserveMaxSize: int)
      ensures Valid() && nodes == []
    {
      nodes := [];
    }

    /** The private `insert`: the vector grows by exactly one value-initialised node. */
    method Insert() returns (i: nat)
      modifies this
      ensures i == |old(nodes)| && nodes == old(nodes) + [Fresh]
    {
      i := |nodes|;
      nodes := nodes + [Fresh];
    }

    /** `insert_root`: appends only on an empty tree, otherwise returns node 0 unchanged. */
    method InsertRoot() returns (r: nat)
      requires Valid()
      modifies this
      ensures Valid() && r == 0 && r < |nodes|
      ensures old(nodes) == [] ==> nodes == [Fresh]
      ensures old(nodes) != [] ==> nodes == old(nodes)
    {
      if |nodes| > 0 {
        r := 0;
        return;
      }
      r := Insert();
    }

    /**
     * `insert_left_child`: always overwrite the parent's left position with the
     * current size and append a node, whatever the parent held before.
     */
    method InsertLeftChild(parent: nat) returns (child: nat)
      requires Valid() && parent < |nodes|
      modifies this
      ensures Valid()
      ensures child == |old(nodes)|
      ensures nodes == old(nodes)[parent := old(nodes[parent]).(left := child)] + [Fresh]
    {
      nodes := nodes[parent := nodes[parent].(left := |nodes|)];
      child := Insert();
    }

    /** `insert_right_child`: always overwrite the parent's right position and append. */
    method InsertRightChild(parent: nat) returns (child: nat)
      requires Valid() && parent < |nodes|
      modifies this
      ensures Valid()
      ensures child == |old(nodes)|
      ensures nodes == old(nodes)[parent := old(nodes[parent]).(right := child)] + [Fresh]
    {
      nodes := nodes[parent := nodes[parent].(right := |nodes|)];
      child := Insert();
    }

    /** `insert_children`: the tree grows by two, left at the old size and right just after. */
    method InsertChildren(parent: nat) returns (left: nat, right: nat)
      requires Valid() && parent < |nodes|
      modifies this
      ensures Valid() && |nodes| == |old(nodes)| + 2
      ensures left == |old(nodes)| && right == |old(nodes)| + 1
      ensures nodes[parent] == old(nodes[parent]).(left := left, right := right)
      ensures nodes[left] == Fresh && nodes[right] == Fresh
      ensures forall i :: 0 <= i < |old(nodes)| && i != parent ==> nodes[i] == old(nodes[i])
    {
      left := InsertLeftChild(parent);
      right := InsertRightChild(parent);
    }
  }

  /**
   * Inserting a left child twice into the same parent yields two different
   * children and leaves the first one unreachable from the parent.
   */
  method RepeatedLeftInsertion(t: LegacyDecisionTree, parent: nat) returns (first: nat, second: nat)
    requires t.Valid() && parent < |t.nodes|
    modifies t
    ensures t.Valid() && first < second < |t.nodes| == |old(t.nodes)| + 2
    ensures t.nodes[parent].left == second && t.nodes[first] == Fresh
  {
    first := t.InsertLeftChild(parent);
    second := t.InsertLeftChild(parent);
  }
}
