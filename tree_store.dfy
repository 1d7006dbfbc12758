/**
 * The index-based decision tree of include/random_forest/decision_tree.hpp.
 *
 * Nodes live in an append-only sequence; a child is referenced by its position
 * and position 0 means "no child". Because a child is always appended after its
 * parent, every child index is larger than its parent's index, which is what
 * makes the walk in `vote` terminate.
 */
module TreeStore {

  /** The value held in `split_value_`: a double, which may be +infinity. */
  datatype Double = Finite(value: real) | PositiveInfinity

  /** The comparison `p[split_] < split_value_` that sends a point to the left child. */
  predicate Below(x: real, v: Double)
  {
    match v
    case Finite(t) => x < t
    case PositiveInfinity => true
  }

  /**
   * A `dtree_node`: the split column, the split value (which also holds the
   * class label of a leaf) and the two child positions (0 = absent).
   */
  datatype Node = Node(split: nat, splitValue: Double, left: nat, right: nat)
  {
    /** `is_leaf`: both child positions are 0. */
    predicate IsLeaf()
    {
      left == 0 && right == 0
    }
  }

  /** The node `insert` appends: every field 0. */
  const Fresh: Node := Node(0, Finite(0.0), 0, 0)

  /** `dtree_node::operator==`: field-by-field comparison. */
  function NodeEquals(a: Node, b: Node): (r: bool)
    ensures r <==> a == b
  {
    a.splitValue == b.splitValue && a.split == b.split &&
    a.left == b.left && a.right == b.right
  }

  lemma FreshIsLeaf()
    ensures Fresh.IsLeaf() && Fresh.split == 0 && Fresh.splitValue == Finite(0.0)
  {
  }

  /** Every present child lies after its parent and inside the store. */
  ghost predicate Ordered(nodes: seq<Node>)
  {
    forall i :: 0 <= i < |nodes| ==>
      (nodes[i].left == 0 || i < nodes[i].left < |nodes|) &&
      (nodes[i].right == 0 || i < nodes[i].right < |nodes|)
  }

  /** Every internal node has both children (what `insert_children` produces). */
  ghost predicate Full(nodes: seq<Node>)
  {
    forall i :: 0 <= i < |nodes| && !nodes[i].IsLeaf() ==> nodes[i].left != 0 && nodes[i].right != 0
  }

  /** The point `p` has every column an internal node splits on. */
  ghost predicate Readable(nodes: seq<Node>, p: seq<real>)
  {
    forall i :: 0 <= i < |nodes| && !nodes[i].IsLeaf() ==> nodes[i].split < |p|
  }

  /** The conditions under which `vote(p)` is defined and terminates. */
  ghost predicate Votable(nodes: seq<Node>, p: seq<real>)
  {
    |nodes| > 0 && Ordered(nodes) && Full(nodes) && Readable(nodes, p)
  }

  /**
   * The leaf that the walk of `vote` reaches from node `i`: left when
   * `p[split_] < split_value_`, right otherwise, until a leaf.
   */
  ghost function LeafReached(nodes: seq<Node>, p: seq<real>, i: nat): (j: nat)
    requires Votable(nodes, p) && i < |nodes|
    ensures i <= j < |nodes| && nodes[j].IsLeaf()
    decreases |nodes| - i
  {
    var n := nodes[i];
    if n.IsLeaf() then i
    else
      WalkAdvances(nodes, p, i);
      LeafReached(nodes, p, WalkStep(n, p))
  }

  /**
   * One step of the walk of `vote` from an internal node: to the left
   * position when `p[split_] < split_value_`, otherwise to the right one,
   * whichever positions the node holds.
   */
  function WalkStep(n: Node, p: seq<real>): (next: nat)
    requires n.split < |p|
    ensures next == n.left || next == n.right
    ensures next == n.left <==> n.left == n.right || Below(p[n.split], n.splitValue)
  {
    if Below(p[n.split], n.splitValue) then n.left else n.right
  }

  /**
   * In a tree whose internal nodes all have both children, every step of the
   * walk moves to a later position inside the store, so the walk ends.
   */
  lemma WalkAdvances(nodes: seq<Node>, p: seq<real>, i: nat)
    requires Votable(nodes, p) && i < |nodes| && !nodes[i].IsLeaf()
    ensures i < WalkStep(nodes[i], p) < |nodes|
  {
  }

  /**
   * Without the both-children invariant the walk need not end: the tree that
   * `insert_root` and a single `insert_left_child` build has a root with only
   * a left child, and a point that goes right follows the absent right
   * position 0 back to the root, which is not a leaf.
   */
  lemma OneChildWalkReturnsToRoot()
    ensures var nodes := [Node(0, Finite(0.0), 1, 0), Fresh];
            Ordered(nodes) && !Full(nodes) && !nodes[0].IsLeaf() && WalkStep(nodes[0], [0.0]) == 0
  {
    var nodes := [Node(0, Finite(0.0), 1, 0), Fresh];
    assert !nodes[0].IsLeaf() && nodes[0].right == 0;
  }

  /** Appending nodes never changes where an existing walk ends. */
  lemma {:induction false} LeafReachedAppend(nodes: seq<Node>, more: seq<Node>, p: seq<real>, i: nat)
    requires Votable(nodes, p) && Votable(nodes + more, p) && i < |nodes|
    ensures LeafReached(nodes + more, p, i) == LeafReached(nodes, p, i)
    decreases |nodes| - i
  {
    var n := nodes[i];
    assert (nodes + more)[i] == n;
    if !n.IsLeaf() {
      WalkAdvances(nodes, p, i);
      LeafReachedAppend(nodes, more, p, WalkStep(n, p));
    }
  }

  /** The tree store: `decision_tree`, whose only state is the node vector. */
  class DecisionTree {
    var nodes: seq<Node>

    ghost predicate Valid()
      reads this
    {
      Ordered(nodes)
    }

    /** The constructor; the capacity hint has no observable effect. */
    constructor (reserveMaxSize: int)
      ensures Valid() && nodes == []
    {
      nodes := [];
    }

    /** `root()`: node 0, which the source only reads on a non-empty tree. */
    function Root(): (r: nat)
      reads this
      requires |nodes| > 0
      ensures r < |nodes|
    {
      0
    }

    /** `operator==`: two trees are equal when their node sequences are equal node by node. */
    function Equals(other: DecisionTree): (r: bool)
      reads this, other
      ensures r <==> |nodes| == |other.nodes| &&
                     forall i :: 0 <= i < |nodes| ==> NodeEquals(nodes[i], other.nodes[i])
    {
      other.nodes == nodes
    }

    /** The private `insert`: append one all-zero node and return its position. */
    method Insert() returns (i: nat)
      modifies this
      ensures i == |old(nodes)| && nodes == old(nodes) + [Fresh]
    {
      i := |nodes|;
      nodes := nodes + [Fresh];
    }

    /** `insert_root`: append the root on an empty tree, otherwise return node 0 unchanged. */
    method InsertRoot() returns (r: nat)
      requires Valid()
      modifies this
      ensures Valid() && r == 0 && r < |nodes|
      ensures old(nodes) == [] ==> nodes == [Fresh]
      ensures old(nodes) != [] ==> nodes == old(nodes)
    {
      if |nodes| > 0 {
        r := Root();
        return;
      }
      r := Insert();
    }

    /**
     * `insert_left_child`: when the parent has no left child, record the current
     * size as its left position and append a node; otherwise return the existing
     * left child and change nothing.
     */
    method InsertLeftChild(parent: nat) returns (child: nat)
      requires Valid() && parent < |nodes|
      modifies this
      ensures Valid() && parent < child < |nodes|
      ensures old(nodes[parent].left) == 0 ==>
        child == |old(nodes)| &&
        nodes == old(nodes)[parent := old(nodes[parent]).(left := child)] + [Fresh]
      ensures old(nodes[parent].left) != 0 ==>
        child == old(nodes[parent].left) && nodes == old(nodes)
    {
      if nodes[parent].left == 0 {
        nodes := nodes[parent := nodes[parent].(left := |nodes|)];
        child := Insert();
        return;
      }
      child := nodes[parent].left;
    }

    /** `insert_right_child`: the mirror image of `InsertLeftChild`. */
    method InsertRightChild(parent: nat) returns (child: nat)
      requires Valid() && parent < |nodes|
      modifies this
      ensures Valid() && parent < child < |nodes|
      ensures old(nodes[parent].right) == 0 ==>
        child == |old(nodes)| &&
        nodes == old(nodes)[parent := old(nodes[parent]).(right := child)] + [Fresh]
      ensures old(nodes[parent].right) != 0 ==>
        child == old(nodes[parent].right) && nodes == old(nodes)
    {
      if nodes[parent].right == 0 {
        nodes := nodes[parent := nodes[parent].(right := |nodes|)];
        child := Insert();
        return;
      }
      child := nodes[parent].right;
    }

    /**
     * `insert_children`: left then right. On a parent without children the
     * children are the old size and the old size + 1, both fresh nodes.
     */
    method InsertChildren(parent: nat) returns (left: nat, right: nat)
      requires Valid() && parent < |nodes|
      modifies this
      ensures Valid() && |nodes| >= |old(nodes)|
      ensures left == nodes[parent].left && right == nodes[parent].right
      ensures parent < left < |nodes| && parent < right < |nodes|
      ensures nodes[parent].split == old(nodes[parent].split)
      ensures nodes[parent].splitValue == old(nodes[parent].splitValue)
      ensures forall i :: 0 <= i < |old(nodes)| && i != parent ==> nodes[i] == old(nodes[i])
      ensures forall i :: |old(nodes)| <= i < |nodes| ==> nodes[i] == Fresh
      ensures old(nodes[parent]).IsLeaf() ==>
        left == |old(nodes)| && right == |old(nodes)| + 1 && |nodes| == |old(nodes)| + 2
      ensures old(nodes[parent].left) != 0 ==> left == old(nodes[parent].left)
      ensures old(nodes[parent].right) != 0 ==> right == old(nodes[parent].right)
      ensures old(nodes[parent].left) != 0 && old(nodes[parent].right) != 0 ==> nodes == old(nodes)
      ensures |nodes| == |old(nodes)| + (if old(nodes[parent].left) == 0 then 1 else 0)
                                      + (if old(nodes[parent].right) == 0 then 1 else 0)
      ensures old(nodes[parent].left) == 0 ==> left == |old(nodes)|
      ensures old(nodes[parent].right) == 0 ==> right == |nodes| - 1
    {
      left := InsertLeftChild(parent);
      right := InsertRightChild(parent);
    }

    /**
     * `vote`: walk from the root, left when `p[split_] < split_value_` and right
     * otherwise, and return the split value of the first leaf reached.
     */
    method Vote(p: seq<real>) returns (vote: Double)
      requires Votable(nodes, p)
      ensures vote == nodes[LeafReached(nodes, p, Root())].splitValue
    {
      var current := Root();
      while !nodes[current].IsLeaf()
        invariant current < |nodes|
        invariant LeafReached(nodes, p, current) == LeafReached(nodes, p, 0)
        decreases |nodes| - current
      {
        WalkAdvances(nodes, p, current);
        current := WalkStep(nodes[current], p);
      }
      vote := nodes[current].splitValue;
    }
  }

  /**
   * `insert_root` followed by one `insert_left_child(root)`: the public
   * operations build a root with a left child and no right child.
   */
  method OneChildTree() returns (t: DecisionTree)
    ensures t.Valid() && t.nodes == [Node(0, Finite(0.0), 1, 0), Fresh]
  {
    t := new DecisionTree(0);
    var root := t.InsertRoot();
    var child := t.InsertLeftChild(root);
  }
}
