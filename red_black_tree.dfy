/** The node store behind the red-black tree: a binary tree whose nodes own
    their left and right children and keep a back-link to their parent, and
    cursors that denote either an existing node or an empty place where a
    node could be attached (a side of an existing node, or the root of an
    empty tree). The red-black layer on top of it is a skeleton: it only
    reports the size and the root, and its `insert` does nothing. */
module RedBlackTree {

  /** `self` names the node itself; `left`/`right` the empty slot on that side of it. */
  datatype Position = Self | Left | Right

  class Node<T(0)> {
    var parent: Node?<T>
    var left: Node?<T>
    var right: Node?<T>
    var value: T

    /** A detached node without children, holding an unspecified value of `T`. */
    constructor ()
      ensures parent == null && left == null && right == null
    {
      parent := null;
      left := null;
      right := null;
    }
  }

  /** A cursor: a node with position `Self`, the empty root (`Self` with no
      node), or the empty slot on the `Left` or `Right` of a node. */
  datatype Cursor<T(0)> = Cursor(node: Node?<T>, position: Position)
  {
    /** The condition the cursor constructor asserts: a side slot names an
        existing node whose child on that side is absent. */
    ghost predicate Valid()
      reads if position == Self then {} else {node}
    {
      match position
      case Self => true
      case Left => node != null && node.left == null
      case Right => node != null && node.right == null
    }

    /** The cursor denotes an existing node. */
    predicate IsNode(): (b: bool)
      ensures b ==> node != null && Valid()
      ensures position != Self ==> !b
    {
      position == Self && node != null
    }

    /** The cursor at the parent link of this node: for the root it is the
        empty-root cursor, which is not a node. */
    function Parent(): (c: Cursor<T>)
      requires IsNode()
      reads node
      ensures c.Valid() && c.position == Self
      ensures c.IsNode() <==> node.parent != null
      ensures c.node == node.parent
    {
      NewCursor(node.parent, Self)
    }

    /** The left child as a node cursor if there is one, otherwise the empty
        slot on the left of this node. */
    function Left(): (c: Cursor<T>)
      requires IsNode()
      reads node
      ensures c.Valid()
      ensures c.IsNode() <==> node.left != null
      ensures c.IsNode() ==> c.node == node.left
      ensures !c.IsNode() ==> c == Cursor(node, Position.Left)
    {
      if node.left != null then NewCursor(node.left, Self) else NewCursor(node, Position.Left)
    }

    /** The right child as a node cursor if there is one, otherwise the empty
        slot on the right of this node. */
    function Right(): (c: Cursor<T>)
      requires IsNode()
      reads node
      ensures c.Valid()
      ensures c.IsNode() <==> node.right != null
      ensures c.IsNode() ==> c.node == node.right
      ensures !c.IsNode() ==> c == Cursor(node, Position.Right)
    {
      if node.right != null then NewCursor(node.right, Self) else NewCursor(node, Position.Right)
    }

    /** The value stored in the node; only a node cursor has one. */
    function Value(): (v: T)
      requires IsNode()
      reads node
      ensures v == node.value
    {
      node.value
    }
  }

  /** The cursor constructor: a side slot may only be built at an existing
      node whose child on that side is absent; `Self` may name any node or
      none. */
  function NewCursor<T(0)>(node: Node?<T>, position: Position): (c: Cursor<T>)
    requires position != Self ==> node != null
    requires position == Left ==> node.left == null
    requires position == Right ==> node.right == null
    reads if position == Self then {} else {node}
    ensures c.Valid() && c.node == node && c.position == position
  {
    Cursor(node, position)
  }

  /** The tree of nodes. `Nodes` is the set of nodes the tree owns and
      `Depth` gives each its distance from the root, which makes the parent
      links lead back to the root. */
  class BinaryTree<T(0)> {
    var rootNode: Node?<T>
    var numOfNodes: nat
    ghost var Nodes: set<Node<T>>
    ghost var Depth: map<Node<T>, nat>

    ghost predicate Valid()
      reads this, Nodes
    {
      && numOfNodes == |Nodes|
      && (rootNode == null <==> Nodes == {})
      && (rootNode != null ==> rootNode in Nodes && rootNode.parent == null)
      && Depth.Keys == Nodes
      && forall n :: n in Nodes ==> Linked(n)
    }

    /** The links of one owned node: its children are owned nodes that link
        back to it, two different ones when both exist, and unless it is the
        root its parent is an owned node that has it as a child, one level
        closer to the root. */
    ghost predicate Linked(n: Node<T>)
      reads this, Nodes
      requires n in Nodes && Depth.Keys == Nodes
    {
      && (n.left != null ==> n.left in Nodes && n.left.parent == n && n.left != n.right)
      && (n.right != null ==> n.right in Nodes && n.right.parent == n)
      && (n != rootNode ==>
            && n.parent != null && n.parent in Nodes
            && (n.parent.left == n || n.parent.right == n)
            && Depth[n] == Depth[n.parent] + 1)
    }

    /** An empty tree. */
    constructor ()
      ensures Valid() && Nodes == {} && rootNode == null
    {
      rootNode := null;
      numOfNodes := 0;
      Nodes := {};
      Depth := map[];
    }

    /** `size`: the number of nodes the tree owns. */
    function Size(): (n: nat)
      reads this, Nodes
      requires Valid()
      ensures n == |Nodes|
      ensures n == 0 <==> rootNode == null
    {
      numOfNodes
    }

    /** `root`: a node cursor at the root, or the empty-root cursor when the
        tree has no nodes. */
    function Root(): (c: Cursor<T>)
      reads this, Nodes
      requires Valid()
      ensures c.Valid() && c.position == Self
      ensures c.IsNode() <==> Size() > 0
      ensures c.IsNode() ==> c.node in Nodes && c.node.parent == null
      ensures !c.IsNode() ==> CanAttachAt(c)
    {
      NewCursor(rootNode, Self)
    }

    /** The cursors `createNode` accepts: not a node, and either the root of
        an empty tree or a still-empty slot at one of the tree's own nodes. */
    ghost predicate CanAttachAt(c: Cursor<T>)
      reads this, Nodes
    {
      && !c.IsNode()
      && (c.position == Self ==> rootNode == null)
      && (c.position != Self ==> c.node in Nodes && c.Valid())
    }

    /** Going down to a child and back up returns to the same node; where
        there is no child, `left()`/`right()` give a slot `createNode`
        accepts. */
    lemma ChildThenParent(c: Cursor<T>)
      requires Valid() && c.IsNode() && c.node in Nodes
      ensures c.Left().IsNode() ==> c.Left().node in Nodes && c.Left().Parent() == c
      ensures c.Right().IsNode() ==> c.Right().node in Nodes && c.Right().Parent() == c
      ensures !c.Left().IsNode() ==> CanAttachAt(c.Left())
      ensures !c.Right().IsNode() ==> CanAttachAt(c.Right())
    {
      assert Linked(c.node);
    }

    /** Going up from a node gives a node exactly when it is not the root,
        and going back down on one of the two sides returns to it. */
    lemma ParentThenChild(c: Cursor<T>)
      requires Valid() && c.IsNode() && c.node in Nodes
      ensures c.Parent().IsNode() <==> c.node != rootNode
      ensures c.Parent().IsNode() ==>
        c.Parent().node in Nodes && (c.Parent().Left() == c || c.Parent().Right() == c)
    {
      assert Linked(c.node);
    }

    /** The node reached from the root by following `path` (`Left`, `Right`;
        `Self` stays put), or null where the path leaves the tree. Every node
        reached this way is owned by the tree. */
    ghost function Follow(path: seq<Position>): (n: Node?<T>)
      reads this, Nodes
      requires Valid()
      ensures n != null ==> n in Nodes
    {
      if path == [] then rootNode
      else
        var up := Follow(path[..|path| - 1]);
        if up == null then null
        else match path[|path| - 1]
          case Self => up
          case Left => up.left
          case Right => up.right
    }

    /** The path from the root to an owned node: every node the tree owns is
        reachable from the root. */
    ghost function PathTo(n: Node<T>): (path: seq<Position>)
      reads this, Nodes
      requires Valid() && n in Nodes
      ensures Follow(path) == n
      decreases Depth[n]
    {
      if n == rootNode then []
      else
        var above := PathTo(n.parent);
        var path := above + [if n.parent.left == n then Left else Right];
        assert path[..|path| - 1] == above;
        path
    }

    /** `createNode`: attach a fresh node at an empty slot, or as the root of
        an empty tree, and count it. The new node has no children; a node
        attached at a side has the slot's node as its parent. Every other
        link, and every node that was already there, stays as it was. */
    method CreateNode(c: Cursor<T>)
      requires Valid() && CanAttachAt(c)
      modifies this, c.node
      ensures Valid()
      ensures Size() == old(Size()) + 1
      ensures exists m :: m !in old(Nodes) && Nodes == old(Nodes) + {m} && m.left == null && m.right == null
      ensures c.position == Self ==> Root().IsNode() && fresh(rootNode) && Nodes == {rootNode}
      ensures c.position == Left ==> c.node.left in Nodes && fresh(c.node.left) && c.node.left.parent == c.node
      ensures c.position == Right ==> c.node.right in Nodes && fresh(c.node.right) && c.node.right.parent == c.node
      ensures c.position == Left ==> c.node.right == old(c.node.right)
      ensures c.position == Right ==> c.node.left == old(c.node.left)
      ensures c.position != Self ==> rootNode == old(rootNode) && unchanged(c.node`parent, c.node`value)
      ensures unchanged(old(Nodes) - {c.node})
    {
      match c.position {
        case Self => AttachRoot();
        case Left => AttachLeft(c.node);
        case Right => AttachRight(c.node);
      }
    }

    /** Writing through the reference `value()` returns: only the value of
        that node changes, and the tree keeps its shape. */
    method WriteValue(c: Cursor<T>, v: T)
      requires Valid() && c.IsNode() && c.node in Nodes
      modifies c.node`value
      ensures Valid() && c.Value() == v
    {
      c.node.value := v;
    }

    /** The `self` case of `createNode`: the fresh node becomes the root. */
    method AttachRoot()
      requires Valid() && rootNode == null
      modifies this
      ensures Valid() && Size() == old(Size()) + 1
      ensures rootNode != null && fresh(rootNode) && Nodes == {rootNode}
      ensures rootNode.left == null && rootNode.right == null
    {
      numOfNodes := numOfNodes + 1;
      var m := new Node<T>();
      rootNode := m;
      Nodes := {m};
      Depth := map[m := 0];
      assert Linked(m);
    }

    /** The links of every node hold again once a fresh childless node `m`
        hangs under `p` in the place of an absent child: only `p` changed
        among the nodes that were already there. */
    twostate lemma ChildAttached(p: Node<T>, new m: Node<T>)
      requires old(Valid()) && old(p in Nodes) && fresh(m)
      requires Nodes == old(Nodes) + {m} && rootNode == old(rootNode)
      requires Depth == old(Depth)[m := old(Depth)[p] + 1]
      requires m.parent == p && m.left == null && m.right == null
      requires p.parent == old(p.parent)
      requires || (old(p.left) == null && p.left == m && p.right == old(p.right))
               || (old(p.right) == null && p.right == m && p.left == old(p.left))
      requires forall n :: n in old(Nodes) && n != p ==> unchanged(n)
      ensures forall n :: n in Nodes ==> Linked(n)
    {
      forall n | n in Nodes ensures Linked(n) {
        if n != m && n != p {
          assert old(Linked(n));
        }
      }
    }

    /** The `left` case of `createNode`: the fresh node becomes the left
        child of `p`, with `p` as its parent; the right child of `p` stays. */
    method AttachLeft(p: Node<T>)
      requires Valid() && p in Nodes && p.left == null
      modifies this, p
      ensures Valid() && Size() == old(Size()) + 1
      ensures p.left != null && fresh(p.left) && Nodes == old(Nodes) + {p.left}
      ensures p.left.parent == p && p.left.left == null && p.left.right == null
      ensures p.right == old(p.right) && unchanged(p`parent, p`value)
      ensures rootNode == old(rootNode)
    {
      numOfNodes := numOfNodes + 1;
      var m := new Node<T>();
      p.left := m;
      m.parent := p;
      Nodes := Nodes + {m};
      Depth := Depth[m := Depth[p] + 1];
      ChildAttached(p, m);
    }

    /** The `right` case of `createNode`: the fresh node becomes the right
        child of `p`, with `p` as its parent; the left child of `p` stays. */
    method AttachRight(p: Node<T>)
      requires Valid() && p in Nodes && p.right == null
      modifies this, p
      ensures Valid() && Size() == old(Size()) + 1
      ensures p.right != null && fresh(p.right) && Nodes == old(Nodes) + {p.right}
      ensures p.right.parent == p && p.right.left == null && p.right.right == null
      ensures p.left == old(p.left) && unchanged(p`parent, p`value)
      ensures rootNode == old(rootNode)
    {
      numOfNodes := numOfNodes + 1;
      var m := new Node<T>();
      p.right := m;
      m.parent := p;
      Nodes := Nodes + {m};
      Depth := Depth[m := Depth[p] + 1];
      ChildAttached(p, m);
    }

    /** `createNode` as the source writes it: it checks that the cursor is
        not a node, and for a side slot that the slot's node exists, but not
        that the slot is still empty. A copy of a slot cursor taken before
        that slot was filled makes it replace (and so discard) the child
        that is there, while still counting one more node. */
    method CreateNodeAsWritten(c: Cursor<T>)
      requires !c.IsNode()
      requires c.position == Self ==> rootNode == null
      requires c.position != Self ==> c.node != null
      modifies this, c.node
      ensures numOfNodes == old(numOfNodes) + 1
      ensures c.position == Self ==> rootNode != null && fresh(rootNode)
      ensures c.position == Left ==> fresh(c.node.left) && c.node.left.parent == c.node
      ensures c.position == Right ==> fresh(c.node.right) && c.node.right.parent == c.node
      ensures c.position == Left ==> c.node.right == old(c.node.right)
      ensures c.position == Right ==> c.node.left == old(c.node.left)
      ensures c.position != Self ==> rootNode == old(rootNode)
    {
      numOfNodes := numOfNodes + 1;
      var m := new Node<T>();
      match c.position {
        case Self => rootNode := m;
        case Left => c.node.left := m; m.parent := c.node;
        case Right => c.node.right := m; m.parent := c.node;
      }
    }
  }

  /** Two `createNode` calls through one copy of the root's left slot: the
      second one unlinks the child the first one attached (its parent no
      longer has it as a child), yet the count says three nodes while only
      the root and the second child hang from the root. */
  method StaleSlotCursor() returns (size: nat, firstChildLinked: bool)
    ensures size == 3 && !firstChildLinked
  {
    var t := new BinaryTree<int>();
    t.CreateNode(t.Root());
    var slot := t.Root().Left();
    t.CreateNode(slot);
    var first := slot.node.left;
    t.CreateNodeAsWritten(slot);
    size := t.numOfNodes;
    firstChildLinked := first.parent != null && (first.parent.left == first || first.parent.right == first);
  }

  /** The payload of a red-black tree node: a colour flag and the value.
      Nothing reads or writes the colour yet. */
  datatype ColorValue<T> = ColorValue(red: bool, value: T)

  /** The red-black tree skeleton: a node store of colour/value pairs that
      only reports its size and root; `insert` has no body yet. */
  class RedBlackTree<T(0)> {
    const tree: BinaryTree<ColorValue<T>>

    ghost predicate Valid()
      reads this, tree, tree.Nodes
    {
      tree.Valid()
    }

    /** An empty tree. */
    constructor ()
      ensures Valid() && fresh(tree) && Size() == 0
    {
      tree := new BinaryTree<ColorValue<T>>();
    }

    /** `size`: the size of the underlying node store. */
    function Size(): (n: nat)
      reads this, tree, tree.Nodes
      requires Valid()
      ensures n == |tree.Nodes|
    {
      tree.Size()
    }

    /** `root`: the root cursor of the underlying node store; a node exactly
        when the tree is not empty. */
    function Root(): (c: Cursor<ColorValue<T>>)
      reads this, tree, tree.Nodes
      requires Valid()
      ensures c.position == Self && (c.IsNode() <==> Size() > 0)
    {
      tree.Root()
    }

    /** `insert`: does nothing, so the size and the root stay as they were. */
    method Insert(value: T)
      requires Valid()
      ensures Valid() && Size() == old(Size()) && Root() == old(Root())
    {
    }
  }

  /** The program's demonstration: an `int` tree, one `insert(100)`, then a
      look at the root. Since `insert` adds nothing, the tree is still empty
      and its root cursor is not a node, so the root's `value()` that the
      program goes on to read has its precondition violated. */
  method InsertThenReadRoot() returns (size: nat, rootIsNode: bool)
    ensures size == 0 && !rootIsNode
  {
    var t := new RedBlackTree<int>();
    t.Insert(100);
    size := t.Size();
    rootIsNode := t.Root().IsNode();
  }
}
