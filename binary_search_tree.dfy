/** The plain (unbalanced) binary search tree: an ordered set of integers that
    rejects duplicates and deletes a two-child node by copying in the minimum
    of its right subtree. Every node operation of the library returns the new
    root of its subtree and nodes are never shared, so a subtree is modelled as
    a value and each operation as a function that returns the new subtree. */
module Bst {
  import opened Failures

  datatype Tree = Leaf | Node(left: Tree, value: int, right: Tree)

  /** The elements stored in a subtree. */
  function Elems(t: Tree): set<int> {
    match t
    case Leaf => {}
    case Node(l, x, r) => Elems(l) + {x} + Elems(r)
  }

  /** Search-tree order: everything on the left is strictly smaller and
      everything on the right strictly larger than the node's element. */
  ghost predicate Ordered(t: Tree) {
    match t
    case Leaf => true
    case Node(l, x, r) =>
      && Ordered(l) && Ordered(r)
      && (forall y :: y in Elems(l) ==> y < x)
      && (forall y :: y in Elems(r) ==> x < y)
  }

  /** The value of the leftmost node of a non-empty subtree. The AVL tree
      has its own `Avl.Leftmost` over its height-carrying nodes. */
  function Leftmost(t: Tree): (m: int)
    requires t.Node?
    ensures m in Elems(t)
    ensures Ordered(t) ==> forall y :: y in Elems(t) ==> m <= y
  {
    if t.left.Leaf? then t.value else Leftmost(t.left)
  }

  /** Descends by comparison: left when the node's element is larger, right
      when it is smaller, and true on an equal element. */
  function Contains(t: Tree, v: int): bool {
    match t
    case Leaf => false
    case Node(l, x, r) =>
      if v < x then Contains(l, v)
      else if x < v then Contains(r, v)
      else true
  }

  /** Inserts `v` as a new leaf on its search path, or fails with
      DuplicateValue when an equal element lies on that path. */
  function Add(t: Tree, v: int): Result<Tree> {
    match t
    case Leaf => Ok(Node(Leaf, v, Leaf))
    case Node(l, x, r) =>
      if v < x then
        match Add(l, v)
        case Ok(l') => Ok(Node(l', x, r))
        case Err(e) => Err(e)
      else if x < v then
        match Add(r, v)
        case Ok(r') => Ok(Node(l, x, r'))
        case Err(e) => Err(e)
      else Err(DuplicateValue)
  }

  /** Removes the element equal to `v` if there is one. A node with one child
      is replaced by that child, a leaf by nothing, and a node with two
      children takes the minimum of its right subtree, which is then removed
      from that subtree. */
  function Remove(t: Tree, v: int): Tree {
    match t
    case Leaf => Leaf
    case Node(l, x, r) =>
      if v < x then Node(Remove(l, v), x, r)
      else if x < v then Node(l, x, Remove(r, v))
      else if l.Node? && r.Leaf? then l
      else if r.Node? && l.Leaf? then r
      else if r.Node? then
        var m := Leftmost(r);
        Node(l, m, Remove(r, m))
      else Leaf
  }

  // ---------------------------------------------------------------------
  // Properties

  /** On an ordered tree, the search finds `v` exactly when it is stored. */
  lemma {:induction false} ContainsIffMember(t: Tree, v: int)
    requires Ordered(t)
    ensures Contains(t, v) <==> v in Elems(t)
  {
    match t
    case Leaf =>
    case Node(l, x, r) =>
      if v < x {
        ContainsIffMember(l, v);
      } else if x < v {
        ContainsIffMember(r, v);
      }
  }

  /** Adding fails exactly on a duplicate; otherwise the tree stays ordered,
      gains exactly `v`, keeps its root element and grows by one node. */
  lemma {:induction false} AddCorrect(t: Tree, v: int)
    requires Ordered(t)
    ensures Add(t, v).Err? <==> v in Elems(t)
    ensures Add(t, v).Err? ==> Add(t, v).error == DuplicateValue
    ensures Add(t, v).Ok? ==>
              && Ordered(Add(t, v).value)
              && Elems(Add(t, v).value) == Elems(t) + {v}
              && Size(Add(t, v).value) == Size(t) + 1
              && (t.Node? ==> Add(t, v).value.value == t.value)
  {
    match t
    case Leaf =>
    case Node(l, x, r) =>
      if v < x {
        AddCorrect(l, v);
      } else if x < v {
        AddCorrect(r, v);
      }
  }

  /** Removing keeps the order and takes out exactly `v`. */
  lemma {:induction false} RemoveCorrect(t: Tree, v: int)
    requires Ordered(t)
    ensures Ordered(Remove(t, v))
    ensures Elems(Remove(t, v)) == Elems(t) - {v}
  {
    match t
    case Leaf =>
    case Node(l, x, r) =>
      if v < x {
        RemoveCorrect(l, v);
      } else if x < v {
        RemoveCorrect(r, v);
      } else if l.Node? && r.Node? {
        var m := Leftmost(r);
        RemoveCorrect(r, m);
      }
  }

  /** Removing an absent element gives back the very same tree. */
  lemma {:induction false} RemoveAbsent(t: Tree, v: int)
    requires v !in Elems(t)
    ensures Remove(t, v) == t
  {
    match t
    case Leaf =>
    case Node(l, x, r) =>
      if v < x {
        RemoveAbsent(l, v);
      } else if x < v {
        RemoveAbsent(r, v);
      }
  }

  /** Removing the element at a node with fewer than two children replaces
      the node by its only child, or by nothing when it is a leaf. */
  lemma RemoveAtNodeWithOneChild(l: Tree, x: int, r: Tree)
    requires l.Leaf? || r.Leaf?
    ensures Remove(Node(l, x, r), x) == (if l.Leaf? then r else l)
  {
  }

  /** Removing the element at a node with two children keeps the node with
      its left subtree; its element becomes the minimum of the right subtree,
      and the right subtree loses that minimum. */
  lemma RemoveAtNodeWithTwoChildren(l: Tree, x: int, r: Tree)
    requires Ordered(Node(l, x, r)) && l.Node? && r.Node?
    ensures var t' := Remove(Node(l, x, r), x);
      && t'.Node? && t'.left == l
      && t'.value in Elems(r) && (forall y :: y in Elems(r) ==> t'.value <= y)
      && Elems(t'.right) == Elems(r) - {t'.value}
  {
    RemoveCorrect(r, Leftmost(r));
  }

  /** The number of nodes of a subtree. */
  function Size(t: Tree): nat {
    match t
    case Leaf => 0
    case Node(l, _, r) => Size(l) + 1 + Size(r)
  }
}

/** The container that owns the root of a plain binary search tree. */
module BstContainer {
  import opened Failures
  import Bst

  class BinarySearchTree {
    var root: Bst.Tree

    ghost predicate Valid()
      reads this
    {
      Bst.Ordered(root)
    }

    /** The elements the container holds. */
    ghost function Contents(): set<int>
      reads this
    {
      Bst.Elems(root)
    }

    constructor ()
      ensures Valid() && Contents() == {}
    {
      root := Bst.Leaf;
    }

    /** Inserts `v`; a duplicate is reported and the tree is left as it was. */
    method Add(v: int) returns (outcome: Result<()>)
      requires Valid()
      modifies this
      ensures Valid()
      ensures outcome.Err? <==> v in old(Contents())
      ensures outcome.Err? ==> outcome.error == DuplicateValue && root == old(root)
      ensures outcome.Ok? ==> Contents() == old(Contents()) + {v}
    {
      Bst.AddCorrect(root, v);
      match Bst.Add(root, v)
      case Ok(t) =>
        root := t;
        outcome := Ok(());
      case Err(e) =>
        outcome := Err(e);
    }

    /** Removes `v` if it is present. */
    method Remove(v: int)
      requires Valid()
      modifies this
      ensures Valid()
      ensures Contents() == old(Contents()) - {v}
      ensures v !in old(Contents()) ==> root == old(root)
    {
      Bst.RemoveCorrect(root, v);
      if v !in Bst.Elems(root) {
        Bst.RemoveAbsent(root, v);
      }
      root := Bst.Remove(root, v);
    }

    /** Whether an element equal to `v` is stored. */
    method Contains(v: int) returns (found: bool)
      requires Valid()
      ensures found <==> v in Contents()
    {
      Bst.ContainsIffMember(root, v);
      found := Bst.Contains(root, v);
    }
  }
}
