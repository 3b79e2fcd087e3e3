/** The AVL tree: the binary search tree of integers with a cached height in
    every node and the rebalancing rotations applied on the way back up from
    an insertion or a deletion. As for the plain tree, every node operation
    of the library returns the new root of its subtree and nodes are never
    shared, so a subtree is a value and each operation a function. The
    library changes nodes in place, which shows only when a rotation throws
    part-way: the operation then yields the tree as the throw leaves it
    (`Outcome`). */
module Avl {
  import opened Failures

  /** A node caches the height of the subtree it roots (a leaf node has 1). */
  datatype Tree = Leaf | Node(left: Tree, value: int, right: Tree, height: nat)

  function Max(a: int, b: int): int { if a < b then b else a }

  /** The cached height of a subtree; an absent subtree counts as 0. */
  function H(t: Tree): nat {
    if t.Leaf? then 0 else t.height
  }

  /** Height of the left subtree minus height of the right one. */
  function BalanceFactor(t: Tree): int
    requires t.Node?
  {
    H(t.left) - H(t.right)
  }

  /** Recomputes the cached height of a node from its children's. */
  function UpdateHeight(t: Tree): (u: Tree)
    requires t.Node?
    ensures u.Node? && u.left == t.left && u.value == t.value && u.right == t.right
    ensures H(u) == 1 + Max(H(t.left), H(t.right))
  {
    t.(height := Max(H(t.left), H(t.right)) + 1)
  }

  // ---------------------------------------------------------------------
  // Invariants and abstract views

  function Elems(t: Tree): set<int> {
    match t
    case Leaf => {}
    case Node(l, x, r, _) => Elems(l) + {x} + Elems(r)
  }

  function Inorder(t: Tree): seq<int> {
    match t
    case Leaf => []
    case Node(l, x, r, _) => Inorder(l) + [x] + Inorder(r)
  }

  ghost predicate Ordered(t: Tree) {
    match t
    case Leaf => true
    case Node(l, x, r, _) =>
      && Ordered(l) && Ordered(r)
      && (forall y :: y in Elems(l) ==> y < x)
      && (forall y :: y in Elems(r) ==> x < y)
  }

  /** Every cached height is one more than the larger child height. */
  ghost predicate HeightsOk(t: Tree) {
    match t
    case Leaf => true
    case Node(l, _, r, h) => HeightsOk(l) && HeightsOk(r) && h == 1 + Max(H(l), H(r))
  }

  /** Every node's balance factor is -1, 0 or 1. */
  ghost predicate Balanced(t: Tree) {
    match t
    case Leaf => true
    case Node(l, _, r, _) => Balanced(l) && Balanced(r) && -1 <= H(l) - H(r) <= 1
  }

  // ---------------------------------------------------------------------
  // Rotations. Each one reads only the nodes it rewires and recomputes the
  // heights of the two nodes that change places, lower one first.

  function RotateRight(t: Tree): (u: Tree)
    requires t.Node? && t.left.Node?
  {
    var root := t.left;
    var demoted := UpdateHeight(t.(left := root.right));
    UpdateHeight(root.(right := demoted))
  }

  function RotateLeft(t: Tree): (u: Tree)
    requires t.Node? && t.right.Node?
  {
    var root := t.right;
    var demoted := UpdateHeight(t.(right := root.left));
    UpdateHeight(root.(left := demoted))
  }

  function RotateLeftRight(t: Tree): (u: Tree)
    requires t.Node? && t.left.Node? && t.left.right.Node?
  {
    RotateRight(t.(left := RotateLeft(t.left)))
  }

  function RotateRightLeft(t: Tree): (u: Tree)
    requires t.Node? && t.right.Node? && t.right.left.Node?
  {
    RotateLeft(t.(right := RotateRight(t.right)))
  }

  /** The rotations `FixBalance` picks are defined: on a balance factor of 2
      the left child exists and, unless its own balance factor is 1, has a
      right child (mirrored for -2). Otherwise the library dereferences a
      missing child. */
  predicate Rotatable(t: Tree)
    requires t.Node?
  {
    && (BalanceFactor(t) == 2 ==>
          t.left.Node? && (BalanceFactor(t.left) == 1 || t.left.right.Node?))
    && (BalanceFactor(t) == -2 ==>
          t.right.Node? && (BalanceFactor(t.right) == -1 || t.right.left.Node?))
  }

  /** Rebalances a node whose balance factor is 2 or -2: a single rotation when
      the heavy child leans the same way by exactly 1, the double rotation in
      every other case. Any other balance factor leaves the node as it is. */
  function FixBalance(t: Tree): (u: Tree)
    requires t.Node? && Rotatable(t)
  {
    var bf := BalanceFactor(t);
    if !(bf == 2 || bf == -2) then t
    else if bf == 2 then
      if BalanceFactor(t.left) == 1 then RotateRight(t) else RotateLeftRight(t)
    else
      if BalanceFactor(t.right) == -1 then RotateLeft(t) else RotateRightLeft(t)
  }

  // ---------------------------------------------------------------------
  // Queries

  /** The value of the leftmost node of a non-empty subtree. The plain tree
      has its own `Bst.Leftmost`, since its nodes carry no height and form a
      datatype of their own. */
  function Leftmost(t: Tree): (m: int)
    requires t.Node?
    ensures m in Elems(t)
    ensures Ordered(t) ==> forall y :: y in Elems(t) ==> m <= y
  {
    if t.left.Leaf? then t.value else Leftmost(t.left)
  }

  function Contains(t: Tree, v: int): bool {
    match t
    case Leaf => false
    case Node(l, x, r, _) =>
      if v < x then Contains(l, v)
      else if x < v then Contains(r, v)
      else true
  }

  // ---------------------------------------------------------------------
  // The rotations preserve the in-order sequence and the cached heights

  lemma RotateRightPreserves(t: Tree)
    requires t.Node? && t.left.Node?
    ensures RotateRight(t).Node? && RotateRight(t).value == t.left.value
    ensures Inorder(RotateRight(t)) == Inorder(t)
    ensures Elems(RotateRight(t)) == Elems(t)
    ensures Ordered(t) ==> Ordered(RotateRight(t))
    ensures HeightsOk(t.left) && HeightsOk(t.right) ==> HeightsOk(RotateRight(t))
  {
    var a, x, b, y, c := t.left.left, t.left.value, t.left.right, t.value, t.right;
    var u := RotateRight(t);
    assert u.left == a && u.value == x;
    assert u.right.left == b && u.right.value == y && u.right.right == c;
    assert Inorder(u.right) == Inorder(b) + [y] + Inorder(c);
    assert Inorder(t.left) == Inorder(a) + [x] + Inorder(b);
    ConcatRegroup(Inorder(a), x, Inorder(b), y, Inorder(c));
    SameInorderSameElems(u, t);
    RotationShapesOrdered(a, x, b, y, c, t.left.height, t.height, u.right.height, u.height);
  }

  lemma RotateLeftPreserves(t: Tree)
    requires t.Node? && t.right.Node?
    ensures RotateLeft(t).Node? && RotateLeft(t).value == t.right.value
    ensures Inorder(RotateLeft(t)) == Inorder(t)
    ensures Elems(RotateLeft(t)) == Elems(t)
    ensures Ordered(t) ==> Ordered(RotateLeft(t))
    ensures HeightsOk(t.left) && HeightsOk(t.right) ==> HeightsOk(RotateLeft(t))
  {
    var a, x, b, y, c := t.left, t.value, t.right.left, t.right.value, t.right.right;
    var u := RotateLeft(t);
    assert u.right == c && u.value == y;
    assert u.left.left == a && u.left.value == x && u.left.right == b;
    assert Inorder(u.left) == Inorder(a) + [x] + Inorder(b);
    assert Inorder(t.right) == Inorder(b) + [y] + Inorder(c);
    ConcatRegroup(Inorder(a), x, Inorder(b), y, Inorder(c));
    SameInorderSameElems(u, t);
    RotationShapesOrdered(a, x, b, y, c, u.left.height, u.height, t.right.height, t.height);
  }

  lemma ConcatRegroup(a: seq<int>, x: int, b: seq<int>, y: int, c: seq<int>)
    ensures a + [x] + b + [y] + c == a + [x] + (b + [y] + c)
  {
  }

  /** The elements of a tree are those of its in-order sequence. */
  lemma {:induction false} ElemsInorder(t: Tree)
    ensures forall z :: z in Elems(t) <==> z in Inorder(t)
  {
    if t.Node? {
      ElemsInorder(t.left);
      ElemsInorder(t.right);
    }
  }

  lemma SameInorderSameElems(t: Tree, u: Tree)
    requires Inorder(t) == Inorder(u)
    ensures Elems(t) == Elems(u)
  {
    ElemsInorder(t);
    ElemsInorder(u);
    forall z
      ensures z in Elems(t) <==> z in Elems(u)
    {
    }
  }

  /** The two shapes a single rotation converts between, ((a x b) y c) and
      (a x (b y c)), are search-ordered together. */
  lemma RotationShapesOrdered(a: Tree, x: int, b: Tree, y: int, c: Tree, h1: nat, h2: nat, h3: nat, h4: nat)
    ensures Ordered(Node(Node(a, x, b, h1), y, c, h2)) <==> Ordered(Node(a, x, Node(b, y, c, h3), h4))
  {
    var l := Node(Node(a, x, b, h1), y, c, h2);
    var r := Node(a, x, Node(b, y, c, h3), h4);
    assert Elems(l.left) == Elems(a) + {x} + Elems(b);
    assert Elems(r.right) == Elems(b) + {y} + Elems(c);
  }

  lemma RotateLeftRightPreserves(t: Tree)
    requires t.Node? && t.left.Node? && t.left.right.Node?
    ensures RotateLeftRight(t).Node? && RotateLeftRight(t).value == t.left.right.value
    ensures Inorder(RotateLeftRight(t)) == Inorder(t)
    ensures Elems(RotateLeftRight(t)) == Elems(t)
    ensures Ordered(t) ==> Ordered(RotateLeftRight(t))
    ensures HeightsOk(t.left) && HeightsOk(t.right) ==> HeightsOk(RotateLeftRight(t))
  {
    RotateLeftPreserves(t.left);
    var t' := t.(left := RotateLeft(t.left));
    assert Ordered(t) ==> Ordered(t');
    RotateRightPreserves(t');
  }

  lemma RotateRightLeftPreserves(t: Tree)
    requires t.Node? && t.right.Node? && t.right.left.Node?
    ensures RotateRightLeft(t).Node? && RotateRightLeft(t).value == t.right.left.value
    ensures Inorder(RotateRightLeft(t)) == Inorder(t)
    ensures Elems(RotateRightLeft(t)) == Elems(t)
    ensures Ordered(t) ==> Ordered(RotateRightLeft(t))
    ensures HeightsOk(t.left) && HeightsOk(t.right) ==> HeightsOk(RotateRightLeft(t))
  {
    RotateRightPreserves(t.right);
    var t' := t.(right := RotateRight(t.right));
    assert Ordered(t) ==> Ordered(t');
    RotateLeftPreserves(t');
  }

  /** Rebalancing keeps the elements and the order. */
  lemma FixBalanceKeepsOrder(t: Tree)
    requires t.Node? && Rotatable(t)
    ensures FixBalance(t).Node?
    ensures Elems(FixBalance(t)) == Elems(t)
    ensures Ordered(t) ==> Ordered(FixBalance(t))
  {
    var bf := BalanceFactor(t);
    if bf == 2 {
      if BalanceFactor(t.left) == 1 {
        RotateRightPreserves(t);
      } else {
        RotateLeftRightPreserves(t);
      }
    } else if bf == -2 {
      if BalanceFactor(t.right) == -1 {
        RotateLeftPreserves(t);
      } else {
        RotateRightLeftPreserves(t);
      }
    }
  }

  /** On correct cached heights rebalancing also keeps them correct, never
      makes a subtree taller, and leaves a node of balance factor -1, 0 or 1
      as it is. */
  lemma FixBalancePreserves(t: Tree)
    requires t.Node? && Rotatable(t) && HeightsOk(t)
    ensures FixBalance(t).Node?
    ensures Elems(FixBalance(t)) == Elems(t)
    ensures Ordered(t) ==> Ordered(FixBalance(t))
    ensures HeightsOk(FixBalance(t)) && H(FixBalance(t)) <= H(t)
    ensures -1 <= BalanceFactor(t) <= 1 ==> FixBalance(t) == t
  {
    var bf := BalanceFactor(t);
    FixBalanceKeepsOrder(t);
    if bf == 2 {
      if BalanceFactor(t.left) == 1 {
        RotateRightPreserves(t);
      } else {
        RotateLeftRightPreserves(t);
        var Node(Node(a, x, Node(b1, z, b2, _), _), y, c, _) := t;
        assert HeightsOk(t.left.right);
      }
    } else if bf == -2 {
      if BalanceFactor(t.right) == -1 {
        RotateLeftPreserves(t);
      } else {
        RotateRightLeftPreserves(t);
        var Node(a, x, Node(Node(b1, z, b2, _), y, c, _), _) := t;
        assert HeightsOk(t.right.left);
      }
    }
  }

  // ---------------------------------------------------------------------
  // Rebalancing with the textbook choice of rotation

  ghost predicate RotatableFixed(t: Tree)
    requires t.Node?
  {
    && (BalanceFactor(t) == 2 ==>
          t.left.Node? && (BalanceFactor(t.left) >= 0 || t.left.right.Node?))
    && (BalanceFactor(t) == -2 ==>
          t.right.Node? && (BalanceFactor(t.right) <= 0 || t.right.left.Node?))
  }

  /** `FixBalance` with a heavy child of balance factor 0 sent to the single
      rotation rather than the double one. */
  function FixBalanceFixed(t: Tree): (u: Tree)
    requires t.Node? && RotatableFixed(t)
  {
    var bf := BalanceFactor(t);
    if !(bf == 2 || bf == -2) then t
    else if bf == 2 then
      if BalanceFactor(t.left) >= 0 then RotateRight(t) else RotateLeftRight(t)
    else
      if BalanceFactor(t.right) <= 0 then RotateLeft(t) else RotateRightLeft(t)
  }

  /** A node whose two subtrees are balanced and differ in height by at most
      2 comes out of the textbook rebalancing balanced, with correct heights
      and its elements and order kept; it loses one level exactly when the
      heavy child leans (balance factor not 0). */
  lemma FixBalanceFixedRestores(t: Tree)
    requires t.Node? && HeightsOk(t) && Balanced(t.left) && Balanced(t.right)
    requires -2 <= BalanceFactor(t) <= 2
    ensures RotatableFixed(t)
    ensures FixBalanceFixed(t).Node?
    ensures HeightsOk(FixBalanceFixed(t)) && Balanced(FixBalanceFixed(t))
    ensures Elems(FixBalanceFixed(t)) == Elems(t)
    ensures Ordered(t) ==> Ordered(FixBalanceFixed(t))
    ensures -1 <= BalanceFactor(t) <= 1 ==> FixBalanceFixed(t) == t
    ensures BalanceFactor(t) == 2 ==>
              H(FixBalanceFixed(t)) == H(t) - (if BalanceFactor(t.left) == 0 then 0 else 1)
    ensures BalanceFactor(t) == -2 ==>
              H(FixBalanceFixed(t)) == H(t) - (if BalanceFactor(t.right) == 0 then 0 else 1)
  {
    var bf := BalanceFactor(t);
    if bf == 2 {
      if BalanceFactor(t.left) >= 0 {
        RotateRightPreserves(t);
        RotateRightBalances(t);
      } else {
        RotateLeftRightPreserves(t);
        RotateLeftRightBalances(t);
      }
    } else if bf == -2 {
      if BalanceFactor(t.right) <= 0 {
        RotateLeftPreserves(t);
        RotateLeftBalances(t);
      } else {
        RotateRightLeftPreserves(t);
        RotateRightLeftBalances(t);
      }
    }
  }

  lemma RotateRightBalances(t: Tree)
    requires t.Node? && t.left.Node? && HeightsOk(t) && Balanced(t.left) && Balanced(t.right)
    requires BalanceFactor(t) == 2 && BalanceFactor(t.left) >= 0
    ensures Balanced(RotateRight(t))
    ensures H(RotateRight(t)) == H(t) - (if BalanceFactor(t.left) == 0 then 0 else 1)
  {
    var u := RotateRight(t);
    assert u.left == t.left.left && u.right.left == t.left.right && u.right.right == t.right;
  }

  lemma RotateLeftBalances(t: Tree)
    requires t.Node? && t.right.Node? && HeightsOk(t) && Balanced(t.left) && Balanced(t.right)
    requires BalanceFactor(t) == -2 && BalanceFactor(t.right) <= 0
    ensures Balanced(RotateLeft(t))
    ensures H(RotateLeft(t)) == H(t) - (if BalanceFactor(t.right) == 0 then 0 else 1)
  {
    var u := RotateLeft(t);
    assert u.right == t.right.right && u.left.right == t.right.left && u.left.left == t.left;
  }

  lemma RotateLeftRightBalances(t: Tree)
    requires t.Node? && t.left.Node? && t.left.right.Node?
    requires HeightsOk(t) && Balanced(t.left) && Balanced(t.right)
    requires BalanceFactor(t) == 2 && BalanceFactor(t.left) < 0
    ensures Balanced(RotateLeftRight(t))
    ensures H(RotateLeftRight(t)) == H(t) - 1
  {
    var L, M := t.left, t.left.right;
    assert HeightsOk(L) && HeightsOk(M);
    var u := RotateLeftRight(t);
    assert u.left.left == L.left && u.left.right == M.left;
    assert u.right.left == M.right && u.right.right == t.right;
  }

  lemma RotateRightLeftBalances(t: Tree)
    requires t.Node? && t.right.Node? && t.right.left.Node?
    requires HeightsOk(t) && Balanced(t.left) && Balanced(t.right)
    requires BalanceFactor(t) == -2 && BalanceFactor(t.right) > 0
    ensures Balanced(RotateRightLeft(t))
    ensures H(RotateRightLeft(t)) == H(t) - 1
  {
    var R, M := t.right, t.right.left;
    assert HeightsOk(R) && HeightsOk(M);
    var u := RotateRightLeft(t);
    assert u.right.right == R.right && u.right.left == M.right;
    assert u.left.right == M.left && u.left.left == t.left;
  }

  // ---------------------------------------------------------------------
  // What the library's node operations leave behind

  /** The result of a node operation of the library: the new root of the
      subtree, or the error it throws together with the subtree as its nodes
      stand at that moment. Nodes are updated in place on the way back up,
      so a throw keeps the changes already made at and below the node that
      throws, while the nodes above it keep their old children. */
  datatype Outcome = Done(tree: Tree) | Thrown(error: Error, state: Tree)

  /** The rebalancing step at a node whose height was just recomputed:
      `FixBalance` when the rotation it picks is defined, and otherwise the
      TypeError of dereferencing the missing child, thrown before that node
      changes. */
  function Rebalance(n: Tree): Outcome
    requires n.Node?
  {
    if Rotatable(n) then Done(FixBalance(n)) else Thrown(MissingChild, n)
  }

  /** The rebalancing step keeps the elements and the order, and its only
      error is MissingChild, thrown with the node unchanged. */
  lemma RebalanceKeepsOrder(n: Tree)
    requires n.Node?
    ensures Rebalance(n).Done? ==>
              Elems(Rebalance(n).tree) == Elems(n) && (Ordered(n) ==> Ordered(Rebalance(n).tree))
    ensures Rebalance(n).Thrown? ==> Rebalance(n) == Thrown(MissingChild, n)
  {
    if Rotatable(n) {
      FixBalanceKeepsOrder(n);
    }
  }

  // ---------------------------------------------------------------------
  // Insertion

  /** After an insertion below a node, the heavy child leans the same way or
      the other way but never sits at balance factor 0, so the library's
      choice of rotation agrees with the textbook one. */
  lemma InsertRotationAgrees(n: Tree)
    requires n.Node? && HeightsOk(n) && Balanced(n.left) && Balanced(n.right)
    requires -2 <= BalanceFactor(n) <= 2
    requires BalanceFactor(n) == 2 ==> n.left.Node? && BalanceFactor(n.left) != 0
    requires BalanceFactor(n) == -2 ==> n.right.Node? && BalanceFactor(n.right) != 0
    ensures Rotatable(n) && RotatableFixed(n) && FixBalance(n) == FixBalanceFixed(n)
  {
    FixBalanceFixedRestores(n);
  }

  /** The facts about an insertion's result that the level above needs. */
  ghost predicate Grown(t: Tree, u: Tree) {
    && u.Node? && HeightsOk(u) && Balanced(u)
    && H(t) <= H(u) <= H(t) + 1
    && (H(u) == H(t) + 1 && H(u) >= 2 ==> BalanceFactor(u) != 0)
  }

  lemma RebalanceAfterInsert(t: Tree, n: Tree)
    requires t.Node? && HeightsOk(t) && Balanced(t)
    requires n.Node? && n.value == t.value && HeightsOk(n)
    requires (Grown(t.left, n.left) && n.right == t.right) || (n.left == t.left && Grown(t.right, n.right))
    ensures Rotatable(n) && Grown(t, FixBalance(n))
  {
    InsertRotationAgrees(n);
    FixBalanceFixedRestores(n);
  }

  /** Inserts `v` below its search position, then recomputes the height and
      rebalances every node on the way back up. An element equal to `v` on
      the path throws DuplicateValue before anything changes; a rebalancing
      that meets a missing child throws MissingChild. */
  function Add(t: Tree, v: int): Outcome {
    match t
    case Leaf => Done(Node(Leaf, v, Leaf, 1))
    case Node(l, x, r, h) =>
      if v < x then
        match Add(l, v)
        case Thrown(e, l') => Thrown(e, Node(l', x, r, h))
        case Done(l') => Rebalance(UpdateHeight(Node(l', x, r, h)))
      else if x < v then
        match Add(r, v)
        case Thrown(e, r') => Thrown(e, Node(l, x, r', h))
        case Done(r') => Rebalance(UpdateHeight(Node(l, x, r', h)))
      else Thrown(DuplicateValue, t)
  }

  /** On an ordered tree, adding throws DuplicateValue exactly when `v` is
      stored, and then leaves the tree as it was; the only other error is
      MissingChild. Otherwise, whether it completes or throws MissingChild,
      the tree it leaves is ordered and holds the old elements and `v`. */
  lemma {:induction false} AddCorrect(t: Tree, v: int)
    requires Ordered(t)
    ensures Add(t, v).Thrown? && Add(t, v).error == DuplicateValue <==> v in Elems(t)
    ensures Add(t, v).Thrown? ==> Add(t, v).error in {DuplicateValue, MissingChild}
    ensures Add(t, v).Thrown? && Add(t, v).error == DuplicateValue ==> Add(t, v).state == t
    ensures Add(t, v).Done? ==> Ordered(Add(t, v).tree) && Elems(Add(t, v).tree) == Elems(t) + {v}
    ensures Add(t, v).Thrown? && Add(t, v).error == MissingChild ==>
              Ordered(Add(t, v).state) && Elems(Add(t, v).state) == Elems(t) + {v}
  {
    match t
    case Leaf =>
    case Node(l, x, r, h) =>
      if v < x {
        AddCorrect(l, v);
        match Add(l, v)
        case Thrown(e, l') =>
          if e == MissingChild {
            ChildReplaced(t, Node(l', x, r, h));
          }
        case Done(l') =>
          var n := UpdateHeight(Node(l', x, r, h));
          ChildReplaced(t, n);
          RebalanceKeepsOrder(n);
      } else if x < v {
        AddCorrect(r, v);
        match Add(r, v)
        case Thrown(e, r') =>
          if e == MissingChild {
            ChildReplaced(t, Node(l, x, r', h));
          }
        case Done(r') =>
          var n := UpdateHeight(Node(l, x, r', h));
          ChildReplaced(t, n);
          RebalanceKeepsOrder(n);
      }
  }

  /** On correct cached heights, a completed insertion keeps them correct and
      makes the tree at most one level taller. */
  lemma {:induction false} AddKeepsHeights(t: Tree, v: int)
    requires HeightsOk(t)
    ensures Add(t, v).Done? ==> HeightsOk(Add(t, v).tree) && H(Add(t, v).tree) <= H(t) + 1
  {
    match t
    case Leaf =>
    case Node(l, x, r, h) =>
      if v < x {
        AddKeepsHeights(l, v);
        if Add(l, v).Done? {
          var n := UpdateHeight(Node(Add(l, v).tree, x, r, h));
          if Rotatable(n) {
            FixBalancePreserves(n);
          }
        }
      } else if x < v {
        AddKeepsHeights(r, v);
        if Add(r, v).Done? {
          var n := UpdateHeight(Node(l, x, Add(r, v).tree, h));
          if Rotatable(n) {
            FixBalancePreserves(n);
          }
        }
      }
  }

  /** On a balanced tree with correct heights no rebalancing meets a missing
      child: adding completes unless `v` is a duplicate, and the result is
      balanced with correct heights and at most one level taller. */
  lemma {:induction false} AddBalanced(t: Tree, v: int)
    requires HeightsOk(t) && Balanced(t)
    ensures Add(t, v).Done? || Add(t, v).error == DuplicateValue
    ensures Add(t, v).Done? ==> Grown(t, Add(t, v).tree)
  {
    match t
    case Leaf =>
    case Node(l, x, r, h) =>
      if v < x {
        AddBalanced(l, v);
        if Add(l, v).Done? {
          RebalanceAfterInsert(t, UpdateHeight(Node(Add(l, v).tree, x, r, h)));
        }
      } else if x < v {
        AddBalanced(r, v);
        if Add(r, v).Done? {
          RebalanceAfterInsert(t, UpdateHeight(Node(l, x, Add(r, v).tree, h)));
        }
      }
  }

  /** Replacing one child of an ordered node by an ordered subtree whose
      elements lie on the same side of the node's element keeps the order;
      the elements change as that child's do. */
  lemma ChildReplaced(t: Tree, n: Tree)
    requires t.Node? && n.Node? && Ordered(t) && n.value == t.value
    requires || (n.right == t.right && Ordered(n.left) && forall y :: y in Elems(n.left) ==> y < t.value)
             || (n.left == t.left && Ordered(n.right) && forall y :: y in Elems(n.right) ==> t.value < y)
    ensures Ordered(n)
    ensures n.right == t.right ==> Elems(n) == Elems(n.left) + {t.value} + Elems(t.right)
    ensures n.left == t.left ==> Elems(n) == Elems(t.left) + {t.value} + Elems(n.right)
  {
  }

  // ---------------------------------------------------------------------
  // Deletion as the library does it

  /** A node whose heavy side, if it is out of balance by 2, is a balanced
      subtree can be rebalanced without touching a missing child. */
  lemma RotatableWithBalancedHeavyChild(n: Tree)
    requires n.Node? && HeightsOk(n)
    requires BalanceFactor(n) == 2 ==> Balanced(n.left)
    requires BalanceFactor(n) == -2 ==> Balanced(n.right)
    ensures Rotatable(n)
  {
  }

  /** Removes the element equal to `v` if there is one, with the same
      three-way rule as the plain tree (one child: the child takes the node's
      place and is rebalanced; two children: the minimum of the right subtree
      is removed there and copied in), then recomputes the height and
      rebalances on the way back up. A rebalancing that meets a missing
      child throws MissingChild: in the one-child case after the node's own
      height was recomputed, and in the two-child case a throw from the
      right subtree comes before the minimum is copied in. */
  function Remove(t: Tree, v: int): Outcome {
    match t
    case Leaf => Done(Leaf)
    case Node(l, x, r, h) =>
      if v < x then
        match Remove(l, v)
        case Thrown(e, l') => Thrown(e, Node(l', x, r, h))
        case Done(l') => Rebalance(UpdateHeight(Node(l', x, r, h)))
      else if x < v then
        match Remove(r, v)
        case Thrown(e, r') => Thrown(e, Node(l, x, r', h))
        case Done(r') => Rebalance(UpdateHeight(Node(l, x, r', h)))
      else if l.Node? && r.Leaf? then
        if Rotatable(l) then Done(FixBalance(l)) else Thrown(MissingChild, UpdateHeight(t))
      else if r.Node? && l.Leaf? then
        if Rotatable(r) then Done(FixBalance(r)) else Thrown(MissingChild, UpdateHeight(t))
      else if r.Node? then
        var m := Leftmost(r);
        match Remove(r, m)
        case Thrown(e, r') => Thrown(e, Node(l, x, r', h))
        case Done(r') => Rebalance(UpdateHeight(Node(l, m, r', h)))
      else Done(Leaf)
  }

  /** On an ordered tree, a completed removal leaves it ordered with exactly
      `v` taken out. The only error is MissingChild, after which the partly
      updated tree is still ordered and has gained no element. */
  lemma {:induction false} RemoveCorrect(t: Tree, v: int)
    requires Ordered(t)
    ensures Remove(t, v).Done? ==> Ordered(Remove(t, v).tree) && Elems(Remove(t, v).tree) == Elems(t) - {v}
    ensures Remove(t, v).Thrown? ==>
              && Remove(t, v).error == MissingChild
              && Ordered(Remove(t, v).state) && Elems(Remove(t, v).state) <= Elems(t)
  {
    match t
    case Leaf =>
    case Node(l, x, r, h) =>
      if v < x {
        RemoveCorrect(l, v);
        match Remove(l, v)
        case Thrown(_, l') =>
          ChildReplaced(t, Node(l', x, r, h));
        case Done(l') =>
          var n := UpdateHeight(Node(l', x, r, h));
          ChildReplaced(t, n);
          RebalanceKeepsOrder(n);
      } else if x < v {
        RemoveCorrect(r, v);
        match Remove(r, v)
        case Thrown(_, r') =>
          ChildReplaced(t, Node(l, x, r', h));
        case Done(r') =>
          var n := UpdateHeight(Node(l, x, r', h));
          ChildReplaced(t, n);
          RebalanceKeepsOrder(n);
      } else if l.Node? && r.Leaf? {
        RebalanceKeepsOrder(l);
      } else if r.Node? && l.Leaf? {
        RebalanceKeepsOrder(r);
      } else if r.Node? {
        RemoveCorrect(r, Leftmost(r));
        RemoveSuccessorCorrect(t);
      }
  }

  /** The two-child case of `RemoveCorrect`, given its claim for the
      removal of the minimum from the right subtree. */
  lemma RemoveSuccessorCorrect(t: Tree)
    requires t.Node? && t.left.Node? && t.right.Node? && Ordered(t)
    requires var o := Remove(t.right, Leftmost(t.right));
      && (o.Done? ==> Ordered(o.tree) && Elems(o.tree) == Elems(t.right) - {Leftmost(t.right)})
      && (o.Thrown? ==> o.error == MissingChild && Ordered(o.state) && Elems(o.state) <= Elems(t.right))
    ensures var o := Remove(t, t.value);
      && (o.Done? ==> Ordered(o.tree) && Elems(o.tree) == Elems(t) - {t.value})
      && (o.Thrown? ==> o.error == MissingChild && Ordered(o.state) && Elems(o.state) <= Elems(t))
  {
    var Node(l, x, r, h) := t;
    var m := Leftmost(r);
    match Remove(r, m)
    case Thrown(_, r') =>
      ChildReplaced(t, Node(l, x, r', h));
    case Done(r') =>
      var n := UpdateHeight(Node(l, m, r', h));
      SuccessorCopyOrdered(t, n);
      RebalanceKeepsOrder(n);
  }

  /** On correct cached heights, a completed removal keeps them correct and
      never makes the tree taller. */
  lemma {:induction false} RemoveKeepsHeights(t: Tree, v: int)
    requires HeightsOk(t)
    ensures Remove(t, v).Done? ==> HeightsOk(Remove(t, v).tree) && H(Remove(t, v).tree) <= H(t)
  {
    match t
    case Leaf =>
    case Node(l, x, r, h) =>
      if v < x {
        RemoveKeepsHeights(l, v);
        if Remove(l, v).Done? {
          var n := UpdateHeight(Node(Remove(l, v).tree, x, r, h));
          if Rotatable(n) {
            FixBalancePreserves(n);
          }
        }
      } else if x < v {
        RemoveKeepsHeights(r, v);
        if Remove(r, v).Done? {
          var n := UpdateHeight(Node(l, x, Remove(r, v).tree, h));
          if Rotatable(n) {
            FixBalancePreserves(n);
          }
        }
      } else if l.Node? && r.Leaf? {
        if Rotatable(l) {
          FixBalancePreserves(l);
        }
      } else if r.Node? && l.Leaf? {
        if Rotatable(r) {
          FixBalancePreserves(r);
        }
      } else if r.Node? {
        var m := Leftmost(r);
        RemoveKeepsHeights(r, m);
        if Remove(r, m).Done? {
          var n := UpdateHeight(Node(l, m, Remove(r, m).tree, h));
          if Rotatable(n) {
            FixBalancePreserves(n);
          }
        }
      }
  }

  /** On a balanced tree with correct heights the heavy side of every node
      the removal rebalances is balanced, so no rotation meets a missing
      child and removing completes (its result need not be balanced). */
  lemma {:induction false} RemoveOnBalanced(t: Tree, v: int)
    requires HeightsOk(t) && Balanced(t)
    ensures Remove(t, v).Done?
  {
    match t
    case Leaf =>
    case Node(l, x, r, h) =>
      if v < x {
        RemoveOnBalanced(l, v);
        RemoveKeepsHeights(l, v);
        RotatableWithBalancedHeavyChild(UpdateHeight(Node(Remove(l, v).tree, x, r, h)));
      } else if x < v {
        RemoveOnBalanced(r, v);
        RemoveKeepsHeights(r, v);
        RotatableWithBalancedHeavyChild(UpdateHeight(Node(l, x, Remove(r, v).tree, h)));
      } else if l.Node? && r.Leaf? {
        RotatableWithBalancedHeavyChild(l);
      } else if r.Node? && l.Leaf? {
        RotatableWithBalancedHeavyChild(r);
      } else if r.Node? {
        var m := Leftmost(r);
        RemoveOnBalanced(r, m);
        RemoveKeepsHeights(r, m);
        RotatableWithBalancedHeavyChild(UpdateHeight(Node(l, m, Remove(r, m).tree, h)));
      }
  }

  lemma SuccessorCopyOrdered(t: Tree, n: Tree)
    requires t.Node? && t.right.Node? && Ordered(t)
    requires n.Node? && n.left == t.left && n.value == Leftmost(t.right) && Ordered(n.right)
    requires Elems(n.right) == Elems(t.right) - {n.value}
    ensures Ordered(n) && Elems(n) == Elems(t) - {t.value}
  {
    var l, x, r, m := t.left, t.value, t.right, n.value;
    assert Ordered(l) && Ordered(r);
    assert m in Elems(r) && x < m;
    assert forall y :: y in Elems(l) ==> y < m;
    assert forall y :: y in Elems(n.right) ==> y in Elems(r) && y != m;
    assert x !in Elems(l) && x !in Elems(r);
    forall y
      ensures y in Elems(n) <==> y in Elems(t) - {x}
    {
      assert y in Elems(n) <==> y in Elems(l) || y == m || y in Elems(n.right);
    }
  }

  /** Removing an element that is not stored rebuilds the search path
      unchanged: every rebalancing on the way meets a balanced node. */
  lemma {:induction false} RemoveAbsent(t: Tree, v: int)
    requires HeightsOk(t) && Balanced(t) && v !in Elems(t)
    ensures Remove(t, v) == Done(t)
  {
    match t
    case Leaf =>
    case Node(l, x, r, h) =>
      if v < x {
        RemoveAbsent(l, v);
      } else if x < v {
        RemoveAbsent(r, v);
      }
  }

  // ---------------------------------------------------------------------
  // Deletion with the textbook rebalancing

  /** The facts about a deletion's result that the level above needs. */
  ghost predicate Shrunk(t: Tree, u: Tree) {
    HeightsOk(u) && Balanced(u) && H(t) - 1 <= H(u) <= H(t)
  }

  lemma RebalanceAfterDelete(t: Tree, n: Tree)
    requires t.Node? && HeightsOk(t) && Balanced(t)
    requires n.Node? && HeightsOk(n)
    requires (Shrunk(t.left, n.left) && n.right == t.right) || (n.left == t.left && Shrunk(t.right, n.right))
    ensures RotatableFixed(n) && Shrunk(t, FixBalanceFixed(n))
  {
    FixBalanceFixedRestores(n);
  }

  /** A node with one child is replaced by that child, which is balanced
      already, so the rebalancing leaves it as it is. */
  lemma OneChildRemoved(t: Tree, c: Tree)
    requires t.Node? && HeightsOk(t) && Balanced(t)
    requires (c == t.left && t.right.Leaf?) || (c == t.right && t.left.Leaf?)
    requires c.Node?
    ensures RotatableFixed(c) && FixBalanceFixed(c) == c && Shrunk(t, c)
  {
    assert Balanced(c) && HeightsOk(c);
    assert Balanced(c.left) && Balanced(c.right);
    FixBalanceFixedRestores(c);
  }

  /** The two-child case of the corrected deletion. */
  lemma RemoveFixedSuccessorCopy(t: Tree, r': Tree)
    requires t.Node? && t.left.Node? && t.right.Node? && Ordered(t) && HeightsOk(t) && Balanced(t)
    requires Ordered(r') && Shrunk(t.right, r')
    requires Elems(r') == Elems(t.right) - {Leftmost(t.right)}
    ensures var n := UpdateHeight(Node(t.left, Leftmost(t.right), r', t.height));
      && RotatableFixed(n) && Ordered(FixBalanceFixed(n)) && Shrunk(t, FixBalanceFixed(n))
      && Elems(FixBalanceFixed(n)) == Elems(t) - {t.value}
  {
    var n := UpdateHeight(Node(t.left, Leftmost(t.right), r', t.height));
    RebalanceAfterDelete(t, n);
    SuccessorCopyOrdered(t, n);
    FixBalanceFixedRestores(n);
  }

  /** The case where `v` is removed from one subtree of `t`, giving `n`
      before rebalancing. */
  lemma RemoveFixedBelow(t: Tree, v: int, n: Tree)
    requires t.Node? && Ordered(t) && HeightsOk(t) && Balanced(t)
    requires n.Node? && HeightsOk(n) && n.value == t.value
    requires || (v < t.value && n.right == t.right && Ordered(n.left)
                 && Shrunk(t.left, n.left) && Elems(n.left) == Elems(t.left) - {v})
             || (t.value < v && n.left == t.left && Ordered(n.right)
                 && Shrunk(t.right, n.right) && Elems(n.right) == Elems(t.right) - {v})
    ensures RotatableFixed(n) && Ordered(FixBalanceFixed(n)) && Shrunk(t, FixBalanceFixed(n))
    ensures Elems(FixBalanceFixed(n)) == Elems(t) - {v}
  {
    RebalanceAfterDelete(t, n);
    ChildReplaced(t, n);
    FixBalanceFixedRestores(n);
  }

  /** `Remove` with `FixBalanceFixed` in place of `FixBalance`. */
  function RemoveFixed(t: Tree, v: int): (u: Tree)
    requires HeightsOk(t) && Balanced(t)
    ensures Shrunk(t, u)
  {
    match t
    case Leaf => Leaf
    case Node(l, x, r, h) =>
      if v < x then
        var n := UpdateHeight(Node(RemoveFixed(l, v), x, r, h));
        RebalanceAfterDelete(t, n);
        FixBalanceFixed(n)
      else if x < v then
        var n := UpdateHeight(Node(l, x, RemoveFixed(r, v), h));
        RebalanceAfterDelete(t, n);
        FixBalanceFixed(n)
      else if l.Node? && r.Leaf? then
        OneChildRemoved(t, l);
        FixBalanceFixed(l)
      else if r.Node? && l.Leaf? then
        OneChildRemoved(t, r);
        FixBalanceFixed(r)
      else if r.Node? then
        var m := Leftmost(r);
        var n := UpdateHeight(Node(l, m, RemoveFixed(r, m), h));
        RebalanceAfterDelete(t, n);
        FixBalanceFixed(n)
      else Leaf
  }

  /** With the textbook rebalancing, removing keeps the tree ordered and
      balanced with correct heights, and takes out exactly `v`. */
  lemma {:induction false} RemoveFixedCorrect(t: Tree, v: int)
    requires Ordered(t) && HeightsOk(t) && Balanced(t)
    ensures Ordered(RemoveFixed(t, v)) && HeightsOk(RemoveFixed(t, v)) && Balanced(RemoveFixed(t, v))
    ensures Elems(RemoveFixed(t, v)) == Elems(t) - {v}
  {
    match t
    case Leaf =>
    case Node(l, x, r, h) =>
      if v < x {
        RemoveFixedCorrect(l, v);
        RemoveFixedBelow(t, v, UpdateHeight(Node(RemoveFixed(l, v), x, r, h)));
      } else if x < v {
        RemoveFixedCorrect(r, v);
        RemoveFixedBelow(t, v, UpdateHeight(Node(l, x, RemoveFixed(r, v), h)));
      } else if l.Node? && r.Leaf? {
        OneChildRemoved(t, l);
      } else if r.Node? && l.Leaf? {
        OneChildRemoved(t, r);
      } else if r.Node? {
        var m := Leftmost(r);
        RemoveFixedCorrect(r, m);
        RemoveFixedSuccessorCopy(t, RemoveFixed(r, m));
      }
  }

  /** Removing an absent element leaves the tree as it was. */
  lemma {:induction false} RemoveFixedAbsent(t: Tree, v: int)
    requires HeightsOk(t) && Balanced(t) && v !in Elems(t)
    ensures RemoveFixed(t, v) == t
  {
    match t
    case Leaf =>
    case Node(l, x, r, h) =>
      if v < x {
        RemoveFixedAbsent(l, v);
      } else if x < v {
        RemoveFixedAbsent(r, v);
      }
  }

  // ---------------------------------------------------------------------
  // Search

  /** On an ordered tree, the search finds `v` exactly when it is stored. */
  lemma {:induction false} ContainsIffMember(t: Tree, v: int)
    requires Ordered(t)
    ensures Contains(t, v) <==> v in Elems(t)
  {
    match t
    case Leaf =>
    case Node(l, x, r, _) =>
      if v < x {
        ContainsIffMember(l, v);
      } else if x < v {
        ContainsIffMember(r, v);
      }
  }

  // ---------------------------------------------------------------------
  // A deletion the library's rebalancing leaves unbalanced

  /** The tree b3(b1(-, b2), b6(b5(b4, -), b8(b7, -))) over eight increasing
      elements, with correct heights. */
  function Sample(a1: int, a2: int, a3: int, a4: int, a5: int, a6: int, a7: int, a8: int): Tree {
    Node(Node(Leaf, a1, Node(Leaf, a2, Leaf, 1), 2), a3,
         Node(Node(Node(Leaf, a4, Leaf, 1), a5, Leaf, 2), a6, Node(Node(Leaf, a7, Leaf, 1), a8, Leaf, 2), 3), 4)
  }

  /** Inserting the third, first, sixth, second, fifth, eighth, fourth and
      seventh element into an empty tree builds the sample tree; no insertion
      rotates. */
  lemma SampleReachable(a1: int, a2: int, a3: int, a4: int, a5: int, a6: int, a7: int, a8: int)
    requires a1 < a2 < a3 < a4 < a5 < a6 < a7 < a8
    ensures var one, two, four, five, six, seven, eight :=
        Node(Leaf, a1, Leaf, 1), Node(Leaf, a2, Leaf, 1), Node(Leaf, a4, Leaf, 1), Node(Leaf, a5, Leaf, 1),
        Node(Leaf, a6, Leaf, 1), Node(Leaf, a7, Leaf, 1), Node(Leaf, a8, Leaf, 1);
      var t1 := Node(Leaf, a3, Leaf, 1);
      var t2 := Node(one, a3, Leaf, 2);
      var t3 := Node(one, a3, six, 2);
      var n1 := Node(Leaf, a1, two, 2);
      var t4 := Node(n1, a3, six, 3);
      var t5 := Node(n1, a3, Node(five, a6, Leaf, 2), 3);
      var t6 := Node(n1, a3, Node(five, a6, eight, 2), 3);
      var t7 := Node(n1, a3, Node(Node(four, a5, Leaf, 2), a6, eight, 3), 4);
      && Add(Leaf, a3) == Done(t1) && Add(t1, a1) == Done(t2) && Add(t2, a6) == Done(t3)
      && Add(t3, a2) == Done(t4) && Add(t4, a5) == Done(t5) && Add(t5, a8) == Done(t6)
      && Add(t6, a4) == Done(t7) && Add(t7, a7) == Done(Sample(a1, a2, a3, a4, a5, a6, a7, a8))
  {
    var one, two, four, five, six, seven, eight :=
        Node(Leaf, a1, Leaf, 1), Node(Leaf, a2, Leaf, 1), Node(Leaf, a4, Leaf, 1), Node(Leaf, a5, Leaf, 1),
        Node(Leaf, a6, Leaf, 1), Node(Leaf, a7, Leaf, 1), Node(Leaf, a8, Leaf, 1);
    assert H(Leaf) == 0 && Max(0, 0) == 0;
    var t1 := Node(Leaf, a3, Leaf, 1);
    assert Add(Leaf, a3) == Done(t1);
    var t2 := Node(one, a3, Leaf, 2);
    assert UpdateHeight(Node(one, a3, Leaf, 1)) == t2 && FixBalance(t2) == t2;
    assert Add(t1, a1) == Done(t2);
    var t3 := Node(one, a3, six, 2);
    assert UpdateHeight(Node(one, a3, six, 2)) == t3 && FixBalance(t3) == t3;
    assert Add(t2, a6) == Done(t3);
    var n1 := Node(Leaf, a1, two, 2);
    assert UpdateHeight(Node(Leaf, a1, two, 1)) == n1 && FixBalance(n1) == n1;
    assert Add(one, a2) == Done(n1);
    var t4 := Node(n1, a3, six, 3);
    assert UpdateHeight(Node(n1, a3, six, 2)) == t4 && FixBalance(t4) == t4;
    assert Add(t3, a2) == Done(t4);
    var m5 := Node(five, a6, Leaf, 2);
    assert UpdateHeight(Node(five, a6, Leaf, 1)) == m5 && FixBalance(m5) == m5;
    assert Add(six, a5) == Done(m5);
    var t5 := Node(n1, a3, m5, 3);
    assert UpdateHeight(Node(n1, a3, m5, 3)) == t5 && FixBalance(t5) == t5;
    assert Add(t4, a5) == Done(t5);
    var m6 := Node(five, a6, eight, 2);
    assert UpdateHeight(Node(five, a6, eight, 2)) == m6 && FixBalance(m6) == m6;
    assert Add(m5, a8) == Done(m6);
    var t6 := Node(n1, a3, m6, 3);
    assert UpdateHeight(Node(n1, a3, m6, 3)) == t6 && FixBalance(t6) == t6;
    assert Add(t5, a8) == Done(t6);
    var n5 := Node(four, a5, Leaf, 2);
    assert UpdateHeight(Node(four, a5, Leaf, 1)) == n5 && FixBalance(n5) == n5;
    assert Add(five, a4) == Done(n5);
    var m7 := Node(n5, a6, eight, 3);
    assert UpdateHeight(Node(n5, a6, eight, 2)) == m7 && FixBalance(m7) == m7;
    assert Add(m6, a4) == Done(m7);
    var t7 := Node(n1, a3, m7, 4);
    assert UpdateHeight(Node(n1, a3, m7, 3)) == t7 && FixBalance(t7) == t7;
    assert Add(t6, a4) == Done(t7);
    var n8 := Node(seven, a8, Leaf, 2);
    assert UpdateHeight(Node(seven, a8, Leaf, 1)) == n8 && FixBalance(n8) == n8;
    assert Add(eight, a7) == Done(n8);
    var n6 := Node(n5, a6, n8, 3);
    assert UpdateHeight(Node(n5, a6, n8, 3)) == n6 && FixBalance(n6) == n6;
    assert Add(m7, a7) == Done(n6);
    var t8 := Node(n1, a3, n6, 4);
    assert UpdateHeight(Node(n1, a3, n6, 4)) == t8 && FixBalance(t8) == t8;
    assert Add(t7, a7) == Done(t8);
  }

  /** Removing the second element from the sample tree (a valid AVL tree)
      leaves the root right-heavy by 2 while its right child has balance
      factor 0. The library sends that case to the double rotation, whose
      result has a node with balance factor -2; the single rotation gives a
      balanced tree. */
  lemma RemoveCanUnbalance(a1: int, a2: int, a3: int, a4: int, a5: int, a6: int, a7: int, a8: int)
    requires a1 < a2 < a3 < a4 < a5 < a6 < a7 < a8
    ensures var t := Sample(a1, a2, a3, a4, a5, a6, a7, a8);
      && HeightsOk(t) && Balanced(t)
      && Remove(t, a2) == Done(Unbalanced(a1, a3, a4, a5, a6, a7, a8))
      && !Balanced(Unbalanced(a1, a3, a4, a5, a6, a7, a8))
      && RemoveFixed(t, a2)
         == Node(Node(Node(Leaf, a1, Leaf, 1), a3, Node(Node(Leaf, a4, Leaf, 1), a5, Leaf, 2), 3), a6,
                 Node(Node(Leaf, a7, Leaf, 1), a8, Leaf, 2), 4)
  {
    var two, four, seven := Node(Leaf, a2, Leaf, 1), Node(Leaf, a4, Leaf, 1), Node(Leaf, a7, Leaf, 1);
    var n1 := Node(Leaf, a1, two, 2);
    var n5 := Node(four, a5, Leaf, 2);
    var n8 := Node(seven, a8, Leaf, 2);
    var n6 := Node(n5, a6, n8, 3);
    var t := Node(n1, a3, n6, 4);
    assert t == Sample(a1, a2, a3, a4, a5, a6, a7, a8);
    assert H(Leaf) == 0 && Max(0, 0) == 0;
    assert HeightsOk(two) && HeightsOk(four) && HeightsOk(seven);
    assert Balanced(two) && Balanced(four) && Balanced(seven);
    assert HeightsOk(n1) && Balanced(n1);
    assert HeightsOk(n5) && Balanced(n5);
    assert HeightsOk(n8) && Balanced(n8);
    assert HeightsOk(n6) && Balanced(n6);
    assert HeightsOk(t) && Balanced(t);
    var one := Node(Leaf, a1, Leaf, 1);
    assert Remove(two, a2) == Done(Leaf);
    assert Remove(n1, a2) == Done(one);
    assert RemoveFixed(two, a2) == Leaf;
    assert RemoveFixed(n1, a2) == one;
    var n := Node(one, a3, n6, 4);
    assert UpdateHeight(Node(one, a3, n6, 4)) == n;
    assert BalanceFactor(n) == -2 && BalanceFactor(n6) == 0 && Rotatable(n);
    var r := RotateRight(n6);
    assert r == Node(four, a5, Node(Leaf, a6, n8, 3), 4);
    assert RotateLeft(n.(right := r)) == Unbalanced(a1, a3, a4, a5, a6, a7, a8);
    assert Remove(t, a2) == Done(RotateLeft(n.(right := r)));
    assert FixBalanceFixed(n) == RotateLeft(n);
  }

  /** The tree the library leaves after removing the second element from the
      sample tree: its right subtree b6(-, b8(b7, -)) leans right by 2. */
  function Unbalanced(a1: int, a3: int, a4: int, a5: int, a6: int, a7: int, a8: int): Tree {
    Node(Node(Node(Leaf, a1, Leaf, 1), a3, Node(Leaf, a4, Leaf, 1), 2), a5,
         Node(Leaf, a6, Node(Node(Leaf, a7, Leaf, 1), a8, Leaf, 2), 3), 4)
  }

  /** On the unbalanced tree, removing the first element completes; removing
      the fourth after it leaves the root right-heavy by 2 with a right child
      of balance factor -2 and no left child. The library sends that to the
      double rotation, whose first step dereferences the missing child, so
      the removal throws MissingChild with the fourth element already gone
      and the root's height recomputed. */
  lemma RemoveCanThrow(a1: int, a3: int, a4: int, a5: int, a6: int, a7: int, a8: int)
    requires a1 < a3 < a4 < a5 < a6 < a7 < a8
    ensures var t := Unbalanced(a1, a3, a4, a5, a6, a7, a8);
      var t' := Node(Node(Leaf, a3, Node(Leaf, a4, Leaf, 1), 2), a5, t.right, 4);
      && Remove(t, a1) == Done(t')
      && Remove(t', a4) == Thrown(MissingChild, Node(Node(Leaf, a3, Leaf, 1), a5, t.right, 4))
  {
    var t := Unbalanced(a1, a3, a4, a5, a6, a7, a8);
    var four := Node(Leaf, a4, Leaf, 1);
    assert H(Leaf) == 0 && Max(0, 0) == 0;
    assert Remove(Node(Leaf, a1, Leaf, 1), a1) == Done(Leaf);
    var n3 := Node(Leaf, a3, four, 2);
    assert Rotatable(n3) && FixBalance(n3) == n3;
    assert Remove(t.left, a1) == Done(n3);
    var t' := Node(n3, a5, t.right, 4);
    assert Rotatable(t') && FixBalance(t') == t';
    assert Remove(t, a1) == Done(t');
    assert Remove(four, a4) == Done(Leaf);
    var three := Node(Leaf, a3, Leaf, 1);
    assert Rotatable(three) && FixBalance(three) == three;
    assert Remove(n3, a4) == Done(three);
    var s := Node(three, a5, t.right, 4);
    assert UpdateHeight(s) == s;
    assert BalanceFactor(s) == -2 && BalanceFactor(t.right) == -2 && t.right.left.Leaf?;
    assert Remove(t', a4) == Thrown(MissingChild, s);
  }
}

module AvlContainer {
  import opened Failures
  import Avl

  /** The library's tree object: the root of the search tree, rebalanced by
      the library's rules. A removal can leave it out of balance, and on an
      unbalanced tree a rebalancing can throw MissingChild part-way; the
      object then keeps its nodes as the throw left them, which is still an
      ordered tree. */
  class AvlTree {
    var root: Avl.Tree

    ghost predicate Valid()
      reads this
    {
      Avl.Ordered(root)
    }

    /** The elements the tree holds. */
    ghost function Contents(): set<int>
      reads this
    {
      Avl.Elems(root)
    }

    constructor ()
      ensures Valid() && Contents() == {} && Avl.HeightsOk(root) && Avl.Balanced(root)
    {
      root := Avl.Leaf;
    }

    /** Inserts `v`. A duplicate throws DuplicateValue with the tree left as
        it was; a rebalancing that meets a missing child throws MissingChild
        with `v` already in place. On a balanced tree with correct heights
        only the duplicate can happen, and balance is kept. */
    method Add(v: int) returns (outcome: Result<()>)
      requires Valid()
      modifies this
      ensures Valid()
      ensures outcome.Err? && outcome.error == DuplicateValue <==> v in old(Contents())
      ensures outcome.Err? ==> outcome.error in {DuplicateValue, MissingChild}
      ensures outcome.Err? && outcome.error == DuplicateValue ==> root == old(root)
      ensures !(outcome.Err? && outcome.error == DuplicateValue) ==> Contents() == old(Contents()) + {v}
      ensures old(Avl.HeightsOk(root)) && outcome.Ok? ==> Avl.HeightsOk(root)
      ensures old(Avl.HeightsOk(root) && Avl.Balanced(root)) ==>
                && (outcome.Ok? || outcome.error == DuplicateValue)
                && Avl.HeightsOk(root) && Avl.Balanced(root)
    {
      Avl.AddCorrect(root, v);
      if Avl.HeightsOk(root) {
        Avl.AddKeepsHeights(root, v);
        if Avl.Balanced(root) {
          Avl.AddBalanced(root, v);
        }
      }
      match Avl.Add(root, v)
      case Done(t) =>
        root := t;
        outcome := Ok(());
      case Thrown(e, s) =>
        root := s;
        outcome := Err(e);
    }

    /** Removes `v` if it is present. On a balanced tree with correct heights
        this always completes, though the result can be out of balance; on
        an unbalanced tree it can throw MissingChild, leaving the nodes as
        the throw found them. */
    method Remove(v: int) returns (outcome: Result<()>)
      requires Valid()
      modifies this
      ensures Valid()
      ensures outcome.Ok? ==> Contents() == old(Contents()) - {v}
      ensures outcome.Err? ==> outcome.error == MissingChild && Contents() <= old(Contents())
      ensures old(Avl.HeightsOk(root)) && outcome.Ok? ==> Avl.HeightsOk(root)
      ensures old(Avl.HeightsOk(root) && Avl.Balanced(root)) ==> outcome.Ok?
      ensures old(Avl.HeightsOk(root) && Avl.Balanced(root)) && v !in old(Contents()) ==> root == old(root)
    {
      Avl.RemoveCorrect(root, v);
      if Avl.HeightsOk(root) {
        Avl.RemoveKeepsHeights(root, v);
        if Avl.Balanced(root) {
          Avl.RemoveOnBalanced(root, v);
          if v !in Avl.Elems(root) {
            Avl.RemoveAbsent(root, v);
          }
        }
      }
      match Avl.Remove(root, v)
      case Done(t) =>
        root := t;
        outcome := Ok(());
      case Thrown(e, s) =>
        root := s;
        outcome := Err(e);
    }

    /** Whether an element equal to `v` is stored. */
    method Contains(v: int) returns (found: bool)
      requires Valid()
      ensures found <==> v in Contents()
    {
      Avl.ContainsIffMember(root, v);
      found := Avl.Contains(root, v);
    }
  }

  /** The tree object with the textbook rebalancing on deletion
      (`Avl.RemoveFixed`): order, correct heights and balance are then an
      invariant of the object, and no operation throws MissingChild. */
  class BalancedAvlTree {
    var root: Avl.Tree

    ghost predicate Valid()
      reads this
    {
      Avl.Ordered(root) && Avl.HeightsOk(root) && Avl.Balanced(root)
    }

    /** The elements the tree holds. */
    ghost function Contents(): set<int>
      reads this
    {
      Avl.Elems(root)
    }

    constructor ()
      ensures Valid() && Contents() == {}
    {
      root := Avl.Leaf;
    }

    /** Inserts `v`; a duplicate is reported and the tree is left as it was. */
    method Add(v: int) returns (outcome: Result<()>)
      requires Valid()
      modifies this
      ensures Valid()
      ensures outcome.Err? <==> v in old(Contents())
      ensures outcome.Err? ==> outcome.error == DuplicateValue && root == old(root)
      ensures outcome.Ok? ==> Contents() == old(Contents()) + {v}
    {
      Avl.AddCorrect(root, v);
      Avl.AddBalanced(root, v);
      match Avl.Add(root, v)
      case Done(t) =>
        root := t;
        outcome := Ok(());
      case Thrown(e, s) =>
        root := s;
        outcome := Err(e);
    }

    /** Removes `v` if it is present. */
    method Remove(v: int)
      requires Valid()
      modifies this
      ensures Valid()
      ensures Contents() == old(Contents()) - {v}
      ensures v !in old(Contents()) ==> root == old(root)
    {
      Avl.RemoveFixedCorrect(root, v);
      if v !in Avl.Elems(root) {
        Avl.RemoveFixedAbsent(root, v);
      }
      root := Avl.RemoveFixed(root, v);
    }

    /** Whether an element equal to `v` is stored. */
    method Contains(v: int) returns (found: bool)
      requires Valid()
      ensures found <==> v in Contents()
    {
      Avl.ContainsIffMember(root, v);
      found := Avl.Contains(root, v);
    }
  }
}
