/** The tree as linked node objects: rotations relink parents and children in place. */
module AAMonoidTrees {
  import opened AATrees

  /** The way from a subtree up to the root. */
  datatype Ctx<!A(!new), !T(!new)> =
    | Top
    | InLeft(n: Node<A, T>, level: int, sib: Tree<A, T>, up: Ctx<A, T>)
    | InRight(n: Node<A, T>, level: int, sib: Tree<A, T>, up: Ctx<A, T>)

  /** The node one step up, with t on the side the way goes through. */
  ghost function Join<A(!new), T(!new)>(t: Tree<A, T>, c: Ctx<A, T>): Tree<A, T>
    requires !c.Top?
  {
    if c.InLeft? then Fork(c.n, c.level, t, c.sib) else Fork(c.n, c.level, c.sib, t)
  }

  ghost function Plug<A(!new), T(!new)>(t: Tree<A, T>, c: Ctx<A, T>): Tree<A, T>
    decreases c
  {
    if c.Top? then t else Plug(Join(t, c), c.up)
  }

  ghost function CtxNodes<A(!new), T(!new)>(c: Ctx<A, T>): set<Node<A, T>> {
    if c.Top? then {} else {c.n} + Nodes(c.sib) + CtxNodes(c.up)
  }

  /** The parent of the subtree. */
  ghost function CtxNode<A(!new), T(!new)>(c: Ctx<A, T>): Node?<A, T> {
    if c.Top? then null else c.n
  }

  ghost function CtxTop<A(!new), T(!new)>(c: Ctx<A, T>): set<Node<A, T>> {
    if c.Top? then {} else {c.n}
  }

  ghost predicate UniqueCtx<A(!new), T(!new)>(c: Ctx<A, T>) {
    c.Top? || (Unique(c.sib) && UniqueCtx(c.up) && c.n !in Nodes(c.sib) && c.n !in CtxNodes(c.up) && Nodes(c.sib) !! CtxNodes(c.up))
  }

  ghost predicate LeafAs<A(!new), T(!new)>(t: Tree<A, T>)
    requires t.Leaf?
    reads t.n`leftchild, t.n`rightchild, t.n`level, t.n`annotation, t.n`value
  {
    t.n.leftchild == null && t.n.rightchild == null && t.n.level == 1 && t.n.annotation == t.ann && t.n.value == t.val
  }

  /** A node linked to its children, its annotation aside. */
  ghost predicate ForkAs<A(!new), T(!new)>(t: Tree<A, T>)
    requires t.Fork?
    reads t.n`leftchild, t.n`rightchild, t.n`level, t.l.n`parent, t.r.n`parent
  {
    && t.n.leftchild == t.l.n && t.n.rightchild == t.r.n && t.n.level == t.level
    && t.l.n.parent == t.n && t.r.n.parent == t.n
  }

  /** The objects of t are linked as t says and annotated with products; the parent of its root is
      not part of this. */
  ghost predicate Inner<A(!new), T(!new)>(op: (A, A) -> A, t: Tree<A, T>)
    requires Unique(t)
    reads Nodes(t)`leftchild, Nodes(t)`rightchild, Nodes(t)`level, Nodes(t)`annotation, Nodes(t)`value, (Nodes(t) - {t.n})`parent
  {
    Parts(t);
    match t
    case Leaf(n, ann, val) => LeafAs(t)
    case Fork(n, level, l, r) => ForkAs(t) && n.annotation == Ann(op, t) && Inner(op, l) && Inner(op, r)
  }

  lemma {:induction false} Parts<A(!new), T(!new)>(t: Tree<A, T>)
    ensures t.n in Nodes(t)
    ensures t.Fork? ==> Nodes(t) == {t.n} + Nodes(t.l) + Nodes(t.r) && t.l.n in Nodes(t.l) && t.r.n in Nodes(t.r)
    ensures t.Fork? ==> (Unique(t) <==> Unique(t.l) && Unique(t.r) && Nodes(t.l) !! Nodes(t.r) && t.n !in Nodes(t.l) && t.n !in Nodes(t.r))
  {
    assert forall x: Tree<A, T> :: x.n in Nodes(x);
  }

  lemma {:induction false} LeafNodes<A(!new), T(!new)>(t: Tree<A, T>)
    ensures t.Leaf? ==> Nodes(t) == {t.n}
  {
  }

  /** The same for the surroundings of the subtree rooted at child; the annotations on the way up may
      be out of date. */
  ghost predicate CtxLinked<A(!new), T(!new)>(op: (A, A) -> A, c: Ctx<A, T>, child: Node<A, T>)
    requires UniqueCtx(c)
    reads CtxNodes(c)
  {
    CtxParts(c);
    c.Top? || (Parts(c.sib); CtxAs(c, child) && Inner(op, c.sib) && CtxLinked(op, c.up, c.n))
  }

  ghost predicate CtxAs<A(!new), T(!new)>(c: Ctx<A, T>, child: Node<A, T>)
    requires !c.Top?
    reads c.n, c.sib.n`parent
  {
    && (if c.InLeft? then c.n.leftchild == child && c.n.rightchild == c.sib.n
        else c.n.rightchild == child && c.n.leftchild == c.sib.n)
    && c.n.level == c.level && c.n.parent == CtxNode(c.up)
    && c.sib.n.parent == c.n
  }

  lemma {:induction false} CtxParts<A(!new), T(!new)>(c: Ctx<A, T>)
    ensures !c.Top? ==> CtxNodes(c) == {c.n} + Nodes(c.sib) + CtxNodes(c.up) && c.sib.n in Nodes(c.sib)
    ensures !c.Top? ==> (UniqueCtx(c) <==> Unique(c.sib) && UniqueCtx(c.up) && c.n !in Nodes(c.sib) && c.n !in CtxNodes(c.up)
                                           && Nodes(c.sib) !! CtxNodes(c.up))
    ensures CtxTop(c) <= CtxNodes(c) && (c.Top? ==> CtxNodes(c) == {})
    ensures CtxNode(c) != null ==> CtxNode(c) in CtxTop(c)
  {
    if !c.Top? { Parts(c.sib); }
  }


  // -------------------------------------------------------------------------
  // One node at a time
  // -------------------------------------------------------------------------

  lemma {:induction false} Unfold<A(!new), T(!new)>(op: (A, A) -> A, t: Tree<A, T>)
    requires Unique(t) && Inner(op, t)
    ensures t.n.annotation == Ann(op, t) && t.n.level == Level(t)
    ensures if t.Leaf? then LeafAs(t) else ForkAs(t) && Unique(t.l) && Unique(t.r) && Inner(op, t.l) && Inner(op, t.r)
    ensures t.n.leftchild == null <==> t.Leaf?
    ensures t.n.rightchild == null <==> t.Leaf?
  {
  }

  lemma {:induction false} Fold<A(!new), T(!new)>(op: (A, A) -> A, t: Tree<A, T>)
    requires Unique(t) && t.Fork? && ForkAs(t) && t.n.annotation == Ann(op, t)
    requires Unique(t.l) && Unique(t.r) && Inner(op, t.l) && Inner(op, t.r)
    ensures Inner(op, t)
  {
  }

  lemma {:induction false} CtxUnfold<A(!new), T(!new)>(op: (A, A) -> A, c: Ctx<A, T>, child: Node<A, T>)
    requires UniqueCtx(c) && CtxLinked(op, c, child)
    ensures !c.Top? ==> CtxAs(c, child) && Unique(c.sib) && Inner(op, c.sib) && UniqueCtx(c.up) && CtxLinked(op, c.up, c.n)
  {
  }

  lemma {:induction false} CtxFold<A(!new), T(!new)>(op: (A, A) -> A, c: Ctx<A, T>, child: Node<A, T>)
    requires UniqueCtx(c)
    requires !c.Top? ==> CtxAs(c, child) && Unique(c.sib) && Inner(op, c.sib) && UniqueCtx(c.up) && CtxLinked(op, c.up, c.n)
    ensures CtxLinked(op, c, child)
  {
  }

  lemma {:induction false} AnnFork<A(!new), T(!new)>(op: (A, A) -> A, n: Node<A, T>, k: int, l: Tree<A, T>, r: Tree<A, T>)
    ensures Ann(op, Fork(n, k, l, r)) == op(Ann(op, l), Ann(op, r))
  {
  }

  lemma {:induction false} AnnRotates<A(!new), T(!new)>(op: (A, A) -> A, p: Node<A, T>, q: Node<A, T>, i: int, j: int, i': int, j': int,
                                     a: Tree<A, T>, b: Tree<A, T>, c: Tree<A, T>)
    requires Associative(op)
    ensures Ann(op, Fork(p, i, Fork(q, j, a, b), c)) == Ann(op, Fork(q, j', a, Fork(p, i', b, c)))
  {
    AnnFork(op, p, i, Fork(q, j, a, b), c);
    AnnFork(op, q, j, a, b);
    AnnFork(op, q, j', a, Fork(p, i', b, c));
    AnnFork(op, p, i', b, c);
  }

  // -------------------------------------------------------------------------
  // Rotations
  // -------------------------------------------------------------------------

  ghost function ParentOf<A(!new), T(!new)>(n: Node<A, T>): set<Node<A, T>>
    reads n
  {
    if n.parent == null then {} else {n.parent}
  }

  /** Below the parent of old, top takes the place of old. */
  twostate predicate Replaced<A(!new), T(!new)>(p: Node?<A, T>, node: Node<A, T>, new top: Node<A, T>)
    reads p
  {
    p != null ==>
      && p.leftchild == (if old(p.leftchild) == node then top else old(p.leftchild))
      && p.rightchild == (if old(p.leftchild) == node then old(p.rightchild) else top)
  }

  /** The links of a right rotation, as `skew` makes it. */
  method RaiseLeft<A(!new), T(!new)>(op: (A, A) -> A, node: Node<A, T>, left: Node<A, T>)
    requires node.leftchild == left && left != node
    requires left.rightchild != null && left.rightchild != node && left.rightchild != left && node.rightchild != null
    requires node.rightchild != left && node.rightchild != node
    requires node.parent != null ==>
      && node.parent != node && node.parent != left && node.parent != left.rightchild
      && (node.parent.leftchild == node || node.parent.rightchild == node)
    modifies node`leftchild, node`parent, node`annotation, left`rightchild, left`parent, left`annotation, left.rightchild`parent
    modifies ParentOf(node)`leftchild, ParentOf(node)`rightchild
    ensures node.leftchild == old(left.rightchild) && node.leftchild.parent == node
    ensures left.rightchild == node && node.parent == left && left.parent == old(node.parent)
    ensures left.annotation == old(node.annotation)
    ensures node.annotation == op(old(left.rightchild.annotation), old(node.rightchild.annotation))
    ensures Replaced(old(node.parent), node, left)
  {
    node.leftchild := left.rightchild;
    if node.leftchild != null {
      node.leftchild.parent := node;
    }
    left.rightchild := node;
    left.parent := node.parent;
    node.parent := left;
    if left.parent != null {
      if left.parent.leftchild == node {
        left.parent.leftchild := left;
      } else {
        assert left.parent.rightchild == node;
        left.parent.rightchild := left;
      }
    }
    left.annotation := node.annotation;
    node.annotation := op(node.leftchild.annotation, node.rightchild.annotation);
  }

  /** A subtree in its place: the objects above and below are linked and none occurs twice. */
  ghost predicate Placed<A(!new), T(!new)>(op: (A, A) -> A, t: Tree<A, T>, c: Ctx<A, T>)
    reads Nodes(t), CtxNodes(c)
  {
    Parts(t);
    Unique(t) && UniqueCtx(c) && Nodes(t) !! CtxNodes(c)
    && Inner(op, t) && t.n.parent == CtxNode(c) && CtxLinked(op, c, t.n)
  }

  /** `skew`: turns a left child on the same level into the top. */
  method SkewNode<A(!new), T(!new)>(op: (A, A) -> A, node: Node<A, T>, ghost t: Tree<A, T>, ghost c: Ctx<A, T>)
    returns (top: Node<A, T>)
    requires Associative(op) && node == t.n && Placed(op, t, c)
    requires t.Fork? && t.l.Leaf? ==> t.level != 1
    modifies Nodes(t), CtxTop(c)`leftchild, CtxTop(c)`rightchild
    ensures top == Skew(t).n && Placed(op, Skew(t), c)
  {
    hide Inner, CtxLinked, Nodes, Unique, UniqueCtx, CtxNodes, Ann;
    assert allocated(Nodes(t)) && allocated(CtxNodes(c));
    Unfold(op, t);
    Parts(t);
    CtxParts(c);
    SkewKeeps(t);
    var left := node.leftchild;
    if left != null {
      Unfold(op, t.l);
      Parts(t.l);
      if node.level == left.level {
        ghost var a, b, r := t.l.l, t.l.r, t.r;
        Parts(a);
        Parts(b);
        Parts(r);
        Unfold(op, b);
        Unfold(op, r);
        CtxUnfold(op, c, node);
        assert ParentOf(node) == CtxTop(c);
        RaiseLeft(op, node, left);
        ghost var low := Fork(node, t.level, b, r);
        Parts(low);
        Parts(Skew(t));
        AnnFork(op, node, t.level, b, r);
        Fold(op, low);
        AnnRotates(op, node, left, t.level, t.l.level, t.level, t.l.level, a, b, r);
        Fold(op, Skew(t));
        CtxFold(op, c, left);
        top := left;
        return;
      }
    }
    top := node;
  }

  /** The links and the level of a left rotation, as `split` makes it. */
  method RaiseRight<A(!new), T(!new)>(op: (A, A) -> A, node: Node<A, T>, right: Node<A, T>)
    requires node.rightchild == right && right != node
    requires right.leftchild != null && right.leftchild != node && right.leftchild != right && node.leftchild != null
    requires node.leftchild != right && node.leftchild != node
    requires node.parent != null ==>
      && node.parent != node && node.parent != right && node.parent != right.leftchild
      && (node.parent.leftchild == node || node.parent.rightchild == node)
    modifies node`rightchild, node`parent, node`annotation, right`leftchild, right`parent, right`annotation, right`level
    modifies right.leftchild`parent, ParentOf(node)`leftchild, ParentOf(node)`rightchild
    ensures node.rightchild == old(right.leftchild) && node.rightchild.parent == node
    ensures right.leftchild == node && node.parent == right && right.parent == old(node.parent)
    ensures right.level == old(right.level) + 1
    ensures right.annotation == old(node.annotation)
    ensures node.annotation == op(old(node.leftchild.annotation), old(right.leftchild.annotation))
    ensures Replaced(old(node.parent), node, right)
  {
    node.rightchild := right.leftchild;
    node.rightchild.parent := node;
    right.leftchild := node;
    right.parent := node.parent;
    node.parent := right;
    right.level := right.level + 1;
    if right.parent != null {
      if right.parent.leftchild == node {
        right.parent.leftchild := right;
      } else {
        assert right.parent.rightchild == node;
        right.parent.rightchild := right;
      }
    }
    right.annotation := node.annotation;
    node.annotation := op(node.leftchild.annotation, node.rightchild.annotation);
  }

  /** `split`: turns a right child into the top, one level up, if its right child is level with node. */
  method SplitNode<A(!new), T(!new)>(op: (A, A) -> A, node: Node<A, T>, ghost t: Tree<A, T>, ghost c: Ctx<A, T>)
    returns (top: Node<A, T>)
    requires Associative(op) && node == t.n && Placed(op, t, c)
    modifies Nodes(t), CtxTop(c)`leftchild, CtxTop(c)`rightchild
    ensures top == Split(t).n && Placed(op, Split(t), c)
  {
    hide Inner, CtxLinked, Nodes, Unique, UniqueCtx, CtxNodes, Ann;
    assert allocated(Nodes(t)) && allocated(CtxNodes(c));
    Unfold(op, t);
    Parts(t);
    CtxParts(c);
    SplitKeeps(t);
    var right := node.rightchild;
    if right != null {
      Unfold(op, t.r);
      Parts(t.r);
      if right.rightchild != null {
        ghost var l, a, b := t.l, t.r.l, t.r.r;
        Unfold(op, b);
        if node.level == right.rightchild.level {
          Parts(a);
          Parts(b);
          Parts(l);
          Unfold(op, a);
          Unfold(op, l);
          CtxUnfold(op, c, node);
          assert ParentOf(node) == CtxTop(c);
          RaiseRight(op, node, right);
          ghost var low := Fork(node, t.level, l, a);
          Parts(low);
          Parts(Split(t));
          AnnFork(op, node, t.level, l, a);
          Fold(op, low);
          AnnRotates(op, right, node, t.r.level + 1, t.level, t.r.level, t.level, l, a, b);
          Fold(op, Split(t));
          CtxFold(op, c, right);
          top := right;
          return;
        }
      }
    }
    top := node;
  }

  /** Every internal node is above the leaves' level. */
  ghost predicate Tall<A(!new), T(!new)>(t: Tree<A, T>) {
    t.Fork? ==> t.level >= 2 && Tall(t.l) && Tall(t.r)
  }

  ghost predicate TallCtx<A(!new), T(!new)>(c: Ctx<A, T>) {
    c.Top? || (c.level >= 2 && Tall(c.sib) && TallCtx(c.up))
  }

  lemma {:induction false} TallFork<A(!new), T(!new)>(t: Tree<A, T>)
    ensures Tall(t) ==> Level(t) >= 1
    ensures t.Fork? ==> (Tall(t) <==> t.level >= 2 && Tall(t.l) && Tall(t.r))
  {
  }

  /** `decrease_level`. */
  method DecreaseLevel<A(!new), T(!new)>(op: (A, A) -> A, node: Node<A, T>, ghost t: Tree<A, T>, ghost c: Ctx<A, T>)
    returns (changed: bool)
    requires node == t.n && t.Fork? && Placed(op, t, c) && Tall(t)
    modifies Nodes(t)`level
    ensures Placed(op, Decreased(t), c) && Decreased(t).n == node && Tall(Decreased(t))
    ensures changed <==> Decreased(t) != t
  {
    hide Inner, CtxLinked, Nodes, Unique, UniqueCtx, CtxNodes, Ann, Tall;
    assert allocated(Nodes(t)) && allocated(CtxNodes(c));
    Unfold(op, t);
    Parts(t);
    Unfold(op, t.l);
    Unfold(op, t.r);
    Parts(t.l);
    Parts(t.r);
    TallFork(t);
    TallFork(t.l);
    TallFork(t.r);
    AnnFork(op, node, t.level, t.l, t.r);
    var target := (if node.leftchild.level < node.rightchild.level then node.leftchild.level else node.rightchild.level) + 1;
    ghost var d := Decreased(t);
    if target < node.level {
      node.level := target;
      if target < node.rightchild.level {
        node.rightchild.level := target;
        AnnFork(op, t.r.n, t.r.level, t.r.l, t.r.r);
        AnnFork(op, t.r.n, target, t.r.l, t.r.r);
        Parts(t.r.l);
        Parts(t.r.r);
        Parts(d.r);
        TallFork(d.r);
        Fold(op, d.r);
      }
      Parts(d);
      TallFork(d);
      AnnFork(op, node, target, d.l, d.r);
      Fold(op, d);
      return true;
    }
    return false;
  }

  // -------------------------------------------------------------------------
  // Moving the focus
  // -------------------------------------------------------------------------

  /** Placed, but for the annotation of the root. */
  ghost predicate Unsettled<A(!new), T(!new)>(op: (A, A) -> A, t: Tree<A, T>, c: Ctx<A, T>)
    reads Nodes(t), CtxNodes(c)
  {
    Parts(t);
    t.Fork? && Unique(t) && UniqueCtx(c) && Nodes(t) !! CtxNodes(c)
    && ForkAs(t) && Inner(op, t.l) && Inner(op, t.r) && t.n.parent == CtxNode(c) && CtxLinked(op, c, t.n)
  }

  lemma {:induction false} GoUp<A(!new), T(!new)>(op: (A, A) -> A, t: Tree<A, T>, c: Ctx<A, T>)
    requires Placed(op, t, c) && !c.Top?
    ensures Unsettled(op, Join(t, c), c.up)
    ensures Nodes(Join(t, c)) + CtxNodes(c.up) == Nodes(t) + CtxNodes(c)
  {
    hide Inner, CtxLinked, Nodes, Unique, UniqueCtx, CtxNodes, Ann;
    Parts(t);
    CtxParts(c);
    CtxUnfold(op, c, t.n);
    Parts(Join(t, c));
  }

  lemma {:induction false} Settle<A(!new), T(!new)>(op: (A, A) -> A, t: Tree<A, T>, c: Ctx<A, T>)
    requires Unsettled(op, t, c) && t.n.annotation == Ann(op, t)
    ensures Placed(op, t, c)
  {
    hide CtxLinked, Nodes, Unique, UniqueCtx, CtxNodes, Ann;
    Parts(t);
  }

  lemma {:induction false} GoDown<A(!new), T(!new)>(op: (A, A) -> A, t: Tree<A, T>, c: Ctx<A, T>)
    requires Placed(op, t, c) && t.Fork?
    ensures Placed(op, t.l, InLeft(t.n, t.level, t.r, c)) && Placed(op, t.r, InRight(t.n, t.level, t.l, c))
    ensures Nodes(t.l) + CtxNodes(InLeft(t.n, t.level, t.r, c)) == Nodes(t) + CtxNodes(c)
    ensures Nodes(t.r) + CtxNodes(InRight(t.n, t.level, t.l, c)) == Nodes(t) + CtxNodes(c)
  {
    hide Inner, CtxLinked, Nodes, Unique, UniqueCtx, CtxNodes, Ann;
    Unfold(op, t);
    Parts(t);
    CtxParts(c);
    var x, y := InLeft(t.n, t.level, t.r, c), InRight(t.n, t.level, t.l, c);
    CtxParts(x);
    CtxParts(y);
    CtxFold(op, x, t.l.n);
    CtxFold(op, y, t.r.n);
  }

  /** Every node of a tree is the root of a subtree in its place. */
  lemma {:induction false} Locate<A(!new), T(!new)>(op: (A, A) -> A, t: Tree<A, T>, c: Ctx<A, T>, x: Node<A, T>)
    returns (s: Tree<A, T>, d: Ctx<A, T>)
    requires Placed(op, t, c) && x in Nodes(t)
    ensures s.n == x && Placed(op, s, d) && Plug(s, d) == Plug(t, c)
    ensures Nodes(s) + CtxNodes(d) == Nodes(t) + CtxNodes(c)
    decreases t
  {
    hide Placed, Inner, CtxLinked, Nodes, Unique, UniqueCtx, CtxNodes, Ann;
    Parts(t);
    LeafNodes(t);
    if x == t.n {
      s, d := t, c;
    } else {
      GoDown(op, t, c);
      if x in Nodes(t.l) {
        s, d := Locate(op, t.l, InLeft(t.n, t.level, t.r, c), x);
      } else {
        s, d := Locate(op, t.r, InRight(t.n, t.level, t.l, c), x);
      }
    }
  }

  // -------------------------------------------------------------------------
  // One step of the way up
  // -------------------------------------------------------------------------

  lemma {:induction false} TallSkew<A(!new), T(!new)>(t: Tree<A, T>)
    requires Tall(t)
    ensures Tall(Skew(t)) && Tall(Split(t))
  {
  }

  /** The right child is replaced by a rotated one. */
  lemma {:induction false} Rerooted<A(!new), T(!new)>(op: (A, A) -> A, t: Tree<A, T>, c: Ctx<A, T>, r: Tree<A, T>)
    requires t.Fork? && Placed(op, r, InRight(t.n, t.level, t.l, c))
    requires t.n.annotation == Ann(op, t) && Ann(op, r) == Ann(op, t.r)
    ensures Placed(op, t.(r := r), c)
  {
    hide Inner, CtxLinked, Nodes, Unique, UniqueCtx, CtxNodes, Ann;
    GoUp(op, r, InRight(t.n, t.level, t.l, c));
    AnnFork(op, t.n, t.level, t.l, r);
    AnnFork(op, t.n, t.level, t.l, t.r);
    Settle(op, t.(r := r), c);
  }

  lemma {:induction false} AnnSkew<A(!new), T(!new)>(op: (A, A) -> A, t: Tree<A, T>)
    requires Associative(op)
    ensures Ann(op, Skew(t)) == Ann(op, t) && Ann(op, Split(t)) == Ann(op, t)
  {
    hide Ann;
    if t.Fork? && t.l.Fork? && t.level == t.l.level {
      AnnRotates(op, t.n, t.l.n, t.level, t.l.level, t.level, t.l.level, t.l.l, t.l.r, t.r);
    }
    if t.Fork? && t.r.Fork? && t.level == Level(t.r.r) {
      AnnRotates(op, t.r.n, t.n, t.r.level + 1, t.level, t.r.level, t.level, t.l, t.r.l, t.r.r);
    }
  }

  /** The link that the rotation has already made. */
  method SetRight<A(!new), T(!new)>(op: (A, A) -> A, node: Node<A, T>, top: Node<A, T>, ghost t: Tree<A, T>, ghost c: Ctx<A, T>)
    requires c.InRight? && node == c.n && top == t.n && Placed(op, t, c)
    modifies node`rightchild
    ensures Placed(op, t, c)
  {
    hide Inner, CtxLinked, Nodes, Unique, UniqueCtx, CtxNodes, Ann;
    assert allocated(Nodes(t)) && allocated(CtxNodes(c));
    CtxParts(c);
    CtxUnfold(op, c, top);
    node.rightchild := top;
    CtxFold(op, c, top);
  }

  /** `node.rightchild = skew(node.rightchild)`. */
  method SkewRight<A(!new), T(!new)>(op: (A, A) -> A, node: Node<A, T>, ghost t: Tree<A, T>, ghost c: Ctx<A, T>)
    requires Associative(op) && node == t.n && t.Fork? && Placed(op, t, c) && Tall(t)
    modifies Nodes(t)
    ensures Placed(op, t.(r := Skew(t.r)), c) && Tall(t.(r := Skew(t.r)))
  {
    hide Inner, CtxLinked, Nodes, Unique, UniqueCtx, CtxNodes, Ann, Skew, Tall;
    assert allocated(Nodes(t)) && allocated(CtxNodes(c));
    TallFork(t);
    TallFork(t.r);
    TallSkew(t.r);
    Parts(t);
    Unfold(op, t);
    GoDown(op, t, c);
    AnnSkew(op, t.r);
    ghost var x := InRight(t.n, t.level, t.l, c);
    assert CtxTop(x) == {node};
    var top := SkewNode(op, node.rightchild, t.r, x);
    SetRight(op, node, top, Skew(t.r), x);
    Rerooted(op, t, c, Skew(t.r));
    TallFork(t.(r := Skew(t.r)));
  }

  /** `node.rightchild = split(node.rightchild)`. */
  method SplitRight<A(!new), T(!new)>(op: (A, A) -> A, node: Node<A, T>, ghost t: Tree<A, T>, ghost c: Ctx<A, T>)
    requires Associative(op) && node == t.n && t.Fork? && Placed(op, t, c)
    modifies Nodes(t)
    ensures Placed(op, t.(r := Split(t.r)), c)
  {
    hide Inner, CtxLinked, Nodes, Unique, UniqueCtx, CtxNodes, Ann, Split;
    assert allocated(Nodes(t)) && allocated(CtxNodes(c));
    Parts(t);
    Unfold(op, t);
    GoDown(op, t, c);
    AnnSkew(op, t.r);
    ghost var x := InRight(t.n, t.level, t.l, c);
    assert CtxTop(x) == {node};
    var top := SplitNode(op, node.rightchild, t.r, x);
    SetRight(op, node, top, Split(t.r), x);
    Rerooted(op, t, c, Split(t.r));
  }

  /** One turn of the loop of `_update_add`. */
  method AddStep<A(!new), T(!new)>(op: (A, A) -> A, node: Node<A, T>, ghost t: Tree<A, T>, ghost c: Ctx<A, T>)
    returns (top: Node<A, T>)
    requires Associative(op) && node == t.n && Unsettled(op, t, c) && Tall(t)
    modifies Nodes(t), CtxTop(c)`leftchild, CtxTop(c)`rightchild
    ensures top == AddFix(t).n && Placed(op, AddFix(t), c) && Nodes(AddFix(t)) == Nodes(t)
  {
    hide Inner, CtxLinked, Nodes, Unique, UniqueCtx, CtxNodes, Ann, Skew, Split;
    assert allocated(Nodes(t)) && allocated(CtxNodes(c));
    Parts(t);
    Annotate(op, node, t, c);
    SkewKeeps(t);
    SplitKeeps(Skew(t));
    top := SkewNode(op, node, t, c);
    top := SplitNode(op, top, Skew(t), c);
  }

  /** `node.annotation = self.op(node.leftchild.annotation, node.rightchild.annotation)`. */
  method Annotate<A(!new), T(!new)>(op: (A, A) -> A, node: Node<A, T>, ghost t: Tree<A, T>, ghost c: Ctx<A, T>)
    requires node == t.n && Unsettled(op, t, c)
    modifies node`annotation
    ensures Placed(op, t, c)
  {
    hide Inner, CtxLinked, Nodes, Unique, UniqueCtx, CtxNodes, Ann;
    assert allocated(Nodes(t)) && allocated(CtxNodes(c));
    Parts(t);
    Unfold(op, t.l);
    Unfold(op, t.r);
    AnnFork(op, node, t.level, t.l, t.r);
    node.annotation := op(node.leftchild.annotation, node.rightchild.annotation);
    Settle(op, t, c);
  }

  lemma DecreasedKeeps<A(!new), T(!new)>(t: Tree<A, T>)
    requires t.Fork?
    ensures SameLeaves(t, Decreased(t))
  {
    UniqueFork(t);
    UniqueFork(Decreased(t));
  }

  lemma RightKeeps<A(!new), T(!new)>(t: Tree<A, T>, r: Tree<A, T>)
    requires t.Fork? && SameLeaves(t.r, r)
    ensures SameLeaves(t, t.(r := r))
  {
    UniqueFork(t);
    UniqueFork(t.(r := r));
  }

  lemma DelKeeps<A(!new), T(!new)>(t: Tree<A, T>)
    requires t.Fork?
    ensures SameLeaves(t, DelFix(t))
  {
    hide Nodes, Leaves, Unique, Skew, Split, Decreased;
    DecreasedKeeps(t);
    DelSkewKeeps(Decreased(t));
    DelSplitKeeps(DelSkew(Decreased(t)));
  }

  lemma DelSkewKeeps<A(!new), T(!new)>(t: Tree<A, T>)
    ensures SameLeaves(t, DelSkew(t))
  {
    hide Nodes, Leaves, Unique, Skew;
    SkewKeeps(t);
    var t1 := Skew(t);
    if t1.Fork? {
      var r1 := Skew(t1.r);
      SkewKeeps(t1.r);
      if r1.Fork? {
        SkewKeeps(r1.r);
        RightKeeps(r1, Skew(r1.r));
        RightKeeps(t1, r1.(r := Skew(r1.r)));
      } else {
        RightKeeps(t1, r1);
      }
    }
  }

  lemma DelSplitKeeps<A(!new), T(!new)>(t: Tree<A, T>)
    ensures SameLeaves(t, DelSplit(t))
  {
    hide Nodes, Leaves, Unique, Split;
    SplitKeeps(t);
    var t1 := Split(t);
    if t1.Fork? {
      SplitKeeps(t1.r);
      RightKeeps(t1, Split(t1.r));
    }
  }

  /** The three skews of one turn of `_update_del`. */
  method DelSkewStep<A(!new), T(!new)>(op: (A, A) -> A, node: Node<A, T>, ghost t: Tree<A, T>, ghost c: Ctx<A, T>)
    returns (top: Node<A, T>)
    requires Associative(op) && node == t.n && t.Fork? && Placed(op, t, c) && Tall(t)
    modifies Nodes(t), CtxTop(c)`leftchild, CtxTop(c)`rightchild
    ensures top == DelSkew(t).n && Placed(op, DelSkew(t), c) && DelSkew(t).Fork?
  {
    hide Inner, CtxLinked, Nodes, Unique, UniqueCtx, CtxNodes, Ann, Skew, Tall, Placed;
    assert allocated(Nodes(t)) && allocated(CtxNodes(c));
    TallFork(t);
    SkewKeeps(t);
    TallSkew(t);
    SkewFork(t);
    top := SkewNode(op, node, t, c);
    ghost var t1 := Skew(t);
    TallFork(t1);
    SkewKeeps(t1.r);
    TallSkew(t1.r);
    RightKeeps(t1, Skew(t1.r));
    SkewRight(op, top, t1, c);
    ghost var t2 := t1.(r := Skew(t1.r));
    SkewRightRight(op, top, t2, c);
  }

  lemma SkewFork<A(!new), T(!new)>(t: Tree<A, T>)
    ensures Skew(t).Fork? <==> t.Fork?
    ensures Split(t).Fork? <==> t.Fork?
  {
  }

  method SkewRightRight<A(!new), T(!new)>(op: (A, A) -> A, node: Node<A, T>, ghost t: Tree<A, T>, ghost c: Ctx<A, T>)
    requires Associative(op) && node == t.n && t.Fork? && Placed(op, t, c) && Tall(t)
    modifies Nodes(t)
    ensures Placed(op, t.(r := if t.r.Fork? then t.r.(r := Skew(t.r.r)) else t.r), c)
  {
    hide Inner, CtxLinked, Nodes, Unique, UniqueCtx, CtxNodes, Ann, Skew, Tall;
    assert allocated(Nodes(t)) && allocated(CtxNodes(c));
    TallFork(t);
    TallFork(t.r);
    Parts(t);
    Unfold(op, t);
    Unfold(op, t.r);
    if node.rightchild.rightchild != null {
      GoDown(op, t, c);
      ghost var x := InRight(t.n, t.level, t.l, c);
      SkewRight(op, node.rightchild, t.r, x);
      AnnSkew(op, t.r.r);
      AnnFork(op, t.r.n, t.r.level, t.r.l, t.r.r);
      AnnFork(op, t.r.n, t.r.level, t.r.l, Skew(t.r.r));
      Rerooted(op, t, c, t.r.(r := Skew(t.r.r)));
    }
  }

  /** One turn of the loop of `_update_del`. */
  method DelStep<A(!new), T(!new)>(op: (A, A) -> A, node: Node<A, T>, ghost t: Tree<A, T>, ghost c: Ctx<A, T>)
    returns (top: Node<A, T>)
    requires Associative(op) && node == t.n && Unsettled(op, t, c) && Tall(t)
    modifies Nodes(t), CtxTop(c)`leftchild, CtxTop(c)`rightchild
    ensures top == DelFix(t).n && Placed(op, DelFix(t), c) && Nodes(DelFix(t)) == Nodes(t)
  {
    hide Inner, CtxLinked, Nodes, Unique, UniqueCtx, CtxNodes, Ann, Skew, Split, Tall, Placed, DelSkew;
    assert allocated(Nodes(t)) && allocated(CtxNodes(c));
    DecreasedKeeps(t);
    DelSkewKeeps(Decreased(t));
    DelKeeps(t);
    Parts(t);
    Annotate(op, node, t, c);
    var _ := DecreaseLevel(op, node, t, c);
    top := DelSkewStep(op, node, Decreased(t), c);
    ghost var s := DelSkew(Decreased(t));
    SplitKeeps(s);
    SkewFork(s);
    top := SplitNode(op, top, s, c);
    SplitRight(op, top, Split(s), c);
  }

  // -------------------------------------------------------------------------
  // The way up as functions of the tree
  // -------------------------------------------------------------------------

  /** What rebalancing after an insertion makes of the whole tree, s being settled. */
  ghost function AddUp<A(!new), T(!new)>(s: Tree<A, T>, c: Ctx<A, T>): Tree<A, T>
    decreases c
  {
    if c.Top? then s else AddUp(AddFix(Join(s, c)), c.up)
  }

  ghost function DelUp<A(!new), T(!new)>(s: Tree<A, T>, c: Ctx<A, T>): Tree<A, T>
    decreases c
  {
    if c.Top? then s else DelUp(DelFix(Join(s, c)), c.up)
  }

  ghost function Before<A(!new), T(!new)>(c: Ctx<A, T>): seq<Tree<A, T>> {
    if c.Top? then [] else Before(c.up) + if c.InRight? then Leaves(c.sib) else []
  }

  ghost function After<A(!new), T(!new)>(c: Ctx<A, T>): seq<Tree<A, T>> {
    if c.Top? then [] else (if c.InLeft? then Leaves(c.sib) else []) + After(c.up)
  }

  lemma Associates<X>(a: seq<X>, b: seq<X>, c: seq<X>, d: seq<X>)
    ensures a + (b + c) + d == a + b + (c + d) && (a + b) + c + d == a + (b + c) + d
  {
  }

  /** The row around a subtree, read one step up. */
  lemma {:induction false} JoinRow<A(!new), T(!new)>(t: Tree<A, T>, c: Ctx<A, T>)
    requires !c.Top?
    ensures Before(c.up) + Leaves(Join(t, c)) + After(c.up) == Before(c) + Leaves(t) + After(c)
    ensures |Leaves(Join(t, c))| == |Leaves(t)| + |Leaves(c.sib)|
  {
    if c.InLeft? {
      assert Leaves(Join(t, c)) == Leaves(t) + Leaves(c.sib);
      assert Before(c) == Before(c.up) && After(c) == Leaves(c.sib) + After(c.up);
      Associates(Before(c.up), Leaves(t), Leaves(c.sib), After(c.up));
    } else {
      assert Leaves(Join(t, c)) == Leaves(c.sib) + Leaves(t);
      assert Before(c) == Before(c.up) + Leaves(c.sib) && After(c) == After(c.up);
      Associates(Before(c.up), Leaves(c.sib), Leaves(t), After(c.up));
    }
  }

  lemma TopRow<A(!new), T(!new)>(s: seq<Tree<A, T>>)
    ensures Before<A, T>(Top) + s + After<A, T>(Top) == s
  {
  }

  lemma {:induction false} PlugLeaves<A(!new), T(!new)>(t: Tree<A, T>, c: Ctx<A, T>)
    ensures Leaves(Plug(t, c)) == Before(c) + Leaves(t) + After(c)
    decreases c
  {
    hide Leaves, Before, After;
    if c.Top? {
      TopRow(Leaves(t));
    } else {
      PlugLeaves(Join(t, c), c.up);
      JoinRow(t, c);
    }
  }

  lemma {:induction false} PlugNodes<A(!new), T(!new)>(t: Tree<A, T>, c: Ctx<A, T>)
    ensures Nodes(Plug(t, c)) == Nodes(t) + CtxNodes(c)
    decreases c
  {
    if !c.Top? {
      PlugNodes(Join(t, c), c.up);
      Parts(Join(t, c));
    }
  }

  /** The leaves before and after the subtree stay, whatever happens to it. */
  lemma {:induction false} AddUpLeaves<A(!new), T(!new)>(s: Tree<A, T>, c: Ctx<A, T>)
    ensures Leaves(AddUp(s, c)) == Before(c) + Leaves(s) + After(c)
    decreases c
  {
    hide Leaves, Before, After, AddFix, Nodes, Unique;
    if c.Top? {
      TopRow(Leaves(s));
    } else {
      AddKeeps(Join(s, c));
      AddUpLeaves(AddFix(Join(s, c)), c.up);
      JoinRow(s, c);
    }
  }

  lemma AddKeeps<A(!new), T(!new)>(t: Tree<A, T>)
    ensures SameLeaves(t, AddFix(t))
  {
    hide Nodes, Leaves, Unique, Skew, Split;
    SkewKeeps(t);
    SplitKeeps(Skew(t));
  }

  lemma {:induction false} DelUpLeaves<A(!new), T(!new)>(s: Tree<A, T>, c: Ctx<A, T>)
    ensures Leaves(DelUp(s, c)) == Before(c) + Leaves(s) + After(c)
    decreases c
  {
    hide Leaves, Before, After, DelFix, Nodes, Unique;
    if c.Top? {
      TopRow(Leaves(s));
    } else {
      DelKeeps(Join(s, c));
      DelUpLeaves(DelFix(Join(s, c)), c.up);
      JoinRow(s, c);
    }
  }

  lemma {:induction false} PlugAA<A(!new), T(!new)>(t: Tree<A, T>, c: Ctx<A, T>)
    requires AA(Plug(t, c))
    ensures AA(t) && TallCtx(c)
    decreases c
  {
    if !c.Top? {
      PlugAA(Join(t, c), c.up);
      AATall(c.sib);
    }
  }

  lemma {:induction false} AATall<A(!new), T(!new)>(t: Tree<A, T>)
    requires AA(t)
    ensures Tall(t)
  {
    if t.Fork? {
      AATall(t.l);
      AATall(t.r);
    }
  }

  /** A subtree that has grown leaves the whole tree in order. */
  lemma {:induction false} AddUpBalanced<A(!new), T(!new)>(t: Tree<A, T>, s: Tree<A, T>, c: Ctx<A, T>)
    requires AA(Plug(t, c)) && Grown(t, s)
    ensures AA(AddUp(s, c))
    decreases c
  {
    if !c.Top? {
      hide AA, AddFix, Grown;
      var u := Join(t, c);
      PlugAA(u, c.up);
      if c.InLeft? { GrownOnTheLeft(u, s); } else { GrownOnTheRight(u, s); }
      AddUpBalanced(u, AddFix(Join(s, c)), c.up);
    } else {
      hide AA;
    }
  }

  lemma {:induction false} DelUpBalanced<A(!new), T(!new)>(t: Tree<A, T>, s: Tree<A, T>, c: Ctx<A, T>)
    requires AA(Plug(t, c)) && Shrunk(t, s)
    ensures AA(DelUp(s, c))
    decreases c
  {
    if !c.Top? {
      hide AA, DelFix, Shrunk;
      var u := Join(t, c);
      PlugAA(u, c.up);
      if c.InLeft? { ShrunkOnTheLeft(u, s); } else { ShrunkOnTheRight(u, s); }
      DelUpBalanced(u, DelFix(Join(s, c)), c.up);
    } else {
      hide AA;
    }
  }

  lemma {:induction false} TallUp<A(!new), T(!new)>(t: Tree<A, T>, c: Ctx<A, T>)
    requires Tall(t) && TallCtx(c)
    ensures !c.Top? ==> Tall(Join(t, c)) && TallCtx(c.up)
  {
  }

  class AAMonoidTree<A(!new), T(!new)> {
    const op: (A, A) -> A
    var root: Node<A, T>
    ghost var tree: Tree<A, T>

    ghost predicate Valid()
      reads this, Nodes(tree)
    {
      Associative(op) && root == tree.n && Placed(op, tree, Top) && AA(tree)
    }

    /** A tree of one leaf. */
    constructor (op: (A, A) -> A, rootnode: Node<A, T>)
      requires Associative(op)
      requires rootnode.parent == null && rootnode.leftchild == null && rootnode.rightchild == null && rootnode.level == 1
      ensures Valid() && this.op == op && tree == Leaf(rootnode, rootnode.annotation, rootnode.value)
    {
      this.op := op;
      root := rootnode;
      tree := Leaf(rootnode, rootnode.annotation, rootnode.value);
    }

    /** `_update_add`: settles node and everything above it. */
    method UpdateAdd(start: Node<A, T>, ghost t0: Tree<A, T>, ghost c0: Ctx<A, T>)
      requires Associative(op) && start == t0.n && Unsettled(op, t0, c0) && Tall(t0.l) && Tall(t0.r) && TallCtx(c0)
      modifies this`root, Nodes(t0), CtxNodes(c0)
      ensures var s := AddUp(AddFix(Fork(t0.n, 2, t0.l, t0.r)), c0);
              root == s.n && Placed(op, s, Top) && Nodes(s) == Nodes(t0) + CtxNodes(c0)
    {
      hide Inner, CtxLinked, Nodes, Unique, UniqueCtx, CtxNodes, Ann, AddFix, Tall, TallCtx;
      assert allocated(Nodes(t0)) && allocated(CtxNodes(c0));
      var node: Node?<A, T> := start;
      Parts(t0);
      ghost var t, c := Fork(t0.n, 2, t0.l, t0.r), c0;
      Parts(t);
      TallFork(t);
      node.level := 2;
      ghost var all, goal := Nodes(t0) + CtxNodes(c0), AddUp(AddFix(t), c0);
      while node != null
        invariant node != null ==> node == t.n && Unsettled(op, t, c) && Tall(t) && TallCtx(c)
                                   && Nodes(t) + CtxNodes(c) == all && AddUp(AddFix(t), c) == goal
        invariant node == null ==> root == goal.n && Placed(op, goal, Top) && Nodes(goal) == all
        decreases node != null, c
      {
        CtxParts(c);
        var top := AddStep(op, node, t, c);
        ghost var s := AddFix(t);
        TallFix(t);
        TallUp(s, c);
        if top.parent == null {
          root := top;
        }
        if !c.Top? {
          GoUp(op, s, c);
          t, c := Join(s, c), c.up;
        }
        node := top.parent;
      }
    }
  
    /** `_split_link`: a new parent between node and its parent. */
    method SplitLink(node: Node<A, T>) returns (newparent: Node<A, T>)
      requires node.parent != null ==> node.parent != node && (node.parent.leftchild == node || node.parent.rightchild == node)
      modifies `root, node`parent, ParentOf(node)`leftchild, ParentOf(node)`rightchild
      ensures fresh(newparent) && newparent.parent == old(node.parent) && node.parent == newparent && newparent.level == 1
      ensures Replaced(old(node.parent), node, newparent)
    {
      newparent := new Node(node.annotation, node.value);
      newparent.parent := node.parent;
      if node.parent != null {
        if node.parent.leftchild == node {
          node.parent.leftchild := newparent;
        } else {
          assert node.parent.rightchild == node;
          node.parent.rightchild := newparent;
        }
      } else {
        root := newparent;
      }
      node.parent := newparent;
    }

    /** The links of `addleft`, before anything is rebalanced. */
    method LinkLeft(added: Node<A, T>, leaf: Node<A, T>, ghost s: Tree<A, T>, ghost c: Ctx<A, T>)
      returns (newparent: Node<A, T>)
      requires s.Leaf? && leaf == s.n && Placed(op, s, c)
      requires added !in Nodes(s) + CtxNodes(c) && added.leftchild == null && added.rightchild == null && added.level == 1
      modifies `root, leaf`parent, CtxTop(c)`leftchild, CtxTop(c)`rightchild, added`parent
      ensures newparent !in Nodes(s) + CtxNodes(c) && newparent != added && fresh(newparent)
      ensures Unsettled(op, Fork(newparent, 1, Leaf(added, added.annotation, added.value), s), c)
    {
      hide Inner, CtxLinked, Nodes, Unique, UniqueCtx, CtxNodes, Ann;
      assert allocated(Nodes(s)) && allocated(CtxNodes(c));
      LeafNodes(s);
      Unfold(op, s);
      CtxParts(c);
      CtxUnfold(op, c, leaf);
      assert ParentOf(leaf) == CtxTop(c);
      newparent := SplitLink(leaf);
      newparent.rightchild := leaf;
      newparent.leftchild := added;
      added.parent := newparent;
      ghost var l := Leaf(added, added.annotation, added.value);
      ghost var t := Fork(newparent, 1, l, s);
      LeafNodes(l);
      LeafIsUnique(l);
      Parts(t);
      LeafInner(op, l);
      CtxFold(op, c, newparent);
    }
  
    /** `addleft`: a new leaf to the left of an old one. i is the place of the old leaf in the row of
        leaves, which the new one takes. */
    method AddLeft(added: Node<A, T>, leaf: Node<A, T>) returns (ghost i: nat)
      requires Valid() && leaf in Nodes(tree) && leaf.leftchild == null
      requires added !in Nodes(tree) && added.leftchild == null && added.rightchild == null && added.level == 1
      modifies this, Nodes(tree), added
      ensures Valid() && added in Nodes(tree) && old(Nodes(tree)) <= Nodes(tree)
      ensures forall x :: x in Nodes(tree) && x != added && x !in old(Nodes(tree)) ==> fresh(x)
      ensures i < |old(Leaves(tree))| && old(Leaves(tree))[i].n == leaf
      ensures Leaves(tree) == Inserted(old(Leaves(tree)), i, Leaf(added, old(added.annotation), old(added.value)))
    {
      hide Inner, CtxLinked, Nodes, Unique, UniqueCtx, CtxNodes, Ann, Placed, Unsettled, AA, AddUp, Tall, TallCtx;
      hide Inserted;
      assert allocated(Nodes(tree));
      ghost var s, c := Locate(op, tree, Top, leaf);
      PlugNodes(s, c);
      LocatedLeaf(op, s, c);
      ghost var l := Leaf(added, added.annotation, added.value);
      Parts(s);
      CtxParts(c);
      LeafNodes(l);
      LeafNodes(s);
      var newparent := LinkLeft(added, leaf, s, c);
      ghost var t := Fork(newparent, 1, l, s);
      Parts(t);
      AddedLeaf(tree, t, s, c);
      UpdateAdd(newparent, t, c);
      PlugLeaves(s, c);
      i := |Before(c)|;
      tree := AddUp(AddFix(Fork(newparent, 2, l, s)), c);
    }
  
    /** The links of `addright`, before anything is rebalanced. */
    method LinkRight(added: Node<A, T>, leaf: Node<A, T>, ghost s: Tree<A, T>, ghost c: Ctx<A, T>)
      returns (newparent: Node<A, T>)
      requires s.Leaf? && leaf == s.n && Placed(op, s, c)
      requires added !in Nodes(s) + CtxNodes(c) && added.leftchild == null && added.rightchild == null && added.level == 1
      modifies `root, leaf`parent, CtxTop(c)`leftchild, CtxTop(c)`rightchild, added`parent
      ensures newparent !in Nodes(s) + CtxNodes(c) && newparent != added && fresh(newparent)
      ensures Unsettled(op, Fork(newparent, 1, s, Leaf(added, added.annotation, added.value)), c)
    {
      hide Inner, CtxLinked, Nodes, Unique, UniqueCtx, CtxNodes, Ann;
      assert allocated(Nodes(s)) && allocated(CtxNodes(c));
      LeafNodes(s);
      Unfold(op, s);
      CtxParts(c);
      CtxUnfold(op, c, leaf);
      assert ParentOf(leaf) == CtxTop(c);
      newparent := SplitLink(leaf);
      newparent.rightchild := added;
      newparent.leftchild := leaf;
      added.parent := newparent;
      ghost var l := Leaf(added, added.annotation, added.value);
      ghost var t := Fork(newparent, 1, s, l);
      LeafNodes(l);
      LeafIsUnique(l);
      Parts(t);
      LeafInner(op, l);
      CtxFold(op, c, newparent);
    }

    /** `addright`: a new leaf to the right of an old one. i is the place of the old leaf in the row of
        leaves; the new one goes right after it. */
    method AddRight(added: Node<A, T>, leaf: Node<A, T>) returns (ghost i: nat)
      requires Valid() && leaf in Nodes(tree) && leaf.leftchild == null
      requires added !in Nodes(tree) && added.leftchild == null && added.rightchild == null && added.level == 1
      modifies this, Nodes(tree), added
      ensures Valid() && added in Nodes(tree) && old(Nodes(tree)) <= Nodes(tree)
      ensures forall x :: x in Nodes(tree) && x != added && x !in old(Nodes(tree)) ==> fresh(x)
      ensures i < |old(Leaves(tree))| && old(Leaves(tree))[i].n == leaf
      ensures Leaves(tree) == Inserted(old(Leaves(tree)), i + 1, Leaf(added, old(added.annotation), old(added.value)))
    {
      hide Inner, CtxLinked, Nodes, Unique, UniqueCtx, CtxNodes, Ann, Placed, Unsettled, AA, AddUp, Tall, TallCtx;
      hide Inserted;
      assert allocated(Nodes(tree));
      ghost var s, c := Locate(op, tree, Top, leaf);
      PlugNodes(s, c);
      LocatedLeaf(op, s, c);
      ghost var l := Leaf(added, added.annotation, added.value);
      Parts(s);
      CtxParts(c);
      LeafNodes(l);
      LeafNodes(s);
      var newparent := LinkRight(added, leaf, s, c);
      ghost var t := Fork(newparent, 1, s, l);
      Parts(t);
      AddedLeafRight(tree, t, s, c);
      UpdateAdd(newparent, t, c);
      PlugLeaves(s, c);
      i := |Before(c)|;
      tree := AddUp(AddFix(Fork(newparent, 2, s, l)), c);
    }

    /** `_update_del`: settles node and everything above it. */
    method UpdateDel(start: Node<A, T>, ghost t0: Tree<A, T>, ghost c0: Ctx<A, T>)
      requires Associative(op) && start == t0.n && Unsettled(op, t0, c0) && Tall(t0) && TallCtx(c0)
      modifies this`root, Nodes(t0), CtxNodes(c0)
      ensures var s := DelUp(DelFix(t0), c0);
              root == s.n && Placed(op, s, Top) && Nodes(s) == Nodes(t0) + CtxNodes(c0)
    {
      hide Inner, CtxLinked, Nodes, Unique, UniqueCtx, CtxNodes, Ann, DelFix, Tall, TallCtx;
      assert allocated(Nodes(t0)) && allocated(CtxNodes(c0));
      var node: Node?<A, T> := start;
      ghost var t, c := t0, c0;
      ghost var all, goal := Nodes(t0) + CtxNodes(c0), DelUp(DelFix(t), c);
      while node != null
        invariant node != null ==> node == t.n && Unsettled(op, t, c) && Tall(t) && TallCtx(c)
                                   && Nodes(t) + CtxNodes(c) == all && DelUp(DelFix(t), c) == goal
        invariant node == null ==> root == goal.n && Placed(op, goal, Top) && Nodes(goal) == all
        decreases node != null, c
      {
        CtxParts(c);
        var top := DelStep(op, node, t, c);
        ghost var s := DelFix(t);
        TallDelFix(t);
        TallUp(s, c);
        if top.parent == null {
          root := top;
        }
        if !c.Top? {
          GoUp(op, s, c);
          t, c := Join(s, c), c.up;
        }
        node := top.parent;
      }
    }

    /** The links of `remove`: the sibling of the leaf takes the place of their parent. */
    method Bypass(leaf: Node<A, T>, ghost s: Tree<A, T>, ghost c: Ctx<A, T>) returns (gp: Node<A, T>)
      requires leaf == s.n && Placed(op, s, c) && !c.Top? && !c.up.Top?
      modifies CtxNodes(c)
      ensures gp == CtxNode(c.up)
      ensures Placed(op, c.sib, c.up) && Unsettled(op, Join(c.sib, c.up), c.up.up)
      ensures Nodes(Join(c.sib, c.up)) + CtxNodes(c.up.up) == Nodes(c.sib) + CtxNodes(c.up)
    {
      hide Inner, CtxLinked, Nodes, Unique, UniqueCtx, CtxNodes, Ann;
      assert allocated(Nodes(s)) && allocated(CtxNodes(c));
      Parts(s);
      CtxParts(c);
      CtxUnfold(op, c, leaf);
      var p := leaf.parent;
      var sibling;
      if p.leftchild == leaf {
        sibling := p.rightchild;
      } else {
        assert p.rightchild == leaf;
        sibling := p.leftchild;
      }
      CtxParts(c.up);
      CtxUnfold(op, c.up, p);
      gp := p.parent;
      Parts(c.sib);
      if gp.leftchild == p {
        gp.leftchild := sibling;
      } else if gp.rightchild == p {
        gp.rightchild := sibling;
      }
      sibling.parent := gp;
      CtxFold(op, c.up, sibling);
      GoUp(op, c.sib, c.up);
    }
  
    /** `remove`: takes a leaf out, provided its parent is not the root; otherwise the lookup of the
        grandparent's child fails before anything has changed. i is the place of the leaf. */
    method Remove(leaf: Node<A, T>) returns (ok: bool, ghost i: nat)
      requires Valid() && leaf in Nodes(tree) && leaf.leftchild == null
      modifies this, Nodes(tree)
      ensures Valid() && Nodes(tree) <= old(Nodes(tree))
      ensures ok <==> old(leaf.parent != null && leaf.parent != root)
      ensures ok ==> leaf !in Nodes(tree) && i < |old(Leaves(tree))| && old(Leaves(tree))[i].n == leaf
                     && Leaves(tree) == Without(old(Leaves(tree)), i)
      ensures !ok ==> tree == old(tree)
    {
      hide Inner, CtxLinked, Nodes, Unique, UniqueCtx, CtxNodes, Ann, Placed, Unsettled, AA, DelUp, Tall, TallCtx, DelFix;
      assert allocated(Nodes(tree));
      ghost var s, c := Locate(op, tree, Top, leaf);
      PlugNodes(s, c);
      LocatedLeaf(op, s, c);
      ParentIsRoot(op, root, tree, s, c);
      i := 0;
      CtxParts(c);
      Disjoint(op, s, c);
      if leaf.parent == null || leaf.parent.parent == null {
        return false, 0;
      }
      CtxParts(c.up);
      var gp := Bypass(leaf, s, c);
      RemovedLeaf(tree, s, c);
      ghost var t := Join(c.sib, c.up);
      UpdateDel(gp, t, c.up.up);
      i := |Before(c)|;
      tree := DelUp(DelFix(t), c.up.up);
      Parts(s);
      ok := true;
    }
  
    /** `change_annotation`, with the plain `_update`: no rebalancing. */
    method ChangeAnnotation(leaf: Node<A, T>, newann: A) returns (ghost i: nat)
      requires Valid() && leaf in Nodes(tree) && leaf.leftchild == null
      modifies `tree, Nodes(tree)`annotation
      ensures Valid() && Nodes(tree) == old(Nodes(tree))
      ensures i < |old(Leaves(tree))| && old(Leaves(tree))[i].n == leaf
      ensures Leaves(tree) == old(Leaves(tree))[i := Leaf(leaf, newann, old(leaf.value))]
    {
      hide Inner, CtxLinked, Nodes, Unique, UniqueCtx, CtxNodes, Ann, Placed, Unsettled, AA, Leaves;
      assert allocated(Nodes(tree));
      ghost var s, c := Locate(op, tree, Top, leaf);
      PlugNodes(s, c);
      LocatedLeaf(op, s, c);
      Parts(s);
      LeafValue(op, s, c);
      ghost var l := Leaf(leaf, newann, leaf.value);
      ReannotatedLeaf(tree, l, s, c);
      Reannotate(op, leaf, newann, s, c);
      ghost var goal := Plug(l, c);
      PlugNodes(l, c);
      LeafNodes(l);
      LeafNodes(s);
      LeafPlaced(op, l, c);
      var node := leaf.parent;
      ghost var t, d := l, c;
      if !d.Top? {
        GoUp(op, t, d);
        t, d := Join(t, d), d.up;
      }
      while node != null
        invariant tree == old(tree)
        invariant node != null ==> node == t.n && Unsettled(op, t, d) && Nodes(t) + CtxNodes(d) == Nodes(tree) && Plug(t, d) == goal
        invariant node == null ==> Placed(op, goal, Top)
        decreases node != null, d
      {
        CtxParts(d);
        Parts(t);
        Annotate(op, node, t, d);
        Settled(op, t, d);
        if !d.Top? {
          GoUp(op, t, d);
          t, d := Join(t, d), d.up;
        }
        node := node.parent;
      }
      RootStays(tree, goal, l, s, c);
      tree := goal;
      i := |Before(c)|;
    }
  
    /** `getnext`: the next leaf to the right that is not skipped, passing over whole subtrees. i is
        the place of the leaf in the row, j that of the result. */
    method GetNext(leaf: Node<A, T>, skip: A -> bool, ghost i: nat) returns (next: Node?<A, T>, ghost j: nat)
      requires Valid() && Skips(op, skip)
      requires i < |Leaves(tree)| && Leaves(tree)[i].n == leaf
      ensures Valid() && i < j <= |Leaves(tree)| && AllSkipped(skip, Leaves(tree), i + 1, j)
      ensures next == null <==> j == |Leaves(tree)|
      ensures next == null <==> AllSkipped(skip, Leaves(tree), i + 1, |Leaves(tree)|)
      ensures next != null ==> Leaves(tree)[j].n == next && Leaves(tree)[j].Leaf? && !skip(Leaves(tree)[j].ann)
    {
      hide Inner, CtxLinked, Nodes, Unique, UniqueCtx, CtxNodes, Ann, Placed, AA, Leaves, Before, After, AllSkipped, Plug;
      ghost var row := Leaves(tree);
      ghost var t, c := LocateLeaf(tree, Top, i);
      TopIsTop(tree);
      Opened();
      Focus(op, t, c);
      PlugLeaves(t, c);
      LeafLeaves(t);
      NoneSkipped(skip, row, i + 1);
      var node := leaf;
      while node.parent != null && (node.parent.rightchild == node || skip(node.parent.rightchild.annotation))
        invariant Valid() && Placed(op, tree, Top)
        invariant node == t.n && Plug(t, c) == tree && InPlace(op, t, c)
        invariant row == Before(c) + Leaves(t) + After(c)
        invariant |Before(c)| <= i < |Before(c)| + |Leaves(t)|
        invariant AllSkipped(skip, row, i + 1, |Before(c)| + |Leaves(t)|)
        decreases c
      {
        InPlaceParts(op, t, c);
        SkippedUp(op, skip, row, i + 1, t, c);
        node := node.parent;
        t, c := Join(t, c), c.up;
        Focus(op, t, c);
        PlugLeaves(t, c);
      }
      InPlaceParts(op, t, c);
      if node.parent != null && node.parent.leftchild == node {
        node := node.parent.rightchild;
        ghost var u, d := c.sib, InRight(c.n, c.level, t, c.up);
        Across(op, skip, t, c);
        next, j := LeftmostOf(node, skip, u, d, i);
        OneLeft(skip, row, i + 1, j);
      } else {
        AtTheEnd(t, c);
        next, j := null, |row|;
      }
    }

    /** The second half of `getnext`: down to the first leaf that is not skipped. */
    method LeftmostOf(start: Node<A, T>, skip: A -> bool, ghost t0: Tree<A, T>, ghost c0: Ctx<A, T>, ghost i: nat)
      returns (next: Node<A, T>, ghost j: nat)
      requires Valid() && Skips(op, skip) && start == t0.n && Plug(t0, c0) == tree && !skip(Ann(op, t0))
      requires |Before(c0)| <= |Leaves(tree)| && i < |Before(c0)| && AllSkipped(skip, Leaves(tree), i + 1, |Before(c0)|)
      ensures Valid() && i < j < |Leaves(tree)| && AllSkipped(skip, Leaves(tree), i + 1, j)
      ensures Leaves(tree)[j].n == next && Leaves(tree)[j].Leaf? && !skip(Leaves(tree)[j].ann)
    {
      hide *;
      Opened();
      ghost var row := Leaves(tree);
      ghost var t, c := t0, c0;
      next := start;
      Focus(op, t, c);
      PlugLeaves(t, c);
      while next.leftchild != null
        invariant Valid() && Placed(op, tree, Top)
        invariant next == t.n && Plug(t, c) == tree && InPlace(op, t, c) && !skip(Ann(op, t))
        invariant row == Before(c) + Leaves(t) + After(c)
        invariant i < |Before(c)| && AllSkipped(skip, row, i + 1, |Before(c)|)
        decreases t
      {
        InPlaceParts(op, t, c);
        StepDown(op, skip, row, i + 1, t, c);
        if skip(next.leftchild.annotation) {
          next := next.rightchild;
          t, c := t.r, InRight(t.n, t.level, t.l, c);
        } else {
          next := next.leftchild;
          t, c := t.l, InLeft(t.n, t.level, t.r, c);
        }
        Focus(op, t, c);
        PlugLeaves(t, c);
      }
      InPlaceParts(op, t, c);
      LeafLeaves(t);
      LeafAnn(op, t);
      j := |Before(c)|;
    }

    lemma Opened()
      requires Valid()
      ensures root == tree.n && Placed(op, tree, Top) && AA(tree) && Associative(op)
    {
    }
  }

  lemma {:induction false} TopIsTop<A(!new), T(!new)>(t: Tree<A, T>)
    ensures Plug(t, Top) == t && Before<A, T>(Top) == [] && After<A, T>(Top) == []
  {
  }

  lemma {:induction false} LeafAnn<A(!new), T(!new)>(op: (A, A) -> A, t: Tree<A, T>)
    requires t.Leaf?
    ensures Ann(op, t) == t.ann
  {
  }

  /** What can be seen from a node of a settled tree. */
  ghost predicate InPlace<A(!new), T(!new)>(op: (A, A) -> A, t: Tree<A, T>, c: Ctx<A, T>)
    reads t.n, if t.Fork? then {t.l.n, t.r.n} else {}, if c.Top? then {} else {c.n, c.sib.n}
  {
    && t.n.parent == CtxNode(c)
    && t.n.annotation == Ann(op, t)
    && (if t.Leaf? then LeafAs(t) else ForkAs(t) && t.l.n.annotation == Ann(op, t.l))
    && (!c.Top? ==> CtxAs(c, t.n) && t.n != c.sib.n && c.sib.n.annotation == Ann(op, c.sib))
  }

  lemma {:induction false} InPlaceParts<A(!new), T(!new)>(op: (A, A) -> A, t: Tree<A, T>, c: Ctx<A, T>)
    requires InPlace(op, t, c)
    ensures t.n.parent == CtxNode(c) && (CtxNode(c) == null <==> c.Top?) && t.n.annotation == Ann(op, t)
    ensures t.Leaf? ==> t.n.leftchild == null && t.n.rightchild == null && t.n.annotation == t.ann && t.n.value == t.val
    ensures t.Fork? ==> t.n.leftchild == t.l.n && t.n.rightchild == t.r.n && t.l.n.annotation == Ann(op, t.l)
    ensures !c.Top? ==> t.n.parent == c.n && t.n != c.sib.n && c.sib.n.annotation == Ann(op, c.sib)
    ensures c.InLeft? ==> c.n.leftchild == t.n && c.n.rightchild == c.sib.n
    ensures c.InRight? ==> c.n.leftchild == c.sib.n && c.n.rightchild == t.n
  {
    hide Ann;
  }

  /** Every subtree of a settled tree is settled, and so are its surroundings. */
  lemma {:induction false} Focus<A(!new), T(!new)>(op: (A, A) -> A, t: Tree<A, T>, c: Ctx<A, T>)
    requires Placed(op, Plug(t, c), Top)
    ensures Placed(op, t, c) && InPlace(op, t, c)
    decreases c
  {
    hide Inner, CtxLinked, Nodes, Unique, UniqueCtx, CtxNodes, Ann;
    if !c.Top? {
      Focus(op, Join(t, c), c.up);
      GoDown(op, Join(t, c), c.up);
      CtxUnfold(op, c, t.n);
      Unfold(op, c.sib);
      CtxParts(c);
    }
    Parts(t);
    Unfold(op, t);
    if t.Fork? {
      Unfold(op, t.l);
    }
  }

  /** The leaf at a place of the row, with its surroundings. */
  lemma {:induction false} LocateLeaf<A(!new), T(!new)>(t: Tree<A, T>, c: Ctx<A, T>, i: nat) returns (s: Tree<A, T>, d: Ctx<A, T>)
    requires i < |Leaves(t)|
    ensures s == Leaves(t)[i] && s.Leaf? && Plug(s, d) == Plug(t, c) && |Before(d)| == |Before(c)| + i
    decreases t
  {
    if t.Leaf? {
      s, d := t, c;
    } else if i < |Leaves(t.l)| {
      s, d := LocateLeaf(t.l, InLeft(t.n, t.level, t.r, c), i);
    } else {
      s, d := LocateLeaf(t.r, InRight(t.n, t.level, t.l, c), i - |Leaves(t.l)|);
    }
  }

  /** A leaf of a settled tree is a node of its own without children. */
  lemma {:induction false} LeafAt<A(!new), T(!new)>(op: (A, A) -> A, t: Tree<A, T>, i: nat)
    requires Placed(op, t, Top) && i < |Leaves(t)|
    ensures Leaves(t)[i].Leaf? && Leaves(t)[i].n in Nodes(t) && LeafAs(Leaves(t)[i])
  {
    hide *;
    var s, c := LocateLeaf(t, Top, i);
    TopIsTop(t);
    Focus(op, s, c);
    InPlaceLeaf(op, s, c);
    PlugNodes(s, c);
    Parts(s);
  }

  lemma InPlaceLeaf<A(!new), T(!new)>(op: (A, A) -> A, t: Tree<A, T>, c: Ctx<A, T>)
    requires InPlace(op, t, c) && t.Leaf?
    ensures LeafAs(t)
  {
  }

  /** A test that a node passes exactly when all its leaves do. */
  ghost predicate Skips<A(!new)>(op: (A, A) -> A, skip: A -> bool) {
    forall x, y :: skip(op(x, y)) <==> skip(x) && skip(y)
  }

  ghost predicate AllSkipped<A(!new), T(!new)>(skip: A -> bool, row: seq<Tree<A, T>>, i: int, j: int)
  {
    forall k :: 0 <= i <= k < j <= |row| ==> row[k].Leaf? && skip(row[k].ann)
  }

  lemma OneLeft<A(!new), T(!new)>(skip: A -> bool, row: seq<Tree<A, T>>, i: nat, j: nat)
    requires i <= j < |row| && row[j].Leaf? && !skip(row[j].ann)
    ensures !AllSkipped(skip, row, i, |row|)
  {
  }

  lemma NoneSkipped<A(!new), T(!new)>(skip: A -> bool, row: seq<Tree<A, T>>, i: nat)
    ensures AllSkipped(skip, row, i, i)
  {
  }

  lemma BothSkipped<A(!new), T(!new)>(skip: A -> bool, l: seq<Tree<A, T>>, r: seq<Tree<A, T>>)
    ensures AllSkipped(skip, l + r, 0, |l + r|) <==> AllSkipped(skip, l, 0, |l|) && AllSkipped(skip, r, 0, |r|)
  {
    assert forall k :: 0 <= k < |l| ==> l[k] == (l + r)[k];
    assert forall k :: 0 <= k < |r| ==> r[k] == (l + r)[|l| + k];
  }

  lemma {:induction false} SkipsLeaves<A(!new), T(!new)>(op: (A, A) -> A, skip: A -> bool, t: Tree<A, T>)
    requires Skips(op, skip)
    ensures skip(Ann(op, t)) <==> AllSkipped(skip, Leaves(t), 0, |Leaves(t)|)
  {
    if t.Fork? {
      SkipsLeaves(op, skip, t.l);
      SkipsLeaves(op, skip, t.r);
      var l, r := Leaves(t.l), Leaves(t.r);
      hide AllSkipped;
      assert Ann(op, t) == op(Ann(op, t.l), Ann(op, t.r));
      assert Leaves(t) == l + r;
      BothSkipped(skip, l, r);
    } else {
      assert Leaves(t)[0] == t;
    }
  }

  /** Skipped stretches add up. */
  lemma SkippedFurther<A(!new), T(!new)>(skip: A -> bool, a: seq<Tree<A, T>>, s: seq<Tree<A, T>>, b: seq<Tree<A, T>>, i: nat)
    requires AllSkipped(skip, a + s + b, i, |a|) && AllSkipped(skip, s, 0, |s|)
    ensures AllSkipped(skip, a + s + b, i, |a| + |s|)
  {
    var row := a + s + b;
    forall k | i <= k < |a| + |s|
      ensures row[k].Leaf? && skip(row[k].ann)
    {
      if k >= |a| { assert row[k] == s[k - |a|]; }
    }
  }

  lemma {:induction false} Sides<A(!new), T(!new)>(c: Ctx<A, T>)
    requires !c.Top?
    ensures c.InLeft? ==> Before(c) == Before(c.up) && After(c) == Leaves(c.sib) + After(c.up)
    ensures c.InRight? ==> Before(c) == Before(c.up) + Leaves(c.sib) && After(c) == After(c.up)
  {
  }

  lemma {:induction false} SkippedUp<A(!new), T(!new)>(op: (A, A) -> A, skip: A -> bool, row: seq<Tree<A, T>>, i: nat, t: Tree<A, T>, c: Ctx<A, T>)
    requires Skips(op, skip) && !c.Top? && row == Before(c) + Leaves(t) + After(c)
    requires AllSkipped(skip, row, i, |Before(c)| + |Leaves(t)|)
    requires c.InRight? || skip(Ann(op, c.sib))
    ensures |Before(c.up)| <= |Before(c)| && |Before(c)| + |Leaves(t)| <= |Before(c.up)| + |Leaves(Join(t, c))|
    ensures AllSkipped(skip, row, i, |Before(c.up)| + |Leaves(Join(t, c))|)
    ensures Plug(t, c) == Plug(Join(t, c), c.up)
  {
    hide AllSkipped, Leaves, Before, After, Ann;
    Sides(c);
    JoinRow(t, c);
    if c.InLeft? {
      SkipsLeaves(op, skip, c.sib);
      var a, u, z := Before(c) + Leaves(t), Leaves(c.sib), After(c.up);
      assert a + (u + z) == a + u + z;
      SkippedFurther(skip, a, u, z, i);
    }
  }

  lemma {:induction false} Across<A(!new), T(!new)>(op: (A, A) -> A, skip: A -> bool, t: Tree<A, T>, c: Ctx<A, T>)
    requires c.InLeft?
    ensures var d := InRight(c.n, c.level, t, c.up);
            Plug(c.sib, d) == Plug(t, c) && |Before(d)| == |Before(c)| + |Leaves(t)|
  {
  }

  lemma {:induction false} AtTheEnd<A(!new), T(!new)>(t: Tree<A, T>, c: Ctx<A, T>)
    ensures c.Top? ==> Before(c) == [] && After(c) == []
  {
  }

  lemma {:induction false} StepDown<A(!new), T(!new)>(op: (A, A) -> A, skip: A -> bool, row: seq<Tree<A, T>>, i: nat, t: Tree<A, T>, c: Ctx<A, T>)
    requires Skips(op, skip) && t.Fork? && row == Before(c) + Leaves(t) + After(c) && !skip(Ann(op, t))
    requires AllSkipped(skip, row, i, |Before(c)|)
    ensures var d := InLeft(t.n, t.level, t.r, c);
            Plug(t.l, d) == Plug(t, c) && Before(d) == Before(c)
    ensures var d := InRight(t.n, t.level, t.l, c);
            Plug(t.r, d) == Plug(t, c) && |Before(d)| >= |Before(c)|
            && (skip(Ann(op, t.l)) ==> !skip(Ann(op, t.r)) && AllSkipped(skip, row, i, |Before(d)|))
  {
    hide AllSkipped, Leaves;
    if skip(Ann(op, t.l)) {
      SkipsLeaves(op, skip, t.l);
      LeavesFork(t);
      Associates(Before(c), Leaves(t.l), Leaves(t.r), After(c));
      assert skip(op(Ann(op, t.l), Ann(op, t.r))) <==> skip(Ann(op, t.l)) && skip(Ann(op, t.r));
      SkippedFurther(skip, Before(c), Leaves(t.l), Leaves(t.r) + After(c), i);
    }
  }

  lemma {:induction false} RootStays<A(!new), T(!new)>(tree: Tree<A, T>, goal: Tree<A, T>, l: Tree<A, T>, s: Tree<A, T>, c: Ctx<A, T>)
    requires tree == Plug(s, c) && goal == Plug(l, c) && l.n == s.n
    ensures tree.n == goal.n
    decreases c
  {
    if !c.Top? {
      RootStays(tree, goal, Join(l, c), Join(s, c), c.up);
    }
  }

  lemma Settled<A(!new), T(!new)>(op: (A, A) -> A, t: Tree<A, T>, c: Ctx<A, T>)
    requires Placed(op, t, c)
    ensures t.n.parent == CtxNode(c)
  {
  }

  lemma {:induction false} LeafValue<A(!new), T(!new)>(op: (A, A) -> A, s: Tree<A, T>, c: Ctx<A, T>)
    requires Placed(op, s, c) && s.Leaf?
    ensures s.n.value == s.val && s.n.annotation == s.ann && s.n.parent == CtxNode(c)
    ensures UniqueCtx(c) && s.n !in CtxNodes(c)
  {
  }

  lemma LeafPlaced<A(!new), T(!new)>(op: (A, A) -> A, s: Tree<A, T>, c: Ctx<A, T>)
    requires Placed(op, s, c) && s.Leaf?
    ensures s.n.parent == CtxNode(c)
  {
  }

  method Reannotate<A(!new), T(!new)>(op: (A, A) -> A, leaf: Node<A, T>, newann: A, ghost s: Tree<A, T>, ghost c: Ctx<A, T>)
    requires Placed(op, s, c) && s.Leaf? && leaf == s.n
    modifies leaf`annotation
    ensures Placed(op, Leaf(leaf, newann, s.val), c)
  {
    hide Inner, CtxLinked, Nodes, Unique, UniqueCtx, CtxNodes, Ann;
    assert allocated(Nodes(s)) && allocated(CtxNodes(c));
    Unfold(op, s);
    LeafNodes(s);
    leaf.annotation := newann;
    LeafNodes(Leaf(leaf, newann, s.val));
    LeafInner(op, Leaf(leaf, newann, s.val));
  }

  /** A leaf with another annotation fits in the same place. */
  lemma {:induction false} ReannotatedAA<A(!new), T(!new)>(t: Tree<A, T>, s: Tree<A, T>, c: Ctx<A, T>)
    requires AA(Plug(s, c)) && AA(t) && Level(t) == Level(s) && (Red(t) <==> Red(s))
    ensures AA(Plug(t, c))
    decreases c
  {
    if !c.Top? {
      PlugAA(Join(s, c), c.up);
      ReannotatedAA(Join(t, c), Join(s, c), c.up);
    }
  }

  lemma {:induction false} ReannotatedLeaf<A(!new), T(!new)>(tree: Tree<A, T>, l: Tree<A, T>, s: Tree<A, T>, c: Ctx<A, T>)
    requires AA(tree) && Plug(s, c) == tree && s.Leaf? && l.Leaf?
    ensures AA(Plug(l, c)) && |Before(c)| < |Leaves(tree)| && Leaves(tree)[|Before(c)|] == s
    ensures Leaves(Plug(l, c)) == Leaves(tree)[|Before(c)| := l]
  {
    hide AA, Leaves, Before, After, Plug;
    LeafLeaves(s);
    LeafLeaves(l);
    LeafRules(s);
    LeafRules(l);
    ReannotatedAA(l, s, c);
    PlugLeaves(s, c);
    PlugLeaves(l, c);
    SetMiddle(Before(c), s, l, After(c));
  }

  lemma {:induction false} LeafRules<A(!new), T(!new)>(s: Tree<A, T>)
    requires s.Leaf?
    ensures AA(s) && !Red(s) && Level(s) == 1
  {
  }

  lemma SetMiddle<X>(a: seq<X>, x: X, y: X, b: seq<X>)
    ensures (a + [x] + b)[|a|] == x && (a + [x] + b)[|a| := y] == a + [y] + b
  {
  }

  lemma {:induction false} Disjoint<A(!new), T(!new)>(op: (A, A) -> A, s: Tree<A, T>, c: Ctx<A, T>)
    requires Placed(op, s, c)
    ensures Unique(s) && UniqueCtx(c) && Nodes(s) !! CtxNodes(c)
  {
  }

  lemma {:induction false} ParentIsRoot<A(!new), T(!new)>(op: (A, A) -> A, root: Node<A, T>, tree: Tree<A, T>, s: Tree<A, T>, c: Ctx<A, T>)
    requires Placed(op, s, c) && Plug(s, c) == tree && root == tree.n
    ensures s.n.parent == CtxNode(c)
    ensures !c.Top? ==> s.n.parent.parent == CtxNode(c.up) && (c.up.Top? <==> s.n.parent == root)
  {
    CtxUnfold(op, c, s.n);
    if !c.Top? && !c.up.Top? {
      PlugRoot(Join(Join(s, c), c.up), c.up.up);
    }
  }

  lemma {:induction false} PlugRoot<A(!new), T(!new)>(t: Tree<A, T>, c: Ctx<A, T>)
    ensures Plug(t, c).n == t.n || Plug(t, c).n in CtxNodes(c)
    decreases c
  {
    if !c.Top? { PlugRoot(Join(t, c), c.up); }
  }

  /** The row with one element less. */
  ghost function Without<X>(s: seq<X>, i: nat): seq<X>
    requires i < |s|
  {
    s[..i] + s[i + 1..]
  }

  lemma SiblingShrinks<A(!new), T(!new)>(s: Tree<A, T>, c: Ctx<A, T>)
    requires s.Leaf? && !c.Top? && AA(Join(s, c))
    ensures Shrunk(Join(s, c), c.sib)
  {
    LevelBounds(c.sib);
  }

  /** The tree after a removal, as a value. */
  lemma {:induction false} RemovedLeaf<A(!new), T(!new)>(tree: Tree<A, T>, s: Tree<A, T>, c: Ctx<A, T>)
    requires AA(tree) && Plug(s, c) == tree && s.Leaf? && !c.Top? && !c.up.Top?
    ensures Tall(Join(c.sib, c.up)) && TallCtx(c.up.up)
    ensures var after := DelUp(DelFix(Join(c.sib, c.up)), c.up.up);
            |Before(c)| < |Leaves(tree)| && Leaves(tree)[|Before(c)|] == s
            && AA(after) && Leaves(after) == Without(Leaves(tree), |Before(c)|)
  {
    hide DelUp, TallCtx, AA, DelFix, Shrunk, Tall, Before, After, Leaves, Without;
    var u := Join(s, c);
    PlugAA(u, c.up);
    PlugAA(s, c);
    TallCtxUp(c);
    SiblingShrinks(s, c);
    DelUpBalanced(u, c.sib, c.up);
    DelUpLeaves(c.sib, c.up);
    PlugLeaves(s, c);
    LeafLeaves(s);
    WithSibling(c);
    DelUpStep(c.sib, c.up);
    DropMiddle(Before(c), s, After(c));
  }

  lemma {:induction false} DelUpStep<A(!new), T(!new)>(s: Tree<A, T>, c: Ctx<A, T>)
    requires !c.Top?
    ensures DelUp(s, c) == DelUp(DelFix(Join(s, c)), c.up)
  {
  }

  lemma {:induction false} LeafLeaves<A(!new), T(!new)>(s: Tree<A, T>)
    requires s.Leaf?
    ensures Leaves(s) == [s]
  {
  }

  lemma {:induction false} WithSibling<A(!new), T(!new)>(c: Ctx<A, T>)
    requires !c.Top?
    ensures Before(c) + After(c) == Before(c.up) + Leaves(c.sib) + After(c.up)
  {
  }

  lemma DropMiddle<X>(a: seq<X>, x: X, b: seq<X>)
    ensures Without(a + [x] + b, |a|) == a + b && (a + [x] + b)[|a|] == x
  {
  }

  lemma {:induction false} TallCtxUp<A(!new), T(!new)>(c: Ctx<A, T>)
    requires TallCtx(c)
    ensures !c.Top? ==> Tall(c.sib) && TallCtx(c.up)
    ensures !c.Top? && !c.up.Top? ==> Tall(Join(c.sib, c.up)) && TallCtx(c.up.up)
  {
  }

  lemma {:induction false} TallDelFix<A(!new), T(!new)>(t: Tree<A, T>)
    requires Tall(t) && t.Fork?
    ensures Tall(DelFix(t))
  {
    hide Tall, Skew, Split;
    var d := Decreased(t);
    TallDecreased(t);
    TallSkew(d);
    TallFork(Skew(d));
    var t1 := Skew(d);
    if t1.Fork? {
      TallSkew(t1.r);
      TallFork(Skew(t1.r));
      if Skew(t1.r).Fork? {
        TallSkew(Skew(t1.r).r);
        TallFork(Skew(t1.r).(r := Skew(Skew(t1.r).r)));
      }
      TallFork(DelSkew(d));
    }
    var s := DelSkew(d);
    TallSkew(s);
    TallFork(Split(s));
    if Split(s).Fork? {
      TallSkew(Split(s).r);
      TallFork(DelFix(t));
    }
  }

  lemma {:induction false} TallDecreased<A(!new), T(!new)>(t: Tree<A, T>)
    requires Tall(t) && t.Fork?
    ensures Tall(Decreased(t))
  {
    TallFork(t.l);
    TallFork(t.r);
  }

  /** The row with one element more. */
  ghost function Inserted<X>(s: seq<X>, i: nat, x: X): seq<X>
    requires i <= |s|
  {
    s[..i] + [x] + s[i..]
  }

  lemma LocatedLeaf<A(!new), T(!new)>(op: (A, A) -> A, s: Tree<A, T>, c: Ctx<A, T>)
    requires Placed(op, s, c) && s.n.leftchild == null
    ensures s.Leaf?
  {
  }

  lemma {:induction false} LeafGrows<A(!new), T(!new)>(n: Node<A, T>, l: Tree<A, T>, s: Tree<A, T>)
    requires l.Leaf? && s.Leaf?
    ensures var low := Fork(n, 2, l, s);
            AddFix(low) == low && Grown(s, low) && Tall(l) && Tall(s)
  {
  }

  /** The tree after an insertion, as a value. */
  lemma {:induction false} AddedLeaf<A(!new), T(!new)>(tree: Tree<A, T>, t: Tree<A, T>, s: Tree<A, T>, c: Ctx<A, T>)
    requires AA(tree) && Plug(s, c) == tree && s.Leaf? && t.Fork? && t.l.Leaf? && t.r == s
    ensures Tall(t.l) && Tall(t.r) && TallCtx(c)
    ensures var after := AddUp(AddFix(Fork(t.n, 2, t.l, t.r)), c);
            && |Before(c)| < |Leaves(tree)| && Leaves(tree)[|Before(c)|] == s
            && AA(after) && Leaves(after) == Inserted(Leaves(tree), |Before(c)|, t.l)
  {
    hide AddUp, TallCtx, AA, AddFix, Grown, Leaves, Before, After, Inserted;
    PlugAA(s, c);
    var low := Fork(t.n, 2, t.l, t.r);
    LeafGrows(t.n, t.l, s);
    AddUpBalanced(s, low, c);
    AddUpLeaves(low, c);
    PlugLeaves(s, c);
    LeafLeaves(s);
    LeafLeaves(t.l);
    InsertMiddle(Before(c), t.l, s, After(c));
    assert Leaves(low) == Leaves(t.l) + Leaves(s) by { LeavesFork(low); }
  }

  /** The same with the new leaf on the right. */
  lemma {:induction false} AddedLeafRight<A(!new), T(!new)>(tree: Tree<A, T>, t: Tree<A, T>, s: Tree<A, T>, c: Ctx<A, T>)
    requires AA(tree) && Plug(s, c) == tree && s.Leaf? && t.Fork? && t.l == s && t.r.Leaf?
    ensures Tall(t.l) && Tall(t.r) && TallCtx(c)
    ensures var after := AddUp(AddFix(Fork(t.n, 2, t.l, t.r)), c);
            && |Before(c)| < |Leaves(tree)| && Leaves(tree)[|Before(c)|] == s
            && AA(after) && Leaves(after) == Inserted(Leaves(tree), |Before(c)| + 1, t.r)
  {
    hide AddUp, TallCtx, AA, AddFix, Grown, Leaves, Before, After, Inserted;
    PlugAA(s, c);
    var low := Fork(t.n, 2, t.l, t.r);
    LeafGrowsRight(t.n, s, t.r);
    AddUpBalanced(s, low, c);
    AddUpLeaves(low, c);
    PlugLeaves(s, c);
    LeafLeaves(s);
    LeafLeaves(t.r);
    InsertAfterMiddle(Before(c), s, t.r, After(c));
    LeavesFork(low);
  }

  lemma {:induction false} LeafGrowsRight<A(!new), T(!new)>(n: Node<A, T>, s: Tree<A, T>, r: Tree<A, T>)
    requires s.Leaf? && r.Leaf?
    ensures var low := Fork(n, 2, s, r);
            AddFix(low) == low && Grown(s, low) && Tall(s) && Tall(r)
  {
  }

  lemma InsertAfterMiddle<X>(a: seq<X>, y: X, x: X, b: seq<X>)
    ensures Inserted(a + [y] + b, |a| + 1, x) == a + ([y] + [x]) + b && (a + [y] + b)[|a|] == y
  {
    assert (a + [y] + b)[..|a| + 1] == a + [y] && (a + [y] + b)[|a| + 1..] == b;
  }

  lemma {:induction false} LeavesFork<A(!new), T(!new)>(t: Tree<A, T>)
    requires t.Fork?
    ensures Leaves(t) == Leaves(t.l) + Leaves(t.r)
  {
  }

  lemma InsertMiddle<X>(a: seq<X>, x: X, y: X, b: seq<X>)
    ensures Inserted(a + [y] + b, |a|, x) == a + ([x] + [y]) + b && (a + [y] + b)[|a|] == y
  {
    assert (a + [y] + b)[..|a|] == a && (a + [y] + b)[|a|..] == [y] + b;
  }

  lemma {:induction false} LeafIsUnique<A(!new), T(!new)>(t: Tree<A, T>)
    requires t.Leaf?
    ensures Unique(t)
  {
  }

  lemma {:induction false} LeafInner<A(!new), T(!new)>(op: (A, A) -> A, t: Tree<A, T>)
    requires t.Leaf? && LeafAs(t)
    ensures Unique(t) && Inner(op, t)
  {
  }

  lemma {:induction false} TallFix<A(!new), T(!new)>(t: Tree<A, T>)
    requires Tall(t)
    ensures Tall(AddFix(t))
  {
    hide Tall, Skew, Split;
    TallSkew(t);
    TallSkew(Skew(t));
  }
}
