/** Leaf-based AA trees whose internal nodes carry the product of their leaves' annotations. This
    module describes them as values; every node of the tree knows its object. */
module AATrees {

  /** A node object: links in both directions, a level and an annotation. */
  class Node<A(!new), T(!new)> {
    var parent: Node?<A, T>
    var leftchild: Node?<A, T>
    var rightchild: Node?<A, T>
    var annotation: A
    var value: T
    var level: int

    constructor (annotation: A, value: T)
      ensures this.annotation == annotation && this.value == value
      ensures parent == null && leftchild == null && rightchild == null && level == 1
    {
      this.annotation := annotation;
      this.value := value;
      parent, leftchild, rightchild, level := null, null, null, 1;
    }
  }

  datatype Tree<!A(!new), !T(!new)> =
    | Leaf(n: Node<A, T>, ann: A, val: T)
    | Fork(n: Node<A, T>, level: int, l: Tree<A, T>, r: Tree<A, T>)

  ghost function Level<A(!new), T(!new)>(t: Tree<A, T>): int {
    match t
    case Leaf(_, _, _) => 1
    case Fork(_, level, _, _) => level
  }

  /** Is the right child on the same level? */
  ghost predicate Red<A(!new), T(!new)>(t: Tree<A, T>) {
    t.Fork? && Level(t.r) == t.level
  }

  /** The level rules: leaves are on level 1, a left child one below its parent, a right child one
      below or level with it, and never three nodes in a row on one level. */
  ghost predicate AA<A(!new), T(!new)>(t: Tree<A, T>) {
    match t
    case Leaf(_, _, _) => true
    case Fork(_, level, l, r) =>
      && AA(l) && AA(r)
      && level >= 2 && Level(l) == level - 1
      && (Level(r) == level - 1 || (Level(r) == level && !Red(r)))
  }

  ghost function Leaves<A(!new), T(!new)>(t: Tree<A, T>): seq<Tree<A, T>> {
    match t
    case Leaf(_, _, _) => [t]
    case Fork(_, _, l, r) => Leaves(l) + Leaves(r)
  }

  ghost function Nodes<A(!new), T(!new)>(t: Tree<A, T>): set<Node<A, T>> {
    match t
    case Leaf(n, _, _) => {n}
    case Fork(n, _, l, r) => {n} + Nodes(l) + Nodes(r)
  }

  /** No object occurs twice. */
  ghost predicate Unique<A(!new), T(!new)>(t: Tree<A, T>) {
    match t
    case Leaf(_, _, _) => true
    case Fork(n, _, l, r) => Unique(l) && Unique(r) && Nodes(l) !! Nodes(r) && n !in Nodes(l) && n !in Nodes(r)
  }

  ghost predicate Associative<A(!new)>(op: (A, A) -> A) {
    forall x, y, z :: op(op(x, y), z) == op(x, op(y, z))
  }

  /** The annotation a node has to carry. */
  ghost function Ann<A(!new), T(!new)>(op: (A, A) -> A, t: Tree<A, T>): A {
    match t
    case Leaf(_, ann, _) => ann
    case Fork(_, _, l, r) => op(Ann(op, l), Ann(op, r))
  }

  /** The product of a non-empty row of leaves. */
  ghost function Product<A(!new), T(!new)>(op: (A, A) -> A, s: seq<Tree<A, T>>): A
    requires s != [] && forall x :: x in s ==> x.Leaf?
  {
    if |s| == 1 then s[0].ann else op(s[0].ann, Product(op, s[1..]))
  }

  lemma {:induction false} LeavesAreLeaves<A(!new), T(!new)>(t: Tree<A, T>)
    ensures Leaves(t) != [] && forall x :: x in Leaves(t) ==> x.Leaf?
  {
    match t
    case Leaf(_, _, _) =>
    case Fork(_, _, l, r) =>
      LeavesAreLeaves(l);
      LeavesAreLeaves(r);
  }

  lemma {:induction false} ProductOfSum<A(!new), T(!new)>(op: (A, A) -> A, s: seq<Tree<A, T>>, t: seq<Tree<A, T>>)
    requires Associative(op) && s != [] && t != []
    requires (forall x :: x in s ==> x.Leaf?) && (forall x :: x in t ==> x.Leaf?)
    ensures forall x :: x in s + t ==> x.Leaf?
    ensures Product(op, s + t) == op(Product(op, s), Product(op, t))
    decreases |s|
  {
    var u := s + t;
    assert u[0] == s[0] && |u| > 1;
    assert forall x :: x in u ==> x in s || x in t;
    if |s| == 1 {
      assert u[1..] == t;
    } else {
      assert forall x :: x in s[1..] ==> x in s;
      ProductOfSum(op, s[1..], t);
      assert u[1..] == s[1..] + t;
      var x, y, z := s[0].ann, Product(op, s[1..]), Product(op, t);
      assert Product(op, u) == op(x, op(y, z));
      assert op(op(x, y), z) == op(x, op(y, z));
    }
  }

  /** Every annotation is the product of the leaves below, whatever the shape. */
  lemma {:induction false} AnnIsProduct<A(!new), T(!new)>(op: (A, A) -> A, t: Tree<A, T>)
    requires Associative(op)
    ensures Leaves(t) != [] && forall x :: x in Leaves(t) ==> x.Leaf?
    ensures Ann(op, t) == Product(op, Leaves(t))
  {
    LeavesAreLeaves(t);
    match t
    case Leaf(_, _, _) =>
    case Fork(_, _, l, r) =>
      AnnIsProduct(op, l);
      AnnIsProduct(op, r);
      ProductOfSum(op, Leaves(l), Leaves(r));
  }

  // -------------------------------------------------------------------------
  // Balance
  // -------------------------------------------------------------------------

  ghost function Depth<A(!new), T(!new)>(t: Tree<A, T>): nat {
    match t
    case Leaf(_, _, _) => 0
    case Fork(_, _, l, r) => 1 + if Depth(l) < Depth(r) then Depth(r) else Depth(l)
  }

  ghost function Pow2(n: nat): nat {
    if n == 0 then 1 else 2 * Pow2(n - 1)
  }

  lemma {:induction false} LevelBounds<A(!new), T(!new)>(t: Tree<A, T>)
    requires AA(t)
    ensures Level(t) >= 1
    ensures Depth(t) <= 2 * (Level(t) - 1)
    ensures !Red(t) && t.Fork? ==> Depth(t) <= 2 * (Level(t) - 1) - 1
    ensures Pow2(Level(t) - 1) <= |Leaves(t)|
  {
    match t
    case Leaf(_, _, _) =>
    case Fork(_, _, l, r) =>
      LevelBounds(l);
      LevelBounds(r);
      if Red(t) { LevelBounds(r.r); }
  }

  lemma {:induction false} Pow2Square(n: nat)
    ensures Pow2(2 * n) == Pow2(n) * Pow2(n)
  {
    if n > 0 {
      Pow2Square(n - 1);
      assert Pow2(2 * n) == 2 * Pow2(2 * n - 1);
    }
  }

  lemma {:induction false} Pow2Monotone(a: nat, b: nat)
    requires a <= b
    ensures Pow2(a) <= Pow2(b)
    decreases b
  {
    if a < b { Pow2Monotone(a, b - 1); }
  }

  lemma SquareMonotone(p: nat, n: nat)
    requires p <= n
    ensures p * p <= n * n
  {
    assert p * p <= p * n;
  }

  /** A tree of n leaves is at most 2 log2(n) deep: 2 to the depth is at most n squared. */
  lemma {:induction false} DepthIsLogarithmic<A(!new), T(!new)>(t: Tree<A, T>)
    requires AA(t)
    ensures Pow2(Depth(t)) <= |Leaves(t)| * |Leaves(t)|
  {
    LevelBounds(t);
    var k := Level(t) - 1;
    Pow2Monotone(Depth(t), 2 * k);
    Pow2Square(k);
    SquareMonotone(Pow2(k), |Leaves(t)|);
  }

  /** The rotations. */
  ghost function Skew<A(!new), T(!new)>(t: Tree<A, T>): Tree<A, T> {
    if t.Fork? && t.l.Fork? && t.level == t.l.level
    then Fork(t.l.n, t.l.level, t.l.l, Fork(t.n, t.level, t.l.r, t.r))
    else t
  }

  ghost function Split<A(!new), T(!new)>(t: Tree<A, T>): Tree<A, T> {
    if t.Fork? && t.r.Fork? && t.level == Level(t.r.r)
    then Fork(t.r.n, t.r.level + 1, Fork(t.n, t.level, t.l, t.r.l), t.r.r)
    else t
  }

  ghost predicate SameLeaves<A(!new), T(!new)>(t: Tree<A, T>, t': Tree<A, T>) {
    Leaves(t') == Leaves(t) && Nodes(t') == Nodes(t) && (Unique(t) ==> Unique(t'))
  }

  /** Three subtrees under two nodes hold the same, whichever node is on top. */
  lemma Rotate<A(!new), T(!new)>(p: Node<A, T>, q: Node<A, T>, i: int, j: int, i': int, j': int,
                                 a: Tree<A, T>, b: Tree<A, T>, c: Tree<A, T>)
    ensures var left, right := Fork(p, i, Fork(q, j, a, b), c), Fork(q, j', a, Fork(p, i', b, c));
            SameLeaves(left, right) && SameLeaves(right, left)
  {
    hide Nodes, Unique;
    var left, right := Fork(p, i, Fork(q, j, a, b), c), Fork(q, j', a, Fork(p, i', b, c));
    assert Leaves(left) == Leaves(a) + Leaves(b) + Leaves(c);
    assert Leaves(right) == Leaves(a) + (Leaves(b) + Leaves(c));
    UniqueFork(left);
    UniqueFork(left.l);
    UniqueFork(right);
    UniqueFork(right.r);
    assert Nodes(left) == Nodes(right);
  }

  lemma {:induction false} UniqueFork<A(!new), T(!new)>(t: Tree<A, T>)
    requires t.Fork?
    ensures Nodes(t) == {t.n} + Nodes(t.l) + Nodes(t.r)
    ensures Unique(t) <==> Unique(t.l) && Unique(t.r) && Nodes(t.l) !! Nodes(t.r) && t.n !in Nodes(t.l) && t.n !in Nodes(t.r)
  {
  }

  lemma SkewKeeps<A(!new), T(!new)>(t: Tree<A, T>)
    ensures SameLeaves(t, Skew(t))
  {
    if t.Fork? && t.l.Fork? && t.level == t.l.level {
      Rotate(t.n, t.l.n, t.level, t.l.level, t.level, t.l.level, t.l.l, t.l.r, t.r);
    }
  }

  lemma SplitKeeps<A(!new), T(!new)>(t: Tree<A, T>)
    ensures SameLeaves(t, Split(t))
  {
    if t.Fork? && t.r.Fork? && t.level == Level(t.r.r) {
      Rotate(t.r.n, t.n, t.r.level + 1, t.level, t.r.level, t.level, t.l, t.r.l, t.r.r);
    }
  }

  lemma {:induction false} AAFork<A(!new), T(!new)>(t: Tree<A, T>)
    requires t.Fork?
    ensures AA(t) <==> AA(t.l) && AA(t.r) && t.level >= 2 && Level(t.l) == t.level - 1
                       && (Level(t.r) == t.level - 1 || (Level(t.r) == t.level && !Red(t.r)))
  {
  }

  lemma {:induction false} Stable<A(!new), T(!new)>(t: Tree<A, T>)
    requires AA(t)
    ensures Skew(t) == t && Split(t) == t
  {
  }

  // -------------------------------------------------------------------------
  // Insertion
  // -------------------------------------------------------------------------

  /** What insertion may do to a subtree: it stays on its level, or rises by one if it had a red
      child or was a leaf, and then has none. */
  ghost predicate Grown<A(!new), T(!new)>(t: Tree<A, T>, t': Tree<A, T>) {
    && AA(t')
    && (Level(t') == Level(t) || (Level(t') == Level(t) + 1 && !Red(t') && (t.Leaf? || Red(t))))
  }

  ghost function AddFix<A(!new), T(!new)>(t: Tree<A, T>): Tree<A, T> {
    Split(Skew(t))
  }

  lemma {:induction false} GrownOnTheLeft<A(!new), T(!new)>(t: Tree<A, T>, l: Tree<A, T>)
    requires AA(t) && t.Fork? && Grown(t.l, l)
    ensures Grown(t, AddFix(t.(l := l)))
  {
  }

  lemma {:induction false} GrownOnTheRight<A(!new), T(!new)>(t: Tree<A, T>, r: Tree<A, T>)
    requires AA(t) && t.Fork? && Grown(t.r, r)
    ensures Grown(t, AddFix(t.(r := r)))
  {
  }

  // -------------------------------------------------------------------------
  // Removal
  // -------------------------------------------------------------------------

  /** What removal may do to a subtree: it falls by at most one level, and if it does not fall it
      gets no red child. */
  ghost predicate Shrunk<A(!new), T(!new)>(t: Tree<A, T>, t': Tree<A, T>) {
    && AA(t')
    && (Level(t') == Level(t) - 1 || (Level(t') == Level(t) && (Red(t') ==> Red(t))))
  }

  ghost function WithLevel<A(!new), T(!new)>(t: Tree<A, T>, level: int): Tree<A, T> {
    if t.Fork? then t.(level := level) else t
  }

  ghost function Decreased<A(!new), T(!new)>(t: Tree<A, T>): Tree<A, T>
    requires t.Fork?
  {
    var target := (if Level(t.l) < Level(t.r) then Level(t.l) else Level(t.r)) + 1;
    if target < t.level
    then Fork(t.n, target, t.l, if target < Level(t.r) then WithLevel(t.r, target) else t.r)
    else t
  }

  ghost function DelSkew<A(!new), T(!new)>(t: Tree<A, T>): Tree<A, T> {
    var t1 := Skew(t);
    if t1.Leaf? then t1 else
    var r1 := Skew(t1.r);
    var r2 := if r1.Fork? then r1.(r := Skew(r1.r)) else r1;
    t1.(r := r2)
  }

  ghost function DelSplit<A(!new), T(!new)>(t: Tree<A, T>): Tree<A, T> {
    var t1 := Split(t);
    if t1.Leaf? then t1 else t1.(r := Split(t1.r))
  }

  ghost function DelFix<A(!new), T(!new)>(t: Tree<A, T>): Tree<A, T>
    requires t.Fork?
  {
    DelSplit(DelSkew(Decreased(t)))
  }

  /** A tree that satisfies the rules is left alone. */
  lemma {:induction false} DelStable<A(!new), T(!new)>(t: Tree<A, T>)
    requires AA(t)
    ensures DelSkew(t) == t && DelSplit(t) == t
    ensures t.Fork? ==> Decreased(t) == t
  {
    Stable(t);
    if t.Fork? {
      Stable(t.r);
      if t.r.Fork? { Stable(t.r.r); }
    }
  }

  lemma {:induction false} ShrunkOnTheRight<A(!new), T(!new)>(t: Tree<A, T>, r: Tree<A, T>)
    requires AA(t) && t.Fork? && Shrunk(t.r, r)
    ensures Shrunk(t, DelFix(t.(r := r)))
  {
    if Level(r) >= t.level - 1 {
      DelStable(t.(r := r));
    } else if Red(t.l) {
      FallenBesideRedSibling(t, r);
    } else {
      FallenBesideSibling(t, r);
    }
  }

  lemma SkewNothing<A(!new), T(!new)>(t: Tree<A, T>)
    requires t.Fork? && (t.l.Leaf? || t.level != t.l.level)
    ensures Skew(t) == t
  {
  }

  /** DelSkew, once the first two skews are known. */
  lemma DelSkewIs<A(!new), T(!new)>(d: Tree<A, T>, t: Tree<A, T>, r: Tree<A, T>, rr: Tree<A, T>)
    requires t.Fork? && r.Fork? && Skew(d) == t && Skew(t.r) == r && Skew(r.r) == rr
    ensures DelSkew(d) == Fork(t.n, t.level, t.l, Fork(r.n, r.level, r.l, rr))
  {
  }

  lemma DelFixIs<A(!new), T(!new)>(t: Tree<A, T>, s: Tree<A, T>, top: Tree<A, T>)
    requires t.Fork? && DelSkew(Decreased(t)) == s && Split(s) == top && top.Fork?
    ensures DelFix(t) == Fork(top.n, top.level, top.l, Split(top.r))
  {
  }

  lemma {:induction false} FallenBesideRedSibling<A(!new), T(!new)>(t: Tree<A, T>, r: Tree<A, T>)
    requires AA(t) && t.Fork? && AA(r) && Level(r) == t.level - 2 && Level(t.r) == t.level - 1 && Red(t.l)
    ensures Shrunk(t, DelFix(t.(r := r)))
  {
    // The left child's red child rises above both.
    hide AA, DelSkew, DelFix;
    AAFork(t);
    AAFork(t.l);
    AAFork(t.l.r);
    var k, l := t.level, t.l;
    var m := Fork(t.n, k - 1, l.r.r, r);
    AAFork(m);
    var left := Fork(l.n, k - 1, l.l, l.r.l);
    AAFork(left);
    Stable(m);
    var d := Decreased(t.(r := r));
    assert d == Fork(t.n, k - 1, l, r);
    assert Skew(d) == Fork(l.n, k - 1, l.l, Fork(t.n, k - 1, l.r, r));
    DelSkewIs(d, Skew(d), Fork(l.r.n, k - 1, l.r.l, m), m);
    var top := Fork(l.r.n, k, left, m);
    AAFork(top);
    DelFixIs(t.(r := r), DelSkew(d), top);
  }

  lemma {:induction false} FallenBesideSibling<A(!new), T(!new)>(t: Tree<A, T>, r: Tree<A, T>)
    requires AA(t) && t.Fork? && AA(r) && Level(r) == t.level - 2 && Level(t.r) == t.level - 1 && !Red(t.l)
    ensures Shrunk(t, DelFix(t.(r := r)))
  {
    var k, l := t.level, t.l;
    var m := Fork(t.n, k - 1, l.r, r);
    var s := Fork(l.n, k - 1, l.l, m);
    var d := Decreased(t.(r := r));
    assert d == Fork(t.n, k - 1, l, r);
    assert AA(m);
    assert AA(s);
    Stable(m);
    Stable(r);
    assert Skew(d) == s;
    assert DelSkew(d) == s;
    DelStable(s);
  }

  lemma {:induction false} ShrunkOnTheLeft<A(!new), T(!new)>(t: Tree<A, T>, l: Tree<A, T>)
    requires AA(t) && t.Fork? && Shrunk(t.l, l)
    ensures Shrunk(t, DelFix(t.(l := l)))
  {
    if Level(l) == t.level - 1 {
      DelStable(t.(l := l));
    } else if Level(t.r) == t.level - 1 {
      FallenBesideLevel(t, l);
    } else {
      FallenBesideRed(t, l);
    }
  }

  lemma {:induction false} FallenBesideLevel<A(!new), T(!new)>(t: Tree<A, T>, l: Tree<A, T>)
    requires AA(t) && t.Fork? && AA(l) && Level(l) == t.level - 2 && Level(t.r) == t.level - 1
    ensures Shrunk(t, DelFix(t.(l := l)))
  {
    var k, r := t.level, t.r;
    var s := Fork(t.n, k - 1, l, r);
    assert Decreased(t.(l := l)) == s;
    if Red(r) {
      Stable(r);
      Stable(r.r);
      assert DelSkew(s) == s;
      var left := Fork(t.n, k - 1, l, r.l);
      assert AA(left);
      var top := Fork(r.n, k, left, r.r);
      assert Split(s) == top;
      assert AA(top);
    } else {
      assert AA(s);
      DelStable(s);
    }
  }

  lemma {:induction false} FallenBesideRed<A(!new), T(!new)>(t: Tree<A, T>, l: Tree<A, T>)
    requires AA(t) && t.Fork? && AA(l) && Level(l) == t.level - 2 && Level(t.r) == t.level
    ensures Shrunk(t, DelFix(t.(l := l)))
  {
    hide AA, DelSkew, DelFix;
    AAFork(t);
    AAFork(t.r);
    LevelBounds(l);
    var k, r := t.level, t.r;
    var b, c := r.l, r.r;
    AAForks(b);
    AAForks(c);
    var q := Fork(r.n, k - 1, b, c);
    var s, m := Fork(t.n, k - 1, l, q), Fork(r.n, k - 1, b.r, c);
    assert Decreased(t.(l := l)) == s;
    SkewNothing(s);
    assert Skew(q) == Fork(b.n, k - 1, b.l, m);
    DelSkewIs(s, s, Fork(b.n, k - 1, b.l, m), Skew(m));
    SplitTheRest(r.n, k, b.r, c);
    var left := Fork(t.n, k - 1, l, b.l);
    AAFork(left);
    var top := Fork(b.n, k, left, Skew(m));
    SplitRises(t.n, k - 1, l, b.n, b.l, Skew(m));
    DelFixIs(t.(l := l), DelSkew(s), top);
    RedTop(b.n, k, left, Split(Skew(m)));
  }

  lemma {:induction false} AAForks<A(!new), T(!new)>(t: Tree<A, T>)
    requires AA(t) && Level(t) >= 2
    ensures t.Fork? && AA(t.l) && AA(t.r) && Level(t.l) == t.level - 1
    ensures Level(t.r) == t.level - 1 || (Level(t.r) == t.level && !Red(t.r) && t.r.Fork?)
  {
  }

  lemma SplitRises<A(!new), T(!new)>(n: Node<A, T>, k: int, a: Tree<A, T>, m: Node<A, T>, b: Tree<A, T>, c: Tree<A, T>)
    requires Level(c) == k
    ensures Split(Fork(n, k, a, Fork(m, k, b, c))) == Fork(m, k + 1, Fork(n, k, a, b), c)
  {
  }

  lemma {:induction false} RedTop<A(!new), T(!new)>(n: Node<A, T>, k: int, l: Tree<A, T>, r: Tree<A, T>)
    requires k >= 2 && AA(l) && Level(l) == k - 1 && AA(r) && (Level(r) == k - 1 || (Level(r) == k && !Red(r)))
    ensures AA(Fork(n, k, l, r))
  {
  }

  /** The right part after the first split: it keeps its level or gains the one it lost. */
  lemma SplitTheRest<A(!new), T(!new)>(n: Node<A, T>, k: int, b: Tree<A, T>, c: Tree<A, T>)
    requires AA(b) && AA(c) && Level(c) == k - 1 && c.Fork? && (Level(b) == k - 2 || (Level(b) == k - 1 && !Red(b) && b.Fork?))
    ensures var x := Split(Skew(Fork(n, k - 1, b, c)));
            AA(x) && (Level(x) == k - 1 || (Level(x) == k && !Red(x)))
    ensures Level(Skew(Fork(n, k - 1, b, c))) == k - 1
  {
    var m := Fork(n, k - 1, b, c);
    if Level(b) == k - 1 {
      assert Skew(m) == Fork(b.n, k - 1, b.l, Fork(n, k - 1, b.r, c));
      var left := Fork(b.n, k - 1, b.l, b.r);
      assert AA(left);
      assert Split(Skew(m)) == Fork(n, k, left, c);
    } else {
      assert Skew(m) == m;
      if Red(c) {
        var left := Fork(n, k - 1, b, c.l);
        assert AA(left);
        assert Split(m) == Fork(c.n, k, left, c.r);
      } else {
        assert AA(m);
        Stable(m);
      }
    }
  }
}
