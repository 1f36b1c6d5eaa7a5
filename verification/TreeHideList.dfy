/** The fast list with hidden elements: the leaves of an AA tree, each node annotated with how many
    visible elements and how many elements in all are below it. */
module TreeHideLists {
  import opened AAMonoidTrees
  import opened AATrees
  import opened HideLists
  import opened Options

  datatype Count = Count(visible: nat, all: nat)

  function Plus(a: Count, b: Count): Count {
    Count(a.visible + b.visible, a.all + b.all)
  }

  const PLUS: (Count, Count) -> Count := (a, b) => Plus(a, b)

  predicate NoneVisible(c: Count) {
    c.visible == 0
  }

  const SKIP: Count -> bool := c => NoneVisible(c)

  /** The annotation of the empty leaf at the last position. */
  const END := Count(0, 0)

  /** Hiding past the last visible element marks the empty leaf as an element. */
  const MARKED_END := Count(0, 1)

  predicate IsEnd(c: Count) {
    c == END || c == MARKED_END
  }

  function CountOf(visible: bool): Count {
    Count(if visible then 1 else 0, 1)
  }

  function Measure(c: Count, all: bool): nat {
    if all then c.all else c.visible
  }

  lemma PlusLaws()
    ensures Associative(PLUS) && Skips(PLUS, SKIP)
  {
  }

  type Cell<!Item(!new)> = Node<Count, Option<Item>>
  type Cell?<!Item(!new)> = Node?<Count, Option<Item>>
  type Subtree<!Item(!new)> = Tree<Count, Option<Item>>
  type Row<!Item(!new)> = seq<Subtree<Item>>

  /** The row of leaves under a list: one for each element, then the empty one. */
  ghost predicate IsRow<Item(!new)>(row: Row<Item>) {
    && row != []
    && (forall i :: 0 <= i < |row| ==> row[i].Leaf?)
    && (forall i :: 0 <= i < |row| - 1 ==> row[i].val.Some? && row[i].ann == CountOf(row[i].ann.visible == 1))
    && IsEnd(row[|row| - 1].ann) && row[|row| - 1].val == None
  }

  ghost function Entries<Item(!new)>(row: Row<Item>): (s: seq<Entry<Item>>)
    requires IsRow(row)
    ensures |s| == |row| - 1
  {
    seq(|row| - 1, i requires 0 <= i < |row| - 1 => Entry(row[i].val.value, row[i].ann.visible == 1))
  }

  /** The nodes that hold the items. */
  ghost predicate Indexed<Item(!new)>(row: Row<Item>, index: map<Item, Cell<Item>>)
    requires IsRow(row)
  {
    && (forall i :: 0 <= i < |row| - 1 ==> row[i].val.value in index && index[row[i].val.value] == row[i].n)
    && forall v :: v in index ==> v in Items(Entries(row))
  }

  // -------------------------------------------------------------------------
  // Counting
  // -------------------------------------------------------------------------

  ghost predicate AllLeaves<Item(!new)>(row: Row<Item>) {
    forall i :: 0 <= i < |row| ==> row[i].Leaf?
  }

  /** What the leaves of a row count together: the product of their annotations, nothing for none. */
  ghost function Sum<Item(!new)>(row: Row<Item>): Count
    requires AllLeaves(row)
  {
    if row == [] then END else Product(PLUS, row)
  }

  lemma {:induction false} SumOfSum<Item(!new)>(a: Row<Item>, b: Row<Item>)
    requires AllLeaves(a) && AllLeaves(b)
    ensures AllLeaves(a + b) && Sum(a + b) == Plus(Sum(a), Sum(b))
  {
    PlusLaws();
    if b == [] {
      assert a + b == a;
    } else if a == [] {
      assert a + b == b;
    } else {
      ProductOfSum(PLUS, a, b);
    }
  }

  lemma {:induction false} SumOfNone<Item(!new)>()
    ensures Sum<Item>([]) == END
  {
  }

  lemma {:induction false} SumStep<Item(!new)>(a: Row<Item>, x: Subtree<Item>)
    requires AllLeaves(a) && x.Leaf?
    ensures AllLeaves(a + [x]) && Sum(a + [x]) == Plus(Sum(a), x.ann)
  {
    SumOfSum(a, [x]);
  }

  /** An annotation counts the leaves below. */
  lemma {:induction false} AnnIsSum<Item(!new)>(t: Subtree<Item>)
    ensures AllLeaves(Leaves(t))
    ensures Ann(PLUS, t) == Sum(Leaves(t))
  {
    PlusLaws();
    AnnIsProduct(PLUS, t);
  }

  lemma {:induction false} SumIsRank<Item(!new)>(row: Row<Item>, j: nat)
    requires IsRow(row) && j < |row|
    ensures Sum(row[..j]) == Count(Rank(Entries(row), j), j)
  {
    hide Sum, Rank;
    var s := Entries(row);
    if j == 0 {
      assert row[..0] == [];
      SumOfNone<Item>();
      RankOfNone(s);
    } else {
      SumIsRank(row, j - 1);
      RankStep(s, j - 1);
      assert row[..j] == row[..j - 1] + [row[j - 1]];
      SumStep(row[..j - 1], row[j - 1]);
    }
  }

  /** The number of elements before place j. */
  ghost function At<Item>(s: seq<Entry<Item>>, j: nat, all: bool): nat
    requires j <= |s|
  {
    if all then j else Rank(s, j)
  }

  ghost function Min(a: nat, b: nat): nat {
    if a < b then a else b
  }

  lemma {:induction false} ManyLeaves<Item(!new)>(t: Subtree<Item>)
    ensures Leaves(t) != [] && (t.Fork? ==> |Leaves(t)| >= 2) && (t.Leaf? ==> Leaves(t) == [t])
  {
    LeavesAreLeaves(t);
    if t.Fork? {
      LeavesAreLeaves(t.l);
      LeavesAreLeaves(t.r);
    }
  }

  /** The part of the row that ends with a subtree. */
  lemma {:induction false} SumUpTo<Item(!new)>(row: Row<Item>, t: Subtree<Item>, c: Ctx<Count, Option<Item>>)
    requires AllLeaves(row) && row == AAMonoidTrees.Before(c) + Leaves(t) + After(c)
    ensures var b, e := |AAMonoidTrees.Before(c)|, |AAMonoidTrees.Before(c)| + |Leaves(t)|;
            b < e <= |row| && AllLeaves(row[..b]) && AllLeaves(row[..e]) && Sum(row[..e]) == Plus(Sum(row[..b]), Ann(PLUS, t))
            && (t.Fork? ==> b + 2 <= e) && (t.Leaf? ==> e == b + 1 && row[b] == t)
  {
    hide Leaves, AAMonoidTrees.Before, After, Ann, Sum;
    var b, m := AAMonoidTrees.Before(c), Leaves(t);
    ManyLeaves(t);
    AnnIsSum(t);
    assert b == row[..|b|] && b + m == row[..|b| + |m|];
    SumOfSum(b, m);
  }

  /** What the empty leaf at the end counts. */
  ghost function Extra<Item(!new)>(row: Row<Item>, e: nat, all: bool): nat
    requires IsRow(row)
  {
    if e == |row| then Measure(row[|row| - 1].ann, all) else 0
  }

  lemma {:induction false} SumOfRow<Item(!new)>(row: Row<Item>, e: nat)
    requires IsRow(row) && e <= |row|
    ensures var s := Entries(row);
            Sum(row[..e]) == Count(Rank(s, Min(e, |s|)), Min(e, |s|) + Extra(row, e, true))
  {
    hide Rank, Sum;
    if e < |row| {
      SumIsRank(row, e);
    } else {
      assert row[..e] == row[..e - 1] + [row[e - 1]];
      SumStep(row[..e - 1], row[e - 1]);
      SumIsRank(row, e - 1);
    }
  }

  /** Where a subtree stands in the row, and what it counts. */
  lemma {:induction false} Position<Item(!new)>(row: Row<Item>, t: Subtree<Item>, c: Ctx<Count, Option<Item>>, all: bool)
    requires IsRow(row) && row == AAMonoidTrees.Before(c) + Leaves(t) + After(c)
    ensures var s, b, e := Entries(row), |AAMonoidTrees.Before(c)|, |AAMonoidTrees.Before(c)| + |Leaves(t)|;
            && b < e <= |row| && b <= |s|
            && At(s, Min(e, |s|), all) + Extra(row, e, all) == At(s, b, all) + Measure(Ann(PLUS, t), all)
            && (t.Fork? ==> b + 2 <= e) && (t.Leaf? ==> e == b + 1 && row[b] == t)
  {
    hide Leaves, AAMonoidTrees.Before, After, Ann, Rank, Sum, Entries;
    SumUpTo(row, t, c);
    SumOfRow(row, |AAMonoidTrees.Before(c)|);
    SumOfRow(row, |AAMonoidTrees.Before(c)| + |Leaves(t)|);
  }

  /** The whole tree counts the visible elements. */
  lemma {:induction false} AllVisible<Item(!new)>(t: Subtree<Item>)
    requires IsRow(Leaves(t))
    ensures Ann(PLUS, t).visible == |Visible(Entries(Leaves(t)))|
  {
    hide Leaves, Ann, Rank;
    var s := Entries(Leaves(t));
    TopIsTop(t);
    assert Leaves(t) == [] + Leaves(t) + [];
    Position(Leaves(t), t, Top, false);
    RankMonotone(s, 0, |s|);
    RankOfNone(s);
  }

  /** What a step to a right child's parent adds. */
  lemma {:induction false} SiblingCount<Item(!new)>(row: Row<Item>, t: Subtree<Item>, c: Ctx<Count, Option<Item>>, all: bool)
    requires IsRow(row) && row == AAMonoidTrees.Before(c) + Leaves(t) + After(c) && c.InRight?
    ensures var s, b, u := Entries(row), |AAMonoidTrees.Before(c)|, |AAMonoidTrees.Before(c.up)|;
            u <= b <= |s| && At(s, b, all) == At(s, u, all) + Measure(Ann(PLUS, c.sib), all)
  {
    hide Leaves, AAMonoidTrees.Before, After, Ann, Rank;
    Sides(c);
    var d := InLeft(c.n, c.level, t, c.up);
    Sides(d);
    assert row == AAMonoidTrees.Before(d) + Leaves(c.sib) + After(d);
    Position(row, c.sib, d, all);
    Position(row, t, c, all);
  }

  /** Hiding the element that is next to be hidden. */
  lemma HideOneAt<Item>(s: seq<Entry<Item>>, j: nat)
    requires j < |s| && s[j].visible
    ensures Hide(s, Rank(s, j), 1) == s[j := Entry(s[j].item, false)]
  {
    hide Visible;
    var p := Rank(s, j);
    forall i | 0 <= i < |s|
      ensures Hide(s, p, 1)[i] == s[j := Entry(s[j].item, false)][i]
    {
      if i < j { RankMonotone(s, i, j); }
      if j < i { RankMonotone(s, j, i); }
    }
  }

  /** Nothing visible from i to j - 1. */
  lemma {:induction false} NothingVisible<Item>(s: seq<Entry<Item>>, i: nat, j: nat)
    requires i <= j <= |s| && forall k :: i <= k < j ==> !s[k].visible
    ensures Rank(s, j) == Rank(s, i)
    decreases j
  {
    if i < j {
      NothingVisible(s, i, j - 1);
      RankStep(s, j - 1);
    }
  }

  class AATreeHideList<Item(!new, ==)> {
    const tree: AAMonoidTree<Count, Option<Item>>
    var index: map<Item, Cell<Item>>

    ghost function Row(): Row<Item>
      reads tree
    {
      Leaves(tree.tree)
    }

    /** The objects the list consists of. */
    ghost function Repr(): set<object>
      reads this, tree
    {
      {this, tree} + Nodes(tree.tree)
    }

    ghost function Listing(): seq<Entry<Item>>
      reads tree
    {
      if IsRow(Row()) then Entries(Row()) else []
    }

    /** Has something been hidden past the end? */
    ghost predicate Marked()
      reads tree
    {
      Row() != [] && Row()[|Row()| - 1].Leaf? && Row()[|Row()| - 1].ann == MARKED_END
    }

    ghost predicate Valid()
      reads Repr()
    {
      && tree.Valid() && tree.op == PLUS
      && IsRow(Row()) && Indexed(Row(), index) && Distinct(Items(Entries(Row())))
    }

    constructor ()
      ensures Valid() && fresh(Repr()) && Listing() == [] && !Marked()
    {
      PlusLaws();
      var r := new Node(END, None);
      tree := new AAMonoidTree(PLUS, r);
      index := map[];
      new;
      assert Row() == [Leaf(r, END, None)];
    }

    /** What can be read off the node of place i. */
    lemma CellAt(i: nat)
      requires Valid() && i < |Row()|
      ensures var x := Row()[i];
              && x.Leaf? && x.n in Nodes(tree.tree) && x.n.leftchild == null
              && x.n.annotation == x.ann && x.n.value == x.val
              && |Row()| == |Listing()| + 1
              && (i < |Listing()| ==> x.val == Some(Listing()[i].item) && x.ann == CountOf(Listing()[i].visible))
              && (i == |Listing()| ==> x.val == None && x.ann == if Marked() then MARKED_END else END)
    {
      LeafAt(PLUS, tree.tree, i);
    }

    /** Different places have different nodes. */
    lemma CellsDiffer(i: nat, j: nat)
      requires Valid() && i < |Row()| && j < |Row()| && Row()[i].n == Row()[j].n
      ensures i == j
    {
      CellAt(i);
      CellAt(j);
      var s := Entries(Row());
      if i < |s| && j < |s| {
        assert Items(s)[i] == Items(s)[j];
      }
    }

    lemma IndexWhere(item: Item)
      requires Valid()
      ensures item in index <==> item in Items(Listing())
      ensures item in index ==> index[item] == Row()[Where(Listing(), item)].n
    {
      var s := Listing();
      if item in Items(s) {
        var j := Where(s, item);
        assert Row()[j].val.value == item;
      }
    }

    /** `__len__`. */
    method Length() returns (n: nat)
      requires Valid()
      ensures Valid()
      ensures n == |Visible(Listing())|
    {
      hide Placed, InPlace, IsRow, Indexed, AA, Ann, Leaves, Visible, PLUS;
      TopIsTop(tree.tree);
      tree.Opened();
      Focus(PLUS, tree.tree, Top);
      InPlaceParts(PLUS, tree.tree, Top);
      AllVisible(tree.tree);
      n := tree.root.annotation.visible;
    }

    /** `_getnode` with its walker: goes left as long as the wanted place is below, and adds up what
        it passes on the left. None when an assertion fails: past the end, or at an unmarked end in
        the coordinates of all elements while something is hidden. */
    method GetNode(target: nat, all: bool) returns (r: Option<Cell<Item>>, ghost j: nat)
      requires Valid()
      ensures Valid()
      ensures var s := Listing();
              var n := if all then |s| else |Visible(s)|;
              && (r.Some? <==> target < n || (target == n && (n == |Visible(s)| || Marked())))
              && (r.Some? ==> j <= |s| && j < |Row()| && Row()[j].n == r.value)
              && (r.Some? ==> if target == n then j == |s| else if all then j == target else j == Place(s, target))
    {
      hide Inner, CtxLinked, Nodes, Unique, UniqueCtx, CtxNodes, Ann, Placed, AA, Leaves, AAMonoidTrees.Before, After, Plug, Visible, Rank;
      hide Indexed, Distinct, At;
      tree.Opened();
      ghost var row, s := Row(), Listing();
      ghost var t, c := tree.tree, Top;
      TopIsTop(t);
      TopRow(row);
      Focus(PLUS, t, c);
      var node, offset := tree.root, 0;
      RowStarts(row, all);
      while node.annotation != END && node.leftchild != null
        invariant Valid() && row == Row() && s == Listing() && Placed(PLUS, tree.tree, Top)
        invariant node == t.n && Plug(t, c) == tree.tree && InPlace(PLUS, t, c)
        invariant row == AAMonoidTrees.Before(c) + Leaves(t) + After(c) && |AAMonoidTrees.Before(c)| <= |s|
        invariant offset == At(s, |AAMonoidTrees.Before(c)|, all) <= target
        invariant Below(row, |AAMonoidTrees.Before(c)| + |Leaves(t)|, target, all)
        decreases t
      {
        InPlaceParts(PLUS, t, c);
        GoesDown(row, t, c, all);
        var p := offset + Measure(node.leftchild.annotation, all);
        if p <= target {
          offset := p;
          node := node.rightchild;
          t, c := t.r, InRight(t.n, t.level, t.l, c);
        } else {
          node := node.leftchild;
          t, c := t.l, InLeft(t.n, t.level, t.r, c);
        }
        Focus(PLUS, t, c);
      }
      InPlaceParts(PLUS, t, c);
      LeafReached(row, t, c, target, all);
      j := |AAMonoidTrees.Before(c)|;
      RowStarts(row, all);
      if target != offset {
        return None, j;
      }
      var n := Length();
      if node.annotation == END && target != n {
        return None, j;
      }
      r := Some(node);
    }

    /** `__getitem__` of a number; IndexError past the end. */
    method GetItem(i: nat) returns (r: Option<Item>)
      requires Valid()
      ensures Valid()
      ensures r == if i < |Visible(Listing())| then Some(Visible(Listing())[i]) else None
    {
      hide Nodes, Leaves, Visible, Rank;
      var n := Length();
      if i < n {
        var node, j := GetNode(i, false);
        CellAt(j);
        r := node.value.value;
      } else {
        r := None;
      }
    }

    /** `getitem_all` of a number: at the very end the value of the empty leaf, which is None; past
        it, and at an unmarked end while something is hidden, an error. */
    method GetItemAll(i: nat) returns (ok: bool, r: Option<Item>)
      requires Valid()
      ensures Valid()
      ensures ok <==> i < |Listing()| || (i == |Listing()| && (i == |Visible(Listing())| || Marked()))
      ensures ok ==> r == if i < |Listing()| then Some(Listing()[i].item) else None
    {
      hide Nodes, Leaves, Visible, Rank;
      var node, j := GetNode(i, true);
      if node.None? {
        return false, None;
      }
      CellAt(j);
      return true, node.value.value;
    }

    /** `is_visible`, in the coordinates of all elements. */
    method IsVisible(i: nat) returns (r: Option<bool>)
      requires Valid()
      ensures Valid()
      ensures i < |Listing()| ==> r == Some(Listing()[i].visible)
      ensures i >= |Listing()| ==>
                r == if i == |Listing()| && (i == |Visible(Listing())| || Marked()) then Some(false) else None
    {
      hide Nodes, Leaves, Rank;
      var node, j := GetNode(i, true);
      if node.None? {
        return None;
      }
      CellAt(j);
      r := Some(node.value.annotation.visible == 1);
    }

    method IsVisibleItem(item: Item) returns (r: Option<bool>)
      requires Valid()
      ensures Valid()
      ensures r == if item in Items(Listing()) then Some(Listing()[Where(Listing(), item)].visible) else None
    {
      hide Nodes, Leaves;
      IndexWhere(item);
      if item !in index {
        return None;
      }
      CellAt(Where(Listing(), item));
      r := Some(index[item].annotation.visible == 1);
    }

    /** `index` and `index_all`: adds up what is on the left of the way to the root. */
    method Index(item: Item, all: bool) returns (r: Option<nat>)
      requires Valid()
      ensures Valid()
      ensures r == if item !in Items(Listing()) then None
                   else var j := Where(Listing(), item); Some(if all then j else Rank(Listing(), j))
    {
      hide Inner, CtxLinked, Nodes, Unique, UniqueCtx, CtxNodes, Ann, Placed, AA, Leaves, AAMonoidTrees.Before, After, Plug, Visible, Rank, Indexed, Items, IsRow, Entries;
      IndexWhere(item);
      if item !in index {
        return None;
      }
      tree.Opened();
      ghost var row, s := Row(), Listing();
      ghost var j := Where(s, item);
      ghost var t, c := LocateLeaf(tree.tree, Top, j);
      TopIsTop(tree.tree);
      Focus(PLUS, t, c);
      PlugLeaves(t, c);
      var node, target := index[item], 0;
      InPlaceParts(PLUS, t, c);
      while node.parent != null
        invariant Valid() && row == Row() && s == Listing() && Placed(PLUS, tree.tree, Top)
        invariant node == t.n && Plug(t, c) == tree.tree && InPlace(PLUS, t, c)
        invariant row == AAMonoidTrees.Before(c) + Leaves(t) + After(c)
        invariant |AAMonoidTrees.Before(c)| <= j && target + At(s, |AAMonoidTrees.Before(c)|, all) == At(s, j, all)
        decreases c
      {
        InPlaceParts(PLUS, t, c);
        Sides(c);
        if node.parent.rightchild == node {
          SiblingCount(row, t, c, all);
          target := target + Measure(node.parent.leftchild.annotation, all);
        } else {
          assert node.parent.leftchild == node;
        }
        node := node.parent;
        Climb(t, c);
        t, c := Join(t, c), c.up;
        Focus(PLUS, t, c);
        PlugLeaves(t, c);
      }
      InPlaceParts(PLUS, t, c);
      AtTheEnd(t, c);
      RowStarts(row, all);
      r := Some(target);
    }

    /** From the visible element p to the next one. */
    method NextShown(node: Cell<Item>, ghost j: nat, ghost p: nat) returns (next: Cell<Item>, ghost k: nat)
      requires Valid() && p + 1 < |Visible(Listing())| && j == Place(Listing(), p) && j < |Row()| && Row()[j].n == node
      ensures Valid() && k == Place(Listing(), p + 1) && k < |Row()| && Row()[k].n == next && next.value == Some(Visible(Listing())[p + 1])
    {
      hide Nodes, Leaves, Visible, Rank;
      PlusLaws();
      var found;
      found, k := tree.GetNext(node, SKIP, j);
      RankStep(Listing(), j);
      NextVisible(Row(), j, k);
      CellAt(k);
      next := found;
    }

    /** `__getitem__` of a slice with stride 1, its bounds cut to the length as `slice.indices` does.
        A slice that ends before it starts yields one element instead of none. */
    method Slice(from: nat, to: nat) returns (r: seq<Option<Item>>)
      requires Valid()
      ensures Valid()
      ensures var v := Visible(Listing());
              var start, stop := Min(from, |v|), Min(to, |v|);
              r == if start <= stop then Somes(v[start..stop]) else [if start < |v| then Some(v[start]) else None]
    {
      hide Nodes, Leaves, Visible, Rank, Valid, Row, Listing, Place, Somes;
      ghost var s := Listing();
      var n := Length();
      var start, stop := if from < n then from else n, if to < n then to else n;
      if start < n { SomesStep(Visible(s), start, 0); }
      if start == stop {
        SomesNone(Visible(s), start);
        return [];
      }
      var first, j := GetNode(start, false);
      CellAt(j);
      var nodes := [first.value];
      r := [first.value.value];
      while |nodes| < stop - start
        invariant Valid() && s == Listing()
        invariant 1 <= |nodes| == |r| && (start < stop ==> start + |nodes| <= stop && 0 <= j < |s| && j == Place(s, start + |nodes| - 1))
        invariant start < stop ==> 0 <= j < |Row()| && Row()[j].n == nodes[|nodes| - 1] && r == Somes(Visible(s)[start..start + |nodes|])
        invariant start > stop ==> |r| == 1 && r[0] == if start < n then Some(Visible(s)[start]) else None
      {
        SomesStep(Visible(s), start, |nodes|);
        var next, k := NextShown(nodes[|nodes| - 1], j, start + |nodes| - 1);
        nodes := nodes + [next];
        r := r + [next.value];
        j := k;
      }
    }

    /** Makes the element at place j invisible. */
    method HideNode(node: Cell<Item>, ghost j: nat)
      requires Valid() && j < |Listing()| && Row()[j].n == node
      modifies tree`tree, Nodes(tree.tree)`annotation
      ensures Valid() && Nodes(tree.tree) == old(Nodes(tree.tree)) && |Row()| == |old(Row())| && Marked() == old(Marked())
      ensures Row()[j].n == node && Listing() == old(Listing())[j := Entry(old(Listing())[j].item, false)]
    {
      hide Nodes, Leaves;
      ghost var row := Row();
      CellAt(j);
      forall i | 0 <= i < |row| && row[i].n == node
        ensures i == j
      {
        CellsDiffer(i, j);
      }
      HiddenRow(row, index, j);
      ghost var i := tree.ChangeAnnotation(node, CountOf(false));
    }

    /** One turn of the loop of `hide`: n elements from position on are hidden, and this is the next. */
    method HideAndGo(node: Cell<Item>, ghost j: nat, ghost s: seq<Entry<Item>>, ghost position: nat, ghost n: nat)
      returns (next: Cell?<Item>, ghost k: nat)
      requires Valid() && Listing() == Hide(s, position, n)
      requires j < |Listing()| && Row()[j].n == node && Listing()[j].visible && Rank(Listing(), j) == position
      modifies tree`tree, Nodes(tree.tree)`annotation
      ensures Valid() && Nodes(tree.tree) == old(Nodes(tree.tree)) && Listing() == Hide(s, position, n + 1) && Marked() == old(Marked())
      ensures if next == null then |Visible(Listing())| == position
              else k < |Listing()| && k < |Row()| && Row()[k].n == next && Listing()[k].visible && Rank(Listing(), k) == position
    {
      hide Nodes, Leaves, Visible, Rank, Hide;
      PlusLaws();
      HideOneAt(Listing(), j);
      HideAgain(s, position, n, 1);
      RankAtHidden(Listing(), j);
      HideNode(node, j);
      next, k := tree.GetNext(node, SKIP, j);
      NextVisible(Row(), j, k);
    }

    /** `hide`: the visible elements position to position + length - 1, but always at least one. It
        fails in a search when there are not so many, with all up to the end hidden; only that one
        element right after the last one is hidden goes unnoticed, and marks the end. */
    method HideElements(position: nat, length: nat) returns (ok: bool)
      requires Valid()
      modifies tree`tree, Nodes(tree.tree)`annotation
      ensures Valid() && Nodes(tree.tree) == old(Nodes(tree.tree))
      ensures ok <==> var v, n := |Visible(old(Listing()))|, if length == 0 then 1 else length;
                      position + n <= v || (position == v && n == 1)
      ensures Listing() == Hide(old(Listing()), position, if length == 0 then 1 else length)
      ensures Marked() <==> old(Marked()) || position == |Visible(old(Listing()))|
    {
      hide Nodes, Leaves, Visible, Rank, Hide, Valid, Row, Listing, Marked;
      ghost var s, mark := Listing(), Marked();
      var found, j := GetNode(position, false);
      HideBeyond(s, position, AtLeastOne(length));
      if found.None? {
        return false;
      }
      var node: Cell<Item> := found.value;
      CellAt(j);
      if node.annotation.visible == 0 {
        // The empty leaf: it is marked, and the search for a next element fails.
        MarkEnd(node);
        return length <= 1;
      }
      HideNothing(s, position);
      var i := position + 1;
      while i < position + length
        invariant Valid() && Nodes(tree.tree) == old(Nodes(tree.tree)) && Marked() == mark
        invariant position + 1 <= i && (i <= position + length || i == position + 1) && i <= |Visible(s)|
        invariant Listing() == Hide(s, position, i - position - 1)
        invariant 0 <= j < |Listing()| && j < |Row()| && Row()[j].n == node && Listing()[j].visible && Rank(Listing(), j) == position
      {
        VisibleHidden(s, position, i - position);
        CutLength(Visible(s), position, i - position);
        var next, k := HideAndGo(node, j, s, position, i - position - 1);
        if next == null {
          assert |Visible(s)| <= i < position + length;
          HideTheRest(s, position, i - position, length);
          return false;
        }
        node, j := next, k;
        RankMonotone(Listing(), j, |Listing()|);
        i := i + 1;
      }
      HideOneAt(Listing(), j);
      HideAgain(s, position, i - position - 1, 1);
      HideNode(node, j);
      ok := true;
    }

    /** What hiding does to the empty leaf. */
    method MarkEnd(node: Cell<Item>)
      requires Valid() && |Row()| == |Listing()| + 1 && Row()[|Listing()|].n == node
      modifies tree`tree, Nodes(tree.tree)`annotation
      ensures Valid() && Nodes(tree.tree) == old(Nodes(tree.tree)) && Listing() == old(Listing()) && Marked()
    {
      hide Nodes, Leaves;
      ghost var row := Row();
      CellAt(|row| - 1);
      forall i | 0 <= i < |row| && row[i].n == node
        ensures i == |row| - 1
      {
        CellsDiffer(i, |row| - 1);
      }
      MarkedRow(row, index);
      ghost var i := tree.ChangeAnnotation(node, CountOf(false));
    }

    /** One turn of the loop of `_insert_sequence_leftofnode`. */
    method AddCell(node: Cell<Item>, ghost j: nat, v: Item, viz: bool)
      requires Valid() && j < |Row()| && j <= |Listing()| && Row()[j].n == node && v !in Items(Listing())
      modifies `index, tree, Nodes(tree.tree)
      ensures Valid() && forall x :: x in Nodes(tree.tree) && x !in old(Nodes(tree.tree)) ==> fresh(x)
      ensures Listing() == InsertAt(old(Listing()), j, [Entry(v, viz)])
      ensures j + 1 < |Row()| && Row()[j + 1].n == node
    {
      hide Nodes, Leaves;
      ghost var row := Row();
      CellAt(j);
      forall i | 0 <= i < |row| && row[i].n == node
        ensures i == j
      {
        CellsDiffer(i, j);
      }
      assert allocated(Nodes(tree.tree));
      var newnode := new Node(CountOf(viz), Some(v));
      InsertedRow(row, index, j, newnode, v, viz);
      ghost var i := tree.AddLeft(newnode, node);
      index := index[v := newnode];
    }

    /** `_insert_sequence_leftofnode`. */
    method InsertLeftOfNode(node: Cell<Item>, ghost j: nat, sequence: seq<Item>, visibility: seq<bool>)
      requires Valid() && j < |Row()| && j <= |Listing()| && Row()[j].n == node && |sequence| == |visibility|
      requires Distinct(sequence) && forall v :: v in sequence ==> v !in Items(Listing())
      modifies `index, tree, Nodes(tree.tree)
      ensures Valid() && forall x :: x in Nodes(tree.tree) && x !in old(Nodes(tree.tree)) ==> fresh(x)
      ensures Listing() == InsertAt(old(Listing()), j, Listed(sequence, visibility))
    {
      hide Nodes, Leaves, Valid, Row, Listing, Listed;
      ghost var s := Listing();
      ListedNone<Item>();
      InsertNothing(s, j);
      assert sequence[..0] == [] && visibility[..0] == [];
      for i := 0 to |sequence|
        invariant Valid() && forall x :: x in Nodes(tree.tree) && x !in old(Nodes(tree.tree)) ==> fresh(x)
        invariant Listing() == InsertAt(s, j, Listed(sequence[..i], visibility[..i]))
        invariant j + i < |Row()| && j + i <= |Listing()| && Row()[j + i].n == node
      {
        var v, viz := sequence[i], visibility[i];
        NotInserted(s, j, sequence, visibility, i);
        InsertMore(s, j, sequence, visibility, i);
        AddCell(node, j + i, v, viz);
      }
      assert sequence[..|sequence|] == sequence && visibility[..|sequence|] == visibility;
    }

    /** `insert_sequence_leftof`, for items that are not in the list yet; KeyError without the target. */
    method InsertSequenceLeftOf(target: Item, sequence: seq<Item>, visibility: seq<bool>) returns (ok: bool)
      requires Valid() && |sequence| == |visibility|
      requires Distinct(sequence) && forall v :: v in sequence ==> v !in Items(Listing())
      modifies `index, tree, Nodes(tree.tree)
      ensures Valid() && forall x :: x in Nodes(tree.tree) && x !in old(Nodes(tree.tree)) ==> fresh(x)
      ensures ok <==> target in Items(old(Listing()))
      ensures Listing() == if ok then InsertAt(old(Listing()), Where(old(Listing()), target), Listed(sequence, visibility))
                           else old(Listing())
    {
      hide Nodes, Leaves;
      IndexWhere(target);
      if target !in index {
        return false;
      }
      InsertLeftOfNode(index[target], Where(Listing(), target), sequence, visibility);
      ok := true;
    }

    /** `insert_sequence_all`, for items that are not in the list yet; at the very end it fails while
        something is hidden. */
    method InsertSequenceAll(position: nat, sequence: seq<Item>, visibility: seq<bool>) returns (ok: bool)
      requires Valid() && |sequence| == |visibility|
      requires Distinct(sequence) && forall v :: v in sequence ==> v !in Items(Listing())
      modifies `index, tree, Nodes(tree.tree)
      ensures Valid() && forall x :: x in Nodes(tree.tree) && x !in old(Nodes(tree.tree)) ==> fresh(x)
      ensures ok <==> position < |old(Listing())|
                      || (position == |old(Listing())| && (position == |Visible(old(Listing()))| || old(Marked())))
      ensures Listing() == if ok then InsertAt(old(Listing()), position, Listed(sequence, visibility)) else old(Listing())
    {
      hide Nodes, Leaves, Visible;
      var node, j := GetNode(position, true);
      if node.None? {
        return false;
      }
      InsertLeftOfNode(node.value, j, sequence, visibility);
      ok := true;
    }
  }

  /** The row with one element more. */
  lemma InsertedRow<Item(!new)>(row: Row<Item>, index: map<Item, Cell<Item>>, j: nat, n: Cell<Item>, v: Item, viz: bool)
    requires IsRow(row) && Indexed(row, index) && Distinct(Items(Entries(row))) && j < |row| && v !in Items(Entries(row))
    ensures var row' := Inserted(row, j, Leaf(n, CountOf(viz), Some(v)));
            && IsRow(row') && Indexed(row', index[v := n]) && Distinct(Items(Entries(row')))
            && Entries(row') == InsertAt(Entries(row), j, [Entry(v, viz)])
            && |row'| == |row| + 1 && row'[j + 1] == row[j]
  {
    hide Indexed, Distinct;
    RowInserted(row, j, n, v, viz);
    DistinctInserted(Entries(row), j, v, viz);
    IndexedInserted(row, index, j, n, v, viz);
  }

  lemma RowInserted<Item(!new)>(row: Row<Item>, j: nat, n: Cell<Item>, v: Item, viz: bool)
    requires IsRow(row) && j < |row|
    ensures var row' := Inserted(row, j, Leaf(n, CountOf(viz), Some(v)));
            && IsRow(row') && Entries(row') == InsertAt(Entries(row), j, [Entry(v, viz)])
            && |row'| == |row| + 1 && row'[j + 1] == row[j]
  {
    var row' := Inserted(row, j, Leaf(n, CountOf(viz), Some(v)));
    forall i | 0 <= i < |row'|
      ensures row'[i] == if i < j then row[i] else if i == j then Leaf(n, CountOf(viz), Some(v)) else row[i - 1]
    {
    }
  }

  lemma DistinctInserted<Item>(s: seq<Entry<Item>>, j: nat, v: Item, viz: bool)
    requires Distinct(Items(s)) && v !in Items(s) && j <= |s|
    ensures var t := InsertAt(s, j, [Entry(v, viz)]);
            && Distinct(Items(t)) && v in Items(t) && forall x :: x in Items(s) ==> x in Items(t)
  {
    var t := InsertAt(s, j, [Entry(v, viz)]);
    forall i | 0 <= i < |t|
      ensures Items(t)[i] == if i < j then Items(s)[i] else if i == j then v else Items(s)[i - 1]
    {
    }
    assert Items(t)[j] == v;
    forall a, b | 0 <= a < b < |t|
      ensures Items(t)[a] != Items(t)[b]
    {
      var x, y := if a < j then a else a - 1, if b < j then b else b - 1;
      if a != j { assert Items(s)[x] in Items(s); }
      if b != j { assert Items(s)[y] in Items(s); }
    }
    forall x | x in Items(s)
      ensures x in Items(t)
    {
      var i :| 0 <= i < |s| && Items(s)[i] == x;
      assert Items(t)[if i < j then i else i + 1] == x;
    }
  }

  lemma IndexedInserted<Item(!new)>(row: Row<Item>, index: map<Item, Cell<Item>>, j: nat, n: Cell<Item>, v: Item, viz: bool)
    requires IsRow(row) && Indexed(row, index) && j < |row| && v !in Items(Entries(row))
    requires var row', s := Inserted(row, j, Leaf(n, CountOf(viz), Some(v))), Entries(row);
             IsRow(row') && v in Items(Entries(row')) && forall x :: x in Items(s) ==> x in Items(Entries(row'))
    ensures Indexed(Inserted(row, j, Leaf(n, CountOf(viz), Some(v))), index[v := n])
  {
    var row' := Inserted(row, j, Leaf(n, CountOf(viz), Some(v)));
    forall i | 0 <= i < |row| - 1
      ensures row[i].val.value != v
    {
      assert Items(Entries(row))[i] == row[i].val.value;
    }
    forall i | 0 <= i < |row'| - 1
      ensures row'[i].val.value in index[v := n] && index[v := n][row'[i].val.value] == row'[i].n
    {
      if i != j { assert row'[i] == row[if i < j then i else i - 1]; }
    }
  }

  lemma ListedNone<Item>()
    ensures Listed<Item>([], []) == []
  {
  }

  lemma InsertNothing<T>(s: seq<T>, j: nat)
    requires j <= |s|
    ensures InsertAt(s, j, []) == s
  {
  }

  /** The next item is not among those inserted so far. */
  lemma NotInserted<Item>(s: seq<Entry<Item>>, j: nat, sequence: seq<Item>, visibility: seq<bool>, i: nat)
    requires j <= |s| && |sequence| == |visibility| && i < |sequence|
    requires Distinct(sequence) && forall v :: v in sequence ==> v !in Items(s)
    ensures sequence[i] !in Items(InsertAt(s, j, Listed(sequence[..i], visibility[..i])))
  {
    var t := InsertAt(s, j, Listed(sequence[..i], visibility[..i]));
    forall k | 0 <= k < |t|
      ensures Items(t)[k] != sequence[i]
    {
      if j <= k < j + i {
        assert Items(t)[k] == sequence[k - j];
      } else {
        var x := Items(s)[if k < j then k else k - i];
        assert Items(t)[k] == x && x in Items(s) && sequence[i] in sequence;
      }
    }
  }

  /** One more element after those inserted so far. */
  lemma InsertMore<Item>(s: seq<Entry<Item>>, j: nat, sequence: seq<Item>, visibility: seq<bool>, i: nat)
    requires j <= |s| && |sequence| == |visibility| && i < |sequence|
    ensures var t := InsertAt(s, j, Listed(sequence[..i], visibility[..i]));
            && j + i <= |t|
            && InsertAt(t, j + i, [Entry(sequence[i], visibility[i])])
               == InsertAt(s, j, Listed(sequence[..i + 1], visibility[..i + 1]))
  {
  }

  function AtLeastOne(n: nat): nat {
    if n == 0 then 1 else n
  }

  /** Does `hide` go through, with v visible elements? */
  predicate CanHide(v: nat, position: nat, length: nat) {
    position + AtLeastOne(length) <= v || (position == v && length <= 1)
  }

  /** Past the last visible element there is nothing to hide. */
  lemma {:induction false} HideBeyond<Item>(s: seq<Entry<Item>>, p: nat, n: nat)
    ensures p >= |Visible(s)| ==> Hide(s, p, n) == s
  {
    hide Visible, Rank;
    if p >= |Visible(s)| {
      forall j | 0 <= j < |s|
        ensures Hide(s, p, n)[j] == s[j]
      {
        RankMonotone(s, j, |s|);
      }
    }
  }

  function Somes<T>(s: seq<T>): seq<Option<T>> {
    seq(|s|, i requires 0 <= i < |s| => Some(s[i]))
  }

  lemma SomesStep<T>(s: seq<T>, i: nat, n: nat)
    requires i + n < |s|
    ensures Somes(s[i..i + n]) + [Some(s[i + n])] == Somes(s[i..i + n + 1])
    ensures n == 0 ==> Somes(s[i..i + n + 1]) == [Some(s[i])]
  {
  }

  lemma SomesNone<T>(s: seq<T>, i: nat)
    requires i <= |s|
    ensures Somes(s[i..i]) == []
  {
  }

  /** The row with one element hidden. */
  lemma HiddenRow<Item(!new)>(row: Row<Item>, index: map<Item, Cell<Item>>, j: nat)
    requires IsRow(row) && Indexed(row, index) && j < |row| - 1
    ensures var row' := row[j := Leaf(row[j].n, CountOf(false), row[j].val)];
            && IsRow(row') && Indexed(row', index)
            && Entries(row') == Entries(row)[j := Entry(row[j].val.value, false)]
            && Items(Entries(row')) == Items(Entries(row))
  {
    var row' := row[j := Leaf(row[j].n, CountOf(false), row[j].val)];
    assert Items(Entries(row')) == Items(Entries(row));
  }

  /** What getnext finds right of an element. */
  lemma {:induction false} NextVisible<Item(!new)>(row: Row<Item>, j: nat, k: nat)
    requires IsRow(row) && j < |row| - 1 && j < k <= |row| && AllSkipped(SKIP, row, j + 1, k)
    requires k < |row| ==> !SKIP(row[k].ann)
    ensures var s := Entries(row);
            if k == |row| then |Visible(s)| == Rank(s, j + 1)
            else k < |s| && s[k].visible && Rank(s, k) == Rank(s, j + 1) < |Visible(s)| && Place(s, Rank(s, j + 1)) == k
  {
    hide Visible, Rank;
    var s := Entries(row);
    var e := Min(k, |s|);
    forall i | j + 1 <= i < e
      ensures !s[i].visible
    {
      assert SKIP(row[i].ann);
    }
    NothingVisible(s, j + 1, e);
    if k == |row| {
      RankMonotone(s, |s|, |s|);
    } else {
      PlaceIsUnique(s, k);
    }
  }

  lemma MarkedRow<Item(!new)>(row: Row<Item>, index: map<Item, Cell<Item>>)
    requires IsRow(row) && Indexed(row, index)
    ensures var row' := row[|row| - 1 := Leaf(row[|row| - 1].n, CountOf(false), None)];
            IsRow(row') && Indexed(row', index) && Entries(row') == Entries(row)
  {
    var row' := row[|row| - 1 := Leaf(row[|row| - 1].n, CountOf(false), None)];
    assert Entries(row') == Entries(row);
  }

  /** A place that has been hidden does not count any more. */
  lemma RankAtHidden<Item>(s: seq<Entry<Item>>, j: nat)
    requires j < |s|
    ensures var t := s[j := Entry(s[j].item, false)];
            Rank(t, j + 1) == Rank(t, j) == Rank(s, j)
  {
    var t := s[j := Entry(s[j].item, false)];
    RankStep(t, j);
    assert t[..j] == s[..j];
  }

  /** Hiding more than there is. */
  lemma {:induction false} HideTheRest<Item>(s: seq<Entry<Item>>, p: nat, n: nat, m: nat)
    requires p + n >= |Visible(s)| && n <= m
    ensures Hide(s, p, n) == Hide(s, p, m)
  {
    hide Visible, Rank;
    forall j | 0 <= j < |s|
      ensures Hide(s, p, n)[j] == Hide(s, p, m)[j]
    {
      RankMonotone(s, j, |s|);
    }
  }

  lemma {:induction false} Climb<Item(!new)>(t: Subtree<Item>, c: Ctx<Count, Option<Item>>)
    requires !c.Top?
    ensures Plug(Join(t, c), c.up) == Plug(t, c)
  {
  }

  /** Is the wanted place before place e, or e the end of the row? */
  ghost predicate Below<Item(!new)>(row: Row<Item>, e: nat, target: nat, all: bool)
    requires IsRow(row)
  {
    e == |row| || (e < |row| && target < At(Entries(row), e, all))
  }

  lemma RowStarts<Item(!new)>(row: Row<Item>, all: bool)
    requires IsRow(row)
    ensures At(Entries(row), 0, all) == 0
    ensures At(Entries(row), |row| - 1, all) == if all then |Entries(row)| else |Visible(Entries(row))|
    ensures all ==> forall b :: 0 <= b < |row| ==> At(Entries(row), b, all) == b
  {
    var s := Entries(row);
    assert s[..0] == [] && s[..|s|] == s;
  }

  /** One step of the walk down. */
  lemma {:induction false} GoesDown<Item(!new)>(row: Row<Item>, t: Subtree<Item>, c: Ctx<Count, Option<Item>>, all: bool)
    requires IsRow(row) && row == AAMonoidTrees.Before(c) + Leaves(t) + After(c) && t.Fork?
    ensures var s, b, l, r := Entries(row), |AAMonoidTrees.Before(c)|, InLeft(t.n, t.level, t.r, c), InRight(t.n, t.level, t.l, c);
            && Plug(t.l, l) == Plug(t, c) && Plug(t.r, r) == Plug(t, c)
            && AAMonoidTrees.Before(l) == AAMonoidTrees.Before(c) && |AAMonoidTrees.Before(r)| == b + |Leaves(t.l)| <= |s|
            && b <= |s| && At(s, b + |Leaves(t.l)|, all) == At(s, b, all) + Measure(Ann(PLUS, t.l), all)
            && b + |Leaves(t)| == b + |Leaves(t.l)| + |Leaves(t.r)|
            && row == AAMonoidTrees.Before(l) + Leaves(t.l) + After(l)
            && row == AAMonoidTrees.Before(r) + Leaves(t.r) + After(r)
  {
    hide Leaves, AAMonoidTrees.Before, After, Ann, Rank, At;
    var l, r := InLeft(t.n, t.level, t.r, c), InRight(t.n, t.level, t.l, c);
    LeavesFork(t);
    Sides(l);
    Sides(r);
    Associates(AAMonoidTrees.Before(c), Leaves(t.l), Leaves(t.r), After(c));
    Position(row, t.l, l, all);
    Position(row, t.r, r, all);
  }

  /** Where the walk ends. */
  lemma {:induction false} LeafReached<Item(!new)>(row: Row<Item>, t: Subtree<Item>, c: Ctx<Count, Option<Item>>, target: nat, all: bool)
    requires IsRow(row) && row == AAMonoidTrees.Before(c) + Leaves(t) + After(c)
    requires t.Leaf? || Ann(PLUS, t) == END
    requires var s, b := Entries(row), |AAMonoidTrees.Before(c)|;
             b <= |s| && At(s, b, all) <= target && Below(row, b + |Leaves(t)|, target, all)
    ensures var s, b := Entries(row), |AAMonoidTrees.Before(c)|;
            && t.Leaf? && b < |row| && row[b] == t && (t.ann == END <==> b == |s| && row[|row| - 1].ann == END)
            && (b < |s| ==> target == At(s, b, all) < At(s, |s|, all))
            && (b < |s| && !all ==> target < |Visible(s)| && Place(s, target) == b)
  {
    hide Leaves, AAMonoidTrees.Before, After, Visible, Rank;
    var s, b := Entries(row), |AAMonoidTrees.Before(c)|;
    Position(row, t, c, true);
    Position(row, t, c, all);
    if b < |s| {
      RankStep(s, b);
      RankMonotone(s, b, |s|);
      RankMonotone(s, b + 1, |s|);
      if !all { PlaceIsUnique(s, b); }
    }
  }
}
