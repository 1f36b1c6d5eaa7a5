/** The simple and the fast list with hidden elements do the same: after every run of insertions and
    hidings they stand for the same plain list, and they answer every question alike. */
module HideListAgreement {
  import opened EagerHideLists
  import opened HideLists
  import opened Options
  import opened TreeHideLists

  datatype Operation<Item> =
    | InsertLeftOf(target: Item, items: seq<Item>, visibility: seq<bool>)
    | HideFrom(position: nat, length: nat)

  /** What the operations ask of their callers: new items go in, and only what is there is hidden. */
  ghost predicate Legal<Item>(s: seq<Entry<Item>>, op: Operation<Item>) {
    match op
    case InsertLeftOf(_, items, visibility) =>
      |items| == |visibility| && Distinct(items) && forall v :: v in items ==> v !in Items(s)
    case HideFrom(position, length) => 1 <= length && position + length <= |Visible(s)|
  }

  /** What an operation does to the plain list; without the target nothing happens. */
  ghost function Performed<Item>(s: seq<Entry<Item>>, op: Operation<Item>): seq<Entry<Item>>
    requires Legal(s, op)
  {
    match op
    case InsertLeftOf(target, items, visibility) =>
      if target in Items(s) then InsertAt(s, Where(s, target), Listed(items, visibility)) else s
    case HideFrom(position, length) => Hide(s, position, length)
  }

  ghost predicate AllLegal<Item>(s: seq<Entry<Item>>, ops: seq<Operation<Item>>)
    decreases |ops|
  {
    ops == [] || (Legal(s, ops[0]) && AllLegal(Performed(s, ops[0]), ops[1..]))
  }

  ghost function PerformedAll<Item>(s: seq<Entry<Item>>, ops: seq<Operation<Item>>): seq<Entry<Item>>
    requires AllLegal(s, ops)
    decreases |ops|
  {
    if ops == [] then s else PerformedAll(Performed(s, ops[0]), ops[1..])
  }

  method PerformEager<Item(!new, ==)>(e: EagerHideList<Item>, op: Operation<Item>)
    requires e.Valid() && Legal(e.Listing(), op)
    modifies e
    ensures e.Valid() && e.Listing() == Performed(old(e.Listing()), op)
  {
    match op
    case InsertLeftOf(target, items, visibility) =>
      var _ := e.InsertSequenceLeftOf(target, items, visibility);
    case HideFrom(position, length) =>
      var _ := e.HideElements(position, length);
  }

  method PerformFast<Item(!new, ==)>(t: AATreeHideList<Item>, op: Operation<Item>)
    requires t.Valid() && Legal(t.Listing(), op)
    modifies t.Repr()
    ensures t.Valid() && t.Listing() == Performed(old(t.Listing()), op)
    ensures forall x :: x in t.Repr() && x !in old(t.Repr()) ==> fresh(x)
  {
    match op
    case InsertLeftOf(target, items, visibility) =>
      var _ := t.InsertSequenceLeftOf(target, items, visibility);
    case HideFrom(position, length) =>
      var _ := t.HideElements(position, length);
  }

  /** Any run of operations takes both lists to what it makes of the plain list. */
  method RunBoth<Item(!new, ==)>(e: EagerHideList<Item>, t: AATreeHideList<Item>, ops: seq<Operation<Item>>)
    requires e.Valid() && t.Valid() && e !in t.Repr()
    requires e.Listing() == t.Listing() && AllLegal(e.Listing(), ops)
    modifies e, t.Repr()
    ensures e.Valid() && t.Valid()
    ensures e.Listing() == t.Listing() == PerformedAll(old(e.Listing()), ops)
  {
    hide Legal, Performed, AATreeHideList.Valid, EagerHideList.Valid, AATreeHideList.Listing, EagerHideList.Listing;
    ghost var goal := PerformedAll(e.Listing(), ops);
    for i := 0 to |ops|
      invariant e.Valid() && t.Valid() && e !in t.Repr()
      invariant forall x :: x in t.Repr() && x !in old(t.Repr()) ==> fresh(x)
      invariant e.Listing() == t.Listing() && AllLegal(e.Listing(), ops[i..]) && PerformedAll(e.Listing(), ops[i..]) == goal
    {
      assert ops[i..][0] == ops[i] && ops[i..][1..] == ops[i + 1..];
      assert allocated(t.Repr());
      PerformEager(e, ops[i]);
      PerformFast(t, ops[i]);
    }
  }

  /** Lists that stand for the same plain list answer every question alike, each as the plain list
      says: i-th visible element and i-th of all, index among the visible (j, k) and among all (m, n),
      visibility, and every slice that does not end before it starts. */
  method AskBoth<Item(!new, ==)>(e: EagerHideList<Item>, t: AATreeHideList<Item>, i: nat, item: Item, start: nat, stop: nat)
    returns (a: Option<Item>, b: Option<Item>, c: Option<Item>, d: Option<Item>, j: Option<int>, k: Option<nat>,
             m: Option<int>, n: Option<nat>, v: Option<bool>, w: Option<bool>, x: seq<Item>, y: seq<Option<Item>>)
    requires e.Valid() && t.Valid() && e.Listing() == t.Listing()
    requires start <= stop <= |Visible(e.Listing())| && i < |e.Listing()|
    ensures a == b == if i < |Visible(e.Listing())| then Some(Visible(e.Listing())[i]) else None
    ensures c == d == Some(e.Listing()[i].item)
    ensures item !in Items(e.Listing()) ==> j.None? && k.None? && m.None? && n.None? && v.None? && w.None?
    ensures item in Items(e.Listing()) ==>
              var p := Where(e.Listing(), item);
              && j.Some? && k.Some? && j.value == k.value == Rank(e.Listing(), p)
              && m.Some? && n.Some? && m.value == n.value == p
              && v == w == Some(e.Listing()[p].visible)
    ensures x == Visible(e.Listing())[start..stop] && y == Somes(x)
  {
    hide Visible, Rank, AATreeHideList.Valid, EagerHideList.Valid, AATreeHideList.Listing, EagerHideList.Listing;
    assert allocated(t.Repr());
    a := e.GetItem(i);
    b := t.GetItem(i);
    c := e.GetItemAll(i);
    var ok;
    ok, d := t.GetItemAll(i);
    j := e.Index(item, false);
    k := t.Index(item, false);
    m := e.Index(item, true);
    n := t.Index(item, true);
    v := e.IsVisibleItem(item);
    w := t.IsVisibleItem(item);
    x := e.Slice(start, stop);
    y := t.Slice(start, stop);
  }
}
