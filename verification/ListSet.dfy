/** Sorted sets kept as ascending lists: the merge that combines two of them,
    and the class that the causal tree uses for its timeline. */
module ListSets {

  ghost predicate StrictTotalOrder<T(!new)>(less: (T, T) -> bool) {
    && (forall x :: !less(x, x))
    && (forall x, y, z :: less(x, y) && less(y, z) ==> less(x, z))
    && (forall x, y :: x == y || less(x, y) || less(y, x))
  }

  /** Strictly ascending: sorted and free of duplicates. */
  ghost predicate Ascending<T>(less: (T, T) -> bool, s: seq<T>) {
    forall i, j :: 0 <= i < j < |s| ==> less(s[i], s[j])
  }

  /** Sorted, possibly with duplicates. */
  ghost predicate NonDescending<T>(less: (T, T) -> bool, s: seq<T>) {
    forall i, j :: 0 <= i < j < |s| ==> !less(s[j], s[i])
  }

  ghost function SetOf<T>(s: seq<T>): set<T> {
    set x | x in s
  }

  lemma HasElements<T>(s: seq<T>)
    requires s != []
    ensures SetOf(s) != {}
  {
    assert s[0] in SetOf(s);
  }

  /** An ascending list is determined by its set of elements. */
  lemma {:induction false} AscendingIsUnique<T(!new)>(less: (T, T) -> bool, a: seq<T>, b: seq<T>)
    requires StrictTotalOrder(less)
    requires Ascending(less, a) && Ascending(less, b)
    requires SetOf(a) == SetOf(b)
    ensures a == b
  {
    assert forall i :: 0 <= i < |b| ==> b[i] in SetOf(b);
    if a == [] {
      if b != [] { HasElements(b); }
    } else {
      assert a[0] in SetOf(b);
      assert b[0] in SetOf(a);
      assert a[0] == b[0];
      forall x
        ensures x in SetOf(a[1..]) <==> x in SetOf(b[1..])
      {
        assert x in a[1..] <==> x in SetOf(a) && x != a[0];
        assert x in b[1..] <==> x in SetOf(b) && x != b[0];
      }
      AscendingIsUnique(less, a[1..], b[1..]);
      assert a == [a[0]] + a[1..] && b == [b[0]] + b[1..];
    }
  }

  /** Which elements a merge keeps: l, g and e select those only in a, only in b, and in both. */
  ghost predicate Kept<T>(a: seq<T>, b: seq<T>, l: bool, g: bool, e: bool, z: T) {
    if z in a then (if z in b then e else l) else z in b && g
  }

  /** The first x and y elements of the two lists are merged into out, and all of them are smaller than
      what is left of the other list. */
  ghost predicate Merging<T(!new)>(less: (T, T) -> bool, a: seq<T>, b: seq<T>, l: bool, g: bool, e: bool, x: int, y: int, out: seq<T>) {
    && 0 <= x <= |a| && 0 <= y <= |b|
    && (forall i, j :: 0 <= i < x && y <= j < |b| ==> less(a[i], b[j]))
    && (forall i, j :: x <= i < |a| && 0 <= j < y ==> less(b[j], a[i]))
    && Ascending(less, out)
    && (forall k, i :: 0 <= k < |out| && x <= i < |a| ==> less(out[k], a[i]))
    && (forall k, j :: 0 <= k < |out| && y <= j < |b| ==> less(out[k], b[j]))
    && forall z :: z in out <==> (z in a[..x] || z in b[..y]) && Kept(a, b, l, g, e, z)
  }

  lemma TakeLeft<T(!new)>(less: (T, T) -> bool, a: seq<T>, b: seq<T>, l: bool, g: bool, e: bool, x: nat, y: nat, out: seq<T>)
    requires StrictTotalOrder(less) && Ascending(less, a) && Ascending(less, b)
    requires Merging(less, a, b, l, g, e, x, y, out) && x < |a| && y < |b| && less(a[x], b[y])
    ensures Merging(less, a, b, l, g, e, x + 1, y, if l then out + [a[x]] else out)
  {
    assert a[..x + 1] == a[..x] + [a[x]];
    assert forall j :: y <= j < |b| ==> less(a[x], b[j]);
  }

  lemma TakeRight<T(!new)>(less: (T, T) -> bool, a: seq<T>, b: seq<T>, l: bool, g: bool, e: bool, x: nat, y: nat, out: seq<T>)
    requires StrictTotalOrder(less) && Ascending(less, a) && Ascending(less, b)
    requires Merging(less, a, b, l, g, e, x, y, out) && x < |a| && y < |b| && less(b[y], a[x])
    ensures Merging(less, a, b, l, g, e, x, y + 1, if g then out + [b[y]] else out)
  {
    assert b[..y + 1] == b[..y] + [b[y]];
    assert forall i :: x <= i < |a| ==> less(b[y], a[i]);
  }

  lemma TakeBoth<T(!new)>(less: (T, T) -> bool, a: seq<T>, b: seq<T>, l: bool, g: bool, e: bool, x: nat, y: nat, out: seq<T>)
    requires StrictTotalOrder(less) && Ascending(less, a) && Ascending(less, b)
    requires Merging(less, a, b, l, g, e, x, y, out) && x < |a| && y < |b| && !less(a[x], b[y]) && !less(b[y], a[x])
    ensures Merging(less, a, b, l, g, e, x + 1, y + 1, if e then out + [a[x]] else out)
  {
    assert a[x] == b[y];
    assert a[..x + 1] == a[..x] + [a[x]] && b[..y + 1] == b[..y] + [b[y]];
  }

  /** One of the lists is used up; the rest of the other one follows. */
  lemma TakeRest<T(!new)>(less: (T, T) -> bool, a: seq<T>, b: seq<T>, l: bool, g: bool, e: bool, x: nat, y: nat, out: seq<T>)
    requires Ascending(less, a) && Ascending(less, b) && StrictTotalOrder(less)
    requires Merging(less, a, b, l, g, e, x, y, out) && (x == |a| || y == |b|)
    ensures var all := if x < |a| then (if l then out + a[x..] else out) else if g then out + b[y..] else out;
            Ascending(less, all) && forall z :: z in all <==> Kept(a, b, l, g, e, z)
  {
    assert a == a[..x] + a[x..] && b == b[..y] + b[y..];
  }

  /** One pass over two ascending lists. The four uses of it are union, symmetric difference,
      intersection and difference. */
  method Merge<T(!new,==)>(less: (T, T) -> bool, a: seq<T>, b: seq<T>, l: bool, g: bool, e: bool)
    returns (out: seq<T>)
    requires StrictTotalOrder(less)
    requires Ascending(less, a) && Ascending(less, b)
    ensures Ascending(less, out)
    ensures forall z :: z in out <==> Kept(a, b, l, g, e, z)
  {
    if |a| == 0 {
      return if g then b else [];
    }
    if |b| == 0 {
      return if l then a else [];
    }
    out := [];
    var x, y := 0, 0;
    while x < |a| && y < |b|
      invariant Merging(less, a, b, l, g, e, x, y, out)
    {
      if less(a[x], b[y]) {
        TakeLeft(less, a, b, l, g, e, x, y, out);
        if l { out := out + [a[x]]; }
        x := x + 1;
      } else if less(b[y], a[x]) {
        TakeRight(less, a, b, l, g, e, x, y, out);
        if g { out := out + [b[y]]; }
        y := y + 1;
      } else {
        TakeBoth(less, a, b, l, g, e, x, y, out);
        if e { out := out + [a[x]]; }
        x, y := x + 1, y + 1;
      }
    }
    TakeRest(less, a, b, l, g, e, x, y, out);
    if x < |a| {
      if l { out := out + a[x..]; }
    } else {
      if g { out := out + b[y..]; }
    }
  }

  /** The list that `list.sort()` leaves behind: insertion into an already sorted tail. */
  function InsertSorted<T>(less: (T, T) -> bool, x: T, s: seq<T>): seq<T> {
    if s == [] || less(x, s[0]) then [x] + s else [s[0]] + InsertSorted(less, x, s[1..])
  }

  function Sort<T>(less: (T, T) -> bool, s: seq<T>): seq<T> {
    if s == [] then [] else InsertSorted(less, s[0], Sort(less, s[1..]))
  }

  lemma {:induction false} InsertSortedSorts<T(!new)>(less: (T, T) -> bool, x: T, s: seq<T>)
    requires StrictTotalOrder(less)
    requires NonDescending(less, s)
    ensures NonDescending(less, InsertSorted(less, x, s))
    ensures forall z :: z in InsertSorted(less, x, s) <==> z == x || z in s
  {
    if s == [] || less(x, s[0]) {
    } else {
      InsertSortedSorts(less, x, s[1..]);
      var tail := InsertSorted(less, x, s[1..]);
      assert forall z :: z in s <==> z == s[0] || z in s[1..];
      assert forall z :: z in tail ==> !less(z, s[0]);
    }
  }

  lemma {:induction false} SortSorts<T(!new)>(less: (T, T) -> bool, s: seq<T>)
    requires StrictTotalOrder(less)
    ensures NonDescending(less, Sort(less, s))
    ensures forall z :: z in Sort(less, s) <==> z in s
  {
    if s == [] {
    } else {
      SortSorts(less, s[1..]);
      InsertSortedSorts(less, s[0], Sort(less, s[1..]));
      assert forall z :: z in s <==> z == s[0] || z in s[1..];
    }
  }

  /** Drops repetitions from a sorted list. Reading `a[0]` of the empty list raises IndexError,
      so the caller has to supply an element. */
  method KillDupes<T(!new,==)>(less: (T, T) -> bool, a: seq<T>) returns (out: seq<T>)
    requires StrictTotalOrder(less)
    requires NonDescending(less, a)
    requires a != []
    ensures Ascending(less, out)
    ensures SetOf(out) == SetOf(a)
  {
    var prev := a[0];
    out := [prev];
    for i := 0 to |a|
      invariant out != [] && prev == out[|out| - 1]
      invariant Ascending(less, out)
      invariant forall j :: i <= j < |a| ==> !less(a[j], prev)
      invariant forall z :: z in out <==> z == a[0] || z in a[..i]
    {
      assert a[..i + 1] == a[..i] + [a[i]];
      if a[i] != prev {
        assert less(prev, a[i]);
        assert forall k :: 0 <= k < |out| ==> less(out[k], a[i]);
        out := out + [a[i]];
        prev := a[i];
      }
    }
    assert a[..|a|] == a;
  }

  /** The first position whose element is not below x, by halving. An upper end of -1 means the
      end of the list. */
  method BisectLeft<T(!new)>(less: (T, T) -> bool, s: seq<T>, x: T) returns (p: nat)
    requires StrictTotalOrder(less)
    requires Ascending(less, s)
    ensures p <= |s|
    ensures forall i :: 0 <= i < p ==> less(s[i], x)
    ensures forall i :: p <= i < |s| ==> !less(s[i], x)
  {
    var lo, hi := 0, |s|;
    while lo < hi
      invariant 0 <= lo <= hi <= |s|
      invariant forall i :: 0 <= i < lo ==> less(s[i], x)
      invariant forall i :: hi <= i < |s| ==> !less(s[i], x)
    {
      var mid := (lo + hi) / 2;
      if less(s[mid], x) {
        lo := mid + 1;
      } else {
        assert forall i :: mid <= i < |s| ==> s[i] == s[mid] || less(s[mid], s[i]);
        hi := mid;
      }
    }
    p := lo;
  }

  class ListSet<T(!new,==)> {
    const less: (T, T) -> bool
    var list: seq<T>

    ghost predicate Valid()
      reads this
    {
      StrictTotalOrder(less) && Ascending(less, list)
    }

    ghost function Elements(): set<T>
      reads this
    {
      SetOf(list)
    }

    constructor (less: (T, T) -> bool)
      requires StrictTotalOrder(less)
      ensures Valid() && this.less == less && list == []
    {
      this.less := less;
      list := [];
    }

    method Contains(item: T) returns (found: bool)
      requires Valid()
      ensures found <==> item in Elements()
    {
      if list == [] {
        return false;
      }
      if !less(item, list[0]) && !less(list[|list| - 1], item) {
        var a := BisectLeft(less, list, item);
        found := item == list[a];
      } else {
        found := false;
      }
    }

    method Add(item: T)
      requires Valid()
      modifies this
      ensures Valid()
      ensures Elements() == old(Elements()) + {item}
      // An element above all others goes to the end.
      ensures (forall z :: z in old(list) ==> less(z, item)) ==> list == old(list) + [item]
    {
      var a := BisectLeft(less, list, item);
      if a == |list| || list[a] != item {
        ghost var was := list;
        list := list[..a] + [item] + list[a..];
        assert was == was[..a] + was[a..];
        assert forall z :: z in list <==> z in was || z == item;
      }
    }

    /** Adds all items. Updating from nothing raises IndexError in `kill_dupes`. */
    method Update(items: seq<T>) returns (ok: bool)
      requires Valid()
      modifies this
      ensures Valid()
      ensures ok <==> items != []
      ensures Elements() == old(Elements()) + SetOf(items)
    {
      if items == [] {
        return false;
      }
      var sorted := Sort(less, items);
      SortSorts(less, items);
      assert items[0] in sorted;
      var distinct := KillDupes(less, sorted);
      assert forall z :: z in SetOf(distinct) <==> z in SetOf(items);
      ghost var was := list;
      list := Merge(less, list, distinct, true, true, true);
      assert forall z :: z in list <==> z in was || z in distinct;
      ok := true;
    }

    /** The elements from x upwards, which are the end of the list. */
    method TailSet(x: T) returns (tail: seq<T>)
      requires Valid()
      ensures |tail| <= |list| && tail == list[|list| - |tail|..]
      ensures forall i :: 0 <= i < |list| - |tail| ==> less(list[i], x)
      ensures forall i :: |list| - |tail| <= i < |list| ==> !less(list[i], x)
    {
      var a := BisectLeft(less, list, x);
      tail := list[a..];
    }

    /** The greatest element; asking an empty set for it raises IndexError. */
    method Last() returns (x: T)
      requires Valid()
      requires list != []
      ensures x in Elements()
      ensures forall z :: z in Elements() ==> z == x || less(z, x)
    {
      x := list[|list| - 1];
    }
  }
}
