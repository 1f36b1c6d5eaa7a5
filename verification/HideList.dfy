/** Lists with hidden elements: the plain list of (item, visible) pairs that both implementations
    stand for. */
module HideLists {
  import opened Options

  datatype Entry<Item> = Entry(item: Item, visible: bool)

  /** The visible items in order. */
  function Visible<Item>(s: seq<Entry<Item>>): (v: seq<Item>)
    ensures |v| <= |s|
  {
    if s == [] then [] else
    var last := s[|s| - 1];
    Visible(s[..|s| - 1]) + if last.visible then [last.item] else []
  }

  function Items<Item>(s: seq<Entry<Item>>): seq<Item> {
    seq(|s|, i requires 0 <= i < |s| => s[i].item)
  }

  /** How many visible elements come before place j: the index of a hidden element is that of the
      next visible one. */
  function Rank<Item>(s: seq<Entry<Item>>, j: nat): nat
    requires j <= |s|
  {
    |Visible(s[..j])|
  }

  /** The place of the k-th visible element. */
  function Place<Item>(s: seq<Entry<Item>>, k: nat): (j: nat)
    requires k < |Visible(s)|
    ensures j < |s| && s[j].visible && s[j].item == Visible(s)[k] && Rank(s, j) == k
  {
    var front := s[..|s| - 1];
    if k < |Visible(front)| then
      var j := Place(front, k);
      assert front[..j] == s[..j];
      j
    else |s| - 1
  }

  ghost predicate Distinct<T>(s: seq<T>) {
    forall i, j :: 0 <= i < j < |s| ==> s[i] != s[j]
  }

  /** The place of an item. */
  function Where<Item(==)>(s: seq<Entry<Item>>, item: Item): (j: nat)
    requires item in Items(s)
    ensures j < |s| && s[j].item == item
  {
    if s[0].item == item then 0
    else
      assert item in Items(s[1..]) by {
        var i :| 0 <= i < |s| && s[i].item == item;
        assert Items(s[1..])[i - 1] == item;
      }
      1 + Where(s[1..], item)
  }

  function Listed<Item>(items: seq<Item>, visibility: seq<bool>): seq<Entry<Item>>
    requires |items| == |visibility|
  {
    seq(|items|, i requires 0 <= i < |items| => Entry(items[i], visibility[i]))
  }

  function InsertAt<T>(s: seq<T>, j: nat, t: seq<T>): seq<T>
    requires j <= |s|
  {
    s[..j] + t + s[j..]
  }

  /** Hides the visible elements p to p + n - 1. */
  function Hide<Item>(s: seq<Entry<Item>>, p: nat, n: nat): (t: seq<Entry<Item>>)
    ensures |t| == |s|
  {
    seq(|s|, j requires 0 <= j < |s| => if p <= Rank(s, j) < p + n then Entry(s[j].item, false) else s[j])
  }

  // -------------------------------------------------------------------------
  // Facts
  // -------------------------------------------------------------------------

  lemma {:induction false} VisibleSum<Item>(a: seq<Entry<Item>>, b: seq<Entry<Item>>)
    ensures Visible(a + b) == Visible(a) + Visible(b)
    decreases |b|
  {
    if b == [] {
      assert a + b == a;
    } else {
      var front := b[..|b| - 1];
      assert (a + b)[..|a + b| - 1] == a + front;
      VisibleSum(a, front);
    }
  }

  lemma RankOfNone<Item>(s: seq<Entry<Item>>)
    ensures Rank(s, 0) == 0
  {
    assert s[..0] == [];
  }

  lemma RankStep<Item>(s: seq<Entry<Item>>, j: nat)
    requires j < |s|
    ensures Rank(s, j + 1) == Rank(s, j) + if s[j].visible then 1 else 0
  {
    assert s[..j + 1][..j] == s[..j];
  }

  lemma {:induction false} RankMonotone<Item>(s: seq<Entry<Item>>, i: nat, j: nat)
    requires i <= j <= |s|
    ensures Rank(s, i) <= Rank(s, j) <= |Visible(s)| == Rank(s, |s|)
    ensures i < j && s[i].visible ==> Rank(s, i) < Rank(s, j)
    decreases |s| - i
  {
    assert s[..|s|] == s;
    if i < |s| {
      RankStep(s, i);
      RankMonotone(s, i + 1, if i < j then j else i + 1);
    }
  }

  lemma {:induction false} PlaceIsUnique<Item>(s: seq<Entry<Item>>, j: nat)
    requires j < |s| && s[j].visible
    ensures Rank(s, j) < |Visible(s)| && Place(s, Rank(s, j)) == j
  {
    RankMonotone(s, j, |s|);
    var k := Place(s, Rank(s, j));
    if j < k { RankMonotone(s, j, k); } else if k < j { RankMonotone(s, k, j); }
  }

  lemma {:induction false} WhereIsUnique<Item>(s: seq<Entry<Item>>, j: nat)
    requires j < |s| && Distinct(Items(s))
    ensures Items(s)[j] == s[j].item && s[j].item in Items(s) && Where(s, s[j].item) == j
  {
    assert Items(s)[j] == s[j].item;
    var k := Where(s, s[j].item);
    assert Items(s)[k] == s[j].item;
  }

  /** Insertion in terms of the visible text. */
  lemma {:induction false} VisibleInserted<Item>(s: seq<Entry<Item>>, j: nat, t: seq<Entry<Item>>)
    requires j <= |s|
    ensures Rank(s, j) <= |Visible(s)|
    ensures Visible(InsertAt(s, j, t)) == InsertAt(Visible(s), Rank(s, j), Visible(t))
  {
    VisibleSum(s[..j], s[j..]);
    assert s[..j] + s[j..] == s;
    VisibleSum(s[..j] + t, s[j..]);
    VisibleSum(s[..j], t);
  }

  lemma HideStep<Item>(s: seq<Entry<Item>>, p: nat, n: nat)
    requires s != []
    ensures var front := s[..|s| - 1];
            Hide(s, p, n)[..|s| - 1] == Hide(front, p, n)
  {
    var front := s[..|s| - 1];
    forall j | 0 <= j < |front|
      ensures Hide(s, p, n)[j] == Hide(front, p, n)[j]
    {
      assert front[..j] == s[..j];
    }
  }

  /** The text that is left. */
  function Cut<T>(s: seq<T>, p: nat, n: nat): seq<T> {
    if |s| <= p then s else s[..p] + if |s| <= p + n then [] else s[p + n..]
  }

  lemma CutNothing<T>(p: nat, n: nat)
    ensures Cut<T>([], p, n) == []
  {
  }

  lemma CutStep<T>(v: seq<T>, x: T, p: nat, n: nat)
    ensures Cut(v + [x], p, n) == Cut(v, p, n) + if p <= |v| < p + n then [] else [x]
  {
    if p <= |v| {
      assert (v + [x])[..p] == v[..p];
      if p + n <= |v| { assert (v + [x])[p + n..] == v[p + n..] + [x]; }
    }
  }

  function Shown<Item>(e: Entry<Item>): seq<Item> {
    if e.visible then [e.item] else []
  }

  lemma {:induction false} VisibleSnoc<Item>(s: seq<Entry<Item>>, e: Entry<Item>)
    ensures Visible(s + [e]) == Visible(s) + Shown(e)
  {
    assert (s + [e])[..|s|] == s;
  }

  lemma {:induction false} HideSnoc<Item>(s: seq<Entry<Item>>, e: Entry<Item>, p: nat, n: nat)
    ensures Hide(s + [e], p, n) == Hide(s, p, n) + [if p <= |Visible(s)| < p + n then Entry(e.item, false) else e]
  {
    HideStep(s + [e], p, n);
    assert (s + [e])[..|s|] == s;
  }

  /** Hiding in terms of the visible text. */
  lemma {:induction false} VisibleHidden<Item>(s: seq<Entry<Item>>, p: nat, n: nat)
    ensures Visible(Hide(s, p, n)) == Cut(Visible(s), p, n)
    decreases |s|
  {
    if s == [] {
      CutNothing<Item>(p, n);
    } else {
      hide Visible, Hide, Cut;
      var front, e := s[..|s| - 1], s[|s| - 1];
      assert s == front + [e];
      VisibleHidden(front, p, n);
      VisibleSnoc(front, e);
      HideSnoc(front, e, p, n);
      var e' := if p <= |Visible(front)| < p + n then Entry(e.item, false) else e;
      VisibleSnoc(Hide(front, p, n), e');
      var v, c := Visible(front), Cut(Visible(front), p, n);
      if e.visible {
        CutStep(v, e.item, p, n);
      } else {
        assert v + [] == v && c + [] == c;
      }
    }
  }

  lemma CutLength<T>(v: seq<T>, p: nat, n: nat)
    ensures |Cut(v, p, n)| == if |v| <= p then |v| else if |v| <= p + n then p else |v| - n
  {
  }

  /** Hiding one more at the same position extends the stretch. */
  lemma {:induction false} HideMore<Item>(s: seq<Entry<Item>>, p: nat, n: nat)
    ensures Hide(Hide(s, p, n), p, 1) == Hide(s, p, n + 1)
    decreases |s|
  {
    if s != [] {
      hide Visible, Hide, Cut;
      var front, e := s[..|s| - 1], s[|s| - 1];
      assert s == front + [e];
      HideMore(front, p, n);
      VisibleHidden(front, p, n);
      HideSnoc(front, e, p, n);
      HideSnoc(front, e, p, n + 1);
      var e' := if p <= |Visible(front)| < p + n then Entry(e.item, false) else e;
      var t := Hide(front, p, n);
      assert Hide(s, p, n) == t + [e'];
      HideSnoc(t, e', p, 1);
      CutLength(Visible(front), p, n);
    }
  }

  /** The rank of an element after hiding. */
  lemma RankOfHidden<Item>(s: seq<Entry<Item>>, p: nat, n: nat, i: nat)
    requires i <= |s|
    ensures var r := Rank(s, i);
            Rank(Hide(s, p, n), i) == if r <= p then r else if r <= p + n then p else r - n
  {
    hide Visible, Cut;
    var t := Hide(s, p, n);
    forall j | 0 <= j < i
      ensures t[..i][j] == Hide(s[..i], p, n)[j]
    {
      assert s[..i][..j] == s[..j];
    }
    assert t[..i] == Hide(s[..i], p, n);
    VisibleHidden(s[..i], p, n);
    CutLength(Visible(s[..i]), p, n);
  }

  /** Hiding twice at the same position is hiding once. */
  lemma {:induction false} HideAgain<Item>(s: seq<Entry<Item>>, p: nat, a: nat, b: nat)
    ensures Hide(Hide(s, p, a), p, b) == Hide(s, p, a + b)
    decreases b
  {
    hide Hide;
    if b == 0 {
      HideNothing(Hide(s, p, a), p);
    } else {
      HideAgain(s, p, a, b - 1);
      HideMore(Hide(s, p, a), p, b - 1);
      HideMore(s, p, a + b - 1);
    }
  }

  lemma HideNothing<Item>(s: seq<Entry<Item>>, p: nat)
    ensures Hide(s, p, 0) == s
  {
  }
}
