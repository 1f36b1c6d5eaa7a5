/** The listing of an exact tree is the walk over the tree: at each position of a text first the texts
    that were inserted there, in the order of their ids, then the character itself. */
module StringWalk {
  import opened HideLists
  import opened ListSets
  import opened StringConvergence
  import opened StringOrder
  import opened StringShape

  // -------------------------------------------------------------------------
  // The walk
  // -------------------------------------------------------------------------

  ghost function AsDeep(recs: Records, d: nat): set<int> {
    set u | u in recs && recs[u].depth >= d
  }

  lemma FewerBelow(recs: Records, u: int, d: nat)
    requires u in recs && recs[u].depth < d
    ensures |AsDeep(recs, d)| < |AsDeep(recs, recs[u].depth)|
  {
    var a, b := AsDeep(recs, d), AsDeep(recs, recs[u].depth);
    assert a <= b - {u} && u in b;
    Smaller(a, b - {u});
  }

  lemma {:induction false} Smaller<T>(a: set<T>, b: set<T>)
    requires a <= b
    ensures |a| <= |b|
    decreases a
  {
    if |a| > 0 {
      var x :| x in a;
      Smaller(a - {x}, b - {x});
      assert |a - {x}| == |a| - 1 && |b - {x}| == |b| - 1;
    }
  }

  ghost function ChildrenAt(recs: Records, u: int, i: int): set<int> {
    set v | v in recs && IsChild(recs, v, u, i)
  }

  lemma {:induction false} HasLeast(s: set<int>, x: int)
    requires x in s
    ensures exists v :: v in s && forall w :: w in s ==> v <= w
    decreases s
  {
    if y :| y in s && y < x {
      var rest := s - {x};
      HasLeast(rest, y);
      var v :| v in rest && forall w :: w in rest ==> v <= w;
      forall w | w in s
        ensures v <= w
      {
        if w != x { assert w in rest; } else { assert v <= y; }
      }
    } else {
      assert forall w :: w in s ==> x <= w;
    }
  }

  ghost function Any<T>(s: set<T>): (x: T)
    requires s != {}
    ensures x in s
  {
    var x :| x in s;
    x
  }

  ghost function Least(s: set<int>): (v: int)
    requires s != {}
    ensures v in s && forall w :: w in s ==> v <= w
  {
    HasLeast(s, Any(s));
    var v :| v in s && forall w :: w in s ==> v <= w;
    v
  }

  /** The walk over a text from a position on. */
  ghost function Walk(recs: Records, u: int, i: nat): seq<Spot>
    requires Tree(recs) && IsText(recs, u)
    decreases |AsDeep(recs, recs[u].depth)|, 1, Len(recs, u) + 1 - i
  {
    if i > Len(recs, u) then []
    else WalkTexts(recs, u, i, ChildrenAt(recs, u, i)) + [Spot(u, i)] + Walk(recs, u, i + 1)
  }

  /** The walk over texts at the same position, least id first. */
  ghost function WalkTexts(recs: Records, u: int, i: nat, texts: set<int>): seq<Spot>
    requires Tree(recs) && IsText(recs, u) && texts <= ChildrenAt(recs, u, i)
    decreases |AsDeep(recs, recs[u].depth)|, 0, |texts|
  {
    if texts == {} then []
    else
      var v := Least(texts);
      FewerBelow(recs, u, recs[v].depth);
      Walk(recs, v, 0) + WalkTexts(recs, u, i, texts - {v})
  }

  // -------------------------------------------------------------------------
  // It is in document order and complete
  // -------------------------------------------------------------------------

  /** x is a spot of the text or of one further down. */
  ghost predicate Inside(recs: Records, u: int, x: Spot) {
    IsSpot(recs, x) && |Path(recs, u)| < |Key(recs, x)| && Path(recs, u) <= Key(recs, x)
  }

  ghost function NextStep(recs: Records, u: int, x: Spot): Step
    requires Inside(recs, u, x)
  {
    Key(recs, x)[|Path(recs, u)|]
  }

  lemma SmallerStep(recs: Records, u: int, x: Spot, y: Spot)
    requires Inside(recs, u, x) && Inside(recs, u, y) && StepLess(NextStep(recs, u, x), NextStep(recs, u, y))
    ensures Before(Key(recs, x), Key(recs, y))
  {
    var p, k, m := Path(recs, u), Key(recs, x), Key(recs, y);
    assert k == p + k[|p|..] && m == p + m[|p|..];
    CommonPrefix(p, k[|p|..], m[|p|..]);
  }

  lemma OrderedSum(recs: Records, a: seq<Spot>, b: seq<Spot>)
    requires InOrder(recs, a) && InOrder(recs, b)
    requires forall x, y :: x in a && y in b ==> Before(Key(recs, x), Key(recs, y))
    ensures InOrder(recs, a + b)
  {
    hide Before, Key;
    var s := a + b;
    var k, ka, kb := Keys(recs, s), Keys(recs, a), Keys(recs, b);
    forall i, j | 0 <= i < j < |k|
      ensures BEFORE(k[i], k[j])
    {
      if j < |a| {
        assert BEFORE(ka[i], ka[j]);
      } else if i >= |a| {
        assert BEFORE(kb[i - |a|], kb[j - |a|]);
      } else {
        assert a[i] in a && b[j - |a|] in b;
      }
    }
  }

  /** The next step into a text leads to its child; at a character the way ends. */
  lemma StepIntoChild(recs: Records, u: int, x: Spot)
    requires Tree(recs) && IsText(recs, u) && Inside(recs, u, x)
    ensures var s := NextStep(recs, u, x);
            && s.position >= 0
            && (s.At? ==> x.uid == u && x.index == s.position)
            && (s.Into? ==> IsChild(recs, s.uid, u, s.position))
  {
    var p, k := Path(recs, u), Key(recs, x);
    var n, s := |p|, k[|p|];
    Positions(recs, x, n);
    if s.Into? {
      Step0(recs, x, k[..n + 1], n);
      assert k[..n + 1][..n] == p;
      PathDetermines(recs, recs[s.uid].change.parent, u);
    } else {
      if n < |Path(recs, x.uid)| { PathSteps(recs, x.uid, n); }
      assert n == |Path(recs, x.uid)|;
      assert k[..n] == Path(recs, x.uid);
      PathDetermines(recs, x.uid, u);
    }
  }

  lemma OwnSpot(recs: Records, u: int, i: int)
    requires Tree(recs) && IsText(recs, u) && 0 <= i <= Len(recs, u)
    ensures Inside(recs, u, Spot(u, i)) && NextStep(recs, u, Spot(u, i)) == At(i)
  {
  }

  /** What is inside a text inserted at a position is what is reached by a step into it. */
  lemma InsideChild(recs: Records, u: int, i: int, v: int, x: Spot)
    requires Tree(recs) && IsText(recs, u) && IsChild(recs, v, u, i)
    ensures Inside(recs, v, x) <==> Inside(recs, u, x) && NextStep(recs, u, x) == Into(i, v)
  {
    PathOf(recs, v);
    var p, k := Path(recs, u), Key(recs, x);
    if Inside(recs, u, x) && NextStep(recs, u, x) == Into(i, v) {
      assert k[|k| - 1] == At(x.index);
      assert k[..|p| + 1] == p + [Into(i, v)];
    }
    if Inside(recs, v, x) {
      assert k[|p|] == Path(recs, v)[|p|];
    }
  }

  ghost predicate IsWalk(recs: Records, u: int, i: nat, w: seq<Spot>) {
    InOrder(recs, w) && forall x :: x in w <==> Inside(recs, u, x) && NextStep(recs, u, x).position >= i
  }

  ghost predicate IsWalkOver(recs: Records, u: int, texts: set<int>, w: seq<Spot>) {
    && InOrder(recs, w)
    && forall x :: x in w <==> Inside(recs, u, x) && NextStep(recs, u, x).Into? && NextStep(recs, u, x).uid in texts
  }

  lemma {:induction false} WalkIsRight(recs: Records, u: int, i: nat)
    requires Tree(recs) && IsText(recs, u)
    ensures IsWalk(recs, u, i, Walk(recs, u, i))
    decreases |AsDeep(recs, recs[u].depth)|, 1, Len(recs, u) + 1 - i
  {
    hide Key, Path, Inside, NextStep, Before;
    if i > Len(recs, u) {
      NothingFurther(recs, u, i);
    } else {
      var texts := ChildrenAt(recs, u, i);
      WalkTextsIsRight(recs, u, i, texts);
      WalkIsRight(recs, u, i + 1);
      OnePosition(recs, u, i, WalkTexts(recs, u, i, texts), Walk(recs, u, i + 1));
    }
  }

  lemma NothingFurther(recs: Records, u: int, i: nat)
    requires Tree(recs) && IsText(recs, u) && i > Len(recs, u)
    ensures IsWalk(recs, u, i, [])
  {
    hide Key, Path, Inside, NextStep;
    forall x | Inside(recs, u, x)
      ensures NextStep(recs, u, x).position < i
    {
      StepIntoChild(recs, u, x);
      SpotInside(recs, u, x);
    }
  }

  lemma SpotInside(recs: Records, u: int, x: Spot)
    requires Tree(recs) && IsText(recs, u) && Inside(recs, u, x)
    ensures IsSpot(recs, x)
    ensures var s := NextStep(recs, u, x); s.Into? && IsChild(recs, s.uid, u, s.position) ==> s.position <= Len(recs, u)
  {
    var s := NextStep(recs, u, x);
    if s.Into? && IsChild(recs, s.uid, u, s.position) {
      assert Fits(recs, recs[s.uid].change);
    }
  }

  lemma OnePosition(recs: Records, u: int, i: nat, a: seq<Spot>, b: seq<Spot>)
    requires Tree(recs) && IsText(recs, u) && i <= Len(recs, u)
    requires IsWalkOver(recs, u, ChildrenAt(recs, u, i), a) && IsWalk(recs, u, i + 1, b)
    ensures IsWalk(recs, u, i, a + [Spot(u, i)] + b)
  {
    hide Key, Path, Inside, NextStep, Before;
    var m := [Spot(u, i)];
    OwnSpot(recs, u, i);
    forall x | Inside(recs, u, x)
      ensures x in a ==> NextStep(recs, u, x).position == i
      ensures NextStep(recs, u, x).position == i ==> x in a || x == Spot(u, i)
    {
      StepIntoChild(recs, u, x);
    }
    forall x, y | x in a && y in m
      ensures Before(Key(recs, x), Key(recs, y))
    {
      SmallerStep(recs, u, x, y);
    }
    OrderedSum(recs, a, m);
    forall x, y | x in a + m && y in b
      ensures Before(Key(recs, x), Key(recs, y))
    {
      assert x in a || x == Spot(u, i);
      SmallerStep(recs, u, x, y);
    }
    OrderedSum(recs, a + m, b);
  }

  lemma {:induction false} WalkTextsIsRight(recs: Records, u: int, i: nat, texts: set<int>)
    requires Tree(recs) && IsText(recs, u) && texts <= ChildrenAt(recs, u, i)
    ensures IsWalkOver(recs, u, texts, WalkTexts(recs, u, i, texts))
    decreases |AsDeep(recs, recs[u].depth)|, 0, |texts|
  {
    hide Key, Path, Inside, NextStep, Before;
    if texts != {} {
      var v := Least(texts);
      FewerBelow(recs, u, recs[v].depth);
      WalkIsRight(recs, v, 0);
      WalkTextsIsRight(recs, u, i, texts - {v});
      OneText(recs, u, i, v, texts, Walk(recs, v, 0), WalkTexts(recs, u, i, texts - {v}));
    }
  }

  lemma OneText(recs: Records, u: int, i: nat, v: int, texts: set<int>, a: seq<Spot>, b: seq<Spot>)
    requires Tree(recs) && IsText(recs, u) && texts <= ChildrenAt(recs, u, i)
    requires v in texts && (forall w :: w in texts ==> v <= w)
    requires IsWalk(recs, v, 0, a) && IsWalkOver(recs, u, texts - {v}, b)
    ensures IsWalkOver(recs, u, texts, a + b)
  {
    hide Key, Path, Inside, NextStep, Before;
    forall x
      ensures x in a <==> Inside(recs, u, x) && NextStep(recs, u, x) == Into(i, v)
    {
      InsideChild(recs, u, i, v, x);
      if Inside(recs, v, x) { StepIntoChild(recs, v, x); }
    }
    forall x | Inside(recs, u, x) && NextStep(recs, u, x).Into? && NextStep(recs, u, x).uid in texts
      ensures NextStep(recs, u, x).position == i
    {
      StepIntoChild(recs, u, x);
    }
    forall x, y | x in a && y in b
      ensures Before(Key(recs, x), Key(recs, y))
    {
      SmallerStep(recs, u, x, y);
    }
    OrderedSum(recs, a, b);
  }

  /** An exact tree lists the walk from the root. */
  lemma {:induction false} ListingIsWalk(recs: Records, s: seq<Entry<Spot>>)
    requires Exact(recs, s)
    ensures Tree(recs) && IsText(recs, ROOT) && Items(s) == Walk(recs, ROOT, 0)
  {
    WalkIsRight(recs, ROOT, 0);
    var w := Walk(recs, ROOT, 0);
    forall x
      ensures x in w <==> IsSpot(recs, x)
    {
      if IsSpot(recs, x) {
        assert Inside(recs, ROOT, x);
        StepIntoChild(recs, ROOT, x);
      }
    }
    OrderIsUnique(recs, Items(s), w);
  }
}
