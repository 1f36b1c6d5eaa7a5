/** Document order: where a piece of text belongs, read off the way down to it from the root. */
module StringOrder {
  import opened HideLists
  import opened ListSets

  /** A step down the tree: into the text uid inserted at a position, or, as the last step, to the
      character at a position. */
  datatype Step = Into(position: int, uid: int) | At(position: int)

  /** Texts inserted at a position come before the character there, in the order of their ids. */
  predicate StepLess(a: Step, b: Step) {
    a.position < b.position || (a.position == b.position && a.Into? && (b.At? || a.uid < b.uid))
  }

  predicate Before(a: seq<Step>, b: seq<Step>) {
    b != [] && (a == [] || StepLess(a[0], b[0]) || (a[0] == b[0] && Before(a[1..], b[1..])))
  }

  const BEFORE: (seq<Step>, seq<Step>) -> bool := (a, b) => Before(a, b)

  lemma {:induction false} BeforeIrreflexive(a: seq<Step>)
    ensures !Before(a, a)
  {
    if a != [] { BeforeIrreflexive(a[1..]); }
  }

  lemma {:induction false} BeforeTransitive(a: seq<Step>, b: seq<Step>, c: seq<Step>)
    requires Before(a, b) && Before(b, c)
    ensures Before(a, c)
  {
    if a != [] && a[0] == b[0] && b[0] == c[0] { BeforeTransitive(a[1..], b[1..], c[1..]); }
  }

  lemma {:induction false} BeforeTotal(a: seq<Step>, b: seq<Step>)
    ensures a == b || Before(a, b) || Before(b, a)
  {
    if a != [] && b != [] && a[0] == b[0] {
      BeforeTotal(a[1..], b[1..]);
      assert a == [a[0]] + a[1..] && b == [b[0]] + b[1..];
    }
  }

  lemma BeforeIsOrder()
    ensures StrictTotalOrder(BEFORE)
  {
    forall x ensures !BEFORE(x, x) { BeforeIrreflexive(x); }
    forall x, y, z | BEFORE(x, y) && BEFORE(y, z) ensures BEFORE(x, z) { BeforeTransitive(x, y, z); }
    forall x, y ensures x == y || BEFORE(x, y) || BEFORE(y, x) { BeforeTotal(x, y); }
  }

  /** A common beginning does not matter. */
  lemma {:induction false} CommonPrefix(p: seq<Step>, a: seq<Step>, b: seq<Step>)
    ensures Before(p + a, p + b) <==> Before(a, b)
  {
    if p == [] {
      assert p + a == a && p + b == b;
    } else {
      assert (p + a)[1..] == p[1..] + a && (p + b)[1..] == p[1..] + b;
      CommonPrefix(p[1..], a, b);
    }
  }

  /** What lies between two things with a common beginning begins like them. */
  lemma {:induction false} Squeezed(p: seq<Step>, a: seq<Step>, x: seq<Step>, b: seq<Step>)
    requires Before(p + a, x) && Before(x, p + b)
    ensures p <= x && x == p + x[|p|..]
  {
    if p != [] {
      assert (p + a)[1..] == p[1..] + a && (p + b)[1..] == p[1..] + b;
      assert x != [] && x[0] == p[0];
      Squeezed(p[1..], a, x[1..], b);
      assert x == [x[0]] + x[1..];
      assert p == [p[0]] + p[1..];
    }
  }

  // -------------------------------------------------------------------------
  // The records of a string tree
  // -------------------------------------------------------------------------

  datatype Edit =
    | Insertion(position: int, text: string)
    | Deletion(position: int, length: int)

  datatype Change = Change(uid: int, parent: int, edit: Edit)

  datatype Record = Record(change: Change, depth: nat)

  type Records = map<int, Record>

  /** A character of a text, or the hidden mark at its end. */
  datatype Spot = Spot(uid: int, index: int)

  const ROOT := -1

  const ROOT_RECORD := Record(Change(ROOT, ROOT, Insertion(0, "")), 0)

  predicate IsText(recs: Records, u: int) {
    u in recs && recs[u].change.edit.Insertion?
  }

  function Len(recs: Records, u: int): nat
    requires IsText(recs, u)
  {
    |recs[u].change.edit.text|
  }

  predicate IsSpot(recs: Records, x: Spot) {
    IsText(recs, x.uid) && 0 <= x.index <= Len(recs, x.uid)
  }

  /** May c be added to these records? */
  predicate Fits(recs: Records, c: Change) {
    c.parent in recs && (c.edit.Insertion? ==> IsSpot(recs, Spot(c.parent, c.edit.position)))
  }

  ghost predicate Tree(recs: Records) {
    && ROOT in recs && recs[ROOT] == ROOT_RECORD
    && forall u :: u in recs && u != ROOT ==> recs[u].change.uid == u && Fits(recs, recs[u].change)
                                              && recs[u].depth == recs[recs[u].change.parent].depth + 1
  }

  function Added(recs: Records, c: Change): Records
    requires c.parent in recs
  {
    recs[c.uid := Record(c, recs[c.parent].depth + 1)]
  }

  lemma AddedTree(recs: Records, c: Change)
    requires Tree(recs) && Fits(recs, c) && c.uid !in recs
    ensures Tree(Added(recs, c))
    ensures forall u :: IsText(recs, u) ==> IsText(Added(recs, c), u) && Len(Added(recs, c), u) == Len(recs, u)
  {
  }

  /** The way down to a text. */
  ghost function Path(recs: Records, u: int): seq<Step>
    decreases if u in recs then recs[u].depth + 1 else 0
  {
    if u == ROOT || !IsText(recs, u) then []
    else
      var c := recs[u].change;
      if c.parent in recs && recs[c.parent].depth < recs[u].depth then Path(recs, c.parent) + [Into(c.edit.position, u)] else []
  }

  ghost function Key(recs: Records, x: Spot): seq<Step> {
    Path(recs, x.uid) + [At(x.index)]
  }

  lemma {:induction false} PathKept(recs: Records, c: Change, u: int)
    requires Tree(recs) && Fits(recs, c) && c.uid !in recs && u in recs
    ensures Path(Added(recs, c), u) == Path(recs, u)
    decreases recs[u].depth
  {
    if u != ROOT && IsText(recs, u) { PathKept(recs, c, recs[u].change.parent); }
  }

  /** Every step of a way leads to a text, and the way so far is the way to it. */
  lemma {:induction false} PathSteps(recs: Records, u: int, n: nat)
    requires Tree(recs) && u in recs && n < |Path(recs, u)|
    ensures var s := Path(recs, u)[n];
            s.Into? && s.uid != ROOT && IsText(recs, s.uid) && s.position == recs[s.uid].change.edit.position
            && Path(recs, s.uid) == Path(recs, u)[..n + 1]
            && Path(recs, recs[s.uid].change.parent) == Path(recs, u)[..n]
    decreases recs[u].depth
  {
    var p := Path(recs, u);
    var q := recs[u].change.parent;
    if n < |p| - 1 {
      PathSteps(recs, q, n);
      assert p[..n + 1] == Path(recs, q)[..n + 1] && p[..n] == Path(recs, q)[..n];
    } else {
      assert p[..n + 1] == p && p[..n] == Path(recs, q);
    }
  }

  lemma {:induction false} PathOf(recs: Records, u: int)
    requires Tree(recs) && IsText(recs, u) && u != ROOT
    ensures Path(recs, u) == Path(recs, recs[u].change.parent) + [Into(recs[u].change.edit.position, u)]
  {
  }

  lemma {:induction false} PathDetermines(recs: Records, u: int, v: int)
    requires Tree(recs) && IsText(recs, u) && IsText(recs, v) && Path(recs, u) == Path(recs, v)
    ensures u == v
  {
    if u != ROOT { PathOf(recs, u); }
    if v != ROOT { PathOf(recs, v); }
    if u != ROOT && v != ROOT {
      var a, b := Path(recs, u), Path(recs, v);
      assert a[|a| - 1] == b[|b| - 1];
    }
  }

  lemma KeyDetermines(recs: Records, x: Spot, y: Spot)
    requires Tree(recs) && IsText(recs, x.uid) && IsText(recs, y.uid) && Key(recs, x) == Key(recs, y)
    ensures x == y
  {
    var a, b := Key(recs, x), Key(recs, y);
    assert a[|a| - 1] == b[|b| - 1];
    assert a[..|a| - 1] == Path(recs, x.uid) && b[..|b| - 1] == Path(recs, y.uid);
    PathDetermines(recs, x.uid, y.uid);
  }

  // -------------------------------------------------------------------------
  // Listings in document order
  // -------------------------------------------------------------------------

  ghost function Keys(recs: Records, spots: seq<Spot>): (k: seq<seq<Step>>)
    ensures |k| == |spots|
  {
    seq(|spots|, i requires 0 <= i < |spots| => Key(recs, spots[i]))
  }

  ghost predicate InOrder(recs: Records, spots: seq<Spot>) {
    Ascending(BEFORE, Keys(recs, spots))
  }

  /** A listing in document order is determined by the texts in it. */
  lemma OrderIsUnique(recs: Records, a: seq<Spot>, b: seq<Spot>)
    requires Tree(recs) && InOrder(recs, a) && InOrder(recs, b)
    requires forall x :: x in a <==> IsSpot(recs, x)
    requires forall x :: x in b <==> IsSpot(recs, x)
    ensures a == b
  {
    BeforeIsOrder();
    var k, m := Keys(recs, a), Keys(recs, b);
    forall y | y in k
      ensures y in m
    {
      var i :| 0 <= i < |k| && k[i] == y;
      assert a[i] in a && a[i] in b;
      var j :| 0 <= j < |b| && b[j] == a[i];
      assert m[j] == y;
    }
    forall y | y in m
      ensures y in k
    {
      var i :| 0 <= i < |m| && m[i] == y;
      assert b[i] in b && b[i] in a;
      var j :| 0 <= j < |a| && a[j] == b[i];
      assert k[j] == y;
    }
    assert SetOf(k) == SetOf(m);
    AscendingIsUnique(BEFORE, k, m);
    forall i | 0 <= i < |a|
      ensures a[i] == b[i]
    {
      assert a[i] in a && b[i] in b && k[i] == m[i];
      KeyDetermines(recs, a[i], b[i]);
    }
  }

  /** u is a text inserted at a position of p. */
  predicate IsChild(recs: Records, u: int, p: int, position: int) {
    IsText(recs, u) && u != ROOT && recs[u].change.parent == p && recs[u].change.edit.position == position
  }

  /** The spots a new text brings. */
  function Block(uid: int, length: nat): (b: seq<Spot>)
    ensures |b| == length + 1
  {
    seq(length + 1, i => Spot(uid, i))
  }

  // -------------------------------------------------------------------------
  // One more text
  // -------------------------------------------------------------------------

  /** A change that brings a new text. */
  ghost predicate NewText(recs: Records, c: Change) {
    Tree(recs) && Fits(recs, c) && c.uid !in recs && c.edit.Insertion?
  }

  /** The key of spot i of the new text. */
  ghost function NewKey(recs: Records, c: Change, i: int): seq<Step> {
    Path(recs, c.parent) + [Into(c.edit.position, c.uid), At(i)]
  }

  lemma {:induction false} NewKeyIsKey(recs: Records, c: Change, i: int)
    requires NewText(recs, c)
    ensures Key(Added(recs, c), Spot(c.uid, i)) == NewKey(recs, c, i)
    ensures Path(Added(recs, c), c.uid) == Path(recs, c.parent) + [Into(c.edit.position, c.uid)]
  {
    AddedTree(recs, c);
    PathOf(Added(recs, c), c.uid);
    PathKept(recs, c, c.parent);
    assert Path(recs, c.parent) + [Into(c.edit.position, c.uid)] + [At(i)] == NewKey(recs, c, i);
  }

  lemma OldKey(recs: Records, c: Change, x: Spot)
    requires Tree(recs) && Fits(recs, c) && c.uid !in recs && IsText(recs, x.uid)
    ensures Key(Added(recs, c), x) == Key(recs, x)
  {
    PathKept(recs, c, x.uid);
  }

  /** No spot lies among those of the new text. */
  lemma NothingInside(recs: Records, c: Change, i: int, x: Spot, j: int)
    requires NewText(recs, c) && IsText(recs, x.uid)
    requires Before(NewKey(recs, c, i), Key(recs, x))
    ensures !Before(Key(recs, x), NewKey(recs, c, j))
  {
    if Before(Key(recs, x), NewKey(recs, c, j)) {
      var p := Path(recs, c.parent) + [Into(c.edit.position, c.uid)];
      assert NewKey(recs, c, i) == p + [At(i)] && NewKey(recs, c, j) == p + [At(j)];
      Squeezed(p, [At(i)], Key(recs, x), [At(j)]);
      Step0(recs, x, p, |p| - 1);
    }
  }

  /** A step of a key that leads into a text leads into a known one. */
  lemma {:induction false} Step0(recs: Records, x: Spot, p: seq<Step>, n: nat)
    requires Tree(recs) && IsText(recs, x.uid) && p <= Key(recs, x) && n < |p| && p[n].Into?
    ensures n < |Path(recs, x.uid)| && p[n] == Path(recs, x.uid)[n]
    ensures IsText(recs, p[n].uid) && IsChild(recs, p[n].uid, recs[p[n].uid].change.parent, p[n].position)
    ensures Path(recs, recs[p[n].uid].change.parent) == p[..n]
  {
    var k := Key(recs, x);
    assert k[n] == p[n];
    assert k[|k| - 1] == At(x.index);
    assert n < |k| - 1;
    PathSteps(recs, x.uid, n);
    assert Path(recs, x.uid)[..n] == p[..n];
  }

  /** All spots with smaller keys than the target come before the new text. */
  ghost predicate FitsLeftOf(recs: Records, c: Change, target: Spot) {
    forall x :: IsSpot(recs, x) && Before(Key(recs, x), Key(recs, target)) ==> Before(Key(recs, x), NewKey(recs, c, 0))
  }

  /** Left of the character itself is right when no greater id was inserted there. */
  lemma FitsAtCharacter(recs: Records, c: Change)
    requires NewText(recs, c)
    ensures var target := Spot(c.parent, c.edit.position);
            && Before(NewKey(recs, c, 0), Key(recs, target))
            && (FitsLeftOf(recs, c, target) <==> !exists w :: w > c.uid && IsChild(recs, w, c.parent, c.edit.position))
  {
    var p, target := Path(recs, c.parent), Spot(c.parent, c.edit.position);
    var a, b := [Into(c.edit.position, c.uid), At(0)], [At(c.edit.position)];
    CommonPrefix(p, a, b);
    assert Before(a, b);
    if w :| w > c.uid && IsChild(recs, w, c.parent, c.edit.position) {
      var x := Spot(w, 0);
      PathOf(recs, w);
      var m := [Into(c.edit.position, w), At(0)];
      assert Key(recs, x) == p + m;
      CommonPrefix(p, m, b);
      CommonPrefix(p, m, a);
      assert IsSpot(recs, x) && Before(Key(recs, x), Key(recs, target)) && !Before(Key(recs, x), NewKey(recs, c, 0));
    } else {
      forall x | IsSpot(recs, x) && Before(Key(recs, x), Key(recs, target))
        ensures Before(Key(recs, x), NewKey(recs, c, 0))
      {
        if !Before(Key(recs, x), NewKey(recs, c, 0)) {
          SameOrAfter(recs, c, x);
          var v := AmongSiblings(recs, c, x, b);
          assert false;
        }
      }
    }
  }

  /** What lies between the new text and the end of its position lies in or before a sibling. */
  lemma AmongSiblings(recs: Records, c: Change, x: Spot, b: seq<Step>) returns (v: int)
    requires NewText(recs, c) && IsText(recs, x.uid) && Before(NewKey(recs, c, 0), Key(recs, x))
    requires b != [] && b[0].position == c.edit.position && Before(Key(recs, x), Path(recs, c.parent) + b)
    requires b == [At(c.edit.position)] || b[0].Into?
    ensures v > c.uid && IsChild(recs, v, c.parent, c.edit.position)
    ensures b[0].Into? ==> v <= b[0].uid
    ensures var n, k := |Path(recs, c.parent)|, Key(recs, x);
            n + 1 < |k| && k[..n] == Path(recs, c.parent) && k[n] == Into(c.edit.position, v) && k[..n + 1] == Path(recs, v)
            && (b[0] == k[n] ==> Before(k[n + 1..], b[1..]))
  {
    var p, k := Path(recs, c.parent), Key(recs, x);
    var a := [Into(c.edit.position, c.uid), At(0)];
    Squeezed(p, a, k, b);
    var z := k[|p|..];
    CommonPrefix(p, a, z);
    CommonPrefix(p, z, b);
    v := z[0].uid;
    assert z[0].Into? && z[0].position == c.edit.position && v >= c.uid;
    assert z[0] == k[|p|] && z[1..] == k[|p| + 1..];
    Step0(recs, x, k[..|p| + 1], |p|);
    assert k[..|p| + 1][..|p|] == p;
    PathDetermines(recs, recs[v].change.parent, c.parent);
    PathOf(recs, v);
  }

  lemma SameOrAfter(recs: Records, c: Change, x: Spot)
    requires NewText(recs, c) && IsText(recs, x.uid) && !Before(Key(recs, x), NewKey(recs, c, 0))
    ensures Before(NewKey(recs, c, 0), Key(recs, x))
  {
    BeforeTotal(Key(recs, x), NewKey(recs, c, 0));
    if Key(recs, x) == NewKey(recs, c, 0) {
      Step0(recs, x, Key(recs, x), |Path(recs, c.parent)|);
      assert false;
    }
  }

  /** Left of the first character of the next greater id is right when nothing was inserted at the
      beginning of that text. */
  lemma FitsAtSibling(recs: Records, c: Change, w: int)
    requires NewText(recs, c) && w > c.uid && IsChild(recs, w, c.parent, c.edit.position)
    requires forall v :: v > c.uid && IsChild(recs, v, c.parent, c.edit.position) ==> w <= v
    ensures var target := Spot(w, 0);
            && Before(NewKey(recs, c, 0), Key(recs, target))
            && (FitsLeftOf(recs, c, target) <==> !exists v :: IsChild(recs, v, w, 0))
  {
    var p, target := Path(recs, c.parent), Spot(w, 0);
    PathOf(recs, w);
    var a, b := [Into(c.edit.position, c.uid), At(0)], [Into(c.edit.position, w), At(0)];
    assert Key(recs, target) == p + b;
    CommonPrefix(p, a, b);
    if v :| IsChild(recs, v, w, 0) {
      var x := Spot(v, 0);
      PathOf(recs, v);
      var m := [Into(c.edit.position, w), Into(0, v), At(0)];
      assert Key(recs, x) == p + m;
      assert Before(m[1..], b[1..]);
      CommonPrefix(p, m, b);
      CommonPrefix(p, m, a);
      assert IsSpot(recs, x) && Before(Key(recs, x), Key(recs, target)) && !Before(Key(recs, x), NewKey(recs, c, 0));
    } else {
      forall x | IsSpot(recs, x) && Before(Key(recs, x), Key(recs, target))
        ensures Before(Key(recs, x), NewKey(recs, c, 0))
      {
        if !Before(Key(recs, x), NewKey(recs, c, 0)) {
          SameOrAfter(recs, c, x);
          InsideSibling(recs, c, w, x);
          assert false;
        }
      }
    }
  }

  /** What lies between the new text and the next sibling's first character was inserted before that
      character. */
  lemma InsideSibling(recs: Records, c: Change, w: int, x: Spot)
    requires NewText(recs, c) && w > c.uid && IsChild(recs, w, c.parent, c.edit.position) && IsSpot(recs, x)
    requires forall v :: v > c.uid && IsChild(recs, v, c.parent, c.edit.position) ==> w <= v
    requires Before(NewKey(recs, c, 0), Key(recs, x)) && Before(Key(recs, x), Key(recs, Spot(w, 0)))
    ensures exists v :: IsChild(recs, v, w, 0)
  {
    PathOf(recs, w);
    var n, k, b := |Path(recs, w)|, Key(recs, x), [Into(c.edit.position, w), At(0)];
    assert Key(recs, Spot(w, 0)) == Path(recs, c.parent) + b;
    var v := AmongSiblings(recs, c, x, b);
    assert v == w;
    var z := k[n..];
    assert Before(z, [At(0)]) && z[0] == k[n];
    Positions(recs, x, n);
    assert z[0].Into? && z[0].position == 0;
    Step0(recs, x, k[..n + 1], n);
    assert k[..n + 1][..n] == Path(recs, w);
    PathDetermines(recs, recs[z[0].uid].change.parent, w);
    assert IsChild(recs, z[0].uid, w, 0);
  }

  lemma Positions(recs: Records, x: Spot, n: nat)
    requires Tree(recs) && IsSpot(recs, x) && n < |Key(recs, x)|
    ensures Key(recs, x)[n].position >= 0
  {
    if n < |Path(recs, x.uid)| { PathSteps(recs, x.uid, n); }
  }

  /** What `_effective_parent` computes: the first character of the next greater sibling, or the
      character itself if there is none. */
  ghost predicate IsEffective(recs: Records, c: Change, target: Spot) {
    var position := c.edit.position;
    if exists w :: w > c.uid && IsChild(recs, w, c.parent, position) then
      && target.index == 0 && target.uid > c.uid && IsChild(recs, target.uid, c.parent, position)
      && forall v :: v > c.uid && IsChild(recs, v, c.parent, position) ==> target.uid <= v
    else target == Spot(c.parent, position)
  }

  /** The spots of the new text. */
  function NewBlock(c: Change): seq<Spot>
    requires c.edit.Insertion?
  {
    Block(c.uid, |c.edit.text|)
  }

  /** The key at place i after the insertion. */
  ghost function KeyAt(recs: Records, c: Change, spots: seq<Spot>, j: nat, n: nat, i: nat): seq<Step>
    requires j <= |spots| && i < |spots| + n
  {
    if i < j then Key(recs, spots[i]) else if i < j + n then NewKey(recs, c, i - j) else Key(recs, spots[i - n])
  }

  /** The keys of a list after an insertion. */
  lemma KeysInserted(recs: Records, c: Change, spots: seq<Spot>, j: nat, i: nat)
    requires NewText(recs, c) && j <= |spots| && forall x :: x in spots ==> IsText(recs, x.uid)
    ensures |InsertAt(spots, j, NewBlock(c))| == |spots| + |NewBlock(c)|
    ensures i < |spots| + |NewBlock(c)| ==>
              Key(Added(recs, c), InsertAt(spots, j, NewBlock(c))[i]) == KeyAt(recs, c, spots, j, |NewBlock(c)|, i)
  {
    hide Key, NewKey, Added;
    var after, n := InsertAt(spots, j, NewBlock(c)), |NewBlock(c)|;
    if i < j {
      OldKey(recs, c, spots[i]);
    } else if i < j + n {
      assert after[i] == NewBlock(c)[i - j];
      NewKeyIsKey(recs, c, i - j);
    } else if i < |spots| + n {
      assert after[i] == spots[i - n];
      OldKey(recs, c, spots[i - n]);
    }
  }

  lemma SmallerIsLeft(recs: Records, spots: seq<Spot>, i: nat, j: nat)
    requires InOrder(recs, spots) && i < |spots| && j < |spots| && Before(Key(recs, spots[i]), Key(recs, spots[j]))
    ensures i < j
  {
    hide Before, Key;
    var k := Keys(recs, spots);
    if i == j {
      BeforeIrreflexive(k[i]);
    } else if j < i {
      assert BEFORE(k[j], k[i]);
      BeforeTransitive(k[i], k[j], k[i]);
      BeforeIrreflexive(k[i]);
    }
  }

  lemma NewKeysAscend(recs: Records, c: Change, i: int, j: int)
    requires i < j
    ensures Before(NewKey(recs, c, i), NewKey(recs, c, j))
  {
    var p, s := Path(recs, c.parent), [Into(c.edit.position, c.uid)];
    CommonPrefix(p, s + [At(i)], s + [At(j)]);
    CommonPrefix(s, [At(i)], [At(j)]);
    assert s + [At(i)] == [Into(c.edit.position, c.uid), At(i)] && s + [At(j)] == [Into(c.edit.position, c.uid), At(j)];
  }

  /** Old and new keys compare alike wherever in the new text. */
  lemma OldAndNew(recs: Records, c: Change, x: Spot, i: int, j: int)
    requires NewText(recs, c) && IsText(recs, x.uid)
    ensures Before(Key(recs, x), NewKey(recs, c, i)) ==> Before(Key(recs, x), NewKey(recs, c, j))
    ensures Before(NewKey(recs, c, i), Key(recs, x)) ==> Before(NewKey(recs, c, j), Key(recs, x))
  {
    hide Before, NewKey, Key;
    var k, a, b := Key(recs, x), NewKey(recs, c, i), NewKey(recs, c, j);
    NotNewKey(recs, c, x, i);
    NotNewKey(recs, c, x, j);
    BeforeTotal(k, a);
    BeforeTotal(k, b);
    if Before(k, a) && Before(b, k) { NothingInside(recs, c, j, x, i); }
    if Before(a, k) && Before(k, b) { NothingInside(recs, c, i, x, j); }
  }

  lemma NotNewKey(recs: Records, c: Change, x: Spot, i: int)
    requires NewText(recs, c) && IsText(recs, x.uid)
    ensures Key(recs, x) != NewKey(recs, c, i)
  {
    if Key(recs, x) == NewKey(recs, c, i) {
      Step0(recs, x, Key(recs, x), |Path(recs, c.parent)|);
      assert false;
    }
  }

  /** An insertion left of a greater spot keeps the order exactly when all before it are smaller. */
  lemma InsertInOrder(recs: Records, c: Change, spots: seq<Spot>, j: nat)
    requires NewText(recs, c) && InOrder(recs, spots) && j < |spots|
    requires forall x :: x in spots <==> IsSpot(recs, x)
    requires Before(NewKey(recs, c, 0), Key(recs, spots[j]))
    ensures InOrder(Added(recs, c), InsertAt(spots, j, NewBlock(c))) <==> FitsLeftOf(recs, c, spots[j])
  {
    hide Before, NewKey, Key, InsertAt, NewBlock, Added;
    var after, n := InsertAt(spots, j, NewBlock(c)), |NewBlock(c)|;
    var k := Keys(Added(recs, c), after);
    forall i | 0 <= i < |k|
      ensures i < |spots| + n && k[i] == KeyAt(recs, c, spots, j, n, i)
    {
      KeysInserted(recs, c, spots, j, i);
    }
    KeysInserted(recs, c, spots, j, 0);
    BlockLength(c);
    if Ascending(BEFORE, k) {
      forall x | IsSpot(recs, x) && Before(Key(recs, x), Key(recs, spots[j]))
        ensures Before(Key(recs, x), NewKey(recs, c, 0))
      {
        var i :| 0 <= i < |spots| && spots[i] == x;
        SmallerIsLeft(recs, spots, i, j);
        assert BEFORE(k[i], k[j]);
      }
    }
    if FitsLeftOf(recs, c, spots[j]) {
      forall a, b | 0 <= a < b < |k|
        ensures BEFORE(k[a], k[b])
      {
        InOrderPair(recs, c, spots, j, n, a, b);
      }
    }
  }

  lemma BlockLength(c: Change)
    requires c.edit.Insertion?
    ensures |NewBlock(c)| == |c.edit.text| + 1
  {
  }

  lemma InOrderPair(recs: Records, c: Change, spots: seq<Spot>, j: nat, n: nat, a: nat, b: nat)
    requires NewText(recs, c) && InOrder(recs, spots) && j < |spots| && a < b < |spots| + n
    requires forall x :: x in spots <==> IsSpot(recs, x)
    requires Before(NewKey(recs, c, 0), Key(recs, spots[j])) && FitsLeftOf(recs, c, spots[j])
    ensures Before(KeyAt(recs, c, spots, j, n, a), KeyAt(recs, c, spots, j, n, b))
  {
    hide Before, NewKey, Key;
    BeforeIsOrder();
    var k := Keys(recs, spots);
    assert forall i, m :: 0 <= i < m < |k| ==> BEFORE(k[i], k[m]);
    if j <= a < j + n && b < j + n {
      NewKeysAscend(recs, c, a - j, b - j);
    } else if j <= a < j + n {
      var x := spots[b - n];
      assert BEFORE(NewKey(recs, c, 0), k[j]) && (b - n == j || BEFORE(k[j], k[b - n]));
      assert x in spots;
      OldAndNew(recs, c, x, 0, a - j);
    } else if a < j && j <= b < j + n {
      var x := spots[a];
      assert x in spots && BEFORE(k[a], k[j]);
      OldAndNew(recs, c, x, 0, b - j);
    } else {
      assert BEFORE(k[if a < j then a else a - n], k[if b < j then b else b - n]);
    }
  }
}
