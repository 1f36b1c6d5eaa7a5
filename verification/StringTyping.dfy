/** Why a local insertion at the boundary of two texts goes into the deeper one: no other text stands
    there, so that no replica has to choose between the two. */
module StringTyping {
  import opened HideLists
  import opened Options
  import opened StringConvergence
  import opened StringOrder
  import opened StringRuns
  import opened StringShape

  /** c is a change at the gap between visible characters k - 1 and k: in the text of one of them, on
      the side of the other, and nowhere less deep than either of them. Within a text it goes before
      character k; of two texts that are equally deep it takes the left one. */
  ghost predicate AtGap(recs: Records, v: seq<Spot>, k: nat, c: Change)
    requires k <= |v|
  {
    var left := k > 0 && c.parent == v[k - 1].uid && c.edit.position == v[k - 1].index + 1;
    var right := k < |v| && c.parent == v[k].uid && c.edit.position == v[k].index;
    && c.edit.Insertion?
    && (v == [] ==> c.parent == ROOT && c.edit.position == 0)
    && (v != [] ==> left || right)
    && (forall i :: 0 <= i < |v| && k - 1 <= i <= k && v[i].uid in recs && c.parent in recs ==>
          recs[v[i].uid].depth <= recs[c.parent].depth)
    && (0 < k < |v| && v[k - 1].uid == v[k].uid ==> right)
    && (0 < k < |v| && v[k - 1].uid != v[k].uid && EquallyDeep(recs, v[k - 1].uid, v[k].uid) ==> left)
  }

  predicate EquallyDeep(recs: Records, u: int, w: int) {
    u in recs && w in recs && recs[u].depth == recs[w].depth
  }

  lemma LocalChangeIsAtGap(s: State, text: string, k: nat, uid: int)
    requires Shaped(s) && k <= |Visible(s.listing)|
    ensures AtGap(s.recs, Visible(s.listing), k, LocalChange(s, text, k, uid))
  {
    hide Visible, Shape, Items, Len;
    var v := Visible(s.listing);
    if k > 0 { VisibleSpot(s.recs, s.listing, k - 1); }
    if k < |v| { VisibleSpot(s.recs, s.listing, k); }
  }

  // -------------------------------------------------------------------------
  // Nothing stands there
  // -------------------------------------------------------------------------

  /** Nothing was ever deleted, and no text is empty but the root. */
  ghost predicate AllShown(recs: Records) {
    forall u :: u in recs && u != ROOT ==> recs[u].change.edit.Insertion? && recs[u].change.edit.text != ""
  }

  lemma {:induction false} PathLength(recs: Records, u: int)
    requires Tree(recs) && IsText(recs, u)
    ensures |Path(recs, u)| == recs[u].depth
    decreases recs[u].depth
  {
    if u != ROOT {
      PathOf(recs, u);
      PathLength(recs, recs[u].change.parent);
    }
  }

  /** What begins like a text is in that text or further down. */
  lemma {:induction false} Below(recs: Records, u: int, y: Spot)
    requires Tree(recs) && IsText(recs, u) && IsText(recs, y.uid) && Path(recs, u) <= Key(recs, y)
    ensures recs[u].depth <= recs[y.uid].depth && (recs[u].depth == recs[y.uid].depth ==> y.uid == u)
  {
    hide Path;
    var p, k := Path(recs, u), Key(recs, y);
    PathLength(recs, u);
    PathLength(recs, y.uid);
    if |p| == |k| {
      PathSteps(recs, u, |p| - 1);
      assert false;
    }
    if |p| == |k| - 1 {
      assert k[..|p|] == Path(recs, y.uid);
      PathDetermines(recs, u, y.uid);
    }
  }

  /** No visible character lies between two neighbouring ones. */
  lemma {:induction false} NothingBetween(recs: Records, s: seq<Entry<Spot>>, k: nat, x: Spot)
    requires Exact(recs, s) && k <= |Visible(s)| && x in Items(s) && s[Where(s, x)].visible
    ensures k > 0 && Before(Key(recs, Visible(s)[k - 1]), Key(recs, x)) ==>
              k < |Visible(s)| && !Before(Key(recs, x), Key(recs, Visible(s)[k]))
    ensures k == 0 ==> k < |Visible(s)| && !Before(Key(recs, x), Key(recs, Visible(s)[k]))
  {
    hide Before, Key, Visible, Shape, Items;
    var v, j := Visible(s), Where(s, x);
    ItemAt(s, j);
    RankMonotone(s, j, |s|);
    RankStep(s, j);
    RankMonotone(s, j + 1, |s|);
    if k > 0 && Before(Key(recs, v[k - 1]), Key(recs, x)) {
      var a := Place(s, k - 1);
      ItemAt(s, a);
      SmallerIsLeft(recs, Items(s), a, j);
      RankMonotone(s, a, j);
    }
    if k < |v| && Before(Key(recs, x), Key(recs, v[k])) {
      var b := Place(s, k);
      ItemAt(s, b);
      SmallerIsLeft(recs, Items(s), j, b);
      RankMonotone(s, j, b);
    }
  }

  /** The first character of every text is visible. */
  lemma {:induction false} FirstIsShown(recs: Records, s: seq<Entry<Spot>>, w: int)
    requires Exact(recs, s) && AllShown(recs) && w in recs && w != ROOT
    ensures Spot(w, 0) in Items(s) && s[Where(s, Spot(w, 0))].visible
  {
    hide Nested, Distinct, InOrder, Visible;
    var x := Spot(w, 0);
    assert IsSpot(recs, x);
    InItems(recs, s, x);
    assert ShownRightly(recs, s[Where(s, x)]);
  }

  /** A text inserted at a place begins after what stands before that place and before the character
      there. */
  lemma {:induction false} ChildKey(recs: Records, w: int, p: int, q: int)
    requires Tree(recs) && IsChild(recs, w, p, q)
    ensures Key(recs, Spot(w, 0)) == Path(recs, p) + [Into(q, w), At(0)]
    ensures Before(Key(recs, Spot(w, 0)), Key(recs, Spot(p, q)))
    ensures forall i :: i < q ==> Before(Key(recs, Spot(p, i)), Key(recs, Spot(w, 0)))
  {
    PathOf(recs, w);
    var m := Path(recs, p);
    assert Key(recs, Spot(w, 0)) == m + [Into(q, w), At(0)];
    CommonPrefix(m, [Into(q, w), At(0)], [At(q)]);
    forall i | i < q
      ensures Before(Key(recs, Spot(p, i)), Key(recs, Spot(w, 0)))
    {
      CommonPrefix(m, [At(i)], [Into(q, w), At(0)]);
    }
  }

  lemma {:induction false} CharactersInOrder(recs: Records, p: int, i: int, j: int)
    ensures Before(Key(recs, Spot(p, i)), Key(recs, Spot(p, j))) <==> i < j
  {
    CommonPrefix(Path(recs, p), [At(i)], [At(j)]);
  }

  /** Characters k - 1 and k are in document order. */
  lemma {:induction false} NeighboursInOrder(recs: Records, s: seq<Entry<Spot>>, k: nat)
    requires Exact(recs, s) && 0 < k < |Visible(s)|
    ensures Before(Key(recs, Visible(s)[k - 1]), Key(recs, Visible(s)[k]))
  {
    hide Before, Key, Visible, Shape, Items;
    var a, b := Place(s, k - 1), Place(s, k);
    ItemAt(s, a);
    ItemAt(s, b);
    if b < a { RankMonotone(s, b, a); }
    var keys := Keys(recs, Items(s));
    assert BEFORE(keys[a], keys[b]);
  }

  /** In an exact tree in which nothing was deleted and no text is empty, no text stands at the place
      of a local insertion. */
  lemma {:induction false} NothingStandsThere(s: State, text: string, k: nat, uid: int, w: int)
    requires IsExact(s) && AllShown(s.recs) && k <= |Visible(s.listing)|
    ensures var c := LocalChange(s, text, k, uid); !IsChild(s.recs, w, c.parent, c.edit.position)
  {
    hide Exact, Shape, Before, Key, Visible, Path;
    var recs, v, c := s.recs, Visible(s.listing), LocalChange(s, text, k, uid);
    ExactShape(s);
    ShapeTree(recs, s.listing);
    LocalChangeIsAtGap(s, text, k, uid);
    if IsChild(recs, w, c.parent, c.edit.position) {
      var p, q, x := c.parent, c.edit.position, Spot(w, 0);
      ChildKey(recs, w, p, q);
      FirstIsShown(recs, s.listing, w);
      if 0 < k < |v| {
        var l, r := v[k - 1], v[k];
        VisibleSpot(recs, s.listing, k - 1);
        VisibleSpot(recs, s.listing, k);
        NeighboursInOrder(recs, s.listing, k);
        if p == r.uid && q == r.index {
          RightOfLeft(recs, l, r, w);
        } else {
          LeftOfRight(recs, l, r, w);
        }
      }
      NothingBetween(recs, s.listing, k, x);
    }
  }

  /** A text inserted right before character r comes after l, unless l is in a deeper text. */
  lemma {:induction false} RightOfLeft(recs: Records, l: Spot, r: Spot, w: int)
    requires Tree(recs) && IsSpot(recs, l) && IsSpot(recs, r) && Before(Key(recs, l), Key(recs, r))
    requires IsChild(recs, w, r.uid, r.index)
    requires recs[l.uid].depth <= recs[r.uid].depth
    ensures Before(Key(recs, l), Key(recs, Spot(w, 0)))
  {
    hide Before, Key, Path;
    var x, p := Spot(w, 0), Path(recs, r.uid);
    ChildKey(recs, w, r.uid, r.index);
    CharactersInOrder(recs, l.uid, l.index, r.index);
    if l.uid != r.uid {
      BeforeTotal(Key(recs, l), Key(recs, x));
      if !Before(Key(recs, l), Key(recs, x)) {
        KeyEnds(recs, r);
        if Key(recs, x) != Key(recs, l) { Squeezed(p, [Into(r.index, w), At(0)], Key(recs, l), [At(r.index)]); }
        Below(recs, r.uid, l);
        assert false;
      }
    }
  }

  lemma {:induction false} KeyEnds(recs: Records, x: Spot)
    ensures Key(recs, x) == Path(recs, x.uid) + [At(x.index)]
  {
  }

  /** A text inserted right behind character l comes before r, unless r is in a deeper text. */
  lemma {:induction false} LeftOfRight(recs: Records, l: Spot, r: Spot, w: int)
    requires Tree(recs) && IsSpot(recs, l) && IsSpot(recs, r) && Before(Key(recs, l), Key(recs, r)) && l.uid != r.uid
    requires IsChild(recs, w, l.uid, l.index + 1)
    requires recs[r.uid].depth <= recs[l.uid].depth
    ensures Before(Key(recs, Spot(w, 0)), Key(recs, r))
  {
    hide Before, Key, Path;
    var x, p := Spot(w, 0), Path(recs, l.uid);
    ChildKey(recs, w, l.uid, l.index + 1);
    BeforeTotal(Key(recs, x), Key(recs, r));
    if !Before(Key(recs, x), Key(recs, r)) {
      KeyEnds(recs, l);
      if Key(recs, x) != Key(recs, r) { Squeezed(p, [At(l.index)], Key(recs, r), [Into(l.index + 1, w), At(0)]); }
      Below(recs, l.uid, r);
      assert false;
    }
  }

  // -------------------------------------------------------------------------
  // Typing
  // -------------------------------------------------------------------------

  ghost predicate NoTextAt(recs: Records, c: Change) {
    forall w :: !IsChild(recs, w, c.parent, c.edit.position)
  }

  /** So every local insertion is clean. */
  lemma {:induction false} TypingIsClean(s: State, text: string, k: nat, uid: int)
    requires IsExact(s) && AllShown(s.recs) && k <= |Visible(s.listing)| && uid !in s.recs
    ensures NoTextAt(s.recs, LocalChange(s, text, k, uid)) && !HasGreaterSibling(s.recs, LocalChange(s, text, k, uid))
    ensures Inserted(s, text, k, uid).Some? && IsExact(Inserted(s, text, k, uid).value)
    ensures text != "" ==> AllShown(Inserted(s, text, k, uid).value.recs)
  {
    hide Exact, Shape, Visible, Text;
    var c := LocalChange(s, text, k, uid);
    forall w
      ensures !IsChild(s.recs, w, c.parent, c.edit.position)
    {
      NothingStandsThere(s, text, k, uid, w);
    }
    ExactShape(s);
    TextLength(s);
    LocalInsert(s, text, k, uid);
  }

  lemma TextLength(s: State)
    requires Shaped(s)
    ensures |TextOf(s)| == |Visible(s.listing)|
  {
  }

  ghost predicate IsTyping(e: Event) {
    e.Insert? && e.text != ""
  }

  /** A tree into which text is only typed, wherever and in whatever texts, is exact all the time: its
      listing is the one that all replicas arrive at. */
  lemma {:induction false} TypingStaysExact(states: seq<State>, events: seq<Event>, i: nat)
    requires IsRun(states, events) && states[0] == EMPTY && i < |states|
    requires forall j :: 0 <= j < i ==> IsTyping(events[j])
    ensures IsExact(states[i]) && AllShown(states[i].recs)
  {
    hide Exact, Shape, Inserted, Visible;
    if i == 0 {
      EmptyIsShaped();
    } else {
      TypingStaysExact(states, events, i - 1);
      var s, e := states[i - 1], events[i - 1];
      assert IsTyping(e) && Possible(s.recs, e) && Happened(s, e) == Some(states[i - 1 + 1]);
      PastEndFails(s, e.text, OrStart(s, e.k), e.uid);
      TypingIsClean(s, e.text, OrStart(s, e.k), e.uid);
    }
  }

  lemma PastEndFails(s: State, text: string, k: nat, uid: int)
    requires Inserted(s, text, k, uid).Some?
    ensures k <= |Visible(s.listing)|
  {
  }
}
