/** When a string tree shows exactly what its records say, and which changes keep it so. */
module StringConvergence {
  import opened HideLists
  import opened Options
  import opened StringDeletion
  import opened StringOrder
  import opened StringShape

  /** Some deletion covers the character. */
  ghost predicate Deleted(recs: Records, x: Spot) {
    exists d :: d in recs && DeletedBy(recs[d].change, x)
  }

  predicate DeletedBy(c: Change, x: Spot) {
    c.edit.Deletion? && c.parent == x.uid && c.edit.position <= x.index < c.edit.position + c.edit.length
  }

  /** All texts are in document order, and what is visible is what no deletion covers. */
  ghost predicate Exact(recs: Records, s: seq<Entry<Spot>>) {
    && Shape(recs, s) && InOrder(recs, Items(s))
    && forall j :: 0 <= j < |s| ==> ShownRightly(recs, s[j])
  }

  ghost predicate ShownRightly(recs: Records, e: Entry<Spot>) {
    e.visible <==> IsCharacter(recs, e.item) && !Deleted(recs, e.item)
  }

  /** The records alone determine the listing, hidden elements included. */
  lemma Converge(recs: Records, s: seq<Entry<Spot>>, t: seq<Entry<Spot>>)
    requires Exact(recs, s) && Exact(recs, t)
    ensures s == t
  {
    OrderIsUnique(recs, Items(s), Items(t));
    assert |Items(s)| == |s| && |Items(t)| == |t|;
    forall j | 0 <= j < |s|
      ensures s[j] == t[j]
    {
      assert Items(s)[j] == s[j].item && Items(t)[j] == t[j].item;
      assert ShownRightly(recs, s[j]) && ShownRightly(recs, t[j]);
    }
  }

  lemma EmptyIsExact()
    ensures Exact(map[ROOT := ROOT_RECORD], [Entry(Spot(ROOT, 0), false)])
  {
    var recs, s := map[ROOT := ROOT_RECORD], [Entry(Spot(ROOT, 0), false)];
    assert Items(s) == [Spot(ROOT, 0)];
    forall x
      ensures x in Items(s) <==> IsSpot(recs, x)
    {
      if IsSpot(recs, x) { assert x == Spot(ROOT, 0) && Items(s)[0] == x; }
    }
    assert ShownRightly(recs, s[0]);
  }

  // -------------------------------------------------------------------------
  // Insertions
  // -------------------------------------------------------------------------

  lemma ShownAfterInsertion(recs: Records, c: Change, s: seq<Entry<Spot>>, j: nat)
    requires Shape(recs, s) && NewText(recs, c) && j <= |s| && forall i :: 0 <= i < |s| ==> ShownRightly(recs, s[i])
    ensures var t := InsertAt(s, j, BlockEntries(c));
            forall i :: 0 <= i < |t| ==> ShownRightly(Added(recs, c), t[i])
  {
    hide Nested, Distinct, Visible;
    var recs', b := Added(recs, c), BlockEntries(c);
    var t := InsertAt(s, j, b);
    VisibleBlock(c);
    AddedTree(recs, c);
    forall i | 0 <= i < |t|
      ensures ShownRightly(recs', t[i])
    {
      if j <= i < j + |b| {
        ItemAt(b, i - j);
        assert t[i] == b[i - j] && t[i].item == Spot(c.uid, i - j);
        NothingDeleted(recs, c, t[i].item);
      } else {
        var e := t[i];
        var k := if i < j then i else i - |b|;
        assert e == s[k] && ShownRightly(recs, s[k]);
        ItemAt(s, k);
        assert Items(s)[k] in Items(s);
        SameDeleted(recs, c, e.item);
      }
    }
  }

  lemma NothingDeleted(recs: Records, c: Change, x: Spot)
    requires NewText(recs, c) && x.uid == c.uid
    ensures !Deleted(Added(recs, c), x)
  {
  }

  lemma SameDeleted(recs: Records, c: Change, x: Spot)
    requires NewText(recs, c)
    ensures Deleted(Added(recs, c), x) <==> Deleted(recs, x)
  {
    var recs' := Added(recs, c);
    if Deleted(recs, x) {
      var d :| d in recs && DeletedBy(recs[d].change, x);
      assert d in recs' && DeletedBy(recs'[d].change, x);
    }
    if Deleted(recs', x) {
      var d :| d in recs' && DeletedBy(recs'[d].change, x);
      assert d in recs && DeletedBy(recs[d].change, x);
    }
  }

  /** An insertion left of a greater spot keeps the tree exact when and only when what is smaller
      than that spot is smaller than the new text. */
  lemma {:induction false} ExactInserted(recs: Records, c: Change, s: seq<Entry<Spot>>, target: Spot)
    requires Exact(recs, s) && NewText(recs, c) && MayGo(recs, c, target)
    requires Before(NewKey(recs, c, 0), Key(recs, target))
    ensures target in Items(s)
    ensures Exact(Added(recs, c), InsertAt(s, Where(s, target), BlockEntries(c))) <==> FitsLeftOf(recs, c, target)
  {
    hide Before, NewKey, Key, Nested, Distinct, Visible, Tree, ShownInText, InOrder, NewText, FitsLeftOf, BlockEntries, InsertAt;
    InItems(recs, s, target);
    var j := Where(s, target);
    ItemAt(s, j);
    NewTextTree(recs, c);
    VisibleBlock(c);
    ShapeInserted(recs, c, s, target, BlockEntries(c));
    InsertInOrder(recs, c, Items(s), j);
    ItemsInsertAt(s, j, BlockEntries(c));
    ShownAfterInsertion(recs, c, s, j);
  }

  /** A text inserted at the beginning of the next greater sibling. */
  ghost predicate Obstructed(recs: Records, c: Change) {
    exists w, v :: NextSibling(recs, c, w) && IsChild(recs, v, w, 0)
  }

  ghost predicate NextSibling(recs: Records, c: Change, w: int) {
    && w > c.uid && IsChild(recs, w, c.parent, c.edit.position)
    && forall v :: v > c.uid && IsChild(recs, v, c.parent, c.edit.position) ==> w <= v
  }

  ghost predicate HasGreaterSibling(recs: Records, c: Change) {
    exists w :: w > c.uid && IsChild(recs, w, c.parent, c.edit.position)
  }

  /** A remote insertion goes where it belongs exactly when the next greater sibling has no text at
      its beginning. */
  lemma {:induction false} RemoteInsertion(recs: Records, c: Change, s: seq<Entry<Spot>>, target: Spot)
    requires Exact(recs, s) && NewText(recs, c) && IsEffective(recs, c, target)
    ensures MayGo(recs, c, target) && target in Items(s)
    ensures Exact(Added(recs, c), InsertAt(s, Where(s, target), BlockEntries(c))) <==> !Obstructed(recs, c)
  {
    hide Before, NewKey, Key, Exact;
    if HasGreaterSibling(recs, c) {
      var w := target.uid;
      assert NextSibling(recs, c, w) && target == Spot(w, 0);
      FitsAtSibling(recs, c, w);
      assert Obstructed(recs, c) <==> exists v :: IsChild(recs, v, w, 0);
    } else {
      FitsAtCharacter(recs, c);
    }
    ExactInserted(recs, c, s, target);
  }

  /** A local insertion, which goes right before the character, is in order exactly when no sibling
      there has a greater id. */
  lemma {:induction false} LocalInsertion(recs: Records, c: Change, s: seq<Entry<Spot>>)
    requires Exact(recs, s) && NewText(recs, c)
    ensures var target := Spot(c.parent, c.edit.position);
            && MayGo(recs, c, target) && target in Items(s)
            && (Exact(Added(recs, c), InsertAt(s, Where(s, target), BlockEntries(c))) <==> !HasGreaterSibling(recs, c))
  {
    hide Before, NewKey, Key, Exact;
    FitsAtCharacter(recs, c);
    ExactInserted(recs, c, s, Spot(c.parent, c.edit.position));
  }

  // -------------------------------------------------------------------------
  // Deletions
  // -------------------------------------------------------------------------

  /** A deletion of known spots. */
  ghost predicate NewDeletion(recs: Records, c: Change) {
    Tree(recs) && Fits(recs, c) && c.uid !in recs && c.edit.Deletion?
    && forall i :: c.edit.position <= i < c.edit.position + c.edit.length ==> IsSpot(recs, Spot(c.parent, i))
  }

  /** Hiding what a deletion covers keeps the tree exact. */
  lemma ExactDeleted(recs: Records, c: Change, s: seq<Entry<Spot>>)
    requires Exact(recs, s) && NewDeletion(recs, c)
    ensures Exact(Added(recs, c), HideSpots(s, c.parent, c.edit.position, c.edit.position + c.edit.length))
  {
    hide Nested, Distinct, Visible, Key, Before;
    var lo, hi := c.edit.position, c.edit.position + c.edit.length;
    var recs', t := Added(recs, c), HideSpots(s, c.parent, lo, hi);
    ShapeDeletion(recs, c, s);
    assert Items(t) == Items(s);
    assert ShownInText(recs', t);
    forall j | 0 <= j < |t|
      ensures ShownRightly(recs', t[j])
    {
      assert ShownRightly(recs, s[j]);
      OneMoreDeletion(recs, c, s[j].item);
    }
    forall i | 0 <= i < |Items(s)|
      ensures Key(recs', Items(s)[i]) == Key(recs, Items(s)[i])
    {
      assert Items(s)[i] in Items(s);
      OldKey(recs, c, Items(s)[i]);
    }
    assert Keys(recs', Items(s)) == Keys(recs, Items(s));
  }

  lemma OneMoreDeletion(recs: Records, c: Change, x: Spot)
    requires NewDeletion(recs, c)
    ensures Deleted(Added(recs, c), x) <==> Deleted(recs, x) || Covers(c.parent, c.edit.position, c.edit.position + c.edit.length, x)
    ensures IsCharacter(Added(recs, c), x) <==> IsCharacter(recs, x)
  {
    var recs' := Added(recs, c);
    if Deleted(recs, x) {
      var d :| d in recs && DeletedBy(recs[d].change, x);
      assert d in recs' && DeletedBy(recs'[d].change, x);
    }
    if DeletedBy(c, x) { assert c.uid in recs' && DeletedBy(recs'[c.uid].change, x); }
    if Deleted(recs', x) {
      var d :| d in recs' && DeletedBy(recs'[d].change, x);
      if d != c.uid { assert d in recs && DeletedBy(recs[d].change, x); }
    }
  }

  /** A remote deletion keeps the tree exact exactly when what is still visible of it is one run. */
  lemma {:induction false} RemoteDeletion(recs: Records, c: Change, s: seq<Entry<Spot>>)
    requires Exact(recs, s) && NewDeletion(recs, c)
    ensures var lo, hi := c.edit.position, c.edit.position + c.edit.length;
            var f := Sweep(s, c.parent, lo, hi, NoRun);
            (f.Some? && Exact(Added(recs, c), f.value)) <==> OneRun(s, c.parent, lo, hi)
  {
    hide Nested, Distinct, Visible, InOrder, Sweep, OneRun, Stretched;
    var lo, hi := c.edit.position, c.edit.position + c.edit.length;
    ShapeStretched(recs, s, c.parent, lo, hi);
    DeletionIsRight(s, c.parent, lo, hi);
    ExactDeleted(recs, c, s);
    var f := Sweep(s, c.parent, lo, hi, NoRun);
    if f.Some? && Exact(Added(recs, c), f.value) {
      Converge(Added(recs, c), f.value, HideSpots(s, c.parent, lo, hi));
    }
  }

  // -------------------------------------------------------------------------
  // Local deletions
  // -------------------------------------------------------------------------

  /** The deletion of a stretch. */
  function DeletionOf(c: Contig, uid: int): Change {
    Change(uid, c.uid, Deletion(c.first, 1 + c.last - c.first))
  }

  function DeletionsOf(cs: seq<Contig>, ids: seq<int>): seq<Change>
    requires |cs| <= |ids|
  {
    seq(|cs|, i requires 0 <= i < |cs| => DeletionOf(cs[i], ids[i]))
  }

  ghost predicate AllFit(recs: Records, changes: seq<Change>)
    decreases |changes|, 0
  {
    changes == [] || (
      var front, last := changes[..|changes| - 1], changes[|changes| - 1];
      AllFit(recs, front) && last.uid !in AddedAll(recs, front) && Fits(AddedAll(recs, front), last))
  }

  ghost function AddedAll(recs: Records, changes: seq<Change>): Records
    requires AllFit(recs, changes)
    decreases |changes|, 1
  {
    if changes == [] then recs else Added(AddedAll(recs, changes[..|changes| - 1]), changes[|changes| - 1])
  }

  /** Ids that nothing has yet. */
  ghost predicate FreshIds(recs: Records, ids: seq<int>) {
    Distinct(ids) && forall i :: 0 <= i < |ids| ==> ids[i] !in recs
  }

  lemma {:induction false} ContigsLength(v: seq<Spot>)
    ensures |Contigs(v)| <= |v|
    decreases |v|
  {
    if v != [] { ContigsLength(v[..LastStart(v)]); }
  }

  lemma {:induction false} AddedAllKeys(recs: Records, changes: seq<Change>, u: int)
    requires AllFit(recs, changes)
    ensures u in AddedAll(recs, changes) <==> u in recs || exists i :: 0 <= i < |changes| && changes[i].uid == u
    ensures IsText(recs, u) && Tree(recs) ==> IsText(AddedAll(recs, changes), u) && Len(AddedAll(recs, changes), u) == Len(recs, u)
    decreases |changes|
  {
    if changes != [] {
      var front, last := changes[..|changes| - 1], changes[|changes| - 1];
      AddedAllKeys(recs, front, u);
      if u == last.uid { assert changes[|changes| - 1].uid == u; }
      if exists i :: 0 <= i < |front| && front[i].uid == u {
        var i :| 0 <= i < |front| && front[i].uid == u;
        assert changes[i].uid == u;
      }
      if exists i :: 0 <= i < |changes| && changes[i].uid == u {
        var i :| 0 <= i < |changes| && changes[i].uid == u;
        if i < |front| { assert front[i].uid == u; }
      }
    }
  }

  /** The deletions made for n visible characters from k on: they fit one after the other, they are
      as many as stretches, and with them the tree without those characters has its shape; if it
      was exact, it stays exact. */
  lemma {:induction false} DeletionsFit(recs: Records, s: seq<Entry<Spot>>, k: nat, n: nat, ids: seq<int>)
    requires Shape(recs, s) && k + n <= |Visible(s)|
    requires FreshIds(recs, ids) && |Contigs(Visible(s)[k..k + n])| <= |ids|
    ensures var changes := DeletionsOf(Contigs(Visible(s)[k..k + n]), ids);
            && AllFit(recs, changes) && Shape(AddedAll(recs, changes), Hide(s, k, n))
            && (Exact(recs, s) ==> Exact(AddedAll(recs, changes), Hide(s, k, n)))
    decreases n
  {
    hide Visible, Shape, Hide, Exact, Tree, AllFit, AddedAll, FreshIds, Contigs, DeletionsOf, Added;
    var v := Visible(s)[k..k + n];
    if n == 0 {
      HideNothing(s, k);
      NoDeletions(v, ids);
      NoChanges(recs);
    } else {
      var m, front, last := LastDeletion(v, ids);
      assert v[..m] == Visible(s)[k..k + m];
      DeletionsFit(recs, s, k, m, ids);
      assert forall i :: m <= i < n ==> Visible(s)[k + i] == v[i];
      LastFits(recs, s, k, m, n, front, last, ids);
      OneMoreChange(recs, front, last);
      HideAgain(s, k, m, n - m);
    }
  }

  lemma {:induction false} NoDeletions(v: seq<Spot>, ids: seq<int>)
    requires v == []
    ensures |Contigs(v)| <= |ids| && DeletionsOf(Contigs(v), ids) == []
  {
  }

  /** The deletion that hides the last stretch, and those before it. */
  lemma {:induction false} LastDeletion(v: seq<Spot>, ids: seq<int>) returns (m: nat, front: seq<Change>, last: Change)
    requires v != [] && |Contigs(v)| <= |ids|
    ensures m < |v| && |Contigs(v[..m])| <= |ids| && front == DeletionsOf(Contigs(v[..m]), ids)
    ensures |front| < |ids| && DeletionsOf(Contigs(v), ids) == front + [last]
    ensures forall i :: m <= i < |v| ==> v[i].uid == v[|v| - 1].uid
    ensures forall i :: 0 <= i < |front| ==> front[i].uid == ids[i]
    ensures last == DeletionOf(Contig(v[m].uid, v[m].index, v[|v| - 1].index), ids[|front|])
  {
    m := LastStart(v);
    front, last := DeletionsOf(Contigs(v[..m]), ids), DeletionsOf(Contigs(v), ids)[|Contigs(v)| - 1];
  }

  lemma {:induction false} NoChanges(recs: Records)
    ensures AllFit(recs, []) && AddedAll(recs, []) == recs
  {
  }

  lemma {:induction false} OneMoreChange(recs: Records, front: seq<Change>, last: Change)
    requires AllFit(recs, front) && last.uid !in AddedAll(recs, front) && Fits(AddedAll(recs, front), last)
    ensures AllFit(recs, front + [last]) && AddedAll(recs, front + [last]) == Added(AddedAll(recs, front), last)
  {
    assert (front + [last])[..|front|] == front;
  }

  lemma LastFits(recs: Records, s: seq<Entry<Spot>>, k: nat, m: nat, n: nat, front: seq<Change>, last: Change, ids: seq<int>)
    requires Shape(recs, s) && m < n && k + n <= |Visible(s)|
    requires forall i :: k + m <= i < k + n ==> Visible(s)[i].uid == Visible(s)[k + n - 1].uid
    requires AllFit(recs, front) && Shape(AddedAll(recs, front), Hide(s, k, m))
    requires FreshIds(recs, ids) && |front| < |ids| && forall i :: 0 <= i < |front| ==> front[i].uid == ids[i]
    requires last == DeletionOf(Contig(Visible(s)[k + m].uid, Visible(s)[k + m].index, Visible(s)[k + n - 1].index), ids[|front|])
    ensures var mid := AddedAll(recs, front);
            && last.uid !in mid && Fits(mid, last)
            && Shape(Added(mid, last), Hide(Hide(s, k, m), k, n - m))
            && (Exact(mid, Hide(s, k, m)) ==> Exact(Added(mid, last), Hide(Hide(s, k, m), k, n - m)))
  {
    hide Visible, Shape, Hide, Exact, Tree, AddedAll, OneRun, Stretched;
    var mid, t := AddedAll(recs, front), Hide(s, k, m);
    AddedAllKeys(recs, front, last.uid);
    var v := Visible(s);
    VisibleHidden(s, k, m);
    assert Visible(t) == v[..k] + v[k + m..];
    forall i | k <= i < k + (n - m)
      ensures Visible(t)[i] == v[i + m]
    {
    }
    SegmentIsRun(mid, t, k, n - m);
    VisibleSpot(mid, t, k);
    VisibleSpot(mid, t, k + (n - m) - 1);
    ShapeDeletion(mid, last, t);
    ShapeHidden(Added(mid, last), t, k, n - m);
    if Exact(mid, t) {
      ShapeTree(mid, t);
      ExactDeleted(mid, last, t);
    }
  }

  lemma ShapeTree(recs: Records, s: seq<Entry<Spot>>)
    requires Shape(recs, s)
    ensures Tree(recs)
  {
  }
}
