/** The collaborative text buffer: its records, and its listing kept in the fast list with hidden
    elements. */
module StringTrees {
  import opened HideLists
  import opened Options
  import opened StringConvergence
  import opened StringDeletion
  import opened StringHistory
  import opened StringOrder
  import opened StringRuns
  import opened StringTyping
  import opened StringShape
  import opened StringWalk
  import AATrees
  import TreeHideLists

  /** The children of each text are the records made under it. */
  ghost predicate ChildrenMatch(recs: Records, children: map<int, set<Record>>) {
    OnlyChildren(recs, children) && AllChildren(recs, children)
  }

  lemma NoChildren()
    ensures ChildrenMatch(EMPTY.recs, map[])
  {
  }

  ghost predicate OnlyChildren(recs: Records, children: map<int, set<Record>>) {
    forall p, r :: p in children && r in children[p] ==> IsRecord(recs, r) && r.change.parent == p
  }

  ghost predicate AllChildren(recs: Records, children: map<int, set<Record>>) {
    forall u :: u in recs && u != ROOT ==> recs[u].change.parent in children && recs[u] in children[recs[u].change.parent]
  }

  ghost predicate IsRecord(recs: Records, r: Record) {
    r.change.uid in recs && r.change.uid != ROOT && recs[r.change.uid] == r
  }

  function WithChild(children: map<int, set<Record>>, r: Record): map<int, set<Record>> {
    children[r.change.parent := (if r.change.parent in children then children[r.change.parent] else {}) + {r}]
  }

  lemma ChildAdded(recs: Records, children: map<int, set<Record>>, c: Change)
    requires Tree(recs) && ChildrenMatch(recs, children) && c.parent in recs && c.uid !in recs
    ensures ChildrenMatch(Added(recs, c), WithChild(children, Added(recs, c)[c.uid]))
  {
    assert c.uid != ROOT;
    hide Tree, OnlyChildren, AllChildren;
    OnlyOneMore(recs, children, c);
    NoneForgotten(recs, children, c);
  }

  lemma OnlyOneMore(recs: Records, children: map<int, set<Record>>, c: Change)
    requires OnlyChildren(recs, children) && c.parent in recs && c.uid !in recs && c.uid != ROOT
    ensures OnlyChildren(Added(recs, c), WithChild(children, Added(recs, c)[c.uid]))
  {
    var recs' := Added(recs, c);
    var children' := WithChild(children, recs'[c.uid]);
    forall p, r | p in children' && r in children'[p]
      ensures IsRecord(recs', r) && r.change.parent == p
    {
      if r != recs'[c.uid] {
        assert p in children && r in children[p];
      }
    }
  }

  lemma NoneForgotten(recs: Records, children: map<int, set<Record>>, c: Change)
    requires AllChildren(recs, children) && c.parent in recs && c.uid !in recs
    ensures AllChildren(Added(recs, c), WithChild(children, Added(recs, c)[c.uid]))
  {
    var recs' := Added(recs, c);
    var children' := WithChild(children, recs'[c.uid]);
    forall u | u in recs' && u != ROOT
      ensures recs'[u].change.parent in children' && recs'[u] in children'[recs'[u].change.parent]
    {
      if u != c.uid { assert recs[u] in children[recs[u].change.parent]; }
    }
  }

  lemma {:induction false} VisibleIsKnown(recs: Records, s: seq<Entry<Spot>>)
    requires Shape(recs, s)
    ensures forall x :: x in Visible(s) ==> x.uid in recs
  {
    hide Visible, Shape;
    forall x | x in Visible(s)
      ensures x.uid in recs
    {
      var k :| 0 <= k < |Visible(s)| && Visible(s)[k] == x;
      VisibleSpot(recs, s, k);
    }
  }

  /** Replaying edits in the coordinates of what is visible, as a listener would. */
  ghost function Replayed(text: string, edits: seq<Edit>): string
    decreases |edits|
  {
    if edits == [] then text
    else
      var t := Replayed(text, edits[..|edits| - 1]);
      match edits[|edits| - 1]
      case Insertion(p, x) => if 0 <= p <= |t| then t[..p] + x + t[p..] else t
      case Deletion(p, n) => if 0 <= p && 0 <= n then Cut(t, p, n) else t
  }

  lemma {:induction false} ReplayedMore(text: string, edits: seq<Edit>, e: Edit)
    ensures Replayed(text, edits + [e]) ==
            var t := Replayed(text, edits);
            match e
            case Insertion(p, x) => if 0 <= p <= |t| then t[..p] + x + t[p..] else t
            case Deletion(p, n) => if 0 <= p && 0 <= n then Cut(t, p, n) else t
  {
    assert (edits + [e])[..|edits|] == edits;
  }

  /** A new listing gets the hidden end mark of the root. */
  method AddRootMark(listing: TreeHideLists.AATreeHideList<Spot>)
    requires listing.Valid() && listing.Listing() == []
    modifies listing.Repr()
    ensures listing.Valid() && listing.Listing() == EMPTY.listing
    ensures forall x :: x in listing.Repr() && x !in old(listing.Repr()) ==> fresh(x)
  {
    hide TreeHideLists.AATreeHideList.Valid;
    assert [Spot(ROOT, 0)][0] == Spot(ROOT, 0);
    var _ := listing.InsertSequenceAll(0, [Spot(ROOT, 0)], [false]);
  }

  /** Each edit deletes at least one character. */
  predicate OnlyDeletions(flist: seq<Edit>) {
    forall i :: 0 <= i < |flist| ==> flist[i].Deletion? && flist[i].length >= 1
  }

  class SimpleStringTree {
    const listing: TreeHideLists.AATreeHideList<Spot>
    var id2rec: Records
    var parent2children: map<int, set<Record>>
    var cursor: nat

    ghost function Repr(): set<object>
      reads this, listing, listing.tree
    {
      {this} + listing.Repr()
    }

    ghost function Now(): State
      reads this, listing.tree
    {
      State(id2rec, listing.Listing())
    }

    ghost predicate Valid()
      reads Repr()
    {
      listing.Valid() && Shaped(Now()) && ChildrenMatch(id2rec, parent2children)
    }

    /** What the tree shows. */
    ghost function Shown(): string
      requires Valid()
      reads Repr()
    {
      TextOf(Now())
    }

    /** An empty tree. */
    constructor ()
      ensures Valid() && fresh(Repr()) && Now() == EMPTY && cursor == 0
    {
      hide Shape, Exact, Visible, ChildrenMatch, Shaped, IsExact;
      hide TreeHideLists.AATreeHideList.Valid, TreeHideLists.AATreeHideList.Listing, TreeHideLists.AATreeHideList.Marked;
      listing := new TreeHideLists.AATreeHideList();
      id2rec := map[ROOT := ROOT_RECORD];
      parent2children := map[];
      cursor := 0;
      new;
      EmptyIsShaped();
      NoChildren();
      AddRootMark(listing);
    }

    /** `_add_change_treeonly`, for a new id. */
    method AddTreeOnly(c: Change)
      requires Tree(id2rec) && ChildrenMatch(id2rec, parent2children) && c.parent in id2rec && c.uid !in id2rec
      modifies `id2rec, `parent2children
      ensures id2rec == Added(old(id2rec), c) && ChildrenMatch(id2rec, parent2children)
    {
      hide ChildrenMatch;
      ChildAdded(id2rec, parent2children, c);
      var d := id2rec[c.parent].depth + 1;
      var r := Record(c, d);
      id2rec := id2rec[c.uid := r];
      if c.parent !in parent2children {
        parent2children := parent2children[c.parent := {}];
      }
      parent2children := parent2children[c.parent := parent2children[c.parent] + {r}];
      assert parent2children == WithChild(old(parent2children), r);
    }

    /** `_insert_listonly`: the characters of the text and a hidden mark, left of the target. */
    method InsertListOnly(uid: int, target: Spot, length: nat) returns (ok: bool)
      requires listing.Valid() && forall i :: Spot(uid, i) !in Items(listing.Listing())
      modifies listing.Repr()
      ensures listing.Valid() && forall x :: x in listing.Repr() && x !in old(listing.Repr()) ==> fresh(x)
      ensures ok <==> target in Items(old(listing.Listing()))
      ensures ok ==> forall c: Change :: c.uid == uid && c.edit.Insertion? && |c.edit.text| == length ==>
                listing.Listing() == InsertAt(old(listing.Listing()), Where(old(listing.Listing()), target), BlockEntries(c))
      ensures !ok ==> listing.Listing() == old(listing.Listing())
    {
      hide TreeHideLists.AATreeHideList.Valid;
      var elts := Block(uid, length);
      var visibility := seq(length + 1, i => i < length);
      forall v | v in elts
        ensures v !in Items(listing.Listing())
      {
        var i :| 0 <= i < |elts| && elts[i] == v;
      }
      ok := listing.InsertSequenceLeftOf(target, elts, visibility);
    }

    /** `_effective_parent`. */
    method EffectiveParent(uid: int, parentid: int, position: int) returns (p: Spot)
      requires Tree(id2rec) && ChildrenMatch(id2rec, parent2children)
      ensures forall c: Change :: c.uid == uid && c.parent == parentid && c.edit.position == position ==> IsEffective(id2rec, c, p)
    {
      p := Spot(parentid, position);
      if parentid in parent2children {
        var next: Option<int> := None;
        var todo := parent2children[parentid];
        while todo != {}
          invariant todo <= parent2children[parentid]
          invariant next.Some? ==> next.value > uid && IsChild(id2rec, next.value, parentid, position)
          invariant forall r :: r in parent2children[parentid] - todo && r.change.edit.Insertion? && r.change.edit.position == position && r.change.uid > uid
                      ==> next.Some? && next.value <= r.change.uid
          decreases todo
        {
          var r :| r in todo;
          todo := todo - {r};
          var u := r.change.uid;
          if r.change.edit.position == position && r.change.edit.Insertion? && u > uid {
            if next.None? || u < next.value {
              next := Some(u);
            }
          }
        }
        assert forall w :: w > uid && IsChild(id2rec, w, parentid, position) ==> id2rec[w] in parent2children[parentid] && id2rec[w].change.uid == w;
        if next.Some? {
          return Spot(next.value, 0);
        }
      }
    }

    /** `getvalue`: the characters of the listing, asked for one by one until there is none. */
    method GetValue() returns (text: string)
      requires Valid()
      ensures Valid() && text == Shown()
    {
      hide Visible, Shape, TreeHideLists.AATreeHideList.Valid;
      ghost var v := Visible(listing.Listing());
      VisibleCharacters(id2rec, listing.Listing());
      text := "";
      var i := 0;
      while true
        invariant Valid() && v == Visible(listing.Listing())
        invariant 0 <= i <= |v| && text == Shown()[..i]
        decreases |v| - i
      {
        var x := listing.GetItem(i);
        if x.None? {
          return;
        }
        assert IsCharacter(id2rec, v[i]);
        text := text + [id2rec[x.value.uid].change.edit.text[x.value.index]];
        i := i + 1;
      }
    }

    /** Where `insert` puts its text; false past the end of a tree that shows something. */
    method InsertionPoint(k: nat) returns (ok: bool, at: Spot)
      requires Valid()
      ensures Valid() && (ok <==> k <= |Shown()| || |Shown()| == 0)
      ensures ok ==> at == LocalTarget(id2rec, Visible(listing.Listing()), if |Shown()| == 0 then 0 else k)
    {
      hide Visible, Shape, TreeHideLists.AATreeHideList.Valid;
      ghost var v := Visible(listing.Listing());
      ok, at := true, Spot(ROOT, 0);
      var n := listing.Length();
      if n == 0 {
        return;
      } else if k == 0 {
        var x := listing.GetItem(0);
        at := x.value;
      } else if k < n {
        var pair := listing.Slice(k - 1, k + 1);
        var left, right := pair[0].value, pair[1].value;
        assert left == v[k - 1] && right == v[k];
        VisibleIsKnown(id2rec, listing.Listing());
        if left.uid == right.uid {
          at := right;
        } else if id2rec[right.uid].depth > id2rec[left.uid].depth {
          at := right;
        } else {
          at := Spot(left.uid, left.index + 1);
        }
      } else if k == n {
        var x := listing.GetItem(k - 1);
        at := Spot(x.value.uid, x.value.index + 1);
      } else {
        ok := false;
      }
    }

    /** `insert`, under a new random id: text stands before character k afterwards. A tree that shows
        nothing takes every k for 0. */
    method Insert(text: string, k: nat, uid: int) returns (c: Option<Change>)
      requires Valid() && uid !in id2rec
      modifies Repr()
      ensures Valid() && forall x :: x in Repr() && x !in old(Repr()) ==> fresh(x)
      ensures c.Some? <==> k <= |old(Shown())| || |old(Shown())| == 0
      ensures var at := if |old(Shown())| == 0 then 0 else k;
              c.Some? ==> c.value == LocalChange(old(Now()), text, at, uid) && Some(Now()) == Inserted(old(Now()), text, at, uid)
                          && Shown() == old(Shown())[..at] + text + old(Shown())[at..] && cursor == k + |text|
      ensures c.None? ==> Now() == old(Now())
      ensures c.Some? ==> AtGap(old(id2rec), old(Visible(listing.Listing())), if |old(Shown())| == 0 then 0 else k, c.value)
      ensures c.Some? && old(IsExact(Now()) && AllShown(id2rec)) ==> IsExact(Now()) && NoTextAt(old(id2rec), c.value)
    {
      hide Visible, Shape, Text, TreeHideLists.AATreeHideList.Valid, TreeHideLists.AATreeHideList.Listing;
      hide Exact, AtGap, AllShown, NoTextAt;
      ghost var s, at := Now(), if |Shown()| == 0 then 0 else k;
      var ok, point := InsertionPoint(k);
      if !ok {
        return None;
      }
      LocalInsert(s, text, at, uid);
      LocalChangeIsAtGap(s, text, at, uid);
      if IsExact(s) && AllShown(s.recs) { TypingIsClean(s, text, at, uid); }
      ShapeTree(id2rec, listing.Listing());
      var change := Change(uid, point.uid, Insertion(point.index, text));
      NewIdIsNotListed(id2rec, listing.Listing(), uid);
      assert allocated(listing.Repr());
      AddTreeOnly(change);
      var _ := InsertListOnly(uid, point, |text|);
      cursor := k + |text|;
      c := Some(change);
    }

    /** The loop of `delete` that finds the stretches of one text among the given spots. */
    static method FindContigs(first: Spot, rest: seq<Spot>) returns (contigs: seq<Contig>)
      ensures contigs == Contigs([first] + rest)
      ensures exists cuts :: AreStretches([first] + rest, cuts, contigs)
    {
      hide Contigs;
      ghost var cuts := ContigsAreStretches([first] + rest);
      contigs := [Contig(first.uid, first.index, first.index)];
      OneContig(first);
      assert [first] + rest[..0] == [first];
      for i := 0 to |rest|
        invariant contigs == Contigs([first] + rest[..i])
      {
        ghost var v := [first] + rest[..i];
        ContigsStep(v, rest[i]);
        assert v + [rest[i]] == [first] + rest[..i + 1];
        var last := contigs[|contigs| - 1];
        if last.uid == rest[i].uid {
          contigs := contigs[..|contigs| - 1] + [Contig(last.uid, last.first, rest[i].index)];
        } else {
          contigs := contigs + [Contig(rest[i].uid, rest[i].index, rest[i].index)];
        }
      }
      assert rest[..|rest|] == rest;
    }

    /** The visible spots that `delete` looks at. Asked for none it looks at two, because the slice
        after the first ends before it starts; None when one of them does not exist. */
    method SpotsToDelete(k: nat, n: nat) returns (spots: Option<seq<Spot>>)
      requires Valid()
      ensures Valid()
      ensures var v, m := Visible(listing.Listing()), if n == 0 then 2 else n;
              spots == if k + m <= |v| then Some(v[k..k + m]) else None
    {
      hide Visible, Shape, TreeHideLists.AATreeHideList.Valid;
      ghost var v := Visible(listing.Listing());
      var len := listing.Length();
      if k + n > len {
        return None;
      }
      var p := listing.GetItem(k);
      if p.None? {
        return None;
      }
      var rest := listing.Slice(k + 1, k + n);
      if None in rest {
        return None;
      }
      spots := Some([p.value] + seq(|rest|, i requires 0 <= i < |rest| => assert rest[i] in rest; rest[i].value));
      assert spots.value == v[k..k + if n == 0 then 2 else n];
    }

    /** Records the changes one after the other. */
    method AddAllTreeOnly(changes: seq<Change>)
      requires Tree(id2rec) && ChildrenMatch(id2rec, parent2children) && AllFit(id2rec, changes)
      modifies `id2rec, `parent2children
      ensures id2rec == AddedAll(old(id2rec), changes) && ChildrenMatch(id2rec, parent2children)
    {
      hide ChildrenMatch, Tree, AllFit, AddedAll;
      ghost var recs := id2rec;
      NoChanges(recs);
      assert changes[..0] == [];
      for i := 0 to |changes|
        invariant AllFit(recs, changes[..i]) && id2rec == AddedAll(recs, changes[..i]) && Tree(id2rec)
        invariant ChildrenMatch(id2rec, parent2children)
      {
        FirstFit(recs, changes, i);
        FirstFit(recs, changes, i + 1);
        AddTreeOnly(changes[i]);
      }
      assert changes[..|changes|] == changes;
    }

    /** `delete`: n characters from k on, with the changes to send; ids are the random ids to draw
        from. */
    method Delete(k: nat, n: nat, ids: seq<int>) returns (ok: bool, changes: seq<Change>)
      requires Valid() && n + 2 <= |ids| && FreshIds(id2rec, ids)
      modifies Repr()
      ensures Valid() && Repr() == old(Repr()) && cursor == old(cursor)
      ensures ok <==> k + (if n == 0 then 2 else n) <= |old(Shown())|
      ensures ok ==> changes == LocalDeletions(old(Now()), k, if n == 0 then 2 else n, ids)
      ensures ok && n >= 1 ==> Some(Now()) == Removed(old(Now()), k, n, ids)
                               && Shown() == old(Shown())[..k] + old(Shown())[k + n..]
      ensures ok && n == 0 ==> AllFit(old(id2rec), changes) && Now() == State(AddedAll(old(id2rec), changes), Hide(old(listing.Listing()), k, 1))
                               && Shown() == Cut(old(Shown()), k, 1)
      ensures !ok ==> Now() == old(Now())
    {
      hide Visible, Shape, Text, Hide, AllFit, AddedAll, FreshIds, Contigs, TreeHideLists.AATreeHideList.Valid, TreeHideLists.AATreeHideList.Listing;
      ghost var s, m := Now(), if n == 0 then 2 else n;
      var found := SpotsToDelete(k, n);
      if found.None? {
        return false, [];
      }
      var spots := found.value;
      assert spots == [spots[0]] + spots[1..];
      assert allocated(listing.Repr());
      var contigs := FindContigs(spots[0], spots[1..]);
      ContigsLength(spots);
      changes := seq(|contigs|, i requires 0 <= i < |contigs| => DeletionOf(contigs[i], ids[i]));
      assert changes == LocalDeletions(s, k, m, ids);
      LocalDelete(s, k, m, ids);
      ShapeTree(id2rec, listing.Listing());
      if n == 0 { DeletingNothing(s, k, ids); }
      assert allocated(listing.Repr());
      AddAllTreeOnly(changes);
      var _ := listing.HideElements(k, n);
      ok := true;
    }

    /** Hides a run that the loop of `add_change` has found, and notes it for the listeners. */
    method HideRun(start: nat, end: nat, flist: seq<Edit>, ghost text: string) returns (ok: bool, flist': seq<Edit>)
      requires Valid() && start < end && Shown() == Replayed(text, flist)
      modifies listing.tree`tree, AATrees.Nodes(listing.tree.tree)`annotation
      ensures Valid() && Repr() == old(Repr()) && Items(listing.Listing()) == old(Items(listing.Listing()))
      ensures Flush(old(listing.Listing()), Run(start, end)) == if ok then Some(listing.Listing()) else None
      ensures Shown() == Replayed(text, flist') && flist' == flist + [Deletion(start, end - start)]
    {
      hide Visible, Shape, Text, Hide, TreeHideLists.AATreeHideList.Valid, TreeHideLists.AATreeHideList.Listing, ChildrenMatch, Replayed;
      ghost var s := listing.Listing();
      var n := end - start;
      flist' := flist + [Deletion(start, n)];
      ReplayedMore(text, flist, Deletion(start, n));
      ShapeHidden(id2rec, s, start, n);
      HideKeepsItems(s, start, n);
      TextCut(id2rec, s, id2rec, start, n);
      ok := listing.HideElements(start, n);
    }

    /** The loop of `add_change` over the characters of a deletion. */
    method SweepList(c: Change) returns (ok: bool, flist: seq<Edit>)
      requires Valid() && c.edit.Deletion?
      modifies listing.tree`tree, AATrees.Nodes(listing.tree.tree)`annotation
      ensures Valid() && Repr() == old(Repr()) && Items(listing.Listing()) == old(Items(listing.Listing()))
      ensures Sweep(old(listing.Listing()), c.parent, c.edit.position, c.edit.position + c.edit.length, NoRun)
              == if ok then Some(listing.Listing()) else None
      ensures Shown() == Replayed(old(Shown()), flist) && OnlyDeletions(flist)
    {
      hide Visible, Shape, Text, Hide, TreeHideLists.AATreeHideList.Valid, TreeHideLists.AATreeHideList.Listing, ChildrenMatch, Replayed, Flush, Sweep, Rank, Where, Items;
      ghost var text := Shown();
      ReplayedNone(text);
      flist := [];
      var run := NoRun;
      var i, hi := c.edit.position, c.edit.position + c.edit.length;
      while i < hi
        invariant Valid() && Repr() == old(Repr()) && Items(listing.Listing()) == old(Items(listing.Listing()))
        invariant i <= hi || i == c.edit.position
        invariant run.Run? ==> run.start < run.end
        invariant Sweep(old(listing.Listing()), c.parent, c.edit.position, hi, NoRun) == Sweep(listing.Listing(), c.parent, i, hi, run)
        invariant Shown() == Replayed(text, flist) && OnlyDeletions(flist)
        decreases hi - i
      {
        assert allocated(listing.Repr());
        SweepUnfolds(listing.Listing(), c.parent, i, hi, run);
        var p := Spot(c.parent, i);
        var visible := listing.IsVisibleItem(p);
        if visible.None? {
          return false, flist;
        }
        if visible.value {
          var q := listing.Index(p, false);
          if run.Run? && run.end == q.value {
            run := Run(run.start, run.end + 1);
          } else {
            if run.Run? {
              ok, flist := HideRun(run.start, run.end, flist, text);
              if !ok {
                return false, flist;
              }
            }
            run := Run(q.value, q.value + 1);
          }
        }
        i := i + 1;
      }
      SweepUnfolds(listing.Listing(), c.parent, i, hi, run);
      ok := true;
      if run.Run? {
        ok, flist := HideRun(run.start, run.end, flist, text);
      }
    }

    /** `add_change`: takes in a change from elsewhere, and returns the edits that listeners replay on
        what is visible. When it raises, nothing has been recorded, but some of a deletion may have
        been hidden. */
    method AddChange(c: Change) returns (ok: bool, flist: seq<Edit>)
      requires Valid()
      modifies Repr()
      ensures Valid() && forall x :: x in Repr() && x !in old(Repr()) ==> fresh(x)
      ensures Received(old(Now()), c) == if ok then Some(Now()) else None
      ensures ok ==> Shown() == Replayed(old(Shown()), flist)
      // A known change is no edit, an insertion is the one that inserts its text, a deletion only deletes.
      ensures ok ==> if c.uid in old(id2rec) then flist == []
                     else if c.edit.Insertion? then |flist| == 1 && flist[0].Insertion? && flist[0].text == c.edit.text
                     else OnlyDeletions(flist)
      ensures !ok ==> id2rec == old(id2rec) && Items(listing.Listing()) == old(Items(listing.Listing()))
      ensures cursor == old(cursor)
    {
      if c.uid in id2rec {
        ReplayedNone(Shown());
        return true, [];
      }
      if c.edit.Insertion? {
        ok, flist := AddInsertion(c);
      } else {
        ok, flist := AddDeletion(c);
      }
    }

    method AddInsertion(c: Change) returns (ok: bool, flist: seq<Edit>)
      requires Valid() && c.uid !in id2rec && c.edit.Insertion?
      modifies Repr()
      ensures Valid() && forall x :: x in Repr() && x !in old(Repr()) ==> fresh(x)
      ensures Received(old(Now()), c) == if ok then Some(Now()) else None
      ensures ok ==> Shown() == Replayed(old(Shown()), flist) && |flist| == 1 && flist[0].Insertion? && flist[0].text == c.edit.text
      ensures !ok ==> Now() == old(Now())
      ensures cursor == old(cursor)
    {
      hide Visible, Shape, Text, Rank, Where, Items, TreeHideLists.AATreeHideList.Valid, TreeHideLists.AATreeHideList.Listing, ChildrenMatch, Replayed, IsEffective;
      ghost var s := Now();
      assert allocated(listing.Repr());
      ShapeTree(id2rec, listing.Listing());
      var p := EffectiveParent(c.uid, c.parent, c.edit.position);
      EffectiveIsUnique(id2rec, c, p, Effective(id2rec, c));
      var i := listing.Index(p, false);
      NewIdIsNotListed(id2rec, listing.Listing(), c.uid);
      if i.None? {
        return false, [];
      }
      EffectiveIsKnown(s, c);
      assert allocated(listing.Repr());
      AcceptedInsertion(s, c);
      ReceivedKeepsShape(s, c);
      TextInserted(id2rec, c, listing.Listing(), p);
      ReplayedNone(Shown());
      ReplayedMore(Shown(), [], Insertion(i.value, c.edit.text));
      flist := [] + [Insertion(i.value, c.edit.text)];
      ok := InsertListOnly(c.uid, p, |c.edit.text|);
      assert allocated(listing.Repr());
      AddTreeOnly(c);
    }

    method AddDeletion(c: Change) returns (ok: bool, flist: seq<Edit>)
      requires Valid() && c.uid !in id2rec && c.edit.Deletion?
      modifies Repr()
      ensures Valid() && Repr() == old(Repr())
      ensures Received(old(Now()), c) == if ok then Some(Now()) else None
      ensures ok ==> Shown() == Replayed(old(Shown()), flist) && OnlyDeletions(flist)
      ensures !ok ==> id2rec == old(id2rec) && Items(listing.Listing()) == old(Items(listing.Listing()))
      ensures cursor == old(cursor)
    {
      hide Visible, Shape, Text, Hide, TreeHideLists.AATreeHideList.Valid, TreeHideLists.AATreeHideList.Listing, ChildrenMatch, Replayed, Sweep;
      ghost var s := Now();
      ok, flist := SweepList(c);
      if !ok || c.parent !in id2rec {
        return false, flist;
      }
      ghost var t := listing.Listing();
      ReceivedKeepsShape(s, c);
      ShapeTree(id2rec, t);
      assert allocated(listing.Repr());
      HideNothing(t, 0);
      TextCut(id2rec, t, Added(id2rec, c), 0, 0);
      WholeCut(Shown(), 0, 0);
      assert Shown()[..0] + Shown()[0 + 0..] == Shown();
      AddTreeOnly(c);
    }

    /** The ids of the texts and deletions made under a text, in any order. */
    method Children(x: int) returns (kids: seq<int>)
      requires Tree(id2rec) && ChildrenMatch(id2rec, parent2children)
      ensures forall u :: u in kids <==> Under(id2rec, u, x)
      ensures forall i, j :: 0 <= i < j < |kids| ==> kids[i] != kids[j]
    {
      kids := [];
      if x in parent2children {
        var todo := parent2children[x];
        while todo != {}
          invariant todo <= parent2children[x]
          invariant forall u :: u in kids ==> Under(id2rec, u, x) && id2rec[u] in parent2children[x] - todo
          invariant forall r :: r in parent2children[x] - todo ==> r.change.uid in kids
          invariant forall i, j :: 0 <= i < j < |kids| ==> kids[i] != kids[j]
          decreases todo
        {
          var r :| r in todo;
          todo := todo - {r};
          assert IsRecord(id2rec, r);
          kids := kids + [r.change.uid];
        }
      }
    }

    /** `get_changes`. */
    method GetChanges() returns (changes: seq<Change>)
      requires Valid()
      ensures IsHistory(id2rec, changes)
    {
      hide Shape, ChildrenMatch, Tree, Walked, TreeHideLists.AATreeHideList.Valid, AddedAll;
      ShapeTree(id2rec, listing.Listing());
      assert ROOT in id2rec && id2rec[ROOT] == ROOT_RECORD by { RootIsRecord(id2rec); }
      changes := [];
      var stack := [ROOT];
      ghost var seen: set<int> := {};
      while stack != []
        invariant changes == [] ==> stack == [ROOT]
        invariant changes != [] ==> changes[0] == ROOT_RECORD.change && Walked(id2rec, changes[1..], stack)
                                    && ParentsFirst(changes[1..]) && seen == AddedAll(EMPTY.recs, changes[1..]).Keys
        decreases changes == [], id2rec.Keys - seen
      {
        var x := stack[|stack| - 1];
        var front := stack[..|stack| - 1];
        assert stack == front + [x];
        var kids := Children(x);
        if changes == [] {
          assert x == ROOT && front == [] && [] + kids == kids;
          assert [id2rec[x].change][1..] == [];
          WalkStarts(id2rec, kids);
        } else {
          WalkGoesOn(id2rec, changes[1..], front, x, kids);
          assert (changes + [id2rec[x].change])[1..] == changes[1..] + [id2rec[x].change];
        }
        changes := changes + [id2rec[x].change];
        stack := front + kids;
        seen := AddedAll(EMPTY.recs, changes[1..]).Keys;
      }
      WalkEnds(id2rec, changes[1..]);
    }
  }

  lemma EffectiveIsKnown(s: State, c: Change)
    requires Shaped(s) && c.edit.Insertion? && c.uid !in s.recs && Effective(s.recs, c) in Items(s.listing)
    ensures Received(s, c).Some?
  {
    var target := Effective(s.recs, c);
    assert IsSpot(s.recs, target);
    if target != Spot(c.parent, c.edit.position) {
      assert IsChild(s.recs, target.uid, c.parent, c.edit.position);
    }
  }

  lemma {:induction false} SweepUnfolds(s: seq<Entry<Spot>>, u: int, i: int, hi: int, run: Run)
    ensures Flush(s, NoRun) == Some(s)
    ensures hi <= i ==> Sweep(s, u, i, hi, run) == Flush(s, run)
    ensures i < hi && Spot(u, i) !in Items(s) ==> Sweep(s, u, i, hi, run) == None
    ensures i < hi && Spot(u, i) in Items(s) ==>
              var j := Where(s, Spot(u, i));
              var q := Rank(s, j);
              Sweep(s, u, i, hi, run) ==
              if !s[j].visible then Sweep(s, u, i + 1, hi, run)
              else if run.Run? && run.end == q then Sweep(s, u, i + 1, hi, Run(run.start, q + 1))
              else if Flush(s, run).None? then None
              else Sweep(Flush(s, run).value, u, i + 1, hi, Run(q, q + 1))
  {
  }

  lemma {:induction false} ReplayedNone(text: string)
    ensures Replayed(text, []) == text
  {
  }

  lemma OneContig(x: Spot)
    ensures Contigs([x]) == [Contig(x.uid, x.index, x.index)]
  {
    assert [x][..0] == [];
  }

  lemma NewIdIsNotListed(recs: Records, s: seq<Entry<Spot>>, uid: int)
    requires Shape(recs, s) && uid !in recs
    ensures forall i :: Spot(uid, i) !in Items(s)
  {
  }

  // -------------------------------------------------------------------------
  // Whole runs
  // -------------------------------------------------------------------------

  /** The events of a run are possible as long as nothing has been raised. */
  ghost predicate RunPossible(s: State, events: seq<Event>)
    decreases |events|
  {
    events == [] || (Possible(s.recs, events[0]) && (Happened(s, events[0]).Some? ==> RunPossible(Happened(s, events[0]).value, events[1..])))
  }

  method Handle(t: SimpleStringTree, e: Event) returns (ok: bool)
    requires t.Valid() && Possible(t.id2rec, e)
    modifies t.Repr()
    ensures t.Valid() && forall x :: x in t.Repr() && x !in old(t.Repr()) ==> fresh(x)
    ensures Happened(old(t.Now()), e).Some? <==> ok
    ensures ok ==> Happened(old(t.Now()), e) == Some(t.Now())
  {
    hide Inserted, Removed, Received, Shape, Text, FreshIds, LocalChange, LocalDeletions, AllFit;
    match e
    case Insert(text, k, uid) =>
      LocalInsert(t.Now(), text, OrStart(t.Now(), k), uid);
      var c := t.Insert(text, k, uid);
      ok := c.Some?;
    case Delete(k, n, ids) =>
      LocalDelete(t.Now(), k, n, ids);
      var sent;
      ok, sent := t.Delete(k, n, ids);
    case Receive(c) =>
      var flist;
      ok, flist := t.AddChange(c);
  }

  lemma {:induction false} MoreEvents(s: State, events: seq<Event>, i: nat)
    requires i < |events| && RunPossible(s, events[i..])
    ensures Possible(s.recs, events[i])
    ensures Happened(s, events[i]).Some? ==> RunPossible(Happened(s, events[i]).value, events[i + 1..])
  {
    assert events[i..][0] == events[i] && events[i..][1..] == events[i + 1..];
  }

  /** A whole run of a tree, up to the first error: the invariant holds at the end, whatever the order
      of local edits and changes from elsewhere, and the tree has gone through the states that the
      events lead through. */
  method RunTree(t: SimpleStringTree, events: seq<Event>) returns (ok: bool, ghost states: seq<State>)
    requires t.Valid() && RunPossible(t.Now(), events)
    modifies t.Repr()
    ensures t.Valid() && forall x :: x in t.Repr() && x !in old(t.Repr()) ==> fresh(x)
    ensures ok ==> IsRun(states, events) && states[0] == old(t.Now()) && states[|events|] == t.Now()
  {
    hide Possible, Happened, Shape, RunPossible, TreeHideLists.AATreeHideList.Valid, TreeHideLists.AATreeHideList.Listing;
    states := [t.Now()];
    assert events[0..] == events;
    for i := 0 to |events|
      invariant t.Valid() && forall x :: x in t.Repr() && x !in old(t.Repr()) ==> fresh(x)
      invariant |states| == i + 1 && states[0] == old(t.Now()) && states[i] == t.Now()
      invariant RunPossible(states[i], events[i..])
      invariant forall j :: 0 <= j < i ==> Possible(states[j].recs, events[j]) && Happened(states[j], events[j]) == Some(states[j + 1])
    {
      MoreEvents(t.Now(), events, i);
      ok := Handle(t, events[i]);
      if !ok {
        return;
      }
      states := states + [t.Now()];
    }
    ok := true;
  }

  /** Two trees that went through clean runs, local edits and changes from elsewhere in any order, and
      hold the same changes, list the same and show the same text. */
  method RunTwo(a: SimpleStringTree, ea: seq<Event>, b: SimpleStringTree, eb: seq<Event>)
    returns (ok: bool, ghost sa: seq<State>, ghost sb: seq<State>)
    requires a.Valid() && b.Valid() && a.Repr() !! b.Repr() && a.Now() == b.Now() == EMPTY
    requires RunPossible(EMPTY, ea) && RunPossible(EMPTY, eb)
    modifies a.Repr(), b.Repr()
    ensures a.Valid() && b.Valid()
    ensures ok ==> IsRun(sa, ea) && IsRun(sb, eb)
    ensures ok && (forall j :: 0 <= j < |ea| ==> Clean(sa[j], ea[j])) && (forall j :: 0 <= j < |eb| ==> Clean(sb[j], eb[j]))
            && a.id2rec.Keys == b.id2rec.Keys && (forall u :: u in a.id2rec ==> a.id2rec[u].change == b.id2rec[u].change)
            ==> a.id2rec == b.id2rec && a.listing.Listing() == b.listing.Listing() && a.Shown() == b.Shown()
  {
    hide Possible, Happened, Clean, Shape, RunPossible, TreeHideLists.AATreeHideList.Valid, TreeHideLists.AATreeHideList.Listing;
    assert allocated(b.Repr());
    ok, sa := RunTree(a, ea);
    assert allocated(a.Repr());
    var okB;
    okB, sb := RunTree(b, eb);
    ok := ok && okB;
    if ok && (forall j :: 0 <= j < |ea| ==> Clean(sa[j], ea[j])) && (forall j :: 0 <= j < |eb| ==> Clean(sb[j], eb[j]))
       && a.id2rec.Keys == b.id2rec.Keys && (forall u :: u in a.id2rec ==> a.id2rec[u].change == b.id2rec[u].change) {
      CleanRunsConverge(sa, ea, sb, eb);
    }
  }

  /** Changes from elsewhere, one after the other, up to the first error. */
  method Feed(t: SimpleStringTree, changes: seq<Change>) returns (ok: bool)
    requires t.Valid()
    modifies t.Repr()
    ensures t.Valid() && forall x :: x in t.Repr() && x !in old(t.Repr()) ==> fresh(x)
    ensures ok <==> ReceivedAll(old(t.Now()), changes).Some?
    ensures ok ==> ReceivedAll(old(t.Now()), changes) == Some(t.Now())
  {
    hide Received, ReceivedAll, Shape, TreeHideLists.AATreeHideList.Valid, TreeHideLists.AATreeHideList.Listing;
    ReceivedNone(t.Now());
    assert changes[..0] == [] && changes[..|changes|] == changes;
    for i := 0 to |changes|
      invariant t.Valid() && forall x :: x in t.Repr() && x !in old(t.Repr()) ==> fresh(x)
      invariant ReceivedAll(old(t.Now()), changes[..i]) == Some(t.Now())
    {
      ReceivedMore(old(t.Now()), changes[..i], changes[i]);
      assert changes[..i] + [changes[i]] == changes[..i + 1];
      var flist;
      ok, flist := t.AddChange(changes[i]);
      if !ok {
        StillNone(old(t.Now()), changes, i + 1);
        return;
      }
    }
    ok := true;
  }

  lemma {:induction false} StillNone(s: State, changes: seq<Change>, i: nat)
    requires i <= |changes| && ReceivedAll(s, changes[..i]).None?
    ensures ReceivedAll(s, changes).None?
    decreases |changes| - i
  {
    if i == |changes| {
      assert changes[..i] == changes;
    } else {
      ReceivedMore(s, changes[..i], changes[i]);
      assert changes[..i] + [changes[i]] == changes[..i + 1];
      StillNone(s, changes, i + 1);
    }
  }

  /** Two empty trees that are fed the same insertions in any two parent-first orders, none at the
      front of a text other than the root, list the same and show the same text. */
  method FeedTwo(a: SimpleStringTree, first: seq<Change>, b: SimpleStringTree, second: seq<Change>) returns (okA: bool, okB: bool)
    requires a.Valid() && b.Valid() && a.Repr() !! b.Repr() && a.Now() == b.Now() == EMPTY
    requires ParentsFirst(first) && ParentsFirst(second) && forall c :: c in first <==> c in second
    requires forall i :: 0 <= i < |first| ==> AtCharacter(first[i])
    modifies a.Repr(), b.Repr()
    ensures a.Valid() && b.Valid() && okA && okB
    ensures a.id2rec == b.id2rec && a.listing.Listing() == b.listing.Listing() && a.Shown() == b.Shown()
    ensures IsExact(a.Now()) && Tree(a.id2rec) && Items(a.listing.Listing()) == Walk(a.id2rec, ROOT, 0)
  {
    hide Items, Walk;
    hide ReceivedAll, ParentsFirst, Shape, Exact, TreeHideLists.AATreeHideList.Valid, TreeHideLists.AATreeHideList.Listing;
    InsertionsConverge(first, second);
    InsertionsAreExact(first);
    assert allocated(b.Repr());
    okA := Feed(a, first);
    assert allocated(a.Repr());
    okB := Feed(b, second);
    ListingIsWalk(a.id2rec, a.listing.Listing());
  }

  /** A tree that holds insertions only, none at the front of a text other than the root, hands on its
      history: an empty tree that is fed it lists and shows the same. */
  method HandOn(a: SimpleStringTree, b: SimpleStringTree) returns (ok: bool)
    requires a.Valid() && b.Valid() && a.Repr() !! b.Repr() && b.Now() == EMPTY
    requires IsExact(a.Now()) && NoneAtFront(a.id2rec)
    modifies b.Repr()
    ensures a.Valid() && b.Valid() && ok && a.Now() == old(a.Now()) == b.Now() && b.Shown() == a.Shown()
  {
    hide ReceivedAll, IsHistory, Shape, Exact, TreeHideLists.AATreeHideList.Valid, TreeHideLists.AATreeHideList.Listing;
    assert allocated(a.Repr()) && allocated(b.Repr());
    var changes := a.GetChanges();
    HistoryRebuilds(a.Now(), changes);
    ok := Feed(b, changes);
  }
}
