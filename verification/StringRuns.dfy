/** Whole runs of a string tree on values: what it does with a change from elsewhere and with local
    edits, what every run keeps, and which runs end alike. */
module StringRuns {
  import opened HideLists
  import opened Options
  import opened StringConvergence
  import opened StringDeletion
  import opened StringOrder
  import opened StringShape
  import TreeHideLists

  /** Records and listing. */
  datatype State = State(recs: Records, listing: seq<Entry<Spot>>)

  const EMPTY: State := State(map[ROOT := ROOT_RECORD], [Entry(Spot(ROOT, 0), false)])

  ghost predicate Shaped(s: State) {
    Shape(s.recs, s.listing)
  }

  ghost predicate IsExact(s: State) {
    Exact(s.recs, s.listing)
  }

  ghost function TextOf(s: State): string
    requires Shaped(s)
  {
    Text(s.recs, s.listing)
  }

  // -------------------------------------------------------------------------
  // Changes from elsewhere
  // -------------------------------------------------------------------------

  lemma {:induction false} LeastSibling(recs: Records, c: Change, w: int)
    requires w > c.uid && IsChild(recs, w, c.parent, c.edit.position)
    ensures exists v :: NextSibling(recs, c, v)
    decreases w - c.uid
  {
    if v :| c.uid < v < w && IsChild(recs, v, c.parent, c.edit.position) {
      LeastSibling(recs, c, v);
    } else {
      assert NextSibling(recs, c, w);
    }
  }

  /** What `_effective_parent` returns. */
  ghost function Effective(recs: Records, c: Change): (target: Spot)
    ensures IsEffective(recs, c, target)
  {
    if w :| w > c.uid && IsChild(recs, w, c.parent, c.edit.position) then
      LeastSibling(recs, c, w);
      var v :| NextSibling(recs, c, v);
      Spot(v, 0)
    else Spot(c.parent, c.edit.position)
  }

  lemma EffectiveIsUnique(recs: Records, c: Change, a: Spot, b: Spot)
    requires IsEffective(recs, c, a) && IsEffective(recs, c, b)
    ensures a == b
  {
  }

  /** `add_change`; None when it raises. */
  ghost function Received(s: State, c: Change): Option<State> {
    if c.uid in s.recs then Some(s)
    else if c.parent !in s.recs then None
    else if c.edit.Insertion? then
      var target := Effective(s.recs, c);
      if target in Items(s.listing)
      then Some(State(Added(s.recs, c), InsertAt(s.listing, Where(s.listing, target), BlockEntries(c))))
      else None
    else
      var f := Sweep(s.listing, c.parent, c.edit.position, c.edit.position + c.edit.length, NoRun);
      if f.Some? then Some(State(Added(s.recs, c), f.value)) else None
  }

  ghost function ReceivedAll(s: State, changes: seq<Change>): Option<State>
    decreases |changes|
  {
    if changes == [] then Some(s)
    else
      var t := ReceivedAll(s, changes[..|changes| - 1]);
      if t.None? then None else Received(t.value, changes[|changes| - 1])
  }

  lemma {:induction false} ReceivedMore(s: State, front: seq<Change>, c: Change)
    ensures ReceivedAll(s, front + [c]) == var t := ReceivedAll(s, front); if t.None? then None else Received(t.value, c)
  {
    assert (front + [c])[..|front|] == front;
  }

  lemma {:induction false} ReceivedNone(s: State)
    ensures ReceivedAll(s, []) == Some(s)
  {
  }

  /** An accepted new insertion goes into a known text, at a known place. */
  lemma AcceptedInsertion(s: State, c: Change)
    requires Shaped(s) && c.uid !in s.recs && c.edit.Insertion? && Received(s, c).Some?
    ensures NewText(s.recs, c) && MayGo(s.recs, c, Effective(s.recs, c))
  {
    var target := Effective(s.recs, c);
    assert target in Items(s.listing);
    assert IsSpot(s.recs, target);
    if target != Spot(c.parent, c.edit.position) {
      assert IsChild(s.recs, target.uid, c.parent, c.edit.position);
      assert Fits(s.recs, s.recs[target.uid].change);
    }
  }

  /** A new insertion at a known place is accepted. */
  lemma InsertionIsAccepted(s: State, c: Change)
    requires Shaped(s) && NewText(s.recs, c)
    ensures Received(s, c).Some?
  {
    var target := Effective(s.recs, c);
    if target != Spot(c.parent, c.edit.position) {
      assert IsChild(s.recs, target.uid, c.parent, c.edit.position);
    }
    assert IsSpot(s.recs, target);
  }

  lemma {:induction false} SweepKeepsItems(s: seq<Entry<Spot>>, u: int, i: int, hi: int, run: Run)
    ensures var f := Sweep(s, u, i, hi, run);
            f.Some? ==> Items(f.value) == Items(s) && forall j :: i <= j < hi ==> Spot(u, j) in Items(s)
    decreases hi - i
  {
    hide Visible, Hide, Items;
    var f := Sweep(s, u, i, hi, run);
    if f.Some? {
      if run.Run? && run.start < run.end { HideKeepsItems(s, run.start, run.end - run.start); }
      if i < hi {
        var j := Where(s, Spot(u, i));
        var q := Rank(s, j);
        if !s[j].visible {
          SweepKeepsItems(s, u, i + 1, hi, run);
        } else if run.Run? && run.end == q {
          SweepKeepsItems(s, u, i + 1, hi, Run(run.start, q + 1));
        } else {
          SweepKeepsItems(Flush(s, run).value, u, i + 1, hi, Run(q, q + 1));
        }
      }
    }
  }

  lemma HideKeepsItems(s: seq<Entry<Spot>>, p: nat, n: nat)
    ensures Items(Hide(s, p, n)) == Items(s)
  {
  }

  lemma {:induction false} SweepShape(recs: Records, s: seq<Entry<Spot>>, u: int, i: int, hi: int, run: Run)
    requires Shape(recs, s)
    ensures var f := Sweep(s, u, i, hi, run);
            f.Some? ==> Shape(recs, f.value)
    decreases hi - i
  {
    hide Visible, Hide, Shape;
    var f := Sweep(s, u, i, hi, run);
    if f.Some? {
      if run.Run? && run.start < run.end { ShapeHidden(recs, s, run.start, run.end - run.start); }
      if i < hi {
        var j := Where(s, Spot(u, i));
        var q := Rank(s, j);
        if !s[j].visible {
          SweepShape(recs, s, u, i + 1, hi, run);
        } else if run.Run? && run.end == q {
          SweepShape(recs, s, u, i + 1, hi, Run(run.start, q + 1));
        } else {
          SweepShape(recs, Flush(s, run).value, u, i + 1, hi, Run(q, q + 1));
        }
      }
    }
  }

  /** An accepted new deletion is of known spots. */
  lemma AcceptedDeletion(s: State, c: Change)
    requires Shaped(s) && c.uid !in s.recs && c.edit.Deletion? && Received(s, c).Some?
    ensures NewDeletion(s.recs, c)
  {
    hide Sweep;
    SweepKeepsItems(s.listing, c.parent, c.edit.position, c.edit.position + c.edit.length, NoRun);
  }

  /** Whatever a change does, the tree keeps its shape. */
  lemma ReceivedKeepsShape(s: State, c: Change)
    requires Shaped(s) && Received(s, c).Some?
    ensures Shaped(Received(s, c).value)
  {
    hide Shape, Sweep;
    if c.uid !in s.recs {
      if c.edit.Insertion? {
        AcceptedInsertion(s, c);
        VisibleBlock(c);
        ShapeInserted(s.recs, c, s.listing, Effective(s.recs, c), BlockEntries(c));
      } else {
        var hi := c.edit.position + c.edit.length;
        AcceptedDeletion(s, c);
        SweepShape(s.recs, s.listing, c.parent, c.edit.position, hi, NoRun);
        ShapeDeletion(s.recs, c, Sweep(s.listing, c.parent, c.edit.position, hi, NoRun).value);
      }
    }
  }

  /** What keeps an exact tree exact. */
  ghost predicate CleanChange(s: State, c: Change) {
    || c.uid in s.recs
    || if c.edit.Insertion? then !Obstructed(s.recs, c)
       else OneRun(s.listing, c.parent, c.edit.position, c.edit.position + c.edit.length)
  }

  /** A change from elsewhere leaves an exact tree exact if it is clean, and only then. */
  lemma ReceivedExactly(s: State, c: Change)
    requires IsExact(s) && Received(s, c).Some?
    ensures Shaped(s) && (IsExact(Received(s, c).value) <==> CleanChange(s, c))
  {
    hide Exact, Shape, Sweep, OneRun, Obstructed;
    ExactShape(s);
    if c.uid !in s.recs {
      if c.edit.Insertion? {
        AcceptedInsertion(s, c);
        RemoteInsertion(s.recs, c, s.listing, Effective(s.recs, c));
      } else {
        AcceptedDeletion(s, c);
        RemoteDeletion(s.recs, c, s.listing);
      }
    }
  }

  lemma ExactShape(s: State)
    requires IsExact(s)
    ensures Shaped(s)
  {
  }

  // -------------------------------------------------------------------------
  // Local edits
  // -------------------------------------------------------------------------

  /** The change that `insert` makes. */
  ghost function LocalChange(s: State, text: string, k: nat, uid: int): Change
    requires k <= |Visible(s.listing)|
  {
    var target := LocalTarget(s.recs, Visible(s.listing), k);
    Change(uid, target.uid, Insertion(target.index, text))
  }

  /** `insert`, which puts its text right left of the spot itself; None past the end. */
  ghost function Inserted(s: State, text: string, k: nat, uid: int): Option<State> {
    if k > |Visible(s.listing)| then None
    else
      var c := LocalChange(s, text, k, uid);
      var target := Spot(c.parent, c.edit.position);
      if c.parent in s.recs && target in Items(s.listing)
      then Some(State(Added(s.recs, c), InsertAt(s.listing, Where(s.listing, target), BlockEntries(c))))
      else None
  }

  /** In every reachable tree, `insert(text, k)` puts text before visible character k. */
  lemma {:induction false} LocalInsert(s: State, text: string, k: nat, uid: int)
    requires Shaped(s) && uid !in s.recs
    ensures Inserted(s, text, k, uid).Some? <==> k <= |TextOf(s)|
    ensures k <= |TextOf(s)| ==>
              var c, t := LocalChange(s, text, k, uid), Inserted(s, text, k, uid).value;
              && NewText(s.recs, c) && Shaped(t) && t.recs == Added(s.recs, c)
              && TextOf(t) == TextOf(s)[..k] + text + TextOf(s)[k..]
              && (IsExact(s) ==> (IsExact(t) <==> !HasGreaterSibling(s.recs, c)))
  {
    hide Shape, Exact, Text, HasGreaterSibling;
    if k <= |Visible(s.listing)| {
      var c := LocalChange(s, text, k, uid);
      LocalRank(s.recs, s.listing, k);
      ShapeTree(s.recs, s.listing);
      TextInserted(s.recs, c, s.listing, Spot(c.parent, c.edit.position));
      if IsExact(s) { LocalInsertion(s.recs, c, s.listing); }
    }
  }

  /** The changes that `delete` makes of n visible characters from k on. */
  ghost function LocalDeletions(s: State, k: nat, n: nat, ids: seq<int>): seq<Change>
    requires k + n <= |Visible(s.listing)| && n <= |ids|
  {
    ContigsLength(Visible(s.listing)[k..k + n]);
    DeletionsOf(Contigs(Visible(s.listing)[k..k + n]), ids)
  }

  /** `delete` of at least one character; None past the end. */
  ghost function Removed(s: State, k: nat, n: nat, ids: seq<int>): Option<State>
    requires n <= |ids|
  {
    if k + n > |Visible(s.listing)| || !AllFit(s.recs, LocalDeletions(s, k, n, ids)) then None
    else Some(State(AddedAll(s.recs, LocalDeletions(s, k, n, ids)), Hide(s.listing, k, n)))
  }

  lemma {:induction false} TextCut(recs: Records, s: seq<Entry<Spot>>, recs': Records, k: nat, n: nat)
    requires Shape(recs, s) && Shape(recs', Hide(s, k, n))
    requires forall u :: IsText(recs, u) ==> IsText(recs', u) && recs'[u].change.edit == recs[u].change.edit
    ensures Text(recs', Hide(s, k, n)) == Cut(Text(recs, s), k, n)
  {
    hide Visible, Hide, Shape;
    VisibleHidden(s, k, n);
    VisibleCharacters(recs, s);
    VisibleCharacters(recs', Hide(s, k, n));
    var v, w := Visible(s), Visible(Hide(s, k, n));
    assert w == Cut(v, k, n);
    assert |Cut(Text(recs, s), k, n)| == |w|;
    forall i | 0 <= i < |w|
      ensures CharacterAt(recs', w[i]) == Cut(Text(recs, s), k, n)[i]
    {
      assert w[i] == v[if i < k then i else i + n];
      assert IsCharacter(recs, w[i]);
    }
  }

  lemma {:induction false} AddedAllTexts(recs: Records, changes: seq<Change>, u: int)
    requires AllFit(recs, changes) && IsText(recs, u)
    ensures IsText(AddedAll(recs, changes), u) && AddedAll(recs, changes)[u].change.edit == recs[u].change.edit
    decreases |changes|
  {
    if changes != [] { AddedAllTexts(recs, changes[..|changes| - 1], u); }
  }

  /** In every reachable tree, `delete(k, n)` takes away visible characters k to k + n - 1, and keeps
      an exact tree exact. */
  lemma {:induction false} LocalDelete(s: State, k: nat, n: nat, ids: seq<int>)
    requires Shaped(s) && n <= |ids| && FreshIds(s.recs, ids)
    ensures Removed(s, k, n, ids).Some? <==> k + n <= |TextOf(s)|
    ensures k + n <= |TextOf(s)| ==>
              var t := Removed(s, k, n, ids).value;
              && Shaped(t) && TextOf(t) == TextOf(s)[..k] + TextOf(s)[k + n..]
              && (IsExact(s) ==> IsExact(t))
  {
    hide Visible, Shape, Exact, Text, Hide, AllFit, AddedAll, FreshIds, Contigs, DeletionsOf;
    if k + n <= |Visible(s.listing)| {
      ContigsLength(Visible(s.listing)[k..k + n]);
      DeletionsFit(s.recs, s.listing, k, n, ids);
      var changes := LocalDeletions(s, k, n, ids);
      forall u | IsText(s.recs, u)
        ensures IsText(AddedAll(s.recs, changes), u) && AddedAll(s.recs, changes)[u].change.edit == s.recs[u].change.edit
      {
        AddedAllTexts(s.recs, changes, u);
      }
      TextCut(s.recs, s.listing, AddedAll(s.recs, changes), k, n);
      WholeCut(TextOf(s), k, n);
    }
  }

  lemma WholeCut<T>(s: seq<T>, k: nat, n: nat)
    requires k + n <= |s|
    ensures Cut(s, k, n) == s[..k] + s[k + n..]
  {
  }

  /** A replica in the same state that is sent the deletions reaches the same state. */
  lemma {:induction false} DeletionsArrive(s: State, k: nat, n: nat, ids: seq<int>)
    requires Shaped(s) && n <= |ids| && FreshIds(s.recs, ids) && k + n <= |Visible(s.listing)|
    ensures ReceivedAll(s, LocalDeletions(s, k, n, ids)) == Removed(s, k, n, ids)
  {
    hide Visible, Shape, Exact, Hide, AllFit, AddedAll, FreshIds, Contigs, ReceivedAll;
    var v := Visible(s.listing)[k..k + n];
    ContigsLength(v);
    DeletionsFit(s.recs, s.listing, k, n, ids);
    SweepContigs(s.recs, s.listing, k, n);
    SweepsAreReceived(s, Contigs(v), ids);
  }

  lemma {:induction false} SweepsAreReceived(s: State, cs: seq<Contig>, ids: seq<int>)
    requires |cs| <= |ids| && AllFit(s.recs, DeletionsOf(cs, ids)) && SweepAll(s.listing, cs).Some?
    ensures ReceivedAll(s, DeletionsOf(cs, ids)) == Some(State(AddedAll(s.recs, DeletionsOf(cs, ids)), SweepAll(s.listing, cs).value))
    decreases |cs|
  {
    hide Sweep;
    var changes := DeletionsOf(cs, ids);
    if cs != [] {
      var front, last := cs[..|cs| - 1], changes[|changes| - 1];
      assert changes[..|changes| - 1] == DeletionsOf(front, ids);
      assert changes == DeletionsOf(front, ids) + [last];
      SweepsAreReceived(s, front, ids);
      ReceivedMore(s, DeletionsOf(front, ids), last);
    }
  }

  /** Asked for none, `delete(k, 0)` takes one character away here and records the deletion of two:
      an exact tree is exact no more. */
  lemma {:induction false} DeletingNothing(s: State, k: nat, ids: seq<int>)
    requires Shaped(s) && 2 <= |ids| && FreshIds(s.recs, ids) && k + 2 <= |Visible(s.listing)|
    ensures AllFit(s.recs, LocalDeletions(s, k, 2, ids))
    ensures var t := State(AddedAll(s.recs, LocalDeletions(s, k, 2, ids)), Hide(s.listing, k, 1));
            Shaped(t) && TextOf(t) == Cut(TextOf(s), k, 1) && (IsExact(s) ==> !IsExact(t))
  {
    hide Visible, Shape, Exact, Text, Hide, AllFit, AddedAll, FreshIds, Contigs, DeletionsOf;
    ContigsLength(Visible(s.listing)[k..k + 2]);
    DeletionsFit(s.recs, s.listing, k, 2, ids);
    var changes := LocalDeletions(s, k, 2, ids);
    var recs' := AddedAll(s.recs, changes);
    forall u | IsText(s.recs, u)
      ensures IsText(recs', u) && recs'[u].change.edit == s.recs[u].change.edit
    {
      AddedAllTexts(s.recs, changes, u);
    }
    ShapeWithMoreShown(s.recs, recs', s.listing, k);
    TextCut(s.recs, s.listing, recs', k, 1);
    VisibleHidden(s.listing, k, 1);
    VisibleHidden(s.listing, k, 2);
    CutLength(Visible(s.listing), k, 1);
    CutLength(Visible(s.listing), k, 2);
    if IsExact(s) && Exact(recs', Hide(s.listing, k, 1)) {
      Converge(recs', Hide(s.listing, k, 1), Hide(s.listing, k, 2));
      assert false;
    }
  }

  lemma ShapeWithMoreShown(recs: Records, recs': Records, s: seq<Entry<Spot>>, k: nat)
    requires Shape(recs, s) && Shape(recs', Hide(s, k, 2))
    requires forall u :: IsText(recs, u) ==> IsText(recs', u) && recs'[u].change.edit == recs[u].change.edit
    ensures Shape(recs', Hide(s, k, 1))
  {
    assert Items(Hide(s, k, 1)) == Items(s) && Items(Hide(s, k, 2)) == Items(s);
  }

  /** The records after the first changes of a row. */
  lemma {:induction false} FirstFit(recs: Records, changes: seq<Change>, i: nat)
    requires Tree(recs) && AllFit(recs, changes) && i <= |changes|
    ensures AllFit(recs, changes[..i]) && Tree(AddedAll(recs, changes[..i]))
    ensures i < |changes| ==> changes[i].uid !in AddedAll(recs, changes[..i]) && Fits(AddedAll(recs, changes[..i]), changes[i])
                              && AllFit(recs, changes[..i + 1])
                              && AddedAll(recs, changes[..i + 1]) == Added(AddedAll(recs, changes[..i]), changes[i])
    decreases |changes|
  {
    if changes == [] {
    } else {
      var front, last := changes[..|changes| - 1], changes[|changes| - 1];
      if i < |changes| {
        FirstFit(recs, front, i);
        assert changes[..i] == front[..i];
        if i + 1 < |changes| { assert changes[..i + 1] == front[..i + 1]; } else { assert changes[..i + 1] == changes && front[..i] == front; }
      } else {
        FirstFit(recs, front, |front|);
        assert changes[..i] == changes && front[..|front|] == front;
        AddedTree(AddedAll(recs, front), last);
      }
    }
  }

  // -------------------------------------------------------------------------
  // Runs
  // -------------------------------------------------------------------------

  /** What can happen to a tree. The uids are the random ids drawn. */
  datatype Event =
    | Insert(text: string, k: nat, uid: int)
    | Delete(k: nat, n: nat, ids: seq<int>)
    | Receive(c: Change)

  /** New ids are new, and a deletion is of at least one character. */
  ghost predicate Possible(recs: Records, e: Event) {
    match e
    case Insert(_, _, uid) => uid !in recs
    case Delete(_, n, ids) => 1 <= n && n + 2 <= |ids| && FreshIds(recs, ids)
    case Receive(_) => true
  }

  /** A tree that shows nothing takes every place for the start. */
  ghost function OrStart(s: State, k: nat): nat {
    if Visible(s.listing) == [] then 0 else k
  }

  ghost function Happened(s: State, e: Event): Option<State>
    requires Possible(s.recs, e)
  {
    match e
    case Insert(text, k, uid) => Inserted(s, text, OrStart(s, k), uid)
    case Delete(k, n, ids) => Removed(s, k, n, ids)
    case Receive(c) => Received(s, c)
  }

  /** The states a run goes through. */
  ghost predicate IsRun(states: seq<State>, events: seq<Event>) {
    && |states| == |events| + 1
    && forall i :: 0 <= i < |events| ==> Possible(states[i].recs, events[i]) && Happened(states[i], events[i]) == Some(states[i + 1])
  }

  /** Local deletions are always clean, local insertions unless they meet a text of a greater id at
      the same place. */
  ghost predicate Clean(s: State, e: Event) {
    match e
    case Insert(text, k, uid) =>
      OrStart(s, k) <= |Visible(s.listing)| && !HasGreaterSibling(s.recs, LocalChange(s, text, OrStart(s, k), uid))
    case Delete(_, _, _) => true
    case Receive(c) => CleanChange(s, c)
  }

  /** What every step keeps, and the exact condition under which it keeps the tree exact. */
  lemma OneEvent(s: State, e: Event)
    requires Shaped(s) && Possible(s.recs, e) && Happened(s, e).Some?
    ensures Shaped(Happened(s, e).value)
    ensures IsExact(s) ==> (IsExact(Happened(s, e).value) <==> Clean(s, e))
  {
    hide Shape, Exact, Text, Inserted, Removed, Received, CleanChange, HasGreaterSibling;
    match e
    case Insert(text, k, uid) => LocalInsert(s, text, OrStart(s, k), uid);
    case Delete(k, n, ids) => LocalDelete(s, k, n, ids);
    case Receive(c) =>
      ReceivedKeepsShape(s, c);
      if IsExact(s) { ReceivedExactly(s, c); }
  }

  lemma EmptyIsShaped()
    ensures IsExact(EMPTY) && Shaped(EMPTY)
  {
    EmptyIsExact();
  }

  /** Every reachable tree has the shape that local insertion needs. */
  lemma {:induction false} RunKeepsShape(states: seq<State>, events: seq<Event>, i: nat)
    requires IsRun(states, events) && states[0] == EMPTY && i < |states|
    ensures Shaped(states[i])
  {
    if i == 0 {
      EmptyIsShaped();
    } else {
      RunKeepsShape(states, events, i - 1);
      assert Happened(states[i - 1], events[i - 1]) == Some(states[i - 1 + 1]);
      OneEvent(states[i - 1], events[i - 1]);
    }
  }

  /** A run of clean steps ends in an exact tree. */
  lemma {:induction false} CleanRunIsExact(states: seq<State>, events: seq<Event>, i: nat)
    requires IsRun(states, events) && states[0] == EMPTY && i < |states|
    requires forall j :: 0 <= j < i ==> Clean(states[j], events[j])
    ensures IsExact(states[i])
  {
    if i == 0 {
      EmptyIsShaped();
    } else {
      CleanRunIsExact(states, events, i - 1);
      RunKeepsShape(states, events, i - 1);
      assert Happened(states[i - 1], events[i - 1]) == Some(states[i - 1 + 1]);
      OneEvent(states[i - 1], events[i - 1]);
    }
  }

  /** Records hold the changes under their ids; nothing else is in them. */
  lemma {:induction false} SameDepth(a: Records, b: Records, u: int)
    requires Tree(a) && Tree(b) && a.Keys == b.Keys && (forall v :: v in a ==> a[v].change == b[v].change) && u in a
    ensures a[u] == b[u]
    decreases a[u].depth
  {
    if u != ROOT { SameDepth(a, b, a[u].change.parent); }
  }

  lemma RecordsAreChanges(a: Records, b: Records)
    requires Tree(a) && Tree(b) && a.Keys == b.Keys && forall v :: v in a ==> a[v].change == b[v].change
    ensures a == b
  {
    forall u | u in a
      ensures a[u] == b[u]
    {
      SameDepth(a, b, u);
    }
  }

  /** Two clean runs, of local edits and changes from elsewhere in any order, that end with the same
      changes end with the same listing, hidden elements included. */
  lemma CleanRunsConverge(sa: seq<State>, ea: seq<Event>, sb: seq<State>, eb: seq<Event>)
    requires IsRun(sa, ea) && sa[0] == EMPTY && forall j :: 0 <= j < |ea| ==> Clean(sa[j], ea[j])
    requires IsRun(sb, eb) && sb[0] == EMPTY && forall j :: 0 <= j < |eb| ==> Clean(sb[j], eb[j])
    requires var a, b := sa[|ea|].recs, sb[|eb|].recs;
             a.Keys == b.Keys && forall v :: v in a ==> a[v].change == b[v].change
    ensures sa[|ea|] == sb[|eb|]
  {
    CleanRunIsExact(sa, ea, |ea|);
    CleanRunIsExact(sb, eb, |eb|);
    var s, t := sa[|ea|], sb[|eb|];
    ShapeTree(s.recs, s.listing);
    ShapeTree(t.recs, t.listing);
    RecordsAreChanges(s.recs, t.recs);
    Converge(s.recs, s.listing, t.listing);
  }

  // -------------------------------------------------------------------------
  // Insertions in any order
  // -------------------------------------------------------------------------

  /** Parents first, at known places, under new ids. */
  ghost predicate ParentsFirst(changes: seq<Change>) {
    AllFit(EMPTY.recs, changes)
  }

  /** An insertion that no other can end up on the wrong side of. */
  predicate AtCharacter(c: Change) {
    c.edit.Insertion? && (c.edit.position == 0 ==> c.parent == ROOT)
  }

  ghost predicate NoneAtFront(recs: Records) {
    forall u :: u in recs && u != ROOT ==> AtCharacter(recs[u].change)
  }

  lemma NotObstructed(recs: Records, c: Change)
    requires Tree(recs) && NoneAtFront(recs)
    ensures !Obstructed(recs, c)
  {
  }

  /** Feeding insertions, none at the front of a text other than the root, gives an exact tree. */
  lemma {:induction false} InsertionsAreExact(changes: seq<Change>)
    requires ParentsFirst(changes) && forall i :: 0 <= i < |changes| ==> AtCharacter(changes[i])
    ensures var t := ReceivedAll(EMPTY, changes);
            && t.Some? && t.value.recs == AddedAll(EMPTY.recs, changes) && IsExact(t.value) && NoneAtFront(t.value.recs)
    decreases |changes|
  {
    hide Exact, Shape, Received, Obstructed;
    if changes == [] {
      EmptyIsShaped();
    } else {
      var front, c := changes[..|changes| - 1], changes[|changes| - 1];
      InsertionsAreExact(front);
      var s := ReceivedAll(EMPTY, front).value;
      ExactShape(s);
      ShapeTree(s.recs, s.listing);
      InsertionIsAccepted(s, c);
      ReceivedExactly(s, c);
      NotObstructed(s.recs, c);
      ReceivedRecords(s, c);
    }
  }

  lemma ReceivedRecords(s: State, c: Change)
    requires Received(s, c).Some? && c.uid !in s.recs
    ensures c.parent in s.recs && Received(s, c).value.recs == Added(s.recs, c)
  {
  }

  /** The records after a row of changes are those changes. */
  lemma {:induction false} AddedAllChanges(changes: seq<Change>, u: int)
    requires ParentsFirst(changes)
    ensures var r := AddedAll(EMPTY.recs, changes);
            && Tree(r)
            && (u in r && u != ROOT ==> r[u].change in changes && r[u].change.uid == u)
            && (forall i :: 0 <= i < |changes| && changes[i].uid == u ==> u in r && u != ROOT && r[u].change == changes[i])
    decreases |changes|
  {
    if changes != [] {
      var front, c := changes[..|changes| - 1], changes[|changes| - 1];
      assert changes == front + [c];
      AddedAllChanges(front, u);
      AddedTree(AddedAll(EMPTY.recs, front), c);
    }
  }

  /** Any two parent-first orders of the same insertions, none at the front of a text other than
      the root, give the same tree with the same listing. */
  lemma {:induction false} InsertionsConverge(first: seq<Change>, second: seq<Change>)
    requires ParentsFirst(first) && ParentsFirst(second) && forall c :: c in first <==> c in second
    requires forall i :: 0 <= i < |first| ==> AtCharacter(first[i])
    ensures ReceivedAll(EMPTY, first).Some? && ReceivedAll(EMPTY, first) == ReceivedAll(EMPTY, second)
  {
    hide Exact, Shape, ReceivedAll, AddedAll, AllFit;
    forall i | 0 <= i < |second|
      ensures AtCharacter(second[i])
    {
      assert second[i] in first;
    }
    InsertionsAreExact(first);
    InsertionsAreExact(second);
    var a, b := AddedAll(EMPTY.recs, first), AddedAll(EMPTY.recs, second);
    SameChanges(first, second);
    SameChanges(second, first);
    forall u
      ensures u in a.Keys <==> u in b.Keys
    {
    }
    AddedAllChanges(first, ROOT);
    AddedAllChanges(second, ROOT);
    RecordsAreChanges(a, b);
    Converge(a, ReceivedAll(EMPTY, first).value.listing, ReceivedAll(EMPTY, second).value.listing);
  }

  lemma {:induction false} SameChanges(first: seq<Change>, second: seq<Change>)
    requires ParentsFirst(first) && ParentsFirst(second) && forall c :: c in first ==> c in second
    ensures var a, b := AddedAll(EMPTY.recs, first), AddedAll(EMPTY.recs, second);
            forall u :: u in a ==> u in b && b[u].change == a[u].change
  {
    hide AddedAll, AllFit;
    var a, b := AddedAll(EMPTY.recs, first), AddedAll(EMPTY.recs, second);
    forall u | u in a
      ensures u in b && b[u].change == a[u].change
    {
      AddedAllChanges(first, u);
      AddedAllChanges(second, u);
      if u != ROOT {
        assert a[u].change in second;
        var i :| 0 <= i < |second| && second[i] == a[u].change;
        assert second[i].uid == u;
      }
    }
  }
}
