/** The conditions for an exact tree are needed: for each of them a run that the code goes through,
    and what comes of it. */
module StringCounterexamples {
  import opened HideLists
  import opened Options
  import opened StringConvergence
  import opened StringDeletion
  import opened StringOrder
  import opened StringRuns
  import opened StringShape
  import TreeHideLists

  function Shows(uid: int): seq<Entry<Spot>> {
    [Entry(Spot(uid, 0), true), Entry(Spot(uid, 1), false)]
  }

  const LAST: seq<Entry<Spot>> := [Entry(Spot(ROOT, 0), false)]

  lemma OneCharacter(c: Change)
    requires c.edit.Insertion? && |c.edit.text| == 1
    ensures BlockEntries(c) == Shows(c.uid)
  {
  }

  /** A change from elsewhere, once it is known where its target stands. */
  lemma {:induction false} ReceivedAt(s: State, c: Change, target: Spot, j: nat)
    requires Shaped(s) && NewText(s.recs, c) && IsEffective(s.recs, c, target)
    requires j < |s.listing| && s.listing[j].item == target
    ensures Received(s, c) == Some(State(Added(s.recs, c), InsertAt(s.listing, j, BlockEntries(c))))
    ensures Shaped(Received(s, c).value)
  {
    EffectiveIsUnique(s.recs, c, target, Effective(s.recs, c));
    WhereIsUnique(s.listing, j);
    ReceivedKeepsShape(s, c);
  }

  lemma {:induction false} VisibleShows(s: seq<Entry<Spot>>, uid: int)
    ensures Visible(s + Shows(uid)) == Visible(s) + [Spot(uid, 0)]
    ensures Visible(s + LAST) == Visible(s)
  {
    assert s + Shows(uid) == (s + [Entry(Spot(uid, 0), true)]) + [Entry(Spot(uid, 1), false)];
    VisibleSnoc(s, Entry(Spot(uid, 0), true));
    VisibleSnoc(s + [Entry(Spot(uid, 0), true)], Entry(Spot(uid, 1), false));
    VisibleSnoc(s, Entry(Spot(ROOT, 0), false));
  }

  // -------------------------------------------------------------------------
  // A text at the front of the next greater sibling
  // -------------------------------------------------------------------------

  const C7: Change := Change(7, ROOT, Insertion(0, "c"))
  const B8: Change := Change(8, 7, Insertion(0, "b"))
  const A3: Change := Change(3, ROOT, Insertion(0, "a"))

  lemma {:induction false} AfterC() returns (s: State)
    ensures ReceivedAll(EMPTY, [C7]) == Some(s) && IsExact(s) && Shaped(s)
    ensures s.recs == map[ROOT := ROOT_RECORD, 7 := Record(C7, 1)] && s.listing == Shows(7) + LAST
  {
    EmptyIsShaped();
    AddedTree(EMPTY.recs, C7);
    ReceivedAt(EMPTY, C7, Spot(ROOT, 0), 0);
    OneCharacter(C7);
    ReceivedNone(EMPTY);
    ReceivedMore(EMPTY, [], C7);
    assert [] + [C7] == [C7];
    s := Received(EMPTY, C7).value;
    assert NoneAtFront(EMPTY.recs);
    NotObstructed(EMPTY.recs, C7);
    ReceivedExactly(EMPTY, C7);
  }

  /** b at the front of c. */
  lemma {:induction false} FrontOfC(s: State) returns (u: State)
    requires Shaped(s) && s.listing == Shows(7) + LAST && s.recs == map[ROOT := ROOT_RECORD, 7 := Record(C7, 1)]
    ensures Received(s, B8) == Some(u) && Shaped(u) && (IsExact(s) ==> IsExact(u))
    ensures u.recs == s.recs[8 := Record(B8, 2)] && u.listing == Shows(8) + Shows(7) + LAST
  {
    hide Exact, Visible, Shape, Received;
    ShapeTree(s.recs, s.listing);
    ReceivedAt(s, B8, Spot(7, 0), 0);
    OneCharacter(B8);
    u := Received(s, B8).value;
    assert !Obstructed(s.recs, B8);
    if IsExact(s) { ReceivedExactly(s, B8); }
  }

  /** After that, a is put between the two. */
  lemma {:induction false} BeforeA(u: State) returns (t: State)
    requires Shaped(u) && u.listing == Shows(8) + Shows(7) + LAST
    requires u.recs == map[ROOT := ROOT_RECORD, 7 := Record(C7, 1), 8 := Record(B8, 2)]
    ensures Received(u, A3) == Some(t) && Obstructed(u.recs, A3) && (IsExact(u) ==> !IsExact(t))
    ensures t.recs == u.recs[3 := Record(A3, 1)] && t.listing == Shows(8) + Shows(3) + Shows(7) + LAST
  {
    hide Exact, Visible, Shape, Received;
    ShapeTree(u.recs, u.listing);
    assert IsChild(u.recs, 7, ROOT, 0) && IsChild(u.recs, 8, 7, 0) && NextSibling(u.recs, A3, 7);
    ReceivedAt(u, A3, Spot(7, 0), 2);
    OneCharacter(A3);
    t := Received(u, A3).value;
    if IsExact(u) { ReceivedExactly(u, A3); }
  }

  /** a beside c. */
  lemma {:induction false} BesideC(s: State) returns (u: State)
    requires Shaped(s) && s.listing == Shows(7) + LAST && s.recs == map[ROOT := ROOT_RECORD, 7 := Record(C7, 1)]
    ensures Received(s, A3) == Some(u) && Shaped(u)
    ensures u.recs == s.recs[3 := Record(A3, 1)] && u.listing == Shows(3) + Shows(7) + LAST
  {
    hide Visible, Shape, Received;
    ShapeTree(s.recs, s.listing);
    assert IsChild(s.recs, 7, ROOT, 0) && NextSibling(s.recs, A3, 7);
    ReceivedAt(s, A3, Spot(7, 0), 0);
    OneCharacter(A3);
    u := Received(s, A3).value;
  }

  /** After that, b goes to the front of c. */
  lemma {:induction false} AfterA(u: State) returns (t: State)
    requires Shaped(u) && u.listing == Shows(3) + Shows(7) + LAST
    requires u.recs == map[ROOT := ROOT_RECORD, 7 := Record(C7, 1), 3 := Record(A3, 1)]
    ensures Received(u, B8) == Some(t)
    ensures t.recs == u.recs[8 := Record(B8, 2)] && t.listing == Shows(3) + Shows(8) + Shows(7) + LAST
  {
    hide Visible, Shape, Received;
    ShapeTree(u.recs, u.listing);
    ReceivedAt(u, B8, Spot(7, 0), 2);
    OneCharacter(B8);
    t := Received(u, B8).value;
  }

  lemma {:induction false} ThreeShown(x: int, y: int, z: int)
    ensures Visible(Shows(x) + Shows(y) + Shows(z) + LAST) == [Spot(x, 0), Spot(y, 0), Spot(z, 0)]
  {
    VisibleShows([], x);
    assert [] + Shows(x) == Shows(x);
    VisibleShows(Shows(x), y);
    VisibleShows(Shows(x) + Shows(y), z);
    VisibleShows(Shows(x) + Shows(y) + Shows(z), z);
  }

  /** Two orders of the same insertions that end with the same records and different texts: b goes to
      the front of c before or after a is put beside c. */
  lemma {:induction false} OrderMattersAtTheFront()
    ensures var s, t := ReceivedAll(EMPTY, [C7, B8, A3]), ReceivedAll(EMPTY, [C7, A3, B8]);
            && s.Some? && t.Some? && s.value.recs == t.value.recs
            && Visible(s.value.listing) == [Spot(8, 0), Spot(3, 0), Spot(7, 0)]
            && Visible(t.value.listing) == [Spot(3, 0), Spot(8, 0), Spot(7, 0)]
    ensures var u := ReceivedAll(EMPTY, [C7, B8]);
            u.Some? && IsExact(u.value) && Obstructed(u.value.recs, A3) && !IsExact(ReceivedAll(EMPTY, [C7, B8, A3]).value)
  {
    hide Visible, ReceivedAll, Exact, Received;
    var s := AfterC();
    var u := FrontOfC(s);
    var t := BeforeA(u);
    ReceivedMore(EMPTY, [C7], B8);
    ReceivedMore(EMPTY, [C7, B8], A3);
    assert [C7] + [B8] == [C7, B8] && [C7, B8] + [A3] == [C7, B8, A3];
    var u' := BesideC(s);
    var t' := AfterA(u');
    ReceivedMore(EMPTY, [C7], A3);
    ReceivedMore(EMPTY, [C7, A3], B8);
    assert [C7] + [A3] == [C7, A3] && [C7, A3] + [B8] == [C7, A3, B8];
    ThreeShown(8, 3, 7);
    ThreeShown(3, 8, 7);
  }

  // -------------------------------------------------------------------------
  // A deletion in two runs
  // -------------------------------------------------------------------------

  const AB1: Change := Change(1, ROOT, Insertion(0, "ab"))
  const X2: Change := Change(2, 1, Insertion(1, "x"))
  const D3: Change := Change(3, 1, Deletion(0, 2))

  /** a, x and b, of which a and b are visible or not. */
  function AXB(a: bool, b: bool): seq<Entry<Spot>> {
    [Entry(Spot(1, 0), a)] + Shows(2) + [Entry(Spot(1, 1), b), Entry(Spot(1, 2), false)] + LAST
  }

  lemma {:induction false} VisibleAXB(a: bool, b: bool)
    ensures Visible(AXB(a, b)) == (if a then [Spot(1, 0)] else []) + [Spot(2, 0)] + if b then [Spot(1, 1)] else []
  {
    var s := AXB(a, b);
    assert s[..1] == [] + [s[0]];
    VisibleSnoc([], s[0]);
    VisibleShows(s[..1], 2);
    assert s[..3] == s[..1] + Shows(2);
    VisibleSnoc(s[..3], s[3]);
    assert s[..4] == s[..3] + [s[3]];
    VisibleSnoc(s[..4], s[4]);
    assert s[..5] == s[..4] + [s[4]];
    VisibleSnoc(s[..5], s[5]);
    assert s == s[..5] + [s[5]];
  }

  lemma {:induction false} RanksAXB(a: bool, b: bool)
    ensures Rank(AXB(a, b), 0) == 0 && Rank(AXB(a, b), 3) == (if a then 1 else 0) + 1
    ensures Rank(AXB(a, b), 1) == Rank(AXB(a, b), 2) - 1 == if a then 1 else 0
    ensures Rank(AXB(a, b), 4) == Rank(AXB(a, b), 5) == |Visible(AXB(a, b))|
  {
    hide Visible, Rank;
    var s := AXB(a, b);
    RankOfNone(s);
    RankStep(s, 0);
    RankStep(s, 1);
    RankStep(s, 2);
    RankStep(s, 3);
    RankStep(s, 4);
    RankStep(s, 5);
    RankMonotone(s, 6, 6);
  }

  lemma RankOfNone(s: seq<Entry<Spot>>)
    ensures Rank(s, 0) == 0
  {
  }

  lemma {:induction false} AfterX() returns (s: State)
    ensures ReceivedAll(EMPTY, [AB1, X2]) == Some(s) && IsExact(s) && Shaped(s)
    ensures s.recs == map[ROOT := ROOT_RECORD, 1 := Record(AB1, 1), 2 := Record(X2, 2)] && s.listing == AXB(true, true)
  {
    hide Exact, Visible, Shape, Received, ReceivedAll;
    EmptyIsShaped();
    ShapeTree(EMPTY.recs, EMPTY.listing);
    ReceivedNone(EMPTY);
    ReceivedMore(EMPTY, [], AB1);
    assert [] + [AB1] == [AB1] && [AB1] + [X2] == [AB1, X2];
    ReceivedAt(EMPTY, AB1, Spot(ROOT, 0), 0);
    var r := Received(EMPTY, AB1).value;
    assert r.listing == [Entry(Spot(1, 0), true), Entry(Spot(1, 1), true), Entry(Spot(1, 2), false)] + LAST;
    ReceivedExactly(EMPTY, AB1);
    ShapeTree(r.recs, r.listing);
    ReceivedMore(EMPTY, [AB1], X2);
    ReceivedAt(r, X2, Spot(1, 1), 1);
    OneCharacter(X2);
    ReceivedExactly(r, X2);
    s := Received(r, X2).value;
  }

  /** The deletion of a and b, with x between them, leaves b: its second hiding goes past the end and
      nothing is raised. Hiding what it covers would leave x alone. */
  lemma {:induction false} SecondRunIsMissed()
    ensures var s := ReceivedAll(EMPTY, [AB1, X2]);
            && s.Some? && IsExact(s.value) && NewDeletion(s.value.recs, D3) && !OneRun(s.value.listing, 1, 0, 2)
            && Received(s.value, D3) == Some(State(Added(s.value.recs, D3), AXB(false, true)))
            && !Exact(Added(s.value.recs, D3), AXB(false, true)) && Exact(Added(s.value.recs, D3), AXB(false, false))
    ensures Visible(AXB(false, true)) == [Spot(2, 0), Spot(1, 1)] && Visible(AXB(false, false)) == [Spot(2, 0)]
  {
    hide Exact, Visible, Shape, ReceivedAll, Rank, Sweep;
    var s := AfterX();
    VisibleAXB(false, true);
    VisibleAXB(false, false);
    ShapeTree(s.recs, s.listing);
    SweepAXB();
    assert s.recs[1].change.edit == Insertion(0, "ab");
    assert NewDeletion(s.recs, D3);
    ExactDeleted(s.recs, D3, s.listing);
    assert HideSpots(s.listing, 1, 0, 2) == AXB(false, false);
    assert CoversAt(s.listing, 1, 0, 2, 0) && CoversAt(s.listing, 1, 0, 2, 3) && !CoversAt(s.listing, 1, 0, 2, 1);
    ReceivedExactly(s, D3);
  }

  lemma {:induction false} SweepAXB()
    ensures Sweep(AXB(true, true), 1, 0, 2, NoRun) == Some(AXB(false, true))
  {
    hide Visible, Rank;
    VisibleAXB(true, true);
    VisibleAXB(false, true);
    RanksAXB(true, true);
    RanksAXB(false, true);
    var s, t := AXB(true, true), AXB(false, true);
    WhereAXB(true, true);
    WhereAXB(false, true);
    assert Hide(s, 0, 1) == t;
    assert Hide(t, 2, 1) == t;
    assert Flush(s, Run(0, 1)) == Some(t);
    assert Flush(t, Run(2, 3)) == Some(t);
    assert Sweep(t, 1, 2, 2, Run(2, 3)) == Some(t);
    assert Sweep(s, 1, 1, 2, Run(0, 1)) == Sweep(t, 1, 2, 2, Run(2, 3));
  }

  lemma {:induction false} WhereAXB(a: bool, b: bool)
    ensures Spot(1, 0) in Items(AXB(a, b)) && Where(AXB(a, b), Spot(1, 0)) == 0
    ensures Spot(1, 1) in Items(AXB(a, b)) && Where(AXB(a, b), Spot(1, 1)) == 3
  {
    var s := AXB(a, b);
    assert Items(s) == [Spot(1, 0), Spot(2, 0), Spot(2, 1), Spot(1, 1), Spot(1, 2), Spot(ROOT, 0)];
    WhereIsUnique(s, 0);
    WhereIsUnique(s, 3);
  }

  // -------------------------------------------------------------------------
  // A local insertion beside a text that is deleted
  // -------------------------------------------------------------------------

  const D4: Change := Change(4, 2, Deletion(0, 1))
  const Y0: Change := Change(0, 1, Insertion(1, "y"))

  const A_B: seq<Entry<Spot>> := [Entry(Spot(1, 0), true), Entry(Spot(2, 0), false), Entry(Spot(2, 1), false),
                                  Entry(Spot(1, 1), true), Entry(Spot(1, 2), false)] + LAST

  lemma {:induction false} VisibleA_B()
    ensures Visible(A_B) == [Spot(1, 0), Spot(1, 1)]
  {
    var s := A_B;
    VisibleSnoc([], s[0]);
    VisibleSnoc(s[..1], s[1]);
    VisibleSnoc(s[..2], s[2]);
    VisibleSnoc(s[..3], s[3]);
    VisibleSnoc(s[..4], s[4]);
    VisibleSnoc(s[..5], s[5]);
    assert s[..1] == [] + [s[0]] && s[..2] == s[..1] + [s[1]] && s[..3] == s[..2] + [s[2]];
    assert s[..4] == s[..3] + [s[3]] && s[..5] == s[..4] + [s[4]] && s == s[..5] + [s[5]];
  }

  lemma {:induction false} AfterD() returns (s: State)
    ensures ReceivedAll(EMPTY, [AB1, X2, D4]) == Some(s) && IsExact(s) && Shaped(s)
    ensures s.recs == map[ROOT := ROOT_RECORD, 1 := Record(AB1, 1), 2 := Record(X2, 2), 4 := Record(D4, 3)] && s.listing == A_B
  {
    hide Exact, Visible, Shape, ReceivedAll, Sweep, OneRun, Stretched;
    var r := AfterX();
    ShapeTree(r.recs, r.listing);
    ReceivedMore(EMPTY, [AB1, X2], D4);
    assert [AB1, X2] + [D4] == [AB1, X2, D4];
    assert r.recs[2].change.edit == Insertion(0 + 1, "x");
    assert NewDeletion(r.recs, D4);
    ShapeStretched(r.recs, r.listing, 2, 0, 1);
    OnlyX();
    DeletionIsRight(r.listing, 2, 0, 1);
    assert HideSpots(r.listing, 2, 0, 1) == A_B;
    ReceivedExactly(r, D4);
    s := Received(r, D4).value;
    ExactShape(s);
  }

  lemma OnlyX()
    ensures OneRun(AXB(true, true), 2, 0, 1)
  {
    var s := AXB(true, true);
    assert forall j :: 0 <= j < |s| && CoversAt(s, 2, 0, 1, j) ==> j == 1;
  }

  /** y is typed between a and b, where a deleted x stands: here it is listed after x, as the last of
      the texts inserted there, and elsewhere before it, because of its smaller id. The texts agree,
      the listings do not. */
  lemma {:induction false} LocalOrderDiffers()
    ensures var s := ReceivedAll(EMPTY, [AB1, X2, D4]);
            && s.Some? && IsExact(s.value) && HasGreaterSibling(s.value.recs, Y0)
            && s.value.listing == A_B && Visible(A_B) == [Spot(1, 0), Spot(1, 1)] && LocalChange(s.value, "y", 1, 0) == Y0
            && Inserted(s.value, "y", 1, 0) == Some(State(Added(s.value.recs, Y0), InsertAt(A_B, 3, Shows(0))))
            && Received(s.value, Y0) == Some(State(Added(s.value.recs, Y0), InsertAt(A_B, 1, Shows(0))))
            && InsertAt(A_B, 3, Shows(0)) != InsertAt(A_B, 1, Shows(0))
  {
    hide Exact, Visible, Shape, ReceivedAll, Received;
    var s := AfterD();
    ShapeTree(s.recs, s.listing);
    VisibleA_B();
    OneCharacter(Y0);
    assert IsChild(s.recs, 2, 1, 1) && NextSibling(s.recs, Y0, 2);
    WhereIsUnique(s.listing, 3);
    ReceivedAt(s, Y0, Spot(2, 0), 1);
    assert Spot(1, 1) in Items(s.listing) && Where(s.listing, Spot(1, 1)) == 3;
    assert InsertAt(A_B, 3, Shows(0))[1] != InsertAt(A_B, 1, Shows(0))[1];
  }
}
