/** Deletions: what a stretch of a text covers, and what applying one does to a listing. */
module StringDeletion {
  import opened HideLists
  import opened Options
  import opened StringOrder
  import opened StringShape
  import TreeHideLists

  predicate Covers(u: int, lo: int, hi: int, x: Spot) {
    x.uid == u && lo <= x.index < hi
  }

  /** What a deletion is for: characters lo to hi - 1 of text u are hidden, and nothing else. */
  ghost function HideSpots(s: seq<Entry<Spot>>, u: int, lo: int, hi: int): (t: seq<Entry<Spot>>)
    ensures |t| == |s|
  {
    seq(|s|, j requires 0 <= j < |s| => if Covers(u, lo, hi, s[j].item) then Entry(s[j].item, false) else s[j])
  }

  /** Nothing else is visible between what is visible of the stretch. */
  ghost predicate OneRun(s: seq<Entry<Spot>>, u: int, lo: int, hi: int) {
    forall a, m, b :: 0 <= a <= m <= b < |s| && CoversAt(s, u, lo, hi, a) && CoversAt(s, u, lo, hi, b) && s[m].visible ==> CoversAt(s, u, lo, hi, m)
  }

  /** The element at j is visible and part of the stretch. */
  ghost predicate CoversAt(s: seq<Entry<Spot>>, u: int, lo: int, hi: int, j: nat)
    requires j < |s|
  {
    s[j].visible && Covers(u, lo, hi, s[j].item)
  }

  /** The run of positions the loop of `add_change` has found and not hidden yet. */
  datatype Run = NoRun | Run(start: nat, end: nat)

  /** Hides a run, if there is one; its positions may be out of date and past the end by now, which
      `hide` does not always notice. */
  ghost function Flush(s: seq<Entry<Spot>>, run: Run): Option<seq<Entry<Spot>>> {
    if run.NoRun? then Some(s)
    else if run.start < run.end && TreeHideLists.CanHide(|Visible(s)|, run.start, run.end - run.start)
      then Some(Hide(s, run.start, run.end - run.start))
    else None
  }

  /** The loop of `add_change` over characters i to hi - 1 of text u; None when it fails. */
  ghost function Sweep(s: seq<Entry<Spot>>, u: int, i: int, hi: int, run: Run): Option<seq<Entry<Spot>>>
    decreases hi - i
  {
    if hi <= i then Flush(s, run)
    else if Spot(u, i) !in Items(s) then None
    else
      var j := Where(s, Spot(u, i));
      if !s[j].visible then Sweep(s, u, i + 1, hi, run)
      else
        var q := Rank(s, j);
        if run.Run? && run.end == q then Sweep(s, u, i + 1, hi, Run(run.start, q + 1))
        else
          var f := Flush(s, run);
          if f.None? then None else Sweep(f.value, u, i + 1, hi, Run(q, q + 1))
  }

  /** All spots of the stretch are listed, in order. */
  ghost predicate Stretched(s: seq<Entry<Spot>>, u: int, lo: int, hi: int) {
    && Distinct(Items(s))
    && (forall i :: lo <= i < hi ==> Spot(u, i) in Items(s))
    && (forall i, j :: lo <= i < j < hi ==> Where(s, Spot(u, i)) < Where(s, Spot(u, j)))
  }

  lemma ShapeStretched(recs: Records, s: seq<Entry<Spot>>, u: int, lo: int, hi: int)
    requires Shape(recs, s)
    requires forall i :: lo <= i < hi ==> IsSpot(recs, Spot(u, i))
    ensures Stretched(s, u, lo, hi)
  {
    forall i, j | lo <= i < j < hi
      ensures Where(s, Spot(u, i)) < Where(s, Spot(u, j))
    {
      assert IsSpot(recs, Spot(u, i)) && IsSpot(recs, Spot(u, j));
      CharactersAscend(recs, s, u, i, j);
    }
  }

  /** What the loop knows as long as it has found one run only: the visible characters so far are
      those at the positions of the run. */
  ghost predicate InRun(s: seq<Entry<Spot>>, u: int, lo: int, i: int, run: Run) {
    match run
    case NoRun => forall m :: 0 <= m < |s| ==> !CoversAt(s, u, lo, i, m)
    case Run(start, end) =>
      && start < end <= |Visible(s)|
      && forall m :: 0 <= m < |s| && s[m].visible ==> (CoversAt(s, u, lo, i, m) <==> start <= Rank(s, m) < end)
  }

  lemma InRunHides(s: seq<Entry<Spot>>, u: int, lo: int, hi: int, run: Run)
    requires InRun(s, u, lo, hi, run)
    ensures Flush(s, run) == Some(HideSpots(s, u, lo, hi))
    ensures OneRun(s, u, lo, hi)
  {
    hide Visible;
    if run.NoRun? {
      assert forall m :: 0 <= m < |s| ==> !CoversAt(s, u, lo, hi, m) && HideSpots(s, u, lo, hi)[m] == s[m];
      assert HideSpots(s, u, lo, hi) == s;
    } else {
      var t := Hide(s, run.start, run.end - run.start);
      forall m | 0 <= m < |s|
        ensures HideSpots(s, u, lo, hi)[m] == t[m]
      {
        assert s[m].visible ==> (CoversAt(s, u, lo, hi, m) <==> run.start <= Rank(s, m) < run.end);
      }
      assert HideSpots(s, u, lo, hi) == t;
      forall a, m, b | 0 <= a <= m <= b < |s| && CoversAt(s, u, lo, hi, a) && CoversAt(s, u, lo, hi, b) && s[m].visible
        ensures CoversAt(s, u, lo, hi, m)
      {
        RankMonotone(s, a, m);
        RankMonotone(s, m, b);
      }
    }
  }

  /** One more character that is hidden already. */
  lemma {:induction false} InRunSkips(s: seq<Entry<Spot>>, u: int, lo: int, i: int, run: Run)
    requires InRun(s, u, lo, i, run) && Distinct(Items(s)) && Spot(u, i) in Items(s) && !s[Where(s, Spot(u, i))].visible
    ensures InRun(s, u, lo, i + 1, run)
  {
    hide Visible;
    forall m | 0 <= m < |s|
      ensures CoversAt(s, u, lo, i + 1, m) <==> CoversAt(s, u, lo, i, m)
      ensures run.Run? && s[m].visible ==> (CoversAt(s, u, lo, i + 1, m) <==> run.start <= Rank(s, m) < run.end)
    {
      AtSpot(s, u, i, m);
    }
  }

  lemma {:induction false} AtSpot(s: seq<Entry<Spot>>, u: int, i: int, m: nat)
    requires Distinct(Items(s)) && m < |s| && Spot(u, i) in Items(s)
    ensures m == Where(s, Spot(u, i)) <==> s[m].item.uid == u && s[m].item.index == i
  {
    if s[m].item.uid == u && s[m].item.index == i {
      assert s[m].item == Spot(u, i);
      WhereIsUnique(s, m);
    }
  }

  /** One more visible character right after the run, or the first one. */
  lemma {:induction false} InRunGrows(s: seq<Entry<Spot>>, u: int, lo: int, i: int, run: Run)
    requires lo <= i && InRun(s, u, lo, i, run) && Distinct(Items(s)) && Spot(u, i) in Items(s) && s[Where(s, Spot(u, i))].visible
    requires run.Run? ==> run.end == Rank(s, Where(s, Spot(u, i)))
    ensures var q := Rank(s, Where(s, Spot(u, i)));
            InRun(s, u, lo, i + 1, if run.Run? then Run(run.start, q + 1) else Run(q, q + 1))
  {
    hide Visible;
    var j := Where(s, Spot(u, i));
    var q := Rank(s, j);
    PlaceIsUnique(s, j);
    var after := if run.Run? then Run(run.start, q + 1) else Run(q, q + 1);
    forall m | 0 <= m < |s| && s[m].visible
      ensures CoversAt(s, u, lo, i + 1, m) <==> after.start <= Rank(s, m) < after.end
    {
      AtSpot(s, u, i, m);
      PlaceIsUnique(s, m);
      assert CoversAt(s, u, lo, i + 1, m) <==> CoversAt(s, u, lo, i, m) || m == j;
    }
  }

  /** In a single run the next visible character of the stretch follows the ones before. */
  lemma {:induction false} RunContinues(s: seq<Entry<Spot>>, u: int, lo: int, i: int, hi: int, run: Run)
    requires lo <= i < hi && Stretched(s, u, lo, hi) && OneRun(s, u, lo, hi) && InRun(s, u, lo, i, run)
    requires run.Run? && s[Where(s, Spot(u, i))].visible
    ensures run.end == Rank(s, Where(s, Spot(u, i)))
  {
    hide Visible;
    var j := Where(s, Spot(u, i));
    var q := Rank(s, j);
    PlaceIsUnique(s, j);
    var a := Place(s, run.end - 1);
    assert CoversAt(s, u, lo, i, a);
    Earlier(s, u, lo, i, hi, a);
    RankMonotone(s, a, j);
    if run.end < q {
      var m := Place(s, run.end);
      if j <= m { RankMonotone(s, j, m); }
      if m <= a { RankMonotone(s, m, a); }
      assert CoversAt(s, u, lo, hi, a) && CoversAt(s, u, lo, hi, j);
      assert CoversAt(s, u, lo, hi, m);
      Earlier(s, u, lo, i, hi, m);
      AtSpot(s, u, i, m);
    }
  }

  /** An element of the stretch with a smaller index is listed earlier. */
  lemma {:induction false} Earlier(s: seq<Entry<Spot>>, u: int, lo: int, i: int, hi: int, a: nat)
    requires Stretched(s, u, lo, hi) && lo <= i < hi && a < |s| && Covers(u, lo, hi, s[a].item)
    ensures s[a].item.index < i ==> a < Where(s, Spot(u, i))
    ensures s[a].item.index > i ==> a > Where(s, Spot(u, i))
  {
    WhereIsUnique(s, a);
    assert s[a].item == Spot(u, s[a].item.index);
  }

  /** A deletion whose visible characters form one run is applied as intended. */
  lemma {:induction false} SweepOneRun(s: seq<Entry<Spot>>, u: int, lo: int, i: int, hi: int, run: Run)
    requires lo <= i && (i <= hi || i == lo) && Stretched(s, u, lo, hi) && OneRun(s, u, lo, hi) && InRun(s, u, lo, i, run)
    ensures Sweep(s, u, i, hi, run) == Some(HideSpots(s, u, lo, hi))
    decreases hi - i
  {
    hide Visible, Stretched, OneRun, InRun, HideSpots;
    if hi <= i {
      InRunEnds(s, u, lo, i, hi, run);
      InRunHides(s, u, lo, hi, run);
    } else {
      StretchedAt(s, u, lo, i, hi);
      var j := Where(s, Spot(u, i));
      if !s[j].visible {
        InRunSkips(s, u, lo, i, run);
        SweepOneRun(s, u, lo, i + 1, hi, run);
      } else {
        if run.Run? { RunContinues(s, u, lo, i, hi, run); }
        InRunGrows(s, u, lo, i, run);
        var q := Rank(s, j);
        SweepOneRun(s, u, lo, i + 1, hi, if run.Run? then Run(run.start, q + 1) else Run(q, q + 1));
      }
    }
  }

  lemma InRunEnds(s: seq<Entry<Spot>>, u: int, lo: int, i: int, hi: int, run: Run)
    requires lo <= i && hi <= i && (i <= hi || i == lo) && InRun(s, u, lo, i, run)
    ensures InRun(s, u, lo, hi, run)
  {
  }

  lemma StretchedAt(s: seq<Entry<Spot>>, u: int, lo: int, i: int, hi: int)
    requires Stretched(s, u, lo, hi) && lo <= i < hi
    ensures Distinct(Items(s)) && Spot(u, i) in Items(s)
  {
  }

  // -------------------------------------------------------------------------
  // More than one run
  // -------------------------------------------------------------------------

  lemma {:induction false} PlacesKept(s: seq<Entry<Spot>>, p: nat, n: nat, u: int, lo: int, hi: int)
    requires Stretched(s, u, lo, hi)
    ensures Stretched(Hide(s, p, n), u, lo, hi)
    ensures Items(Hide(s, p, n)) == Items(s)
    ensures forall x :: x in Items(s) ==> Where(Hide(s, p, n), x) == Where(s, x)
  {
    var t := Hide(s, p, n);
    assert Items(t) == Items(s);
    forall x | x in Items(s)
      ensures Where(t, x) == Where(s, x)
    {
      WhereIsUnique(t, Where(s, x));
    }
  }

  /** A character that was passed over with an outdated position stays visible: all that is hidden
      from then on lies after it. */
  lemma {:induction false} SweepKeeps(s: seq<Entry<Spot>>, u: int, lo: int, i: int, hi: int, run: Run, j: nat)
    requires lo <= i && Stretched(s, u, lo, hi) && run.Run? && j < |s| && CoversAt(s, u, lo, i, j) && i <= hi && Rank(s, j) < run.start
    ensures var f := Sweep(s, u, i, hi, run);
            f.Some? ==> |f.value| == |s| && f.value[j].visible && f.value[j].item == s[j].item
    decreases hi - i
  {
    hide Visible, Hide, Stretched;
    var f := Flush(s, run);
    if f.Some? { HideLater(s, run.start, run.end - run.start, j); PlacesKept(s, run.start, run.end - run.start, u, lo, hi); }
    if i < hi {
      StretchedAt(s, u, lo, i, hi);
      var k := Where(s, Spot(u, i));
      if !s[k].visible {
        SweepKeeps(s, u, lo, i + 1, hi, run, j);
      } else {
        var q := Rank(s, k);
        Earlier(s, u, lo, i, hi, j);
        RankMonotone(s, j, k);
        if run.end == q {
          SweepKeeps(s, u, lo, i + 1, hi, Run(run.start, q + 1), j);
        } else if f.Some? {
          SweepKeeps(f.value, u, lo, i + 1, hi, Run(q, q + 1), j);
        }
      }
    }
  }

  lemma HideLater(s: seq<Entry<Spot>>, p: nat, n: nat, j: nat)
    requires j < |s| && s[j].visible && Rank(s, j) < p
    ensures var t := Hide(s, p, n);
            t[j] == s[j] && Rank(t, j) == Rank(s, j)
  {
    hide Visible;
    RankOfHidden(s, p, n, j);
  }

  /** When the loop finds a second run, it hides the first and goes on with an outdated position. */
  lemma SecondRun(s: seq<Entry<Spot>>, u: int, lo: int, i: int, hi: int, run: Run)
    requires lo <= i < hi && Stretched(s, u, lo, hi) && InRun(s, u, lo, i, run) && run.Run?
    requires s[Where(s, Spot(u, i))].visible && run.end != Rank(s, Where(s, Spot(u, i)))
    ensures var j, t := Where(s, Spot(u, i)), Hide(s, run.start, run.end - run.start);
            && Flush(s, run) == Some(t) && Stretched(t, u, lo, hi) && CoversAt(t, u, lo, i + 1, j) && t[j].item == s[j].item
            && Rank(t, j) < Rank(s, j)
  {
    hide Visible, Hide;
    var j, n := Where(s, Spot(u, i)), run.end - run.start;
    var a := Place(s, run.end - 1);
    assert CoversAt(s, u, lo, i, a);
    Earlier(s, u, lo, i, hi, a);
    RankMonotone(s, a, j);
    HideOutside(s, run.start, n, j);
    PlacesKept(s, run.start, n, u, lo, hi);
    RankOfHidden(s, run.start, n, j);
  }

  lemma HideOutside(s: seq<Entry<Spot>>, p: nat, n: nat, j: nat)
    requires j < |s| && p + n <= Rank(s, j)
    ensures Hide(s, p, n)[j] == s[j]
  {
  }

  /** A deletion with several runs either fails or leaves one of its characters visible. */
  lemma {:induction false} SweepManyRuns(s: seq<Entry<Spot>>, u: int, lo: int, i: int, hi: int, run: Run) returns (j: nat)
    requires lo <= i && (i <= hi || i == lo) && Stretched(s, u, lo, hi) && !OneRun(s, u, lo, hi) && InRun(s, u, lo, i, run)
    ensures var f := Sweep(s, u, i, hi, run);
            f.Some? ==> j < |f.value| == |s| && CoversAt(f.value, u, lo, hi, j)
    decreases hi - i
  {
    hide Visible, Stretched, OneRun, InRun, HideSpots, Hide;
    j := 0;
    if hi <= i {
      InRunEnds(s, u, lo, i, hi, run);
      InRunHides(s, u, lo, hi, run);
    } else {
      StretchedAt(s, u, lo, i, hi);
      var k := Where(s, Spot(u, i));
      var q := Rank(s, k);
      if !s[k].visible {
        InRunSkips(s, u, lo, i, run);
        j := SweepManyRuns(s, u, lo, i + 1, hi, run);
      } else if run.Run? && run.end != q {
        SecondRun(s, u, lo, i, hi, run);
        j := k;
        SweepKeeps(Flush(s, run).value, u, lo, i + 1, hi, Run(q, q + 1), k);
      } else {
        InRunGrows(s, u, lo, i, run);
        j := SweepManyRuns(s, u, lo, i + 1, hi, if run.Run? then Run(run.start, q + 1) else Run(q, q + 1));
      }
    }
  }

  /** A deletion is applied as intended exactly when its visible characters form one run. */
  lemma {:induction false} DeletionIsRight(s: seq<Entry<Spot>>, u: int, lo: int, hi: int)
    requires Stretched(s, u, lo, hi)
    ensures Sweep(s, u, lo, hi, NoRun) == Some(HideSpots(s, u, lo, hi)) <==> OneRun(s, u, lo, hi)
  {
    hide Stretched, OneRun, Sweep;
    NothingYet(s, u, lo);
    if OneRun(s, u, lo, hi) {
      SweepOneRun(s, u, lo, lo, hi, NoRun);
    } else {
      var j := SweepManyRuns(s, u, lo, lo, hi, NoRun);
      var f := Sweep(s, u, lo, hi, NoRun);
      if f.Some? { assert f.value != HideSpots(s, u, lo, hi) by { assert CoversAt(f.value, u, lo, hi, j); } }
    }
  }

  lemma NothingYet(s: seq<Entry<Spot>>, u: int, lo: int)
    ensures InRun(s, u, lo, lo, NoRun)
  {
  }

  // -------------------------------------------------------------------------
  // What a local deletion sends
  // -------------------------------------------------------------------------

  /** A stretch of a text, both ends included. */
  datatype Contig = Contig(uid: int, first: int, last: int)

  /** Where the last stretch of one text begins. */
  function LastStart(v: seq<Spot>): (m: nat)
    requires v != []
    ensures m < |v|
    ensures forall i :: m <= i < |v| ==> v[i].uid == v[|v| - 1].uid
    ensures m > 0 ==> v[m - 1].uid != v[m].uid
  {
    if |v| == 1 || v[|v| - 2].uid != v[|v| - 1].uid then |v| - 1 else LastStart(v[..|v| - 1])
  }

  /** The stretches a list of spots falls into. */
  function Contigs(v: seq<Spot>): seq<Contig>
    decreases |v|
  {
    if v == [] then [] else
    var m := LastStart(v);
    Contigs(v[..m]) + [Contig(v[m].uid, v[m].index, v[|v| - 1].index)]
  }

  /** v falls at the cuts into stretches of one text each, as long as can be, and each contig is the
      stretch from its first to its last character. */
  ghost predicate AreStretches(v: seq<Spot>, cuts: seq<nat>, cs: seq<Contig>) {
    && |cuts| == |cs| + 1 && cuts[0] == 0 && cuts[|cs|] == |v|
    && forall i :: 0 <= i < |cs| ==> StretchAt(v, cuts, cs, i)
  }

  ghost predicate StretchAt(v: seq<Spot>, cuts: seq<nat>, cs: seq<Contig>, i: nat)
    requires |cuts| == |cs| + 1 && i < |cs|
  {
    && cuts[i] < cuts[i + 1] <= |v| && IsStretch(v[cuts[i]..cuts[i + 1]], cs[i])
    && (i > 0 ==> cs[i - 1].uid != cs[i].uid)
  }

  ghost predicate IsStretch(v: seq<Spot>, c: Contig) {
    v != [] && (forall k :: 0 <= k < |v| ==> v[k].uid == c.uid) && v[0].index == c.first && v[|v| - 1].index == c.last
  }

  lemma {:induction false} ContigsAreStretches(v: seq<Spot>) returns (cuts: seq<nat>)
    ensures AreStretches(v, cuts, Contigs(v))
    decreases |v|
  {
    if v == [] {
      cuts := [0];
    } else {
      var m := LastStart(v);
      cuts := ContigsAreStretches(v[..m]);
      cuts := OneStretchMore(v, m, cuts, Contigs(v[..m]));
    }
  }

  lemma OneStretchMore(v: seq<Spot>, m: nat, before: seq<nat>, front: seq<Contig>) returns (cuts: seq<nat>)
    requires v != [] && m == LastStart(v) && AreStretches(v[..m], before, front)
    ensures AreStretches(v, cuts, front + [Contig(v[m].uid, v[m].index, v[|v| - 1].index)])
  {
    hide IsStretch;
    cuts := before + [|v|];
    var cs := front + [Contig(v[m].uid, v[m].index, v[|v| - 1].index)];
    var n := |front|;
    forall i | 0 <= i < n
      ensures StretchAt(v, cuts, cs, i)
    {
      assert StretchAt(v[..m], before, front, i);
      assert v[..m][before[i]..before[i + 1]] == v[before[i]..before[i + 1]];
    }
    LastStretch(v, m, v[m].uid);
    if n > 0 {
      assert StretchAt(v[..m], before, front, n - 1);
      LastOfStretch(v[..m], before[n - 1], front[n - 1]);
    }
    assert m > 0 ==> n > 0;
    assert StretchAt(v, cuts, cs, n);
  }

  lemma LastStretch(v: seq<Spot>, m: nat, u: int)
    requires m < |v| && forall i :: m <= i < |v| ==> v[i].uid == u
    ensures IsStretch(v[m..|v|], Contig(u, v[m].index, v[|v| - 1].index))
  {
    var w := v[m..|v|];
    forall k | 0 <= k < |w|
      ensures w[k].uid == u
    {
      assert w[k] == v[m + k];
    }
    assert w[|w| - 1] == v[|v| - 1];
  }

  lemma LastOfStretch(v: seq<Spot>, a: nat, c: Contig)
    requires a < |v| && IsStretch(v[a..|v|], c)
    ensures v[|v| - 1].uid == c.uid
  {
    assert v[a..|v|][|v| - 1 - a] == v[|v| - 1];
  }

  /** One more spot extends the last stretch or begins a new one. */
  lemma {:induction false} ContigsStep(v: seq<Spot>, x: Spot)
    requires v != []
    ensures var cs := Contigs(v);
            && cs != [] && cs[|cs| - 1].uid == v[|v| - 1].uid
            && Contigs(v + [x]) == if v[|v| - 1].uid == x.uid then cs[..|cs| - 1] + [Contig(x.uid, cs[|cs| - 1].first, x.index)]
                                   else cs + [Contig(x.uid, x.index, x.index)]
  {
    var w := v + [x];
    assert w[..|w| - 1] == v;
    var m := LastStart(w);
    if v[|v| - 1].uid == x.uid {
      assert m == LastStart(v) && w[..m] == v[..m];
    } else {
      assert m == |v| && w[..m] == v;
    }
  }

  /** Applying deletions one after the other. */
  ghost function SweepAll(s: seq<Entry<Spot>>, cs: seq<Contig>): Option<seq<Entry<Spot>>>
    decreases |cs|
  {
    if cs == [] then Some(s) else
    var f, c := SweepAll(s, cs[..|cs| - 1]), cs[|cs| - 1];
    if f.None? then None else Sweep(f.value, c.uid, c.first, c.last + 1, NoRun)
  }

  /** Visible characters of one text in a row are what is visible of the stretch they span. */
  lemma {:induction false} SegmentIsRun(recs: Records, s: seq<Entry<Spot>>, k: nat, n: nat)
    requires Shape(recs, s) && n >= 1 && k + n <= |Visible(s)|
    requires forall i :: k <= i < k + n ==> Visible(s)[i].uid == Visible(s)[k].uid
    ensures var x, y := Visible(s)[k], Visible(s)[k + n - 1];
            && Stretched(s, x.uid, x.index, y.index + 1) && OneRun(s, x.uid, x.index, y.index + 1)
            && HideSpots(s, x.uid, x.index, y.index + 1) == Hide(s, k, n)
  {
    hide Visible, Shape, Stretched, OneRun;
    var x, y := Visible(s)[k], Visible(s)[k + n - 1];
    SegmentStretched(recs, s, k, n);
    if x.index < y.index + 1 {
      forall m | 0 <= m < |s| && s[m].visible
        ensures CoversAt(s, x.uid, x.index, y.index + 1, m) <==> k <= Rank(s, m) < k + n
      {
        SegmentCovers(recs, s, k, n, m);
      }
      InRunHides(s, x.uid, x.index, y.index + 1, Run(k, k + n));
    }
  }

  lemma {:induction false} SegmentStretched(recs: Records, s: seq<Entry<Spot>>, k: nat, n: nat)
    requires Shape(recs, s) && n >= 1 && k + n <= |Visible(s)|
    requires forall i :: k <= i < k + n ==> Visible(s)[i].uid == Visible(s)[k].uid
    ensures var x, y := Visible(s)[k], Visible(s)[k + n - 1];
            x.index <= y.index && Stretched(s, x.uid, x.index, y.index + 1)
  {
    hide Visible, Nested, Tree, Distinct, ShownInText;
    var x, y := Visible(s)[k], Visible(s)[k + n - 1];
    VisibleSpot(recs, s, k);
    VisibleSpot(recs, s, k + n - 1);
    PlacesAscend(s, k, k + n - 1);
    if y.index < x.index { CharactersAscend(recs, s, x.uid, y.index, x.index); }
    ShapeStretched(recs, s, x.uid, x.index, y.index + 1);
  }

  lemma {:induction false} PlacesAscend<Item>(s: seq<Entry<Item>>, k: nat, m: nat)
    requires k <= m < |Visible(s)|
    ensures k < m ==> Place(s, k) < Place(s, m)
  {
    if k < m && Place(s, m) <= Place(s, k) { RankMonotone(s, Place(s, m), Place(s, k)); }
  }

  lemma {:induction false} SegmentCovers(recs: Records, s: seq<Entry<Spot>>, k: nat, n: nat, m: nat)
    requires Shape(recs, s) && n >= 1 && k + n <= |Visible(s)| && m < |s| && s[m].visible
    requires forall i :: k <= i < k + n ==> Visible(s)[i].uid == Visible(s)[k].uid
    ensures var x, y := Visible(s)[k], Visible(s)[k + n - 1];
            CoversAt(s, x.uid, x.index, y.index + 1, m) <==> k <= Rank(s, m) < k + n
  {
    hide Visible, Shape, Rank;
    var r := Rank(s, m);
    PlaceIsUnique(s, m);
    assert s[m].item == Visible(s)[r];
    if s[m].item.uid == Visible(s)[k].uid {
      VisibleAscend(recs, s, r, k);
      VisibleAscend(recs, s, k + n - 1, r);
    }
  }

  /** Visible characters of one text are in the order of their indices. */
  lemma {:induction false} VisibleAscend(recs: Records, s: seq<Entry<Spot>>, i: nat, j: nat)
    requires Shape(recs, s) && i < |Visible(s)| && j < |Visible(s)| && Visible(s)[i].uid == Visible(s)[j].uid
    ensures Visible(s)[i].index < Visible(s)[j].index <==> i < j
  {
    hide Visible, Shape, Rank;
    VisibleSpot(recs, s, i);
    VisibleSpot(recs, s, j);
    AscendBoth(recs, s, Visible(s)[i], Visible(s)[j]);
    if i < j {
      PlacesAscend(s, i, j);
    } else if j < i {
      PlacesAscend(s, j, i);
      assert Place(s, j) < Place(s, i);
    }
  }

  lemma {:induction false} AscendBoth(recs: Records, s: seq<Entry<Spot>>, x: Spot, y: Spot)
    requires Shape(recs, s) && IsSpot(recs, x) && IsSpot(recs, y) && x.uid == y.uid && x in Items(s) && y in Items(s)
    ensures x.index < y.index <==> Where(s, x) < Where(s, y)
  {
    if x.index < y.index {
      CharactersAscend(recs, s, x.uid, x.index, y.index);
    } else if y.index < x.index {
      CharactersAscend(recs, s, x.uid, y.index, x.index);
    } else {
      assert x == y;
    }
  }

  /** With the stretches before it gone, the last one begins at k. */
  lemma {:induction false} LastSegment(recs: Records, s: seq<Entry<Spot>>, t: seq<Entry<Spot>>, k: nat, m: nat, n: nat)
    requires Shape(recs, t) && t == Hide(s, k, m) && m < n && k + n <= |Visible(s)|
    requires forall i :: k + m <= i < k + n ==> Visible(s)[i].uid == Visible(s)[k + n - 1].uid
    ensures var x, y := Visible(s)[k + m], Visible(s)[k + n - 1];
            Sweep(t, x.uid, x.index, y.index + 1, NoRun) == Some(Hide(t, k, n - m))
  {
    hide Visible, Shape, Hide, Sweep;
    var v := Visible(s);
    VisibleHidden(s, k, m);
    assert Visible(t) == v[..k] + v[k + m..];
    forall i | k <= i < k + (n - m)
      ensures Visible(t)[i] == v[i + m]
    {
    }
    SegmentIsRun(recs, t, k, n - m);
    DeletionIsRight(t, v[k + m].uid, v[k + m].index, v[k + n - 1].index + 1);
  }

  lemma {:induction false} SweepNone(s: seq<Entry<Spot>>, v: seq<Spot>)
    requires v == []
    ensures SweepAll(s, Contigs(v)) == Some(s)
  {
  }

  lemma {:induction false} SweepLast(s: seq<Entry<Spot>>, v: seq<Spot>, t: seq<Entry<Spot>>)
    requires v != [] && SweepAll(s, Contigs(v[..LastStart(v)])) == Some(t)
    ensures var x, y := v[LastStart(v)], v[|v| - 1];
            SweepAll(s, Contigs(v)) == Sweep(t, x.uid, x.index, y.index + 1, NoRun)
  {
    hide Sweep;
    var cs := Contigs(v);
    assert cs[..|cs| - 1] == Contigs(v[..LastStart(v)]);
  }

  /** Applying the deletions for n visible characters from k on hides exactly those. */
  lemma {:induction false} SweepContigs(recs: Records, s: seq<Entry<Spot>>, k: nat, n: nat)
    requires Shape(recs, s) && k + n <= |Visible(s)|
    ensures SweepAll(s, Contigs(Visible(s)[k..k + n])) == Some(Hide(s, k, n))
    decreases n
  {
    hide Visible, Shape, Hide, Sweep, Contigs, SweepAll;
    var v := Visible(s)[k..k + n];
    if n == 0 {
      HideNothing(s, k);
      SweepNone(s, v);
    } else {
      var m := LastStart(v);
      assert v[..m] == Visible(s)[k..k + m];
      SweepContigs(recs, s, k, m);
      var t := Hide(s, k, m);
      ShapeHidden(recs, s, k, m);
      assert forall i :: m <= i < n ==> Visible(s)[k + i] == v[i];
      LastSegment(recs, s, t, k, m, n);
      HideAgain(s, k, m, n - m);
      SweepLast(s, v, t);
    }
  }
}
