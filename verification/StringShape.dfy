/** What holds of every reachable string tree, whatever the order of its changes: its listing shows
    each spot once, and what is listed between two neighbouring characters of a text belongs to
    texts further down. */
module StringShape {
  import opened HideLists
  import opened StringOrder

  ghost predicate Nested(recs: Records, it: seq<Spot>) {
    forall a, b :: 0 <= a < |it| && 0 <= b < |it| && it[b] == Spot(it[a].uid, it[a].index + 1) ==> NestedAt(recs, it, a, b)
  }

  ghost predicate NestedAt(recs: Records, it: seq<Spot>, a: int, b: int)
    requires 0 <= a < |it| && 0 <= b < |it|
  {
    a < b && it[a].uid in recs && forall k :: a < k < b ==> it[k].uid in recs && recs[it[k].uid].depth > recs[it[a].uid].depth
  }

  ghost predicate Shape(recs: Records, s: seq<Entry<Spot>>) {
    && Tree(recs)
    && Distinct(Items(s)) && (forall x :: x in Items(s) <==> IsSpot(recs, x))
    && Nested(recs, Items(s))
    && ShownInText(recs, s)
  }

  /** Where a new text may go without breaking up what belongs together. */
  ghost predicate MayGo(recs: Records, c: Change, target: Spot) {
    IsSpot(recs, target) && (target == Spot(c.parent, c.edit.position) || (target.index == 0 && IsChild(recs, target.uid, c.parent, c.edit.position)))
  }

  lemma NestedInserted(recs: Records, c: Change, it: seq<Spot>, j: nat)
    requires NewText(recs, c) && Nested(recs, it) && j < |it| && MayGo(recs, c, it[j])
    requires forall x :: x in it ==> IsSpot(recs, x)
    ensures Nested(Added(recs, c), InsertAt(it, j, NewBlock(c)))
  {
    var recs', t, n := Added(recs, c), InsertAt(it, j, NewBlock(c)), |NewBlock(c)|;
    forall a', b' | 0 <= a' < |t| && 0 <= b' < |t| && t[b'] == Spot(t[a'].uid, t[a'].index + 1)
      ensures NestedAt(recs', t, a', b')
    {
      if j <= a' < j + n {
        assert t[a'] == NewBlock(c)[a' - j];
        InBlock(recs, c, it, j, b');
      } else if j <= b' < j + n {
        InBlock(recs, c, it, j, a');
      } else {
        NestedOld(recs, c, it, j, a', b');
      }
    }
  }

  /** The new id occurs in the new block only. */
  lemma InBlock(recs: Records, c: Change, it: seq<Spot>, j: nat, i: nat)
    requires NewText(recs, c) && j <= |it| && forall x :: x in it ==> IsSpot(recs, x)
    requires i < |it| + |NewBlock(c)|
    ensures var t, n := InsertAt(it, j, NewBlock(c)), |NewBlock(c)|;
            |t| == |it| + n && (t[i].uid == c.uid <==> j <= i < j + n)
            && t[i] == if i < j then it[i] else if i < j + n then Spot(c.uid, i - j) else it[i - n]
  {
    var n := |NewBlock(c)|;
    if i < j { assert it[i] in it; }
    if j + n <= i { assert it[i - n] in it; }
  }

  lemma NestedOld(recs: Records, c: Change, it: seq<Spot>, j: nat, a': nat, b': nat)
    requires NewText(recs, c) && Nested(recs, it) && j < |it| && MayGo(recs, c, it[j])
    requires forall x :: x in it ==> IsSpot(recs, x)
    requires var t, n := InsertAt(it, j, NewBlock(c)), |NewBlock(c)|;
             a' < |t| && b' < |t| && t[b'] == Spot(t[a'].uid, t[a'].index + 1) && !(j <= a' < j + n) && !(j <= b' < j + n)
    ensures NestedAt(Added(recs, c), InsertAt(it, j, NewBlock(c)), a', b')
  {
    var t, n := InsertAt(it, j, NewBlock(c)), |NewBlock(c)|;
    var a, b := if a' < j then a' else a' - n, if b' < j then b' else b' - n;
    InBlock(recs, c, it, j, a');
    InBlock(recs, c, it, j, b');
    assert NestedAt(recs, it, a, b);
    assert it[a] in it && it[j] in it && it[b] in it;
    forall k | a' < k < b'
      ensures t[k].uid in Added(recs, c) && Added(recs, c)[t[k].uid].depth > recs[it[a].uid].depth
    {
      InBlock(recs, c, it, j, k);
    }
  }

  /** The characters of a text are listed in their order. */
  lemma {:induction false} CharactersAscend(recs: Records, s: seq<Entry<Spot>>, u: int, i: int, j: int)
    requires Shape(recs, s) && IsSpot(recs, Spot(u, i)) && IsSpot(recs, Spot(u, j)) && i < j
    ensures Spot(u, i) in Items(s) && Spot(u, j) in Items(s) && Where(s, Spot(u, i)) < Where(s, Spot(u, j))
    decreases j - i
  {
    var m := Spot(u, j - 1);
    assert IsSpot(recs, m);
    var a, b := Where(s, m), Where(s, Spot(u, j));
    assert Items(s)[a] == m && Items(s)[b] == Spot(u, j);
    assert NestedAt(recs, Items(s), a, b);
    if i < j - 1 { CharactersAscend(recs, s, u, i, j - 1); }
  }

  /** What is listed between two neighbouring characters is further down. */
  lemma BetweenCharacters(recs: Records, s: seq<Entry<Spot>>, x: Spot, k: nat)
    requires Shape(recs, s) && IsSpot(recs, x) && IsSpot(recs, Spot(x.uid, x.index + 1)) && k < |s|
    ensures var a, b := Where(s, x), Where(s, Spot(x.uid, x.index + 1));
            a < b && (a < k < b ==> s[k].item.uid in recs && recs[s[k].item.uid].depth > recs[x.uid].depth)
  {
    var a, b := Where(s, x), Where(s, Spot(x.uid, x.index + 1));
    assert Items(s)[a] == x && Items(s)[b] == Spot(x.uid, x.index + 1) && Items(s)[k] == s[k].item;
    assert NestedAt(recs, Items(s), a, b);
  }

  /** The shape survives an insertion. */
  lemma {:induction false} ShapeInserted(recs: Records, c: Change, s: seq<Entry<Spot>>, target: Spot, block: seq<Entry<Spot>>)
    requires Shape(recs, s) && NewText(recs, c) && MayGo(recs, c, target)
    requires Items(block) == NewBlock(c) && forall i :: 0 <= i < |block| ==> block[i].visible == (i < |c.edit.text|)
    ensures target in Items(s) && Shape(Added(recs, c), InsertAt(s, Where(s, target), block))
  {
    hide Nested, NestedAt, InsertAt, NewBlock, Added, Tree, NewText, Items, Distinct;
    assert target in Items(s);
    var j := Where(s, target);
    var it := Items(s);
    ItemsInsertAt(s, j, block);
    ItemAt(s, j);
    NestedInserted(recs, c, it, j);
    NewTextTree(recs, c);
    forall x
      ensures x in InsertAt(it, j, NewBlock(c)) <==> IsSpot(Added(recs, c), x)
    {
      SpotsInserted(recs, c, it, j, x);
    }
    DistinctBlock(recs, c, it, j);
    ShownInserted(recs, c, s, j, block);
  }

  lemma ItemAt(s: seq<Entry<Spot>>, j: nat)
    requires j < |s|
    ensures j < |Items(s)| && Items(s)[j] == s[j].item
  {
  }

  lemma NewTextTree(recs: Records, c: Change)
    requires NewText(recs, c)
    ensures c.edit.Insertion? && c.parent in recs && Tree(Added(recs, c))
  {
    AddedTree(recs, c);
  }

  ghost predicate ShownInText(recs: Records, s: seq<Entry<Spot>>) {
    forall j :: 0 <= j < |s| && s[j].visible ==> IsText(recs, s[j].item.uid) && s[j].item.index < Len(recs, s[j].item.uid)
  }

  lemma ShownInserted(recs: Records, c: Change, s: seq<Entry<Spot>>, j: nat, block: seq<Entry<Spot>>)
    requires NewText(recs, c) && ShownInText(recs, s) && j <= |s|
    requires Items(block) == NewBlock(c) && forall i :: 0 <= i < |block| ==> block[i].visible == (i < |c.edit.text|)
    ensures ShownInText(Added(recs, c), InsertAt(s, j, block))
  {
    AddedTree(recs, c);
    forall i | 0 <= i < |block|
      ensures block[i].item == Spot(c.uid, i)
    {
      ItemAt(block, i);
    }
  }

  lemma ItemsInsertAt(s: seq<Entry<Spot>>, j: nat, block: seq<Entry<Spot>>)
    requires j <= |s|
    ensures Items(InsertAt(s, j, block)) == InsertAt(Items(s), j, Items(block))
  {
  }

  lemma SpotsInserted(recs: Records, c: Change, it: seq<Spot>, j: nat, x: Spot)
    requires NewText(recs, c) && j <= |it| && forall y :: y in it <==> IsSpot(recs, y)
    ensures x in InsertAt(it, j, NewBlock(c)) <==> IsSpot(Added(recs, c), x)
  {
    var t := InsertAt(it, j, NewBlock(c));
    assert t == it[..j] + NewBlock(c) + it[j..] && it == it[..j] + it[j..];
    assert x in it <==> x in it[..j] || x in it[j..];
    assert x in t <==> x in it || x in NewBlock(c);
    if x.uid == c.uid && 0 <= x.index <= |c.edit.text| { assert NewBlock(c)[x.index] == x; }
  }

  lemma DistinctBlock(recs: Records, c: Change, it: seq<Spot>, j: nat)
    requires NewText(recs, c) && j <= |it| && Distinct(it) && forall x :: x in it ==> IsSpot(recs, x)
    ensures Distinct(InsertAt(it, j, NewBlock(c)))
  {
    var t, n := InsertAt(it, j, NewBlock(c)), |NewBlock(c)|;
    forall a, b | 0 <= a < b < |t|
      ensures t[a] != t[b]
    {
      InBlock(recs, c, it, j, a);
      InBlock(recs, c, it, j, b);
    }
  }

  /** The shape survives hiding. */
  lemma ShapeHidden(recs: Records, s: seq<Entry<Spot>>, p: nat, n: nat)
    requires Shape(recs, s)
    ensures Shape(recs, Hide(s, p, n))
  {
    assert Items(Hide(s, p, n)) == Items(s);
  }

  /** Adding a record that is not a text changes nothing in the listing. */
  lemma ShapeDeletion(recs: Records, c: Change, s: seq<Entry<Spot>>)
    requires Shape(recs, s) && Fits(recs, c) && c.uid !in recs && c.edit.Deletion?
    ensures Shape(Added(recs, c), s)
  {
    AddedTree(recs, c);
    var it := Items(s);
    forall a, b | 0 <= a < |it| && 0 <= b < |it| && it[b] == Spot(it[a].uid, it[a].index + 1)
      ensures NestedAt(Added(recs, c), it, a, b)
    {
      assert NestedAt(recs, it, a, b);
    }
  }

  // -------------------------------------------------------------------------
  // A local insertion
  // -------------------------------------------------------------------------

  /** The spot that a local insertion before visible character k goes left of. At a boundary it is
      on the side of the deeper text. */
  function LocalTarget(recs: Records, v: seq<Spot>, k: nat): Spot
    requires k <= |v|
  {
    if |v| == 0 then Spot(ROOT, 0)
    else if k == 0 then v[0]
    else
      var l := v[k - 1];
      if k == |v| then Spot(l.uid, l.index + 1)
      else
        var r := v[k];
        if l.uid == r.uid || (l.uid in recs && r.uid in recs && recs[r.uid].depth > recs[l.uid].depth) then r
        else Spot(l.uid, l.index + 1)
  }

  lemma {:induction false} VisibleSpot(recs: Records, s: seq<Entry<Spot>>, k: nat)
    requires Shape(recs, s) && k < |Visible(s)|
    ensures var x := Visible(s)[k];
            && IsSpot(recs, x) && IsSpot(recs, Spot(x.uid, x.index + 1)) && x in Items(s)
            && Where(s, x) == Place(s, k)
  {
    var j := Place(s, k);
    ItemAt(s, j);
    WhereIsUnique(s, j);
    assert IsSpot(recs, s[j].item);
  }

  /** Exactly k visible characters come before it. */
  lemma {:induction false} LocalRank(recs: Records, s: seq<Entry<Spot>>, k: nat)
    requires Shape(recs, s) && k <= |Visible(s)|
    ensures var target := LocalTarget(recs, Visible(s), k);
            IsSpot(recs, target) && target in Items(s) && Rank(s, Where(s, target)) == k
  {
    hide Visible, Nested, Tree, Items, Distinct, ShownInText;
    var v := Visible(s);
    var target := LocalTarget(recs, v, k);
    if |v| == 0 {
      RootSpot(recs, s);
      RankMonotone(s, Where(s, target), |s|);
    } else if k == 0 {
      VisibleSpot(recs, s, 0);
    } else {
      var l := v[k - 1];
      VisibleSpot(recs, s, k - 1);
      if k < |v| { VisibleSpot(recs, s, k); }
      if k == |v| || target != v[k] {
        AfterCharacter(recs, s, k);
      }
    }
  }

  lemma RootSpot(recs: Records, s: seq<Entry<Spot>>)
    requires Shape(recs, s)
    ensures IsSpot(recs, Spot(ROOT, 0)) && Spot(ROOT, 0) in Items(s)
  {
  }

  lemma {:induction false} AfterCharacter(recs: Records, s: seq<Entry<Spot>>, k: nat)
    requires Shape(recs, s) && 1 <= k <= |Visible(s)|
    requires k < |Visible(s)| ==> Visible(s)[k].uid in recs && Visible(s)[k - 1].uid in recs
                                  && recs[Visible(s)[k].uid].depth <= recs[Visible(s)[k - 1].uid].depth
    ensures var target := Spot(Visible(s)[k - 1].uid, Visible(s)[k - 1].index + 1);
            target in Items(s) && Rank(s, Where(s, target)) == k
  {
    hide Visible, Nested, Tree, Items, Distinct, ShownInText;
    var l := Visible(s)[k - 1];
    VisibleSpot(recs, s, k - 1);
    var target := Spot(l.uid, l.index + 1);
    InItems(recs, s, target);
    var a, b := Where(s, l), Where(s, target);
    BetweenCharacters(recs, s, l, a);
    RankMonotone(s, a, b);
    RankMonotone(s, b, |s|);
    if k < |Visible(s)| {
      var r := Place(s, k);
      BetweenCharacters(recs, s, l, r);
      if r <= a { RankMonotone(s, r, a); }
      RankMonotone(s, b, if b < r then r else b);
    }
  }

  lemma InItems(recs: Records, s: seq<Entry<Spot>>, x: Spot)
    requires Shape(recs, s) && IsSpot(recs, x)
    ensures x in Items(s)
  {
  }

  // -------------------------------------------------------------------------
  // The text
  // -------------------------------------------------------------------------

  predicate IsCharacter(recs: Records, x: Spot) {
    IsText(recs, x.uid) && 0 <= x.index < Len(recs, x.uid)
  }

  ghost predicate AreCharacters(recs: Records, v: seq<Spot>) {
    forall i :: 0 <= i < |v| ==> IsCharacter(recs, v[i])
  }

  function CharacterAt(recs: Records, x: Spot): char
    requires IsCharacter(recs, x)
  {
    recs[x.uid].change.edit.text[x.index]
  }

  /** The characters of a list of spots. */
  ghost function Characters(recs: Records, v: seq<Spot>): (t: string)
    requires AreCharacters(recs, v)
    ensures |t| == |v|
  {
    seq(|v|, i requires 0 <= i < |v| => CharacterAt(recs, v[i]))
  }

  /** What the tree shows. */
  ghost function Text(recs: Records, s: seq<Entry<Spot>>): (t: string)
    requires Shape(recs, s)
    ensures |t| == |Visible(s)|
  {
    VisibleCharacters(recs, s);
    Characters(recs, Visible(s))
  }

  lemma {:induction false} VisibleCharacters(recs: Records, s: seq<Entry<Spot>>)
    requires Shape(recs, s)
    ensures AreCharacters(recs, Visible(s))
  {
    forall k | 0 <= k < |Visible(s)|
      ensures IsCharacter(recs, Visible(s)[k])
    {
      VisibleSpot(recs, s, k);
      assert s[Place(s, k)].visible;
    }
  }

  /** The new entries: all characters visible, the mark at the end hidden. */
  function BlockEntries(c: Change): (b: seq<Entry<Spot>>)
    requires c.edit.Insertion?
  {
    Listed(NewBlock(c), seq(|c.edit.text| + 1, i => i < |c.edit.text|))
  }

  lemma {:induction false} VisiblePrefix(c: Change, n: nat)
    requires c.edit.Insertion? && n <= |c.edit.text|
    ensures Visible(BlockEntries(c)[..n]) == Block(c.uid, |c.edit.text|)[..n]
  {
    if n > 0 {
      VisiblePrefix(c, n - 1);
      var b := BlockEntries(c);
      assert b[..n][..n - 1] == b[..n - 1] && b[..n][n - 1] == Entry(Spot(c.uid, n - 1), true);
    }
  }

  lemma VisibleBlock(c: Change)
    requires c.edit.Insertion?
    ensures Visible(BlockEntries(c)) == Block(c.uid, |c.edit.text|)[..|c.edit.text|]
    ensures Items(BlockEntries(c)) == NewBlock(c)
    ensures forall i :: 0 <= i < |BlockEntries(c)| ==> BlockEntries(c)[i].visible == (i < |c.edit.text|)
  {
    var b, n := BlockEntries(c), |c.edit.text|;
    VisiblePrefix(c, n);
    assert b[..|b| - 1] == b[..n] && !b[|b| - 1].visible;
    assert Items(b) == NewBlock(c);
  }

  /** An insertion left of a spot with k visible characters before it puts its text there. */
  lemma {:induction false} TextInserted(recs: Records, c: Change, s: seq<Entry<Spot>>, target: Spot)
    requires Shape(recs, s) && NewText(recs, c) && MayGo(recs, c, target)
    ensures target in Items(s)
    ensures var j, t := Where(s, target), Text(recs, s);
            && Rank(s, j) <= |t| && Shape(Added(recs, c), InsertAt(s, j, BlockEntries(c)))
            && Text(Added(recs, c), InsertAt(s, j, BlockEntries(c))) == t[..Rank(s, j)] + c.edit.text + t[Rank(s, j)..]
  {
    hide Visible, Nested, Tree, Items, Distinct, ShownInText, InsertAt, BlockEntries, Characters;
    VisibleBlock(c);
    ShapeInserted(recs, c, s, target, BlockEntries(c));
    var j := Where(s, target);
    VisibleInserted(s, j, BlockEntries(c));
    VisibleCharacters(recs, s);
    CharactersInserted(recs, c, Visible(s), Rank(s, j));
    VisibleCharacters(Added(recs, c), InsertAt(s, j, BlockEntries(c)));
  }

  lemma CharactersSum(recs: Records, v: seq<Spot>, w: seq<Spot>)
    requires AreCharacters(recs, v) && AreCharacters(recs, w)
    ensures AreCharacters(recs, v + w) && Characters(recs, v + w) == Characters(recs, v) + Characters(recs, w)
  {
  }

  lemma CharactersCut(recs: Records, v: seq<Spot>, k: nat)
    requires AreCharacters(recs, v) && k <= |v|
    ensures AreCharacters(recs, v[..k]) && Characters(recs, v[..k]) == Characters(recs, v)[..k]
    ensures AreCharacters(recs, v[k..]) && Characters(recs, v[k..]) == Characters(recs, v)[k..]
  {
  }

  lemma OldCharacters(recs: Records, c: Change, v: seq<Spot>)
    requires Tree(recs) && Fits(recs, c) && c.uid !in recs && AreCharacters(recs, v)
    ensures AreCharacters(Added(recs, c), v) && Characters(Added(recs, c), v) == Characters(recs, v)
  {
    forall i | 0 <= i < |v|
      ensures IsCharacter(Added(recs, c), v[i]) && CharacterAt(Added(recs, c), v[i]) == CharacterAt(recs, v[i])
    {
      assert IsCharacter(recs, v[i]);
    }
  }

  lemma NewCharacters(recs: Records, c: Change)
    requires NewText(recs, c)
    ensures var b := Block(c.uid, |c.edit.text|)[..|c.edit.text|];
            AreCharacters(Added(recs, c), b) && Characters(Added(recs, c), b) == c.edit.text
  {
  }

  lemma CharactersInserted(recs: Records, c: Change, v: seq<Spot>, k: nat)
    requires NewText(recs, c) && k <= |v| && AreCharacters(recs, v)
    ensures var recs', w := Added(recs, c), InsertAt(v, k, Block(c.uid, |c.edit.text|)[..|c.edit.text|]);
            && AreCharacters(recs', w)
            && Characters(recs', w) == Characters(recs, v)[..k] + c.edit.text + Characters(recs, v)[k..]
  {
    hide Characters, AreCharacters, Added, Tree;
    var recs', b := Added(recs, c), Block(c.uid, |c.edit.text|)[..|c.edit.text|];
    CharactersCut(recs, v, k);
    OldCharacters(recs, c, v[..k]);
    OldCharacters(recs, c, v[k..]);
    NewCharacters(recs, c);
    CharactersSum(recs', v[..k], b);
    CharactersSum(recs', v[..k] + b, v[k..]);
  }
}
