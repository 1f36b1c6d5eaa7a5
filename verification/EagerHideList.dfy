/** The simple list with hidden elements: three Python structures kept in step. */
module EagerHideLists {
  import opened HideLists
  import opened Options

  /** A line of the position list: the item, whether it is visible, and its index among the visible
      elements. */
  datatype Line<Item> = Line(item: Item, visible: bool, index: int)

  function EntriesOf<Item>(lines: seq<Line<Item>>): (s: seq<Entry<Item>>)
    ensures |s| == |lines|
  {
    seq(|lines|, i requires 0 <= i < |lines| => Entry(lines[i].item, lines[i].visible))
  }

  class EagerHideList<Item(!new, ==)> {
    var sourcelist: seq<Item>
    var poslist: seq<Line<Item>>
    var posmap: map<Item, nat>

    ghost function Listing(): seq<Entry<Item>>
      reads this
    {
      EntriesOf(poslist)
    }

    ghost predicate Valid()
      reads this
    {
      && sourcelist == Visible(Listing())
      && Ranked(poslist)
      && Mapped(poslist, posmap)
    }

    constructor ()
      ensures Valid() && Listing() == []
    {
      sourcelist, poslist, posmap := [], [], map[];
    }

    /** `_check_invariants`, as the class states them itself. */
    predicate CheckInvariants()
      reads this
    {
      && |posmap| == |poslist|
      && forall i | 0 <= i < |poslist| ::
        && poslist[i].item in posmap && posmap[poslist[i].item] == i
        && (poslist[i].visible ==> 0 <= poslist[i].index < |sourcelist| && sourcelist[poslist[i].index] == poslist[i].item)
        && (i > 0 ==> poslist[i].index == poslist[i - 1].index + if poslist[i - 1].visible then 1 else 0)
    }

    lemma ValidImpliesChecked()
      requires Valid()
      ensures CheckInvariants()
    {
      var s := Listing();
      forall i | 0 <= i < |poslist|
        ensures poslist[i].visible ==> 0 <= poslist[i].index < |sourcelist| && sourcelist[poslist[i].index] == poslist[i].item
        ensures i > 0 ==> poslist[i].index == poslist[i - 1].index + if poslist[i - 1].visible then 1 else 0
      {
        if s[i].visible { PlaceIsUnique(s, i); }
        if i > 0 { RankStep(s, i - 1); }
      }
      MapSize(poslist, posmap);
    }

    method GetItem(i: nat) returns (r: Option<Item>)
      requires Valid()
      ensures r == if i < |Visible(Listing())| then Some(Visible(Listing())[i]) else None
    {
      r := if i < |sourcelist| then Some(sourcelist[i]) else None;
    }

    method Slice(start: nat, stop: nat) returns (r: seq<Item>)
      requires Valid() && start <= stop <= |Visible(Listing())|
      ensures r == Visible(Listing())[start..stop]
    {
      r := sourcelist[start..stop];
    }

    /** `index` and `index_all`. */
    method Index(item: Item, all: bool) returns (r: Option<int>)
      requires Valid()
      ensures r == if item !in Items(Listing()) then None
                   else var j := Where(Listing(), item); Some(if all then j else Rank(Listing(), j))
    {
      if item !in posmap {
        return None;
      }
      MappedWhere(poslist, posmap, item);
      r := Some(if all then posmap[item] else poslist[posmap[item]].index);
    }

    method IsVisibleItem(item: Item) returns (r: Option<bool>)
      requires Valid()
      ensures r == if item in Items(Listing()) then Some(Listing()[Where(Listing(), item)].visible) else None
    {
      if item !in posmap {
        return None;
      }
      MappedWhere(poslist, posmap, item);
      r := Some(poslist[posmap[item]].visible);
    }

    method GetItemAll(i: nat) returns (r: Option<Item>)
      requires Valid()
      ensures r == if i < |Listing()| then Some(Listing()[i].item) else None
    {
      r := if i < |poslist| then Some(poslist[i].item) else None;
    }

    /** The two loops of `hide`. */
    method HideLines(ifirst: nat, ilast: nat, position: nat, length: nat)
      requires ifirst < |poslist| && ilast < |poslist| && (ifirst <= ilast || length == 0)
      modifies `poslist
      ensures |poslist| == |old(poslist)|
      ensures forall k :: 0 <= k < |poslist| ==> poslist[k] == HiddenLine(old(poslist)[k], k, ifirst, ilast, position, length)
    {
      ghost var lines := poslist;
      for i := ifirst to if ilast < ifirst then ifirst else ilast + 1
        invariant |poslist| == |lines|
        invariant forall k :: 0 <= k < |lines| ==> poslist[k] == if ifirst <= k < i then Line(lines[k].item, false, position) else lines[k]
      {
        poslist := poslist[i := Line(poslist[i].item, false, position)];
      }
      for i := ilast + 1 to |poslist|
        invariant |poslist| == |lines|
        invariant forall k :: 0 <= k < |lines| ==> poslist[k] == HiddenLine(lines[k], k, ifirst, ilast, position, if k < i then length else 0)
      {
        poslist := poslist[i := Line(poslist[i].item, poslist[i].visible, poslist[i].index - length)];
      }
    }

    /** `hide`; IndexError past the end. Hiding none at the start counts the last element from the end
        and leaves the three structures out of step. */
    method HideElements(position: nat, length: nat) returns (ok: bool)
      requires Valid()
      modifies this
      ensures ok <==> position < |Visible(old(Listing()))| && position + length <= |Visible(old(Listing()))|
      ensures !ok ==> Valid() && Listing() == old(Listing())
      ensures ok && length > 0 ==> Valid() && Listing() == Hide(old(Listing()), position, length)
      ensures ok && length == 0 ==> if position > 0 then Valid() && Listing() == old(Listing()) else !Valid()
    {
      hide Visible;
      ghost var s, lines := Listing(), poslist;
      if position >= |sourcelist| || position + length > |sourcelist| {
        return false;
      }
      ok := true;
      var last := if position + length == 0 then |sourcelist| - 1 else position + length - 1;
      var pfirst := sourcelist[position];
      var plast := sourcelist[last];
      VisibleMapped(poslist, posmap, position);
      VisibleMapped(poslist, posmap, last);
      var ifirst := posmap[pfirst];
      var ilast := posmap[plast];
      if position <= last {
        Ordered(s, position, last);
      } else {
        Ordered(s, last, position);
      }
      HideLines(ifirst, ilast, position, length);
      sourcelist := sourcelist[..position] + sourcelist[position + length..];
      if length > 0 {
        HiddenLines(lines, position, length, poslist, posmap);
        VisibleHidden(s, position, length);
      } else if position > 0 {
        assert poslist == lines;
        assert sourcelist == old(sourcelist);
      } else {
        NoneLeft(lines, poslist);
        assert sourcelist == old(sourcelist);
      }
    }
  
    /** `insert_sequence_all`, for items that are not in the list yet; false when the line at
        position does not exist. */
    method InsertSequenceAll(position: nat, sequence: seq<Item>, visibility: seq<bool>) returns (ok: bool)
      requires Valid() && |sequence| == |visibility|
      requires Distinct(sequence) && forall v :: v in sequence ==> v !in Items(Listing())
      modifies this
      ensures Valid()
      ensures ok <==> position == 0 || position < |old(Listing())|
      ensures Listing() == if ok then InsertAt(old(Listing()), position, Listed(sequence, visibility)) else old(Listing())
    {
      hide Visible, EntriesOf, Listed;
      ghost var s, lines := Listing(), poslist;
      EntriesLength(lines);
      var psource := 0;
      if position > 0 {
        if position >= |poslist| {
          return false;
        }
        psource := poslist[position].index;
      }
      RankZero(s);
      RankMonotone(s, position, |s|);
      var newlist, newlistsource := NewLines(sequence, visibility, psource);
      NewAreFresh(lines, posmap, newlist, sequence, visibility, psource);
      poslist := poslist[..position] + newlist + poslist[position..];
      DistinctLines(lines, posmap, newlist, position);
      MapLines(position, newlist, lines);
      ShiftLines(position, newlist, lines, |newlistsource|);
      sourcelist := sourcelist[..psource] + newlistsource + sourcelist[psource..];
      InsertedLines(lines, newlist, position, sequence, visibility, poslist, old(posmap), posmap);
      VisibleInserted(s, position, Listed(sequence, visibility));
      ok := true;
    }

    /** The new lines and what of them is visible. */
    static method NewLines(sequence: seq<Item>, visibility: seq<bool>, psource: int)
      returns (newlist: seq<Line<Item>>, newlistsource: seq<Item>)
      requires |sequence| == |visibility|
      ensures newlistsource == Visible(Listed(sequence, visibility))
      ensures AreLines(newlist, sequence, visibility, psource)
    {
      hide Visible;
      newlist, newlistsource := [], [];
      ghost var s := Listed(sequence, visibility);
      RankZero(s);
      var i := psource;
      for k := 0 to |sequence|
        invariant |newlist| == k && i == psource + |newlistsource| && newlistsource == Visible(s[..k])
        invariant forall m :: 0 <= m < k ==> newlist[m] == Line(sequence[m], visibility[m], psource + Rank(s, m))
      {
        var elt, viz := sequence[k], visibility[k];
        newlist := newlist + [Line(elt, viz, i)];
        VisibleStep(s, k);
        if viz {
          newlistsource := newlistsource + [elt];
          i := i + 1;
        }
      }
      assert s[..|sequence|] == s;
    }

    /** Enters the new lines in the position map. */
    method MapLines(position: nat, newlist: seq<Line<Item>>, ghost lines: seq<Line<Item>>)
      requires position <= |lines| && poslist == lines[..position] + newlist + lines[position..]
      requires Mapped(lines, posmap) && Fresh(newlist, posmap)
      modifies `posmap
      ensures forall v :: v in posmap <==> v in old(posmap) || exists m :: 0 <= m < |newlist| && newlist[m].item == v
      ensures forall m :: 0 <= m < position + |newlist| ==> poslist[m].item in posmap && posmap[poslist[m].item] == m
    {
      for k := position to position + |newlist|
        invariant forall v :: v in posmap <==> v in old(posmap) || exists m :: 0 <= m < k - position && newlist[m].item == v
        invariant forall m :: 0 <= m < k ==> poslist[m].item in posmap && posmap[poslist[m].item] == m
      {
        assert poslist[k] == newlist[k - position];
        posmap := posmap[poslist[k].item := k];
      }
    }

    /** Moves the lines after the new ones. */
    method ShiftLines(position: nat, newlist: seq<Line<Item>>, ghost lines: seq<Line<Item>>, shift: nat)
      requires position <= |lines| && poslist == lines[..position] + newlist + lines[position..]
      requires forall m :: 0 <= m < position + |newlist| ==> poslist[m].item in posmap && posmap[poslist[m].item] == m
      requires DistinctItems(poslist)
      requires forall m :: 0 <= m < |poslist| ==> poslist[m].item in posmap
      modifies `posmap, `poslist
      ensures posmap.Keys == old(posmap.Keys) && |poslist| == |lines| + |newlist|
      ensures forall m :: 0 <= m < |poslist| ==> poslist[m] == InsertedLine(lines, newlist, position, m, shift)
      ensures forall m :: 0 <= m < |poslist| ==> poslist[m].item in posmap && posmap[poslist[m].item] == m
    {
      for k := position + |newlist| to |poslist|
        invariant |poslist| == |lines| + |newlist| && posmap.Keys == old(posmap.Keys)
        invariant forall m :: 0 <= m < |poslist| ==> poslist[m].item == old(poslist)[m].item
        invariant forall m :: 0 <= m < |poslist| ==> poslist[m] == InsertedLine(lines, newlist, position, m, if m < k then shift else 0)
        invariant forall m :: 0 <= m < k ==> poslist[m].item in posmap && posmap[poslist[m].item] == m
      {
        posmap := posmap[poslist[k].item := k];
        poslist := poslist[k := Line(poslist[k].item, poslist[k].visible, poslist[k].index + shift)];
      }
    }

    /** `insert_sequence_leftof`. */
    method InsertSequenceLeftOf(target: Item, sequence: seq<Item>, visibility: seq<bool>) returns (ok: bool)
      requires Valid() && |sequence| == |visibility|
      requires Distinct(sequence) && forall v :: v in sequence ==> v !in Items(Listing())
      modifies this
      ensures Valid()
      ensures ok <==> target in Items(old(Listing()))
      ensures Listing() == if ok then InsertAt(old(Listing()), Where(old(Listing()), target), Listed(sequence, visibility))
                           else old(Listing())
    {
      MappedWhere(poslist, posmap, target);
      if target !in posmap {
        return false;
      }
      ok := InsertSequenceAll(posmap[target], sequence, visibility);
    }
  }

  ghost predicate AreLines<Item>(lines: seq<Line<Item>>, sequence: seq<Item>, visibility: seq<bool>, psource: int)
    requires |sequence| == |visibility|
  {
    |lines| == |sequence|
    && forall m :: 0 <= m < |lines| ==> lines[m] == Line(sequence[m], visibility[m], psource + Rank(Listed(sequence, visibility), m))
  }

  /** The items of the lines are new and distinct. */
  ghost predicate Fresh<Item>(lines: seq<Line<Item>>, posmap: map<Item, nat>) {
    && (forall m :: 0 <= m < |lines| ==> lines[m].item !in posmap)
    && (forall i, j :: 0 <= i < j < |lines| ==> lines[i].item != lines[j].item)
  }

  ghost predicate DistinctItems<Item>(lines: seq<Line<Item>>) {
    forall i, j :: 0 <= i < j < |lines| ==> lines[i].item != lines[j].item
  }

  lemma NewAreFresh<Item>(lines: seq<Line<Item>>, posmap: map<Item, nat>, added: seq<Line<Item>>, sequence: seq<Item>, visibility: seq<bool>, psource: int)
    requires Mapped(lines, posmap) && |sequence| == |visibility| && AreLines(added, sequence, visibility, psource)
    requires Distinct(sequence) && forall v :: v in sequence ==> v !in Items(EntriesOf(lines))
    ensures Fresh(added, posmap)
  {
    forall m | 0 <= m < |added|
      ensures added[m].item !in posmap
    {
      assert added[m].item == sequence[m];
      MappedWhere(lines, posmap, sequence[m]);
    }
  }

  lemma DistinctLines<Item>(lines: seq<Line<Item>>, posmap: map<Item, nat>, added: seq<Line<Item>>, position: nat)
    requires Mapped(lines, posmap) && Fresh(added, posmap) && position <= |lines|
    ensures DistinctItems(lines[..position] + added + lines[position..])
  {
    var after := lines[..position] + added + lines[position..];
    forall m | 0 <= m < |after|
      ensures after[m] == InsertedLine(lines, added, position, m, 0)
    {
    }
  }

  lemma EntriesLength<Item>(lines: seq<Line<Item>>)
    ensures |EntriesOf(lines)| == |lines|
    ensures forall i :: 0 <= i < |lines| ==> EntriesOf(lines)[i] == Entry(lines[i].item, lines[i].visible)
  {
  }

  /** The lines after an insertion. */
  lemma InsertedLines<Item>(lines: seq<Line<Item>>, added: seq<Line<Item>>, position: nat, sequence: seq<Item>, visibility: seq<bool>,
                            after: seq<Line<Item>>, posmap: map<Item, nat>, posmap': map<Item, nat>)
    requires position <= |lines| && |sequence| == |visibility| && Ranked(lines) && Mapped(lines, posmap)
    requires AreLines(added, sequence, visibility, Rank(EntriesOf(lines), position)) && |after| == |lines| + |added|
    requires forall m :: 0 <= m < |after| ==>
               after[m] == InsertedLine(lines, added, position, m, |Visible(Listed(sequence, visibility))|)
    requires forall m :: 0 <= m < |after| ==> after[m].item in posmap' && posmap'[after[m].item] == m
    requires forall v :: v in posmap' <==> v in posmap || exists m :: 0 <= m < |added| && added[m].item == v
    ensures EntriesOf(after) == InsertAt(EntriesOf(lines), position, Listed(sequence, visibility))
    ensures Ranked(after) && Mapped(after, posmap')
  {
    hide Visible;
    var s, t := EntriesOf(lines), Listed(sequence, visibility);
    assert EntriesOf(after) == InsertAt(s, position, t);
    forall m | 0 <= m < |after|
      ensures after[m].index == Rank(EntriesOf(after), m)
    {
      RankInserted(s, position, t, m);
    }
    forall v | v in posmap'
      ensures posmap'[v] < |after| && after[posmap'[v]].item == v
    {
      if v in posmap {
        var k := posmap[v];
        assert after[if k < position then k else k + |added|].item == v;
      } else {
        var m :| 0 <= m < |added| && added[m].item == v;
        assert after[position + m].item == v;
      }
    }
  }

  lemma {:induction false} RankInserted<Item>(s: seq<Entry<Item>>, j: nat, t: seq<Entry<Item>>, m: nat)
    requires j <= |s| && m < |s| + |t|
    ensures Rank(InsertAt(s, j, t), m) ==
            if m < j then Rank(s, m) else if m < j + |t| then Rank(s, j) + Rank(t, m - j) else Rank(s, m - |t|) + |Visible(t)|
  {
    hide Visible;
    var u := InsertAt(s, j, t);
    if m < j {
      assert u[..m] == s[..m];
    } else if m < j + |t| {
      assert u[..m] == s[..j] + t[..m - j];
      VisibleSum(s[..j], t[..m - j]);
    } else {
      assert u[..m] == s[..j] + t + s[j..m - |t|];
      assert s[..m - |t|] == s[..j] + s[j..m - |t|];
      VisibleSum(s[..j] + t, s[j..m - |t|]);
      VisibleSum(s[..j], t);
      VisibleSum(s[..j], s[j..m - |t|]);
    }
  }

  function InsertedLine<Item>(lines: seq<Line<Item>>, added: seq<Line<Item>>, position: nat, m: nat, shift: nat): Line<Item>
    requires position <= |lines| && m < |lines| + |added|
  {
    if m < position then lines[m]
    else if m < position + |added| then added[m - position]
    else var l := lines[m - |added|]; Line(l.item, l.visible, l.index + shift)
  }

  lemma VisibleStep<Item>(s: seq<Entry<Item>>, k: nat)
    requires k < |s|
    ensures Visible(s[..k + 1]) == Visible(s[..k]) + Shown(s[k])
  {
    VisibleSnoc(s[..k], s[k]);
    assert s[..k + 1] == s[..k] + [s[k]];
  }

  lemma RankZero<Item>(s: seq<Entry<Item>>)
    ensures Rank(s, 0) == 0 && Visible(s[..0]) == []
  {
  }

  /** Each line shows the right index. */
  ghost predicate Ranked<Item>(lines: seq<Line<Item>>) {
    forall i :: 0 <= i < |lines| ==> lines[i].index == Rank(EntriesOf(lines), i)
  }

  /** The position map inverts the list of items. */
  ghost predicate Mapped<Item>(lines: seq<Line<Item>>, posmap: map<Item, nat>) {
    && (forall i :: 0 <= i < |lines| ==> lines[i].item in posmap && posmap[lines[i].item] == i)
    && (forall v :: v in posmap ==> posmap[v] < |lines| && lines[posmap[v]].item == v)
  }

  lemma MappedWhere<Item>(lines: seq<Line<Item>>, posmap: map<Item, nat>, item: Item)
    requires Mapped(lines, posmap)
    ensures item in posmap <==> item in Items(EntriesOf(lines))
    ensures item in posmap ==> posmap[item] == Where(EntriesOf(lines), item)
  {
    var s := EntriesOf(lines);
    if item in posmap {
      assert Items(s)[posmap[item]] == item;
      assert lines[Where(s, item)].item == item;
    }
  }

  lemma {:induction false} VisibleMapped<Item>(lines: seq<Line<Item>>, posmap: map<Item, nat>, k: nat)
    requires Mapped(lines, posmap) && k < |Visible(EntriesOf(lines))|
    ensures Visible(EntriesOf(lines))[k] in posmap && posmap[Visible(EntriesOf(lines))[k]] == Place(EntriesOf(lines), k)
  {
    var j := Place(EntriesOf(lines), k);
    assert lines[j].item == Visible(EntriesOf(lines))[k];
  }

  lemma {:induction false} MapSize<Item>(lines: seq<Line<Item>>, posmap: map<Item, nat>)
    requires Mapped(lines, posmap)
    ensures |posmap| == |lines|
    decreases |lines|
  {
    if lines == [] {
      assert forall v :: v in posmap ==> posmap[v] < |lines|;
      assert posmap == map[];
    } else {
      var last := lines[|lines| - 1].item;
      var front, smaller := lines[..|lines| - 1], posmap - {last};
      MapSize(front, smaller);
      assert posmap.Keys == smaller.Keys + {last};
    }
  }

  /** A line after hiding the stretch ifirst to ilast. */
  function HiddenLine<Item>(line: Line<Item>, k: int, ifirst: int, ilast: int, position: int, length: int): Line<Item> {
    if k < ifirst then line
    else if k <= ilast then Line(line.item, false, position)
    else Line(line.item, line.visible, line.index - length)
  }

  lemma {:induction false} Ordered<Item>(s: seq<Entry<Item>>, k: nat, m: nat)
    requires k <= m < |Visible(s)|
    ensures Place(s, k) <= Place(s, m)
  {
    if Place(s, m) < Place(s, k) { RankMonotone(s, Place(s, m), Place(s, k)); }
  }

  /** The elements of the stretch are those between the first and the last one hidden. */
  lemma StretchRanks<Item>(s: seq<Entry<Item>>, p: nat, n: nat, i: nat)
    requires 1 <= n && p + n <= |Visible(s)| && i < |s|
    ensures var a, b, r := Place(s, p), Place(s, p + n - 1), Rank(s, i);
            && (i <= a ==> r <= p) && (a < i <= b ==> p < r < p + n) && (b < i ==> p + n <= r)
            && (i < a && s[i].visible ==> r < p)
  {
    hide Visible;
    var a, b := Place(s, p), Place(s, p + n - 1);
    Ordered(s, p, p + n - 1);
    if i <= a { RankMonotone(s, i, a); }
    if a < i { RankMonotone(s, a, i); }
    if i <= b { RankMonotone(s, i, b); }
    if b < i { RankMonotone(s, b, i); }
  }

  /** From the first to the last visible element nothing stays visible. */
  lemma {:induction false} NoneLeft<Item>(lines: seq<Line<Item>>, after: seq<Line<Item>>)
    requires var s := EntriesOf(lines);
             && Visible(s) != [] && |after| == |lines|
             && forall k :: 0 <= k < |lines| ==> after[k] == HiddenLine(lines[k], k, Place(s, 0), Place(s, |Visible(s)| - 1), 0, 0)
    ensures Visible(EntriesOf(after)) == []
  {
    hide Visible, Rank;
    var s, t := EntriesOf(lines), EntriesOf(after);
    if Visible(t) != [] {
      var k := Place(t, 0);
      assert after[k].visible && lines[k].visible;
      PlaceIsUnique(s, k);
      Ordered(s, 0, Rank(s, k));
      Ordered(s, Rank(s, k), |Visible(s)| - 1);
    }
  }

  lemma {:induction false} HiddenLines<Item>(lines: seq<Line<Item>>, p: nat, n: nat, after: seq<Line<Item>>, posmap: map<Item, nat>)
    requires Ranked(lines) && Mapped(lines, posmap) && 1 <= n && p + n <= |Visible(EntriesOf(lines))| && |after| == |lines|
    requires var s := EntriesOf(lines);
             forall k :: 0 <= k < |lines| ==> after[k] == HiddenLine(lines[k], k, Place(s, p), Place(s, p + n - 1), p, n)
    ensures EntriesOf(after) == Hide(EntriesOf(lines), p, n) && Ranked(after) && Mapped(after, posmap)
  {
    hide Visible;
    var s := EntriesOf(lines);
    forall i | 0 <= i < |lines|
      ensures EntriesOf(after)[i] == Hide(s, p, n)[i]
      ensures after[i].item == lines[i].item && after[i].index == Rank(Hide(s, p, n), i)
    {
      StretchRanks(s, p, n, i);
      RankOfHidden(s, p, n, i);
    }
    assert EntriesOf(after) == Hide(s, p, n);
  }
}
