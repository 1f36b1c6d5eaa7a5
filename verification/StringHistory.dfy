/** The history of a string tree: its changes in an order in which another tree can take them in. */
module StringHistory {
  import opened HideLists
  import opened Options
  import opened StringConvergence
  import opened StringOrder
  import opened StringRuns
  import opened StringShape

  /** Each change once, parents first, the root's own in front: recording the others one after the
      other, from an empty tree, gives just these records. */
  ghost predicate IsHistory(recs: Records, changes: seq<Change>) {
    changes != [] && changes[0] == ROOT_RECORD.change && ParentsFirst(changes[1..]) && AddedAll(EMPTY.recs, changes[1..]) == recs
  }

  // -------------------------------------------------------------------------
  // The walk down the tree
  // -------------------------------------------------------------------------

  ghost predicate Under(recs: Records, u: int, p: int) {
    u in recs && u != ROOT && recs[u].change.parent == p
  }

  /** Every record is seen, or waits on the stack, or hangs below one that waits. */
  ghost predicate Waiting(recs: Records, seen: set<int>, stack: seq<int>) {
    && ROOT in seen
    && (forall i, j :: 0 <= i < j < |stack| ==> stack[i] != stack[j])
    && (forall u :: u in stack ==> u !in seen && u in recs && recs[u].change.parent in seen)
    && (forall u :: u in seen && u != ROOT ==> u in recs && recs[u].change.parent in seen)
    && forall u :: u in recs && u != ROOT && recs[u].change.parent in seen ==> u in seen || u in stack
  }

  /** What has been recorded so far is part of the records. */
  ghost predicate Walked(recs: Records, done: seq<Change>, stack: seq<int>) {
    && ParentsFirst(done)
    && var m := AddedAll(EMPTY.recs, done);
       (forall u :: u in m ==> u in recs && m[u] == recs[u]) && Waiting(recs, m.Keys, stack)
  }

  lemma {:induction false} WalkStarts(recs: Records, kids: seq<int>)
    requires Tree(recs) && (forall u :: u in kids <==> Under(recs, u, ROOT))
    requires forall i, j :: 0 <= i < j < |kids| ==> kids[i] != kids[j]
    ensures Walked(recs, [], kids) && ParentsFirst([])
  {
    NoChanges(EMPTY.recs);
  }

  lemma NextWaits(recs: Records, seen: set<int>, front: seq<int>, x: int, kids: seq<int>)
    requires Tree(recs) && Waiting(recs, seen, front + [x]) && (forall u :: u in kids <==> Under(recs, u, x))
    requires forall i, j :: 0 <= i < j < |kids| ==> kids[i] != kids[j]
    ensures x !in seen && x in recs && recs[x].change.parent in seen && Waiting(recs, seen + {x}, front + kids)
  {
    var stack, next := front + [x], front + kids;
    assert stack[|front|] == x && forall i :: 0 <= i < |front| ==> stack[i] == front[i];
    assert x in stack;
    forall u | u in next
      ensures u !in seen + {x} && u in recs && recs[u].change.parent in seen + {x}
    {
      if u in front { assert u in stack; }
    }
    forall u | u in recs && u != ROOT && recs[u].change.parent in seen + {x}
      ensures u in seen + {x} || u in next
    {
      if recs[u].change.parent == x {
        assert u in kids;
      } else if u !in seen {
        assert u in stack;
      }
    }
    forall i, j | 0 <= i < j < |next|
      ensures next[i] != next[j]
    {
      if i < |front| <= j {
        assert next[i] in stack && next[j] in kids;
      }
    }
  }

  lemma {:induction false} WalkGoesOn(recs: Records, done: seq<Change>, front: seq<int>, x: int, kids: seq<int>)
    requires Tree(recs) && Walked(recs, done, front + [x]) && (forall u :: u in kids <==> Under(recs, u, x))
    requires forall i, j :: 0 <= i < j < |kids| ==> kids[i] != kids[j]
    ensures x in recs && x !in AddedAll(EMPTY.recs, done) && Walked(recs, done + [recs[x].change], front + kids)
    ensures ParentsFirst(done) && ParentsFirst(done + [recs[x].change])
    ensures AddedAll(EMPTY.recs, done + [recs[x].change]).Keys == AddedAll(EMPTY.recs, done).Keys + {x}
  {
    hide AllFit, AddedAll, Waiting;
    var m := AddedAll(EMPTY.recs, done);
    NextWaits(recs, m.Keys, front, x, kids);
    assert x != ROOT by { AddedAllChanges(done, ROOT); }
    var c := recs[x].change;
    AddedAllChanges(done, x);
    assert Fits(m, c);
    OneMoreChange(EMPTY.recs, done, c);
    assert Added(m, c).Keys == m.Keys + {x};
  }

  lemma {:induction false} AllSeen(recs: Records, seen: set<int>, u: int)
    requires Tree(recs) && Waiting(recs, seen, []) && u in recs
    ensures u in seen
    decreases recs[u].depth
  {
    if u != ROOT { AllSeen(recs, seen, recs[u].change.parent); }
  }

  lemma {:induction false} WalkEnds(recs: Records, done: seq<Change>)
    requires Tree(recs) && Walked(recs, done, [])
    ensures ParentsFirst(done) && AddedAll(EMPTY.recs, done) == recs
  {
    hide AllFit, AddedAll, Waiting;
    var m := AddedAll(EMPTY.recs, done);
    forall u | u in recs
      ensures u in m.Keys
    {
      AllSeen(recs, m.Keys, u);
    }
    forall u | u in m.Keys
      ensures u in recs.Keys
    {
      assert u in m;
    }
    assert m.Keys == recs.Keys;
    forall u | u in m
      ensures m[u] == recs[u]
    {
    }
    assert m == recs;
  }

  lemma RootIsRecord(recs: Records)
    requires Tree(recs)
    ensures ROOT in recs && recs[ROOT] == ROOT_RECORD
  {
  }

  // -------------------------------------------------------------------------
  // What a history is good for
  // -------------------------------------------------------------------------

  lemma {:induction false} ReceivedSum(s: State, a: seq<Change>, b: seq<Change>)
    requires ReceivedAll(s, a).Some?
    ensures ReceivedAll(s, a + b) == ReceivedAll(ReceivedAll(s, a).value, b)
    decreases |b|
  {
    hide Received;
    if b == [] {
      assert a + b == a;
    } else {
      var front, c := b[..|b| - 1], b[|b| - 1];
      ReceivedSum(s, a, front);
      assert a + b == (a + front) + [c] && b == front + [c];
      ReceivedMore(s, a + front, c);
      ReceivedMore(ReceivedAll(s, a).value, front, c);
    }
  }

  /** The root's own change, which comes first, is known to every tree. */
  lemma {:induction false} RootIsKnown(changes: seq<Change>)
    requires changes != [] && changes[0] == ROOT_RECORD.change
    ensures ReceivedAll(EMPTY, changes) == ReceivedAll(EMPTY, changes[1..])
  {
    hide Received, ReceivedAll;
    var first := [changes[0]];
    assert changes == first + changes[1..] && first == [] + [changes[0]];
    ReceivedNone(EMPTY);
    ReceivedMore(EMPTY, [], changes[0]);
    KnownChange(EMPTY, changes[0]);
    ReceivedSum(EMPTY, first, changes[1..]);
  }

  lemma KnownChange(s: State, c: Change)
    requires c.uid in s.recs
    ensures Received(s, c) == Some(s)
  {
  }

  /** An exact tree of insertions, none at the front of a text other than the root, is rebuilt from its
      history, listing and all. */
  lemma {:induction false} HistoryRebuilds(s: State, changes: seq<Change>)
    requires IsExact(s) && NoneAtFront(s.recs) && IsHistory(s.recs, changes)
    ensures ReceivedAll(EMPTY, changes) == Some(s)
  {
    hide Exact, Shape, ReceivedAll, AddedAll, AllFit;
    var rest := changes[1..];
    forall i | 0 <= i < |rest|
      ensures AtCharacter(rest[i])
    {
      AddedAllChanges(rest, rest[i].uid);
      assert s.recs[rest[i].uid].change == rest[i];
    }
    InsertionsAreExact(rest);
    RootIsKnown(changes);
    Converge(s.recs, s.listing, ReceivedAll(EMPTY, rest).value.listing);
  }
}
