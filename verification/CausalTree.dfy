/** The replicated tree: commands are kept in a timeline ordered by index, and a late command is
    taken in by undoing, inserting and redoing. */
module CausalTrees {
  import opened Clocks
  import opened ListSets
  import opened Options
  import opened TreeCommands

  datatype Element = Element(index: Index, cmd: Command)

  function Opcode(c: Command): nat {
    match c
    case SetParent(_, _) => 0
    case DeleteNode(_) => 1
    case Clear => 2
  }

  function Arguments(c: Command): (nat, nat) {
    match c
    case SetParent(n, to) => (n, to)
    case DeleteNode(n) => (n, 0)
    case Clear => (0, 0)
  }

  predicate CommandLess(a: Command, b: Command) {
    || Opcode(a) < Opcode(b)
    || (Opcode(a) == Opcode(b) && Arguments(a).0 < Arguments(b).0)
    || (Opcode(a) == Opcode(b) && Arguments(a).0 == Arguments(b).0 && Arguments(a).1 < Arguments(b).1)
  }

  /** The order of the tuples (index, command). */
  predicate Less(a: Element, b: Element) {
    || IndexLess(a.index, b.index)
    || (a.index == b.index && CommandLess(a.cmd, b.cmd))
  }

  lemma LessIsTotal()
    ensures StrictTotalOrder(Less)
  {
    forall a: Element, b: Element
      ensures a == b || Less(a, b) || Less(b, a)
    {
    }
  }

  /** The tree that a timeline stands for: its commands run in order from the empty tree. */
  ghost function Replay(s: seq<Element>): Parents
    decreases |s|
  {
    if s == [] then map[] else Apply(Replay(s[..|s| - 1]), s[|s| - 1].cmd)
  }

  ghost predicate Sane(s: seq<Element>) {
    forall e :: e in s ==> WellFormed(e.cmd)
  }

  lemma ReplayNext(s: seq<Element>, k: nat)
    requires k < |s|
    ensures Replay(s[..k + 1]) == Apply(Replay(s[..k]), s[k].cmd)
  {
    assert s[..k + 1][..k] == s[..k];
  }

  /** The undo list recorded for position k takes the tree one command back. */
  ghost predicate UndoKnown(s: seq<Element>, reverse: map<Element, seq<Command>>, k: nat)
    requires k < |s|
  {
    && s[k] in reverse
    && Undoes(reverse[s[k]], Replay(s[..k + 1]), Replay(s[..k]))
  }

  /** The elements whose command had an effect. */
  ghost function Affected(tail: seq<Element>, reverse: map<Element, seq<Command>>): seq<Element>
    requires SetOf(tail) <= reverse.Keys
  {
    if tail == [] then []
    else
      assert SetOf(tail[1..]) <= SetOf(tail) && tail[0] in SetOf(tail);
      (if reverse[tail[0]] != [] then [tail[0]] else []) + Affected(tail[1..], reverse)
  }

  lemma {:induction false} AffectedNone(tail: seq<Element>, reverse: map<Element, seq<Command>>)
    requires SetOf(tail) <= reverse.Keys && tail == []
    ensures Affected(tail, reverse) == []
  {
  }

  lemma {:induction false} AffectedFirst(tail: seq<Element>, reverse: map<Element, seq<Command>>)
    requires SetOf(tail) <= reverse.Keys && tail != []
    ensures tail[0] in reverse && SetOf(tail[1..]) <= reverse.Keys
    ensures Affected(tail, reverse)
            == (if reverse[tail[0]] != [] then [tail[0]] else []) + Affected(tail[1..], reverse)
  {
    assert tail[0] in SetOf(tail) && SetOf(tail[1..]) <= SetOf(tail);
  }

  /** The undo lists of the given elements, latest element first. */
  ghost function RollbackOf(elts: seq<Element>, reverse: map<Element, seq<Command>>): seq<Command>
    requires SetOf(elts) <= reverse.Keys
  {
    if elts == [] then []
    else
      assert SetOf(elts[1..]) <= SetOf(elts) && elts[0] in SetOf(elts);
      RollbackOf(elts[1..], reverse) + reverse[elts[0]]
  }

  lemma {:induction false} AffectedIsIncluded(tail: seq<Element>, reverse: map<Element, seq<Command>>)
    requires SetOf(tail) <= reverse.Keys
    ensures SetOf(Affected(tail, reverse)) <= SetOf(tail)
  {
    if tail == [] {
    } else {
      assert SetOf(tail[1..]) <= SetOf(tail);
      AffectedIsIncluded(tail[1..], reverse);
      assert forall x :: x in SetOf(Affected(tail[1..], reverse)) ==> x in SetOf(tail[1..]);
      assert forall x :: x in Affected(tail, reverse) ==> x == tail[0] || x in Affected(tail[1..], reverse);
    }
  }

  /** Undoing the affected part of a timeline from position k on gives the tree before k. */
  lemma {:induction false} RollbackReaches(s: seq<Element>, reverse: map<Element, seq<Command>>, k: nat)
    requires k <= |s|
    requires SetOf(s[k..]) <= reverse.Keys
    requires forall j :: k <= j < |s| ==> UndoKnown(s, reverse, j)
    ensures SetOf(Affected(s[k..], reverse)) <= reverse.Keys
    ensures AllWellFormed(RollbackOf(Affected(s[k..], reverse), reverse))
    ensures ApplyAll(Replay(s), RollbackOf(Affected(s[k..], reverse), reverse)) == Replay(s[..k])
    decreases |s| - k
  {
    AffectedIsIncluded(s[k..], reverse);
    if k == |s| {
      assert s[..k] == s;
    } else {
      assert s[k..][1..] == s[k + 1..];
      assert SetOf(s[k + 1..]) <= SetOf(s[k..]);
      RollbackReaches(s, reverse, k + 1);
      var later := Affected(s[k + 1..], reverse);
      assert UndoKnown(s, reverse, k);
      if reverse[s[k]] != [] {
        var affected := Affected(s[k..], reverse);
        assert affected[1..] == later;
        ApplyAllAppend(Replay(s), RollbackOf(later, reverse), reverse[s[k]]);
      } else {
        assert Affected(s[k..], reverse) == later;
      }
    }
  }

  /** Position k separates the elements below x from the others. */
  ghost predicate CutAt(s: seq<Element>, k: nat, x: Element) {
    && k <= |s|
    && (forall i :: 0 <= i < k ==> Less(s[i], x))
    && (forall i :: k <= i < |s| ==> !Less(s[i], x))
  }

  /** The tree is that of the old timeline below x, with the commands of the new one from x on. */
  ghost predicate RedoneFrom(was: seq<Element>, now: seq<Element>, x: Element, p: Parents) {
    exists k: nat, m: nat :: CutAt(was, k, x) && CutAt(now, m, x) && p == ApplyAll(Replay(was[..k]), Commands(now[m..]))
  }

  /** The part of a timeline below x depends only on which elements below x it holds. */
  lemma SamePrefix(a: seq<Element>, i: nat, b: seq<Element>, j: nat, x: Element)
    requires StrictTotalOrder(Less) && Ascending(Less, a) && Ascending(Less, b)
    requires CutAt(a, i, x) && CutAt(b, j, x)
    requires forall e :: Less(e, x) ==> (e in a <==> e in b)
    ensures i == j && a[..i] == b[..j]
  {
    forall e
      ensures e in SetOf(a[..i]) <==> e in SetOf(b[..j])
    {
      assert e in a[..i] <==> e in a && Less(e, x);
      assert e in b[..j] <==> e in b && Less(e, x);
    }
    AscendingIsUnique(Less, a[..i], b[..j]);
  }

  /** What ties the tree, the undo lists and the clock to the timeline. */
  ghost predicate Consistent(s: seq<Element>, parent: Parents, reverse: map<Element, seq<Command>>, counter: nat) {
    && Sane(s)
    && parent == Replay(s)
    && reverse.Keys == SetOf(s)
    && (forall k :: 0 <= k < |s| ==> UndoKnown(s, reverse, k))
    && ClockCovers(s, counter)
  }

  /** A command that belongs at the end may run on the current tree. */
  lemma AppendedIsConsistent(s: seq<Element>, parent: Parents, reverse: map<Element, seq<Command>>, c: nat, c': nat,
                             e: Element, rev: seq<Command>)
    requires Consistent(s, parent, reverse, c)
    requires WellFormed(e.cmd) && e !in s && e.index.counter <= c' && c <= c'
    requires Undoes(rev, Apply(parent, e.cmd), parent)
    ensures Consistent(s + [e], Apply(parent, e.cmd), reverse[e := rev], c')
  {
    hide Undoes, Apply;
    var now, rev' := s + [e], reverse[e := rev];
    assert now[..|s|] == s && now[..|s| + 1] == now;
    ReplayNext(now, |s|);
    forall k | 0 <= k < |now|
      ensures UndoKnown(now, rev', k)
    {
      if k < |s| {
        assert UndoKnown(s, reverse, k);
        assert now[..k] == s[..k] && now[..k + 1] == s[..k + 1];
      }
    }
    assert SetOf(now) == SetOf(s) + {e};
  }

  lemma {:induction false} ConsistentCovers(s: seq<Element>, parent: Parents, reverse: map<Element, seq<Command>>, counter: nat)
    requires Consistent(s, parent, reverse, counter)
    ensures Sane(s) && ClockCovers(s, counter) && reverse.Keys == SetOf(s) && parent == Replay(s)
    ensures forall k :: 0 <= k < |s| ==> UndoKnown(s, reverse, k)
  {
  }

  lemma ClockIsAbove(s: seq<Element>, counter: nat, e: Element)
    requires ClockCovers(s, counter) && counter < e.index.counter
    ensures forall z :: z in s ==> Less(z, e)
    ensures e !in s
  {
  }

  ghost predicate ClockCovers(s: seq<Element>, counter: nat) {
    forall e :: e in s ==> e.index.counter <= counter
  }

  /** The child sets say the same as the parent links. */
  ghost predicate Inverse(parent: map<Node, Node>, children: map<Node, set<Node>>) {
    && children.Keys == parent.Keys + {ROOT}
    && forall n, c :: n in children ==> (c in children[n] <==> c in parent && parent[c] == n)
  }

  lemma ChildrenAre(parent: map<Node, Node>, children: map<Node, set<Node>>, n: Node)
    requires Inverse(parent, children) && n in children
    ensures children[n] == ChildSet(parent, n)
  {
  }

  lemma InverseIsUnique(parent: map<Node, Node>, a: map<Node, set<Node>>, b: map<Node, set<Node>>)
    requires Inverse(parent, a) && Inverse(parent, b)
    ensures a == b
  {
    forall n | n in a
      ensures a[n] == b[n]
    {
      assert n in b;
      assert forall c :: c in a[n] <==> c in parent && parent[c] == n;
      assert forall c :: c in b[n] <==> c in parent && parent[c] == n;
    }
  }

  /** During a deletion: the children in done already hang from the node's own parent, and the
      child sets say so; the node itself still has its old entry. */
  ghost predicate Lifting(before: Parents, node: Node, done: seq<Node>,
                          parent: map<Node, Node>, children: map<Node, set<Node>>)
    requires node in before
  {
    && Members(done) <= ChildSet(before, node)
    && (forall i, j :: 0 <= i < j < |done| ==> done[i] != done[j])
    && parent == Lifted(before, node, Members(done))
    && children.Keys == before.Keys + {ROOT}
    && children[node] == ChildSet(before, node)
    && forall n, c :: n in children && n != node ==>
         (c in children[n] <==> c in before && c != node && parent[c] == n)
  }

  lemma LiftingStarts(before: Parents, node: Node, children: map<Node, set<Node>>)
    requires Rooted(before) && node in before && Inverse(before, children)
    ensures before[node] in children
    ensures Lifting(before, node, [], before, children[before[node] := children[before[node]] - {node}])
  {
    ParentIsKnown(before, node);
  }

  lemma LiftingChildren(before: Parents, node: Node, done: seq<Node>,
                        parent: map<Node, Node>, children: map<Node, set<Node>>)
    requires node in before && Lifting(before, node, done, parent, children)
    ensures children.Keys == before.Keys + {ROOT} && parent.Keys == before.Keys
    ensures children[node] == ChildSet(before, node)
    ensures Members(done) <= children[node]
    ensures Moves([], node) == []
  {
  }

  lemma LiftingContinues(before: Parents, node: Node, done: seq<Node>,
                         parent: map<Node, Node>, children: map<Node, set<Node>>, c: Node)
    requires Rooted(before) && node in before && Lifting(before, node, done, parent, children)
    requires c in children[node] && c !in done
    ensures before[node] in children
    ensures Lifting(before, node, done + [c], parent[c := before[node]],
                    children[before[node] := children[before[node]] + {c}])
    ensures Moves(done + [c], node) == Moves(done, node) + [SetParent(c, node)]
  {
    hide Rooted, Lifted, Members, Moves, AtOrAbove;
    ParentIsKnown(before, node);
    ParentIsKnown(before, c);
    LiftedMore(before, node, done, c);
    var p', c' := parent[c := before[node]], children[before[node] := children[before[node]] + {c}];
    forall n, x | n in c' && n != node
      ensures x in c'[n] <==> x in before && x != node && p'[x] == n
    {
      if x == c { assert parent[c] == node; }
    }
  }

  lemma LiftedMore(before: Parents, node: Node, done: seq<Node>, c: Node)
    requires node in before && Members(done) <= ChildSet(before, node) && c in ChildSet(before, node) && c !in done
    ensures var p := Lifted(before, node, Members(done)); p.Keys == before.Keys && p[c] == node
    ensures Members(done + [c]) == Members(done) + {c}
    ensures Lifted(before, node, Members(done + [c])) == Lifted(before, node, Members(done))[c := before[node]]
    ensures Moves(done + [c], node) == Moves(done, node) + [SetParent(c, node)]
  {
    assert Members(done + [c]) == Members(done) + {c};
  }

  lemma LiftingEnds(before: Parents, node: Node, done: seq<Node>,
                    parent: map<Node, Node>, children: map<Node, set<Node>>)
    requires Rooted(before) && node in before && Lifting(before, node, done, parent, children)
    requires Members(done) == children[node]
    ensures parent - {node} == Apply(before, DeleteNode(node))
    ensures Inverse(parent - {node}, children - {node})
    ensures Undoes([SetParent(node, before[node])] + Moves(done, node), parent - {node}, before)
  {
    hide Undoes, Rooted, Apply, IsPath, ReachesRoot;
    DeleteThenLift(before, node);
    DeleteIsUndone(before, node, done);
    DeleteMissing(before, node);
    var p', c' := parent - {node}, children - {node};
    forall n, c | n in c'
      ensures c in c'[n] <==> c in p' && p'[c] == n
    {
    }
    assert c'.Keys == p'.Keys + {ROOT};
  }

  /** The state of the walk down the tree: the nodes seen so far, in the order they were seen,
      are the root, the expanded ones and those waiting on the stack. */
  ghost predicate Frontier(p: Parents, expanded: set<Node>, stack: seq<Node>, order: seq<Node>) {
    && ParentFirst(p, order) && Members(order) <= p.Keys
    && expanded <= p.Keys + {ROOT}
    && (forall x :: x in expanded || x in stack <==> x == ROOT || x in order)
    && (forall x :: x in expanded ==> x !in stack)
    && (forall i, j :: 0 <= i < j < |stack| ==> stack[i] != stack[j])
  }

  lemma FrontierStarts(p: Parents)
    requires Rooted(p)
    ensures Frontier(p, {}, [ROOT], []) && Adds(p, []) == []
    ensures ROOT !in p
  {
  }

  lemma FrontierPops(p: Parents, expanded: set<Node>, stack: seq<Node>, order: seq<Node>,
                     children: map<Node, set<Node>>)
    requires ROOT !in p && Frontier(p, expanded, stack, order) && Inverse(p, children) && stack != []
    requires forall c :: c in order <==> c in p && p[c] in expanded
    ensures Members(order) <= p.Keys
    ensures var n := stack[|stack| - 1];
            && n in children && n !in expanded && children[n] == ChildSet(p, n)
            && n in p.Keys + {ROOT}
            && Frontier(p, expanded + {n}, stack[..|stack| - 1], order)
            && (forall c :: c in order <==> c in p && p[c] in expanded + {n} && c !in children[n])
  {
    var n, rest := stack[|stack| - 1], stack[..|stack| - 1];
    assert stack == rest + [n];
    assert n in stack;
    assert n == ROOT || n in Members(order);
    ChildrenAre(p, children, n);
  }

  lemma FrontierEnds(p: Parents, expanded: set<Node>, order: seq<Node>)
    requires Rooted(p) && Frontier(p, expanded, [], order)
    requires forall c :: c in order <==> c in p && p[c] in expanded
    ensures Members(order) <= p.Keys
    ensures Undoes(Adds(p, order), map[], p)
  {
    forall x | x in p
      ensures x in order
    {
      var path := PathOf(p, x);
      ClosedSetIsAll(p, expanded, path);
    }
    assert Members(order) == p.Keys;
    ClearIsUndone(p, order);
  }

  lemma EmptyIsInverse()
    ensures Inverse(map[], map[ROOT := {}])
  {
  }

  lemma FrontierGrows(p: Parents, expanded: set<Node>, stack: seq<Node>, order: seq<Node>, c: Node)
    requires ROOT !in p && Frontier(p, expanded, stack, order)
    requires c in p && p[c] in expanded && c !in order
    ensures Frontier(p, expanded, stack + [c], order + [c])
    ensures Adds(p, order + [c]) == Adds(p, order) + [SetParent(c, p[c])]
  {
    hide Adds, ParentFirst, Members;
    MembersGrow(p, order, c);
    OrderGrows(p, order, c);
    AddsGrow(p, order, c);
  }

  lemma MembersGrow(p: Parents, order: seq<Node>, c: Node)
    requires Members(order) <= p.Keys && c in p
    ensures Members(order + [c]) <= p.Keys
  {
    assert forall x :: x in Members(order + [c]) ==> x in Members(order) || x == c;
  }

  lemma AddsGrow(p: Parents, order: seq<Node>, c: Node)
    requires Members(order) <= p.Keys && c in p && Members(order + [c]) <= p.Keys
    ensures Adds(p, order + [c]) == Adds(p, order) + [SetParent(c, p[c])]
  {
  }

  lemma OrderGrows(p: Parents, order: seq<Node>, c: Node)
    requires ParentFirst(p, order) && c in p && c !in order && (p[c] == ROOT || p[c] in order)
    ensures ParentFirst(p, order + [c])
  {
    var o := order + [c];
    forall i | 0 <= i < |o|
      ensures o[i] in p && o[i] !in o[..i] && (p[o[i]] == ROOT || p[o[i]] in o[..i])
    {
      if i < |order| {
        assert o[i] == order[i] && o[..i] == order[..i];
      } else {
        assert o[..i] == order;
      }
    }
  }

  ghost function Commands(s: seq<Element>): seq<Command> {
    seq(|s|, i requires 0 <= i < |s| => s[i].cmd)
  }

  lemma {:induction false} ReplayOfSum(s: seq<Element>, t: seq<Element>)
    ensures Replay(s + t) == ApplyAll(Replay(s), Commands(t))
    decreases |t|
  {
    if t == [] {
      assert s + t == s;
    } else {
      var t' := t[..|t| - 1];
      ReplayOfSum(s, t');
      assert (s + t)[..|s + t| - 1] == s + t';
      assert Commands(t)[..|t| - 1] == Commands(t');
    }
  }

  /** The undo list of the tail's i-th command is right when the tail starts from base. */
  ghost predicate Recorded(base: Parents, tail: seq<Element>, rev: map<Element, seq<Command>>, i: nat)
    requires i < |tail|
  {
    && tail[i] in rev
    && Undoes(rev[tail[i]], ApplyAll(base, Commands(tail[..i + 1])), ApplyAll(base, Commands(tail[..i])))
  }

  ghost predicate TailRecorded(base: Parents, tail: seq<Element>, rev: map<Element, seq<Command>>, n: nat)
    requires n <= |tail|
  {
    forall i :: 0 <= i < n ==> Recorded(base, tail, rev, i)
  }

  method FindAffected(tail: seq<Element>, reverse: map<Element, seq<Command>>) returns (affected: seq<Element>)
    requires SetOf(tail) <= reverse.Keys
    ensures affected == Affected(tail, reverse)
  {
    hide SetOf, Affected;
    affected := [];
    assert tail[0..] == tail;
    for i := 0 to |tail|
      invariant SetOf(tail[i..]) <= reverse.Keys
      invariant affected + Affected(tail[i..], reverse) == Affected(tail, reverse)
    {
      AffectedFirst(tail[i..], reverse);
      assert tail[i..][1..] == tail[i + 1..];
      ghost var rest := Affected(tail[i + 1..], reverse);
      if reverse[tail[i]] != [] {
        assert affected + ([tail[i]] + rest) == (affected + [tail[i]]) + rest;
        affected := affected + [tail[i]];
      } else {
        assert [] + rest == rest;
      }
    }
    AffectedNone(tail[|tail|..], reverse);
  }

  method CollectUndo(affected: seq<Element>, reverse: map<Element, seq<Command>>) returns (undo: seq<Command>)
    requires SetOf(affected) <= reverse.Keys
    ensures undo == RollbackOf(affected, reverse)
  {
    undo := [];
    for j := |affected| downto 0
      invariant SetOf(affected[j..]) <= reverse.Keys
      invariant undo == RollbackOf(affected[j..], reverse)
    {
      assert affected[j] in SetOf(affected);
      assert SetOf(affected[j..]) <= SetOf(affected);
      assert affected[j..][1..] == affected[j + 1..];
      undo := undo + reverse[affected[j]];
    }
    assert affected[0..] == affected;
  }

  lemma {:induction false} CommandsEmpty(base: Parents)
    ensures Commands([]) == [] && ApplyAll(base, []) == base
  {
  }

  lemma RedoOne(base: Parents, tail: seq<Element>, i: nat, r: map<Element, seq<Command>>, rev: seq<Command>,
                effective: seq<Command>)
    requires i < |tail| && TailRecorded(base, tail, r, i)
    requires forall i, j :: 0 <= i < j < |tail| ==> tail[i] != tail[j]
    requires var p := ApplyAll(base, Commands(tail[..i]));
             Undoes(rev, Apply(p, tail[i].cmd), p) && p == ApplyAll(base, effective)
    ensures TailRecorded(base, tail, r[tail[i] := rev], i + 1)
    ensures ApplyAll(base, Commands(tail[..i + 1])) == Apply(ApplyAll(base, Commands(tail[..i])), tail[i].cmd)
    ensures ApplyAll(base, Commands(tail[..i + 1]))
            == ApplyAll(base, if rev != [] then effective + [tail[i].cmd] else effective)
  {
    hide Apply, ApplyAll;
    var p, cmd := ApplyAll(base, Commands(tail[..i])), tail[i].cmd;
    assert Commands(tail[..i + 1]) == Commands(tail[..i]) + [cmd];
    ApplyAllAppend(base, Commands(tail[..i]), [cmd]);
    ApplyAllAppend(base, effective, [cmd]);
    ApplyAllOne(p, cmd);
    var r' := r[tail[i] := rev];
    forall j | 0 <= j < i + 1
      ensures Recorded(base, tail, r', j)
    {
      if j < i {
        assert Recorded(base, tail, r, j);
      }
    }
  }

  lemma PrefixStillRecorded(was: seq<Element>, now: seq<Element>, m: nat,
                            oldRev: map<Element, seq<Command>>, rev: map<Element, seq<Command>>, k: nat)
    requires k < m <= |was| && m <= |now| && was[..m] == now[..m]
    requires forall i, j :: 0 <= i < j < |now| ==> now[i] != now[j]
    requires UndoKnown(was, oldRev, k)
    requires forall e :: e in oldRev && e !in now[m..] ==> e in rev && rev[e] == oldRev[e]
    ensures UndoKnown(now, rev, k)
  {
    hide Undoes, Replay;
    assert was[..m][k] == now[..m][k];
    assert was[..m][..k] == was[..k] && now[..m][..k] == now[..k];
    assert was[..m][..k + 1] == was[..k + 1] && now[..m][..k + 1] == now[..k + 1];
  }

  lemma TailNowRecorded(now: seq<Element>, m: nat, rev: map<Element, seq<Command>>, k: nat)
    requires m <= k < |now|
    requires Recorded(Replay(now[..m]), now[m..], rev, k - m)
    ensures UndoKnown(now, rev, k)
  {
    hide Undoes, Replay, ApplyAll;
    var i := k - m;
    assert now[m..][i] == now[k];
    assert now[..k] == now[..m] + now[m..][..i];
    assert now[..k + 1] == now[..m] + now[m..][..i + 1];
    ReplayOfSum(now[..m], now[m..][..i]);
    ReplayOfSum(now[..m], now[m..][..i + 1]);
  }

  /** After the tail from m on was run again on the replay of the untouched prefix, the undo
      lists of the whole timeline are right. */
  lemma {:induction false} TimelineRebuilt(was: seq<Element>, now: seq<Element>, m: nat,
                        oldRev: map<Element, seq<Command>>, rev: map<Element, seq<Command>>)
    requires m <= |was| && m <= |now| && was[..m] == now[..m]
    requires forall i, j :: 0 <= i < j < |now| ==> now[i] != now[j]
    requires forall k :: 0 <= k < |was| ==> UndoKnown(was, oldRev, k)
    requires forall e :: e in oldRev && e !in now[m..] ==> e in rev && rev[e] == oldRev[e]
    requires TailRecorded(Replay(now[..m]), now[m..], rev, |now| - m)
    ensures forall k :: 0 <= k < |now| ==> UndoKnown(now, rev, k)
    ensures Replay(now) == ApplyAll(Replay(now[..m]), Commands(now[m..]))
  {
    hide UndoKnown, Recorded, Replay, ApplyAll;
    ReplayOfSum(now[..m], now[m..]);
    assert now == now[..m] + now[m..];
    forall k | 0 <= k < |now|
      ensures UndoKnown(now, rev, k)
    {
      if k < m {
        PrefixStillRecorded(was, now, m, oldRev, rev, k);
      } else {
        TailNowRecorded(now, m, rev, k);
      }
    }
  }

  /** Those elements, in their order, that the timeline does not hold yet. */
  ghost function NewOnes(s: seq<Element>, elts: seq<Element>): seq<Element> {
    if elts == [] then []
    else (if elts[0] in s then [] else [elts[0]]) + NewOnes(s, elts[1..])
  }

  lemma {:induction false} NewOnesAreNew(s: seq<Element>, elts: seq<Element>)
    ensures forall e :: e in NewOnes(s, elts) <==> e in elts && e !in s
  {
    if elts == [] {
    } else {
      NewOnesAreNew(s, elts[1..]);
      assert forall e :: e in elts <==> e == elts[0] || e in elts[1..];
      assert forall e :: e in NewOnes(s, elts) <==> e in NewOnes(s, elts[1..]) || (e == elts[0] && e !in s);
    }
  }

  /** The first new element is the least of the new ones. */
  ghost predicate FirstNewIsLeast(s: seq<Element>, elts: seq<Element>) {
    var n := NewOnes(s, elts);
    forall e :: e in n ==> !Less(e, n[0])
  }

  lemma {:induction false} NothingNew(was: seq<Element>, elts: seq<Element>)
    requires NewOnes(was, elts) == []
    ensures FirstNewIsLeast(was, elts)
    ensures SetOf(was) == SetOf(was) + SetOf(elts)
    ensures ApplyAll(Replay(was), []) == Replay(was)
  {
    NewOnesAreNew(was, elts);
  }

  /** What holds for the old and the new elements holds for the merged timeline. */
  lemma {:induction false} SubSane(was: seq<Element>, elts: seq<Element>, now: seq<Element>, tail: seq<Element>, counter: nat)
    requires Sane(was) && Sane(elts) && ClockCovers(was, counter) && ClockCovers(elts, counter)
    requires SetOf(now) == SetOf(was) + SetOf(NewOnes(was, elts))
    requires |tail| <= |now| && tail == now[|now| - |tail|..]
    ensures SetOf(now) == SetOf(was) + SetOf(elts)
    ensures Sane(now) && Sane(tail) && ClockCovers(now, counter)
  {
    NewOnesAreNew(was, elts);
    assert forall e :: e in now ==> e in SetOf(was) || e in SetOf(NewOnes(was, elts));
  }

  lemma AscendingIsDistinct(s: seq<Element>)
    requires StrictTotalOrder(Less)
    requires Ascending(Less, s)
    ensures forall i, j :: 0 <= i < j < |s| ==> s[i] != s[j]
  {
  }

  lemma CutInRange(s: seq<Element>, k: nat, x: Element)
    requires CutAt(s, k, x)
    ensures k <= |s|
  {
  }

  lemma SplitSet(was: seq<Element>, now: seq<Element>, m: nat)
    requires m <= |was| && m <= |now| && was[..m] == now[..m]
    ensures SetOf(now) <= SetOf(was) + SetOf(now[m..])
    ensures SetOf(now[m..]) <= SetOf(now)
  {
    assert now == was[..m] + now[m..];
    assert forall e :: e in was[..m] ==> e in was;
  }

  lemma SuffixIsDistinct(s: seq<Element>, tail: seq<Element>)
    requires StrictTotalOrder(Less) && Ascending(Less, s)
    requires |tail| <= |s| && tail == s[|s| - |tail|..]
    ensures forall i, j :: 0 <= i < j < |tail| ==> tail[i] != tail[j]
  {
    hide Less;
    var m := |s| - |tail|;
    assert forall i :: 0 <= i < |tail| ==> tail[i] == s[m + i];
  }

  lemma {:induction false} LeastKeepsPrefix(was: seq<Element>, elts: seq<Element>, now: seq<Element>, k: nat, m: nat)
    requires StrictTotalOrder(Less) && Ascending(Less, was) && Ascending(Less, now)
    requires SetOf(now) == SetOf(was) + SetOf(elts)
    requires var n := NewOnes(was, elts); n != [] && CutAt(was, k, n[0]) && CutAt(now, m, n[0])
    requires FirstNewIsLeast(was, elts)
    ensures k == m <= |was| && m <= |now| && was[..m] == now[..m]
    ensures forall e :: e in SetOf(now) <==> e in SetOf(was) || e in SetOf(now[m..])
  {
    hide StrictTotalOrder, Ascending, Less, CutAt;
    var n := NewOnes(was, elts);
    NewOnesAreNew(was, elts);
    forall e | Less(e, n[0])
      ensures e in was <==> e in now
    {
      assert e in SetOf(now) <==> e in SetOf(was) || e in SetOf(elts);
    }
    CutInRange(was, k, n[0]);
    CutInRange(now, m, n[0]);
    SamePrefix(was, k, now, m, n[0]);
    SplitSet(was, now, m);
    assert SetOf(was) <= SetOf(now);
  }

  /** When the first new element is the least, only the timeline from it on was affected. */
  lemma {:induction false} LeastIsConsistent(was: seq<Element>, elts: seq<Element>, now: seq<Element>, k: nat, m: nat,
                          oldRev: map<Element, seq<Command>>, rev: map<Element, seq<Command>>, counter: nat)
    requires StrictTotalOrder(Less) && Ascending(Less, was) && Ascending(Less, now)
    requires Consistent(was, Replay(was), oldRev, counter)
    requires Sane(now) && ClockCovers(now, counter)
    requires SetOf(now) == SetOf(was) + SetOf(elts)
    requires var n := NewOnes(was, elts); n != [] && CutAt(was, k, n[0]) && CutAt(now, m, n[0])
    requires FirstNewIsLeast(was, elts)
    requires rev.Keys == oldRev.Keys + SetOf(now[m..])
    requires forall e :: e in oldRev && e !in now[m..] ==> rev[e] == oldRev[e]
    requires TailRecorded(Replay(was[..k]), now[m..], rev, |now| - m)
    ensures Consistent(now, ApplyAll(Replay(was[..k]), Commands(now[m..])), rev, counter)
  {
    hide Undoes, Apply, ApplyAll, Replay, Recorded, UndoKnown, TailRecorded, StrictTotalOrder, Ascending, Less;
    hide CutAt, FirstNewIsLeast, NewOnes, Sane, ClockCovers, SetOf;
    LeastKeepsPrefix(was, elts, now, k, m);
    AscendingIsDistinct(now);
    TimelineRebuilt(was, now, m, oldRev, rev);
  }

  /** Otherwise a new element was slipped in below the replayed part and never ran. */
  lemma {:induction false} OtherIsInconsistent(was: seq<Element>, elts: seq<Element>, now: seq<Element>, m: nat,
                            oldRev: map<Element, seq<Command>>, rev: map<Element, seq<Command>>,
                            p: Parents, counter: nat)
    requires StrictTotalOrder(Less) && oldRev.Keys == SetOf(was)
    requires SetOf(now) == SetOf(was) + SetOf(elts)
    requires var n := NewOnes(was, elts); n != [] && CutAt(now, m, n[0])
    requires !FirstNewIsLeast(was, elts)
    requires rev.Keys == oldRev.Keys + SetOf(now[m..])
    ensures !Consistent(now, p, rev, counter)
  {
    NewOnesAreNew(was, elts);
    var n := NewOnes(was, elts);
    var e :| e in n && Less(e, n[0]);
    assert e in SetOf(elts) && e in SetOf(now);
    assert e !in now[m..];
    assert e !in rev.Keys;
  }

  /** A local operation adds the command it sent, if any, at the end of the timeline, under an
      index above the clock; otherwise nothing happens. */
  ghost predicate Issued(was: seq<Element>, c: nat, sent: Option<Element>, now: seq<Element>, c': nat) {
    match sent
    case None => now == was && c' == c
    case Some(e) => now == was + [e] && e.index.counter == c + 1 == c'
  }

  lemma MoveHere(p: Parents, n: Node)
    requires Rooted(p) && n in p
    ensures Apply(p, SetParent(n, p[n])) == p
  {
    assert p[n := p[n]] == p;
  }

  lemma ClockMayAdvance(s: seq<Element>, parent: Parents, reverse: map<Element, seq<Command>>, c: nat, c': nat)
    requires Consistent(s, parent, reverse, c) && c <= c'
    ensures Consistent(s, parent, reverse, c')
    ensures Sane(s) && ClockCovers(s, c')
  {
  }

  lemma LastIsAbove(s: seq<Element>, last: Element, e: Element)
    requires StrictTotalOrder(Less) && Less(last, e)
    requires forall z :: z in SetOf(s) ==> z == last || Less(z, last)
    ensures forall z :: z in s ==> Less(z, e)
    ensures e !in s
  {
    hide Less;
    assert forall z :: z in s ==> z in SetOf(s);
  }

  lemma OneIsLeast(s: seq<Element>, e: Element)
    requires StrictTotalOrder(Less)
    ensures FirstNewIsLeast(s, [e])
  {
    NewOnesAreNew(s, [e]);
  }

  lemma {:induction false} AscendingStartsLeast(s: seq<Element>, h: seq<Element>)
    requires StrictTotalOrder(Less)
    ensures Ascending(Less, h) ==> FirstNewIsLeast(s, h)
  {
    hide Less;
    if h != [] && Ascending(Less, h) {
      NewOnesAreNew(s, h);
      if h[0] in s {
        assert NewOnes(s, h) == NewOnes(s, h[1..]);
        AscendingStartsLeast(s, h[1..]);
      } else {
        assert NewOnes(s, h)[0] == h[0];
      }
    }
  }

  class CausalTree {
    const handler: CausalHandler
    const timeline: ListSet<Element>
    var parent: map<Node, Node>
    var children: map<Node, set<Node>>
    var reverse: map<Element, seq<Command>>

    /** The child sets are exactly the inverse of the parent links, and these form a tree. */
    ghost predicate Shape()
      reads this
    {
      Rooted(parent) && Inverse(parent, children)
    }

    /** The whole invariant: the tree is the replay of the sorted timeline, every undo list is on
        record, and the clock is not behind any command of the timeline. */
    ghost predicate Valid()
      reads this, timeline, handler
    {
      && timeline.Valid() && timeline.less == Less
      && Shape()
      && Consistent(timeline.list, parent, reverse, handler.counter)
    }

    constructor (handler: CausalHandler)
      ensures Valid() && fresh(timeline)
      ensures this.handler == handler && timeline.list == []
    {
      LessIsTotal();
      this.handler := handler;
      timeline := new ListSet(Less);
      reverse := map[];
      parent := map[];
      children := map[ROOT := {}];
    }

    /** Runs one command and returns the commands that undo it. */
    method Step(cmd: Command) returns (undo: seq<Command>)
      requires Shape()
      modifies this`parent, this`children
      ensures parent == Apply(old(parent), cmd)
      ensures Shape() <==> WellFormed(cmd) || !Known(old(parent), cmd.newParent)
      ensures WellFormed(cmd) ==> Undoes(undo, parent, old(parent))
      ensures cmd.SetParent? && cmd.node != ROOT ==>
                var moved := old(parent)[cmd.node := cmd.newParent]; parent == if Rooted(moved) then moved else old(parent)
      ensures cmd.DeleteNode? ==> if cmd.gone in old(parent) then Shortened(old(parent), parent, cmd.gone) else parent == old(parent)
      ensures cmd.Clear? ==> parent == map[]
    {
      hide Undoes, Shortened;
      ApplyKeepsRooted(parent, cmd);
      match cmd
      case SetParent(node, newParent) =>
        if node != ROOT { MoveIsExact(parent, node, newParent); }
        if newParent in children {
          if node in parent {
            undo := StepMove(node, newParent);
          } else {
            undo := StepAdd(node, newParent);
          }
        } else {
          undo := [];
          NothingToUndo(parent);
        }
      case DeleteNode(node) =>
        DeleteIsExact(parent, node);
        undo := StepDelete(node);
      case Clear =>
        undo := StepClear();
    }

    /** Moves a known node, unless it is already there or the move would make a cycle. */
    method StepMove(node: Node, newParent: Node) returns (undo: seq<Command>)
      requires Shape()
      requires node in parent && newParent in children
      modifies this`parent, this`children
      ensures parent == Apply(old(parent), SetParent(node, newParent))
      ensures Inverse(parent, children)
      ensures Undoes(undo, parent, old(parent))
    {
      hide Undoes, Rooted;
      ghost var p := parent;
      NothingToUndo(p);
      if parent[node] == newParent {
        assert p[node := newParent] == p;
        return [];
      }
      var above := AllParents(newParent);
      if node in above {
        return [];
      }
      var oldp := parent[node];
      ParentIsKnown(p, node);
      children := children[oldp := children[oldp] - {node}];
      children := children[newParent := children[newParent] + {node}];
      parent := parent[node := newParent];
      undo := [SetParent(node, oldp)];
      MoveUndo(p, node, newParent);
    }

    /** Adds an unknown node under a known one. */
    method StepAdd(node: Node, newParent: Node) returns (undo: seq<Command>)
      requires Shape()
      requires node !in parent && newParent in children
      modifies this`parent, this`children
      ensures parent == Apply(old(parent), SetParent(node, newParent))
      ensures node != ROOT ==> Inverse(parent, children)
      ensures node != ROOT ==> Undoes(undo, parent, old(parent))
    {
      hide Undoes, Rooted;
      ghost var p := parent;
      children := children[node := {}];
      children := children[newParent := children[newParent] + {node}];
      parent := parent[node := newParent];
      undo := [DeleteNode(node)];
      if node != ROOT {
        AddUndo(p, node, newParent);
        forall x | x in p
          ensures p[x] != node
        {
          ParentIsKnown(p, x);
        }
      }
    }

    /** The node and everything above it, found by climbing the parent links. */
    method AllParents(node: Node) returns (s: set<Node>)
      requires Rooted(parent) && Known(parent, node)
      ensures forall a :: a in s <==> AtOrAbove(parent, a, node)
    {
      ghost var path := PathOf(parent, node);
      ghost var i := 0;
      s := {};
      var n := node;
      while n != ROOT
        invariant 0 <= i < |path| && n == path[i]
        invariant forall a :: a in s <==> a in path[..i]
        decreases |path| - i
      {
        assert path[..i + 1] == path[..i] + [path[i]];
        s := s + {n};
        n := parent[n];
        i := i + 1;
      }
      s := s + {ROOT};
      assert i == |path| - 1;
      assert path == path[..i] + [ROOT];
      forall a
        ensures a in s <==> AtOrAbove(parent, a, node)
      {
        if AtOrAbove(parent, a, node) {
          var q :| IsPath(parent, node, q) && a in q;
          PathIsUnique(parent, node, path, q);
        }
      }
    }

    /** Deletes a node; its children move up to its parent, in whatever order the set yields them. */
    method StepDelete(node: Node) returns (undo: seq<Command>)
      requires Shape()
      modifies this`parent, this`children
      ensures parent == Apply(old(parent), DeleteNode(node))
      ensures Inverse(parent, children)
      ensures Undoes(undo, parent, old(parent))
    {
      hide Undoes, Rooted, Apply, Lifting, Moves;
      ghost var before := parent;
      NothingToUndo(before);
      DeleteMissing(before, node);
      if node == ROOT {
        return [];
      }
      if node !in children {
        return [];
      }
      var p := parent[node];
      LiftingStarts(before, node, children);
      ghost var done: seq<Node> := [];
      children := children[p := children[p] - {node}];
      undo := [SetParent(node, p)];
      LiftingChildren(before, node, done, parent, children);
      var rest := children[node];
      while rest != {}
        invariant Lifting(before, node, done, parent, children)
        invariant node in children && rest == children[node] - Members(done) && Members(done) <= children[node]
        invariant undo == [SetParent(node, p)] + Moves(done, node)
      {
        var c :| c in rest;
        LiftingContinues(before, node, done, parent, children, c);
        undo := undo + [SetParent(c, node)];
        children := children[p := children[p] + {c}];
        parent := parent[c := p];
        rest := rest - {c};
        done := done + [c];
        LiftingChildren(before, node, done, parent, children);
      }
      assert rest == {};
      assert forall c :: c in children[node] && c !in Members(done) ==> c in rest;
      LiftingEnds(before, node, done, parent, children);
      children := children - {node};
      parent := parent - {node};
    }

    /** Empties the tree; the undo list adds the nodes back from the root downwards. */
    method StepClear() returns (undo: seq<Command>)
      requires Shape()
      modifies this`parent, this`children
      ensures parent == map[]
      ensures Inverse(parent, children)
      ensures Undoes(undo, parent, old(parent))
    {
      hide Undoes, Rooted, Inverse, Frontier, Adds;
      ghost var p := parent;
      ghost var order: seq<Node> := [];
      ghost var expanded: set<Node> := {};
      undo := [];
      var stack := [ROOT];
      FrontierStarts(p);
      while stack != []
        invariant Frontier(p, expanded, stack, order)
        invariant forall c :: c in order <==> c in p && p[c] in expanded
        invariant parent == p && children == old(children)
        invariant undo == Adds(p, order)
        decreases p.Keys + {ROOT} - expanded
      {
        var n := stack[|stack| - 1];
        FrontierPops(p, expanded, stack, order, children);
        stack := stack[..|stack| - 1];
        expanded := expanded + {n};
        var rest := children[n];
        while rest != {}
          invariant rest <= ChildSet(p, n) && n in expanded
          invariant Frontier(p, expanded, stack, order)
          invariant forall c :: c in order <==> c in p && p[c] in expanded && c !in rest
          invariant parent == p && children == old(children)
          invariant undo == Adds(p, order)
        {
          var c :| c in rest;
          FrontierGrows(p, expanded, stack, order, c);
          undo := undo + [SetParent(c, n)];
          stack := stack + [c];
          order := order + [c];
          rest := rest - {c};
        }
      }
      FrontierEnds(p, expanded, order);
      parent := map[];
      children := map[ROOT := {}];
      EmptyIsInverse();
    }

    /** A command issued here gets an index above everything this replica has seen, so it may run
        at once on the current tree. */
    method ProcessLocalCmd(cmd: Command, salt: nat) returns (sent: Element)
      requires Valid() && WellFormed(cmd)
      modifies this, timeline, handler
      ensures Valid()
      ensures sent.cmd == cmd && sent.index == Index(old(handler.counter) + 1, salt)
      ensures timeline.list == old(timeline.list) + [sent]
      ensures parent == Apply(old(parent), cmd)
      ensures handler.counter == sent.index.counter
    {
      hide StrictTotalOrder, Consistent, Undoes, Apply, Rooted, Inverse, Less;
      ghost var was, p, r, c := timeline.list, parent, reverse, handler.counter;
      var i := handler.GetIndex(salt);
      sent := Element(i, cmd);
      ConsistentCovers(was, p, r, c);
      ClockIsAbove(was, c, sent);
      timeline.Add(sent);
      var rev := Step(cmd);
      reverse := reverse[sent := rev];
      AppendedIsConsistent(was, p, r, c, i.counter, sent, rev);
    }

    method NewElements(elts: seq<Element>) returns (newelts: seq<Element>)
      requires timeline.Valid()
      ensures newelts == NewOnes(timeline.list, elts)
    {
      newelts := [];
      for i := 0 to |elts|
        invariant newelts + NewOnes(timeline.list, elts[i..]) == NewOnes(timeline.list, elts)
      {
        assert elts[i..][1..] == elts[i + 1..];
        var known := timeline.Contains(elts[i]);
        if !known {
          newelts := newelts + [elts[i]];
        }
      }
    }

    /** The commands that take the tree back to before position k, the start of the tail. */
    method RollbackFrom(tail: seq<Element>, ghost k: nat) returns (rollback: seq<Command>)
      requires Valid()
      requires k <= |timeline.list| && tail == timeline.list[k..]
      ensures AllWellFormed(rollback)
      ensures ApplyAll(parent, rollback) == Replay(timeline.list[..k])
    {
      hide StrictTotalOrder, Consistent, Undoes, Apply, ApplyAll, Rooted, Inverse, Less, Replay, Ascending;
      ConsistentCovers(timeline.list, parent, reverse, handler.counter);
      assert forall e :: e in tail ==> e in SetOf(timeline.list);
      RollbackReaches(timeline.list, reverse, k);
      var affected := FindAffected(tail, reverse);
      rollback := CollectUndo(affected, reverse);
    }

    method Run(cmds: seq<Command>)
      requires Shape() && AllWellFormed(cmds)
      modifies this`parent, this`children
      ensures Shape() && parent == ApplyAll(old(parent), cmds)
    {
      for i := 0 to |cmds|
        invariant Shape() && parent == ApplyAll(old(parent), cmds[..i])
      {
        assert cmds[..i + 1] == cmds[..i] + [cmds[i]];
        ApplyAllAppend(old(parent), cmds[..i], [cmds[i]]);
        ApplyAllOne(parent, cmds[i]);
        var _ := Step(cmds[i]);
      }
      assert cmds[..|cmds|] == cmds;
    }

    /** Runs a tail of commands again and records how to undo each of them. */
    method Redo(tail: seq<Element>) returns (effective: seq<Command>)
      requires Shape() && Sane(tail)
      requires forall i, j :: 0 <= i < j < |tail| ==> tail[i] != tail[j]
      modifies this`parent, this`children, this`reverse
      ensures Shape()
      ensures AllWellFormed(effective)
      ensures parent == ApplyAll(old(parent), effective)
      ensures parent == ApplyAll(old(parent), Commands(tail))
      ensures reverse.Keys == old(reverse.Keys) + SetOf(tail)
      ensures forall e :: e in old(reverse) && e !in tail ==> reverse[e] == old(reverse[e])
      ensures TailRecorded(old(parent), tail, reverse, |tail|)
    {
      hide Undoes, Apply, ApplyAll, Rooted, Inverse, Recorded;
      effective := [];
      CommandsEmpty(parent);
      for i := 0 to |tail|
        invariant Shape()
        invariant AllWellFormed(effective)
        invariant parent == ApplyAll(old(parent), effective)
        invariant parent == ApplyAll(old(parent), Commands(tail[..i]))
        invariant reverse.Keys == old(reverse.Keys) + SetOf(tail[..i])
        invariant forall e :: e in old(reverse) && e !in tail ==> reverse[e] == old(reverse[e])
        invariant TailRecorded(old(parent), tail, reverse, i)
      {
        ghost var p, r := parent, reverse;
        var rev := Step(tail[i].cmd);
        reverse := reverse[tail[i] := rev];
        RedoOne(old(parent), tail, i, r, rev, effective);
        assert tail[..i + 1] == tail[..i] + [tail[i]];
        if rev != [] {
          effective := effective + [tail[i].cmd];
        }
      }
      assert tail[..|tail|] == tail;
    }

    /** Takes in elements that may belong anywhere in the timeline. Returns commands that lead
        from the old tree to the new one, or None when nothing was new. */
    method Antestep(elts: seq<Element>) returns (forward: Option<seq<Command>>)
      requires Valid()
      requires Sane(elts) && ClockCovers(elts, handler.counter)
      modifies this, timeline
      ensures timeline.Valid() && timeline.Elements() == old(timeline.Elements()) + SetOf(elts)
      ensures Shape()
      ensures Valid() <==> FirstNewIsLeast(old(timeline.list), elts)
      ensures forward.Some? <==> exists e :: e in elts && e !in old(timeline.list)
      ensures ApplyAll(old(parent), if forward.Some? then forward.value else []) == parent
      ensures var n := NewOnes(old(timeline.list), elts);
              if n == [] then parent == old(parent) else RedoneFrom(old(timeline.list), timeline.list, n[0], parent)
    {
      hide StrictTotalOrder, Consistent, Undoes, Apply, ApplyAll, Rooted, Inverse, Less, Replay, Ascending, NewOnes;
      hide FirstNewIsLeast, Recorded, Affected, RollbackOf;
      ghost var was, p, r, c := timeline.list, parent, reverse, handler.counter;
      ConsistentCovers(was, p, r, c);
      NewOnesAreNew(was, elts);
      var newelts := NewElements(elts);
      if newelts == [] {
        NothingNew(was, elts);
        return None;
      }
      var first := newelts[0];
      assert first in newelts;
      var tail := timeline.TailSet(first);
      ghost var k := |was| - |tail|;
      var rollback := RollbackFrom(tail, k);
      Run(rollback);
      var _ := timeline.Update(newelts);
      ghost var now := timeline.list;
      assert SetOf(now) == SetOf(was) + SetOf(newelts);
      var newTail := timeline.TailSet(first);
      ghost var m := |now| - |newTail|;
      SubSane(was, elts, now, newTail, c);
      SuffixIsDistinct(now, newTail);
      var effective := Redo(newTail);
      ApplyAllAppend(p, rollback, effective);
      forward := Some(rollback + effective);
      assert CutAt(was, k, first) && CutAt(now, m, first);
      if FirstNewIsLeast(was, elts) {
        LeastIsConsistent(was, elts, now, k, m, r, reverse, c);
      } else {
        OtherIsInconsistent(was, elts, now, m, r, reverse, parent, c);
      }
    }
  
    method ChangeParent(node: Node, newParent: Node, salt: nat) returns (ok: bool, sent: Option<Element>)
      requires Valid()
      modifies this, timeline, handler
      ensures Valid()
      // KeyError unless both nodes are known.
      ensures ok <==> node in old(parent) && Known(old(parent), newParent)
      ensures parent == if ok then Apply(old(parent), SetParent(node, newParent)) else old(parent)
      ensures sent.Some? <==> ok && old(parent)[node] != newParent
      ensures sent.Some? ==> sent.value.cmd == SetParent(node, newParent)
      ensures Issued(old(timeline.list), old(handler.counter), sent, timeline.list, handler.counter)
    {
      hide Consistent, Apply, IsPath;
      sent := None;
      if node in parent && newParent in children {
        ok := true;
        if parent[node] != newParent {
          var e := ProcessLocalCmd(SetParent(node, newParent), salt);
          sent := Some(e);
        } else {
          MoveHere(parent, node);
        }
      } else {
        ok := false;
      }
    }

    /** Adds a node under a name drawn from 64 random bits. */
    method NewChild(under: Node, drawn: Node, salt: nat) returns (sent: Element)
      requires Valid() && drawn != ROOT
      modifies this, timeline, handler
      ensures Valid()
      ensures parent == Apply(old(parent), SetParent(drawn, under))
      ensures sent.cmd == SetParent(drawn, under)
      ensures Issued(old(timeline.list), old(handler.counter), Some(sent), timeline.list, handler.counter)
    {
      hide Consistent, Apply, IsPath;
      sent := ProcessLocalCmd(SetParent(drawn, under), salt);
    }

    method Delete(node: Node, salt: nat) returns (sent: Option<Element>)
      requires Valid()
      modifies this, timeline, handler
      ensures Valid()
      // KeyError for the root and for an unknown node.
      ensures sent.Some? <==> node in old(parent)
      ensures parent == Apply(old(parent), DeleteNode(node))
      ensures sent.Some? ==> sent.value.cmd == DeleteNode(node)
      ensures Issued(old(timeline.list), old(handler.counter), sent, timeline.list, handler.counter)
    {
      hide Consistent;
      if node == ROOT || node !in children {
        return None;
      }
      var e := ProcessLocalCmd(DeleteNode(node), salt);
      sent := Some(e);
    }

    method ClearAll(salt: nat) returns (sent: Element)
      requires Valid()
      modifies this, timeline, handler
      ensures Valid()
      ensures parent == map[] && sent.cmd == Clear
      ensures Issued(old(timeline.list), old(handler.counter), Some(sent), timeline.list, handler.counter)
    {
      hide Consistent;
      sent := ProcessLocalCmd(Clear, salt);
    }

    /** A message of a peer. The handler advances its clock first; the tree then asks its timeline
        for its last element, which raises IndexError while the timeline is empty. */
    method ReceiveMessage(cmd: Command, i: Index) returns (ok: bool)
      requires Valid() && WellFormed(cmd)
      modifies this, timeline, handler
      ensures Valid()
      ensures ok <==> old(timeline.list) != []
      ensures timeline.Elements() == old(timeline.Elements()) + (if ok then {Element(i, cmd)} else {})
      ensures handler.counter == if old(handler.counter) < i.counter then i.counter else old(handler.counter)
    {
      hide StrictTotalOrder, Consistent, Undoes, Apply, Rooted, Inverse, Less, FirstNewIsLeast;
      ghost var s, p, r, c := timeline.list, parent, reverse, handler.counter;
      handler.Observe(i);
      ClockMayAdvance(s, p, r, c, handler.counter);
      if timeline.list == [] {
        return false;
      }
      ok := true;
      var elt := Element(i, cmd);
      var last := timeline.Last();
      if Less(last, elt) {
        LastIsAbove(s, last, elt);
        timeline.Add(elt);
        var rev := Step(cmd);
        reverse := reverse[elt := rev];
        AppendedIsConsistent(s, p, r, c, handler.counter, elt, rev);
      } else {
        OneIsLeast(s, elt);
        var _ := Antestep([elt]);
        assert SetOf([elt]) == {elt};
      }
    }

    /** Everything in the timeline, with a fresh index that is above all of it. */
    method GetHistory(salt: nat) returns (h: seq<Element>, i: Index)
      requires Valid()
      modifies handler
      ensures Valid() && handler.counter == old(handler.counter) + 1
      ensures h == timeline.list && Ascending(Less, h) && Sane(h) && ClockCovers(h, i.counter)
    {
      hide StrictTotalOrder, Undoes, Apply, Rooted, Inverse, Less, Ascending;
      h := timeline.list;
      ghost var c := handler.counter;
      i := handler.GetIndex(salt);
      ClockMayAdvance(h, parent, reverse, c, handler.counter);
    }

    /** Merges a peer's history. Ascending histories, which GetHistory makes, keep the invariant. */
    method AddHistory(h: seq<Element>, i: Index)
      requires Valid()
      requires Sane(h) && ClockCovers(h, i.counter)
      modifies this, timeline, handler
      ensures timeline.Valid() && timeline.Elements() == old(timeline.Elements()) + SetOf(h)
      ensures Valid() <==> FirstNewIsLeast(old(timeline.list), h)
      ensures Ascending(Less, h) ==> Valid()
    {
      hide StrictTotalOrder, Consistent, Undoes, Apply, Rooted, Inverse, Less, Ascending, FirstNewIsLeast;
      ghost var s, p, r, c := timeline.list, parent, reverse, handler.counter;
      handler.Observe(i);
      ClockMayAdvance(s, p, r, c, handler.counter);
      AscendingStartsLeast(s, h);
      var _ := Antestep(h);
    }
  }

  /** The tree depends only on which commands a replica holds, not on how or when they came. */
  lemma SameCommandsSameTree(a: CausalTree, b: CausalTree)
    requires a.Valid() && b.Valid()
    requires a.timeline.Elements() == b.timeline.Elements()
    ensures a.timeline.list == b.timeline.list
    ensures a.parent == b.parent && a.children == b.children
  {
    hide UndoKnown, Rooted, Inverse, Replay, Less;
    AscendingIsUnique(Less, a.timeline.list, b.timeline.list);
    InverseIsUnique(a.parent, a.children, b.children);
  }

  /** What can happen to a replica. The numbers named salt and drawn are the random bits used. */
  datatype Event =
    | Move(node: Node, to: Node, salt: nat)
    | New(under: Node, drawn: Node, salt: nat)
    | Remove(node: Node, salt: nat)
    | Empty(salt: nat)
    | Message(cmd: Command, index: Index)
    | History(h: seq<Element>, index: Index)

  /** What peers that run this code send: no move of the root, histories in timeline order under
      an index that covers them. */
  ghost predicate Possible(e: Event) {
    match e
    case New(_, drawn, _) => drawn != ROOT
    case Message(cmd, _) => WellFormed(cmd)
    case History(h, i) => Ascending(Less, h) && Sane(h) && ClockCovers(h, i.counter)
    case _ => true
  }

  ghost function Incoming(e: Event): set<Element> {
    match e
    case Message(cmd, i) => {Element(i, cmd)}
    case History(h, _) => SetOf(h)
    case _ => {}
  }

  ghost function AllIncoming(events: seq<Event>): set<Element> {
    set i, e | 0 <= i < |events| && e in Incoming(events[i]) :: e
  }

  lemma IncomingNext(events: seq<Event>, i: nat)
    requires i < |events|
    ensures AllIncoming(events[..i + 1]) == AllIncoming(events[..i]) + Incoming(events[i])
  {
    var next := events[..i + 1];
    forall e
      ensures e in AllIncoming(next) <==> e in AllIncoming(events[..i]) + Incoming(events[i])
    {
      if e in AllIncoming(events[..i]) {
        var j :| 0 <= j < i && e in Incoming(events[..i][j]);
        assert next[j] == events[..i][j];
      }
      if e in Incoming(events[i]) {
        assert next[i] == events[i];
      }
      if e in AllIncoming(next) {
        var j :| 0 <= j < i + 1 && e in Incoming(next[j]);
        assert j < i ==> next[j] == events[..i][j];
      }
    }
  }

  method Handle(t: CausalTree, e: Event) returns (sent: seq<Element>, lost: bool)
    requires t.Valid() && Possible(e)
    modifies t, t.timeline, t.handler
    ensures t.Valid()
    ensures lost <==> e.Message? && old(t.timeline.list) == []
    ensures t.timeline.Elements()
            == old(t.timeline.Elements()) + SetOf(sent) + (if lost then {} else Incoming(e))
    ensures e.New? || e.Empty? ==> sent != []
    ensures e.Message? || e.History? ==> sent == []
    ensures forall x :: x in sent ==> x.index.counter > old(t.handler.counter)
  {
    hide StrictTotalOrder, Consistent, Rooted, Inverse, Less, FirstNewIsLeast, Apply;
    ghost var was := t.timeline.list;
    sent, lost := [], false;
    match e
    case Move(node, to, salt) =>
      var _, s := t.ChangeParent(node, to, salt);
      sent := if s.Some? then [s.value] else [];
      IssuedSets(was, sent, t.timeline.list);
    case New(under, drawn, salt) =>
      var s := t.NewChild(under, drawn, salt);
      sent := [s];
      IssuedSets(was, sent, t.timeline.list);
    case Remove(node, salt) =>
      var s := t.Delete(node, salt);
      sent := if s.Some? then [s.value] else [];
      IssuedSets(was, sent, t.timeline.list);
    case Empty(salt) =>
      var s := t.ClearAll(salt);
      sent := [s];
      IssuedSets(was, sent, t.timeline.list);
    case Message(cmd, i) =>
      var ok := t.ReceiveMessage(cmd, i);
      lost := !ok;
    case History(h, i) =>
      t.AddHistory(h, i);
  }

  lemma IssuedSets(was: seq<Element>, sent: seq<Element>, now: seq<Element>)
    requires now == was + sent
    ensures SetOf(now) == SetOf(was) + SetOf(sent)
  {
  }

  lemma RunNext(events: seq<Event>, k: nat, i: nat)
    requires k <= i < |events|
    ensures AllIncoming(events[k..i + 1]) == AllIncoming(events[k..i]) + Incoming(events[i])
  {
    IncomingNext(events[k..], i - k);
    assert events[k..][..i - k] == events[k..i] && events[k..][..i - k + 1] == events[k..i + 1];
  }

  lemma NothingIncoming()
    ensures AllIncoming([]) == {}
  {
  }

  lemma SetOfSum(a: seq<Element>, b: seq<Element>)
    ensures SetOf(a + b) == SetOf(a) + SetOf(b)
    ensures SetOf(a) == {} <==> a == []
  {
    assert a != [] ==> a[0] in SetOf(a);
  }

  /** A whole run of a replica: in every order of local operations, messages and merges, with any
      repetitions, the invariant holds at the end, and the timeline holds exactly what was issued
      here and what came in. Only messages that reach a still empty timeline are lost: the
      leading events of the run, none of which gave the replica its first command. */
  method RunReplica(t: CausalTree, events: seq<Event>) returns (sent: seq<Element>, lost: nat)
    requires t.Valid()
    requires forall i :: 0 <= i < |events| ==> Possible(events[i])
    modifies t, t.timeline, t.handler
    ensures t.Valid()
    ensures lost <= |events|
    ensures forall i :: 0 <= i < lost ==> !events[i].New? && !events[i].Empty? && (events[i].History? ==> events[i].h == [])
    ensures old(t.timeline.list) != [] ==> lost == 0
    ensures t.timeline.Elements() == old(t.timeline.Elements()) + SetOf(sent) + AllIncoming(events[lost..])
  {
    hide StrictTotalOrder, Consistent, Rooted, Inverse, Less, FirstNewIsLeast, AllIncoming, Possible, SetOf;
    sent, lost := [], 0;
    SetOfSum([], []);
    NothingIncoming();
    assert events[0..0] == [];
    for i := 0 to |events|
      invariant t.Valid()
      invariant lost <= i
      invariant t.timeline.list == [] ==> lost == i && sent == []
      invariant t.timeline.list != [] || old(t.timeline.list) == []
      invariant old(t.timeline.list) != [] ==> lost == 0
      invariant forall j :: 0 <= j < lost ==> !events[j].New? && !events[j].Empty? && (events[j].History? ==> events[j].h == [])
      invariant t.timeline.Elements() == old(t.timeline.Elements()) + SetOf(sent) + AllIncoming(events[lost..i])
    {
      RunNext(events, lost, i);
      SetOfSum(t.timeline.list, []);
      if events[i].History? { SetOfSum(events[i].h, []); }
      var s, drop := Handle(t, events[i]);
      SetOfSum(t.timeline.list, s);
      SetOfSum(s, []);
      SetOfSum(sent, s);
      sent := sent + s;
      if t.timeline.list == [] {
        lost := i + 1;
        assert events[lost..i + 1] == [];
      }
    }
    assert events[lost..|events|] == events[lost..];
  }

  /** Two replicas that went through any runs and hold the same commands hold the same tree. */
  method RunTwo(a: CausalTree, ea: seq<Event>, b: CausalTree, eb: seq<Event>)
    requires a.Valid() && b.Valid() && a != b && a.timeline != b.timeline && a.handler != b.handler
    requires forall i :: 0 <= i < |ea| ==> Possible(ea[i])
    requires forall i :: 0 <= i < |eb| ==> Possible(eb[i])
    modifies a, a.timeline, a.handler, b, b.timeline, b.handler
    ensures a.Valid() && b.Valid()
    ensures a.timeline.Elements() == b.timeline.Elements() ==> a.parent == b.parent && a.children == b.children
  {
    hide StrictTotalOrder, Consistent, Rooted, Inverse, Less, Possible, AllIncoming;
    var _, _ := RunReplica(a, ea);
    var _, _ := RunReplica(b, eb);
    if a.timeline.Elements() == b.timeline.Elements() {
      SameCommandsSameTree(a, b);
    }
  }

  /** Two replicas that exchange their histories end up with the same tree, which is the replay
      of both sets of commands. */
  method Exchange(a: CausalTree, b: CausalTree, saltA: nat, saltB: nat)
    requires a.Valid() && b.Valid() && a != b && a.timeline != b.timeline && a.handler != b.handler
    modifies a, a.timeline, a.handler, b, b.timeline, b.handler
    ensures a.Valid() && b.Valid()
    ensures a.timeline.Elements() == old(a.timeline.Elements()) + old(b.timeline.Elements())
    ensures a.timeline.list == b.timeline.list
    ensures a.parent == b.parent && a.children == b.children
  {
    hide StrictTotalOrder, Consistent, Rooted, Inverse, Less, Ascending, FirstNewIsLeast;
    var ha, ia := a.GetHistory(saltA);
    var hb, ib := b.GetHistory(saltB);
    a.AddHistory(hb, ib);
    b.AddHistory(ha, ia);
    SameCommandsSameTree(a, b);
  }

  /** The conditions above are needed: a history out of order, and a move of the root. Of a history
      out of order, taken in by an empty tree, only the part from its first element on is run, here
      without the parent it needs. */
  lemma UnsortedHistoryIsNotLeast()
    ensures var first, second := Element(Index(2, 0), SetParent(7, 5)), Element(Index(1, 0), SetParent(5, ROOT));
            && NewOnes([], [first, second]) == [first, second] && !FirstNewIsLeast([], [first, second])
            && Ascending(Less, [second, first]) && Replay([second, first]) == map[5 := ROOT, 7 := 5]
            && forall p :: RedoneFrom([], [second, first], first, p) ==> p == map[]
  {
    var first, second := Element(Index(2, 0), SetParent(7, 5)), Element(Index(1, 0), SetParent(5, ROOT));
    var now := [second, first];
    assert now[..1] == [second] && now[..2] == now && now[..0] == [];
    ReplayNext(now, 0);
    ReplayNext(now, 1);
    assert NewOnes([], [first, second][1..]) == [second] by { assert [second][1..] == []; }
    assert Less(second, first);
    forall p | RedoneFrom([], now, first, p)
      ensures p == map[]
    {
      var was: seq<Element> := [];
      var k: nat, m: nat :| CutAt(was, k, first) && CutAt(now, m, first) && p == ApplyAll(Replay(was[..k]), Commands(now[m..]));
      assert k == 0 && m == 1 && now[m..] == [first] && was[..k] == [];
      ApplyAllOne(map[], first.cmd);
      assert Commands([first]) == [first.cmd];
    }
  }

  lemma RootMoveBreaksTree()
    ensures Rooted(map[5 := ROOT]) && !Rooted(Apply(map[5 := ROOT], SetParent(ROOT, 5)))
  {
    assert IsPath(map[5 := ROOT], 5, [5, ROOT]);
  }
}
