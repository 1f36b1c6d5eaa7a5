/** What the commands of a causal tree mean, stated on the parent relation alone. */
module TreeCommands {

  type Node = nat
  const ROOT: Node := 0

  datatype Command =
    | SetParent(node: Node, newParent: Node)
    | DeleteNode(gone: Node)
    | Clear

  type Parents = map<Node, Node>

  /** path leads from n upwards to the root. */
  ghost predicate IsPath(p: Parents, n: Node, path: seq<Node>) {
    && path != [] && path[0] == n && path[|path| - 1] == ROOT
    && forall i :: 0 <= i < |path| - 1 ==> path[i] != ROOT && path[i] in p && p[path[i]] == path[i + 1]
  }

  ghost predicate ReachesRoot(p: Parents, n: Node) {
    exists path :: IsPath(p, n, path)
  }

  /** Every node reaches the root, which itself has no parent: p is a tree. */
  ghost predicate Rooted(p: Parents) {
    && ROOT !in p
    && forall n :: n in p ==> ReachesRoot(p, n)
  }

  predicate Known(p: Parents, n: Node) {
    n == ROOT || n in p
  }

  /** a is n or one of the nodes above it. */
  ghost predicate AtOrAbove(p: Parents, a: Node, n: Node) {
    exists path :: IsPath(p, n, path) && a in path
  }

  /** The tree after a command; a command that is illegal changes nothing. */
  ghost function Apply(p: Parents, c: Command): Parents {
    match c
    case SetParent(n, to) =>
      if !Known(p, to) then p
      else if n in p && AtOrAbove(p, n, to) then p
      else p[n := to]
    case DeleteNode(n) =>
      if n !in p then p
      else map x | x in p && x != n :: if p[x] == n then p[n] else p[x]
    case Clear => map[]
  }

  ghost function ApplyAll(p: Parents, cmds: seq<Command>): Parents
    decreases |cmds|
  {
    if cmds == [] then p else Apply(ApplyAll(p, cmds[..|cmds| - 1]), cmds[|cmds| - 1])
  }

  /** The local operations never move the root, and no peer sends such a command. */
  predicate WellFormed(c: Command) {
    c.SetParent? ==> c.node != ROOT
  }

  ghost predicate AllWellFormed(cmds: seq<Command>) {
    forall c :: c in cmds ==> WellFormed(c)
  }

  /** undo leads from after back to before, and is empty only if there is nothing to undo. */
  ghost predicate Undoes(undo: seq<Command>, after: Parents, before: Parents) {
    && AllWellFormed(undo)
    && ApplyAll(after, undo) == before
    && (undo == [] <==> after == before)
  }

  lemma NothingToUndo(p: Parents)
    ensures Undoes([], p, p)
  {
  }

  lemma {:induction false} ApplyAllAppend(p: Parents, a: seq<Command>, b: seq<Command>)
    ensures ApplyAll(p, a + b) == ApplyAll(ApplyAll(p, a), b)
    decreases |b|
  {
    if b == [] {
      assert a + b == a;
    } else {
      ApplyAllAppend(p, a, b[..|b| - 1]);
      assert (a + b)[..|a + b| - 1] == a + b[..|b| - 1];
    }
  }

  lemma {:induction false} ApplyAllOne(p: Parents, c: Command)
    ensures ApplyAll(p, [c]) == Apply(p, c)
  {
    assert [c][..0] == [];
    assert ApplyAll(p, []) == p;
  }

  lemma {:induction false} PathIsUnique(p: Parents, n: Node, a: seq<Node>, b: seq<Node>)
    requires ROOT !in p
    requires IsPath(p, n, a) && IsPath(p, n, b)
    ensures a == b
    decreases |a|
  {
    if n == ROOT {
      assert forall q :: IsPath(p, ROOT, q) && |q| > 1 ==> q[0] in p;
    } else {
      assert a[0] in p && p[a[0]] == a[1] && p[b[0]] == b[1];
      assert IsPath(p, a[1], a[1..]) && IsPath(p, a[1], b[1..]);
      PathIsUnique(p, a[1], a[1..], b[1..]);
      assert a == [a[0]] + a[1..] && b == [b[0]] + b[1..];
    }
  }

  /** No node lies on its own path twice: parent links have no cycle. */
  lemma PathHasNoRepetition(p: Parents, n: Node, path: seq<Node>, i: nat, j: nat)
    requires ROOT !in p
    requires IsPath(p, n, path)
    requires i < j < |path|
    ensures path[i] != path[j]
  {
    if path[i] == path[j] {
      PathIsUnique(p, path[i], path[i..], path[j..]);
    }
  }

  lemma PathIsKnown(p: Parents, n: Node, path: seq<Node>)
    requires IsPath(p, n, path)
    ensures forall x :: x in path ==> Known(p, x)
  {
  }

  lemma PathOf(p: Parents, n: Node) returns (path: seq<Node>)
    requires Rooted(p) && Known(p, n)
    ensures IsPath(p, n, path)
  {
    if n == ROOT {
      path := [ROOT];
    } else {
      path :| IsPath(p, n, path);
    }
  }

  lemma ParentIsKnown(p: Parents, n: Node)
    requires Rooted(p) && n in p
    ensures Known(p, p[n]) && p[n] != n && !AtOrAbove(p, n, p[n])
  {
    var path := PathOf(p, n);
    assert path[0] in p && p[path[0]] == path[1];
    if 1 < |path| - 1 {
      assert path[1] in p;
    }
    PathHasNoRepetition(p, n, path, 0, 1);
    if AtOrAbove(p, n, p[n]) {
      var q :| IsPath(p, p[n], q) && n in q;
      assert IsPath(p, n, [n] + q);
      var k :| 0 <= k < |q| && q[k] == n;
      PathHasNoRepetition(p, n, [n] + q, 0, k + 1);
    }
  }

  /** Links that agree with p along a path keep that path. */
  lemma {:induction false} MoveKeepsPaths(p: Parents, n: Node, to: Node, path: seq<Node>)
    requires Rooted(p) && Known(p, to) && n != ROOT
    requires n in p ==> !AtOrAbove(p, n, to)
    requires path != [] && IsPath(p, path[0], path)
    ensures ReachesRoot(p[n := to], path[0])
    decreases |path|
  {
    var p' := p[n := to];
    if path[0] == n {
      var up := PathOf(p, to);
      PathIsKnown(p, to, up);
      assert IsPath(p', n, [n] + up);
    } else if |path| == 1 {
      assert IsPath(p', ROOT, path);
    } else {
      assert path[0] in p && p[path[0]] == path[1];
      assert IsPath(p, path[1], path[1..]);
      MoveKeepsPaths(p, n, to, path[1..]);
      var q :| IsPath(p', path[1], q);
      assert IsPath(p', path[0], [path[0]] + q);
    }
  }

  ghost function Without(path: seq<Node>, n: Node): seq<Node>
    decreases |path|
  {
    if path == [] then [] else (if path[0] == n then [] else [path[0]]) + Without(path[1..], n)
  }

  lemma WithoutNext(path: seq<Node>, n: Node)
    requires |path| > 1 && path[0] != n
    ensures Without(path, n) == [path[0]] + Without(if path[1] == n then path[2..] else path[1..], n)
  {
    assert path[1..][1..] == path[2..];
  }

  lemma PathTail(p: Parents, path: seq<Node>)
    requires |path| > 1 && IsPath(p, path[0], path)
    ensures path[0] != ROOT && path[0] in p && p[path[0]] == path[1] && IsPath(p, path[1], path[1..])
  {
    assert path[0] in p;
  }

  lemma PathGrows(p: Parents, n: Node, path: seq<Node>)
    requires n != ROOT && n in p && IsPath(p, p[n], path)
    ensures IsPath(p, n, [n] + path)
  {
  }

  /** Deleting a node takes it out of every path, and changes no path otherwise. */
  lemma {:induction false} DeleteShortensPaths(p: Parents, n: Node, path: seq<Node>)
    requires Rooted(p) && n in p
    requires path != [] && IsPath(p, path[0], path) && path[0] != n
    ensures IsPath(Apply(p, DeleteNode(n)), path[0], Without(path, n))
    decreases |path|
  {
    var p' := Apply(p, DeleteNode(n));
    if |path| == 1 {
      assert path[1..] == [] && Without(path, n) == path;
      assert IsPath(p', ROOT, path);
    } else {
      hide IsPath, Without, Rooted;
      WithoutNext(path, n);
      PathTail(p, path);
      var rest := if path[1] == n then path[2..] else path[1..];
      if path[1] == n {
        ParentIsKnown(p, n);
        KnownGoesOn(p, path[1..]);
        PathTail(p, path[1..]);
        assert path[1..][1..] == rest;
      } else {
        PathStarts(p, path[1], path[1..]);
      }
      DeleteShortensPaths(p, n, rest);
      PathGrows(p', path[0], Without(rest, n));
    }
  }

  lemma KnownGoesOn(p: Parents, path: seq<Node>)
    requires Rooted(p) && path != [] && path[0] in p && IsPath(p, path[0], path)
    ensures |path| > 1
  {
  }

  /** A command keeps the tree a tree, unless it gives the root a parent. */
  lemma ApplyKeepsRooted(p: Parents, c: Command)
    requires Rooted(p)
    ensures Rooted(Apply(p, c)) <==> WellFormed(c) || !Known(p, c.newParent)
  {
    var p' := Apply(p, c);
    match c
    case SetParent(n, to) =>
      if p' != p && n != ROOT {
        forall x | x in p'
          ensures ReachesRoot(p', x)
        {
          if x == n {
            var up := PathOf(p, to);
            if n in p {
              var path := PathOf(p, n);
              MoveKeepsPaths(p, n, to, path);
            } else {
              PathIsKnown(p, to, up);
              assert IsPath(p', n, [n] + up);
            }
          } else {
            var path := PathOf(p, x);
            MoveKeepsPaths(p, n, to, path);
          }
        }
      }
    case DeleteNode(n) =>
      if n in p {
        forall x | x in p'
          ensures ReachesRoot(p', x)
        {
          var path := PathOf(p, x);
          DeleteShortensPaths(p, n, path);
        }
      }
    case Clear =>
  }

  /** A node other than the root is moved or added if that leaves a tree; otherwise nothing changes. */
  lemma MoveIsExact(p: Parents, n: Node, to: Node)
    requires Rooted(p) && n != ROOT
    ensures Apply(p, SetParent(n, to)) == if Rooted(p[n := to]) then p[n := to] else p
  {
    var moved := p[n := to];
    ApplyKeepsRooted(p, SetParent(n, to));
    if Rooted(moved) {
      var path := PathOf(moved, n);
      assert path[0] in moved && moved[path[0]] == path[1];
      forall i | 1 <= i < |path|
        ensures path[i] != n
      {
        PathHasNoRepetition(moved, n, path, 0, i);
      }
      forall i | 1 <= i < |path| - 1
        ensures path[i] != ROOT && path[i] in p && p[path[i]] == path[i + 1]
      {
        assert path[i] in moved && moved[path[i]] == path[i + 1];
      }
      assert IsPath(p, to, path[1..]);
      PathIsKnown(p, to, path[1..]);
      if AtOrAbove(p, n, to) {
        var q :| IsPath(p, to, q) && n in q;
        PathIsUnique(p, to, q, path[1..]);
      }
    }
  }

  /** A deleted node takes no other with it; the paths of the others lose just that node. An unknown
      one, and the root, cannot be deleted. */
  lemma DeleteIsExact(p: Parents, n: Node)
    requires Rooted(p)
    ensures n !in p ==> Apply(p, DeleteNode(n)) == p
    ensures n in p ==> Shortened(p, Apply(p, DeleteNode(n)), n)
  {
    hide Rooted, IsPath, Without;
    forall x, path | n in p && x != n && IsPath(p, x, path)
      ensures IsPath(Apply(p, DeleteNode(n)), x, Without(path, n))
    {
      PathStarts(p, x, path);
      DeleteShortensPaths(p, n, path);
    }
  }

  lemma PathStarts(p: Parents, n: Node, path: seq<Node>)
    requires IsPath(p, n, path)
    ensures path != [] && path[0] == n
  {
  }

  ghost predicate Shortened(p: Parents, p': Parents, n: Node) {
    && p'.Keys == p.Keys - {n}
    && forall x, path :: x != n && IsPath(p, x, path) ==> IsPath(p', x, Without(path, n))
  }

  /** Moving a node that was not redundantly placed is undone by moving it back. */
  lemma MoveIsUndone(p: Parents, n: Node, to: Node)
    requires Rooted(p) && n in p && Known(p, to) && !AtOrAbove(p, n, to)
    ensures Apply(p[n := to], SetParent(n, p[n])) == p
  {
    var p', q := p[n := to], p[n];
    ParentIsKnown(p, n);
    if AtOrAbove(p', n, q) && q != to {
      // A path of q in the new tree through n would be cyclic in the old one.
      var up := PathOf(p, q);
      assert n !in up;
      assert IsPath(p', q, up);
      var cyc :| IsPath(p', q, cyc) && n in cyc;
      PathIsUnique(p', q, up, cyc);
    }
    if q == to {
      assert p' == p;
    } else {
      assert p'[n := q] == p;
    }
  }

  lemma MoveUndo(p: Parents, n: Node, to: Node)
    requires Rooted(p) && n in p && p[n] != to && Known(p, to) && !AtOrAbove(p, n, to)
    ensures Undoes([SetParent(n, p[n])], p[n := to], p)
  {
    MoveIsUndone(p, n, to);
    ApplyAllOne(p[n := to], SetParent(n, p[n]));
    assert p[n := to][n] != p[n];
  }

  lemma AddUndo(p: Parents, n: Node, to: Node)
    requires Rooted(p) && n !in p && n != ROOT && Known(p, to)
    ensures Undoes([DeleteNode(n)], p[n := to], p)
  {
    forall x | x in p
      ensures p[x] != n
    {
      ParentIsKnown(p, x);
    }
    assert Apply(p[n := to], DeleteNode(n)) == p;
    ApplyAllOne(p[n := to], DeleteNode(n));
    assert n in p[n := to];
  }

  /** The tree in which the children r of n hang from n's own parent. */
  ghost function Lifted(p: Parents, n: Node, r: set<Node>): Parents
    requires n in p
  {
    map x | x in p :: if x in r then p[n] else p[x]
  }

  ghost function ChildSet(p: Parents, n: Node): set<Node> {
    set c | c in p && p[c] == n
  }

  lemma DeleteThenAddBack(p: Parents, n: Node)
    requires Rooted(p) && n in p
    ensures Apply(Apply(p, DeleteNode(n)), SetParent(n, p[n])) == Lifted(p, n, ChildSet(p, n))
  {
    ParentIsKnown(p, n);
  }

  lemma DeleteMissing(p: Parents, n: Node)
    requires Rooted(p)
    ensures ROOT !in p
    ensures n !in p ==> Apply(p, DeleteNode(n)) == p
  {
  }

  lemma DeleteThenLift(p: Parents, n: Node)
    requires n in p
    ensures Apply(p, DeleteNode(n)) == Lifted(p, n, ChildSet(p, n)) - {n}
  {
  }

  /** Putting one lifted child back under n is always legal. */
  lemma LowerOneChild(p: Parents, n: Node, r: set<Node>, c: Node)
    requires Rooted(p) && n in p && r <= ChildSet(p, n) && c in r
    ensures Apply(Lifted(p, n, r), SetParent(c, n)) == Lifted(p, n, r - {c})
  {
    var t := Lifted(p, n, r);
    var path := PathOf(p, n);
    forall x | x in r
      ensures !AtOrAbove(p, x, n)
    {
      ParentIsKnown(p, x);
    }
    assert forall a :: a in path ==> AtOrAbove(p, a, n);
    assert ROOT !in t;
    assert IsPath(t, n, path);
    if AtOrAbove(t, c, n) {
      var q :| IsPath(t, n, q) && c in q;
      PathIsUnique(t, n, path, q);
    }
    assert t[c := n] == Lifted(p, n, r - {c});
  }

  /** Commands that hang the nodes cs, in this order, under n. */
  ghost function Moves(cs: seq<Node>, n: Node): seq<Command> {
    seq(|cs|, i requires 0 <= i < |cs| => SetParent(cs[i], n))
  }

  ghost function Members(cs: seq<Node>): set<Node> {
    set c | c in cs
  }

  lemma {:induction false} LowerChildren(p: Parents, n: Node, cs: seq<Node>)
    requires Rooted(p) && n in p && Members(cs) <= ChildSet(p, n)
    requires forall i, j :: 0 <= i < j < |cs| ==> cs[i] != cs[j]
    ensures ApplyAll(Lifted(p, n, ChildSet(p, n)), Moves(cs, n)) == Lifted(p, n, ChildSet(p, n) - Members(cs))
    decreases |cs|
  {
    var all := ChildSet(p, n);
    if cs == [] {
      assert all - Members(cs) == all;
    } else {
      var most, last := cs[..|cs| - 1], cs[|cs| - 1];
      assert Members(cs) == Members(most) + {last};
      assert last in all - Members(most);
      LowerChildren(p, n, most);
      LowerOneChild(p, n, all - Members(most), last);
      assert all - Members(most) - {last} == all - Members(cs);
      assert Moves(cs, n)[..|cs| - 1] == Moves(most, n);
    }
  }

  /** Adding the node back and then moving its children under it, in any order, undoes a
      deletion. */
  lemma DeleteIsUndone(p: Parents, n: Node, cs: seq<Node>)
    requires Rooted(p) && n in p && Members(cs) == ChildSet(p, n)
    requires forall i, j :: 0 <= i < j < |cs| ==> cs[i] != cs[j]
    ensures Undoes([SetParent(n, p[n])] + Moves(cs, n), Apply(p, DeleteNode(n)), p)
  {
    var after, back := Apply(p, DeleteNode(n)), SetParent(n, p[n]);
    assert n !in after;
    DeleteThenAddBack(p, n);
    ApplyAllOne(after, back);
    ApplyAllAppend(after, [back], Moves(cs, n));
    LowerChildren(p, n, cs);
    assert Lifted(p, n, ChildSet(p, n) - Members(cs)) == p;
  }

  /** The nodes of order are known and each comes after its parent. */
  ghost predicate ParentFirst(p: Parents, order: seq<Node>) {
    forall i :: 0 <= i < |order| ==>
      && order[i] in p && order[i] !in order[..i]
      && (p[order[i]] == ROOT || p[order[i]] in order[..i])
  }

  ghost function Adds(p: Parents, order: seq<Node>): seq<Command>
    requires Members(order) <= p.Keys
  {
    seq(|order|, i requires 0 <= i < |order| =>
      assert order[i] in Members(order);
      SetParent(order[i], p[order[i]]))
  }

  ghost function Restrict(p: Parents, e: set<Node>): Parents {
    map x | x in p && x in e :: p[x]
  }

  lemma ParentFirstPrefix(p: Parents, order: seq<Node>)
    requires ParentFirst(p, order) && order != []
    ensures ParentFirst(p, order[..|order| - 1])
    ensures order[|order| - 1] !in order[..|order| - 1]
  {
    var most := order[..|order| - 1];
    forall i | 0 <= i < |most|
      ensures most[..i] == order[..i] && most[i] == order[i]
    {
    }
  }

  lemma AddOne(p: Parents, e: set<Node>, n: Node)
    requires ROOT !in p && n in p && n !in e && (p[n] == ROOT || (p[n] in e && p[n] in p))
    ensures Apply(Restrict(p, e), SetParent(n, p[n])) == Restrict(p, e + {n})
  {
    assert Restrict(p, e)[n := p[n]] == Restrict(p, e + {n});
  }

  lemma {:induction false} AddsRestore(p: Parents, order: seq<Node>)
    requires ROOT !in p && ParentFirst(p, order)
    ensures Members(order) <= p.Keys
    ensures ApplyAll(map[], Adds(p, order)) == Restrict(p, Members(order))
    decreases |order|
  {
    if order == [] {
    } else {
      var most, last := order[..|order| - 1], order[|order| - 1];
      ParentFirstPrefix(p, order);
      AddsRestore(p, most);
      assert Members(order) == Members(most) + {last};
      assert Adds(p, order)[..|order| - 1] == Adds(p, most);
      AddOne(p, Members(most), last);
    }
  }

  /** Adding every node, parents first, undoes the clearing of a tree. */
  lemma ClearIsUndone(p: Parents, order: seq<Node>)
    requires ROOT !in p && ParentFirst(p, order) && Members(order) == p.Keys
    ensures Undoes(Adds(p, order), map[], p)
  {
    AddsRestore(p, order);
    assert Restrict(p, Members(order)) == p;
    if order == [] {
      assert Members(order) == {};
    } else {
      assert order[0] in Members(order);
    }
  }

  /** A set that holds the root and, with each node, all its children, is everything. */
  lemma {:induction false} ClosedSetIsAll(p: Parents, s: set<Node>, path: seq<Node>)
    requires ROOT in s && forall c :: c in p && p[c] in s ==> c in s
    requires path != [] && IsPath(p, path[0], path)
    ensures path[0] in s
    decreases |path|
  {
    if |path| > 1 {
      assert path[0] in p && p[path[0]] == path[1];
      assert IsPath(p, path[1], path[1..]);
      ClosedSetIsAll(p, s, path[1..]);
    }
  }
}
