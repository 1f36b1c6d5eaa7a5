/** The replicated dictionary: the assignment or deletion with the greatest index wins, deleted keys
    are remembered, and a clear takes everything with a smaller index away for good. */
module CausalDicts {
  import opened Clocks
  import opened Options

  datatype Op<K, V> = Add(key: K, value: V) | Delete(key: K) | Clear

  /** A message is a list of operations under one index. */
  datatype Message<K, V> = Message(ops: seq<Op<K, V>>, index: Index)

  datatype State<!K, V> = State(dict: map<K, V>, indices: map<K, Index>, horizon: Index)

  function Empty<K, V>(start: Index): State<K, V> {
    State(map[], map[], start)
  }

  function Nothing<K, V>(n: Index): Message<K, V> {
    Message([], n)
  }

  // -------------------------------------------------------------------------
  // What a set of messages says
  // -------------------------------------------------------------------------

  predicate Clears<K, V>(ops: seq<Op<K, V>>) {
    exists i :: 0 <= i < |ops| && ops[i].Clear?
  }

  /** The first operation on a key in a list; later ones lose against it. */
  function First<K(==), V>(ops: seq<Op<K, V>>, k: K): Option<Op<K, V>> {
    if ops == [] then None
    else
      var f := First(ops[..|ops| - 1], k);
      var last := ops[|ops| - 1];
      if f.None? && !last.Clear? && last.key == k then Some(last) else f
  }

  /** Is the message beyond the horizon, or the one that set it? */
  ghost predicate Survives<K, V>(m: Message<K, V>, horizon: Index) {
    IndexLess(horizon, m.index) || (horizon == m.index && Clears(m.ops))
  }

  ghost predicate Touches<K, V>(m: Message<K, V>, k: K, horizon: Index) {
    Survives(m, horizon) && First(m.ops, k).Some?
  }

  /** m has the last word on k. */
  ghost predicate Wins<K, V>(ms: set<Message<K, V>>, m: Message<K, V>, k: K, horizon: Index) {
    m in ms && Touches(m, k, horizon) && forall x :: x in ms && Touches(x, k, horizon) ==> !IndexLess(m.index, x.index)
  }

  /** The horizon is the greatest index of a clear, or the first one if there is none. */
  ghost predicate IsHorizon<K, V>(ms: set<Message<K, V>>, start: Index, horizon: Index) {
    && !IndexLess(horizon, start)
    && (horizon == start || exists m :: m in ms && Clears(m.ops) && m.index == horizon)
    && forall m :: m in ms && Clears(m.ops) ==> !IndexLess(horizon, m.index)
  }

  ghost predicate UniquelyIndexed<K, V>(ms: set<Message<K, V>>, start: Index) {
    && (forall m, x :: m in ms && x in ms && m.index == x.index ==> m == x)
    && forall m :: m in ms ==> IndexLess(start, m.index)
  }

  /** The entry of k is what the messages say: the index of the winner, and its value unless that
      deletes k. */
  ghost predicate EntryReflects<K, V>(s: State<K, V>, ms: set<Message<K, V>>, k: K) {
    && (k in s.dict ==> k in s.indices)
    && (k !in s.indices ==> forall m :: m in ms ==> !Touches(m, k, s.horizon))
    && (k in s.indices ==> exists m :: m in ms && Wins(ms, m, k, s.horizon) && Tells(s, m, k))
  }

  ghost predicate Tells<K, V>(s: State<K, V>, m: Message<K, V>, k: K)
    requires k in s.indices
  {
    && s.indices[k] == m.index
    && match First(m.ops, k)
       case Some(Add(_, v)) => k in s.dict && s.dict[k] == v
       case _ => k !in s.dict
  }

  /** The state is what the messages say. */
  ghost predicate Reflects<K(!new), V>(s: State<K, V>, ms: set<Message<K, V>>, start: Index) {
    && IsHorizon(ms, start, s.horizon)
    && forall k :: EntryReflects(s, ms, k)
  }

  lemma IndexIsTotal(a: Index, b: Index, c: Index)
    ensures a == b || IndexLess(a, b) || IndexLess(b, a)
    ensures !IndexLess(a, a) && !(IndexLess(a, b) && IndexLess(b, a))
    ensures IndexLess(a, b) && IndexLess(b, c) ==> IndexLess(a, c)
  {
  }

  ghost predicate SomeClears<K, V>(ms: set<Message<K, V>>) {
    exists m :: m in ms && Clears(m.ops)
  }

  /** The messages alone determine dictionary and indices, whatever the first horizons; the horizons
      agree exactly when some message clears or the first ones agree. */
  lemma ReflectsOnce<K(!new), V(!new)>(s: State<K, V>, sa: Index, t: State<K, V>, sb: Index, ms: set<Message<K, V>>)
    requires UniquelyIndexed(ms, sa) && UniquelyIndexed(ms, sb) && Reflects(s, ms, sa) && Reflects(t, ms, sb)
    ensures s.dict == t.dict && s.indices == t.indices
    ensures s.horizon == t.horizon <==> SomeClears(ms) || sa == sb
  {
    SameHorizon(ms, sa, s.horizon, sb, t.horizon);
    forall k
      ensures k in s.indices <==> k in t.indices
      ensures k in s.indices ==> s.indices[k] == t.indices[k]
      ensures k in s.dict <==> k in t.dict
      ensures k in s.dict ==> s.dict[k] == t.dict[k]
    {
      SameEntry(s, t, ms, sa, k);
    }
    assert s.dict == t.dict;
    assert s.indices == t.indices;
  }

  lemma SameHorizon<K(!new), V(!new)>(ms: set<Message<K, V>>, sa: Index, a: Index, sb: Index, b: Index)
    requires UniquelyIndexed(ms, sa) && UniquelyIndexed(ms, sb) && IsHorizon(ms, sa, a) && IsHorizon(ms, sb, b)
    ensures a == b <==> SomeClears(ms) || sa == sb
    ensures forall m, k :: m in ms ==> (Touches(m, k, a) <==> Touches(m, k, b))
  {
    IndexIsTotal(a, b, a);
    if m :| m in ms && Clears(m.ops) {
      IndexIsTotal(sa, m.index, a);
      IndexIsTotal(sb, m.index, b);
      assert a != sa && b != sb;
    } else {
      assert a == sa && b == sb;
    }
  }

  lemma SameEntry<K(!new), V(!new)>(s: State<K, V>, t: State<K, V>, ms: set<Message<K, V>>, start: Index, k: K)
    requires UniquelyIndexed(ms, start) && EntryReflects(s, ms, k) && EntryReflects(t, ms, k)
    requires forall m :: m in ms ==> (Touches(m, k, s.horizon) <==> Touches(m, k, t.horizon))
    ensures k in s.indices <==> k in t.indices
    ensures k in s.indices ==> s.indices[k] == t.indices[k]
    ensures k in s.dict <==> k in t.dict
    ensures k in s.dict ==> s.dict[k] == t.dict[k]
  {
    if k in s.indices {
      var m :| m in ms && Wins(ms, m, k, s.horizon) && Tells(s, m, k);
      if k in t.indices {
        var x :| x in ms && Wins(ms, x, k, t.horizon) && Tells(t, x, k);
        IndexIsTotal(m.index, x.index, m.index);
        assert Touches(m, k, s.horizon) && Touches(x, k, s.horizon);
        assert m in ms && x in ms && m.index == x.index;
      }
    }
  }

  // -------------------------------------------------------------------------
  // One operation more
  // -------------------------------------------------------------------------

  /** The state with everything before the horizon gone. */
  ghost function Purged<K, V>(s: State<K, V>, n: Index): State<K, V> {
    State(map k | k in s.dict && !(k in s.indices && IndexLess(s.indices[k], n)) :: s.dict[k],
          map k | k in s.indices && !IndexLess(s.indices[k], n) :: s.indices[k],
          n)
  }

  ghost function Performed<K, V>(s: State<K, V>, op: Op<K, V>, n: Index): State<K, V> {
    match op
    case Add(k, v) =>
      if k !in s.indices || IndexLess(s.indices[k], n) then State(s.dict[k := v], s.indices[k := n], s.horizon) else s
    case Delete(k) =>
      if k !in s.indices then State(s.dict, s.indices[k := n], s.horizon)
      else if IndexLess(s.indices[k], n) then State(s.dict - {k}, s.indices[k := n], s.horizon)
      else s
    case Clear => Purged(s, n)
  }

  /** A message that is being worked through counts with the operations done so far. */
  lemma OneMoreOp<K(!new), V(!new)>(s: State<K, V>, ms: set<Message<K, V>>, start: Index, ops: seq<Op<K, V>>, op: Op<K, V>, n: Index)
    requires UniquelyIndexed(ms, start) && IndexLess(start, n) && forall m :: m in ms ==> m.index != n
    requires Reflects(s, ms + {Message(ops, n)}, start) && Survives(Message(ops, n), s.horizon)
    ensures Reflects(Performed(s, op, n), ms + {Message(ops + [op], n)}, start)
    ensures Survives(Message(ops + [op], n), Performed(s, op, n).horizon)
  {
    var m, m' := Message(ops, n), Message(ops + [op], n);
    var t := Performed(s, op, n);
    var old', new' := ms + {m}, ms + {m'};
    FirstStep(ops, op);
    ClearsStep(ops, op);
    StepHorizon(s, ms, start, ops, op, n);
    forall k
      ensures EntryReflects(t, new', k)
    {
      assert EntryReflects(s, old', k);
      StepEntry(s, ms, start, ops, op, n, k);
    }
  }

  lemma {:induction false} FirstStep<K, V>(ops: seq<Op<K, V>>, op: Op<K, V>)
    ensures forall k :: First(ops + [op], k) == if First(ops, k).None? && !op.Clear? && op.key == k then Some(op) else First(ops, k)
  {
    assert (ops + [op])[..|ops|] == ops;
  }

  lemma ClearsStep<K, V>(ops: seq<Op<K, V>>, op: Op<K, V>)
    ensures Clears(ops + [op]) <==> Clears(ops) || op.Clear?
  {
    if Clears(ops) {
      var i :| 0 <= i < |ops| && ops[i].Clear?;
      assert (ops + [op])[i].Clear?;
    }
    if op.Clear? { assert (ops + [op])[|ops|].Clear?; }
  }

  lemma StepHorizon<K(!new), V(!new)>(s: State<K, V>, ms: set<Message<K, V>>, start: Index, ops: seq<Op<K, V>>, op: Op<K, V>, n: Index)
    requires UniquelyIndexed(ms, start) && IndexLess(start, n)
    requires IsHorizon(ms + {Message(ops, n)}, start, s.horizon) && Survives(Message(ops, n), s.horizon)
    ensures IsHorizon(ms + {Message(ops + [op], n)}, start, Performed(s, op, n).horizon)
    ensures Survives(Message(ops + [op], n), Performed(s, op, n).horizon)
  {
    ClearsStep(ops, op);
    var m, m' := Message(ops, n), Message(ops + [op], n);
    var t := Performed(s, op, n);
    assert m' in ms + {m'} && m in ms + {m};
    if s.horizon != start && !op.Clear? {
      var x :| x in ms + {m} && Clears(x.ops) && x.index == s.horizon;
      assert (if x == m then m' else x) in ms + {m'};
    }
    forall x | x in ms + {m'} && Clears(x.ops)
      ensures !IndexLess(t.horizon, x.index)
    {
      assert x == m' || x in ms + {m};
    }
  }

  /** The entry of one key after one operation. */
  lemma StepEntry<K(!new), V(!new)>(s: State<K, V>, ms: set<Message<K, V>>, start: Index, ops: seq<Op<K, V>>, op: Op<K, V>, n: Index, k: K)
    requires UniquelyIndexed(ms, start) && IndexLess(start, n) && forall m :: m in ms ==> m.index != n
    requires EntryReflects(s, ms + {Message(ops, n)}, k) && Survives(Message(ops, n), s.horizon)
    requires IsHorizon(ms + {Message(ops, n)}, start, s.horizon)
    ensures EntryReflects(Performed(s, op, n), ms + {Message(ops + [op], n)}, k)
  {
    FirstStep(ops, op);
    ClearsStep(ops, op);
    if op.Clear? {
      StepClear(s, ms, start, ops, op, n, k);
    } else if op.key != k {
      StepOther(s, ms, ops, op, n, k);
    } else {
      StepKey(s, ms, ops, op, n, k);
    }
  }

  /** Other keys keep their entries. */
  lemma StepOther<K(!new), V(!new)>(s: State<K, V>, ms: set<Message<K, V>>, ops: seq<Op<K, V>>, op: Op<K, V>, n: Index, k: K)
    requires !op.Clear? && op.key != k
    requires EntryReflects(s, ms + {Message(ops, n)}, k)
    ensures EntryReflects(Performed(s, op, n), ms + {Message(ops + [op], n)}, k)
  {
    FirstStep(ops, op);
    ClearsStep(ops, op);
    var m, m' := Message(ops, n), Message(ops + [op], n);
    var t := Performed(s, op, n);
    assert m' in ms + {m'} && m in ms + {m};
    assert t.horizon == s.horizon;
    assert Touches(m', k, t.horizon) <==> Touches(m, k, s.horizon);
    if k in s.indices {
      var x :| x in ms + {m} && Wins(ms + {m}, x, k, s.horizon) && Tells(s, x, k);
      var y := if x == m then m' else x;
      assert y in ms + {m'} && Tells(t, y, k);
      assert Wins(ms + {m'}, y, k, t.horizon);
    } else {
      forall x | x in ms + {m'}
        ensures !Touches(x, k, t.horizon)
      {
        assert x == m' || x in ms + {m};
      }
    }
  }

  /** The key itself gets the operation unless a later one, or an earlier one of the same message,
      is on record. */
  lemma StepKey<K(!new), V(!new)>(s: State<K, V>, ms: set<Message<K, V>>, ops: seq<Op<K, V>>, op: Op<K, V>, n: Index, k: K)
    requires !op.Clear? && op.key == k
    requires forall m :: m in ms ==> m.index != n
    requires EntryReflects(s, ms + {Message(ops, n)}, k) && Survives(Message(ops, n), s.horizon)
    ensures EntryReflects(Performed(s, op, n), ms + {Message(ops + [op], n)}, k)
  {
    FirstStep(ops, op);
    ClearsStep(ops, op);
    var m, m' := Message(ops, n), Message(ops + [op], n);
    var old', new' := ms + {m}, ms + {m'};
    var t := Performed(s, op, n);
    assert m' in new' && m in old' && Touches(m', k, t.horizon);
    forall x | x in new' && x != m'
      ensures x in old' && Touches(x, k, t.horizon) == Touches(x, k, s.horizon)
    {
    }
    if k in s.indices {
      var x :| x in old' && Wins(old', x, k, s.horizon) && Tells(s, x, k);
      IndexIsTotal(x.index, n, x.index);
      if IndexLess(x.index, n) {
        forall y | y in new' && Touches(y, k, t.horizon)
          ensures !IndexLess(n, y.index)
        {
          if y != m' { IndexIsTotal(n, y.index, x.index); IndexIsTotal(x.index, n, y.index); }
        }
        assert Wins(new', m', k, t.horizon) && Tells(t, m', k);
      } else {
        var y := if x == m then m' else x;
        assert y in new' && Tells(t, y, k);
        forall z | z in new' && Touches(z, k, t.horizon)
          ensures !IndexLess(y.index, z.index)
        {
          if z == m' { IndexIsTotal(x.index, n, x.index); }
        }
        assert Wins(new', y, k, t.horizon);
      }
    } else {
      forall y | y in new' && Touches(y, k, t.horizon)
        ensures y == m'
      {
      }
      IndexIsTotal(n, n, n);
      assert Wins(new', m', k, t.horizon) && Tells(t, m', k);
    }
  }

  /** A clear takes away what is older than its message. */
  lemma StepClear<K(!new), V(!new)>(s: State<K, V>, ms: set<Message<K, V>>, start: Index, ops: seq<Op<K, V>>, op: Op<K, V>, n: Index, k: K)
    requires op.Clear? && IsHorizon(ms + {Message(ops, n)}, start, s.horizon) && IndexLess(start, n)
    requires forall m :: m in ms ==> m.index != n
    requires EntryReflects(s, ms + {Message(ops, n)}, k) && Survives(Message(ops, n), s.horizon)
    ensures EntryReflects(Performed(s, op, n), ms + {Message(ops + [op], n)}, k)
  {
    FirstStep(ops, op);
    ClearsStep(ops, op);
    var m, m' := Message(ops, n), Message(ops + [op], n);
    var old', new' := ms + {m}, ms + {m'};
    var t := Performed(s, op, n);
    assert m' in new' && m in old' && t.horizon == n && Survives(m', n);
    forall x | x in new'
      ensures Touches(x, k, n) ==> Touches(if x == m' then m else x, k, s.horizon)
      ensures x != m' ==> x in old' && (Touches(x, k, n) <==> Touches(x, k, s.horizon) && IndexLess(n, x.index))
    {
      IndexIsTotal(s.horizon, n, x.index);
    }
    if k in s.indices {
      var x :| x in old' && Wins(old', x, k, s.horizon) && Tells(s, x, k);
      IndexIsTotal(x.index, n, n);
      if IndexLess(x.index, n) {
        forall y | y in new'
          ensures !Touches(y, k, n)
        {
          IndexIsTotal(x.index, n, y.index);
        }
      } else {
        var y := if x == m then m' else x;
        assert y in new' && Tells(t, y, k);
        assert Touches(y, k, n);
        assert Wins(new', y, k, n);
      }
    }
  }

  // -------------------------------------------------------------------------
  // Merging a peer's state
  // -------------------------------------------------------------------------

  function Later(a: Index, b: Index): Index {
    if IndexLess(a, b) then b else a
  }

  /** Does the peer know better about k? s has been purged up to the common horizon. */
  ghost predicate Newer<K(!new), V>(s: State<K, V>, p: State<K, V>, k: K) {
    k in p.indices && if k in s.indices then IndexLess(s.indices[k], p.indices[k]) else IndexLess(s.horizon, p.indices[k])
  }

  /** What `add_history` makes of a purged state. */
  ghost predicate Merged<K(!new), V>(s: State<K, V>, p: State<K, V>, t: State<K, V>) {
    && t.horizon == s.horizon
    && forall k ::
      && (k in t.indices <==> k in s.indices || Newer(s, p, k))
      && (k in t.indices ==> t.indices[k] == if Newer(s, p, k) then p.indices[k] else s.indices[k])
      && (k in t.dict <==> if Newer(s, p, k) then k in p.dict else k in s.dict)
      && (k in t.dict ==> t.dict[k] == if Newer(s, p, k) then p.dict[k] else s.dict[k])
  }

  /** No key of the peer has the common horizon for its index, unless it is known here already. */
  ghost predicate NothingAtHorizon<K(!new), V>(s: State<K, V>, p: State<K, V>) {
    forall k :: k in p.indices && p.indices[k] == Later(s.horizon, p.horizon) ==>
      k in s.indices && !IndexLess(s.indices[k], p.indices[k])
  }

  /** Purging a state to a later horizon that some other message set. */
  ghost function PurgedTo<K, V>(s: State<K, V>, c: Index): State<K, V> {
    if IndexLess(s.horizon, c) then Purged(s, c) else s
  }

  lemma MergedHorizon<K(!new), V(!new)>(s: State<K, V>, p: State<K, V>, ms: set<Message<K, V>>, sa: Index, ps: set<Message<K, V>>, sb: Index)
    requires UniquelyIndexed(ms + ps, sa) && UniquelyIndexed(ms + ps, sb) && IsHorizon(ms, sa, s.horizon) && IsHorizon(ps, sb, p.horizon)
    ensures IsHorizon(ms + ps, Later(sa, sb), Later(s.horizon, p.horizon))
    ensures PurgedTo(s, p.horizon).horizon == Later(s.horizon, p.horizon)
  {
    var c := Later(s.horizon, p.horizon);
    IndexIsTotal(s.horizon, p.horizon, c);
    IndexIsTotal(sa, sb, c);
    IndexIsTotal(sa, s.horizon, c);
    IndexIsTotal(sb, p.horizon, c);
    forall m | m in ms || m in ps
      ensures IndexLess(sa, m.index) && IndexLess(sb, m.index)
    {
      assert m in ms + ps;
    }
    forall m | m in ms + ps && Clears(m.ops)
      ensures !IndexLess(c, m.index)
    {
      IndexIsTotal(s.horizon, p.horizon, m.index);
      IndexIsTotal(p.horizon, s.horizon, m.index);
    }
    if c != Later(sa, sb) {
      if c == s.horizon {
        var m :| m in ms && Clears(m.ops) && m.index == c;
        assert m in ms + ps;
      } else {
        var m :| m in ps && Clears(m.ops) && m.index == c;
        assert m in ms + ps;
      }
    }
  }

  /** The message that set a later horizon elsewhere has not been here. */
  lemma NoneAtHorizon<K(!new), V(!new)>(ms: set<Message<K, V>>, sb: Index, ps: set<Message<K, V>>, h: Index, c: Index, x: Message<K, V>)
    requires UniquelyIndexed(ms + ps, sb) && IsHorizon(ps, sb, c) && (forall m :: m in ms && Clears(m.ops) ==> !IndexLess(h, m.index))
    requires IndexLess(h, c) && x in ms
    ensures x.index != c
  {
    assert x in ms + ps;
    if c != sb {
      var m :| m in ps && Clears(m.ops) && m.index == c;
      assert m in ms + ps;
    }
  }

  /** Purging to a later horizon leaves what the messages say beyond it. */
  lemma PurgeEntry<K(!new), V(!new)>(s: State<K, V>, ms: set<Message<K, V>>, sa: Index, ps: set<Message<K, V>>, sb: Index, c: Index, k: K)
    requires UniquelyIndexed(ms + ps, sb) && IsHorizon(ms, sa, s.horizon) && IsHorizon(ps, sb, c) && EntryReflects(s, ms, k)
    ensures EntryReflects(PurgedTo(s, c), ms, k)
  {
    var q := PurgedTo(s, c);
    if IndexLess(s.horizon, c) {
      forall x | x in ms
        ensures Touches(x, k, c) ==> Touches(x, k, s.horizon) && IndexLess(c, x.index)
        ensures Touches(x, k, s.horizon) && IndexLess(c, x.index) ==> Touches(x, k, c)
      {
        IndexIsTotal(s.horizon, c, x.index);
        NoneAtHorizon(ms, sb, ps, s.horizon, c, x);
      }
      if k in s.indices {
        var m :| m in ms && Wins(ms, m, k, s.horizon) && Tells(s, m, k);
        IndexIsTotal(c, m.index, c);
        NoneAtHorizon(ms, sb, ps, s.horizon, c, m);
        if IndexLess(c, m.index) {
          assert Touches(m, k, c);
          assert Wins(ms, m, k, c) && Tells(q, m, k);
        } else {
          forall x | x in ms
            ensures !Touches(x, k, c)
          {
            IndexIsTotal(m.index, c, x.index);
          }
        }
      }
    }
  }

  /** What the peer's messages say beyond the common horizon. */
  lemma PeerEntry<K(!new), V(!new)>(p: State<K, V>, ms: set<Message<K, V>>, sa: Index, ps: set<Message<K, V>>, sb: Index, h: Index, k: K)
    requires UniquelyIndexed(ms + ps, sa) && IsHorizon(ms, sa, h) && IsHorizon(ps, sb, p.horizon) && EntryReflects(p, ps, k)
    ensures var c := Later(h, p.horizon);
            && (k !in p.indices || IndexLess(p.indices[k], c) ==> forall x :: x in ps ==> !Touches(x, k, c))
            && (k in p.indices && !IndexLess(p.indices[k], c) ==> exists m :: m in ps && Wins(ps, m, k, c) && Tells(p, m, k))
  {
    var c := Later(h, p.horizon);
    IndexIsTotal(h, p.horizon, c);
    forall x | x in ps
      ensures Touches(x, k, c) ==> Touches(x, k, p.horizon) && !IndexLess(x.index, c)
      ensures Touches(x, k, p.horizon) && !IndexLess(x.index, c) ==> Touches(x, k, c)
    {
      IndexIsTotal(p.horizon, c, x.index);
      IndexIsTotal(x.index, c, c);
      if IndexLess(p.horizon, c) {
        assert ps + ms == ms + ps;
        NoneAtHorizon(ps, sa, ms, p.horizon, c, x);
      }
    }
    if k in p.indices {
      var m :| m in ps && Wins(ps, m, k, p.horizon) && Tells(p, m, k);
      if IndexLess(m.index, c) {
        forall x | x in ps
          ensures !Touches(x, k, c)
        {
          IndexIsTotal(m.index, x.index, c);
          IndexIsTotal(x.index, m.index, c);
        }
      } else {
        assert Wins(ps, m, k, c);
      }
    }
  }

  /** One key after the merge. */
  lemma MergeEntry<K(!new), V(!new)>(s: State<K, V>, p: State<K, V>, t: State<K, V>, ms: set<Message<K, V>>, sa: Index, ps: set<Message<K, V>>, sb: Index, k: K)
    requires UniquelyIndexed(ms + ps, sa) && UniquelyIndexed(ms + ps, sb) && Reflects(s, ms, sa) && Reflects(p, ps, sb)
    requires Merged(PurgedTo(s, p.horizon), p, t)
    ensures EntryReflects(t, ms + ps, k) <==>
            (k in p.indices && p.indices[k] == t.horizon ==> k in s.indices && !IndexLess(s.indices[k], p.indices[k]))
  {
    var q, c, all := PurgedTo(s, p.horizon), t.horizon, ms + ps;
    MergedHorizon(s, p, ms, sa, ps, sb);
    IndexIsTotal(s.horizon, p.horizon, c);
    assert EntryReflects(s, ms, k) && EntryReflects(p, ps, k);
    PurgeEntry(s, ms, sa, ps, sb, p.horizon, k);
    PeerEntry(p, ms, sa, ps, sb, s.horizon, k);
    assert k in q.indices ==> k in s.indices && q.indices[k] == s.indices[k] && !IndexLess(q.indices[k], c);
    if k in p.indices { IndexIsTotal(p.indices[k], c, c); }
    if Newer(q, p, k) {
      NewerEntry(q, p, t, ms, ps, k);
    } else if k in q.indices {
      OlderEntry(q, p, t, ms, ps, k);
    } else {
      AbsentEntry(q, p, t, ms, ps, k);
    }
  }

  lemma NewerEntry<K(!new), V(!new)>(q: State<K, V>, p: State<K, V>, t: State<K, V>, ms: set<Message<K, V>>, ps: set<Message<K, V>>, k: K)
    requires EntryReflects(q, ms, k) && Merged(q, p, t) && Newer(q, p, k) && (k in p.dict ==> k in p.indices)
    requires exists m :: m in ps && Wins(ps, m, k, q.horizon) && Tells(p, m, k)
    ensures EntryReflects(t, ms + ps, k)
  {
    var b :| b in ps && Wins(ps, b, k, q.horizon) && Tells(p, b, k);
    assert k in t.indices && Tells(t, b, k);
    forall x | x in ms + ps && Touches(x, k, t.horizon)
      ensures !IndexLess(b.index, x.index)
    {
      if x in ms {
        var a :| a in ms && Wins(ms, a, k, q.horizon) && Tells(q, a, k);
        IndexIsTotal(a.index, b.index, x.index);
        IndexIsTotal(b.index, x.index, b.index);
      }
    }
    assert b in ms + ps && Wins(ms + ps, b, k, t.horizon);
  }

  lemma OlderEntry<K(!new), V(!new)>(q: State<K, V>, p: State<K, V>, t: State<K, V>, ms: set<Message<K, V>>, ps: set<Message<K, V>>, k: K)
    requires EntryReflects(q, ms, k) && Merged(q, p, t) && !Newer(q, p, k) && k in q.indices
    requires forall x :: x in ps && Touches(x, k, q.horizon) ==> k in p.indices && !IndexLess(p.indices[k], x.index)
    ensures EntryReflects(t, ms + ps, k)
  {
    var a :| a in ms && Wins(ms, a, k, q.horizon) && Tells(q, a, k);
    assert k in t.indices && Tells(t, a, k);
    forall x | x in ms + ps && Touches(x, k, t.horizon)
      ensures !IndexLess(a.index, x.index)
    {
      if x in ps {
        IndexIsTotal(a.index, x.index, p.indices[k]);
        IndexIsTotal(x.index, p.indices[k], a.index);
      }
    }
    assert a in ms + ps && Wins(ms + ps, a, k, t.horizon);
  }

  lemma AbsentEntry<K(!new), V(!new)>(q: State<K, V>, p: State<K, V>, t: State<K, V>, ms: set<Message<K, V>>, ps: set<Message<K, V>>, k: K)
    requires EntryReflects(q, ms, k) && Merged(q, p, t) && !Newer(q, p, k) && k !in q.indices
    ensures EntryReflects(t, ms + ps, k) <==> forall x :: x in ps ==> !Touches(x, k, q.horizon)
  {
    if EntryReflects(t, ms + ps, k) {
      forall x | x in ps
        ensures !Touches(x, k, q.horizon)
      {
        assert x in ms + ps;
      }
    }
  }

  /** A merge is the same as having received all the peer's messages, from the later of the two first
      horizons on, exactly when no key of the peer has the common horizon for its index, unless it is
      known here already. */
  lemma MergeReflects<K(!new), V(!new)>(s: State<K, V>, sa: Index, p: State<K, V>, sb: Index, t: State<K, V>, ms: set<Message<K, V>>, ps: set<Message<K, V>>)
    requires UniquelyIndexed(ms + ps, sa) && UniquelyIndexed(ms + ps, sb) && Reflects(s, ms, sa) && Reflects(p, ps, sb)
    requires Merged(PurgedTo(s, p.horizon), p, t)
    ensures Reflects(t, ms + ps, Later(sa, sb)) <==> NothingAtHorizon(s, p)
  {
    MergedHorizon(s, p, ms, sa, ps, sb);
    forall k
      ensures EntryReflects(t, ms + ps, k) <==>
              (k in p.indices && p.indices[k] == t.horizon ==> k in s.indices && !IndexLess(s.indices[k], p.indices[k]))
    {
      MergeEntry(s, p, t, ms, sa, ps, sb, k);
    }
  }

  /** A message as the dictionary itself sends it: a clear stands alone. */
  ghost predicate Plain<K, V>(m: Message<K, V>) {
    Clears(m.ops) ==> forall i :: 0 <= i < |m.ops| ==> m.ops[i].Clear?
  }

  ghost predicate AllPlain<K(!new), V(!new)>(ms: set<Message<K, V>>) {
    forall m :: m in ms ==> Plain(m)
  }

  lemma {:induction false} OnlyClears<K, V>(ops: seq<Op<K, V>>, k: K)
    requires forall i :: 0 <= i < |ops| ==> ops[i].Clear?
    ensures First(ops, k) == None
    decreases |ops|
  {
    if ops != [] { OnlyClears(ops[..|ops| - 1], k); }
  }

  /** Among messages that the dictionary itself sends, no key ever has the common horizon. */
  lemma {:induction false} PlainMergesWell<K(!new), V(!new)>(s: State<K, V>, sa: Index, p: State<K, V>, sb: Index, ms: set<Message<K, V>>, ps: set<Message<K, V>>)
    requires UniquelyIndexed(ms + ps, sa) && UniquelyIndexed(ms + ps, sb) && Reflects(s, ms, sa) && Reflects(p, ps, sb) && AllPlain(ms + ps)
    ensures NothingAtHorizon(s, p)
  {
    MergedHorizon(s, p, ms, sa, ps, sb);
    var c := Later(s.horizon, p.horizon);
    forall k | k in p.indices && p.indices[k] == c
      ensures false
    {
      assert EntryReflects(p, ps, k);
      var m :| m in ps && Wins(ps, m, k, p.horizon) && Tells(p, m, k);
      assert m in ms + ps && m.index == c;
      IndexIsTotal(sa, c, c);
      IndexIsTotal(sb, c, c);
      var x :| x in ms + ps && Clears(x.ops) && x.index == c;
      OnlyClears(m.ops, k);
    }
  }

  /** It does happen: one message clears the dictionary and then adds a key. Merging into an empty
      dictionary gives an empty one, where receiving the message gives the key. */
  lemma KeyAtHorizonIsLost()
    ensures var start, n := Index(0, 0), Index(1, 0);
            var s, p, m := Empty<int, int>(start), State(map[5 := 6], map[5 := n], n), Message([Clear, Add(5, 6)], n);
            && Reflects(s, {}, start) && Reflects(p, {m}, start) && !NothingAtHorizon(s, p)
            && Received(s, m) == p && forall t :: Merged(PurgedTo(s, p.horizon), p, t) ==> t == Empty(n)
  {
    var start, n := Index(0, 0), Index(1, 0);
    var s := Empty<int, int>(start);
    NothingReceived<int, int>(start);
    var m: Message<int, int> := Message([Clear, Add(5, 6)], n);
    ReceiveNew(s, {}, start, m);
    assert {} + {m} == {m};
    assert m.ops[..1] == [Clear] && m.ops[..1][..0] == [];
    assert PerformedAll(s, m.ops[..1], n) == Performed(s, Clear, n);
    var p := State(map[5 := 6], map[5 := n], n);
    var q := Purged(s, n);
    assert q.dict == map[] && q.indices == map[];
    assert Received(s, m) == p;
    assert 5 in p.indices;
    forall t | Merged(PurgedTo(s, p.horizon), p, t)
      ensures t == Empty(n)
    {
      assert forall k :: !Newer(q, p, k);
      assert t.dict == map[] && t.indices == map[];
    }
  }

  // -------------------------------------------------------------------------
  // Whole messages
  // -------------------------------------------------------------------------

  ghost function PerformedAll<K, V>(s: State<K, V>, ops: seq<Op<K, V>>, n: Index): State<K, V>
    decreases |ops|
  {
    if ops == [] then s else Performed(PerformedAll(s, ops[..|ops| - 1], n), ops[|ops| - 1], n)
  }

  ghost function Received<K, V>(s: State<K, V>, m: Message<K, V>): State<K, V> {
    if IndexLess(s.horizon, m.index) then PerformedAll(s, m.ops, m.index) else s
  }

  lemma {:induction false} PerformedReflects<K(!new), V(!new)>(s: State<K, V>, ms: set<Message<K, V>>, start: Index, ops: seq<Op<K, V>>, n: Index)
    requires UniquelyIndexed(ms, start) && IndexLess(start, n) && (forall m :: m in ms ==> m.index != n)
    requires Reflects(s, ms, start) && IndexLess(s.horizon, n)
    ensures var t := PerformedAll(s, ops, n);
            Reflects(t, ms + {Message(ops, n)}, start) && Survives(Message(ops, n), t.horizon)
    decreases |ops|
  {
    hide Reflects, UniquelyIndexed, Performed, Survives;
    if ops == [] {
      EmptyMessage(s, ms, start, n);
    } else {
      var front, op := ops[..|ops| - 1], ops[|ops| - 1];
      assert ops == front + [op];
      PerformedReflects(s, ms, start, front, n);
      OneMoreOp(PerformedAll(s, front, n), ms, start, front, op, n);
    }
  }

  /** Of two operations on one key in a message the first one stands, as its index is not smaller than
      that of the second. */
  lemma {:induction false} FirstStands<K, V>(s: State<K, V>, k: K, a: V, b: V, n: Index)
    requires IndexLess(s.horizon, n) && (k in s.indices ==> IndexLess(s.indices[k], n))
    ensures var t := Received(s, Message([Add(k, a), Add(k, b)], n)); k in t.dict && t.dict[k] == a
    ensures k in s.indices ==> k !in Received(s, Message([Delete(k), Add(k, b)], n)).dict
  {
    IndexIsTotal(n, n, n);
    var adds, dels := [Add(k, a), Add(k, b)], [Delete(k), Add(k, b)];
    assert adds[..1] == [Add(k, a)] && dels[..1] == [Delete(k)];
    OneOp(s, Add(k, a), n);
    OneOp(s, Delete(k), n);
    assert PerformedAll(s, adds, n) == Performed(PerformedAll(s, adds[..1], n), Add(k, b), n);
    assert PerformedAll(s, dels, n) == Performed(PerformedAll(s, dels[..1], n), Add(k, b), n);
  }

  /** A message that neither survives nor clears, or does nothing, changes nothing. */
  lemma Irrelevant<K(!new), V(!new)>(s: State<K, V>, ms: set<Message<K, V>>, start: Index, m: Message<K, V>)
    requires Reflects(s, ms, start)
    requires Clears(m.ops) ==> !IndexLess(s.horizon, m.index)
    requires forall k :: !Touches(m, k, s.horizon)
    ensures Reflects(s, ms + {m}, start)
  {
    if s.horizon != start {
      var x :| x in ms && Clears(x.ops) && x.index == s.horizon;
      assert x in ms + {m};
    }
    forall k
      ensures EntryReflects(s, ms + {m}, k)
    {
      assert EntryReflects(s, ms, k);
      if k in s.indices {
        var x :| x in ms && Wins(ms, x, k, s.horizon) && Tells(s, x, k);
        assert x in ms + {m} && Wins(ms + {m}, x, k, s.horizon);
      }
    }
  }

  lemma EmptyMessage<K(!new), V(!new)>(s: State<K, V>, ms: set<Message<K, V>>, start: Index, n: Index)
    requires Reflects(s, ms, start) && IndexLess(s.horizon, n)
    ensures Reflects(s, ms + {Nothing(n)}, start) && Survives(Nothing<K, V>(n), s.horizon)
  {
    Irrelevant(s, ms, start, Nothing(n));
  }

  /** A new message, whether it is taken in or too old. */
  lemma ReceiveNew<K(!new), V(!new)>(s: State<K, V>, ms: set<Message<K, V>>, start: Index, m: Message<K, V>)
    requires UniquelyIndexed(ms + {m}, start) && m !in ms && Reflects(s, ms, start)
    ensures Reflects(Received(s, m), ms + {m}, start)
  {
    assert m in ms + {m} && forall x :: x in ms ==> x in ms + {m};
    if IndexLess(s.horizon, m.index) {
      PerformedReflects(s, ms, start, m.ops, m.index);
      assert Message(m.ops, m.index) == m;
    } else {
      IndexIsTotal(s.horizon, m.index, start);
      assert s.horizon != m.index;
      Irrelevant(s, ms, start, m);
    }
  }

  /** A known message changes nothing. */
  lemma ReceiveKnown<K(!new), V(!new)>(s: State<K, V>, ms: set<Message<K, V>>, start: Index, m: Message<K, V>)
    requires m in ms && Reflects(s, ms, start)
    ensures Received(s, m) == s
  {
    if IndexLess(s.horizon, m.index) {
      assert !Clears(m.ops);
      PerformedKnown(s, ms, start, m, |m.ops|);
      assert m.ops[..|m.ops|] == m.ops;
    }
  }

  lemma {:induction false} PerformedKnown<K(!new), V(!new)>(s: State<K, V>, ms: set<Message<K, V>>, start: Index, m: Message<K, V>, i: nat)
    requires m in ms && Reflects(s, ms, start) && IndexLess(s.horizon, m.index) && !Clears(m.ops) && i <= |m.ops|
    ensures PerformedAll(s, m.ops[..i], m.index) == s
  {
    if i > 0 {
      PerformedKnown(s, ms, start, m, i - 1);
      assert m.ops[..i][..i - 1] == m.ops[..i - 1];
      var k := m.ops[i - 1].key;
      FirstFound(m.ops, i - 1);
      assert EntryReflects(s, ms, k) && Touches(m, k, s.horizon);
      var x :| x in ms && Wins(ms, x, k, s.horizon) && Tells(s, x, k);
    }
  }

  lemma {:induction false} FirstFound<K, V>(ops: seq<Op<K, V>>, i: nat)
    requires i < |ops| && !ops[i].Clear?
    ensures First(ops, ops[i].key).Some?
    decreases |ops|
  {
    if i < |ops| - 1 {
      FirstFound(ops[..|ops| - 1], i);
    }
  }

  lemma NothingReceived<K(!new), V(!new)>(start: Index)
    ensures Reflects(Empty<K, V>(start), {}, start)
  {
  }

  // -------------------------------------------------------------------------
  // Whole runs
  // -------------------------------------------------------------------------

  ghost function ReceivedAll<K, V>(s: State<K, V>, msgs: seq<Message<K, V>>): State<K, V>
    decreases |msgs|
  {
    if msgs == [] then s else Received(ReceivedAll(s, msgs[..|msgs| - 1]), msgs[|msgs| - 1])
  }

  ghost function SetOfMessages<K, V>(msgs: seq<Message<K, V>>): set<Message<K, V>> {
    set m | m in msgs
  }

  lemma {:induction false} ReceivedAllReflects<K(!new), V(!new)>(start: Index, msgs: seq<Message<K, V>>)
    requires UniquelyIndexed(SetOfMessages(msgs), start)
    ensures Reflects(ReceivedAll(Empty(start), msgs), SetOfMessages(msgs), start)
    decreases |msgs|
  {
    hide Reflects, Received;
    var s := Empty<K, V>(start);
    if msgs == [] {
      NothingReceived<K, V>(start);
      assert SetOfMessages(msgs) == {};
    } else {
      var front, m := msgs[..|msgs| - 1], msgs[|msgs| - 1];
      assert msgs == front + [m];
      assert SetOfMessages(msgs) == SetOfMessages(front) + {m};
      ReceivedAllReflects(start, front);
      if m in SetOfMessages(front) {
        ReceiveKnown(ReceivedAll(s, front), SetOfMessages(front), start, m);
        assert SetOfMessages(msgs) == SetOfMessages(front);
      } else {
        ReceiveNew(ReceivedAll(s, front), SetOfMessages(front), start, m);
      }
    }
  }

  /** Any two orders of the same uniquely indexed messages, with any repetitions, give the same
      dictionary and indices at replicas with any first horizons before them; the horizons agree
      exactly when some message clears or the first ones agree. */
  lemma {:induction false} OrderDoesNotMatter<K(!new), V(!new)>(sa: Index, first: seq<Message<K, V>>, sb: Index, second: seq<Message<K, V>>)
    requires UniquelyIndexed(SetOfMessages(first), sa) && UniquelyIndexed(SetOfMessages(first), sb)
    requires SetOfMessages(first) == SetOfMessages(second)
    ensures var s, t := ReceivedAll(Empty(sa), first), ReceivedAll(Empty(sb), second);
            && s.dict == t.dict && s.indices == t.indices
            && (s.horizon == t.horizon <==> SomeClears(SetOfMessages(first)) || sa == sb)
  {
    hide Reflects;
    ReceivedAllReflects(sa, first);
    ReceivedAllReflects(sb, second);
    ReflectsOnce(ReceivedAll(Empty<K, V>(sa), first), sa, ReceivedAll(Empty<K, V>(sb), second), sb, SetOfMessages(first));
  }

  /** The horizons of fresh replicas do differ. */
  lemma FreshHorizonsDiffer()
    ensures var sa, sb := Index(1, 5), Index(1, 6);
            var m: Message<int, int> := Message([Add(3, 4)], Index(2, 0));
            && UniquelyIndexed({m}, sa) && UniquelyIndexed({m}, sb)
            && ReceivedAll(Empty(sa), [m]).dict == ReceivedAll(Empty(sb), [m]).dict
            && ReceivedAll(Empty(sa), [m]).horizon != ReceivedAll(Empty(sb), [m]).horizon
  {
    var sa, sb := Index(1, 5), Index(1, 6);
    var m: Message<int, int> := Message([Add(3, 4)], Index(2, 0));
    assert SetOfMessages([m]) == {m};
    OrderDoesNotMatter(sa, [m], sb, [m]);
  }

  // -------------------------------------------------------------------------
  // The object
  // -------------------------------------------------------------------------

  class CausalDict<K(!new, ==), V(!new, ==)> {
    const handler: CausalHandler
    var dict: map<K, V>
    var indices: map<K, Index>
    var horizon: Index

    ghost function Contents(): State<K, V>
      reads this
    {
      State(dict, indices, horizon)
    }

    /** Every key has an index, none is before the horizon, and the clock is not behind. */
    ghost predicate Valid()
      reads this, handler
    {
      && dict.Keys <= indices.Keys
      && horizon.counter <= handler.counter
      && forall k :: k in indices ==> indices[k].counter <= handler.counter
    }

    /** `set_handler` on an empty dictionary. */
    constructor (handler: CausalHandler, salt: nat)
      modifies handler
      ensures Valid() && this.handler == handler && Contents() == Empty(horizon)
      ensures horizon == Index(old(handler.counter) + 1, salt)
    {
      this.handler := handler;
      dict, indices := map[], map[];
      new;
      horizon := handler.GetIndex(salt);
    }

    /** Takes away all entries before the horizon. */
    method Purge()
      modifies `dict, `indices
      ensures Contents() == Purged(old(Contents()), horizon)
    {
      var todo := indices.Keys;
      while todo != {}
        invariant todo <= indices.Keys
        invariant forall k :: k in indices <==> k in old(indices) && (k in todo || !IndexLess(old(indices)[k], horizon))
        invariant forall k :: k in indices ==> indices[k] == old(indices)[k]
        invariant forall k :: k in dict <==> k in old(dict) && (k in todo || !(k in old(indices) && IndexLess(old(indices)[k], horizon)))
        invariant forall k :: k in dict ==> dict[k] == old(dict)[k]
        decreases todo
      {
        var k :| k in todo;
        todo := todo - {k};
        if IndexLess(indices[k], horizon) {
          indices := indices - {k};
          if k in dict {
            dict := dict - {k};
          }
        }
      }
      assert dict == Purged(old(Contents()), horizon).dict;
      assert indices == Purged(old(Contents()), horizon).indices;
    }

    /** `receive_message`; the handler has taken note of the index before. */
    method ReceiveMessage(m: Message<K, V>)
      requires Valid() && m.index.counter <= handler.counter
      modifies this
      ensures Valid() && Contents() == Received(old(Contents()), m)
    {
      var n := m.index;
      if IndexLess(horizon, n) {
        for i := 0 to |m.ops|
          invariant Valid() && Contents() == PerformedAll(old(Contents()), m.ops[..i], n)
        {
          assert m.ops[..i + 1][..i] == m.ops[..i];
          PerformOne(m.ops[i], n);
        }
        assert m.ops[..|m.ops|] == m.ops;
      }
    }

    /** One turn of the loop of `receive_message`. */
    method PerformOne(op: Op<K, V>, n: Index)
      requires Valid() && n.counter <= handler.counter
      modifies this
      ensures Valid() && Contents() == Performed(old(Contents()), op, n)
    {
      match op
      case Add(key, val) =>
        if key !in indices || IndexLess(indices[key], n) {
          dict := dict[key := val];
          indices := indices[key := n];
        }
      case Delete(key) =>
        if key !in indices {
          indices := indices[key := n];
        } else if IndexLess(indices[key], n) {
          indices := indices[key := n];
          if key in dict {
            dict := dict - {key};
          } else {
            assert dict - {key} == dict;
          }
        }
      case Clear =>
        horizon := n;
        Purge();
    }

    /** What the handler does with a message from the network. */
    method Deliver(m: Message<K, V>)
      requires Valid()
      modifies this, handler
      ensures Valid() && Contents() == Received(old(Contents()), m)
    {
      handler.Observe(m.index);
      ReceiveMessage(m);
    }

    /** `get_history`. */
    method GetHistory() returns (hist: State<K, V>)
      ensures hist == Contents()
    {
      hist := State(dict, indices, horizon);
    }

    /** `add_history`; the handler has taken note of the peer's clock before. */
    method AddHistory(hist: State<K, V>)
      requires Valid() && hist.dict.Keys <= hist.indices.Keys
      requires hist.horizon.counter <= handler.counter && forall k :: k in hist.indices ==> hist.indices[k].counter <= handler.counter
      modifies this
      ensures Valid() && Merged(PurgedTo(old(Contents()), hist.horizon), hist, Contents())
    {
      if IndexLess(horizon, hist.horizon) {
        horizon := hist.horizon;
        Purge();
      }
      ghost var q := Contents();
      var changed := MergeIndices(hist);
      var todo := changed;
      while todo != {}
        invariant todo <= changed && horizon == q.horizon
        invariant forall k :: k in indices <==> k in q.indices || Newer(q, hist, k)
        invariant forall k :: k in indices ==> indices[k] == if Newer(q, hist, k) then hist.indices[k] else q.indices[k]
        invariant forall k :: k in dict <==> if k in changed && k !in todo then k in hist.dict else k in q.dict
        invariant forall k :: k in dict ==> dict[k] == if k in changed && k !in todo then hist.dict[k] else q.dict[k]
        decreases todo
      {
        var k :| k in todo;
        todo := todo - {k};
        if k in hist.dict {
          dict := dict[k := hist.dict[k]];
        } else if k in dict {
          dict := dict - {k};
        }
      }
    }

    /** The first loop of `add_history`: takes over the indices that are newer. */
    method MergeIndices(hist: State<K, V>) returns (changed: set<K>)
      modifies `indices
      ensures changed <= hist.indices.Keys && forall k :: k in changed <==> Newer(old(Contents()), hist, k)
      ensures forall k :: k in indices <==> k in old(indices) || k in changed
      ensures forall k :: k in indices ==> indices[k] == if k in changed then hist.indices[k] else old(indices)[k]
    {
      ghost var q := Contents();
      changed := {};
      var todo := hist.indices.Keys;
      while todo != {}
        invariant todo <= hist.indices.Keys && changed !! todo && changed <= hist.indices.Keys
        invariant forall k :: k in changed <==> k !in todo && Newer(q, hist, k)
        invariant forall k :: k in indices <==> k in q.indices || k in changed
        invariant forall k :: k in indices ==> indices[k] == if k in changed then hist.indices[k] else q.indices[k]
        decreases todo
      {
        var k :| k in todo;
        todo := todo - {k};
        var n := hist.indices[k];
        if (k !in indices && IndexLess(horizon, n)) || (k in indices && IndexLess(indices[k], n)) {
          changed := changed + {k};
          indices := indices[k := n];
        }
      }
    }

    /** `__setitem__`: the same as receiving the message that is sent. */
    method SetItem(key: K, value: V, salt: nat) returns (m: Message<K, V>)
      requires Valid()
      modifies this, handler
      ensures Valid() && m == Message([Add(key, value)], Index(old(handler.counter) + 1, salt))
      ensures Contents() == Received(old(Contents()), m) && dict == old(dict)[key := value]
    {
      dict := dict[key := value];
      var n := handler.GetIndex(salt);
      m := Message([Add(key, value)], n);
      indices := indices[key := n];
      OneOp(old(Contents()), Add(key, value), n);
    }

    /** `__delitem__`; a missing key is an error. The message is the one meant; the one written is not a
        list of operations, and peers raise on it. */
    method DelItem(key: K, salt: nat) returns (ok: bool, m: Message<K, V>)
      requires Valid()
      modifies this, handler
      ensures Valid() && (ok <==> key in old(dict))
      ensures ok ==> m == Message([Delete(key)], Index(old(handler.counter) + 1, salt)) && Contents() == Received(old(Contents()), m)
      ensures dict == if ok then old(dict) - {key} else old(dict)
      ensures !ok ==> Contents() == old(Contents())
    {
      m := Message([Delete(key)], horizon);
      if key !in dict {
        return false, m;
      }
      dict := dict - {key};
      var n := handler.GetIndex(salt);
      m := Message([Delete(key)], n);
      indices := indices[key := n];
      OneOp(old(Contents()), Delete(key), n);
      ok := true;
    }

    /** `clear`, with the message meant, as for `__delitem__`. */
    method ClearAll(salt: nat) returns (m: Message<K, V>)
      requires Valid()
      modifies this, handler
      ensures Valid() && dict == map[] && m == Message([Clear], Index(old(handler.counter) + 1, salt))
      ensures Contents() == Received(old(Contents()), m)
    {
      dict := map[];
      indices := map[];
      var n := handler.GetIndex(salt);
      m := Message([Clear], n);
      horizon := n;
      OneOp(old(Contents()), Clear, n);
      assert Purged(old(Contents()), n).indices == map[];
      assert Purged(old(Contents()), n).dict == map[];
    }

    /** The first loop of `update`: makes the assignments that are new or different. */
    method NewPairs(pairs: map<K, V>) returns (ops: seq<Op<K, V>>)
      modifies `dict
      ensures dict == old(dict) + pairs && DistinctAdds(ops)
      ensures forall i :: 0 <= i < |ops| ==> ops[i].key in pairs && ops[i].value == pairs[ops[i].key]
      ensures forall k :: k in pairs ==> (Assigns(ops, |ops|, k) <==> !(k in old(dict) && old(dict)[k] == pairs[k]))
    {
      NothingAssigned<K, V>();
      hide Assigns;
      ops := [];
      var todo := pairs.Keys;
      while todo != {}
        invariant todo <= pairs.Keys && DistinctAdds(ops)
        invariant forall i :: 0 <= i < |ops| ==> ops[i].key in pairs && ops[i].key !in todo && ops[i].value == pairs[ops[i].key]
        invariant forall k :: k in pairs && k in todo ==> !Assigns(ops, |ops|, k)
        invariant forall k :: k in pairs && k !in todo ==> (Assigns(ops, |ops|, k) <==> !(k in old(dict) && old(dict)[k] == pairs[k]))
        invariant forall k :: k in dict <==> k in old(dict) || (k in pairs && k !in todo)
        invariant forall k :: k in dict ==> dict[k] == if k in pairs && k !in todo then pairs[k] else old(dict)[k]
        decreases todo
      {
        var k :| k in todo;
        todo := todo - {k};
        if k !in dict || dict[k] != pairs[k] {
          ghost var size := |ops|;
          MoreAssigns(ops, Add(k, pairs[k]));
          ops := ops + [Add(k, pairs[k])];
          assert |ops| == size + 1;
          dict := dict[k := pairs[k]];
        }
      }
    }

    /** The last loop of `update`. */
    method SetIndices(ops: seq<Op<K, V>>, n: Index)
      requires DistinctAdds(ops)
      modifies `indices
      ensures forall k :: k in indices <==> k in old(indices) || Assigns(ops, |ops|, k)
      ensures forall k :: k in indices ==> indices[k] == if Assigns(ops, |ops|, k) then n else old(indices)[k]
    {
      for i := 0 to |ops|
        invariant forall k :: k in indices <==> k in old(indices) || Assigns(ops, i, k)
        invariant forall k :: k in indices ==> indices[k] == if Assigns(ops, i, k) then n else old(indices)[k]
      {
        indices := indices[ops[i].key := n];
      }
    }

    /** What `update` is meant to do: one message for all pairs that are new or different. As written it
        has no parameter for the object, and every call raises. */
    method Update(pairs: map<K, V>, salt: nat) returns (m: Message<K, V>)
      requires Valid()
      modifies this, handler
      ensures Valid() && dict == old(dict) + pairs && m.index == Index(old(handler.counter) + 1, salt)
      ensures DistinctAdds(m.ops) && forall i :: 0 <= i < |m.ops| ==> m.ops[i].key in pairs && m.ops[i].value == pairs[m.ops[i].key]
      // Only pairs that are new or different are sent.
      ensures forall k :: k in pairs ==> (Assigns(m.ops, |m.ops|, k) <==> !(k in old(dict) && old(dict)[k] == pairs[k]))
      ensures Contents() == Received(old(Contents()), m)
    {
      ghost var s := Contents();
      var ops := NewPairs(pairs);
      var n := handler.GetIndex(salt);
      m := Message(ops, n);
      SetIndices(ops, n);
      Updated(s, ops, n, pairs, dict, indices);
    }

    /** `pop`, with the default as an option. */
    method Pop(key: K, default: Option<V>, salt: nat) returns (r: Option<V>, m: Option<Message<K, V>>)
      requires Valid()
      modifies this, handler
      ensures Valid() && r == if key in old(dict) then Some(old(dict)[key]) else default
      ensures key in old(dict) ==> m == Some(Message([Delete(key)], Index(old(handler.counter) + 1, salt)))
                                   && Contents() == Received(old(Contents()), m.value)
      ensures key !in old(dict) ==> m == None && Contents() == old(Contents())
    {
      r, m := default, None;
      if key in dict {
        r := Some(dict[key]);
        var ok, sent := DelItem(key, salt);
        m := Some(sent);
      }
    }
  }

  /** One operation with an index greater than all. */
  lemma OneOp<K, V>(s: State<K, V>, op: Op<K, V>, n: Index)
    requires IndexLess(s.horizon, n)
    ensures Received(s, Message([op], n)) == Performed(s, op, n)
  {
    assert [op][..0] == [];
    assert PerformedAll(s, [op], n) == Performed(PerformedAll(s, [op][..0], n), op, n);
  }

  /** Assignments to distinct keys. */
  ghost predicate DistinctAdds<K, V>(ops: seq<Op<K, V>>) {
    && (forall i :: 0 <= i < |ops| ==> ops[i].Add?)
    && forall i, j :: 0 <= i < j < |ops| ==> ops[i].key != ops[j].key
  }

  /** One of the first n assignments is to k. */
  ghost predicate Assigns<K, V>(ops: seq<Op<K, V>>, n: nat, k: K)
    requires n <= |ops| && forall i :: 0 <= i < |ops| ==> ops[i].Add?
  {
    exists i :: 0 <= i < n && ops[i].key == k
  }

  lemma NothingAssigned<K(!new), V(!new)>()
    ensures forall k: K :: !Assigns<K, V>([], 0, k)
  {
  }

  lemma MoreAssigns<K(!new), V>(ops: seq<Op<K, V>>, op: Op<K, V>)
    requires DistinctAdds(ops) && op.Add? && forall i :: 0 <= i < |ops| ==> ops[i].key != op.key
    ensures DistinctAdds(ops + [op])
    ensures forall k :: Assigns(ops + [op], |ops| + 1, k) <==> Assigns(ops, |ops|, k) || op.key == k
  {
    var more := ops + [op];
    assert more[|ops|] == op && forall i :: 0 <= i < |ops| ==> more[i] == ops[i];
    assert DistinctAdds(more);
    forall k
      ensures Assigns(more, |ops| + 1, k) <==> Assigns(ops, |ops|, k) || op.key == k
    {
      if Assigns(ops, |ops|, k) {
        var i :| 0 <= i < |ops| && ops[i].key == k;
        assert more[i].key == k;
      }
    }
  }

  lemma Updated<K(!new), V(!new)>(s: State<K, V>, ops: seq<Op<K, V>>, n: Index, pairs: map<K, V>, dict: map<K, V>, indices: map<K, Index>)
    requires DistinctAdds(ops) && IndexLess(s.horizon, n) && forall x :: x in s.indices ==> IndexLess(s.indices[x], n)
    requires dict == s.dict + pairs
    requires forall i :: 0 <= i < |ops| ==> ops[i].key in pairs && ops[i].value == pairs[ops[i].key]
    requires forall k :: k in pairs ==> Assigns(ops, |ops|, k) || (k in s.dict && s.dict[k] == pairs[k])
    requires forall k :: k in indices <==> k in s.indices || Assigns(ops, |ops|, k)
    requires forall k :: k in indices ==> indices[k] == if Assigns(ops, |ops|, k) then n else s.indices[k]
    ensures Received(s, Message(ops, n)) == State(dict, indices, s.horizon)
  {
    var t := PerformedAll(s, ops, n);
    forall k
      ensures (k in t.indices <==> k in indices) && (k in indices ==> t.indices[k] == indices[k])
      ensures (k in t.dict <==> k in dict) && (k in dict ==> t.dict[k] == dict[k])
    {
      AddsPerformed(s, ops, n, k);
    }
    AddsHorizon(s, ops, n);
    assert t.indices == indices && t.dict == dict;
  }

  lemma {:induction false} AddsHorizon<K, V>(s: State<K, V>, ops: seq<Op<K, V>>, n: Index)
    requires DistinctAdds(ops)
    ensures PerformedAll(s, ops, n).horizon == s.horizon
    decreases |ops|
  {
    if ops != [] { AddsHorizon(s, ops[..|ops| - 1], n); }
  }

  lemma {:induction false} AddsPerformed<K, V>(s: State<K, V>, ops: seq<Op<K, V>>, n: Index, k: K)
    requires DistinctAdds(ops) && forall x :: x in s.indices ==> IndexLess(s.indices[x], n)
    ensures var t := PerformedAll(s, ops, n);
            && (k in t.indices <==> k in s.indices || Assigns(ops, |ops|, k))
            && ((forall i :: 0 <= i < |ops| ==> ops[i].key != k) ==>
                  (k in s.indices ==> t.indices[k] == s.indices[k]) && (k in t.dict <==> k in s.dict) && (k in s.dict ==> t.dict[k] == s.dict[k]))
            && (forall i :: 0 <= i < |ops| && ops[i].key == k ==> t.indices[k] == n && k in t.dict && t.dict[k] == ops[i].value)
    decreases |ops|
  {
    if ops != [] {
      var front, last := ops[..|ops| - 1], ops[|ops| - 1];
      assert forall i :: 0 <= i < |front| ==> front[i] == ops[i];
      AddsPerformed(s, front, n, k);
      AddsPerformed(s, front, n, last.key);
    }
  }

  // -------------------------------------------------------------------------
  // Runs of the object
  // -------------------------------------------------------------------------

  /** What can happen to a replica. The numbers named salt are the random bits used; a history comes
      with the messages it stands for. */
  datatype Event<!K(==), V(==)> =
    | Assign(key: K, value: V, salt: nat)
    | Unset(key: K, salt: nat)
    | ClearIt(salt: nat)
    | AssignAll(pairs: map<K, V>, salt: nat)
    | Take(key: K, default: Option<V>, salt: nat)
    | Arrival(m: Message<K, V>)
    | History(hist: State<K, V>, index: Index, known: set<Message<K, V>>, from: Index)

  /** What peers that run this code send. */
  ghost predicate Possible<K(!new), V(!new)>(e: Event<K, V>) {
    match e
    case Arrival(m) => Plain(m)
    case History(hist, i, known, from) =>
      && Reflects(hist, known, from) && AllPlain(known)
      && hist.horizon.counter <= i.counter && forall k :: k in hist.indices ==> hist.indices[k].counter <= i.counter
    case _ => true
  }

  ghost function Arrived<K, V>(e: Event<K, V>): set<Message<K, V>> {
    match e
    case Arrival(m) => {m}
    case History(_, _, known, _) => known
    case _ => {}
  }

  /** The first horizon that counts after an event. */
  ghost function StartAfter<K, V>(start: Index, e: Event<K, V>): Index {
    if e.History? then Later(start, e.from) else start
  }

  lemma FewerAreUnique<K(!new), V(!new)>(ms: set<Message<K, V>>, start: Index, more: set<Message<K, V>>, later: Index)
    requires UniquelyIndexed(more, later) && ms <= more && !IndexLess(later, start)
    ensures UniquelyIndexed(ms, start)
  {
    forall m | m in ms
      ensures IndexLess(start, m.index)
    {
      IndexIsTotal(start, later, m.index);
      IndexIsTotal(later, m.index, start);
    }
  }

  /** One message more, new or known. */
  lemma OneMoreMessage<K(!new), V(!new)>(s: State<K, V>, ms: set<Message<K, V>>, start: Index, m: Message<K, V>)
    requires UniquelyIndexed(ms + {m}, start) && Reflects(s, ms, start)
    ensures Reflects(Received(s, m), ms + {m}, start)
  {
    hide Reflects, UniquelyIndexed;
    if m in ms {
      ReceiveKnown(s, ms, start, m);
      assert ms + {m} == ms;
    } else {
      ReceiveNew(s, ms, start, m);
    }
  }

  /** What the step promises: if the state was what the messages say, it still is. */
  ghost predicate StillReflects<K(!new), V(!new)>(s: State<K, V>, ms: set<Message<K, V>>, start: Index,
                                                  t: State<K, V>, ms': set<Message<K, V>>, start': Index) {
    UniquelyIndexed(ms', start') && AllPlain(ms) && Reflects(s, ms, start) ==> Reflects(t, ms', start') && AllPlain(ms')
  }

  lemma {:induction false} LocalStep<K(!new), V(!new)>(s: State<K, V>, ms: set<Message<K, V>>, start: Index, m: Message<K, V>)
    requires Plain(m)
    ensures StillReflects(s, ms, start, Received(s, m), ms + {m}, start)
  {
    hide Reflects;
    if UniquelyIndexed(ms + {m}, start) && Reflects(s, ms, start) { OneMoreMessage(s, ms, start, m); }
  }

  lemma {:induction false} MergeStep<K(!new), V(!new)>(s: State<K, V>, ms: set<Message<K, V>>, start: Index, e: Event<K, V>, t: State<K, V>)
    requires e.History? && Possible(e) && Merged(PurgedTo(s, e.hist.horizon), e.hist, t)
    ensures StillReflects(s, ms, start, t, ms + e.known, StartAfter(start, e))
  {
    hide Reflects, UniquelyIndexed, Merged;
    var later := Later(start, e.from);
    if UniquelyIndexed(ms + e.known, later) && AllPlain(ms) && Reflects(s, ms, start) {
      IndexIsTotal(start, e.from, later);
      FewerAreUnique(ms + e.known, start, ms + e.known, later);
      FewerAreUnique(ms + e.known, e.from, ms + e.known, later);
      PlainMergesWell(s, start, e.hist, e.from, ms, e.known);
      MergeReflects(s, start, e.hist, e.from, t, ms, e.known);
    }
  }

  lemma {:induction false} NothingStep<K(!new), V(!new)>(s: State<K, V>, ms: set<Message<K, V>>, start: Index)
    ensures StillReflects(s, ms, start, s, ms, start)
  {
  }

  method Handle<K(!new, ==), V(!new, ==)>(d: CausalDict<K, V>, e: Event<K, V>, ghost ms: set<Message<K, V>>, ghost start: Index)
    returns (sent: seq<Message<K, V>>, ghost next: set<Message<K, V>>)
    requires d.Valid() && Possible(e)
    modifies d, d.handler
    ensures d.Valid()
    ensures next == ms + SetOfMessages(sent) + Arrived(e)
    ensures StillReflects(old(d.Contents()), ms, start, d.Contents(), next, StartAfter(start, e))
  {
    hide Reflects, UniquelyIndexed, AllPlain, Merged, Received, StillReflects;
    ghost var s := d.Contents();
    NothingStep(s, ms, start);
    var m: Message<K, V>;
    sent := [];
    match e {
      case Assign(key, value, salt) =>
        m := d.SetItem(key, value, salt);
        sent := [m];
      case Unset(key, salt) =>
        var ok;
        ok, m := d.DelItem(key, salt);
        sent := if ok then [m] else [];
      case ClearIt(salt) =>
        m := d.ClearAll(salt);
        sent := [m];
      case AssignAll(pairs, salt) =>
        m := d.Update(pairs, salt);
        sent := [m];
      case Take(key, default, salt) =>
        var _, om := d.Pop(key, default, salt);
        sent := if om.Some? then [om.value] else [];
      case Arrival(am) =>
        d.Deliver(am);
        LocalStep(s, ms, start, am);
      case History(hist, i, known, from) =>
        d.handler.Observe(i);
        HistoryKeys(hist, known, from);
        d.AddHistory(hist);
        MergeStep(s, ms, start, e, d.Contents());
    }
    if sent != [] {
      LocalStep(s, ms, start, sent[0]);
      OneSent(ms, sent);
    } else {
      NothingSent(ms, Arrived(e));
    }
    next := ms + SetOfMessages(sent) + Arrived(e);
  }

  lemma OneSent<K(!new), V(!new)>(ms: set<Message<K, V>>, sent: seq<Message<K, V>>)
    requires |sent| == 1
    ensures ms + SetOfMessages(sent) + {} == ms + {sent[0]}
  {
    assert SetOfMessages(sent) == {sent[0]};
  }

  lemma NothingSent<K(!new), V(!new)>(ms: set<Message<K, V>>, arrived: set<Message<K, V>>)
    ensures ms + SetOfMessages<K, V>([]) + arrived == ms + arrived
    ensures arrived == {} ==> ms + arrived == ms
  {
  }

  lemma HistoryKeys<K(!new), V(!new)>(p: State<K, V>, ps: set<Message<K, V>>, from: Index)
    requires Reflects(p, ps, from)
    ensures p.dict.Keys <= p.indices.Keys
  {
    forall k | k in p.dict
      ensures k in p.indices
    {
      assert EntryReflects(p, ps, k);
    }
  }

  ghost function AllArrived<K(!new), V(!new)>(events: seq<Event<K, V>>): set<Message<K, V>>
    decreases |events|
  {
    if events == [] then {} else AllArrived(events[..|events| - 1]) + Arrived(events[|events| - 1])
  }

  ghost function LastStart<K(!new), V(!new)>(start: Index, events: seq<Event<K, V>>): Index
    decreases |events|
  {
    if events == [] then start else StartAfter(LastStart(start, events[..|events| - 1]), events[|events| - 1])
  }

  lemma {:induction false} OneMoreEvent<K(!new), V(!new)>(start: Index, events: seq<Event<K, V>>, i: nat)
    requires i < |events|
    ensures AllArrived(events[..i + 1]) == AllArrived(events[..i]) + Arrived(events[i])
    ensures LastStart(start, events[..i + 1]) == StartAfter(LastStart(start, events[..i]), events[i])
    ensures !IndexLess(LastStart(start, events[..i + 1]), LastStart(start, events[..i]))
  {
    assert events[..i + 1][..i] == events[..i];
    if events[i].History? { IndexIsTotal(LastStart(start, events[..i]), events[i].from, start); }
  }

  lemma {:induction false} NoEvents<K(!new), V(!new)>(start: Index)
    ensures AllArrived<K, V>([]) == {} && LastStart<K, V>(start, []) == start
  {
  }

  lemma {:induction false} StepsAdd<K(!new), V(!new)>(s: State<K, V>, ms: set<Message<K, V>>, start: Index,
                                     t: State<K, V>, mt: set<Message<K, V>>, st: Index,
                                     u: State<K, V>, mu: set<Message<K, V>>, su: Index)
    requires StillReflects(s, ms, start, t, mt, st) && StillReflects(t, mt, st, u, mu, su)
    requires mt <= mu && !IndexLess(su, st)
    ensures StillReflects(s, ms, start, u, mu, su)
  {
    hide Reflects, AllPlain, UniquelyIndexed;
    if UniquelyIndexed(mu, su) { FewerAreUnique(mt, st, mu, su); }
  }

  /** A whole run of a replica: after any local operations, messages in any order with repetitions, and
      merges of peers' histories, dictionary, indices and horizon are what all the messages say,
      provided their indices are distinct and above all first horizons. */
  method RunReplica<K(!new, ==), V(!new, ==)>(d: CausalDict<K, V>, events: seq<Event<K, V>>, ghost ms: set<Message<K, V>>, ghost start: Index)
    returns (sent: seq<Message<K, V>>)
    requires d.Valid() && AllPlain(ms) && Reflects(d.Contents(), ms, start)
    requires forall i :: 0 <= i < |events| ==> Possible(events[i])
    modifies d, d.handler
    ensures d.Valid()
    ensures var all := ms + SetOfMessages(sent) + AllArrived(events);
            UniquelyIndexed(all, LastStart(start, events)) ==> Reflects(d.Contents(), all, LastStart(start, events))
  {
    hide Reflects, UniquelyIndexed, AllPlain, Possible, StillReflects;
    sent := [];
    NoEvents<K, V>(start);
    ghost var s, now, st := d.Contents(), ms, start;
    NothingStep(s, ms, start);
    assert SetOfMessages<K, V>([]) == {} && events[..0] == [] && events[..|events|] == events;
    for i := 0 to |events|
      invariant d.Valid() && st == LastStart(start, events[..i])
      invariant now == ms + SetOfMessages(sent) + AllArrived(events[..i])
      invariant StillReflects(s, ms, start, d.Contents(), now, st)
    {
      OneMoreEvent(start, events, i);
      ghost var t := d.Contents();
      var more, next := Handle(d, events[i], now, st);
      StepsAdd(s, ms, start, t, now, st, d.Contents(), next, StartAfter(st, events[i]));
      assert SetOfMessages(sent + more) == SetOfMessages(sent) + SetOfMessages(more);
      sent := sent + more;
      assert next == ms + SetOfMessages(sent) + AllArrived(events[..i + 1]);
      now, st := next, StartAfter(st, events[i]);
    }
    Unhidden(s, ms, start, d.Contents(), now, st);
  }

  lemma Unhidden<K(!new), V(!new)>(s: State<K, V>, ms: set<Message<K, V>>, start: Index, t: State<K, V>, ms': set<Message<K, V>>, start': Index)
    requires StillReflects(s, ms, start, t, ms', start') && AllPlain(ms) && Reflects(s, ms, start)
    ensures UniquelyIndexed(ms', start') ==> Reflects(t, ms', start')
  {
  }

  /** Two fresh replicas that went through any runs and have had the same messages hold the same
      dictionary and indices; their horizons agree exactly when some message clears or the later of
      the first horizons agree. */
  method RunTwo<K(!new, ==), V(!new, ==)>(a: CausalDict<K, V>, ea: seq<Event<K, V>>, b: CausalDict<K, V>, eb: seq<Event<K, V>>)
    returns (sentA: seq<Message<K, V>>, sentB: seq<Message<K, V>>)
    requires a.Valid() && b.Valid() && a != b && a.handler != b.handler
    requires a.Contents() == Empty(a.horizon) && b.Contents() == Empty(b.horizon)
    requires (forall i :: 0 <= i < |ea| ==> Possible(ea[i])) && (forall i :: 0 <= i < |eb| ==> Possible(eb[i]))
    modifies a, a.handler, b, b.handler
    ensures a.Valid() && b.Valid()
    ensures var all, sa, sb := SetOfMessages(sentA) + AllArrived(ea), LastStart(old(a.horizon), ea), LastStart(old(b.horizon), eb);
            all == SetOfMessages(sentB) + AllArrived(eb) && UniquelyIndexed(all, sa) && UniquelyIndexed(all, sb) ==>
              && a.dict == b.dict && a.indices == b.indices
              && (a.horizon == b.horizon <==> SomeClears(all) || sa == sb)
  {
    hide Reflects, UniquelyIndexed, Possible, AllArrived, LastStart;
    ghost var sa, sb := a.horizon, b.horizon;
    NothingReceived<K, V>(sa);
    NothingReceived<K, V>(sb);
    sentA := RunReplica(a, ea, {}, sa);
    sentB := RunReplica(b, eb, {}, sb);
    ghost var all := SetOfMessages(sentA) + AllArrived(ea);
    assert {} + SetOfMessages(sentA) + AllArrived(ea) == all;
    assert {} + SetOfMessages(sentB) + AllArrived(eb) == SetOfMessages(sentB) + AllArrived(eb);
    if all == SetOfMessages(sentB) + AllArrived(eb) && UniquelyIndexed(all, LastStart(sa, ea)) && UniquelyIndexed(all, LastStart(sb, eb)) {
      ReflectsOnce(a.Contents(), LastStart(sa, ea), b.Contents(), LastStart(sb, eb), all);
    }
  }
}
