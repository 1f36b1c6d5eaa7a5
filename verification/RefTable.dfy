/** The references that the auxiliary library keeps inside a table: free slots form a list that
    begins at slot 0. */
module RefTable {
  import opened Options

  /** A value that is not nil; nil is the absence of a slot. */
  datatype Value = Number(n: int) | Other(id: int)

  type Table = map<int, Value>

  const FREELIST_REF: int := 0
  const LUA_REFNIL: int := -1

  /** `lua_rawgeti`. */
  function Get(t: Table, i: int): Option<Value> {
    if i in t then Some(t[i]) else None
  }

  /** `lua_rawseti`. */
  function Set(t: Table, i: int, v: Option<Value>): Table {
    match v
    case None => t - {i}
    case Some(x) => t[i := x]
  }

  /** `lua_tointeger`: anything that is not a number counts as 0. */
  function ToInteger(v: Option<Value>): int {
    match v
    case Some(Number(n)) => n
    case _ => 0
  }

  /** Any n with t[n] present, or 0, and t[n + 1] absent may be the length of a table. */
  predicate IsBorder(t: Table, n: nat) {
    (n == 0 || n in t) && n + 1 !in t
  }

  /** What slot i of the free list holds: the next free slot, or nothing. */
  function Link(free: seq<int>, i: nat): Option<Value>
    requires i <= |free|
  {
    if i < |free| then Some(Number(free[i])) else None
  }

  /** Slots 1 to n are live or free, not both. */
  ghost predicate Shared(n: nat, live: map<int, Value>, free: seq<int>) {
    && (forall i, j :: 0 <= i < j < |free| ==> free[i] != free[j])
    && (forall k :: k in live || k in free <==> 1 <= k <= n)
    && (forall k :: k in free ==> k !in live)
  }

  /** The free slots form a chain from slot 0 to the end. */
  ghost predicate Chained(t: Table, free: seq<int>) {
    Get(t, FREELIST_REF) == Link(free, 0) && forall i :: 0 <= i < |free| ==> Get(t, free[i]) == Link(free, i + 1)
  }

  /** The table as a whole: slots 1 to n are either live and hold their values, or free, each free
      one holding the next; nothing is beyond n. */
  ghost predicate Laid(t: Table, n: nat, live: map<int, Value>, free: seq<int>) {
    && Shared(n, live, free) && Chained(t, free)
    && (forall k :: k in live ==> Get(t, k) == Some(live[k]))
    && (forall k :: k > n ==> Get(t, k) == None)
  }

  ghost function Slots(n: nat): set<int> {
    if n == 0 then {} else Slots(n - 1) + {n}
  }

  lemma {:induction false} Upto(n: nat)
    ensures |Slots(n)| == n && forall k :: k in Slots(n) <==> 1 <= k <= n
  {
    if n > 0 { Upto(n - 1); }
  }

  lemma {:induction false} DistinctSize(s: seq<int>)
    requires forall i, j :: 0 <= i < j < |s| ==> s[i] != s[j]
    ensures |set k | k in s| == |s|
  {
    if s != [] {
      var front, last := s[..|s| - 1], s[|s| - 1];
      DistinctSize(front);
      assert (set k | k in s) == (set k | k in front) + {last};
    }
  }

  /** Live and free slots are all there are. */
  lemma Counted(t: Table, n: nat, live: map<int, Value>, free: seq<int>)
    requires Laid(t, n, live, free)
    ensures |live| + |free| == n
  {
    hide Slots, Get, Link;
    Upto(n);
    DistinctSize(free);
    var f := set k | k in free;
    assert forall k :: k in Slots(n) <==> k in live.Keys || k in f;
    assert live.Keys !! f;
    SameSize(Slots(n), live.Keys, f);
  }

  lemma SameSize(all: set<int>, a: set<int>, b: set<int>)
    requires a !! b && forall k :: k in all <==> k in a || k in b
    ensures |all| == |a| + |b|
  {
    forall k
      ensures k in all <==> k in a + b
    {
      assert k in all <==> k in a || k in b;
    }
    assert all == a + b;
  }

  class Registry {
    var table: Table
    ghost var live: map<int, Value>
    ghost var free: seq<int>
    /** The greatest number of live references there has been. */
    ghost var peak: nat

    ghost predicate Valid()
      reads this
    {
      Laid(table, peak, live, free)
    }

    constructor ()
      ensures Valid() && live == map[] && peak == 0
    {
      table, live, free, peak := map[], map[], [], 0;
    }

    /** `luaL_ref`; length is what `lua_objlen` gives for the table as it is, some border of it. */
    method Ref(v: Option<Value>, length: nat) returns (ref: int)
      requires Valid() && IsBorder(table, length)
      modifies this
      ensures Valid()
      ensures v.None? ==> ref == LUA_REFNIL && table == old(table) && live == old(live) && peak == old(peak)
      ensures v.Some? ==> ref >= 1 && ref !in old(live) && live == old(live)[ref := v.value]
      ensures v.Some? ==> if old(free) != [] then ref == old(free)[0] && free == old(free)[1..] else ref == |old(live)| + 1 && free == []
      ensures v.Some? ==> peak == if old(peak) < |live| then |live| else old(peak)
    {
      Counted(table, peak, live, free);
      if v.None? {
        return LUA_REFNIL;
      }
      FirstFree(table, peak, live, free);
      ref := ToInteger(Get(table, FREELIST_REF));
      if ref != 0 {
        TakeFree(table, peak, live, free, v.value);
        table := Set(table, FREELIST_REF, Get(table, ref));
        free := free[1..];
      } else {
        OnlyBorder(table, peak, live, length);
        TakeNew(table, peak, live, v.value);
        ref := length;
        ref := ref + 1;
        peak := peak + 1;
      }
      table := Set(table, ref, v);
      live := live[ref := v.value];
      Counted(table, peak, live, free);
    }

    /** `luaL_unref`, for a live reference; the negative ones are ignored. */
    method Unref(ref: int)
      requires Valid() && (ref >= 0 ==> ref in live)
      modifies this
      ensures Valid() && peak == old(peak)
      ensures live == if ref >= 0 then old(live) - {ref} else old(live)
      ensures ref >= 0 ==> free == [ref] + old(free)
      ensures ref < 0 ==> table == old(table)
    {
      if ref >= 0 {
        GiveBack(table, peak, live, free, ref);
        table := Set(table, ref, Get(table, FREELIST_REF));
        table := Set(table, FREELIST_REF, Some(Number(ref)));
        live := live - {ref};
        free := [ref] + free;
      }
    }

    /** What a live reference gives access to. */
    method Lookup(ref: int) returns (v: Option<Value>)
      requires Valid() && ref in live
      ensures v == Some(live[ref])
    {
      v := Get(table, ref);
    }
  }

  /** With nothing free, the length of the table is the number of slots. */
  lemma OnlyBorder(t: Table, n: nat, live: map<int, Value>, length: nat)
    requires Laid(t, n, live, []) && IsBorder(t, length)
    ensures length == n
  {
    assert length < n ==> length + 1 in live;
    assert n < length ==> Get(t, length) == None;
  }

  lemma FirstFree(t: Table, n: nat, live: map<int, Value>, free: seq<int>)
    requires Laid(t, n, live, free)
    ensures ToInteger(Get(t, FREELIST_REF)) == if free == [] then 0 else free[0]
    ensures free != [] ==> 1 <= free[0] <= n && free[0] !in live
  {
    if free != [] { assert free[0] in free; }
  }

  /** Taking the first free slot. */
  lemma TakeFree(t: Table, n: nat, live: map<int, Value>, free: seq<int>, v: Value)
    requires Laid(t, n, live, free) && free != []
    ensures Laid(Set(Set(t, FREELIST_REF, Get(t, free[0])), free[0], Some(v)), n, live[free[0] := v], free[1..])
  {
    hide Set, Get, Shared, Chained, Link;
    var r := free[0];
    var t' := Set(Set(t, FREELIST_REF, Get(t, r)), r, Some(v));
    FirstFree(t, n, live, free);
    FirstLink(t, free);
    SetTwice(t, FREELIST_REF, r, Get(t, r), Some(v));
    SharedFacts(n, live, free);
    TakeShared(n, live, free, v);
    TakeChained(t, t', free);
  }

  lemma SharedFacts(n: nat, live: map<int, Value>, free: seq<int>)
    requires Shared(n, live, free)
    ensures forall i, j :: 0 <= i < j < |free| ==> free[i] != free[j]
    ensures forall i :: 0 <= i < |free| ==> 1 <= free[i] <= n && free[i] !in live
    ensures forall k :: k in live ==> 1 <= k <= n
  {
    forall i | 0 <= i < |free|
      ensures 1 <= free[i] <= n && free[i] !in live
    {
      assert free[i] in free;
    }
  }

  lemma SetTwice(t: Table, i: int, j: int, v: Option<Value>, w: Option<Value>)
    ensures forall k :: Get(Set(Set(t, i, v), j, w), k) == if k == j then w else if k == i then v else Get(t, k)
  {
  }

  lemma FirstLink(t: Table, free: seq<int>)
    requires Chained(t, free) && free != []
    ensures Get(t, free[0]) == Link(free, 1)
  {
  }

  lemma TakeShared(n: nat, live: map<int, Value>, free: seq<int>, v: Value)
    requires Shared(n, live, free) && free != []
    ensures Shared(n, live[free[0] := v], free[1..]) && 1 <= free[0] <= n && free[0] !in live
  {
    var r, rest := free[0], free[1..];
    Rest(free);
    assert r in free;
    forall k
      ensures k in live[r := v] || k in rest <==> 1 <= k <= n
    {
      assert k in live || k in free <==> 1 <= k <= n;
    }
  }

  lemma TakeChained(t: Table, t': Table, free: seq<int>)
    requires free != [] && Chained(t, free) && 1 <= free[0] && (forall i, j :: 0 <= i < j < |free| ==> free[i] != free[j])
    requires forall i :: 0 <= i < |free| ==> free[i] != FREELIST_REF
    requires Get(t', FREELIST_REF) == Link(free, 1)
    requires forall k :: k != free[0] && k != FREELIST_REF ==> Get(t', k) == Get(t, k)
    ensures Chained(t', free[1..])
  {
    hide Get;
    var rest := free[1..];
    forall i | 0 <= i < |rest|
      ensures Get(t', rest[i]) == Link(rest, i + 1)
    {
      assert rest[i] == free[i + 1];
    }
  }

  lemma Rest(free: seq<int>)
    requires free != [] && forall i, j :: 0 <= i < j < |free| ==> free[i] != free[j]
    ensures forall k :: k in free[1..] <==> k in free && k != free[0]
  {
    assert free == [free[0]] + free[1..];
    assert forall i :: 0 <= i < |free[1..]| ==> free[1..][i] == free[i + 1];
  }

  /** Taking a slot behind the others. */
  lemma TakeNew(t: Table, n: nat, live: map<int, Value>, v: Value)
    requires Laid(t, n, live, [])
    ensures Laid(Set(t, n + 1, Some(v)), n + 1, live[n + 1 := v], [])
  {
    hide Set;
    SetOnce(t, n + 1, Some(v));
    SharedFacts(n, live, []);
  }

  lemma SetOnce(t: Table, i: int, v: Option<Value>)
    ensures forall k :: Get(Set(t, i, v), k) == if k == i then v else Get(t, k)
  {
  }

  /** Giving a slot back. */
  lemma GiveBack(t: Table, n: nat, live: map<int, Value>, free: seq<int>, r: int)
    requires Laid(t, n, live, free) && r in live
    ensures Laid(Set(Set(t, r, Get(t, FREELIST_REF)), FREELIST_REF, Some(Number(r))), n, live - {r}, [r] + free)
  {
    hide Set, Get, Shared, Chained;
    SetTwice(t, r, FREELIST_REF, Get(t, FREELIST_REF), Some(Number(r)));
    SharedFacts(n, live, free);
    GiveShared(n, live, free, r);
    GiveChained(t, Set(Set(t, r, Get(t, FREELIST_REF)), FREELIST_REF, Some(Number(r))), free, r);
  }

  lemma GiveShared(n: nat, live: map<int, Value>, free: seq<int>, r: int)
    requires Shared(n, live, free) && r in live
    ensures Shared(n, live - {r}, [r] + free)
  {
    var more := [r] + free;
    forall i, j | 0 <= i < j < |more|
      ensures more[i] != more[j]
    {
      assert free[j - 1] in free;
    }
    forall k
      ensures k in live - {r} || k in more <==> 1 <= k <= n
    {
      assert k in live || k in free <==> 1 <= k <= n;
    }
  }

  lemma GiveChained(t: Table, t': Table, free: seq<int>, r: int)
    requires Chained(t, free) && r != FREELIST_REF && forall i :: 0 <= i < |free| ==> free[i] != r && free[i] != FREELIST_REF
    requires forall k :: Get(t', k) == if k == FREELIST_REF then Some(Number(r)) else if k == r then Get(t, FREELIST_REF) else Get(t, k)
    ensures Chained(t', [r] + free)
  {
    hide Get;
    var more := [r] + free;
    forall i | 0 <= i < |more|
      ensures Get(t', more[i]) == Link(more, i + 1)
    {
      if i > 0 { assert more[i] == free[i - 1]; }
    }
  }
}
