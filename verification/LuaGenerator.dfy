/** The code generator for conditions: its state, its patch lists and its way through an
    expression. */
module LuaGenerator {
  import opened LuaCode
  import opened LuaExpressions
  import opened LuaForesight
  import opened Options

  /** The two syntax errors of this part: "control structure too long" and "function or expression
      too complex". */
  datatype Status = Ok | TooLong | TooComplex {
    predicate IsFailure() {
      !Ok?
    }

    function PropagateFailure(): Status
      requires IsFailure()
    {
      this
    }
  }

  /** What is being compiled: the state at the start, the jumps on the two lists, the expression and
      the first register that was free. */
  datatype Task = Task(g0: Gen, tl: seq<nat>, fl: seq<nat>, x: Goal, base: nat)

  function FormOf(k: Kind): Form {
    match k
    case VTRUE => IsTrue
    case VFALSE => IsFalseItself
    case VKNUM(_) => IsFixed
    case VK(_) => IsFixed
    case VLOCAL => InSomePlace
    case VNONRELOC => InSomePlace
    case VRELOCABLE => IsNot
    case VJMP => IsCompare
  }

  /** The first operand is done as foreseen. */
  ghost predicate FirstSeen(g: Gen, op: BinOp, p: Foreseen, k: Task, s: seq<nat>) {
    if op.And? || op.Or? then
      var b := Decided(p, op.And?);
      k.x == b.goal && (HasValues(g.code, s) ==> b.v) && (HasValues(g.code, g.here) ==> b.hv)
    else
      k.x == Materialized(p.goal) && (HasValues(g.code, g.here) ==> p.hv)
  }

  /** Every jump of the list brings a value. */
  ghost predicate AllBring(code: seq<Instruction>, s: seq<nat>) {
    forall j :: j in s && j < |code| ==> ByTestSet(code, j)
  }

  /** The greatest place in the constant table that fits into an operand. */
  const MAXINDEXRK: int := 255

  /** The value is in a register or a constant, on every path. */
  ghost function Emptied(k: Task): Task {
    Task(k.g0, [], [], Materialized(k.x), k.base)
  }

  /** Registers that may be needed above the first free one. */
  function Temps(x: Expr): nat {
    match x
    case Not(e) => Max(Temps(e), 1)
    case Binary(op, l, r) =>
      if op.And? || op.Or? then Max(Max(Temps(l), Temps(r)), 1) else Max(Temps(l), 1 + Max(Temps(r), 1))
    case _ => 0
  }

  function Max(a: nat, b: nat): nat {
    if a < b then b else a
  }

  class FuncState {
    var code: seq<Instruction>
    var jpc: int
    var freereg: nat
    var maxstacksize: nat
    /** The constants of the function. */
    var consts: seq<Value>
    const nactvar: nat
    ghost var pend: set<nat>
    ghost var here: seq<nat>

    ghost function G(): Gen
      reads this
    {
      Gen(code, pend, here)
    }

    /** The jumps waiting for the next instruction form the list jpc. */
    ghost predicate Waiting()
      reads this
    {
      && Chain(code, jpc, here) && Distinct(here)
    }

    ghost predicate Valid()
      reads this
    {
      && Ready(G()) && Chain(code, jpc, here)
      && nactvar <= freereg <= maxstacksize < MAXSTACK
    }

    constructor (nactvar: nat)
      requires nactvar < MAXSTACK
      ensures Valid() && code == [] && pend == {} && here == []
      ensures this.nactvar == nactvar && freereg == nactvar
    {
      code := [];
      jpc := NO_JUMP;
      freereg := nactvar;
      maxstacksize := nactvar;
      consts := [];
      this.nactvar := nactvar;
      pend := {};
      here := [];
    }

    // -----------------------------------------------------------------------
    // Patch lists
    // -----------------------------------------------------------------------

    method FixJump(pc: nat, dest: int) returns (st: Status)
      requires pc < |code| && code[pc].JMP? && 0 <= dest <= |code|
      modifies this`code
      ensures st.Ok? ==> code == old(code)[pc := JMP(dest - (pc + 1))]
      ensures !st.Ok? ==> code == old(code) && st.TooLong? && |code| > MAXARG_SBX
    {
      var offset := dest - (pc + 1);
      if offset > MAXARG_SBX || -offset > MAXARG_SBX {
        return TooLong;
      }
      code := code[pc := JMP(offset)];
      st := Ok;
    }

    /** Appends the second list to the first. */
    method Concat(l1: int, l2: int, ghost s: seq<nat>, ghost t: seq<nat>) returns (st: Status, l: int)
      requires Chain(code, l1, s) && Chain(code, l2, t) && Distinct(s + t)
      modifies this`code
      ensures st.Ok? ==> Chain(code, l, s + t) && Relinked(old(code), code, Positions(s))
      ensures st.Ok? && (s == [] || t == []) ==> code == old(code)
      ensures !st.Ok? ==> st.TooLong? && |code| > MAXARG_SBX
      ensures |code| == |old(code)|
    {
      l := l1;
      st := Ok;
      if l2 == NO_JUMP {
        assert s + t == s;
        return;
      }
      if l1 == NO_JUMP {
        assert s + t == t;
        l := l2;
        return;
      }
      ChainMembers(code, l1, s);
      ChainMembers(code, l2, t);
      var list := l1;
      ghost var i := 0;
      var next := GetJump(code, list);
      while next != NO_JUMP
        invariant code == old(code)
        invariant 0 <= i < |s| && list == s[i] && Chain(code, list, s[i..])
        invariant next == GetJump(code, list)
        decreases |s| - i
      {
        assert s[i..][1..] == s[i + 1..];
        list := next;
        i := i + 1;
        next := GetJump(code, list);
      }
      assert s[i..][1..] == s[i + 1..];
      assert i == |s| - 1;
      ChainJoin(code, l1, s, l2, t);
      assert list in s && t[0] in t;
      st := FixJump(list, l2);
      assert list in Positions(s);
    }

    /** Gives a value test its register, or turns it into a plain test. Returns whether the jump
        carries a value. */
    method PatchTestReg(node: nat, reg: int) returns (found: bool)
      requires node < |code| && code[node].JMP?
      modifies this`code
      ensures found == ByTestSet(old(code), node)
      ensures var c := ControlOf(old(code), node);
              code == if !found then old(code)
                      else if reg != NO_REG && reg != old(code)[c].b
                      then old(code)[c := TESTSET(reg, old(code)[c].b, old(code)[c].cond)]
                      else old(code)[c := TEST(old(code)[c].b, old(code)[c].cond)]
    {
      var c := ControlOf(code, node);
      var i := code[c];
      if !i.TESTSET? {
        return false;
      }
      if reg != NO_REG && reg != i.b {
        code := code[c := TESTSET(reg, i.b, i.cond)];
      } else {
        code := code[c := TEST(i.b, i.cond)];
      }
      found := true;
    }

    /** Visits every jump of the list once: one that carries a value goes to vtarget with its value
        in reg, any other goes to dtarget. */
    method PatchListAux(list: int, vtarget: int, reg: int, dtarget: int, ghost s: seq<nat>) returns (st: Status)
      requires Chain(code, list, s) && Distinct(s)
      requires 0 <= vtarget <= |code|
      requires forall j :: j in s ==> j < |code| && (!ByTestSet(code, j) ==> 0 <= dtarget <= |code|)
      modifies this`code
      ensures st.Ok? ==> code == PatchAll(old(code), s, vtarget, reg, dtarget)
      ensures !st.Ok? ==> st.TooLong? && |code| > MAXARG_SBX
      ensures |code| == |old(code)|
    {
      hide Patch;
      var l := list;
      ghost var i := 0;
      ChainMembers(code, list, s);
      assert s[0..] == s;
      while l != NO_JUMP
        invariant 0 <= i <= |s| && Chain(code, l, s[i..]) && |code| == |old(code)|
        invariant Patchable(code, s[i..], dtarget)
        invariant PatchAll(code, s[i..], vtarget, reg, dtarget) == PatchAll(old(code), s, vtarget, reg, dtarget)
        decreases |s| - i
      {
        assert s[i..][1..] == s[i + 1..];
        ghost var before, rest := code, s[i..];
        assert rest[0] in rest;
        var next := GetJump(code, l);
        var carries := PatchTestReg(l, reg);
        if carries {
          st := FixJump(l, vtarget);
        } else {
          st := FixJump(l, dtarget);
        }
        if !st.Ok? { return; }
        PatchIs(before, s[i], vtarget, reg, dtarget, code);
        TailDistinct(s, i);
        RestOfList(before, rest, vtarget, reg, dtarget, next);
        l := next;
        i := i + 1;
      }
      assert s[i..] == [];
      st := Ok;
    }

    /** The waiting jumps now go to the next instruction, without their values. */
    method DischargeJpc() returns (st: Status)
      requires Waiting()
      modifies this`code, this`jpc, this`pend, this`here
      ensures st.Ok? ==> G() == Discharged(old(G())) && jpc == NO_JUMP
      ensures !st.Ok? ==> st.TooLong? && |code| > MAXARG_SBX
      ensures |code| == |old(code)|
    {
      ChainMembers(code, jpc, here);
      st := PatchListAux(jpc, |code|, NO_REG, |code|, here);
      if !st.Ok? { return; }
      jpc := NO_JUMP;
      pend := pend - Positions(here);
      here := [];
    }

    /** Emits an instruction. */
    method Code(i: Instruction) returns (st: Status)
      requires Waiting()
      modifies this`code, this`jpc, this`pend, this`here
      ensures st.Ok? ==> G() == Plus(Discharged(old(G())), i) && jpc == NO_JUMP
      ensures st.Ok? && old(here) == [] ==> G() == Plus(old(G()), i)
      ensures !st.Ok? ==> st.TooLong? && |code| > MAXARG_SBX
      ensures |code| <= |old(code)| + 1
    {
      hide Discharged;
      DischargeNothing(G());
      DischargedParts(G());
      st := DischargeJpc();
      if !st.Ok? { return; }
      code := code + [i];
    }

    /** Emits a jump; the waiting jumps join its list. */
    method Jump() returns (st: Status, j: nat)
      requires Waiting() && |code| !in here
      modifies this`code, this`jpc, this`pend, this`here
      ensures st.Ok? ==>
        && j == |old(code)| && Chain(code, j, [j] + old(here))
        && Relinked(old(code) + [JMP(NO_JUMP)], code, Positions([j] + old(here)))
        && (old(here) == [] ==> code == old(code) + [JMP(NO_JUMP)])
        && pend == old(pend) + {j} && here == [] && jpc == NO_JUMP
      ensures !st.Ok? ==> st.TooLong? && |code| > MAXARG_SBX
      ensures |code| <= |old(code)| + 1
      ensures st.Ok? ==> |code| == |old(code)| + 1 && code[..|old(code)|] == old(code)
    {
      hide Discharged;
      var saved := jpc;
      ghost var was, on := code, here;
      jpc := NO_JUMP;
      here := [];
      j := |code|;
      st := Code(JMP(NO_JUMP));
      if !st.Ok? { return; }
      pend := pend + {j};
      ChainMembers(was, saved, on);
      ChainFrame(was, code, saved, on);
      FirstDistinct(j, on);
      assert [j][1..] == [];
      var head;
      st, head := Concat(j, saved, [j], on);
      if !st.Ok? { return; }
      RelinkedMore(was + [JMP(NO_JUMP)], code, Positions([j]), Positions([j] + on));
      HeadOfChain(code, head, [j] + on);
    }

    /** Emits a test and the jump it controls. */
    method CondJump(i: Instruction) returns (st: Status, j: nat)
      requires Waiting()
      modifies this`code, this`jpc, this`pend, this`here
      ensures st.Ok? ==> G() == WithTest(Discharged(old(G())), i) && j == |code| - 1 && jpc == NO_JUMP
      ensures st.Ok? && old(here) == [] ==> G() == WithTest(old(G()), i)
      ensures !st.Ok? ==> st.TooLong? && |code| > MAXARG_SBX
      ensures |code| <= |old(code)| + 2
    {
      hide Discharged;
      DischargeNothing(G());
      DischargedParts(G());
      j := 0;
      st := Code(i);
      if !st.Ok? { return; }
      st, j := Jump();
    }

    /** The jumps of a list wait for the next instruction. */
    method PatchToHere(list: int, ghost s: seq<nat>) returns (st: Status)
      requires Chain(code, jpc, here) && Chain(code, list, s) && Distinct(here + s)
      modifies this`code, this`jpc, this`here
      ensures st.Ok? ==> here == old(here) + s && Chain(code, jpc, here) && Relinked(old(code), code, Positions(old(here)))
      ensures st.Ok? && (old(here) == [] || s == []) ==> code == old(code)
      ensures !st.Ok? ==> st.TooLong? && |code| > MAXARG_SBX
      ensures |code| == |old(code)|
    {
      var l;
      st, l := Concat(jpc, list, here, s);
      if !st.Ok? { return; }
      jpc := l;
      here := here + s;
    }

    /** Does any jump of the list lack a value? */
    method NeedValue(list: int, ghost s: seq<nat>) returns (need: bool)
      requires Chain(code, list, s)
      ensures need <==> exists j :: j in s && j < |code| && !ByTestSet(code, j)
    {
      ChainMembers(code, list, s);
      var l := list;
      ghost var i := 0;
      assert s[0..] == s;
      while l != NO_JUMP
        invariant 0 <= i <= |s| && Chain(code, l, s[i..])
        invariant forall j :: j in s[..i] ==> j < |code| && ByTestSet(code, j)
        decreases |s| - i
      {
        assert s[i..][1..] == s[i + 1..];
        assert s[..i + 1] == s[..i] + [s[i]];
        assert s[i] in s;
        if !code[ControlOf(code, l)].TESTSET? {
          return true;
        }
        l := GetJump(code, l);
        i := i + 1;
      }
      assert s[..i] == s;
      need := false;
    }

    /** The jumps of the list no longer bring values. */
    method RemoveValues(list: int, ghost s: seq<nat>)
      requires Ready(G()) && Chain(code, list, s) && Positions(s) <= pend
      modifies this`code
      ensures Devalued(old(code), code, Positions(s)) && NoValues(code, s)
    {
      ChainMembers(code, list, s);
      var l := list;
      ghost var i := 0;
      assert s[0..] == s;
      while l != NO_JUMP
        invariant 0 <= i <= |s| && Chain(code, l, s[i..])
        invariant Devalued(old(code), code, Positions(s[..i])) && NoValues(code, s[..i])
        decreases |s| - i
      {
        assert s[i..][1..] == s[i + 1..];
        assert s[..i + 1] == s[..i] + [s[i]];
        assert s[i] in s && s[i] in Positions(s);
        ghost var before := code;
        ControlIsOpen(old(G()), before, Positions(s[..i]), s[i]);
        var next := GetJump(code, l);
        var _ := PatchTestReg(l, NO_REG);
        DevalueOne(old(code), before, s[..i], s[i]);
        DevaluedList(before, code, {s[i]}, next, s[i + 1..]);
        l := next;
        i := i + 1;
      }
      assert s[..i] == s;
    }

    method RemoveBoth(l1: int, l2: int, ghost s: seq<nat>, ghost t: seq<nat>)
      requires Ready(G()) && Chain(code, l1, s) && Chain(code, l2, t) && Positions(s) <= pend && Positions(t) <= pend
      modifies this`code
      ensures Devalued(old(code), code, Positions(s) + Positions(t)) && NoValues(code, s) && NoValues(code, t)
    {
      hide Ready, Devalued, Chain, NoValues;
      ghost var p := G();
      RemoveValues(l1, s);
      BetweenRemovals(p, code, s, t, l2);
      ghost var m := code;
      RemoveValues(l2, t);
      AfterRemovals(p, m, code, s, t);
    }

    // -----------------------------------------------------------------------
    // Registers
    // -----------------------------------------------------------------------

    method ReserveRegs(n: nat) returns (st: Status)
      requires freereg <= maxstacksize < MAXSTACK
      modifies this`freereg, this`maxstacksize
      ensures st.Ok? <==> old(freereg) + n < MAXSTACK
      ensures st.Ok? ==> freereg == old(freereg) + n && freereg <= maxstacksize < MAXSTACK
      ensures !st.Ok? ==> st.TooComplex?
    {
      var newstack := freereg + n;
      if newstack > maxstacksize {
        if newstack >= MAXSTACK {
          return TooComplex;
        }
        maxstacksize := newstack;
      }
      freereg := freereg + n;
      st := Ok;
    }

    /** Registers are freed in the reverse order of their reservation. */
    method FreeReg(reg: int)
      requires reg >= nactvar ==> freereg > 0 && reg == freereg - 1
      modifies this`freereg
      ensures freereg == if reg >= nactvar then old(freereg) - 1 else old(freereg)
    {
      if reg >= nactvar {
        freereg := freereg - 1;
        assert reg == freereg;
      }
    }

    method FreeExp(e: Exp)
      requires e.k.VNONRELOC? && e.info >= nactvar ==> freereg > 0 && e.info == freereg - 1
      modifies this`freereg
      ensures freereg == if e.k.VNONRELOC? && e.info >= nactvar then old(freereg) - 1 else old(freereg)
    {
      if e.k.VNONRELOC? {
        FreeReg(e.info);
      }
    }

    /** `addk`: the place of a constant in the table, where it may stand already. */
    method AddK(v: Value) returns (place: nat)
      modifies this`consts
      ensures place < |consts| && consts[place] == v && old(consts) <= consts
      ensures v in old(consts) ==> consts == old(consts)
    {
      if v !in consts {
        consts := consts + [v];
        return |consts| - 1;
      }
      place := 0;
      while consts[place] != v
        invariant place < |consts| && v in consts[place..]
        decreases |consts| - place
      {
        place := place + 1;
      }
    }

    // -----------------------------------------------------------------------
    // Expressions. Errors: a jump that is too long, or no register left.
    // -----------------------------------------------------------------------

    /** The expression of the task is compiled into e; of the registers above the task's base at most
        the one that holds the value is in use. */
    ghost predicate Holds(e: Exp, k: Task)
      reads this
    {
      && Valid()
      && Compiled(k.g0, G(), e, k.tl, k.fl, k.x, nactvar, k.base)
      && freereg == k.base + (if e.k.VNONRELOC? && e.info >= nactvar then 1 else 0)
    }

    /** The descriptor and its jumps are what was foreseen. */
    ghost predicate Seen(e: Exp, k: Task, p: Foreseen)
      reads this
    {
      && FormOf(e.k) == p.form && k.x == p.goal
      && (HasValues(code, k.tl) ==> p.tv) && (HasValues(code, k.fl) ==> p.fv) && (HasValues(code, here) ==> p.hv)
    }

    /** Of the exits s and the waiting jumps at most those foreseen bring values. */
    ghost predicate Within(x: Exits, s: seq<nat>)
      reads this
    {
      (HasValues(code, s) ==> x.v) && (HasValues(code, here) ==> x.hv)
    }

    ghost predicate Failed(st: Status, base: nat, need: nat)
      reads this
    {
      && (st.TooLong? ==> |code| > MAXARG_SBX)
      && (st.TooComplex? ==> base + need >= MAXSTACK)
    }

    method DischargeVars(e: Exp, ghost k: Task) returns (r: Exp)
      requires Holds(e, k)
      ensures Holds(r, k) && !r.k.VLOCAL?
      ensures r == if e.k.VLOCAL? then e.(k := VNONRELOC) else e
    {
      hide Compiled;
      r := e;
      if e.k.VLOCAL? {
        CompiledParts(k, G(), e, nactvar);
        CompiledVariable(k.g0, G(), e, k.tl, k.fl, k.x, nactvar, k.base);
        r := e.(k := VNONRELOC);
      }
    }

    /** Puts a value that is neither a variable nor pending on a jump into register reg. A number comes
        from the constant table. */
    method Discharge2Reg(e0: Exp, reg: nat, ghost k: Task) returns (st: Status, r: Exp)
      requires Valid() && Compiled(k.g0, G(), e0, k.tl, k.fl, k.x, nactvar, k.base)
      requires reg == k.base && !e0.k.VLOCAL?
      modifies this`code, this`jpc, this`pend, this`here, this`consts
      ensures st.Ok? ==> Valid() && Compiled(k.g0, G(), r, k.tl, k.fl, k.x, nactvar, k.base)
      ensures st.Ok? ==> r == if e0.k.VJMP? then e0 else InRegister(e0, reg)
      ensures st.Ok? ==> NoNewValues(old(code), code) && (here == old(here) || here == [])
      ensures !st.Ok? ==> st.TooLong? && |code| > MAXARG_SBX
    {
      hide Compiled, Discharged, Ready;
      CompiledParts(k, G(), e0, nactvar);
      st, r := Ok, e0;
      if e0.k.VRELOCABLE? {
        RelocateToBase(k.g0, G(), e0, k.tl, k.fl, k.x, nactvar, k.base);
        ghost var g := G();
        code := code[e0.info := NOT(reg, code[e0.info].b)];
        r := InRegister(e0, reg);
        CompiledParts(k, G(), r, nactvar);
        EmptyChains(g.code, code, jpc);
      } else if !e0.k.VJMP? {
        if e0.k.VKNUM? {
          var _ := AddK(Number(e0.k.nval));
        }
        if !(e0.k.VNONRELOC? && reg == e0.info) {
          st := Load(e0, reg, k);
          if !st.Ok? { return; }
        }
        r := InRegister(e0, reg);
      }
    }

    /** The instruction that loads a constant or copies a register. */
    method Load(e: Exp, reg: nat, ghost k: Task) returns (st: Status)
      requires Valid() && Compiled(k.g0, G(), e, k.tl, k.fl, k.x, nactvar, k.base)
      requires reg == k.base && Finished(e)
      modifies this`code, this`jpc, this`pend, this`here
      ensures st.Ok? ==> Valid() && Compiled(k.g0, G(), InRegister(e, reg), k.tl, k.fl, k.x, nactvar, k.base)
      ensures st.Ok? ==> NoNewValues(old(code), code) && here == []
      ensures !st.Ok? ==> st.TooLong? && |code| > MAXARG_SBX
    {
      hide Compiled, Discharged, Ready, NoNewValues;
      ghost var i := LoadOf(e, reg);
      EmittedNoNew(G(), [i]);
      CompiledParts(k, G(), e, nactvar);
      MoveToBase(k.g0, G(), e, k.tl, k.fl, k.x, nactvar, k.base);
      DischargedParts(G());
      EmptyChain(Plus(Discharged(G()), i).code);
      st := Code(LoadOf(e, reg));
      if !st.Ok? { return; }
      CompiledParts(k, G(), InRegister(e, reg), nactvar);
    }

    method Discharge2AnyReg(e: Exp, ghost k: Task) returns (st: Status, r: Exp)
      requires Holds(e, k) && !e.k.VLOCAL? && !e.k.VJMP?
      modifies this
      ensures st.Ok? ==> Holds(r, k) && r == (if e.k.VNONRELOC? then e else InRegister(e, k.base))
      ensures Failed(st, k.base, 1)
      ensures st.Ok? && e.k.VNONRELOC? ==> G() == old(G())
      ensures st.Ok? ==> NoNewValues(old(code), code)
    {
      hide Compiled, NoNewValues;
      MoreNoNew(code, []);
      assert code + [] == code;
      CompiledParts(k, G(), e, nactvar);
      st, r := Ok, e;
      if !e.k.VNONRELOC? {
        st := ReserveRegs(1);
        if !st.Ok? { return; }
        st, r := Discharge2Reg(e, freereg - 1, k);
      }
    }

    /** The jump that is the value of a comparison joins the list of true exits. */
    method PutJump(e: Exp, ghost k: Task) returns (st: Status, t: int)
      requires Compiled(k.g0, G(), e, k.tl, k.fl, k.x, nactvar, k.base) && e.k.VJMP?
      modifies this`code
      ensures st.Ok? ==> Relinked(old(code), code, Positions(k.tl)) && Chain(code, t, k.tl + [e.info]) && Chain(code, e.f, k.fl)
      ensures st.Ok? ==> e.info < |code| && !ByTestSet(code, e.info)
      ensures !st.Ok? ==> st.TooLong? && |code| > MAXARG_SBX
    {
      hide Compiled, Relinked, Ready;
      CompiledParts(k, G(), e, nactvar);
      ghost var g := G();
      DistinctParts(k.tl, k.fl, g.here);
      SingleDistinct(k.tl, e.info);
      assert [e.info as nat][1..] == [];
      st, t := Concat(e.t, e.info, k.tl, [e.info]);
      if !st.Ok? { return; }
      RelinkedList(g.code, code, Positions(k.tl), e.f, k.fl);
      RelinkedTest(g.code, code, Positions(k.tl), e.info);
    }

    /** The two loads, emitted while no jump waits. */
    method CodeLoads(reg: nat) returns (st: Status, pf: int, pt: int)
      requires Waiting() && here == []
      modifies this`code, this`jpc, this`pend, this`here
      ensures st.Ok? ==> G() == WithBools(old(G()), reg) && jpc == NO_JUMP
      ensures st.Ok? ==> pf == |old(code)| && pt == pf + 1
      ensures !st.Ok? ==> st.TooLong? && |code| > MAXARG_SBX
      ensures |code| <= |old(code)| + 2
    {
      hide Discharged;
      pf, pt := |code|, |code| + 1;
      st := Code(LOADBOOL(reg, false, true));
      if !st.Ok? { return; }
      NoChain(code, jpc);
      st := Code(LOADBOOL(reg, true, false));
      if !st.Ok? { return; }
      assert code == old(code) + [LOADBOOL(reg, false, true), LOADBOOL(reg, true, false)];
    }

    /** Appends the loads of false and true for the jumps that bring no value, behind a jump over
        them unless the expression is a comparison. */
    method AddLoads(e: Exp, t: int, reg: nat, ghost k: Task, ghost g: Gen) returns (st: Status, pf: int, pt: int)
      requires Compiled(k.g0, g, e, k.tl, k.fl, k.x, nactvar, k.base) && reg == k.base
      requires e.k.VJMP? || (e.k.VNONRELOC? && e.info == reg)
      requires G() == g.(code := code) && Chain(code, jpc, here)
      requires e.k.VJMP? ==> Relinked(g.code, code, Positions(k.tl)) && Chain(code, t, k.tl + [e.info])
      requires e.k.VNONRELOC? ==> code == g.code && t == e.t
      modifies this`code, this`jpc, this`pend, this`here
      ensures st.Ok? ==>
        var tl := if e.k.VJMP? then k.tl + [e.info] else k.tl;
        && Linked() && Compiled(k.g0, G(), Exp(VNONRELOC, reg, t, e.f), tl, k.fl, k.x, nactvar, k.base)
        && Loads(code, reg, tl, pf, pt) && Loads(code, reg, k.fl, pf, pt)
        && (HasValues(code, here) ==> HasValues(old(code), old(here)))
      ensures !st.Ok? ==> st.TooLong? && |code| > MAXARG_SBX
    {
      hide Compiled, Ready, Relinked, Loads, WithBools;
      CompiledParts(k, g, e, nactvar);
      if e.k.VJMP? {
        AddLoadsAfterTest(k.g0, g, e, k.tl, k.fl, k.x, nactvar, k.base, code, t);
        NoneWaiting(G(), reg);
        st, pf, pt := CodeLoads(reg);
        if !st.Ok? { return; }
        NoChain(code, jpc);
        CompiledParts(Task(k.g0, k.tl + [e.info], k.fl, k.x, k.base), G(), Exp(VNONRELOC, reg, t, e.f), nactvar);
      } else {
        st, pf, pt := AddLoadsBehind(e, reg, k);
      }
    }

    method AddLoadsBehind(e: Exp, reg: nat, ghost k: Task) returns (st: Status, pf: int, pt: int)
      requires Linked() && Compiled(k.g0, G(), e, k.tl, k.fl, k.x, nactvar, k.base)
      requires e.k.VNONRELOC? && e.info == reg == k.base
      modifies this`code, this`jpc, this`pend, this`here
      ensures st.Ok? ==>
        && Linked() && Compiled(k.g0, G(), e, k.tl, k.fl, k.x, nactvar, k.base)
        && Loads(code, reg, k.tl, pf, pt) && Loads(code, reg, k.fl, pf, pt)
        && (HasValues(code, here) ==> HasValues(old(code), old(here)))
      ensures !st.Ok? ==> st.TooLong? && |code| > MAXARG_SBX
    {
      hide Compiled, Ready, Relinked, Loads, Chain, Distinct, HasValues;
      ghost var g := G();
      ReadyParts(g);
      ghost var fl := [|g.code|] + g.here;
      pf, pt := NO_JUMP, NO_JUMP;
      var fj;
      st, fj := Jump();
      if !st.Ok? { return; }
      ghost var over := code;
      AddLoadsBehindJump(k.g0, g, e, k.tl, k.fl, k.x, nactvar, k.base, NO_JUMP, over, fl);
      RelinkedLength(WithJump(g, NO_JUMP).code, over, Positions(fl));
      NoChain(code, jpc);
      FirstDistinct(|g.code|, []);
      EmptyDistinct();
      st, pf, pt := CodeLoads(reg);
      if !st.Ok? { return; }
      ChainMembers(over, fj, fl);
      ChainFrame(over, code, fj, fl);
      FirstDistinct(|g.code|, g.here);
      assert here + fl == fl;
      NoChain(code, jpc);
      st := PatchToHere(fj, fl);
      if !st.Ok? { return; }
      assert G() == JumpOverLoads(g, NO_JUMP, over, fl, reg);
      OnlyWaitingBring(g, over, fl, reg);
      CompiledParts(k, G(), e, nactvar);
    }

    ghost predicate Linked()
      reads this
    {
      Ready(G()) && Chain(code, jpc, here)
    }

    /** Sends the jumps of both lists to the end, each with its value. */
    method PatchValues(e: Exp, reg: nat, pf: int, pt: int, ghost k: Task) returns (st: Status)
      requires Linked() && Compiled(k.g0, G(), e, k.tl, k.fl, k.x, nactvar, k.base)
      requires e.k.VNONRELOC? && e.info == reg == k.base < NO_REG
      requires k.x.tx && k.x.fx && Loads(code, reg, k.tl, pf, pt) && Loads(code, reg, k.fl, pf, pt)
      modifies this`code, this`pend
      ensures st.Ok? ==> Linked() && Compiled(k.g0, G(), Exp(VNONRELOC, reg, NO_JUMP, NO_JUMP), [], [], k.x, nactvar, k.base)
      ensures st.Ok? ==> NoNewValues(old(code), code) && |code| == |old(code)|
      ensures !st.Ok? ==> st.TooLong? && |code| > MAXARG_SBX
    {
      hide Compiled, Ready, Loads, PatchAll, NoNewValues;
      CompiledParts(k, G(), e, nactvar);
      ghost var h, j := G(), jpc;
      PatchBoth(k.g0, h, e, k.tl, k.fl, k.x, nactvar, k.base, pf, pt);
      DistinctParts(k.tl, k.fl, here);
      LoadsBound(code, reg, k.fl, pf, pt);
      LoadsBound(code, reg, k.tl, pf, pt);
      ChainMembers(code, e.f, k.fl);
      ChainMembers(code, e.t, k.tl);
      var final := |code|;
      st := PatchListAux(e.f, final, reg, pf, k.fl);
      if !st.Ok? { return; }
      LoadsBound(code, reg, k.tl, pf, pt);
      ChainMembers(code, e.t, k.tl);
      st := PatchListAux(e.t, final, reg, pt, k.tl);
      if !st.Ok? { return; }
      pend := pend - Positions(k.fl) - Positions(k.tl);
      WaitingKept(h, code, k.tl, k.fl, reg, pf, pt, jpc);
      PatchedNoNew(h.code, code, k.tl, k.fl, reg, pf, pt);
      CompiledParts(Task(k.g0, [], [], k.x, k.base), G(), Exp(VNONRELOC, reg, NO_JUMP, NO_JUMP), nactvar);
    }

    /** Sends the jumps on the two lists to the end of the code; the loads of true and false are emitted
        only if some jump lacks a value. */
    method LandJumps(e: Exp, t: int, reg: nat, ghost q: Task, ghost tl: seq<nat>, ghost g: Gen) returns (st: Status)
      requires Compiled(q.g0, g, e, q.tl, q.fl, q.x, nactvar, q.base) && reg == q.base < NO_REG && q.x.tx && q.x.fx
      requires e.k.VJMP? || (e.k.VNONRELOC? && e.info == reg)
      requires G() == g.(code := code) && Chain(code, jpc, here) && Chain(code, t, tl) && Chain(code, e.f, q.fl)
      requires e.k.VJMP? ==> Relinked(g.code, code, Positions(q.tl)) && tl == q.tl + [e.info] && e.info < |code| && !ByTestSet(code, e.info)
      requires e.k.VNONRELOC? ==> code == g.code && t == e.t && tl == q.tl
      modifies this`code, this`jpc, this`pend, this`here
      ensures st.Ok? ==> Linked() && Compiled(q.g0, G(), Exp(VNONRELOC, reg, NO_JUMP, NO_JUMP), [], [], q.x, nactvar, q.base)
      ensures st.Ok? && HasValues(code, here) ==> HasValues(old(code), old(here))
      ensures st.Ok? && AllBring(old(code), tl) && AllBring(old(code), q.fl) ==> |code| == |old(code)|
      ensures !st.Ok? ==> st.TooLong? && |code| > MAXARG_SBX
    {
      hide Compiled, Ready, Relinked, Chain, Loads, PatchAll, NoNewValues, HasValues;
      CompiledParts(q, g, e, nactvar);
      var pf, pt := NO_JUMP, NO_JUMP;
      var needT := NeedValue(t, tl);
      var needF := NeedValue(e.f, q.fl);
      if needT || needF {
        st, pf, pt := AddLoads(e, t, reg, q, g);
        if !st.Ok? { return; }
      } else {
        assert e.k.VJMP? ==> e.info in tl;
        ChainMembers(code, t, tl);
        ChainMembers(code, e.f, q.fl);
        LoadsNotNeeded(code, reg, tl, pf, pt);
        LoadsNotNeeded(code, reg, q.fl, pf, pt);
      }
      ghost var c, h := code, here;
      ReadyParts(G());
      st := PatchValues(Exp(VNONRELOC, reg, t, e.f), reg, pf, pt, Task(q.g0, tl, q.fl, q.x, q.base));
      if !st.Ok? { return; }
      StillNone(c, code, h);
    }

    /** Leaves the value of e in register reg on every path. */
    method Exp2Reg(e0: Exp, reg: nat, ghost k: Task) returns (st: Status, r: Exp)
      requires Valid() && Compiled(k.g0, G(), e0, k.tl, k.fl, k.x, nactvar, k.base)
      requires reg == k.base && freereg == reg + 1 && !e0.k.VLOCAL?
      modifies this`code, this`jpc, this`pend, this`here, this`consts
      ensures st.Ok? ==> r == Exp(VNONRELOC, reg, NO_JUMP, NO_JUMP) && Holds(r, Emptied(k))
      ensures st.Ok? && HasValues(code, here) ==> HasValues(old(code), old(here))
      ensures !st.Ok? ==> st.TooLong? && |code| > MAXARG_SBX
    {
      hide Compiled, Ready, Relinked, Chain, Loads, PatchAll, NoNewValues, HasValues;
      ReadyParts(G());
      ghost var c0, h0 := code, here;
      var e;
      r := e0;
      ghost var q := Task(k.g0, k.tl, k.fl, Materialized(k.x), k.base);
      PromiseLess(k.g0, G(), e0, k.tl, k.fl, k.x, q.x, nactvar, k.base);
      st, e := Discharge2Reg(e0, reg, q);
      if !st.Ok? { return; }
      CompiledParts(q, G(), e, nactvar);
      ghost var g := G();
      StillNone(c0, code, h0);
      NoJumpNoValue(code);
      var t := e.t;
      ghost var tl := k.tl;
      if e.k.VJMP? {
        st, t := PutJump(e, q);
        if !st.Ok? { return; }
        tl := k.tl + [e.info];
        EmptyChains(g.code, code, jpc);
        NoJumpNoValue(code);
      }
      DistinctParts(k.tl, k.fl, g.here);
      assert Positions(tl) !! Positions(k.fl) by {
        assert forall x :: x in Positions(tl) ==> x in Positions(k.tl) || x !in k.fl;
      }
      HasJumps(code, t, tl, e.f, k.fl);
      if t != e.f {
        st := LandJumps(e, t, reg, q, tl, g);
        if !st.Ok? { return; }
      } else {
        NothingToPatch(k.g0, G(), e, q.x, nactvar, k.base);
      }
      r := Exp(VNONRELOC, reg, NO_JUMP, NO_JUMP);
    }

    /** Leaves the value of e in the next free register. */
    method Exp2NextReg(e0: Exp, ghost k: Task) returns (st: Status, r: Exp)
      requires Holds(e0, k)
      modifies this
      ensures st.Ok? ==> r == Exp(VNONRELOC, k.base, NO_JUMP, NO_JUMP) && Holds(r, Emptied(k))
      ensures st.Ok? && HasValues(code, here) ==> HasValues(old(code), old(here))
      ensures Failed(st, k.base, 1)
    {
      hide Compiled;
      CompiledParts(k, G(), e0, nactvar);
      var e := DischargeVars(e0, k);
      CompiledParts(k, G(), e, nactvar);
      FreeExp(e);
      r := e;
      st := ReserveRegs(1);
      if !st.Ok? { return; }
      st, r := Exp2Reg(e, freereg - 1, k);
    }

    /** Leaves the value of e in some register: its own, if it has one and no jumps. */
    method Exp2AnyReg(e0: Exp, ghost k: Task) returns (st: Status, r: Exp)
      requires Holds(e0, k)
      modifies this
      ensures st.Ok? ==>
        && r.k.VNONRELOC? && r.t == NO_JUMP && r.f == NO_JUMP && Holds(r, Emptied(k))
      ensures st.Ok? && HasValues(code, here) ==> HasValues(old(code), old(here))
      ensures st.Ok? && e0.k.VNONRELOC? && e0.t == NO_JUMP && e0.f == NO_JUMP ==> G() == old(G()) && r == e0 && freereg == old(freereg)
      ensures Failed(st, k.base, 1)
    {
      hide Compiled;
      CompiledParts(k, G(), e0, nactvar);
      var e := DischargeVars(e0, k);
      CompiledParts(k, G(), e, nactvar);
      DistinctParts(k.tl, k.fl, here);
      HasJumps(code, e.t, k.tl, e.f, k.fl);
      st, r := Ok, e;
      if e.k.VNONRELOC? {
        if e.t == e.f {
          HeadOfChain(code, e.t, k.tl);
          HeadOfChain(code, e.f, k.fl);
          PromiseLess(k.g0, G(), e, k.tl, k.fl, k.x, Materialized(k.x), nactvar, k.base);
          return;
        }
        if e.info >= nactvar {
          st, r := Exp2Reg(e, e.info, k);
          return;
        }
      }
      st, r := Exp2NextReg(e, k);
    }

    /** Leaves the value of e in a register or in the descriptor. */
    method Exp2Val(e0: Exp, ghost k: Task) returns (st: Status, r: Exp)
      requires Holds(e0, k)
      modifies this
      ensures st.Ok? ==> r.t == NO_JUMP && r.f == NO_JUMP && Holds(r, Emptied(k))
      ensures st.Ok? && HasValues(code, here) ==> HasValues(old(code), old(here))
      ensures st.Ok? && e0.t == NO_JUMP && e0.f == NO_JUMP ==>
                && G() == old(G()) && freereg == old(freereg) && consts == old(consts)
                && r == if e0.k.VLOCAL? then e0.(k := VNONRELOC) else e0
      ensures Failed(st, k.base, 1)
    {
      hide Compiled;
      CompiledParts(k, G(), e0, nactvar);
      DistinctParts(k.tl, k.fl, here);
      HasJumps(code, e0.t, k.tl, e0.f, k.fl);
      if e0.t != e0.f {
        st, r := Exp2AnyReg(e0, k);
      } else {
        st := Ok;
        HeadOfChain(code, e0.t, k.tl);
        HeadOfChain(code, e0.f, k.fl);
        PromiseLess(k.g0, G(), e0, k.tl, k.fl, k.x, Materialized(k.x), nactvar, k.base);
        r := DischargeVars(e0, Emptied(k));
      }
    }

    /** Leaves the value of e in a register or, if it is a constant that the instruction can hold, in
        the constant table. */
    method Exp2RK(e0: Exp, ghost k: Task) returns (st: Status, r: Exp)
      requires Holds(e0, k)
      modifies this
      ensures st.Ok? ==> IsOperand(r) && r.t == NO_JUMP && r.f == NO_JUMP && Holds(r, Emptied(k))
      ensures st.Ok? && HasValues(code, here) ==> HasValues(old(code), old(here))
      ensures st.Ok? && IsOperand(e0) && e0.t == NO_JUMP && e0.f == NO_JUMP && (e0.k.VK? ==> e0.info <= MAXINDEXRK) ==>
                G() == old(G()) && r == e0 && freereg == old(freereg)
      // A constant is held by the instruction as long as the table has places that fit into it.
      ensures st.Ok? && (e0.k.VKNUM? || e0.k.VTRUE? || e0.k.VFALSE?) && e0.t == NO_JUMP && e0.f == NO_JUMP && |old(consts)| <= MAXINDEXRK ==>
                r.k == VK(ConstantOf(e0.k)) && 0 <= r.info < |consts| && consts[r.info] == ConstantOf(e0.k)
                && G() == old(G()) && freereg == old(freereg)
      ensures Failed(st, k.base, 1)
    {
      hide Compiled;
      st, r := Exp2Val(e0, k);
      if !st.Ok? { return; }
      if r.k.VKNUM? || r.k.VTRUE? || r.k.VFALSE? {
        if |consts| <= MAXINDEXRK {
          var v := ConstantOf(r.k);
          var place := AddK(v);
          CompiledOperand(k.g0, G(), r, [], [], Materialized(k.x), nactvar, k.base, place);
          r := r.(k := VK(v), info := place);
          return;
        }
      } else if r.k.VK? && r.info <= MAXINDEXRK {
        return;
      }
      st, r := Exp2AnyReg(r, Emptied(k));
    }

    // -----------------------------------------------------------------------
    // Conditions
    // -----------------------------------------------------------------------

    method InvertJump(e: Exp)
      requires 2 <= |code| && e.info == |code| - 1 && code[e.info].JMP? && code[e.info - 1].COMPARE?
      modifies this`code
      ensures code == Flipped(old(G())).code
    {
      var c := ControlOf(code, e.info);
      var i := code[c];
      code := code[c := COMPARE(i.op, !i.cond, i.p, i.q)];
    }

    /** Tests the value of e and jumps if it is cond; a NOT is taken back and its operand tested the
        other way round. */
    method JumpOnCond(e0: Exp, cond: bool, ghost k: Task) returns (st: Status, pc: nat)
      requires Holds(e0, k) && !e0.k.VLOCAL? && !e0.k.VJMP?
      modifies this
      ensures st.Ok? ==>
        && Valid() && freereg == k.base
        && Split(k.g0, G(), !cond, pc, e0, k.tl, k.fl, k.x, k.base)
      ensures st.Ok? ==> NoNewValues(old(code), code) && pc < |code|
      ensures st.Ok? && e0.k.VRELOCABLE? ==> !ByTestSet(code, pc) && |code| == |old(code)| + 1
      ensures Failed(st, k.base, 1)
    {
      hide Compiled, Ready, Split, NoNewValues, ByTestSet;
      pc := 0;
      if e0.k.VRELOCABLE? {
        st, pc := TestOperand(e0, cond, k);
      } else {
        st, pc := TestValue(e0, cond, k);
      }
    }

    method TestValue(e0: Exp, cond: bool, ghost k: Task) returns (st: Status, pc: nat)
      requires Holds(e0, k) && !e0.k.VLOCAL? && !e0.k.VJMP? && !e0.k.VRELOCABLE?
      modifies this
      ensures st.Ok? ==>
        && Valid() && freereg == k.base
        && Split(k.g0, G(), !cond, pc, e0, k.tl, k.fl, k.x, k.base)
      ensures st.Ok? ==> NoNewValues(old(code), code) && pc < |code|
      ensures Failed(st, k.base, 1)
    {
      hide Compiled, Discharged, Ready, Split, NoNewValues, ByTestSet;
      CompiledParts(k, G(), e0, nactvar);
      ghost var c0 := code;
      pc := 0;
      var e;
      st, e := Discharge2AnyReg(e0, k);
      if !st.Ok? { return; }
      ghost var g := G();
      CompiledParts(k, g, e, nactvar);
      SplitRegister(k.g0, g, e, k.tl, k.fl, k.x, nactvar, k.base, !cond);
      FreeExp(e);
      DischargedParts(g);
      DischargedLength(g);
      EmittedNoNew(g, [TESTSET(NO_REG, e.info, cond), JMP(NO_JUMP)]);
      st, pc := CondJump(TESTSET(NO_REG, e.info, cond));
      if !st.Ok? { return; }
      NoNewTrans(c0, g.code, code);
      SplitParts(k, G(), !cond, pc, e);
      SplitOf(k.g0, G(), !cond, pc, e, e0, k.tl, k.fl, k.x, k.base);
      NoChain(code, jpc);
    }

    method TestOperand(e: Exp, cond: bool, ghost k: Task) returns (st: Status, pc: nat)
      requires Holds(e, k) && e.k.VRELOCABLE?
      modifies this
      ensures st.Ok? ==>
        && Valid() && freereg == k.base
        && Split(k.g0, G(), !cond, pc, e, k.tl, k.fl, k.x, k.base)
      ensures st.Ok? ==> NoNewValues(old(code), code) && pc < |code| && !ByTestSet(code, pc)
      // The NOT is taken back.
      ensures st.Ok? ==> |code| == |old(code)| + 1
      ensures Failed(st, k.base, 0)
    {
      hide Compiled, Discharged, Ready, Split, Chain, NoNewValues;
      ghost var g := G();
      CompiledParts(k, G(), e, nactvar);
      HeadOfChain(code, jpc, here);
      var ie := code[e.info];
      SplitNot(k.g0, G(), e, k.tl, k.fl, k.x, nactvar, k.base, !cond);
      code := code[..|code| - 1];
      NoChain(code, jpc);
      st, pc := CondJump(TEST(ie.b, !cond));
      if !st.Ok? { return; }
      TakenBack(g, code, TEST(ie.b, !cond));
      SplitParts(k, G(), !cond, pc, e);
      NoChain(code, jpc);
    }

    /** The new jump joins the exits of its kind; the jumps of the other list wait here. */
    method SplitOff(e: Exp, c: bool, pc: nat, ghost k: Task) returns (st: Status, head: int, ghost s: seq<nat>)
      requires Valid() && freereg == k.base && Split(k.g0, G(), c, pc, e, k.tl, k.fl, k.x, k.base)
      modifies this
      ensures st.Ok? ==> Valid() && freereg == k.base && Tested(k.g0, G(), c, head, s, k.x, k.base)
      ensures st.Ok? && HasValues(code, s) ==> HasValues(old(code), if c then k.fl else k.tl) || HasValues(old(code), [pc])
      ensures st.Ok? && HasValues(code, here) ==> HasValues(old(code), if c then k.tl else k.fl)
      ensures Failed(st, k.base, 0)
    {
      hide Ready, Split, Relinked, Chain, Tested, Distinct, HasValues, NoNewValues;
      SplitParts(k, G(), c, pc, e);
      HeadOfChain(code, jpc, here);
      ghost var g := G();
      ghost var own, other := if c then k.fl else k.tl, if c then k.tl else k.fl;
      s := own + [pc];
      st, head := Concat(if c then e.f else e.t, pc, own, [pc]);
      if !st.Ok? { return; }
      SplitMerges(k.g0, g, c, pc, e, k.tl, k.fl, k.x, k.base, code, head, own, other);
      RelinkedNoNew(g.code, code, Positions(own));
      SplitMembers(k, g, c, pc, e);
      StillNone(g.code, code, s);
      StillNone(g.code, code, other);
      SumOfValues(g.code, own, [pc]);
      RelinkedList(g.code, code, Positions(own), if c then e.t else e.f, other);
      NoChain(code, jpc);
      assert here + other == other;
      st := PatchToHere(if c then e.t else e.f, other);
      if !st.Ok? { return; }
      TestedParts(k, G(), c, head, s, k.x);
    }

    /** Goes on if e is true; the list of exits is returned. */
    method GoIfTrue(e0: Exp, ghost k: Task, ghost p: Foreseen) returns (st: Status, f: int, ghost s: seq<nat>)
      requires Holds(e0, k) && Seen(e0, k, p) && (e0.k.VK? ==> !IsFalse(e0.k.k))
      modifies this
      ensures st.Ok? ==> Valid() && freereg == k.base && Tested(k.g0, G(), true, f, s, Decided(p, true).goal, k.base)
      ensures st.Ok? ==> Within(Decided(p, true), s)
      // What is known to be true takes no instruction.
      ensures st.Ok? && (e0.k.VK? || e0.k.VKNUM? || e0.k.VTRUE?) ==> |code| == |old(code)|
      ensures Failed(st, k.base, 1)
    {
      hide Compiled, Ready, Split, Chain, Tested, HasValues, NoNewValues;
      s, f := [], NO_JUMP;
      var e := DischargeVars(e0, k);
      CompiledParts(k, G(), e, nactvar);
      var pc: nat;
      if e.k.VK? || e.k.VKNUM? || e.k.VTRUE? {
        st, f, s := PassOn(e, true, k);
        return;
      } else if e.k.VFALSE? {
        st, f, s := LeaveAlways(e, true, k, p.hv);
        return;
      } else if e.k.VJMP? {
        ghost var g := G();
        SplitTest(k.g0, g, e, k.tl, k.fl, k.x, nactvar, k.base, true);
        HeadOfChain(code, jpc, here);
        InvertJump(e);
        SplitParts(k, G(), true, e.info, e);
        NoChain(code, jpc);
        pc := e.info;
        StillOfTest(k, g, e, nactvar);
      } else {
        ghost var g := G();
        st, pc := JumpOnCond(e, false, k);
        if !st.Ok? { return; }
        StillOf(k, g, code, e, nactvar);
        SingleValue(code, pc);
      }
      st, f, s := SplitOff(e, true, pc, k);
    }

    /** Goes on if e is false; the list of exits is returned. Of the constants only false is looked at
        here; any other but true is loaded and tested. */
    method GoIfFalse(e0: Exp, ghost k: Task, ghost p: Foreseen) returns (st: Status, t: int, ghost s: seq<nat>)
      requires Holds(e0, k) && Seen(e0, k, p)
      modifies this
      ensures st.Ok? ==> Valid() && freereg == k.base && Tested(k.g0, G(), false, t, s, Decided(p, false).goal, k.base)
      ensures st.Ok? ==> Within(Decided(p, false), s)
      ensures st.Ok? && e0.k.VFALSE? ==> |code| == |old(code)|
      ensures Failed(st, k.base, 1)
    {
      hide Compiled, Ready, Split, Chain, Tested, HasValues, NoNewValues;
      s, t := [], NO_JUMP;
      var e := DischargeVars(e0, k);
      CompiledParts(k, G(), e, nactvar);
      var pc: nat;
      if e.k.VFALSE? {
        st, t, s := PassOn(e, false, k);
        return;
      } else if e.k.VTRUE? {
        st, t, s := LeaveAlways(e, false, k, p.hv);
        return;
      } else if e.k.VJMP? {
        SplitTest(k.g0, G(), e, k.tl, k.fl, k.x, nactvar, k.base, false);
        SplitParts(k, G(), false, e.info, e);
        pc := e.info;
        TestBringsNone(code, e.info);
      } else {
        ghost var g := G();
        st, pc := JumpOnCond(e, true, k);
        if !st.Ok? { return; }
        StillOf(k, g, code, e, nactvar);
        SingleValue(code, pc);
      }
      st, t, s := SplitOff(e, false, pc, k);
    }

    /** A constant that lets control go on needs no jump; the jumps of the other list wait here. */
    method PassOn(e: Exp, c: bool, ghost k: Task) returns (st: Status, head: int, ghost s: seq<nat>)
      requires Holds(e, k) && IsConstant(e.k) && IsFalse(ConstantOf(e.k)) == !c
      modifies this`code, this`jpc, this`here
      ensures st.Ok? ==> Valid() && freereg == k.base && Tested(k.g0, G(), c, head, s, k.x, k.base)
      ensures st.Ok? ==> |code| == |old(code)|
      ensures st.Ok? && HasValues(code, s) ==> HasValues(old(code), if c then k.fl else k.tl)
      ensures st.Ok? && HasValues(code, here) ==> HasValues(old(code), old(here)) || HasValues(old(code), if c then k.tl else k.fl)
      ensures Failed(st, k.base, 0)
    {
      hide Compiled, Ready, Chain, Tested, Relinked, HasValues, NoNewValues;
      CompiledParts(k, G(), e, nactvar);
      ghost var g := G();
      ghost var other := if c then k.tl else k.fl;
      s := if c then k.fl else k.tl;
      head := if c then e.f else e.t;
      DistinctParts(k.tl, k.fl, here);
      JoinDistinct(here, other);
      st := PatchToHere(if c then e.t else e.f, other);
      if !st.Ok? { return; }
      GoesOn(k.g0, g, c, e, k.tl, k.fl, k.x, nactvar, k.base, code, s, other);
      TestedParts(k, G(), c, head, s, k.x);
      RelinkedNoNew(g.code, code, Positions(g.here));
      ListMembers(k, g, e, nactvar);
      StillNone(g.code, code, s);
      StillNone(g.code, code, here);
      SumOfValues(g.code, g.here, other);
    }

    /** A new jump, with the waiting ones, joins the list of the members own; the other list stays as it
        is. */
    method JumpAway(list: int, ghost own: seq<nat>, ghost otherList: int, ghost other: seq<nat>) returns (st: Status, head: int)
      requires Waiting() && |code| !in here && Chain(code, list, own) && Chain(code, otherList, other)
      requires var js := [|code|] + here;
               Distinct(own + js) && Positions(own) !! Positions(js) && Positions(other) !! Positions(own + js)
      modifies this`code, this`jpc, this`pend, this`here
      ensures st.Ok? ==>
        var s := own + ([|old(code)|] + old(here));
        && Relinked(old(code) + [JMP(NO_JUMP)], code, Positions(s)) && Chain(code, head, s) && Chain(code, otherList, other)
        && pend == old(pend) + {|old(code)|} && here == [] && jpc == NO_JUMP
      ensures !st.Ok? ==> st.TooLong? && |code| > MAXARG_SBX
    {
      hide Relinked, Chain;
      ghost var g, js := G(), [|code|] + here;
      ghost var s := own + js;
      head := NO_JUMP;
      assert Positions(s) == Positions(own) + Positions(js);
      var j: nat;
      st, j := Jump();
      if !st.Ok? { return; }
      ghost var before := code;
      AfterJump(g, before, list, own, js);
      AfterJump(g, before, otherList, other, js);
      st, head := Concat(list, j, own, js);
      if !st.Ok? { return; }
      RelinkedTwice(g.code + [JMP(NO_JUMP)], before, code, Positions(js), Positions(own), Positions(s));
      RelinkedList(before, code, Positions(own), otherList, other);
    }

    /** A constant that never lets control go on leaves by a jump, which takes the waiting jumps
        along. */
    method LeaveAlways(e: Exp, c: bool, ghost k: Task, ghost values: bool) returns (st: Status, head: int, ghost s: seq<nat>)
      requires Holds(e, k) && e.k == (if c then VFALSE else VTRUE) && (HasValues(code, here) ==> values)
      modifies this`code, this`jpc, this`pend, this`here
      ensures st.Ok? ==> Valid() && freereg == k.base && Tested(k.g0, G(), c, head, s, Absorbed(k.x, c, values), k.base)
      ensures st.Ok? && HasValues(code, s) ==> values || HasValues(old(code), if c then k.fl else k.tl)
      ensures st.Ok? && HasValues(code, here) ==> HasValues(old(code), if c then k.tl else k.fl)
      ensures Failed(st, k.base, 0)
    {
      hide Compiled, Ready, Chain, Tested, Relinked, HasValues, Distinct, NoNewValues;
      CompiledParts(k, G(), e, nactvar);
      ghost var g := G();
      ghost var own, other := if c then k.fl else k.tl, if c then k.tl else k.fl;
      s := own + ([|code|] + here);
      ReadyParts(g);
      CompiledState(k, g, e, nactvar);
      NewJumpParts(k.g0, g, e, k.tl, k.fl, own, other);
      DistinctParts(k.tl, k.fl, here);
      st, head := JumpAway(if c then e.f else e.t, own, if c then e.t else e.f, other);
      if !st.Ok? { return; }
      NeverGoesOn(k.g0, g, c, e, k.tl, k.fl, k.x, nactvar, k.base, code, head, own, other, values);
      ExitsBring(k, g, e, nactvar, code, own, other, s);
      NoChain(code, jpc);
      assert here + other == other;
      st := PatchToHere(if c then e.t else e.f, other);
      if !st.Ok? { return; }
      TestedParts(k, G(), c, head, s, Absorbed(k.x, c, values));
    }

    /** `not`: a constant is folded, a comparison is inverted, any other value gets a NOT; the lists
        change places and their jumps no longer bring values. */
    method CodeNot(e0: Exp, ghost k: Task, ghost p: Foreseen) returns (st: Status, r: Exp, ghost k': Task)
      requires Holds(e0, k) && Seen(e0, k, p) && (e0.k.VK? ==> !IsFalse(e0.k.k))
      modifies this
      ensures st.Ok? ==> Holds(r, k') && k'.g0 == k.g0 && k'.base == k.base && Seen(r, k', Denied(p)) && !r.k.VLOCAL? && !r.k.VK?
      ensures Failed(st, k.base, 1)
    {
      hide Compiled, Ready, Discharged, Chain, Flipped, HasValues, NoNewValues;
      k', r := k, e0;
      var e := DischargeVars(e0, k);
      CompiledParts(k, G(), e, nactvar);
      ghost var g := G();
      var kind, info := VJMP, e.info;
      if IsConstant(e.k) {
        st := Ok;
        kind := Folded(e.k);
      } else if e.k.VJMP? {
        FlippedReady(k, g, e, nactvar);
        HeadOfChain(code, jpc, here);
        st := Ok;
        InvertJump(e);
        NoChain(code, jpc);
      } else {
        st, e, info, g := EmitNot(e, k);
        if !st.Ok? { return; }
        kind := VRELOCABLE;
      }
      r := ExchangeLists(e, kind, info, k, g);
      k' := Task(k.g0, k.fl, k.tl, Negated(k.x), k.base);
    }

    /** A NOT whose target register is open. */
    method EmitNot(e0: Exp, ghost k: Task) returns (st: Status, e: Exp, info: int, ghost g: Gen)
      requires Holds(e0, k) && (e0.k.VNONRELOC? || e0.k.VRELOCABLE?)
      modifies this
      ensures st.Ok? ==> Valid() && freereg == k.base && Compiled(k.g0, g, e, k.tl, k.fl, k.x, nactvar, k.base)
      ensures st.Ok? ==> Denies(g, G(), e, VRELOCABLE, info) && here == []
      ensures Failed(st, k.base, 1)
    {
      hide Compiled, Ready, Discharged, Chain, NoNewValues;
      info, g := 0, G();
      st, e := Discharge2AnyReg(e0, k);
      if !st.Ok? { return; }
      g := G();
      CompiledParts(k, g, e, nactvar);
      FreeExp(e);
      AppendNot(k, g, e, nactvar);
      info := |code|;
      st := Code(NOT(0, e.info));
      if !st.Ok? { return; }
      NoChain(code, jpc);
    }

    /** The end of `codenot`. */
    method ExchangeLists(e: Exp, kind: Kind, info: int, ghost k: Task, ghost g: Gen) returns (r: Exp)
      requires Linked() && nactvar <= freereg <= maxstacksize < MAXSTACK && freereg == k.base
      requires Compiled(k.g0, g, e, k.tl, k.fl, k.x, nactvar, k.base) && Denies(g, G(), e, kind, info)
      modifies this`code
      ensures r == Exp(kind, info, e.f, e.t) && Holds(r, Task(k.g0, k.fl, k.tl, Negated(k.x), k.base))
      ensures !HasValues(code, k.tl) && !HasValues(code, k.fl)
      ensures HasValues(code, here) ==> IsConstant(e.k) && HasValues(g.code, g.here)
    {
      hide Compiled, Ready, Devalued, Discharged, Chain, NoValues, Flipped, HasValues, NoNewValues, Denies;
      ghost var b, all := G(), Positions(k.tl) + Positions(k.fl);
      DeniesParts(k, g, b, e, kind, info, nactvar);
      HeadOfChain(code, jpc, here);
      var f, t := e.t, e.f;
      RemoveBoth(f, t, k.tl, k.fl);
      r := Exp(kind, info, t, f);
      DeniesWhole(k, g, b, e, kind, info, nactvar, code);
      DevaluedList(b.code, code, all, jpc, here);
      DevaluedNoNew(b.code, code, all);
      ReadyParts(b);
      StillNone(b.code, code, here);
      NoneBrought(code, k.tl);
      NoneBrought(code, k.fl);
      NoJumpNoValue(code);
      CompiledParts(Task(k.g0, k.fl, k.tl, Negated(k.x), k.base), G(), r, nactvar);
    }

    /** A comparison; a > b and a >= b exchange their operands. The first operand is already in a
        register or a constant. */
    method CodeComp(op: CompareOp, cond: bool, e1: Exp, e2: Exp, ghost bop: BinOp, ghost k1: Task, ghost s: seq<nat>, ghost k2: Task)
      returns (st: Status, r: Exp)
      requires !bop.And? && !bop.Or? && OpcodeFor(bop, op, cond)
      requires FirstDone(k2.g0, k2.base, bop, e1, k1, s, nactvar) && Holds(e2, k2) && Scoped(k2.x.x, nactvar)
      modifies this
      ensures st.Ok? ==> Holds(r, Task(k1.g0, [], [], Compared(bop, k1.x, Materialized(k2.x)), k1.base)) && r.k.VJMP? && here == []
      ensures Failed(st, k2.base, 1)
    {
      hide Compiled, Discharged, Ready, Tested, WithTest, Chain, Distinct, Compared, Closed, HasValues, Scoped;
      r := e1;
      CompiledParts(Task(k1.g0, [], [], k1.x, k1.base), k2.g0, e1, nactvar);
      var o1 := OperandOf(e1);
      var e;
      st, e := Exp2RK(e2, k2);
      if !st.Ok? { return; }
      ghost var g := G();
      CompiledParts(Emptied(k2), g, e, nactvar);
      var o2 := OperandOf(e);
      FreeExp(e);
      FreeExp(e1);
      st, r := EmitComparison(op, cond, o1, o2, e1, e, bop, Task(k1.g0, [], [], k1.x, k1.base), Emptied(k2));
    }

    method EmitComparison(op: CompareOp, cond: bool, o1: RK, o2: RK, ghost e1: Exp, ghost e2: Exp, ghost bop: BinOp, ghost k1: Task, ghost k2: Task)
      returns (st: Status, r: Exp)
      requires OpcodeFor(bop, op, cond) && Valid() && freereg == k1.base
      requires Compiled(k1.g0, k2.g0, e1, [], [], k1.x, nactvar, k1.base) && IsOperand(e1) && o1 == OperandOf(e1)
      requires Compiled(k2.g0, G(), e2, [], [], k2.x, nactvar, k2.base) && IsOperand(e2) && o2 == OperandOf(e2)
      requires (e1.k.VNONRELOC? ==> 0 <= e1.info < k2.base) && k1.base <= k2.base && Scoped(k2.x.x, nactvar)
      modifies this`code, this`jpc, this`pend, this`here
      ensures st.Ok? ==> Holds(r, Task(k1.g0, [], [], Compared(bop, k1.x, k2.x), k1.base)) && r.k.VJMP? && here == []
      ensures Failed(st, k1.base, 0)
    {
      hide Compiled, Discharged, Ready, WithTest, Chain, Distinct, Compared, Scoped;
      var a, b, c := o1, o2, cond;
      if !cond && op != EQ {
        a, b, c := o2, o1, true;
      }
      ghost var x := Compared(bop, k1.x, k2.x);
      CompareRegisters(k1.g0, k2.g0, G(), bop, e1, k1.x, e2, k2.x, nactvar, k1.base, k2.base, COMPARE(op, c, a, b));
      st, r := CodeTest(COMPARE(op, c, a, b), Task(k1.g0, [], [], x, k1.base));
    }

    method CodeTest(i: Instruction, ghost k: Task) returns (st: Status, r: Exp)
      requires Valid() && freereg == k.base && k.tl == [] && k.fl == []
      requires Compiled(k.g0, WithTest(Discharged(G()), i), Exp(VJMP, |code| + 1, NO_JUMP, NO_JUMP), [], [], k.x, nactvar, k.base)
      modifies this`code, this`jpc, this`pend, this`here
      ensures st.Ok? ==> Holds(r, k) && r.k.VJMP? && here == []
      ensures Failed(st, k.base, 0)
    {
      hide Compiled, Discharged, Ready;
      DischargedParts(G());
      DischargedLength(G());
      ReadyParts(G());
      var j;
      r := Exp(VJMP, |code| + 1, NO_JUMP, NO_JUMP);
      st, j := CondJump(i);
      if !st.Ok? { return; }
      r := Exp(VJMP, j, NO_JUMP, NO_JUMP);
      CompiledParts(k, G(), r, nactvar);
      NoChain(code, jpc);
    }

    /** Before the second operand is compiled. */
    method Infix(op: BinOp, v: Exp, ghost k: Task, ghost p: Foreseen) returns (st: Status, r: Exp, ghost s: seq<nat>, ghost k1: Task)
      requires Holds(v, k) && Seen(v, k, p) && (v.k.VK? ==> !IsFalse(v.k.k))
      modifies this
      ensures st.Ok? ==> Valid() && FirstDone(G(), freereg, op, r, k1, s, nactvar)
      ensures st.Ok? ==> FirstSeen(G(), op, p, k1, s) && k1.g0 == k.g0 && k1.base == k.base
      ensures Failed(st, k.base, 1)
    {
      hide Compiled, Tested, HasValues;
      r, s, k1 := v, [], k;
      match op
      case And =>
        var f;
        st, f, s := GoIfTrue(v, k, p);
        r := v.(t := NO_JUMP, f := f);
        k1 := k.(x := Decided(p, true).goal);
      case Or =>
        var t;
        st, t, s := GoIfFalse(v, k, p);
        r := v.(t := t, f := NO_JUMP);
        k1 := k.(x := Decided(p, false).goal);
      case _ =>
        st, r := Exp2RK(v, k);
        k1 := Emptied(k);
    }

    /** After the second operand was compiled. */
    method Posfix(op: BinOp, e1: Exp, e2: Exp, ghost k1: Task, ghost s: seq<nat>, ghost k2: Task, ghost p1: Foreseen, ghost p2: Foreseen)
      returns (st: Status, r: Exp, ghost k: Task)
      requires FirstDone(k2.g0, k2.base, op, e1, k1, s, nactvar) && Holds(e2, k2) && Scoped(k2.x.x, nactvar) && nactvar <= k2.base
      requires FirstSeen(k2.g0, op, p1, k1, s) && Seen(e2, k2, p2) && (e2.k.VK? ==> !IsFalse(e2.k.k))
      modifies this
      ensures st.Ok? ==> Holds(r, k) && k.g0 == k1.g0 && Seen(r, k, Together(op, p1, p2)) && k.base == k1.base
      ensures st.Ok? && r.k.VK? ==> !IsFalse(r.k.k)
      ensures Failed(st, k2.base, 1)
    {
      hide Compiled, Tested, HasValues;
      k := Task(k1.g0, [], [], Compared(op, k1.x, Materialized(k2.x)), k1.base);
      r := e1;
      match op {
        case And =>
          assert e1.t == NO_JUMP;
          st, r, k := JoinLists(op, true, e1.f, e2, k1, s, k2, Decided(p1, true), p2);
        case Or =>
          assert e1.f == NO_JUMP;
          st, r, k := JoinLists(op, false, e1.t, e2, k1, s, k2, Decided(p1, false), p2);
        case Eq => st, r := CodeComp(EQ, true, e1, e2, op, k1, s, k2);
        case Ne => st, r := CodeComp(EQ, false, e1, e2, op, k1, s, k2);
        case Lt => st, r := CodeComp(LT, true, e1, e2, op, k1, s, k2);
        case Le => st, r := CodeComp(LE, true, e1, e2, op, k1, s, k2);
        case Gt => st, r := CodeComp(LT, false, e1, e2, op, k1, s, k2);
        case Ge => st, r := CodeComp(LE, false, e1, e2, op, k1, s, k2);
      }
      NoJumpNoValue(code);
    }

    /** The exits of the first operand join those of the second: the false ones for `and`, the true
        ones for `or`. */
    method JoinLists(op: BinOp, c: bool, head: int, e2: Exp, ghost k1: Task, ghost s: seq<nat>, ghost k2: Task, ghost a: Exits, ghost p2: Foreseen)
      returns (st: Status, r: Exp, ghost k: Task)
      requires SecondDecides(op, c) && Tested(k1.g0, k2.g0, c, head, s, k1.x, k1.base) && k2.base == k1.base
      requires Holds(e2, k2) && Scoped(k2.x.x, nactvar) && nactvar <= k2.base
      requires k1.x == a.goal && (HasValues(k2.g0.code, s) ==> a.v) && Seen(e2, k2, p2)
      modifies this
      ensures st.Ok? ==> Holds(r, k) && k.g0 == k1.g0 && Seen(r, k, Chained(op, c, a, p2)) && k.base == k1.base
      ensures r.k == if e2.k.VLOCAL? then VNONRELOC else e2.k
      ensures Failed(st, k2.base, 0)
    {
      hide Compiled, Tested, Relinked, Chain, Ready, HasValues, NoNewValues;
      var e := DischargeVars(e2, k2);
      ghost var g := G();
      CompiledParts(k2, g, e, nactvar);
      FirstListKept(k1.g0, k2.g0, c, head, s, k1.x, g, e, k2.tl, k2.fl, k2.x, nactvar, k1.base);
      DistinctParts(k2.tl, k2.fl, g.here);
      ghost var own := if c then k2.fl else k2.tl;
      JoinDistinct(own, s);
      var joined;
      st, joined := Concat(if c then e.f else e.t, head, own, s);
      k := Task(k1.g0, JoinedTrue(c, k2.tl, s), JoinedFalse(c, k2.fl, s), Joined(op, c, k1.x, k2.x), k1.base);
      r := if c then e.(f := joined) else e.(t := joined);
      if !st.Ok? { return; }
      ScopedMore(k2.x.x, nactvar, k1.base);
      ShortCircuit(k1.g0, k2.g0, g, op, c, head, s, k1.x, e, k2.tl, k2.fl, k2.x, nactvar, k1.base, code, joined, own);
      RelinkedList(g.code, code, Positions(own), jpc, here);
      CompiledParts(k, G(), r, nactvar);
      JoinedBring(k1, k2, g, e, nactvar, c, head, s, k1.x, code, own);
    }

    /** Compiles an expression: the parser's walk through operators and operands. */
    method Compile(x: Expr, ghost hv: bool) returns (st: Status, r: Exp, ghost k: Task)
      requires Valid() && Scoped(x, nactvar) && (HasValues(code, here) ==> hv)
      modifies this
      ensures st.Ok? ==> Holds(r, k) && k.g0 == old(G()) && Seen(r, k, Foresee(x, hv)) && k.base == old(freereg)
      ensures st.Ok? && r.k.VK? ==> !IsFalse(r.k.k)
      ensures Failed(st, old(freereg), Temps(x))
      decreases x
    {
      hide Compiled, Ready, HasValues;
      NoJumpNoValue(code);
      match x
      case Truth(b) =>
        st, r := Ok, Exp(if b then VTRUE else VFALSE, 0, NO_JUMP, NO_JUMP);
        k := Literally(x, r);
      case Numeral(n) =>
        st, r := Ok, Exp(VKNUM(n), 0, NO_JUMP, NO_JUMP);
        k := Literally(x, r);
      case Literal(s) =>
        var place := AddK(Text(s));
        st, r := Ok, Exp(VK(Text(s)), place, NO_JUMP, NO_JUMP);
        k := Literally(x, r);
      case Local(reg) =>
        k := Task(G(), [], [], Sure(x), freereg);
        st, r := Ok, Exp(VLOCAL, reg, NO_JUMP, NO_JUMP);
        CompiledLocal(G(), reg, nactvar, freereg);
      case Not(e) =>
        st, r, k := Compile(e, hv);
        if !st.Ok? { return; }
        st, r, k := CodeNot(r, k, Foresee(e, hv));
      case Binary(op, left, right) =>
        st, r, k := Compile(left, hv);
        if !st.Ok? { return; }
        ghost var p := Foresee(left, hv);
        ghost var k1, s, k2 := k, [], k;
        st, r, s, k1 := Infix(op, r, k, p);
        if !st.Ok? { return; }
        FirstDoneParts(G(), freereg, op, r, k1, s, nactvar);
        var v;
        st, v, k2 := Compile(right, Between(op, p));
        if !st.Ok? { return; }
        st, r, k := Posfix(op, r, v, k1, s, k2, p, Foresee(right, Between(op, p)));
    }

    lemma Literally(x: Expr, r: Exp) returns (k: Task)
      requires Valid() && (x.Truth? || x.Numeral? || x.Literal?) && r == Exp(LiteralKind(x), r.info, NO_JUMP, NO_JUMP)
      ensures Holds(r, k) && k == Task(G(), [], [], Sure(x), freereg)
    {
      k := Task(G(), [], [], Sure(x), freereg);
      CompiledConstant(G(), x, r.info, nactvar, freereg);
    }
  }

  ghost predicate OpcodeFor(bop: BinOp, op: CompareOp, cond: bool) {
    match bop
    case Eq => op == EQ && cond
    case Ne => op == EQ && !cond
    case Lt => op == LT && cond
    case Le => op == LE && cond
    case Gt => op == LT && !cond
    case Ge => op == LE && !cond
    case _ => false
  }

  /** What `luaK_infix` leaves: a tested condition and its list of exits, or an operand in a
      register. */
  ghost predicate FirstDone(g: Gen, free: nat, op: BinOp, v: Exp, k: Task, s: seq<nat>, nactvar: nat) {
    match op
    case And => free == k.base && v.t == NO_JUMP && Tested(k.g0, g, true, v.f, s, k.x, k.base)
    case Or => free == k.base && v.f == NO_JUMP && Tested(k.g0, g, false, v.t, s, k.x, k.base)
    case _ =>
      && IsOperand(v) && v.t == NO_JUMP && v.f == NO_JUMP
      && Compiled(k.g0, g, v, [], [], k.x, nactvar, k.base)
      && free == k.base + (if v.k.VNONRELOC? && v.info >= nactvar then 1 else 0)
  }

  lemma FirstDoneParts(g: Gen, free: nat, op: BinOp, v: Exp, k: Task, s: seq<nat>, nactvar: nat)
    requires FirstDone(g, free, op, v, k, s, nactvar)
    ensures k.base <= free <= k.base + 1 && (op.And? || op.Or? ==> free == k.base)
  {
  }

  lemma JoinDistinct(s: seq<nat>, t: seq<nat>)
    requires Distinct(s) && Distinct(t) && Positions(s) !! Positions(t)
    ensures Distinct(s + t)
  {
    DistinctWhole(s, t, []);
    assert s + t + [] == s + t;
  }

  lemma {:induction false} ScopedMore(x: Expr, n: nat, m: nat)
    requires Scoped(x, n) && n <= m
    ensures Scoped(x, m)
  {
    match x
    case Truth(_) =>
    case Numeral(_) =>
    case Literal(_) =>
    case Local(_) =>
    case Not(e) => ScopedMore(e, n, m);
    case Binary(_, l, r) =>
      ScopedMore(l, n, m);
      ScopedMore(r, n, m);
  }

  /** What the code of a finished expression does from its first instruction on: it raises an error
      if evaluating x does; otherwise it ends with the value of x in register reg and the registers
      below unchanged. */
  ghost predicate Computes(code: seq<Instruction>, x: Expr, reg: nat, cmp: Comparisons, regs: Registers)
    requires Closed(code, {})
  {
    var o := Run(code, {}, cmp, 0, regs);
    match Eval(x, cmp, regs)
    case None => o == Raise
    case Some(v) => o.Here? && Get(o.regs, reg) == v && SameBelow(regs, o.regs, reg)
  }

  /** A whole condition, compiled into the first register above nactvar local variables. */
  method CompileCondition(x: Expr, nactvar: nat) returns (st: Status, code: seq<Instruction>)
    requires nactvar < MAXSTACK && Scoped(x, nactvar)
    ensures st.Ok? ==> Closed(code, {})
    ensures st.Ok? && Trusted(x) ==> forall cmp, regs :: Computes(code, x, nactvar, cmp, regs)
    // It fails only for lack of registers or if a jump would be too long.
    ensures st.TooLong? ==> |code| > MAXARG_SBX
    ensures st.TooComplex? ==> nactvar + Max(Temps(x), 1) >= MAXSTACK
  {
    hide Compiled, Discharged, Ready;
    var fs := new FuncState(nactvar);
    ghost var g0 := fs.G();
    NoJumpNoValue(fs.code);
    var e;
    ghost var k;
    st, e, k := fs.Compile(x, false);
    code := fs.code;
    if !st.Ok? { return; }
    st, e := fs.Exp2NextReg(e, k);
    code := fs.code;
    if !st.Ok? { return; }
    ghost var g := fs.G();
    ReadyParts(g);
    st := fs.DischargeJpc();
    code := fs.code;
    if !st.Ok? { return; }
    WholeComputes(g0, g, Materialized(k.x), nactvar);
  }

  lemma WholeComputes(g0: Gen, g: Gen, x: Goal, nactvar: nat)
    requires g0 == Gen([], {}, []) && Compiled(g0, g, Exp(VNONRELOC, nactvar, NO_JUMP, NO_JUMP), [], [], x, nactvar, nactvar)
    ensures Closed(Discharged(g).code, {})
    ensures x.ok ==> forall cmp, regs :: Computes(Discharged(g).code, x.x, nactvar, cmp, regs)
  {
    hide Discharged, Closed, Eval;
    var e := Exp(VNONRELOC, nactvar, NO_JUMP, NO_JUMP);
    DischargeCompiled(g0, g, e, [], [], x, nactvar, nactvar);
    var d := Discharged(g);
    DischargedParts(g);
    assert Positions([]) == {};
    assert d.pend == Others(d, e, [], []) && d.pend == {};
    forall cmp, regs | x.ok
      ensures Computes(d.code, x.x, nactvar, cmp, regs)
    {
      var w := Start(cmp, regs);
      assert Meaning(Sem(g0, w), Sem(d, w), d.code, e, [], [], x, cmp, nactvar);
      assert Sem(g0, w) == Here(regs);
    }
  }

  /** What appending a NOT to the discharged state leaves behind. */
  lemma AppendNot(k: Task, g: Gen, e: Exp, nactvar: nat)
    requires Compiled(k.g0, g, e, k.tl, k.fl, k.x, nactvar, k.base) && e.k.VNONRELOC?
    ensures var p := Plus(Discharged(g), NOT(0, e.info));
            && Ready(p) && Chain(p.code, e.t, k.tl) && Chain(p.code, e.f, k.fl) && p.here == []
            && Positions(k.tl) <= p.pend && Positions(k.fl) <= p.pend
            && |p.code| == |g.code| + 1
  {
    hide Discharged, Chain, Kept, Closed;
    DischargeCompiled(k.g0, g, e, k.tl, k.fl, k.x, nactvar, k.base);
    DischargedLength(g);
    var d := Discharged(g);
    AppendPlain(d, NOT(0, e.info));
    KeptPlus(d.code, [NOT(0, e.info)], {});
    KeptLists(d.code, Plus(d, NOT(0, e.info)).code, {}, e.t, k.tl);
    KeptLists(d.code, Plus(d, NOT(0, e.info)).code, {}, e.f, k.fl);
  }

  lemma {:induction false} BetweenRemovals(p: Gen, code: seq<Instruction>, tl: seq<nat>, fl: seq<nat>, head: int)
    requires Ready(p) && Devalued(p.code, code, Positions(tl)) && Chain(p.code, head, fl)
    ensures Ready(p.(code := code)) && Chain(code, head, fl)
  {
    DevaluedSame(p, code, Positions(tl));
    DevaluedList(p.code, code, Positions(tl), head, fl);
  }

  lemma AfterRemovals(p: Gen, m: seq<Instruction>, code: seq<Instruction>, tl: seq<nat>, fl: seq<nat>)
    requires Devalued(p.code, m, Positions(tl)) && NoValues(m, tl)
    requires Devalued(m, code, Positions(fl)) && NoValues(code, fl)
    ensures Devalued(p.code, code, Positions(tl) + Positions(fl)) && NoValues(code, tl)
  {
    forall i | 0 <= i < |code|
      ensures DevaluedAt(p.code[i], code[i], i + 1 in Positions(tl) + Positions(fl))
    {
      assert DevaluedAt(p.code[i], m[i], i + 1 in Positions(tl));
      assert DevaluedAt(m[i], code[i], i + 1 in Positions(fl));
    }
    forall j | j in tl
      ensures j < |code| && !ByTestSet(code, j)
    {
      assert j < |m| && !ByTestSet(m, j);
      assert DevaluedAt(m[j], code[j], j + 1 in Positions(fl));
      if j > 0 { assert DevaluedAt(m[j - 1], code[j - 1], j in Positions(fl)); }
    }
  }

  lemma FlippedReady(k: Task, g: Gen, e: Exp, nactvar: nat)
    requires Compiled(k.g0, g, e, k.tl, k.fl, k.x, nactvar, k.base) && e.k.VJMP?
    ensures |g.code| >= 2 && g.code[|g.code| - 2].COMPARE?
    ensures Ready(Flipped(g)) && Chain(Flipped(g).code, e.t, k.tl) && Chain(Flipped(g).code, e.f, k.fl)
    ensures Flipped(g).pend == g.pend && Flipped(g).here == g.here && |Flipped(g).code| == |g.code|
  {
    FlipTest(g, e, k.tl, k.fl, nactvar, k.base);
    FlippedParts(g);
  }

  lemma DischargedLength(g: Gen)
    ensures |Discharged(g).code| == |g.code|
  {
  }

  lemma {:induction false} SplitParts(k: Task, g: Gen, c: bool, j: nat, e: Exp)
    requires Split(k.g0, g, c, j, e, k.tl, k.fl, k.x, k.base)
    ensures Ready(g) && g.here == [] && Chain(g.code, e.t, k.tl) && Chain(g.code, e.f, k.fl) && Chain(g.code, j, [j])
    ensures Distinct(k.tl + [j]) && Distinct(k.fl + [j]) && Distinct(k.tl) && Distinct(k.fl)
    ensures Positions(k.tl) !! Positions(k.fl)
  {
    DistinctParts(k.tl, k.fl, [j]);
    assert j in Positions([j]);
    SingleDistinct(k.tl, j);
    SingleDistinct(k.fl, j);
    ClosedMeans(g.code, g.pend);
    assert [j][1..] == [];
  }

  /** A NOT makes room for a test and its jump. */
  lemma TakenBack(g: Gen, code': seq<Instruction>, i: Instruction)
    requires Ready(g) && g.code != [] && g.code[|g.code| - 1].NOT? && i.TEST?
    requires code' == g.code[..|g.code| - 1] + [i, JMP(NO_JUMP)]
    ensures NoNewValues(g.code, code') && !ByTestSet(code', |code'| - 1)
  {
    ClosedMeans(g.code, g.pend);
    var n := |g.code| - 1;
    assert code'[n] == i && code'[n + 1] == JMP(NO_JUMP);
    forall j | 0 <= j < |g.code| && ByTestSet(code', j)
      ensures ByTestSet(g.code, j)
    {
      if j == n && j > 0 { assert ClosedAt(g.code, g.pend, j - 1); }
    }
  }

  lemma FlippedNoNew(g: Gen)
    requires |g.code| >= 2 && g.code[|g.code| - 2].COMPARE?
    ensures NoNewValues(g.code, Flipped(g).code)
  {
  }

  lemma SumOfValues(code: seq<Instruction>, a: seq<nat>, b: seq<nat>)
    ensures HasValues(code, a + b) ==> HasValues(code, a) || HasValues(code, b)
  {
    if HasValues(code, a + b) {
      var j :| j in a + b && j < |code| && ByTestSet(code, j);
      assert j in a || j in b;
    }
  }

  lemma ListMembers(k: Task, g: Gen, e: Exp, nactvar: nat)
    requires Compiled(k.g0, g, e, k.tl, k.fl, k.x, nactvar, k.base)
    ensures forall j :: j in k.tl ==> j < |g.code|
    ensures forall j :: j in k.fl ==> j < |g.code|
    ensures forall j :: j in g.here ==> j < |g.code|
  {
    CompiledParts(k, g, e, nactvar);
    ReadyParts(g);
    ChainMembers(g.code, e.t, k.tl);
    ChainMembers(g.code, e.f, k.fl);
  }

  /** The same behind the two loads. */
  lemma OnlyWaitingBring(g: Gen, over: seq<Instruction>, fl: seq<nat>, reg: int)
    requires Ready(g) && fl == [|g.code|] + g.here && Relinked(g.code + [JMP(NO_JUMP)], over, Positions(fl))
    ensures HasValues(over + [LOADBOOL(reg, false, true), LOADBOOL(reg, true, false)], fl) ==> HasValues(g.code, g.here)
  {
    hide Ready, HasValues, NoNewValues;
    NewJumpsValues(g, over, fl, fl);
    MoreNoNew(over, [LOADBOOL(reg, false, true), LOADBOOL(reg, true, false)]);
    RelinkedLength(g.code + [JMP(NO_JUMP)], over, Positions(fl));
    ReadyParts(g);
    StillNone(over, over + [LOADBOOL(reg, false, true), LOADBOOL(reg, true, false)], fl);
  }

  /** The new jump and what it took along, together with the jumps of the list it joined. */
  lemma ExitsBring(k: Task, g: Gen, e: Exp, nactvar: nat, code': seq<Instruction>, own: seq<nat>, other: seq<nat>, s: seq<nat>)
    requires Compiled(k.g0, g, e, k.tl, k.fl, k.x, nactvar, k.base)
    requires s == own + ([|g.code|] + g.here) && Relinked(g.code + [JMP(NO_JUMP)], code', Positions(s))
    requires (own == k.tl && other == k.fl) || (own == k.fl && other == k.tl)
    ensures HasValues(code', s) ==> HasValues(g.code, own) || HasValues(g.code, g.here)
    ensures HasValues(code', other) ==> HasValues(g.code, other)
  {
    hide Compiled, Relinked, Ready, HasValues, NoNewValues;
    CompiledParts(k, g, e, nactvar);
    ListMembers(k, g, e, nactvar);
    RelinkedNoNew(g.code + [JMP(NO_JUMP)], code', Positions(s));
    MoreNoNew(g.code, [JMP(NO_JUMP)]);
    NoNewTrans(g.code, g.code + [JMP(NO_JUMP)], code');
    StillNone(g.code, code', own);
    StillNone(g.code, code', other);
    NewJumpsValues(g, code', [|g.code|] + g.here, s);
    SumOfValues(code', own, [|g.code|] + g.here);
  }

  /** What stands there after the value was negated and before the lists change places: the new kind
      of descriptor and the state b. */
  ghost predicate Denies(g: Gen, b: Gen, e: Exp, kind: Kind, info: int) {
    if IsConstant(e.k) then kind == Folded(e.k) && info == e.info && b == g && (e.k.VK? ==> !IsFalse(e.k.k))
    else if e.k.VJMP? then kind.VJMP? && info == e.info && |g.code| >= 2 && g.code[|g.code| - 2].COMPARE? && b == Flipped(g)
    else e.k.VNONRELOC? && kind.VRELOCABLE? && info == |g.code| && b == Plus(Discharged(g), NOT(0, e.info))
  }

  lemma DeniesParts(k: Task, g: Gen, b: Gen, e: Exp, kind: Kind, info: int, nactvar: nat)
    requires Compiled(k.g0, g, e, k.tl, k.fl, k.x, nactvar, k.base) && Denies(g, b, e, kind, info)
    ensures Ready(b) && Chain(b.code, e.t, k.tl) && Chain(b.code, e.f, k.fl)
    ensures Positions(k.tl) <= b.pend && Positions(k.fl) <= b.pend
    ensures Positions(b.here) !! Positions(k.tl) + Positions(k.fl)
    ensures !kind.VNONRELOC? && if IsConstant(e.k) then b == g else b.here == []
  {
    hide Compiled, Ready, Chain, Discharged, Flipped;
    CompiledParts(k, g, e, nactvar);
    DistinctParts(k.tl, k.fl, g.here);
    if e.k.VJMP? {
      FlippedReady(k, g, e, nactvar);
    } else if e.k.VNONRELOC? {
      AppendNot(k, g, e, nactvar);
    }
  }

  lemma DeniesWhole(k: Task, g: Gen, b: Gen, e: Exp, kind: Kind, info: int, nactvar: nat, code': seq<Instruction>)
    requires Compiled(k.g0, g, e, k.tl, k.fl, k.x, nactvar, k.base) && Denies(g, b, e, kind, info)
    requires Devalued(b.code, code', Positions(k.tl) + Positions(k.fl)) && NoValues(code', k.tl) && NoValues(code', k.fl)
    ensures Compiled(k.g0, b.(code := code'), Exp(kind, info, e.f, e.t), k.fl, k.tl, Negated(k.x), nactvar, k.base)
  {
    hide Compiled, Devalued, NoValues;
    if IsConstant(e.k) {
      NegateConstant(k.g0, g, e, k.tl, k.fl, k.x, nactvar, k.base, code');
    } else if e.k.VJMP? {
      NegateTest(k.g0, g, e, k.tl, k.fl, k.x, nactvar, k.base, code');
    } else {
      NegateValue(k.g0, g, e, k.tl, k.fl, k.x, nactvar, k.base, code');
    }
  }

  lemma NoneBrought(code: seq<Instruction>, s: seq<nat>)
    requires NoValues(code, s)
    ensures !HasValues(code, s)
  {
  }

  /** The exits of the first operand and the lists of the second bring no value that they did not
      bring before. */
  lemma JoinedBring(k1: Task, k: Task, g: Gen, e: Exp, nactvar: nat, c: bool, head: int, s: seq<nat>, x: Goal,
                    code': seq<Instruction>, own: seq<nat>)
    requires Tested(k1.g0, k.g0, c, head, s, x, k1.base)
    requires Compiled(k.g0, g, e, k.tl, k.fl, k.x, nactvar, k.base) && Relinked(g.code, code', Positions(own))
    ensures HasValues(code', k.tl) ==> HasValues(g.code, k.tl)
    ensures HasValues(code', k.fl) ==> HasValues(g.code, k.fl)
    ensures HasValues(code', g.here) ==> HasValues(g.code, g.here)
    ensures HasValues(code', s) ==> HasValues(k.g0.code, s)
    ensures HasValues(code', k.tl + s) ==> HasValues(g.code, k.tl) || HasValues(k.g0.code, s)
    ensures HasValues(code', k.fl + s) ==> HasValues(g.code, k.fl) || HasValues(k.g0.code, s)
  {
    hide Compiled, Tested, HasValues, NoNewValues, Relinked;
    RelinkedNoNew(g.code, code', Positions(own));
    StillOf(k, g, code', e, nactvar);
    ListMembers(k, g, e, nactvar);
    StillNone(g.code, code', g.here);
    CompiledNoNew(k, g, e, nactvar);
    NoNewTrans(k.g0.code, g.code, code');
    TestedParts(k1, k.g0, c, head, s, x);
    ChainMembers(k.g0.code, head, s);
    StillNone(k.g0.code, code', s);
    SumOfValues(code', k.tl, s);
    SumOfValues(code', k.fl, s);
  }

  lemma SingleValue(code: seq<Instruction>, j: nat)
    ensures HasValues(code, [j]) <==> j < |code| && ByTestSet(code, j)
  {
    assert j in [j];
  }

  lemma TestBringsNone(code: seq<Instruction>, j: nat)
    requires 1 <= j < |code| && code[j - 1].COMPARE?
    ensures !HasValues(code, [j])
  {
  }

  lemma StillOf(k: Task, g: Gen, code': seq<Instruction>, e: Exp, nactvar: nat)
    requires Compiled(k.g0, g, e, k.tl, k.fl, k.x, nactvar, k.base) && NoNewValues(g.code, code')
    ensures HasValues(code', k.tl) ==> HasValues(g.code, k.tl)
    ensures HasValues(code', k.fl) ==> HasValues(g.code, k.fl)
  {
    hide Compiled, HasValues, NoNewValues;
    ListMembers(k, g, e, nactvar);
    StillNone(g.code, code', k.tl);
    StillNone(g.code, code', k.fl);
  }

  lemma StillOfTest(k: Task, g: Gen, e: Exp, nactvar: nat)
    requires Compiled(k.g0, g, e, k.tl, k.fl, k.x, nactvar, k.base) && e.k.VJMP?
    ensures var code' := Flipped(g).code;
            && (HasValues(code', k.tl) ==> HasValues(g.code, k.tl)) && (HasValues(code', k.fl) ==> HasValues(g.code, k.fl))
            && !HasValues(code', [e.info])
  {
    hide Compiled, NoNewValues, HasValues;
    CompiledParts(k, g, e, nactvar);
    FlippedNoNew(g);
    StillOf(k, g, Flipped(g).code, e, nactvar);
    TestBringsNone(Flipped(g).code, e.info);
  }

  lemma CompiledNoNew(k: Task, g: Gen, e: Exp, nactvar: nat)
    requires Compiled(k.g0, g, e, k.tl, k.fl, k.x, nactvar, k.base)
    ensures NoNewValues(k.g0.code, g.code)
  {
    KeptNoNew(k.g0.code, g.code, Positions(k.g0.here));
  }

  lemma SplitMembers(k: Task, g: Gen, c: bool, j: nat, e: Exp)
    requires Split(k.g0, g, c, j, e, k.tl, k.fl, k.x, k.base)
    ensures j < |g.code| && (forall x :: x in k.tl ==> x < |g.code|) && forall x :: x in k.fl ==> x < |g.code|
  {
    ClosedMeans(g.code, g.pend);
    ChainMembers(g.code, e.t, k.tl);
    ChainMembers(g.code, e.f, k.fl);
  }

  /** Where the value of the operand was does not matter any more, only its lists do. */
  lemma SplitOf(g0: Gen, g: Gen, c: bool, j: nat, e: Exp, e': Exp, tl: seq<nat>, fl: seq<nat>, x: Goal, base: nat)
    requires Split(g0, g, c, j, e, tl, fl, x, base) && e'.t == e.t && e'.f == e.f
    ensures Split(g0, g, c, j, e', tl, fl, x, base)
  {
  }

  lemma CompiledState(k: Task, g: Gen, e: Exp, nactvar: nat)
    requires Compiled(k.g0, g, e, k.tl, k.fl, k.x, nactvar, k.base) && IsConstant(e.k)
    ensures Ready(k.g0) && Extends(k.g0, g)
    ensures g.pend - Positions(g.here) - Positions(k.tl) - Positions(k.fl) == k.g0.pend - Positions(k.g0.here)
  {
  }

  /** A new jump and its links leave the other lists alone. */
  lemma {:induction false} AfterJump(g: Gen, code': seq<Instruction>, head: int, s: seq<nat>, js: seq<nat>)
    requires Chain(g.code, head, s) && Relinked(g.code + [JMP(NO_JUMP)], code', Positions(js)) && Positions(s) !! Positions(js)
    ensures Chain(code', head, s)
  {
    ChainMembers(g.code, head, s);
    ChainFrame(g.code, g.code + [JMP(NO_JUMP)], head, s);
    RelinkedList(g.code + [JMP(NO_JUMP)], code', Positions(js), head, s);
  }

  lemma RelinkedTwice(a: seq<Instruction>, b: seq<Instruction>, c: seq<Instruction>, s: set<nat>, t: set<nat>, u: set<nat>)
    requires Relinked(a, b, s) && Relinked(b, c, t) && s <= u && t <= u
    ensures Relinked(a, c, u)
  {
    forall i | 0 <= i < |a|
      ensures RelinkedAt(a[i], c[i], i in u)
    {
      assert RelinkedAt(a[i], b[i], i in s) && RelinkedAt(b[i], c[i], i in t);
    }
  }

  lemma {:induction false} TestedParts(k: Task, g: Gen, c: bool, head: int, s: seq<nat>, y: Goal)
    requires Tested(k.g0, g, c, head, s, y, k.base)
    ensures Ready(g) && Chain(g.code, head, s)
  {
  }

  lemma ReadyParts(g: Gen)
    requires Ready(g)
    ensures Distinct(g.here) && Positions(g.here) <= g.pend
    ensures |g.code| !in g.here && forall x :: x in g.here ==> x < |g.code|
  {
    ClosedMeans(g.code, g.pend);
    assert forall x :: x in g.here ==> x in Positions(g.here);
  }

  lemma EmptyDistinct()
    ensures Distinct([])
  {
  }

  lemma NoneWaiting(g: Gen, reg: int)
    ensures WithBools(g, reg).here == g.here
  {
  }

  lemma RelinkedLength(code: seq<Instruction>, code': seq<Instruction>, s: set<nat>)
    requires Relinked(code, code', s)
    ensures |code'| == |code|
  {
  }

  lemma RelinkedTest(code: seq<Instruction>, code': seq<Instruction>, s: set<nat>, j: nat)
    requires Relinked(code, code', s) && 1 <= j < |code| && code[j - 1].COMPARE?
    ensures |code'| == |code| && !ByTestSet(code', j)
  {
    assert RelinkedAt(code[j - 1], code'[j - 1], j - 1 in s);
  }

  lemma LoadsNotNeeded(code: seq<Instruction>, base: nat, s: seq<nat>, pf: int, pt: int)
    requires forall j :: j in s ==> j < |code| && ByTestSet(code, j)
    ensures Loads(code, base, s, pf, pt)
  {
  }

  lemma LoadsBound(code: seq<Instruction>, base: nat, s: seq<nat>, pf: int, pt: int)
    requires Loads(code, base, s, pf, pt)
    ensures forall j :: j in s && j < |code| && !ByTestSet(code, j) ==> 0 <= pf <= |code| && 0 <= pt <= |code|
  {
  }

  /** The list of waiting jumps is not among the patched ones. */
  lemma {:induction false} WaitingKept(h: Gen, code': seq<Instruction>, tl: seq<nat>, fl: seq<nat>, reg: nat, pf: int, pt: int, jpc: int)
    requires Ready(h) && Chain(h.code, jpc, h.here) && Distinct(tl + fl + h.here)
    requires forall x :: x in tl ==> x < |h.code| && h.code[x].JMP?
    requires forall x :: x in fl ==> x < |h.code| && h.code[x].JMP?
    requires code' == PatchAll(PatchAll(h.code, fl, |h.code|, reg, pf), tl, |h.code|, reg, pt)
    ensures Chain(code', jpc, h.here)
  {
    hide PatchAll, Ready, Chain, Kept;
    DistinctParts(tl, fl, h.here);
    var code1 := PatchAll(h.code, fl, |h.code|, reg, pf);
    PatchAllKept(h.code, fl, |h.code|, reg, pf);
    KeptLists(h.code, code1, Positions(fl), jpc, h.here);
    KeptJumps(h.code, code1, Positions(fl));
    PatchAllKept(code1, tl, |h.code|, reg, pt);
    KeptLists(code1, code', Positions(tl), jpc, h.here);
  }

  lemma {:induction false} PatchedNoNew(code: seq<Instruction>, code': seq<Instruction>, tl: seq<nat>, fl: seq<nat>, reg: nat, pf: int, pt: int)
    requires forall x :: x in tl ==> x < |code| && code[x].JMP?
    requires forall x :: x in fl ==> x < |code| && code[x].JMP?
    requires code' == PatchAll(PatchAll(code, fl, |code|, reg, pf), tl, |code|, reg, pt)
    ensures NoNewValues(code, code')
  {
    hide PatchAll, Kept, NoNewValues;
    var code1 := PatchAll(code, fl, |code|, reg, pf);
    PatchAllKept(code, fl, |code|, reg, pf);
    KeptJumps(code, code1, Positions(fl));
    PatchAllKept(code1, tl, |code|, reg, pt);
    KeptNoNew(code, code1, Positions(fl));
    KeptNoNew(code1, code', Positions(tl));
    NoNewTrans(code, code1, code');
  }

  /** Of the new jump and the waiting ones only the latter may bring values. */
  lemma NewJumpsValues(g: Gen, code': seq<Instruction>, js: seq<nat>, s: seq<nat>)
    requires Ready(g) && js == [|g.code|] + g.here && Relinked(g.code + [JMP(NO_JUMP)], code', Positions(s))
    ensures HasValues(code', js) ==> HasValues(g.code, g.here)
  {
    NewJumpsCarry(g, code', s, HasValues(g.code, g.here));
  }

  lemma KeptJumps(code: seq<Instruction>, code': seq<Instruction>, s: set<nat>)
    requires Kept(code, code', s)
    ensures |code| <= |code'| && forall x :: 0 <= x < |code| && code[x].JMP? ==> code'[x].JMP?
  {
    forall x | 0 <= x < |code| && code[x].JMP?
      ensures code'[x].JMP?
    {
      assert KeptAt(code[x], code'[x], x in s, x + 1 in s);
    }
  }

  lemma {:induction false} HasJumps(code: seq<Instruction>, t: int, tl: seq<nat>, f: int, fl: seq<nat>)
    requires Chain(code, t, tl) && Chain(code, f, fl) && Positions(tl) !! Positions(fl)
    ensures t != f <==> tl != [] || fl != []
  {
    if tl != [] { assert tl[0] in Positions(tl); }
    if fl != [] { assert fl[0] in Positions(fl); }
  }

  lemma {:induction false} NoChain(code: seq<Instruction>, head: int)
    requires head == NO_JUMP
    ensures Chain(code, head, [])
  {
  }

  lemma {:induction false} EmptyChains(code: seq<Instruction>, code': seq<Instruction>, head: int)
    requires Chain(code, head, [])
    ensures Chain(code', head, [])
  {
  }

  /** What callers need to know about a compiled expression. */
  lemma CompiledParts(k: Task, g: Gen, e: Exp, nactvar: nat)
    requires Compiled(k.g0, g, e, k.tl, k.fl, k.x, nactvar, k.base)
    ensures Ready(g) && Chain(g.code, e.t, k.tl) && Chain(g.code, e.f, k.fl) && Distinct(k.tl + k.fl + g.here)
    ensures Positions(k.tl) <= g.pend && Positions(k.fl) <= g.pend && nactvar <= k.base
    ensures e.k.VLOCAL? ==> 0 <= e.info < nactvar && k.tl == [] && k.fl == []
    ensures e.k.VNONRELOC? ==> 0 <= e.info < nactvar || e.info == k.base
    ensures e.k.VRELOCABLE? ==> g.here == [] && g.code != [] && e.info == |g.code| - 1 && g.code[e.info].NOT?
    ensures e.k.VJMP? ==>
      && g.here == [] && |g.code| >= 2 && e.info == |g.code| - 1 && e.info !in k.tl && e.info !in k.fl
      && g.code[e.info] == JMP(NO_JUMP) && g.code[e.info - 1].COMPARE?
  {
  }

  lemma DischargeNothing(g: Gen)
    ensures g.here == [] ==> Discharged(g) == g
  {
    if g.here == [] {
      assert g.pend - Positions(g.here) == g.pend;
    }
  }

  lemma RelinkedMore(code: seq<Instruction>, code': seq<Instruction>, s: set<nat>, t: set<nat>)
    requires Relinked(code, code', s) && s <= t
    ensures Relinked(code, code', t)
  {
    forall i | 0 <= i < |code|
      ensures RelinkedAt(code[i], code'[i], i in t)
    {
      assert RelinkedAt(code[i], code'[i], i in s);
    }
  }

  lemma {:induction false} HeadOfChain(code: seq<Instruction>, head: int, s: seq<nat>)
    requires Chain(code, head, s)
    ensures head == if s == [] then NO_JUMP else s[0]
  {
  }

  /** The test that controls a pending jump has no target register yet. */
  lemma ControlIsOpen(g: Gen, code: seq<Instruction>, s: set<nat>, j: nat)
    requires Ready(g) && Devalued(g.code, code, s) && j in g.pend
    ensures j < |code| && (ByTestSet(code, j) ==> code[ControlOf(code, j)].a == NO_REG && ControlOf(code, j) + 1 == j)
  {
    ClosedMeans(g.code, g.pend);
    assert DevaluedAt(g.code[j], code[j], j + 1 in s);
    if j > 0 {
      assert ClosedAt(g.code, g.pend, j - 1);
      assert DevaluedAt(g.code[j - 1], code[j - 1], j in s);
    }
  }

  lemma DevalueOne(code0: seq<Instruction>, code: seq<Instruction>, done: seq<nat>, j: nat)
    requires Devalued(code0, code, Positions(done)) && NoValues(code, done)
    requires j < |code| && code[j].JMP?
    requires ByTestSet(code, j) ==> code[ControlOf(code, j)].a == NO_REG && ControlOf(code, j) + 1 == j
    ensures var c := ControlOf(code, j);
            var code' := if ByTestSet(code, j) then code[c := TEST(code[c].b, code[c].cond)] else code;
            && Devalued(code0, code', Positions(done + [j])) && NoValues(code', done + [j])
            && Devalued(code, code', {j})
  {
    var c := ControlOf(code, j);
    var code' := if ByTestSet(code, j) then code[c := TEST(code[c].b, code[c].cond)] else code;
    assert forall x :: x in Positions(done + [j]) <==> x in Positions(done) || x == j;
    forall i | 0 <= i < |code0|
      ensures DevaluedAt(code0[i], code'[i], i + 1 in Positions(done + [j]))
    {
      assert DevaluedAt(code0[i], code[i], i + 1 in Positions(done));
    }
  }

  ghost predicate Patchable(code: seq<Instruction>, s: seq<nat>, dtarget: int) {
    forall j :: j in s ==> j < |code| && code[j].JMP? && (!ByTestSet(code, j) ==> 0 <= dtarget <= |code|)
  }

  lemma TailDistinct(s: seq<nat>, i: nat)
    requires Distinct(s) && i <= |s|
    ensures Distinct(s[i..])
  {
  }

  lemma PatchIs(code: seq<Instruction>, j: nat, vtarget: int, reg: int, dtarget: int, code': seq<Instruction>)
    requires j < |code| && code[j].JMP?
    requires var c := ControlOf(code, j);
             var m := if !ByTestSet(code, j) then code
                      else if reg != NO_REG && reg != code[c].b then code[c := TESTSET(reg, code[c].b, code[c].cond)]
                      else code[c := TEST(code[c].b, code[c].cond)];
             code' == m[j := JMP((if ByTestSet(code, j) then vtarget else dtarget) - (j + 1))]
    ensures code' == Patch(code, j, vtarget, reg, dtarget)
  {
  }

  /** Patching the first jump leaves the rest of the list as it was. */
  lemma {:induction false} RestOfList(code: seq<Instruction>, s: seq<nat>, vtarget: int, reg: int, dtarget: int, next: int)
    requires s != [] && Distinct(s) && Chain(code, next, s[1..]) && Patchable(code, s, dtarget)
    ensures s[0] < |code| && Patchable(Patch(code, s[0], vtarget, reg, dtarget), s[1..], dtarget)
    ensures Chain(Patch(code, s[0], vtarget, reg, dtarget), next, s[1..])
  {
    assert s[0] in s;
    PatchShape(code, s[0], vtarget, reg, dtarget);
    PatchKept(code, s[0], vtarget, reg, dtarget);
    var code' := Patch(code, s[0], vtarget, reg, dtarget);
    KeptLists(code, code', {s[0]}, next, s[1..]);
    assert forall j :: j in s[1..] ==> j in s;
    forall j | j in s[1..]
      ensures j < |code| && code'[j].JMP? && (ByTestSet(code', j) <==> ByTestSet(code, j))
    {
      KeptControl(code, code', {s[0]}, j);
    }
  }
}
