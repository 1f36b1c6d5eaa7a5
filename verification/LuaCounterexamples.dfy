/** A condition whose code yields a wrong value: a jump that brings a value is taken along by the jump
    of a constant. */
module LuaCounterexamples {
  import opened LuaCode
  import opened LuaExpressions
  import opened LuaForesight
  import opened LuaGenerator
  import opened Options

  /** ((1 or false) and true) or false */
  const ABSORBING: Expr :=
    Binary(Or, Binary(And, Binary(Or, Numeral(1), Truth(false)), Truth(true)), Truth(false))

  /** The jump of `1 or` at 2 waits when that of `true or` at 4 is emitted, and goes past the load of
      true with it. */
  const ABSORBED: seq<Instruction> :=
    [LOADK(0, Number(1)), TEST(0, true), JMP(6), JMP(1), JMP(3),
     LOADBOOL(0, false, false), JMP(2), LOADBOOL(0, false, true), LOADBOOL(0, true, false)]

  const FIRST_PART: seq<Instruction> :=
    [LOADK(0, Number(1)), TESTSET(NO_REG, 0, true), JMP(NO_JUMP), JMP(NO_JUMP), JMP(-3)]

  /** What the generator does for this condition, call by call, in a function without locals: first
      `1 or`, `false and` and `true or`, then `false` and the move of the value into register 0. */
  method CompileAbsorbing() returns (code: seq<Instruction>)
    ensures code == ABSORBED
  {
    var fs := new FuncState(0);
    var list := CompileOperators(fs);
    code := CompileRest(fs, list);
  }

  method CompileOperators(fs: FuncState) returns (list: int)
    requires fs.Valid() && fs.code == [] && fs.here == []
    modifies fs
    ensures fs.code == FIRST_PART && fs.here == [3] && fs.Waiting() && Chain(fs.code, list, [4, 2])
  {
    hide Discharged, Relinked, Closed, Ready;
    var leave;
    var exits := CompileFirst(fs);
    var st;
    st, leave := fs.Jump();
    assert fs.code == FIRST_PART[..4];
    OneJump(fs.code, 2);
    OneJump(fs.code, 3);
    st := fs.PatchToHere(exits, [2]);
    st, list := fs.Jump();
    assert [4] + [2] == [4, 2];
    FirstLink(fs.code, 4, 2);
    assert fs.code == FIRST_PART;
    st := fs.PatchToHere(leave, [3]);
  }

  method CompileFirst(fs: FuncState) returns (exits: nat)
    requires fs.Valid() && fs.code == [] && fs.here == []
    modifies fs
    ensures fs.code == FIRST_PART[..3] && exits == 2 && fs.here == [] && fs.jpc == NO_JUMP
  {
    hide Discharged, Relinked, Closed, Ready;
    ReadyParts(fs.G());
    var st := fs.Code(LOADK(0, Number(1)));
    EmptyDistinct();
    NoChain(fs.code, fs.jpc);
    st, exits := fs.CondJump(TESTSET(NO_REG, 0, true));
    assert fs.code == FIRST_PART[..3];
  }

  /** The code before the two lists are patched, and before the jump over the loads is. */
  const UNPATCHED: seq<Instruction> :=
    [LOADK(0, Number(1)), TESTSET(NO_REG, 0, true), JMP(NO_JUMP), JMP(1), JMP(-3),
     LOADBOOL(0, false, false), JMP(NO_JUMP), LOADBOOL(0, false, true), LOADBOOL(0, true, false)]
  const UNFINISHED: seq<Instruction> := ABSORBED[6 := JMP(NO_JUMP)]

  method CompileRest(fs: FuncState, list: int) returns (code: seq<Instruction>)
    requires fs.code == FIRST_PART && fs.here == [3] && fs.Waiting() && Chain(fs.code, list, [4, 2])
    modifies fs
    ensures code == ABSORBED
  {
    hide Discharged, PatchAll, Chain, ByTestSet;
    CompileLoads(fs);
    PatchLists();
    ChainOfTwo(FIRST_PART, fs.code, list);
    var st := fs.PatchListAux(list, |fs.code|, 0, 8, [4, 2]);
    assert fs.code == UNFINISHED;
    LastPatch(fs.pend);
    OneJump(fs.code, 6);
    st := fs.DischargeJpc();
    code := fs.code;
  }

  method CompileLoads(fs: FuncState)
    requires fs.code == FIRST_PART && fs.here == [3] && fs.Waiting()
    modifies fs
    ensures fs.code == UNPATCHED && fs.here == [6] && fs.jpc == 6
  {
    hide Discharged, PatchAll, Relinked;
    PatchOne(FIRST_PART, 3, fs.pend);
    DischargedParts(fs.G());
    var over, pf, pt;
    var st := fs.Code(LOADBOOL(0, false, false));
    assert fs.code == UNPATCHED[..6];
    st, over := fs.Jump();
    st, pf, pt := fs.CodeLoads(0);
    assert fs.code == UNPATCHED;
    OneJump(fs.code, 6);
    st := fs.PatchToHere(over, [6]);
    HeadOfChain(fs.code, fs.jpc, [6]);
  }

  lemma LastPatch(pend: set<nat>)
    ensures Discharged(Gen(UNFINISHED, pend, [6])).code == ABSORBED
  {
    PatchOne(UNFINISHED, 6, pend);
    assert UNFINISHED[6 := JMP(2)] == ABSORBED;
  }

  lemma PatchLists()
    ensures PatchAll(UNPATCHED, [4, 2], 9, 0, 8) == UNFINISHED
  {
    assert [4, 2][1..] == [2] && [2][1..] == [];
    var one := Patch(UNPATCHED, 4, 9, 0, 8);
    assert one == UNPATCHED[4 := JMP(3)];
    assert Patch(one, 2, 9, 0, 8) == UNFINISHED;
  }

  lemma PatchOne(code: seq<Instruction>, j: nat, pend: set<nat>)
    requires j < |code| && !ByTestSet(code, j)
    ensures Discharged(Gen(code, pend, [j])).code == code[j := JMP(|code| - (j + 1))]
  {
    var n := |code|;
    assert [j][1..] == [];
    assert Patch(code, j, n, NO_REG, n) == code[j := JMP(n - (j + 1))];
    assert PatchAll(code[j := JMP(n - (j + 1))], [], n, NO_REG, n) == code[j := JMP(n - (j + 1))];
  }

  lemma {:induction false} ChainOfTwo(code: seq<Instruction>, code': seq<Instruction>, list: int)
    requires Chain(code, list, [4, 2]) && |code| <= |code'| && code'[4] == code[4] && code'[2] == code[2]
    ensures Chain(code', list, [4, 2])
  {
    assert [4, 2][1..] == [2] && [2][1..] == [];
  }

  lemma {:induction false} OneJump(code: seq<Instruction>, j: nat)
    ensures Distinct([j])
    ensures j < |code| && code[j] == JMP(NO_JUMP) ==> Chain(code, j, [j])
  {
    assert [j][1..] == [];
  }

  lemma {:induction false} FirstLink(code: seq<Instruction>, i: nat, j: nat)
    requires Chain(code, i, [i, j])
    ensures i < |code| && code[i] == JMP(j - (i + 1))
  {
    assert [i, j][1..] == [j];
  }

  /** Whatever the registers hold, the code leaves 1 where the condition is true. */
  lemma {:induction false} AbsorbedIsWrong(cmp: Comparisons, regs: Registers)
    ensures !Trusted(ABSORBING) && Scoped(ABSORBING, 0) && Closed(ABSORBED, {})
    ensures Eval(ABSORBING, cmp, regs) == Some(Bool(true))
    ensures Run(ABSORBED, {}, cmp, 0, regs) == Here(regs[0 := Number(1)])
    ensures !Computes(ABSORBED, ABSORBING, 0, cmp, regs)
  {
    hide Run;
    AbsorbingIsTrue(cmp, regs);
    AbsorbedRuns(cmp, regs);
  }

  lemma {:induction false} AbsorbingIsTrue(cmp: Comparisons, regs: Registers)
    ensures !Trusted(ABSORBING) && Scoped(ABSORBING, 0)
    ensures Eval(ABSORBING, cmp, regs) == Some(Bool(true))
  {
    var one := Binary(Or, Numeral(1), Truth(false));
    var two := Binary(And, one, Truth(true));
    assert Eval(one, cmp, regs) == Some(Number(1));
    assert Eval(two, cmp, regs) == Some(Bool(true));
    assert Foresee(one, false) == Foreseen(IsFalseItself, Sure(one), true, false, false);
    assert Foresee(two, false) == Foreseen(IsTrue, Sure(two), false, false, true);
  }

  lemma {:induction false} AbsorbedRuns(cmp: Comparisons, regs: Registers)
    ensures Closed(ABSORBED, {})
    ensures Run(ABSORBED, {}, cmp, 0, regs) == Here(regs[0 := Number(1)])
  {
    hide Run, Closed;
    AbsorbedIsClosed();
    var one := regs[0 := Number(1)];
    RunStep(ABSORBED, {}, cmp, 0, regs);
    RunStep(ABSORBED, {}, cmp, 1, one);
    RunStep(ABSORBED, {}, cmp, 2, one);
    RunStep(ABSORBED, {}, cmp, 9, one);
  }

  lemma AbsorbedIsClosed()
    ensures Closed(ABSORBED, {})
  {
    forall i | 0 <= i < |ABSORBED|
      ensures ClosedAt(ABSORBED, {}, i)
    {
    }
  }
}
