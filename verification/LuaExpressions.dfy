/** Conditions over local variables: what they mean, and what it means for a state of the code
    generator to compute one. */
module LuaExpressions {
  import opened LuaCode
  import opened Options

  datatype BinOp = And | Or | Eq | Ne | Lt | Le | Gt | Ge

  datatype Expr =
    | Truth(b: bool)
    | Numeral(n: int)
    | Literal(s: string)
    | Local(reg: nat)
    | Not(e: Expr)
    | Binary(op: BinOp, left: Expr, right: Expr)

  function LookUp(cmp: Comparisons, op: CompareOp, a: Value, b: Value): Option<Value> {
    if (op, a, b) in cmp then Some(Bool(cmp[(op, a, b)])) else None
  }

  function Negate(v: Value): Value {
    Bool(IsFalse(v))
  }

  /** Section 2.5.2 and 2.5.3 of the Lua 5.1 Reference Manual: `and` and `or` yield one of their
      operands and evaluate the second only if needed, `not` yields a boolean, a ~= b is
      not (a == b), a > b is b < a and a >= b is b <= a. None stands for an error. */
  function Eval(x: Expr, cmp: Comparisons, regs: Registers): Option<Value> {
    match x
    case Truth(b) => Some(Bool(b))
    case Numeral(n) => Some(Number(n))
    case Literal(s) => Some(Text(s))
    case Local(r) => Some(Get(regs, r))
    case Not(e) =>
      var v := Eval(e, cmp, regs);
      if v.None? then None else Some(Negate(v.value))
    case Binary(op, l, r) =>
      var v := Eval(l, cmp, regs);
      if v.None? then None
      else if op.And? && IsFalse(v.value) then v
      else if op.Or? && !IsFalse(v.value) then v
      else
        var u := Eval(r, cmp, regs);
        if u.None? || op.And? || op.Or? then u else Compare(op, cmp, v.value, u.value)
  }

  function Compare(op: BinOp, cmp: Comparisons, a: Value, b: Value): Option<Value>
    requires !op.And? && !op.Or?
  {
    match op
    case Eq => LookUp(cmp, EQ, a, b)
    case Ne => var r := LookUp(cmp, EQ, a, b); if r.None? then None else Some(Negate(r.value))
    case Lt => LookUp(cmp, LT, a, b)
    case Le => LookUp(cmp, LE, a, b)
    case Gt => LookUp(cmp, LT, b, a)
    case Ge => LookUp(cmp, LE, b, a)
  }

  /** How the operators go together: > and >= are < and <= with the operands exchanged, ~= is the
      negation of ==, `not` turns `and` into `or`, and `and` and `or` yield the value of an operand. */
  lemma {:induction false} OperatorLaws(l: Expr, r: Expr, cmp: Comparisons, regs: Registers)
    ensures Eval(Binary(Gt, l, r), cmp, regs) == Eval(Binary(Lt, r, l), cmp, regs)
    ensures Eval(Binary(Ge, l, r), cmp, regs) == Eval(Binary(Le, r, l), cmp, regs)
    ensures Eval(Binary(Ne, l, r), cmp, regs) == Eval(Not(Binary(Eq, l, r)), cmp, regs)
    ensures Eval(Not(Binary(And, l, r)), cmp, regs) == Eval(Binary(Or, Not(l), Not(r)), cmp, regs)
    ensures Eval(Not(Binary(Or, l, r)), cmp, regs) == Eval(Binary(And, Not(l), Not(r)), cmp, regs)
    ensures forall op :: op == And || op == Or ==>
              var v := Eval(Binary(op, l, r), cmp, regs); v == Eval(l, cmp, regs) || v == Eval(r, cmp, regs)
    // A second operand that cannot be evaluated does no harm where it is not needed.
    ensures Eval(Binary(And, Truth(false), r), cmp, regs) == Some(Bool(false))
    ensures Eval(Binary(Or, Truth(true), r), cmp, regs) == Some(Bool(true))
  {
    ComparisonLaws(l, r, cmp, regs);
    ConnectiveLaws(l, r, cmp, regs);
    ConnectiveLaws(Not(l), Not(r), cmp, regs);
  }

  lemma {:induction false} ComparisonLaws(l: Expr, r: Expr, cmp: Comparisons, regs: Registers)
    ensures Eval(Binary(Gt, l, r), cmp, regs) == Eval(Binary(Lt, r, l), cmp, regs)
    ensures Eval(Binary(Ge, l, r), cmp, regs) == Eval(Binary(Le, r, l), cmp, regs)
    ensures Eval(Binary(Ne, l, r), cmp, regs) == Eval(Not(Binary(Eq, l, r)), cmp, regs)
  {
    hide LookUp;
  }

  lemma {:induction false} ConnectiveLaws(l: Expr, r: Expr, cmp: Comparisons, regs: Registers)
    ensures var a, b := Eval(l, cmp, regs), Eval(r, cmp, regs);
            && Eval(Binary(And, l, r), cmp, regs) == (if a.None? || IsFalse(a.value) then a else b)
            && Eval(Binary(Or, l, r), cmp, regs) == (if a.None? || !IsFalse(a.value) then a else b)
            && Eval(Not(l), cmp, regs) == (if a.None? then a else Some(Negate(a.value)))
            && Eval(Not(Binary(And, l, r)), cmp, regs) == (if a.None? then a else if IsFalse(a.value) then Some(Bool(true)) else if b.None? then b else Some(Negate(b.value)))
            && Eval(Not(Binary(Or, l, r)), cmp, regs) == (if a.None? then a else if !IsFalse(a.value) then Some(Bool(false)) else if b.None? then b else Some(Negate(b.value)))
  {
    hide LookUp, Compare;
  }

  /** Only local variables below nactvar are read. */
  predicate Scoped(x: Expr, nactvar: nat) {
    match x
    case Truth(_) => true
    case Numeral(_) => true
    case Literal(_) => true
    case Local(r) => r < nactvar
    case Not(e) => Scoped(e, nactvar)
    case Binary(_, l, r) => Scoped(l, nactvar) && Scoped(r, nactvar)
  }

  ghost predicate SameBelow(a: Registers, b: Registers, n: nat) {
    forall r :: 0 <= r < n ==> Get(a, r) == Get(b, r)
  }

  /** Temporaries do not influence the value. */
  lemma {:induction false} EvalFrame(x: Expr, cmp: Comparisons, a: Registers, b: Registers, n: nat)
    requires Scoped(x, n) && SameBelow(a, b, n)
    ensures Eval(x, cmp, a) == Eval(x, cmp, b)
  {
    match x
    case Truth(_) =>
    case Numeral(_) =>
    case Literal(_) =>
    case Local(r) =>
    case Not(e) => EvalFrame(e, cmp, a, b, n);
    case Binary(_, l, r) =>
      EvalFrame(l, cmp, a, b, n);
      EvalFrame(r, cmp, a, b, n);
  }

  // -------------------------------------------------------------------------
  // States of the generator
  // -------------------------------------------------------------------------

  /** The code so far, the jumps still on some list, and those waiting for the next instruction. */
  datatype Gen = Gen(code: seq<Instruction>, pend: set<nat>, here: seq<nat>)

  ghost predicate Ready(g: Gen) {
    && Closed(g.code, g.pend)
    && Distinct(g.here) && Positions(g.here) <= g.pend
  }

  /** A jump that waits for the next instruction arrives at the end of the code. */
  ghost function Settle(o: Outcome, here: seq<nat>): Outcome {
    if o.Exit? && o.at in here then Here(o.regs) else o
  }

  /** What the code does from its first instruction on. */
  ghost function Sem(g: Gen, w: Start): Outcome
    requires Ready(g)
  {
    Settle(Run(g.code, g.pend, w.cmp, 0, w.regs), g.here)
  }

  ghost predicate Same(g: Gen, g': Gen)
    requires Ready(g) && Ready(g')
  {
    forall w :: Sem(g', w) == Sem(g, w)
  }

  /** After one more instruction that is neither a jump nor skips. */
  ghost function Then(o: Outcome, i: Instruction, cmp: Comparisons): Outcome {
    match o
    case Here(r) => (match Effect(i, cmp, r) case None => Raise case Some(e) => Here(e.1))
    case _ => o
  }

  /** After a test and its jump at j. */
  ghost function ThenTest(o: Outcome, i: Instruction, cmp: Comparisons, j: nat): Outcome {
    match o
    case Here(r) =>
      (match Effect(i, cmp, r)
       case None => Raise
       case Some(e) => if e.0 == 1 then Exit(j, e.1) else Here(e.1))
    case _ => o
  }

  ghost function Discharged(g: Gen): Gen {
    Gen(PatchAll(g.code, g.here, |g.code|, NO_REG, |g.code|), g.pend - Positions(g.here), [])
  }

  lemma HereTargets(g: Gen)
    requires Ready(g)
    ensures forall x :: x in g.here ==>
              x in g.pend && x < TargetOf(g.code, x, |g.code|, |g.code|) && Landing(g.code, TargetOf(g.code, x, |g.code|, |g.code|))
  {
    forall x | x in g.here
      ensures x in g.pend && x < |g.code| && EntryPoint(g.code, |g.code|)
    {
      assert x in Positions(g.here);
      ClosedMeans(g.code, g.pend);
      assert ClosedAt(g.code, g.pend, |g.code| - 1);
    }
  }

  /** Giving the waiting jumps the current position as target changes nothing. */
  lemma DischargeSame(g: Gen)
    requires Ready(g)
    ensures Ready(Discharged(g)) && Same(g, Discharged(g))
    ensures Kept(g.code, Discharged(g).code, Positions(g.here))
    ensures |Discharged(g).code| == |g.code|
    ensures g.here == [] ==> Discharged(g) == g
  {
    HereTargets(g);
    ClosedMeans(g.code, g.pend);
    PatchAllKept(g.code, g.here, |g.code|, NO_REG, |g.code|);
    PatchAllRun(g.code, g.pend, g.here, |g.code|, NO_REG, |g.code|, imap[], map[]);
    if g.here == [] {
      assert g.pend - Positions(g.here) == g.pend;
    }
    forall w
      ensures Sem(Discharged(g), w) == Sem(g, w)
    {
      PatchAllRun(g.code, g.pend, g.here, |g.code|, NO_REG, |g.code|, w.cmp, w.regs);
    }
  }

  lemma AppendClosed(g: Gen, more: seq<Instruction>, pend': set<nat>)
    requires Ready(g)
    requires forall j :: j < |g.code| ==> (j in g.pend <==> j in pend')
    requires forall j :: j in pend' ==> j < |g.code + more| && (g.code + more)[j].JMP?
    requires forall i :: |g.code| <= i < |g.code + more| ==> ClosedAt(g.code + more, pend', i)
    ensures Closed(g.code + more, pend')
  {
    var code' := g.code + more;
    forall i | 0 <= i < |code'|
      ensures ClosedAt(code', pend', i)
    {
      if i < |g.code| { assert ClosedAt(g.code, g.pend, i); }
    }
  }

  lemma AppendPlain(g: Gen, i: Instruction)
    requires Ready(g) && g.here == [] && (i.MOVE? || i.NOT? || i.LOADK? || (i.LOADBOOL? && !i.skip))
    ensures Ready(g.(code := g.code + [i]))
    ensures forall w :: Sem(g.(code := g.code + [i]), w) == Then(Sem(g, w), i, w.cmp)
  {
    var g' := g.(code := g.code + [i]);
    ClosedMeans(g.code, g.pend);
    AppendClosed(g, [i], g.pend);
    forall w
      ensures Sem(g', w) == Then(Sem(g, w), i, w.cmp)
    {
      RunExtended(g.code, g.pend, [i], g.pend, w.cmp, 0, w.regs);
    }
  }

  ghost function WithTest(g: Gen, i: Instruction): Gen {
    Gen(g.code + [i, JMP(NO_JUMP)], g.pend + {|g.code| + 1}, g.here)
  }

  lemma AppendTest(g: Gen, i: Instruction)
    requires Ready(g) && g.here == [] && IsTest(i) && (i.TESTSET? ==> i.a == NO_REG)
    ensures Ready(WithTest(g, i))
    ensures forall w :: Sem(WithTest(g, i), w) == ThenTest(Sem(g, w), i, w.cmp, |g.code| + 1)
  {
    var g' := WithTest(g, i);
    ClosedMeans(g.code, g.pend);
    AppendClosed(g, [i, JMP(NO_JUMP)], g'.pend);
    forall w
      ensures Sem(g', w) == ThenTest(Sem(g, w), i, w.cmp, |g.code| + 1)
    {
      RunExtended(g.code, g.pend, [i, JMP(NO_JUMP)], g'.pend, w.cmp, 0, w.regs);
      match Sem(g, w) {
        case Here(r) =>
          RunStep(g'.code, g'.pend, w.cmp, |g.code|, r);
          var e := Effect(i, w.cmp, r);
          if e.Some? { RunStep(g'.code, g'.pend, w.cmp, |g.code| + e.value.0, e.value.1); }
        case _ =>
      }
    }
  }

  /** The state after an unconditional jump that takes the waiting jumps with it. */
  ghost function WithJump(g: Gen, link: int): Gen {
    Gen(g.code + [JMP(link)], g.pend + {|g.code|}, [])
  }

  lemma AppendJump(g: Gen, link: int)
    requires Ready(g)
    ensures Ready(WithJump(g, link))
    ensures forall w :: match Sem(g, w)
                        case Here(r) => exists x :: x in [|g.code|] + g.here && Sem(WithJump(g, link), w) == Exit(x, r)
                        case o => Sem(WithJump(g, link), w) == o
  {
    var g' := WithJump(g, link);
    ClosedMeans(g.code, g.pend);
    AppendClosed(g, [JMP(link)], g'.pend);
    forall w
      ensures match Sem(g, w)
              case Here(r) => exists x :: x in [|g.code|] + g.here && Sem(g', w) == Exit(x, r)
              case o => Sem(g', w) == o
    {
      RunExtended(g.code, g.pend, [JMP(link)], g'.pend, w.cmp, 0, w.regs);
      match Run(g.code, g.pend, w.cmp, 0, w.regs) {
        case Here(r) =>
          RunStep(g'.code, g'.pend, w.cmp, |g.code|, r);
          assert |g.code| in [|g.code|] + g.here;
        case Exit(x, r) => assert x in g.here ==> x in [|g.code|] + g.here;
        case _ =>
      }
    }
  }

  ghost function WithBools(g: Gen, reg: int): Gen {
    g.(code := g.code + [LOADBOOL(reg, false, true), LOADBOOL(reg, true, false)])
  }

  /** The two loads that give jumps without a value their true or false. */
  lemma AppendBools(g: Gen, reg: int)
    requires Ready(g) && g.here == []
    ensures Ready(WithBools(g, reg))
    ensures forall w :: Sem(WithBools(g, reg), w) == Then(Sem(g, w), LOADBOOL(reg, false, false), w.cmp)
    ensures Landing(WithBools(g, reg).code, |g.code|) && Landing(WithBools(g, reg).code, |g.code| + 1)
  {
    var g' := WithBools(g, reg);
    var more := [LOADBOOL(reg, false, true), LOADBOOL(reg, true, false)];
    ClosedMeans(g.code, g.pend);
    AppendClosed(g, more, g.pend);
    if g.code != [] { assert ClosedAt(g.code, g.pend, |g.code| - 1); }
    assert g'.code[|g.code|] == more[0] && g'.code[|g.code| + 1] == more[1];
    forall w
      ensures Sem(g', w) == Then(Sem(g, w), LOADBOOL(reg, false, false), w.cmp)
    {
      RunExtended(g.code, g.pend, more, g.pend, w.cmp, 0, w.regs);
      match Sem(g, w) {
        case Here(r) =>
          RunStep(g'.code, g'.pend, w.cmp, |g.code|, r);
          RunStep(g'.code, g'.pend, w.cmp, |g.code| + 2, r[reg := Bool(false)]);
        case _ =>
      }
    }
  }

  /** Links of pending jumps and the form of pending value tests do not matter. */
  lemma SameEffectsSame(g: Gen, code': seq<Instruction>)
    requires Ready(g) && SameEffects(g.code, code', g.pend)
    ensures Ready(g.(code := code')) && Same(g, g.(code := code'))
  {
    SameEffectsClosed(g.code, code', g.pend);
    forall w
      ensures Sem(g.(code := code'), w) == Sem(g, w)
    {
      SameEffectsRun(g.code, code', g.pend, w.cmp, 0, w.regs);
    }
  }

  /** Jumps of a list join those that wait for the next instruction. */
  lemma WaitHere(g: Gen, s: seq<nat>)
    requires Ready(g) && Distinct(g.here + s) && Positions(s) <= g.pend
    ensures Ready(g.(here := g.here + s))
    ensures forall w :: Sem(g.(here := g.here + s), w) == Settle(Sem(g, w), s)
  {
    assert Positions(g.here + s) == Positions(g.here) + Positions(s);
  }

  // -------------------------------------------------------------------------
  // Partly compiled expressions
  // -------------------------------------------------------------------------

  /** Constants are held themselves where the program holds their places in the constant table (VK,
      which is a string or an operand of a comparison). */
  datatype Kind = VTRUE | VFALSE | VKNUM(nval: int) | VK(k: Value) | VLOCAL | VNONRELOC | VRELOCABLE | VJMP

  predicate IsConstant(k: Kind) {
    k.VTRUE? || k.VFALSE? || k.VKNUM? || k.VK?
  }

  /** What an expression is to yield, as far as the code can be trusted with it: ok says whether it has
      the right value at all, tx and fx whether the jumps that leave it when it is true or false
      bring the right value. */
  datatype Goal = Goal(x: Expr, ok: bool, tx: bool, fx: bool)

  function Result(x: Goal, cmp: Comparisons, regs: Registers): Option<Value> {
    Eval(x.x, cmp, regs)
  }

  /** Do the jumps that leave x when it is true (or false) bring the right value? */
  predicate Exact(x: Goal, plain: bool) {
    if plain then x.tx else x.fx
  }

  function Sure(x: Expr): Goal {
    Goal(x, true, true, true)
  }

  /** After `not` no jump brings a value any more. */
  function Negated(x: Goal): Goal {
    Goal(Not(x.x), x.ok, true, true)
  }

  /** The first operand of `and` (c) leaves when it is false, that of `or` when it is true. */
  function Joined(op: BinOp, c: bool, l: Goal, r: Goal): Goal {
    Goal(Binary(op, l.x, r.x), l.ok && r.ok, r.tx && (c || l.tx), r.fx && (!c || l.fx))
  }

  function Compared(op: BinOp, l: Goal, r: Goal): Goal {
    Goal(Binary(op, l.x, r.x), l.ok && r.ok, true, true)
  }

  /** What is left once the value is in a register on every path. */
  function Materialized(x: Goal): Goal {
    Goal(x.x, x.ok && x.tx && x.fx, true, true)
  }

  /** An expression descriptor: where its value is, and the lists of jumps that leave it when it is
      true (t) and when it is false (f). */
  datatype Exp = Exp(k: Kind, info: int, t: int, f: int)

  /** A jump that follows a TESTSET brings the value along; any other stands for a boolean. */
  ghost predicate Carries(code: seq<Instruction>, j: nat, r: Registers, v: Value, plain: bool, exact: bool) {
    && j < |code|
    && (if ByTestSet(code, j) then exact ==> Get(r, code[ControlOf(code, j)].b) == v else v == Bool(plain))
  }

  /** The run leaves by a jump of the list, with a value that is true or false as `plain` says. */
  ghost predicate Leaves(o: Outcome, code: seq<Instruction>, s: seq<nat>, plain: bool, x: Goal, r: Registers, v: Value, base: nat) {
    && o.Exit? && o.at in s
    && IsFalse(v) == !plain
    && SameBelow(r, o.regs, base)
    && Carries(code, o.at, o.regs, v, plain, Exact(x, plain))
  }

  /** The value of a constant expression. */
  function ConstantOf(k: Kind): Value
    requires IsConstant(k)
  {
    match k
    case VTRUE => Bool(true)
    case VFALSE => Bool(false)
    case VKNUM(n) => Number(n)
    case VK(v) => v
  }

  ghost predicate HoldsAt(code: seq<Instruction>, e: Exp, r: Registers, v: Value) {
    match e.k
    case VRELOCABLE => code != [] && code[|code| - 1].NOT? && v == Negate(Get(r, code[|code| - 1].b))
    case VJMP => v == Bool(false)
    case VLOCAL => Get(r, e.info) == v
    case VNONRELOC => Get(r, e.info) == v
    case _ => v == ConstantOf(e.k)
  }

  /** From registers r the code of e yields v: at its end, or by one of its jumps. Registers below
      base keep their values. */
  ghost predicate Yields(o: Outcome, code: seq<Instruction>, e: Exp, tl: seq<nat>, fl: seq<nat>,
                         x: Goal, r: Registers, v: Value, base: nat) {
    || (o.Here? && SameBelow(r, o.regs, base) && HoldsAt(code, e, o.regs, v))
    || (o.Exit? && e.k.VJMP? && o.at == e.info && SameBelow(r, o.regs, base) && v == Bool(true))
    || Leaves(o, code, tl, true, x, r, v, base)
    || Leaves(o, code, fl, false, x, r, v, base)
  }

  ghost predicate Meaning(o0: Outcome, o1: Outcome, code: seq<Instruction>, e: Exp, tl: seq<nat>, fl: seq<nat>,
                          x: Goal, cmp: Comparisons, base: nat) {
    match o0
    case Here(r) =>
      x.ok ==>
        (match Result(x, cmp, r)
         case None => o1 == Raise
         case Some(v) => Yields(o1, code, e, tl, fl, x, r, v, base))
    case _ => o1 == o0
  }

  /** The code without the NOT whose target register is still open. */
  ghost function Front(g: Gen, e: Exp): Gen {
    if e.k.VRELOCABLE? && g.code != [] then g.(code := g.code[..|g.code| - 1]) else g
  }

  /** The code without the test and jump that are the value of e. */
  ghost function BeforeTest(g: Gen, e: Exp): Gen {
    if |g.code| >= 2 then g.(code := g.code[..|g.code| - 2], pend := g.pend - {|g.code| - 1}) else g
  }

  ghost predicate WellFormed(g: Gen, e: Exp, tl: seq<nat>, fl: seq<nat>, nactvar: nat, base: nat) {
    && Ready(g) && nactvar <= base
    && Chain(g.code, e.t, tl) && Chain(g.code, e.f, fl)
    && Distinct(tl + fl + g.here) && Positions(tl) <= g.pend && Positions(fl) <= g.pend
    && (match e.k
        case VLOCAL => 0 <= e.info < nactvar && tl == [] && fl == []
        case VNONRELOC => 0 <= e.info < nactvar || e.info == base
        case VTRUE => true
        case VFALSE => true
        case VKNUM(_) => true
        case VK(_) => true
        case VRELOCABLE =>
          && g.here == [] && |g.code| > 0 && e.info == |g.code| - 1
          && g.code[e.info].NOT? && g.code[e.info].a == 0 && Ready(Front(g, e))
        case VJMP =>
          && g.here == [] && |g.code| >= 2 && e.info == |g.code| - 1
          && e.info in g.pend && e.info !in tl && e.info !in fl
          && g.code[e.info] == JMP(NO_JUMP) && g.code[e.info - 1].COMPARE? && Ready(BeforeTest(g, e)))
  }

  /** The jumps of the surroundings: pending, but neither of e nor waiting here. */
  ghost function Others(g: Gen, e: Exp, tl: seq<nat>, fl: seq<nat>): set<int> {
    g.pend - Positions(g.here) - Positions(tl) - Positions(fl) - (if e.k.VJMP? then {e.info} else {})
  }

  /** Code was added; of the old jumps only those that waited were changed, and no old jump became
      pending again. */
  ghost predicate Extends(g0: Gen, g: Gen) {
    && Kept(g0.code, g.code, Positions(g0.here))
    && forall j :: j in g.pend && j < |g0.code| ==> j in g0.pend
  }

  /** From state g0, code was added that computes x into e, using no register below base. */
  ghost predicate Compiled(g0: Gen, g: Gen, e: Exp, tl: seq<nat>, fl: seq<nat>, x: Goal, nactvar: nat, base: nat) {
    && Ready(g0) && WellFormed(g, e, tl, fl, nactvar, base)
    && Extends(g0, g)
    && Others(g, e, tl, fl) == g0.pend - Positions(g0.here)
    && (e.k.VRELOCABLE? ==> |g0.code| < |g.code|) && (e.k.VJMP? ==> |g0.code| + 2 <= |g.code|)
    && Ready(Front(g, e))
    && Means(g0, Front(g, e), g.code, e, tl, fl, x, base)
  }

  /** Whatever a run of g0 does, the run of g does next what x demands. */
  ghost predicate Means(g0: Gen, g: Gen, code: seq<Instruction>, e: Exp, tl: seq<nat>, fl: seq<nat>, x: Goal, base: nat)
    requires Ready(g0) && Ready(g)
  {
    forall w :: Meaning(Sem(g0, w), Sem(g, w), code, e, tl, fl, x, w.cmp, base)
  }

  /** From state g0, code was added that goes on if x is true (or false, as cond says) and otherwise
      leaves by a jump of the list. */
  ghost predicate Branches(o0: Outcome, o1: Outcome, code: seq<Instruction>, cond: bool, s: seq<nat>,
                           x: Goal, cmp: Comparisons, base: nat) {
    match o0
    case Here(r) =>
      x.ok ==>
        (match Result(x, cmp, r)
         case None => o1 == Raise
         case Some(v) =>
           if IsFalse(v) == !cond then o1.Here? && SameBelow(r, o1.regs, base)
           else Leaves(o1, code, s, !cond, x, r, v, base))
    case _ => o1 == o0
  }

  ghost predicate Tested(g0: Gen, g: Gen, cond: bool, head: int, s: seq<nat>, x: Goal, base: nat) {
    && Ready(g0) && Ready(g)
    && Chain(g.code, head, s) && Distinct(s + g.here) && Positions(s) <= g.pend
    && Extends(g0, g)
    && g.pend - Positions(g.here) - Positions(s) == g0.pend - Positions(g0.here)
    && forall w :: Branches(Sem(g0, w), Sem(g, w), g.code, cond, s, x, w.cmp, base)
  }

  // -------------------------------------------------------------------------
  // One step of the generator at a time
  // -------------------------------------------------------------------------

  function InRegister(e: Exp, reg: int): Exp {
    e.(k := VNONRELOC, info := reg)
  }

  /** Lists survive whatever keeps their members. */
  lemma {:induction false} KeptLists(code: seq<Instruction>, code': seq<Instruction>, jumps: set<nat>, head: int, s: seq<nat>)
    requires Chain(code, head, s) && Kept(code, code', jumps) && Positions(s) !! jumps
    ensures Chain(code', head, s)
    ensures SameCarries(code, code', s)
  {
    ChainMembers(code, head, s);
    forall j | j in s
      ensures j < |code| && j < |code'| && code'[j] == code[j]
      ensures forall r, v, p, ex :: Carries(code, j, r, v, p, ex) ==> Carries(code', j, r, v, p, ex)
    {
      assert j in Positions(s);
      KeptControl(code, code', jumps, j);
    }
    ChainFrame(code, code', head, s);
  }

  ghost predicate SameCarries(code: seq<Instruction>, code': seq<Instruction>, s: seq<nat>) {
    forall j, r, v, p, ex :: j in s && Carries(code, j, r, v, p, ex) ==> Carries(code', j, r, v, p, ex)
  }

  lemma LeavesKept(o: Outcome, code: seq<Instruction>, code': seq<Instruction>, s: seq<nat>, plain: bool, x: Goal,
                   r: Registers, v: Value, base: nat)
    requires Leaves(o, code, s, plain, x, r, v, base) && SameCarries(code, code', s)
    ensures Leaves(o, code', s, plain, x, r, v, base)
  {
  }

  /** More jumps, or less said about their values. */
  lemma LeavesWeaker(o: Outcome, code: seq<Instruction>, s: seq<nat>, s': seq<nat>, plain: bool, x: Goal, x': Goal,
                     r: Registers, r': Registers, v: Value, base: nat)
    requires Leaves(o, code, s, plain, x, r, v, base) && SameBelow(r', r, base)
    requires (forall j :: j in s ==> j in s') && (Exact(x', plain) ==> Exact(x, plain))
    ensures Leaves(o, code, s', plain, x', r', v, base)
  {
  }

  lemma DistinctParts(tl: seq<nat>, fl: seq<nat>, here: seq<nat>)
    requires Distinct(tl + fl + here)
    ensures Distinct(tl) && Distinct(fl) && Distinct(here) && Distinct(tl + fl)
    ensures Positions(tl) !! Positions(fl) && Positions(tl) !! Positions(here) && Positions(fl) !! Positions(here)
  {
    var s := tl + fl + here;
    assert forall i :: 0 <= i < |tl| ==> s[i] == tl[i];
    assert forall i :: 0 <= i < |fl| ==> s[|tl| + i] == fl[i];
    assert forall i :: 0 <= i < |here| ==> s[|tl| + |fl| + i] == here[i];
  }

  lemma DistinctWhole(tl: seq<nat>, fl: seq<nat>, here: seq<nat>)
    requires Distinct(tl) && Distinct(fl) && Distinct(here)
    requires Positions(tl) !! Positions(fl) && Positions(tl) !! Positions(here) && Positions(fl) !! Positions(here)
    ensures Distinct(tl + fl + here)
  {
    var s := tl + fl + here;
    forall i, j | 0 <= i < j < |s|
      ensures s[i] != s[j]
    {
      assert s[i] in Positions(tl) || s[i] in Positions(fl) || s[i] in Positions(here);
      assert s[j] in Positions(tl) || s[j] in Positions(fl) || s[j] in Positions(here);
    }
  }

  /** The waiting jumps get their target without harm to what was compiled. */
  lemma DischargeCompiled(g0: Gen, g: Gen, e: Exp, tl: seq<nat>, fl: seq<nat>, x: Goal, nactvar: nat, base: nat)
    requires Compiled(g0, g, e, tl, fl, x, nactvar, base)
    ensures Ready(Discharged(g)) && Same(g, Discharged(g)) && Discharged(g).here == []
    ensures Compiled(g0, Discharged(g), e, tl, fl, x, nactvar, base)
  {
    hide Sem, Discharged, Chain, Kept, Carries, Result, SameCarries, Meaning;
    DischargeSame(g);
    DischargedParts(g);
    var g' := Discharged(g);
    DistinctParts(tl, fl, g.here);
    if Finished(e) {
      KeptLists(g.code, g'.code, Positions(g.here), e.t, tl);
      KeptLists(g.code, g'.code, Positions(g.here), e.f, fl);
      assert tl + fl + [] == tl + fl;
      ExtendsTrans(g0, g, g');
      forall w
        ensures Meaning(Sem(g0, w), Sem(g', w), g'.code, e, tl, fl, x, w.cmp, base)
      {
        assert Meaning(Sem(g0, w), Sem(g, w), g.code, e, tl, fl, x, w.cmp, base);
        MeaningKept(Sem(g0, w), Sem(g, w), g.code, g'.code, e, tl, fl, x, w.cmp, base);
      }
    }
  }

  lemma DischargedParts(g: Gen)
    ensures Discharged(g).pend == g.pend - Positions(g.here) && Discharged(g).here == []
  {
  }

  lemma MeaningKept(o0: Outcome, o1: Outcome, code: seq<Instruction>, code': seq<Instruction>, e: Exp,
                    tl: seq<nat>, fl: seq<nat>, x: Goal, cmp: Comparisons, base: nat)
    requires Meaning(o0, o1, code, e, tl, fl, x, cmp, base)
    requires SameCarries(code, code', tl) && SameCarries(code, code', fl)
    requires Finished(e) || e.k.VJMP?
    ensures Meaning(o0, o1, code', e, tl, fl, x, cmp, base)
  {
    hide Carries, SameCarries, Result;
    if o0.Here? && Result(x, cmp, o0.regs).Some? {
      var v := Result(x, cmp, o0.regs).value;
      if Leaves(o1, code, tl, true, x, o0.regs, v, base) {
        LeavesKept(o1, code, code', tl, true, x, o0.regs, v, base);
      }
      if Leaves(o1, code, fl, false, x, o0.regs, v, base) {
        LeavesKept(o1, code, code', fl, false, x, o0.regs, v, base);
      }
    }
  }

  /** Jumps that wait in g either waited in g0 or are newer than g0. */
  lemma ExtendsTrans(g0: Gen, g: Gen, g': Gen)
    requires Extends(g0, g) && Extends(g, g')
    requires Ready(g0) && Ready(g) && (g0.pend - Positions(g0.here)) !! Positions(g.here)
    ensures Extends(g0, g')
  {
    forall i | 0 <= i < |g0.code|
      ensures KeptAt(g0.code[i], g'.code[i], i in Positions(g0.here), i + 1 in Positions(g0.here))
    {
      assert KeptAt(g0.code[i], g.code[i], i in Positions(g0.here), i + 1 in Positions(g0.here));
      assert KeptAt(g.code[i], g'.code[i], i in Positions(g.here), i + 1 in Positions(g.here));
      assert ClosedAt(g0.code, g0.pend, i);
    }
  }

  ghost predicate InSomeRegister(e: Exp) {
    e.k.VLOCAL? || e.k.VNONRELOC?
  }

  /** No instruction at the end of the code is part of the value. */
  ghost predicate Finished(e: Exp) {
    InSomeRegister(e) || IsConstant(e.k)
  }

  /** The instruction that puts the value into a register. */
  function LoadOf(e: Exp, reg: int): Instruction {
    match e.k
    case VTRUE => LOADBOOL(reg, true, false)
    case VFALSE => LOADBOOL(reg, false, false)
    case VKNUM(n) => LOADK(reg, Number(n))
    case VK(v) => LOADK(reg, v)
    case _ => MOVE(reg, e.info)
  }

  ghost function Plus(g: Gen, i: Instruction): Gen {
    g.(code := g.code + [i])
  }

  lemma KeptPlus(code: seq<Instruction>, more: seq<Instruction>, jumps: set<nat>)
    ensures Kept(code, code + more, jumps)
  {
  }

  lemma ExtendsPlus(g0: Gen, g: Gen, g': Gen, more: seq<Instruction>)
    requires Extends(g0, g) && Ready(g) && g'.code == g.code + more
    requires forall j :: j in g'.pend ==> j in g.pend || j >= |g.code|
    ensures Extends(g0, g')
  {
    forall i | 0 <= i < |g0.code|
      ensures KeptAt(g0.code[i], g'.code[i], i in Positions(g0.here), i + 1 in Positions(g0.here))
    {
      assert KeptAt(g0.code[i], g.code[i], i in Positions(g0.here), i + 1 in Positions(g0.here));
    }
  }

  lemma ExtendsLength(g0: Gen, g: Gen)
    requires Extends(g0, g)
    ensures |g0.code| <= |g.code|
  {
  }

  /** `discharge2reg` on a constant or a value that is in another register. */
  lemma MoveToBase(g0: Gen, g: Gen, e: Exp, tl: seq<nat>, fl: seq<nat>, x: Goal, nactvar: nat, base: nat)
    requires Compiled(g0, g, e, tl, fl, x, nactvar, base) && Finished(e)
    ensures Compiled(g0, Plus(Discharged(g), LoadOf(e, base)), InRegister(e, base), tl, fl, x, nactvar, base)
  {
    hide Sem, Discharged, Chain, Kept, Carries, Result, SameCarries, Meaning, Extends, Closed;
    DischargeCompiled(g0, g, e, tl, fl, x, nactvar, base);
    var d, i := Discharged(g), LoadOf(e, base);
    var h := Plus(d, i);
    AppendPlain(d, i);
    ExtendsPlus(g0, d, h, [i]);
    KeptPlus(d.code, [i], {});
    KeptLists(d.code, h.code, {}, e.t, tl);
    KeptLists(d.code, h.code, {}, e.f, fl);
    forall w
      ensures Meaning(Sem(g0, w), Sem(h, w), h.code, InRegister(e, base), tl, fl, x, w.cmp, base)
    {
      assert Meaning(Sem(g0, w), Sem(d, w), d.code, e, tl, fl, x, w.cmp, base);
      MeaningKept(Sem(g0, w), Sem(d, w), d.code, h.code, e, tl, fl, x, w.cmp, base);
      MoveMeaning(Sem(g0, w), Sem(d, w), h.code, e, tl, fl, x, w.cmp, base);
    }
  }

  lemma MoveMeaning(o0: Outcome, o1: Outcome, code: seq<Instruction>, e: Exp, tl: seq<nat>, fl: seq<nat>,
                    x: Goal, cmp: Comparisons, base: nat)
    requires Meaning(o0, o1, code, e, tl, fl, x, cmp, base) && Finished(e)
    ensures Meaning(o0, Then(o1, LoadOf(e, base), cmp), code, InRegister(e, base), tl, fl, x, cmp, base)
  {
    hide Carries, Result;
  }

  /** `discharge2reg` on a NOT whose target register is still open. */
  ghost function Relocated(g: Gen, reg: int): Gen
    requires g.code != [] && g.code[|g.code| - 1].NOT?
  {
    g.(code := g.code[|g.code| - 1 := NOT(reg, g.code[|g.code| - 1].b)])
  }

  lemma {:induction false} FrontLists(code: seq<Instruction>, n: nat, head: int, s: seq<nat>)
    requires Chain(code, head, s) && n <= |code| && forall i :: n <= i < |code| ==> !code[i].JMP?
    ensures Chain(code[..n], head, s) && SameCarries(code, code[..n], s)
    ensures forall i :: i in s ==> i < n
  {
    ChainMembers(code, head, s);
    ChainFrame(code, code[..n], head, s);
  }

  lemma RelocateToBase(g0: Gen, g: Gen, e: Exp, tl: seq<nat>, fl: seq<nat>, x: Goal, nactvar: nat, base: nat)
    requires Compiled(g0, g, e, tl, fl, x, nactvar, base) && e.k.VRELOCABLE?
    ensures Compiled(g0, Relocated(g, base), InRegister(e, base), tl, fl, x, nactvar, base)
  {
    hide Sem, Chain, Kept, Carries, Result, SameCarries, Meaning, Closed;
    var n := |g.code| - 1;
    var m, i, h := Front(g, e), NOT(base, g.code[n].b), Relocated(g, base);
    assert h == Plus(m, i);
    AppendPlain(m, i);
    FrontLists(g.code, n, e.t, tl);
    FrontLists(g.code, n, e.f, fl);
    KeptPlus(m.code, [i], {});
    KeptLists(m.code, h.code, {}, e.t, tl);
    KeptLists(m.code, h.code, {}, e.f, fl);
    ExtendsFront(g0, g, h);
    forall w
      ensures Meaning(Sem(g0, w), Sem(h, w), h.code, InRegister(e, base), tl, fl, x, w.cmp, base)
    {
      assert Meaning(Sem(g0, w), Sem(m, w), g.code, e, tl, fl, x, w.cmp, base);
      RelocateMeaning(Sem(g0, w), Sem(m, w), g.code, h.code, e, tl, fl, x, w.cmp, base);
    }
  }

  lemma ExtendsFront(g0: Gen, g: Gen, h: Gen)
    requires Extends(g0, g) && |g0.code| < |g.code| && |h.code| == |g.code| && h.pend == g.pend
    requires forall i :: 0 <= i < |g.code| - 1 ==> h.code[i] == g.code[i]
    ensures Extends(g0, h)
  {
    forall i | 0 <= i < |g0.code|
      ensures KeptAt(g0.code[i], h.code[i], i in Positions(g0.here), i + 1 in Positions(g0.here))
    {
      assert KeptAt(g0.code[i], g.code[i], i in Positions(g0.here), i + 1 in Positions(g0.here));
    }
  }

  lemma RelocateMeaning(o0: Outcome, o1: Outcome, code: seq<Instruction>, code': seq<Instruction>, e: Exp,
                        tl: seq<nat>, fl: seq<nat>, x: Goal, cmp: Comparisons, base: nat)
    requires Meaning(o0, o1, code, e, tl, fl, x, cmp, base) && e.k.VRELOCABLE? && code != []
    requires code[|code| - 1].NOT?
    requires forall j, r, v, p, ex :: j in tl && Carries(code, j, r, v, p, ex) ==> Carries(code', j, r, v, p, ex)
    requires forall j, r, v, p, ex :: j in fl && Carries(code, j, r, v, p, ex) ==> Carries(code', j, r, v, p, ex)
    ensures Meaning(o0, Then(o1, NOT(base, code[|code| - 1].b), cmp), code', InRegister(e, base), tl, fl, x, cmp, base)
  {
    hide Carries, Result;
  }

  /** Some tests that control jumps of s no longer keep a value. */
  ghost predicate Devalued(code: seq<Instruction>, code': seq<Instruction>, s: set<nat>) {
    && |code'| == |code|
    && forall i :: 0 <= i < |code| ==> DevaluedAt(code[i], code'[i], i + 1 in s)
  }

  ghost predicate DevaluedAt(i: Instruction, i': Instruction, control: bool) {
    i' == i || (control && i.TESTSET? && i.a == NO_REG && i' == TEST(i.b, i.cond))
  }

  ghost predicate NoValues(code: seq<Instruction>, s: seq<nat>) {
    forall j :: j in s ==> j < |code| && !ByTestSet(code, j)
  }

  lemma DevaluedSame(g: Gen, code': seq<Instruction>, s: set<nat>)
    requires Ready(g) && Devalued(g.code, code', s)
    ensures Ready(g.(code := code')) && Same(g, g.(code := code'))
    ensures forall i :: 0 <= i < |g.code| && !g.code[i].TESTSET? ==> code'[i] == g.code[i]
  {
    forall i | 0 <= i < |g.code|
      ensures SameEffect(g.code[i], code'[i], i in g.pend)
    {
      assert DevaluedAt(g.code[i], code'[i], i + 1 in s);
    }
    SameEffectsSame(g, code');
  }

  lemma DevaluedExtends(g0: Gen, g: Gen, code': seq<Instruction>, s: set<nat>)
    requires Ready(g0) && Extends(g0, g) && Devalued(g.code, code', s) && s <= g.pend
    requires (g0.pend - Positions(g0.here)) !! s
    ensures Extends(g0, g.(code := code'))
  {
    forall i | 0 <= i < |g0.code|
      ensures KeptAt(g0.code[i], code'[i], i in Positions(g0.here), i + 1 in Positions(g0.here))
    {
      assert KeptAt(g0.code[i], g.code[i], i in Positions(g0.here), i + 1 in Positions(g0.here));
      assert DevaluedAt(g.code[i], code'[i], i + 1 in s);
      assert ClosedAt(g0.code, g0.pend, i);
    }
  }

  lemma {:induction false} DevaluedList(code: seq<Instruction>, code': seq<Instruction>, s: set<nat>, head: int, l: seq<nat>)
    requires Chain(code, head, l) && Devalued(code, code', s)
    ensures Chain(code', head, l)
  {
    ChainMembers(code, head, l);
    forall j | j in l
      ensures code'[j] == code[j]
    {
      assert DevaluedAt(code[j], code'[j], j + 1 in s);
    }
    ChainFrame(code, code', head, l);
  }

  /** `codenot` on a value in a register: the lists change places and lose their values. */
  lemma NegateValue(g0: Gen, g: Gen, e: Exp, tl: seq<nat>, fl: seq<nat>, x: Goal, nactvar: nat, base: nat,
                    code': seq<Instruction>)
    requires Compiled(g0, g, e, tl, fl, x, nactvar, base) && InSomeRegister(e)
    requires Devalued(Discharged(g).code + [NOT(0, e.info)], code', Positions(tl) + Positions(fl))
    requires NoValues(code', tl) && NoValues(code', fl)
    ensures Compiled(g0, Discharged(g).(code := code'), Exp(VRELOCABLE, |g.code|, e.f, e.t), fl, tl, Negated(x), nactvar, base)
  {
    hide Sem, Discharged, Chain, Kept, Carries, Result, SameCarries, Meaning, Extends, Closed, Devalued, NoValues;
    DischargeCompiled(g0, g, e, tl, fl, x, nactvar, base);
    DischargeSame(g);
    ExtendsLength(g0, Discharged(g));
    var d, i, both := Discharged(g), NOT(0, e.info), Positions(tl) + Positions(fl);
    var p := Plus(d, i);
    var h := d.(code := code');
    var e' := Exp(VRELOCABLE, |g.code|, e.f, e.t);
    AppendPlain(d, i);
    DevaluedSame(p, code', both);
    ExtendsPlus(g0, d, p, [i]);
    DistinctParts(tl, fl, d.here);
    DistinctWhole(fl, tl, []);
    DevaluedExtends(g0, p, code', both);
    KeptPlus(d.code, [i], {});
    KeptLists(d.code, p.code, {}, e.t, tl);
    KeptLists(d.code, p.code, {}, e.f, fl);
    DevaluedList(p.code, code', both, e.t, tl);
    DevaluedList(p.code, code', both, e.f, fl);
    DevaluedFront(d.code, i, code', both);
    DevaluedSame(d, code'[..|d.code|], both);
    assert Front(h, e') == d.(code := code'[..|d.code|]);
    forall w
      ensures Meaning(Sem(g0, w), Sem(Front(h, e'), w), code', e', fl, tl, Negated(x), w.cmp, base)
    {
      assert Meaning(Sem(g0, w), Sem(d, w), d.code, e, tl, fl, x, w.cmp, base);
      NegateMeaning(Sem(g0, w), Sem(d, w), d.code, code', e, e', tl, fl, x, w.cmp, base);
    }
  }

  lemma DevaluedFront(code: seq<Instruction>, i: Instruction, code': seq<Instruction>, s: set<nat>)
    requires Devalued(code + [i], code', s) && i.NOT?
    ensures Devalued(code, code'[..|code|], s) && |code'| == |code| + 1 && code'[|code|] == i
  {
    assert DevaluedAt((code + [i])[|code|], code'[|code|], |code| + 1 in s);
    forall j | 0 <= j < |code|
      ensures DevaluedAt(code[j], code'[..|code|][j], j + 1 in s)
    {
      assert DevaluedAt((code + [i])[j], code'[j], j + 1 in s);
    }
  }

  lemma NegateMeaning(o0: Outcome, o1: Outcome, code: seq<Instruction>, code': seq<Instruction>, e: Exp, e': Exp,
                      tl: seq<nat>, fl: seq<nat>, x: Goal, cmp: Comparisons, base: nat)
    requires Meaning(o0, o1, code, e, tl, fl, x, cmp, base)
    requires InSomeRegister(e) && e'.k.VRELOCABLE? && code' != [] && code'[|code'| - 1] == NOT(0, e.info)
    requires NoValues(code', tl) && NoValues(code', fl)
    ensures Meaning(o0, o1, code', e', fl, tl, Negated(x), cmp, base)
  {
    hide ByTestSet, ControlOf;
    if o0.Here? && Result(x, cmp, o0.regs).Some? {
      var v := Result(x, cmp, o0.regs).value;
      assert Result(Negated(x), cmp, o0.regs) == Some(Negate(v));
      if Leaves(o1, code, tl, true, x, o0.regs, v, base) {
        assert Leaves(o1, code', tl, false, Negated(x), o0.regs, Negate(v), base);
      } else if Leaves(o1, code, fl, false, x, o0.regs, v, base) {
        assert Leaves(o1, code', fl, true, Negated(x), o0.regs, Negate(v), base);
      }
    }
  }

  /** `invertjump`: the comparison that is the value of e is tested the other way round. */
  ghost function Flipped(g: Gen): Gen
    requires |g.code| >= 2 && g.code[|g.code| - 2].COMPARE?
  {
    var i := g.code[|g.code| - 2];
    g.(code := g.code[|g.code| - 2 := COMPARE(i.op, !i.cond, i.p, i.q)])
  }

  ghost function Flip(o: Outcome, j: nat): Outcome {
    match o
    case Here(r) => Exit(j, r)
    case Exit(i, r) => if i == j then Here(r) else o
    case _ => o
  }

  lemma FlipSem(b: Gen, i: Instruction, i': Instruction)
    requires Ready(b) && b.here == [] && i.COMPARE? && i' == COMPARE(i.op, !i.cond, i.p, i.q)
    ensures Ready(WithTest(b, i)) && Ready(WithTest(b, i'))
    ensures forall w :: Sem(WithTest(b, i'), w) == Flip(Sem(WithTest(b, i), w), |b.code| + 1)
  {
    hide Sem, Closed, WithTest;
    AppendTest(b, i);
    AppendTest(b, i');
    forall w
      ensures Sem(WithTest(b, i'), w) == Flip(Sem(WithTest(b, i), w), |b.code| + 1)
    {
      PendingOnly(b, w);
    }
  }

  lemma FlipTest(g: Gen, e: Exp, tl: seq<nat>, fl: seq<nat>, nactvar: nat, base: nat)
    requires WellFormed(g, e, tl, fl, nactvar, base) && e.k.VJMP?
    ensures WellFormed(Flipped(g), e, tl, fl, nactvar, base)
    ensures forall w :: Sem(Flipped(g), w) == Flip(Sem(g, w), e.info)
    ensures SameCarries(g.code, Flipped(g).code, tl) && SameCarries(g.code, Flipped(g).code, fl)
  {
    hide Sem, Carries, Closed, Chain, Distinct, Flip, SameCarries;
    var n := |g.code| - 2;
    var b, i, h := BeforeTest(g, e), g.code[n], Flipped(g);
    var i' := COMPARE(i.op, !i.cond, i.p, i.q);
    assert g == WithTest(b, i) && h == WithTest(b, i') && b == BeforeTest(h, e);
    FlipSem(b, i, i');
    FlipList(g, e.t, tl);
    FlipList(g, e.f, fl);
  }

  lemma {:induction false} FlipList(g: Gen, head: int, s: seq<nat>)
    requires |g.code| >= 2 && g.code[|g.code| - 2].COMPARE? && Chain(g.code, head, s) && |g.code| - 1 !in s
    ensures Chain(Flipped(g).code, head, s) && SameCarries(g.code, Flipped(g).code, s)
  {
    ChainMembers(g.code, head, s);
    ChainFrame(g.code, Flipped(g).code, head, s);
  }

  lemma {:induction false} RunExitsPending(code: seq<Instruction>, pend: set<nat>, cmp: Comparisons, pc: nat, regs: Registers)
    requires Closed(code, pend) && pc <= |code|
    ensures Run(code, pend, cmp, pc, regs).Exit? ==> Run(code, pend, cmp, pc, regs).at in pend
    decreases |code| - pc
  {
    if pc < |code| {
      assert ClosedAt(code, pend, pc);
      if code[pc].JMP? {
        if pc !in pend { RunExitsPending(code, pend, cmp, pc + 1 + code[pc].sbx, regs); }
      } else {
        var e := Effect(code[pc], cmp, regs);
        if e.Some? { RunExitsPending(code, pend, cmp, pc + e.value.0, e.value.1); }
      }
    }
  }

  lemma PendingOnly(g: Gen, w: Start)
    requires Ready(g)
    ensures Sem(g, w).Exit? ==> Sem(g, w).at in g.pend && Sem(g, w).at < |g.code| && Sem(g, w).at !in g.here
  {
    RunExitsPending(g.code, g.pend, w.cmp, 0, w.regs);
  }

  lemma FlipExtends(g0: Gen, g: Gen)
    requires Extends(g0, g) && |g0.code| + 2 <= |g.code| && g.code[|g.code| - 2].COMPARE?
    ensures Extends(g0, Flipped(g))
  {
    forall i | 0 <= i < |g0.code|
      ensures KeptAt(g0.code[i], Flipped(g).code[i], i in Positions(g0.here), i + 1 in Positions(g0.here))
    {
      assert KeptAt(g0.code[i], g.code[i], i in Positions(g0.here), i + 1 in Positions(g0.here));
    }
  }

  /** `codenot` on a comparison: the test is inverted, the lists change places. */
  lemma NegateTest(g0: Gen, g: Gen, e: Exp, tl: seq<nat>, fl: seq<nat>, x: Goal, nactvar: nat, base: nat,
                   code': seq<Instruction>)
    requires Compiled(g0, g, e, tl, fl, x, nactvar, base) && e.k.VJMP?
    requires Devalued(Flipped(g).code, code', Positions(tl) + Positions(fl))
    requires NoValues(code', tl) && NoValues(code', fl)
    ensures Compiled(g0, g.(code := code'), Exp(VJMP, e.info, e.f, e.t), fl, tl, Negated(x), nactvar, base)
  {
    hide Sem, Chain, Kept, Carries, Result, SameCarries, Meaning, Extends, Closed, Devalued, NoValues, Flipped;
    FlippedParts(g);
    FlipTest(g, e, tl, fl, nactvar, base);
    FlipExtends(g0, g);
    var p, both := Flipped(g), Positions(tl) + Positions(fl);
    var h, e' := g.(code := code'), Exp(VJMP, e.info, e.f, e.t);
    DevaluedSame(p, code', both);
    DistinctParts(tl, fl, g.here);
    DistinctWhole(fl, tl, []);
    DevaluedExtends(g0, p, code', both);
    DevaluedList(p.code, code', both, e.t, tl);
    DevaluedList(p.code, code', both, e.f, fl);
    DevaluedBefore(p, e, code', both);
    DevaluedSame(BeforeTest(p, e), code'[..|code'| - 2], both);
    assert BeforeTest(h, e') == BeforeTest(p, e).(code := code'[..|code'| - 2]);
    forall w
      ensures Meaning(Sem(g0, w), Sem(h, w), code', e', fl, tl, Negated(x), w.cmp, base)
    {
      assert Meaning(Sem(g0, w), Sem(g, w), g.code, e, tl, fl, x, w.cmp, base);
      PendingBefore(g0, g, e, w);
      FlipMeaning(Sem(g0, w), Sem(g, w), g.code, code', e, e', tl, fl, x, w.cmp, base);
    }
  }

  lemma FlippedParts(g: Gen)
    requires |g.code| >= 2 && g.code[|g.code| - 2].COMPARE?
    ensures var i := g.code[|g.code| - 2];
            && Flipped(g).pend == g.pend && Flipped(g).here == g.here && |Flipped(g).code| == |g.code|
            && Flipped(g).code[|g.code| - 2] == COMPARE(i.op, !i.cond, i.p, i.q)
            && Flipped(g).code[|g.code| - 1] == g.code[|g.code| - 1]
  {
  }

  lemma DevaluedBefore(g: Gen, e: Exp, code': seq<Instruction>, s: set<nat>)
    requires Devalued(g.code, code', s) && |g.code| >= 2 && !g.code[|g.code| - 2].TESTSET? && !g.code[|g.code| - 1].TESTSET?
    ensures Devalued(BeforeTest(g, e).code, code'[..|code'| - 2], s) && |code'| == |g.code|
    ensures code'[|g.code| - 2] == g.code[|g.code| - 2] && code'[|g.code| - 1] == g.code[|g.code| - 1]
  {
    assert DevaluedAt(g.code[|g.code| - 2], code'[|g.code| - 2], |g.code| - 1 in s);
    assert DevaluedAt(g.code[|g.code| - 1], code'[|g.code| - 1], |g.code| in s);
    forall j | 0 <= j < |code'| - 2
      ensures DevaluedAt(BeforeTest(g, e).code[j], code'[..|code'| - 2][j], j + 1 in s)
    {
      assert DevaluedAt(g.code[j], code'[j], j + 1 in s);
    }
  }

  /** A run of g0 never leaves by the jump that is the value of e: that jump is newer. */
  lemma PendingBefore(g0: Gen, g: Gen, e: Exp, w: Start)
    requires Ready(g0) && Extends(g0, g) && e.k.VJMP? && e.info == |g.code| - 1 && |g0.code| + 2 <= |g.code|
    ensures Sem(g0, w).Exit? ==> Sem(g0, w).at != e.info
  {
    PendingOnly(g0, w);
  }

  lemma FlipMeaning(o0: Outcome, o1: Outcome, code: seq<Instruction>, code': seq<Instruction>, e: Exp, e': Exp,
                    tl: seq<nat>, fl: seq<nat>, x: Goal, cmp: Comparisons, base: nat)
    requires Meaning(o0, o1, code, e, tl, fl, x, cmp, base)
    requires e.k.VJMP? && e'.k.VJMP? && e'.info == e.info >= 0 && e.info !in tl && e.info !in fl
    requires o0.Exit? ==> o0.at != e.info
    requires NoValues(code', tl) && NoValues(code', fl)
    ensures Meaning(o0, Flip(o1, e.info), code', e', fl, tl, Negated(x), cmp, base)
  {
    hide ByTestSet, ControlOf;
    if o0.Here? && Result(x, cmp, o0.regs).Some? {
      var v := Result(x, cmp, o0.regs).value;
      assert Result(Negated(x), cmp, o0.regs) == Some(Negate(v));
      if Leaves(o1, code, tl, true, x, o0.regs, v, base) {
        assert Leaves(o1, code', tl, false, Negated(x), o0.regs, Negate(v), base);
      } else if Leaves(o1, code, fl, false, x, o0.regs, v, base) {
        assert Leaves(o1, code', fl, true, Negated(x), o0.regs, Negate(v), base);
      }
    }
  }

  /** The value is tested: the run goes on if it is c, and leaves by the new jump j otherwise; jumps
      of the old lists may still leave either way. */
  ghost predicate Parts(o0: Outcome, o1: Outcome, code: seq<Instruction>, c: bool, j: nat, tl: seq<nat>, fl: seq<nat>,
                        x: Goal, cmp: Comparisons, base: nat) {
    match o0
    case Here(r) =>
      x.ok ==>
        (match Result(x, cmp, r)
         case None => o1 == Raise
         case Some(v) =>
           || (o1.Here? && IsFalse(v) == !c && SameBelow(r, o1.regs, base))
           || Leaves(o1, code, [j], !c, x, r, v, base)
           || Leaves(o1, code, tl, true, x, r, v, base)
           || Leaves(o1, code, fl, false, x, r, v, base))
    case _ => o1 == o0
  }

  ghost predicate Split(g0: Gen, g: Gen, c: bool, j: nat, e: Exp, tl: seq<nat>, fl: seq<nat>, x: Goal, base: nat) {
    && Ready(g0) && Ready(g) && g.here == []
    && Chain(g.code, e.t, tl) && Chain(g.code, e.f, fl)
    && j in g.pend && g.code[j] == JMP(NO_JUMP)
    && Distinct(tl + fl + [j]) && Positions(tl) <= g.pend && Positions(fl) <= g.pend
    && Extends(g0, g)
    && g.pend - Positions(tl) - Positions(fl) - {j} == g0.pend - Positions(g0.here)
    && forall w :: Parts(Sem(g0, w), Sem(g, w), g.code, c, j, tl, fl, x, w.cmp, base)
  }

  lemma WithTestParts(d: Gen, i: Instruction)
    ensures WithTest(d, i).code == d.code + [i, JMP(NO_JUMP)] && WithTest(d, i).pend == d.pend + {|d.code| + 1}
    ensures WithTest(d, i).here == d.here
  {
  }

  lemma DistinctWithNew(tl: seq<nat>, fl: seq<nat>, j: nat)
    requires Distinct(tl + fl) && j !in tl && j !in fl
    ensures Distinct(tl + fl + [j]) && Positions([j]) == {j}
  {
  }

  /** A test and its jump are appended to state d, where e is in a register. */
  lemma SplitRegister(g0: Gen, g: Gen, e: Exp, tl: seq<nat>, fl: seq<nat>, x: Goal, nactvar: nat, base: nat, c: bool)
    requires Compiled(g0, g, e, tl, fl, x, nactvar, base) && InSomeRegister(e)
    ensures Split(g0, WithTest(Discharged(g), TESTSET(NO_REG, e.info, !c)), c, |g.code| + 1, e, tl, fl, x, base)
  {
    hide Sem, Discharged, Chain, Kept, Carries, Result, SameCarries, Meaning, Extends, Closed, WithTest, Parts, Distinct;
    DischargeCompiled(g0, g, e, tl, fl, x, nactvar, base);
    DischargeSame(g);
    var d, i := Discharged(g), TESTSET(NO_REG, e.info, !c);
    var h := WithTest(d, i);
    SplitState(g0, d, e, tl, fl, x, nactvar, base, i);
    forall w
      ensures Parts(Sem(g0, w), Sem(h, w), h.code, c, |g.code| + 1, tl, fl, x, w.cmp, base)
    {
      assert Meaning(Sem(g0, w), Sem(d, w), d.code, e, tl, fl, x, w.cmp, base);
      RegisterParts(Sem(g0, w), Sem(d, w), d, h.code, e, tl, fl, x, w.cmp, base, c);
    }
  }

  /** The part of appending a test that has nothing to do with values. */
  lemma {:induction false} SplitState(g0: Gen, d: Gen, e: Exp, tl: seq<nat>, fl: seq<nat>, x: Goal, nactvar: nat, base: nat, i: Instruction)
    requires Ready(g0) && Ready(d) && d.here == [] && Extends(g0, d)
    requires Chain(d.code, e.t, tl) && Chain(d.code, e.f, fl) && Distinct(tl + fl + d.here)
    requires Positions(tl) <= d.pend && Positions(fl) <= d.pend
    requires d.pend - Positions(tl) - Positions(fl) == g0.pend - Positions(g0.here)
    requires IsTest(i) && (i.TESTSET? ==> i.a == NO_REG)
    ensures var h := WithTest(d, i);
            && Ready(h) && h.here == [] && Chain(h.code, e.t, tl) && Chain(h.code, e.f, fl)
            && Distinct(tl + fl + [|d.code| + 1]) && Positions(tl) <= h.pend && Positions(fl) <= h.pend
            && Extends(g0, h) && |d.code| + 1 in h.pend && |h.code| == |d.code| + 2 && h.code[|d.code| + 1] == JMP(NO_JUMP)
            && h.code[|d.code|] == i
            && h.pend - Positions(tl) - Positions(fl) - {|d.code| + 1} == g0.pend - Positions(g0.here)
            && (forall w :: Sem(h, w) == ThenTest(Sem(d, w), i, w.cmp, |d.code| + 1))
            && SameCarries(d.code, h.code, tl) && SameCarries(d.code, h.code, fl)
  {
    hide Sem, Chain, Kept, Carries, SameCarries, Extends, Closed, WithTest, ThenTest, Distinct;
    var h, j := WithTest(d, i), |d.code| + 1;
    var more := [i, JMP(NO_JUMP)];
    AppendTest(d, i);
    WithTestParts(d, i);
    ExtendsPlus(g0, d, h, more);
    ExtendsLength(g0, d);
    KeptPlus(d.code, more, {});
    KeptLists(d.code, h.code, {}, e.t, tl);
    KeptLists(d.code, h.code, {}, e.f, fl);
    ChainMembers(d.code, e.t, tl);
    ChainMembers(d.code, e.f, fl);
    assert tl + fl + [] == tl + fl;
    DistinctWithNew(tl, fl, j);
    ClosedMeans(d.code, d.pend);
    PendingOld(g0, d, j);
  }

  lemma PendingOld(g0: Gen, d: Gen, j: nat)
    requires Ready(g0) && Ready(d) && Extends(g0, d) && j >= |d.code|
    ensures j !in g0.pend && j !in d.pend
  {
    ClosedMeans(g0.code, g0.pend);
    ClosedMeans(d.code, d.pend);
  }

  lemma RegisterParts(o0: Outcome, o1: Outcome, d: Gen, code: seq<Instruction>, e: Exp, tl: seq<nat>, fl: seq<nat>,
                      x: Goal, cmp: Comparisons, base: nat, c: bool)
    requires Meaning(o0, o1, d.code, e, tl, fl, x, cmp, base) && InSomeRegister(e)
    requires SameCarries(d.code, code, tl) && SameCarries(d.code, code, fl)
    requires |code| == |d.code| + 2 && code[|d.code|] == TESTSET(NO_REG, e.info, !c)
    ensures Parts(o0, ThenTest(o1, TESTSET(NO_REG, e.info, !c), cmp, |d.code| + 1), code, c, |d.code| + 1, tl, fl, x, cmp, base)
  {
    hide SameCarries, Result;
    if o0.Here? && Result(x, cmp, o0.regs).Some? {
      var v := Result(x, cmp, o0.regs).value;
      if Leaves(o1, d.code, tl, true, x, o0.regs, v, base) {
        LeavesKept(o1, d.code, code, tl, true, x, o0.regs, v, base);
      } else if Leaves(o1, d.code, fl, false, x, o0.regs, v, base) {
        LeavesKept(o1, d.code, code, fl, false, x, o0.regs, v, base);
      }
    }
  }

  /** `jumponcond` on a NOT: the instruction is taken back and its operand tested instead. */
  lemma SplitNot(g0: Gen, g: Gen, e: Exp, tl: seq<nat>, fl: seq<nat>, x: Goal, nactvar: nat, base: nat, c: bool)
    requires Compiled(g0, g, e, tl, fl, x, nactvar, base) && e.k.VRELOCABLE?
    ensures Split(g0, WithTest(Front(g, e), TEST(g.code[|g.code| - 1].b, c)), c, |g.code|, e, tl, fl, x, base)
  {
    hide Sem, Chain, Kept, Carries, Result, SameCarries, Meaning, Closed, WithTest, Parts, Distinct;
    var d := Front(g, e);
    var b := g.code[|g.code| - 1].b;
    var i := TEST(b, c);
    var h := WithTest(d, i);
    FrontLists(g.code, |g.code| - 1, e.t, tl);
    FrontLists(g.code, |g.code| - 1, e.f, fl);
    ExtendsBack(g0, g, d);
    SplitState(g0, d, e, tl, fl, x, nactvar, base, i);
    forall w
      ensures Parts(Sem(g0, w), Sem(h, w), h.code, c, |g.code|, tl, fl, x, w.cmp, base)
    {
      assert Meaning(Sem(g0, w), Sem(d, w), g.code, e, tl, fl, x, w.cmp, base);
      NotParts(Sem(g0, w), Sem(d, w), g.code, d, h.code, e, tl, fl, x, w.cmp, base, c);
    }
  }

  lemma ExtendsBack(g0: Gen, g: Gen, d: Gen)
    requires Extends(g0, g) && |g0.code| < |g.code| && d.code == g.code[..|g.code| - 1] && d.pend == g.pend
    ensures Extends(g0, d)
  {
    forall i | 0 <= i < |g0.code|
      ensures KeptAt(g0.code[i], d.code[i], i in Positions(g0.here), i + 1 in Positions(g0.here))
    {
      assert KeptAt(g0.code[i], g.code[i], i in Positions(g0.here), i + 1 in Positions(g0.here));
    }
  }

  lemma NotParts(o0: Outcome, o1: Outcome, code0: seq<Instruction>, d: Gen, code: seq<Instruction>, e: Exp, tl: seq<nat>, fl: seq<nat>,
                 x: Goal, cmp: Comparisons, base: nat, c: bool)
    requires Meaning(o0, o1, code0, e, tl, fl, x, cmp, base) && e.k.VRELOCABLE?
    requires code0 != [] && code0[|code0| - 1].NOT? && d.code == code0[..|code0| - 1]
    requires SameCarries(code0, d.code, tl) && SameCarries(code0, d.code, fl)
    requires SameCarries(d.code, code, tl) && SameCarries(d.code, code, fl)
    requires |code| == |d.code| + 2 && code[|d.code|] == TEST(code0[|code0| - 1].b, c)
    ensures Parts(o0, ThenTest(o1, TEST(code0[|code0| - 1].b, c), cmp, |d.code| + 1), code, c, |d.code| + 1, tl, fl, x, cmp, base)
  {
    hide SameCarries, Result;
    if o0.Here? && Result(x, cmp, o0.regs).Some? {
      var v := Result(x, cmp, o0.regs).value;
      if Leaves(o1, code0, tl, true, x, o0.regs, v, base) {
        LeavesKept(o1, code0, d.code, tl, true, x, o0.regs, v, base);
        LeavesKept(o1, d.code, code, tl, true, x, o0.regs, v, base);
      } else if Leaves(o1, code0, fl, false, x, o0.regs, v, base) {
        LeavesKept(o1, code0, d.code, fl, false, x, o0.regs, v, base);
        LeavesKept(o1, d.code, code, fl, false, x, o0.regs, v, base);
      }
    }
  }

  /** A comparison already ends in a jump, taken when it is true; to go on if it is true it is
      inverted first. */
  lemma SplitTest(g0: Gen, g: Gen, e: Exp, tl: seq<nat>, fl: seq<nat>, x: Goal, nactvar: nat, base: nat, c: bool)
    requires Compiled(g0, g, e, tl, fl, x, nactvar, base) && e.k.VJMP?
    ensures Split(g0, if c then Flipped(g) else g, c, e.info, e, tl, fl, x, base)
  {
    hide Sem, Chain, Kept, Carries, Result, SameCarries, Meaning, Extends, Closed, Flipped, Parts, Distinct;
    FlippedParts(g);
    FlipTest(g, e, tl, fl, nactvar, base);
    FlipExtends(g0, g);
    var h := if c then Flipped(g) else g;
    assert tl + fl + [] == tl + fl;
    DistinctWithNew(tl, fl, e.info);
    forall w
      ensures Parts(Sem(g0, w), Sem(h, w), h.code, c, e.info, tl, fl, x, w.cmp, base)
    {
      assert Meaning(Sem(g0, w), Sem(g, w), g.code, e, tl, fl, x, w.cmp, base);
      PendingBefore(g0, g, e, w);
      TestParts(Sem(g0, w), Sem(g, w), g.code, h.code, e, tl, fl, x, w.cmp, base, c);
    }
  }

  lemma TestParts(o0: Outcome, o1: Outcome, code: seq<Instruction>, code': seq<Instruction>, e: Exp, tl: seq<nat>, fl: seq<nat>,
                  x: Goal, cmp: Comparisons, base: nat, c: bool)
    requires Meaning(o0, o1, code, e, tl, fl, x, cmp, base) && e.k.VJMP?
    requires o0.Exit? ==> o0.at != e.info
    requires e.info !in tl && e.info !in fl && 1 <= e.info < |code'| && code'[e.info - 1].COMPARE?
    requires c ==> SameCarries(code, code', tl) && SameCarries(code, code', fl)
    requires !c ==> code' == code
    ensures Parts(o0, if c then Flip(o1, e.info) else o1, code', c, e.info, tl, fl, x, cmp, base)
  {
    hide SameCarries, Result;
    if o0.Here? && Result(x, cmp, o0.regs).Some? {
      var v := Result(x, cmp, o0.regs).value;
      if Leaves(o1, code, tl, true, x, o0.regs, v, base) {
        if c { LeavesKept(o1, code, code', tl, true, x, o0.regs, v, base); }
      } else if Leaves(o1, code, fl, false, x, o0.regs, v, base) {
        if c { LeavesKept(o1, code, code', fl, false, x, o0.regs, v, base); }
      }
    }
  }

  /** Links of some pending jumps were changed. */
  ghost predicate Relinked(code: seq<Instruction>, code': seq<Instruction>, s: set<nat>) {
    && |code'| == |code|
    && forall i :: 0 <= i < |code| ==> RelinkedAt(code[i], code'[i], i in s)
  }

  ghost predicate RelinkedAt(i: Instruction, i': Instruction, member: bool) {
    i' == i || (member && i.JMP? && i'.JMP?)
  }

  lemma RelinkedSame(g: Gen, code': seq<Instruction>, s: set<nat>)
    requires Ready(g) && Relinked(g.code, code', s) && s <= g.pend
    ensures Ready(g.(code := code')) && Same(g, g.(code := code'))
  {
    forall i | 0 <= i < |g.code|
      ensures SameEffect(g.code[i], code'[i], i in g.pend)
    {
      assert RelinkedAt(g.code[i], code'[i], i in s);
    }
    SameEffectsSame(g, code');
  }

  lemma RelinkedCarries(code: seq<Instruction>, code': seq<Instruction>, s: set<nat>, l: seq<nat>)
    requires Relinked(code, code', s) && forall j :: j in l ==> j < |code| && code[j].JMP?
    ensures SameCarries(code, code', l)
  {
    forall j | j in l
      ensures ControlOf(code', j) == ControlOf(code, j) && (ByTestSet(code, j) <==> ByTestSet(code', j))
      ensures ByTestSet(code, j) ==> code'[ControlOf(code', j)] == code[ControlOf(code, j)]
    {
      assert RelinkedAt(code[j], code'[j], j in s);
      if j > 0 { assert RelinkedAt(code[j - 1], code'[j - 1], j - 1 in s); }
    }
  }

  lemma RelinkedExtends(g0: Gen, g: Gen, code': seq<Instruction>, s: set<nat>)
    requires Ready(g0) && Extends(g0, g) && Relinked(g.code, code', s) && s <= g.pend
    requires (g0.pend - Positions(g0.here)) !! s
    ensures Extends(g0, g.(code := code'))
  {
    forall i | 0 <= i < |g0.code|
      ensures KeptAt(g0.code[i], code'[i], i in Positions(g0.here), i + 1 in Positions(g0.here))
    {
      assert KeptAt(g0.code[i], g.code[i], i in Positions(g0.here), i + 1 in Positions(g0.here));
      assert RelinkedAt(g.code[i], code'[i], i in s);
    }
  }

  /** The new jump joins the list of its kind, the jumps of the other list go on here. */
  lemma {:induction false} SplitMerges(g0: Gen, g: Gen, c: bool, j: nat, e: Exp, tl: seq<nat>, fl: seq<nat>, x: Goal, base: nat,
                    code': seq<Instruction>, head: int, own: seq<nat>, other: seq<nat>)
    requires Split(g0, g, c, j, e, tl, fl, x, base)
    requires own == (if c then fl else tl) && other == (if c then tl else fl)
    requires Relinked(g.code, code', Positions(own)) && Chain(code', head, own + [j])
    ensures Tested(g0, g.(code := code', here := other), c, head, own + [j], x, base)
  {
    hide Sem, Chain, Kept, Carries, Result, SameCarries, Extends, Closed, Parts, Relinked, Branches;
    var k := g.(code := code');
    var h := k.(here := other);
    DistinctParts(tl, fl, [j]);
    RelinkedSame(g, code', Positions(own));
    RelinkedExtends(g0, g, code', Positions(own));
    ExtendsHere(g0, k, h);
    assert [] + other == other;
    WaitHere(k, other);
    assert Positions(own + [j]) == Positions(own) + {j};
    DistinctWhole(own, [j], other);
    ChainMembers(g.code, e.t, tl);
    ChainMembers(g.code, e.f, fl);
    ClosedMeans(g.code, g.pend);
    RelinkedCarries(g.code, code', Positions(own), own);
    RelinkedCarries(g.code, code', Positions(own), [j]);
    forall w
      ensures Branches(Sem(g0, w), Sem(h, w), code', c, own + [j], x, w.cmp, base)
    {
      assert Parts(Sem(g0, w), Sem(g, w), g.code, c, j, tl, fl, x, w.cmp, base);
      OthersRemain(g0, other, w);
      MergeMeaning(Sem(g0, w), Sem(g, w), g.code, code', c, j, tl, fl, own, other, x, w.cmp, base);
    }
  }

  lemma OthersRemain(g0: Gen, other: seq<nat>, w: Start)
    requires Ready(g0) && (g0.pend - Positions(g0.here)) !! Positions(other)
    ensures Sem(g0, w).Exit? ==> Sem(g0, w).at !in other
  {
    PendingOnly(g0, w);
    assert forall x :: x in other ==> x in Positions(other);
    assert forall x :: x in g0.here <==> x in Positions(g0.here);
  }

  lemma ExtendsHere(g0: Gen, g: Gen, h: Gen)
    requires Extends(g0, g) && h.code == g.code && h.pend == g.pend
    ensures Extends(g0, h)
  {
  }

  lemma MergeMeaning(o0: Outcome, o1: Outcome, code: seq<Instruction>, code': seq<Instruction>, c: bool, j: nat,
                     tl: seq<nat>, fl: seq<nat>, own: seq<nat>, other: seq<nat>, x: Goal, cmp: Comparisons, base: nat)
    requires Parts(o0, o1, code, c, j, tl, fl, x, cmp, base)
    requires own == (if c then fl else tl) && other == (if c then tl else fl)
    requires Distinct(own + [j] + other)
    requires SameCarries(code, code', own) && SameCarries(code, code', [j])
    requires o0.Exit? ==> o0.at !in other
    ensures Branches(o0, Settle(o1, other), code', c, own + [j], x, cmp, base)
  {
    hide SameCarries, Result, Carries;
    DistinctParts(own, [j], other);
    if o0.Here? && Result(x, cmp, o0.regs).Some? {
      var v, r := Result(x, cmp, o0.regs).value, o0.regs;
      if Leaves(o1, code, [j], !c, x, r, v, base) {
        LeavesKept(o1, code, code', [j], !c, x, r, v, base);
        assert j in Positions([j]);
        assert o1.at !in Positions(other);
      } else if Leaves(o1, code, own, !c, x, r, v, base) {
        LeavesKept(o1, code, code', own, !c, x, r, v, base);
        assert o1.at in Positions(own);
        assert o1.at !in Positions(other);
      }
    }
  }

  // -------------------------------------------------------------------------
  // Putting the value into the register (`exp2reg`)
  // -------------------------------------------------------------------------

  /** The two loads at the end of the code, or the fact that no listed jump needs them. */
  ghost predicate Loads(code: seq<Instruction>, base: nat, s: seq<nat>, pf: int, pt: int) {
    || (forall j :: j in s ==> j < |code| && ByTestSet(code, j))
    || (&& |code| >= 2 && pf == |code| - 2 && pt == |code| - 1
        && code[pf] == LOADBOOL(base, false, true) && code[pt] == LOADBOOL(base, true, false)
        && EntryPoint(code, pf))
  }

  /** One of the two lists is patched: its jumps bring their own value or load the constant. */
  lemma {:induction false} PatchOwn(g0: Gen, h: Gen, e: Exp, tl: seq<nat>, fl: seq<nat>, x: Goal, nactvar: nat, base: nat,
                 plain: bool, pf: int, pt: int)
    requires Compiled(g0, h, e, tl, fl, x, nactvar, base) && e.k.VNONRELOC? && e.info == base && base < NO_REG
    requires Exact(x, plain) && Loads(h.code, base, if plain then tl else fl, pf, pt)
    requires !plain ==> Loads(h.code, base, tl, pf, pt)
    ensures var s, dt := if plain then tl else fl, if plain then pt else pf;
            var k := h.(code := PatchAll(h.code, s, |h.code|, base, dt), pend := h.pend - Positions(s));
            && Compiled(g0, k, if plain then e.(t := NO_JUMP) else e.(f := NO_JUMP),
                        if plain then [] else tl, if plain then fl else [], x, nactvar, base)
            && (!plain ==> Loads(k.code, base, tl, pf, pt))
  {
    hide Sem, Chain, Kept, Carries, Result, SameCarries, Meaning, Extends, Closed, PatchAll, Distinct, Loads;
    var s, dt := if plain then tl else fl, if plain then pt else pf;
    var k := h.(code := PatchAll(h.code, s, |h.code|, base, dt), pend := h.pend - Positions(s));
    var e' := if plain then e.(t := NO_JUMP) else e.(f := NO_JUMP);
    LoadTargets(h, base, s, pf, pt, plain);
    PatchOwnState(g0, h, e, tl, fl, nactvar, base, plain, dt, k);
    DistinctParts(tl, fl, h.here);
    if !plain {
      ChainMembers(h.code, e.t, tl);
      ChainMembers(h.code, e.f, fl);
      PatchAllKept(h.code, s, |h.code|, base, dt);
      LoadsKept(h.code, k.code, Positions(fl), base, tl, pf, pt);
    }
    forall w
      ensures Meaning(Sem(g0, w), Sem(k, w), k.code, e', if plain then [] else tl, if plain then fl else [], x, w.cmp, base)
    {
      assert Meaning(Sem(g0, w), Sem(h, w), h.code, e, tl, fl, x, w.cmp, base);
      PatchSem(h, k, s, base, dt, w);
      OthersRemain(g0, s, w);
      PatchMeaning(Sem(g0, w), Sem(h, w), h, k.code, e, e', tl, fl, x, w.cmp, base, plain, pf, pt);
    }
  }

  /** The part of patching a list that has nothing to do with values. */
  lemma PatchOwnState(g0: Gen, h: Gen, e: Exp, tl: seq<nat>, fl: seq<nat>, nactvar: nat, base: nat,
                      plain: bool, dt: int, k: Gen)
    requires Ready(g0) && WellFormed(h, e, tl, fl, nactvar, base) && e.k.VNONRELOC? && e.info == base
    requires Extends(g0, h) && Others(h, e, tl, fl) == g0.pend - Positions(g0.here)
    requires var s := if plain then tl else fl;
             && CanLand(h, s, dt)
             && k == h.(code := PatchAll(h.code, s, |h.code|, base, dt), pend := h.pend - Positions(s))
    ensures var e', tl', fl' := if plain then e.(t := NO_JUMP) else e.(f := NO_JUMP), if plain then [] else tl, if plain then fl else [];
            && WellFormed(k, e', tl', fl', nactvar, base) && Extends(g0, k)
            && Others(k, e', tl', fl') == g0.pend - Positions(g0.here)
            && SameCarries(h.code, k.code, if plain then fl else tl)
  {
    hide Chain, Kept, Carries, SameCarries, Extends, Closed, PatchAll, Distinct, TargetOf, Landing;
    var s, u := if plain then tl else fl, if plain then fl else tl;
    DistinctParts(tl, fl, h.here);
    ChainMembers(h.code, e.t, tl);
    ChainMembers(h.code, e.f, fl);
    assert forall x :: x in s ==> x in Positions(s);
    PatchAllKept(h.code, s, |h.code|, base, dt);
    PatchAllRun(h.code, h.pend, s, |h.code|, base, dt, imap[], map[]);
    KeptLists(h.code, k.code, Positions(s), if plain then e.f else e.t, u);
    EmptyChain(k.code);
    if plain {
      DistinctWhole([], fl, h.here);
    } else {
      DistinctWhole(tl, [], h.here);
    }
    PatchExtends(g0, h, k, Positions(s));
  }

  lemma {:induction false} EmptyChain(code: seq<Instruction>)
    ensures Chain(code, NO_JUMP, [])
  {
  }

  lemma LoadTargets(h: Gen, base: nat, s: seq<nat>, pf: int, pt: int, plain: bool)
    requires Ready(h) && Positions(s) <= h.pend && Loads(h.code, base, s, pf, pt)
    ensures var dt := if plain then pt else pf;
            && CanLand(h, s, dt)
            && forall j :: j in s ==>
              && j in h.pend && j < |h.code|
              && (!ByTestSet(h.code, j) ==> dt < |h.code| && h.code[dt].LOADBOOL? && h.code[dt].a == base && h.code[dt].value == plain)
  {
    ClosedMeans(h.code, h.pend);
    forall j | j in s
      ensures j in h.pend && j < |h.code|
    {
      assert j in Positions(s);
    }
    if h.code != [] { assert ClosedAt(h.code, h.pend, |h.code| - 1); }
  }

  lemma LoadsKept(code: seq<Instruction>, code': seq<Instruction>, s: set<nat>, base: nat, l: seq<nat>, pf: int, pt: int)
    requires Kept(code, code', s) && |code'| == |code| && Loads(code, base, l, pf, pt)
    requires forall j :: j in l ==> j < |code| && code[j].JMP? && j !in s
    ensures Loads(code', base, l, pf, pt)
  {
    forall j | j in l
      ensures ByTestSet(code', j) <==> ByTestSet(code, j)
    {
      KeptControl(code, code', s, j);
    }
    var n := |code|;
    if n >= 2 {
      assert KeptAt(code[n - 1], code'[n - 1], n - 1 in s, n in s);
      assert KeptAt(code[n - 2], code'[n - 2], n - 2 in s, n - 1 in s);
      if n >= 3 { assert KeptAt(code[n - 3], code'[n - 3], n - 3 in s, n - 2 in s); }
    }
  }

  lemma PatchExtends(g0: Gen, h: Gen, k: Gen, s: set<nat>)
    requires Ready(g0) && Ready(h) && Extends(g0, h) && Kept(h.code, k.code, s) && |k.code| == |h.code| && k.pend <= h.pend
    requires s <= h.pend && (g0.pend - Positions(g0.here)) !! s
    ensures Extends(g0, k)
  {
    forall i | 0 <= i < |g0.code|
      ensures KeptAt(g0.code[i], k.code[i], i in Positions(g0.here), i + 1 in Positions(g0.here))
    {
      assert KeptAt(g0.code[i], h.code[i], i in Positions(g0.here), i + 1 in Positions(g0.here));
      assert KeptAt(h.code[i], k.code[i], i in s, i + 1 in s);
      assert ClosedAt(g0.code, g0.pend, i);
    }
  }

  ghost predicate CanLand(h: Gen, s: seq<nat>, dt: int) {
    forall j :: j in s ==> j < |h.code| && j < TargetOf(h.code, j, |h.code|, dt) && Landing(h.code, TargetOf(h.code, j, |h.code|, dt))
  }

  /** A run that left by a jump of s arrives at the end once these jumps are patched. */
  ghost function Landed(h: Gen, s: seq<nat>, base: nat, dt: int, o: Outcome): Outcome
    requires CanLand(h, s, dt)
  {
    if o.Exit? && o.at in s
    then Here(Land(h.code, TargetOf(h.code, o.at, |h.code|, dt), Arrival(h.code, o.at, base, o.regs)))
    else o
  }

  lemma {:induction false} PatchSem(h: Gen, k: Gen, s: seq<nat>, base: nat, dt: int, w: Start)
    requires Ready(h) && Ready(k) && Distinct(s) && Positions(s) <= h.pend && Positions(s) !! Positions(h.here)
    requires CanLand(h, s, dt)
    requires k == h.(code := PatchAll(h.code, s, |h.code|, base, dt), pend := h.pend - Positions(s))
    ensures Sem(k, w) == Landed(h, s, base, dt, Sem(h, w))
  {
    assert forall x :: x in s ==> x in Positions(s);
    PatchAllRun(h.code, h.pend, s, |h.code|, base, dt, w.cmp, w.regs);
    assert forall x :: x in h.here ==> x in Positions(h.here);
  }

  lemma PatchMeaning(o0: Outcome, o1: Outcome, h: Gen, code': seq<Instruction>, e: Exp, e': Exp, tl: seq<nat>, fl: seq<nat>,
                     x: Goal, cmp: Comparisons, base: nat, plain: bool, pf: int, pt: int)
    requires Meaning(o0, o1, h.code, e, tl, fl, x, cmp, base)
    requires e.k.VNONRELOC? && e.info == base < NO_REG && e'.k == e.k && e'.info == e.info
    requires SameCarries(h.code, code', if plain then fl else tl)
    requires Distinct(tl + fl)
    requires var s, dt := if plain then tl else fl, if plain then pt else pf;
             && Exact(x, plain) && (o0.Exit? ==> o0.at !in s) && CanLand(h, s, dt)
             && forall j :: j in s ==>
               && j < |h.code|
               && (!ByTestSet(h.code, j) ==> dt < |h.code| && h.code[dt].LOADBOOL? && h.code[dt].a == base && h.code[dt].value == plain)
    ensures Meaning(o0, Landed(h, if plain then tl else fl, base, if plain then pt else pf, o1), code', e',
                    if plain then [] else tl, if plain then fl else [], x, cmp, base)
  {
    hide SameCarries, Result, Landing, Land, TargetOf, Arrival, Carries;
    var s, u := if plain then tl else fl, if plain then fl else tl;
    assert tl + fl + [] == tl + fl;
    DistinctParts(tl, fl, []);
    assert forall j :: j in tl ==> j in Positions(tl);
    assert forall j :: j in fl ==> j in Positions(fl);
    if o0.Here? && Result(x, cmp, o0.regs).Some? {
      var v, r := Result(x, cmp, o0.regs).value, o0.regs;
      if Leaves(o1, h.code, u, !plain, x, r, v, base) {
        LeavesKept(o1, h.code, code', u, !plain, x, r, v, base);
      } else if Leaves(o1, h.code, s, plain, x, r, v, base) {
        ArrivesWith(h.code, o1.at, base, if plain then pt else pf, plain, r, o1.regs, v);
      }
    }
  }

  /** A patched jump arrives with the value in the register. */
  lemma ArrivesWith(code: seq<Instruction>, j: nat, base: nat, dt: int, plain: bool, r0: Registers, r: Registers, v: Value)
    requires j < |code| && Landing(code, TargetOf(code, j, |code|, dt)) && base < NO_REG
    requires !ByTestSet(code, j) ==> dt < |code| && code[dt].LOADBOOL? && code[dt].a == base && code[dt].value == plain
    requires Carries(code, j, r, v, plain, true) && SameBelow(r0, r, base)
    ensures var r' := Land(code, TargetOf(code, j, |code|, dt), Arrival(code, j, base, r));
            Get(r', base) == v && SameBelow(r0, r', base)
  {
    hide ControlOf;
  }

  /** Both lists are patched; the value ends up in the register on every path. */
  lemma {:induction false} PatchBoth(g0: Gen, h: Gen, e: Exp, tl: seq<nat>, fl: seq<nat>, x: Goal, nactvar: nat, base: nat, pf: int, pt: int)
    requires Compiled(g0, h, e, tl, fl, x, nactvar, base) && e.k.VNONRELOC? && e.info == base && base < NO_REG
    requires x.tx && x.fx && Loads(h.code, base, fl, pf, pt) && Loads(h.code, base, tl, pf, pt)
    ensures var code1 := PatchAll(h.code, fl, |h.code|, base, pf);
            var code2 := PatchAll(code1, tl, |h.code|, base, pt);
            var k := Gen(code2, h.pend - Positions(fl) - Positions(tl), h.here);
            && Compiled(g0, k, Exp(VNONRELOC, base, NO_JUMP, NO_JUMP), [], [], x, nactvar, base)
            && Chain(code1, e.t, tl) && Loads(code1, base, tl, pf, pt)
  {
    hide Compiled, Loads, PatchAll;
    PatchOwn(g0, h, e, tl, fl, x, nactvar, base, false, pf, pt);
    var code1 := PatchAll(h.code, fl, |h.code|, base, pf);
    var k1 := h.(code := code1, pend := h.pend - Positions(fl));
    PatchOwn(g0, k1, e.(f := NO_JUMP), tl, [], x, nactvar, base, true, pf, pt);
    CompiledLists(g0, k1, e.(f := NO_JUMP), tl, [], x, nactvar, base);
  }

  lemma {:induction false} CompiledLists(g0: Gen, g: Gen, e: Exp, tl: seq<nat>, fl: seq<nat>, x: Goal, nactvar: nat, base: nat)
    requires Compiled(g0, g, e, tl, fl, x, nactvar, base)
    ensures Chain(g.code, e.t, tl) && Chain(g.code, e.f, fl) && Ready(g)
  {
  }

  /** No list, no test: the value is in the register already. */
  lemma NothingToPatch(g0: Gen, g: Gen, e: Exp, x: Goal, nactvar: nat, base: nat)
    requires Compiled(g0, g, e, [], [], x, nactvar, base) && e.k.VNONRELOC?
    ensures Compiled(g0, g, e.(t := NO_JUMP, f := NO_JUMP), [], [], x, nactvar, base)
  {
    hide Sem, Result, Closed, Extends;
    forall w
      ensures Meaning(Sem(g0, w), Sem(g, w), g.code, e.(t := NO_JUMP, f := NO_JUMP), [], [], x, w.cmp, base)
    {
      assert Meaning(Sem(g0, w), Sem(g, w), g.code, e, [], [], x, w.cmp, base);
    }
  }

  /** The state in which the two loads were added behind a jump over them that also takes the
      waiting jumps along. */
  ghost function JumpOverLoads(g: Gen, link: int, code': seq<Instruction>, fj: seq<nat>, base: nat): Gen {
    WithBools(WithJump(g, link).(code := code'), base).(here := fj)
  }

  lemma FirstDistinct(j: nat, s: seq<nat>)
    requires Distinct(s) && j !in s
    ensures Distinct([j] + s)
  {
  }

  lemma JumpOverSame(g: Gen, link: int, code': seq<Instruction>, fj: seq<nat>, base: nat)
    requires Ready(g) && fj == [|g.code|] + g.here
    requires Relinked(WithJump(g, link).code, code', Positions(fj))
    ensures Ready(JumpOverLoads(g, link, code', fj, base)) && Same(g, JumpOverLoads(g, link, code', fj, base))
    ensures Ready(WithJump(g, link)) && Ready(WithJump(g, link).(code := code'))
    ensures Distinct(fj) && |g.code| !in g.pend
    ensures EntryPoint(JumpOverLoads(g, link, code', fj, base).code, |code'|)
  {
    hide Sem, Closed, Relinked, Distinct, WithBools;
    AppendJump(g, link);
    var j := WithJump(g, link);
    ClosedMeans(g.code, g.pend);
    assert forall x :: x in g.here ==> x in Positions(g.here);
    assert Positions(fj) == {|g.code|} + Positions(g.here);
    RelinkedSame(j, code', Positions(fj));
    var r := j.(code := code');
    FirstDistinct(|g.code|, g.here);
    LoadsThenWait(r, fj, base);
    var h := JumpOverLoads(g, link, code', fj, base);
    forall w
      ensures Sem(h, w) == Sem(g, w)
    {
      PendingOnly(g, w);
    }
  }

  lemma LoadsThenWait(r: Gen, fj: seq<nat>, base: nat)
    requires Ready(r) && r.here == [] && Distinct(fj) && Positions(fj) <= r.pend
    ensures Ready(WithBools(r, base).(here := fj))
    ensures forall w :: Sem(WithBools(r, base).(here := fj), w)
                        == Settle(Then(Sem(r, w), LOADBOOL(base, false, false), w.cmp), fj)
    ensures EntryPoint(WithBools(r, base).code, |r.code|)
  {
    hide Sem, Closed, Distinct;
    AppendBools(r, base);
    assert [] + fj == fj;
    WaitHere(WithBools(r, base), fj);
  }

  /** `exp2reg` when some jump has no value to bring: the loads are appended and jumped over. */
  lemma AddLoadsBehindJump(g0: Gen, g: Gen, e: Exp, tl: seq<nat>, fl: seq<nat>, x: Goal, nactvar: nat, base: nat,
                           link: int, code': seq<Instruction>, fj: seq<nat>)
    requires Compiled(g0, g, e, tl, fl, x, nactvar, base) && e.k.VNONRELOC? && e.info == base
    requires fj == [|g.code|] + g.here && Relinked(WithJump(g, link).code, code', Positions(fj))
    ensures var h := JumpOverLoads(g, link, code', fj, base);
            && Compiled(g0, h, e, tl, fl, x, nactvar, base)
            && Loads(h.code, base, tl, |code'|, |code'| + 1) && Loads(h.code, base, fl, |code'|, |code'| + 1)
  {
    hide Sem, Closed, Relinked, Meaning, Chain, SameCarries, Extends, Distinct;
    JumpOverSame(g, link, code', fj, base);
    JumpOverParts(g, link, code', fj, base);
    var h := JumpOverLoads(g, link, code', fj, base);
    DistinctParts(tl, fl, g.here);
    ChainMembers(g.code, e.t, tl);
    ChainMembers(g.code, e.f, fl);
    ClosedMeans(g.code, g.pend);
    assert Positions(fj) == {|g.code|} + Positions(g.here);
    assert |g.code| !in Positions(tl) && |g.code| !in Positions(fl);
    DistinctWhole(tl, fl, fj);
    KeptLists(g.code, h.code, Positions(fj), e.t, tl);
    KeptLists(g.code, h.code, Positions(fj), e.f, fl);
    JumpOverExtends(g0, g, h, fj);
    ExtendsLength(g0, g);
    PendingOld(g0, g, |g.code|);
    forall w
      ensures Meaning(Sem(g0, w), Sem(h, w), h.code, e, tl, fl, x, w.cmp, base)
    {
      assert Meaning(Sem(g0, w), Sem(g, w), g.code, e, tl, fl, x, w.cmp, base);
      MeaningKept(Sem(g0, w), Sem(g, w), g.code, h.code, e, tl, fl, x, w.cmp, base);
    }
  }

  lemma JumpOverParts(g: Gen, link: int, code': seq<Instruction>, fj: seq<nat>, base: nat)
    requires fj == [|g.code|] + g.here && Relinked(WithJump(g, link).code, code', Positions(fj))
    ensures var h := JumpOverLoads(g, link, code', fj, base);
            && Kept(g.code, h.code, Positions(fj)) && |h.code| == |code'| + 2 == |g.code| + 3
            && h.code[|code'|] == LOADBOOL(base, false, true) && h.code[|code'| + 1] == LOADBOOL(base, true, false)
            && h.pend == g.pend + {|g.code|} && h.here == fj
  {
    var h, j := JumpOverLoads(g, link, code', fj, base), WithJump(g, link);
    forall i | 0 <= i < |g.code|
      ensures KeptAt(g.code[i], h.code[i], i in Positions(fj), i + 1 in Positions(fj))
    {
      assert RelinkedAt(j.code[i], code'[i], i in Positions(fj));
    }
  }

  lemma JumpOverExtends(g0: Gen, g: Gen, h: Gen, fj: seq<nat>)
    requires Ready(g0) && Ready(g) && Extends(g0, g) && fj == [|g.code|] + g.here && Kept(g.code, h.code, Positions(fj))
    requires h.pend == g.pend + {|g.code|} && (g0.pend - Positions(g0.here)) !! Positions(g.here)
    ensures Extends(g0, h)
  {
    assert forall x :: x in Positions(fj) <==> x == |g.code| || x in Positions(g.here);
    forall i | 0 <= i < |g0.code|
      ensures KeptAt(g0.code[i], h.code[i], i in Positions(g0.here), i + 1 in Positions(g0.here))
    {
      assert KeptAt(g0.code[i], g.code[i], i in Positions(g0.here), i + 1 in Positions(g0.here));
      assert KeptAt(g.code[i], h.code[i], i in Positions(fj), i + 1 in Positions(fj));
      assert ClosedAt(g0.code, g0.pend, i);
      assert ClosedAt(g.code, g.pend, i);
    }
  }

  /** `exp2reg` on a comparison: its jump joins the list of true exits, and the loads follow. */
  lemma {:induction false} AddLoadsAfterTest(g0: Gen, g: Gen, e: Exp, tl: seq<nat>, fl: seq<nat>, x: Goal, nactvar: nat, base: nat,
                          code': seq<Instruction>, head: int)
    requires Compiled(g0, g, e, tl, fl, x, nactvar, base) && e.k.VJMP?
    requires Relinked(g.code, code', Positions(tl)) && Chain(code', head, tl + [e.info])
    ensures Ready(g.(code := code'))
    ensures var h := WithBools(g.(code := code'), base);
            && Compiled(g0, h, Exp(VNONRELOC, base, head, e.f), tl + [e.info], fl, x, nactvar, base)
            && Loads(h.code, base, tl + [e.info], |code'|, |code'| + 1) && Loads(h.code, base, fl, |code'|, |code'| + 1)
  {
    hide Sem, Closed, Relinked, Meaning, Chain, SameCarries, Extends, Distinct, Carries, Result;
    RelinkedEnd(g, e, code', Positions(tl));
    var r := g.(code := code');
    AppendBools(r, base);
    var more := [LOADBOOL(base, false, true), LOADBOOL(base, true, false)];
    var h, tl' := WithBools(r, base), tl + [e.info];
    assert h.code == code' + more;
    DistinctParts(tl, fl, g.here);
    RelinkedExtends(g0, g, code', Positions(tl));
    ExtendsPlus(g0, r, h, more);
    assert Positions(tl') == Positions(tl) + {e.info};
    SingleDistinct(tl, e.info);
    DistinctWhole(tl', fl, []);
    RelinkedList(g.code, code', Positions(tl), e.f, fl);
    KeptPlus(code', more, {});
    KeptLists(code', h.code, {}, head, tl');
    KeptLists(code', h.code, {}, e.f, fl);
    ChainMembers(g.code, e.t, tl);
    ChainMembers(g.code, e.f, fl);
    RelinkedCarries(g.code, code', Positions(tl), tl);
    RelinkedCarries(g.code, code', Positions(tl), fl);
    forall w
      ensures Meaning(Sem(g0, w), Sem(h, w), h.code, Exp(VNONRELOC, base, head, e.f), tl', fl, x, w.cmp, base)
    {
      assert Meaning(Sem(g0, w), Sem(g, w), g.code, e, tl, fl, x, w.cmp, base);
      LoadMeaning(Sem(g0, w), Sem(g, w), g.code, code', h.code, e, head, tl, fl, x, w.cmp, base);
    }
  }

  lemma SingleDistinct(s: seq<nat>, j: nat)
    requires Distinct(s) && j !in s
    ensures Distinct(s + [j])
  {
  }

  lemma {:induction false} RelinkedList(code: seq<Instruction>, code': seq<Instruction>, s: set<nat>, head: int, l: seq<nat>)
    requires Chain(code, head, l) && Relinked(code, code', s) && Positions(l) !! s
    ensures Chain(code', head, l)
  {
    ChainMembers(code, head, l);
    forall j | j in l
      ensures code'[j] == code[j]
    {
      assert j in Positions(l);
      assert RelinkedAt(code[j], code'[j], j in s);
    }
    ChainFrame(code, code', head, l);
  }

  lemma LoadMeaning(o0: Outcome, o1: Outcome, code: seq<Instruction>, code': seq<Instruction>, code2: seq<Instruction>, e: Exp, head: int,
                    tl: seq<nat>, fl: seq<nat>, x: Goal, cmp: Comparisons, base: nat)
    requires Meaning(o0, o1, code, e, tl, fl, x, cmp, base) && e.k.VJMP?
    requires 1 <= e.info < |code'| && code'[e.info - 1].COMPARE?
    requires SameCarries(code, code', tl) && SameCarries(code, code', fl)
    requires SameCarries(code', code2, tl + [e.info]) && SameCarries(code', code2, fl)
    ensures Meaning(o0, Then(o1, LOADBOOL(base, false, false), cmp), code2, Exp(VNONRELOC, base, head, e.f), tl + [e.info], fl, x, cmp, base)
  {
    hide SameCarries, Result;
    if o0.Here? && x.ok && Result(x, cmp, o0.regs).Some? {
      var v, r := Result(x, cmp, o0.regs).value, o0.regs;
      var tl' := tl + [e.info];
      if Leaves(o1, code, tl, true, x, r, v, base) {
        LeavesKept(o1, code, code', tl, true, x, r, v, base);
        assert Leaves(o1, code', tl', true, x, r, v, base);
        LeavesKept(o1, code', code2, tl', true, x, r, v, base);
      } else if Leaves(o1, code, fl, false, x, r, v, base) {
        LeavesKept(o1, code, code', fl, false, x, r, v, base);
        LeavesKept(o1, code', code2, fl, false, x, r, v, base);
      } else if o1.Exit? {
        assert Leaves(o1, code', tl', true, x, r, v, base);
        LeavesKept(o1, code', code2, tl', true, x, r, v, base);
      }
    }
  }

  // -------------------------------------------------------------------------
  // Whole expressions
  // -------------------------------------------------------------------------

  lemma CompiledLocal(g: Gen, r: nat, nactvar: nat, base: nat)
    requires Ready(g) && r < nactvar <= base
    ensures Compiled(g, g, Exp(VLOCAL, r, NO_JUMP, NO_JUMP), [], [], Sure(Local(r)), nactvar, base)
  {
    hide Sem, Closed;
    assert [] + [] + g.here == g.here;
    KeptSelf(g.code, Positions(g.here));
    forall w
      ensures Meaning(Sem(g, w), Sem(g, w), g.code, Exp(VLOCAL, r, NO_JUMP, NO_JUMP), [], [], Sure(Local(r)), w.cmp, base)
    {
      PendingOnly(g, w);
    }
  }

  /** What kind of descriptor a literal begins with. */
  function LiteralKind(x: Expr): Kind
    requires x.Truth? || x.Numeral? || x.Literal?
  {
    match x
    case Truth(b) => if b then VTRUE else VFALSE
    case Numeral(n) => VKNUM(n)
    case Literal(s) => VK(Text(s))
  }

  lemma CompiledConstant(g: Gen, x: Expr, info: int, nactvar: nat, base: nat)
    requires Ready(g) && nactvar <= base && (x.Truth? || x.Numeral? || x.Literal?)
    ensures Compiled(g, g, Exp(LiteralKind(x), info, NO_JUMP, NO_JUMP), [], [], Sure(x), nactvar, base)
  {
    hide Sem, Closed;
    assert [] + [] + g.here == g.here;
    KeptSelf(g.code, Positions(g.here));
    forall w
      ensures Meaning(Sem(g, w), Sem(g, w), g.code, Exp(LiteralKind(x), info, NO_JUMP, NO_JUMP), [], [], Sure(x), w.cmp, base)
    {
      PendingOnly(g, w);
    }
  }

  /** A constant operand of a comparison goes into the instruction. */
  lemma CompiledOperand(g0: Gen, g: Gen, e: Exp, tl: seq<nat>, fl: seq<nat>, x: Goal, nactvar: nat, base: nat, place: int)
    requires Compiled(g0, g, e, tl, fl, x, nactvar, base) && IsConstant(e.k)
    ensures Compiled(g0, g, e.(k := VK(ConstantOf(e.k)), info := place), tl, fl, x, nactvar, base)
  {
    hide Sem, Closed, Result, Extends;
    forall w
      ensures Meaning(Sem(g0, w), Sem(g, w), g.code, e.(k := VK(ConstantOf(e.k)), info := place), tl, fl, x, w.cmp, base)
    {
      assert Meaning(Sem(g0, w), Sem(g, w), g.code, e, tl, fl, x, w.cmp, base);
    }
  }

  /** Less may be promised. */
  lemma PromiseLess(g0: Gen, g: Gen, e: Exp, tl: seq<nat>, fl: seq<nat>, x: Goal, x': Goal, nactvar: nat, base: nat)
    requires Compiled(g0, g, e, tl, fl, x, nactvar, base)
    requires x'.x == x.x && (x'.ok ==> x.ok && (x'.tx ==> x.tx) && (x'.fx ==> x.fx))
    ensures Compiled(g0, g, e, tl, fl, x', nactvar, base)
  {
    hide Sem, Closed, Extends, Chain, Distinct;
    forall w
      ensures Meaning(Sem(g0, w), Sem(Front(g, e), w), g.code, e, tl, fl, x', w.cmp, base)
    {
      assert Meaning(Sem(g0, w), Sem(Front(g, e), w), g.code, e, tl, fl, x, w.cmp, base);
    }
  }

  // -------------------------------------------------------------------------
  // Constants: nothing to emit, nothing to test
  // -------------------------------------------------------------------------

  /** `codenot` folds a constant. */
  function Folded(k: Kind): Kind
    requires IsConstant(k)
  {
    if k.VFALSE? then VTRUE else VFALSE
  }

  /** `codenot` on a constant: the lists change places and lose their values. */
  lemma NegateConstant(g0: Gen, g: Gen, e: Exp, tl: seq<nat>, fl: seq<nat>, x: Goal, nactvar: nat, base: nat,
                       code': seq<Instruction>)
    requires Compiled(g0, g, e, tl, fl, x, nactvar, base) && IsConstant(e.k) && (e.k.VK? ==> !IsFalse(e.k.k))
    requires Devalued(g.code, code', Positions(tl) + Positions(fl))
    requires NoValues(code', tl) && NoValues(code', fl)
    ensures Compiled(g0, g.(code := code'), Exp(Folded(e.k), e.info, e.f, e.t), fl, tl, Negated(x), nactvar, base)
  {
    hide Sem, Chain, Kept, Carries, Result, SameCarries, Meaning, Extends, Closed, Devalued, NoValues;
    var both := Positions(tl) + Positions(fl);
    var h, e' := g.(code := code'), Exp(Folded(e.k), e.info, e.f, e.t);
    DevaluedSame(g, code', both);
    DistinctParts(tl, fl, g.here);
    DistinctWhole(fl, tl, g.here);
    DevaluedExtends(g0, g, code', both);
    DevaluedList(g.code, code', both, e.t, tl);
    DevaluedList(g.code, code', both, e.f, fl);
    forall w
      ensures Meaning(Sem(g0, w), Sem(h, w), code', e', fl, tl, Negated(x), w.cmp, base)
    {
      assert Meaning(Sem(g0, w), Sem(g, w), g.code, e, tl, fl, x, w.cmp, base);
      FoldMeaning(Sem(g0, w), Sem(g, w), g.code, code', e, e', tl, fl, x, w.cmp, base);
    }
  }

  lemma FoldMeaning(o0: Outcome, o1: Outcome, code: seq<Instruction>, code': seq<Instruction>, e: Exp, e': Exp,
                    tl: seq<nat>, fl: seq<nat>, x: Goal, cmp: Comparisons, base: nat)
    requires Meaning(o0, o1, code, e, tl, fl, x, cmp, base)
    requires IsConstant(e.k) && (e.k.VK? ==> !IsFalse(e.k.k)) && e'.k == Folded(e.k)
    requires NoValues(code', tl) && NoValues(code', fl)
    ensures Meaning(o0, o1, code', e', fl, tl, Negated(x), cmp, base)
  {
    hide ByTestSet, ControlOf;
    if o0.Here? && x.ok && Result(x, cmp, o0.regs).Some? {
      var v := Result(x, cmp, o0.regs).value;
      assert Result(Negated(x), cmp, o0.regs) == Some(Negate(v));
      if Leaves(o1, code, tl, true, x, o0.regs, v, base) {
        assert Leaves(o1, code', tl, false, Negated(x), o0.regs, Negate(v), base);
      } else if Leaves(o1, code, fl, false, x, o0.regs, v, base) {
        assert Leaves(o1, code', fl, true, Negated(x), o0.regs, Negate(v), base);
      }
    }
  }

  /** Does any jump of the list bring a value? */
  ghost predicate HasValues(code: seq<Instruction>, s: seq<nat>) {
    exists j :: j in s && j < |code| && ByTestSet(code, j)
  }

  lemma NoJumpNoValue(code: seq<Instruction>)
    ensures !HasValues(code, [])
  {
  }

  /** Old jumps bring no values that they did not bring before. */
  ghost predicate NoNewValues(code: seq<Instruction>, code': seq<Instruction>) {
    |code| <= |code'| && forall j :: 0 <= j < |code| && ByTestSet(code', j) ==> ByTestSet(code, j)
  }

  lemma NoNewTrans(a: seq<Instruction>, b: seq<Instruction>, c: seq<Instruction>)
    requires NoNewValues(a, b) && NoNewValues(b, c)
    ensures NoNewValues(a, c)
  {
  }

  lemma StillNone(code: seq<Instruction>, code': seq<Instruction>, s: seq<nat>)
    requires NoNewValues(code, code') && forall j :: j in s ==> j < |code|
    ensures HasValues(code', s) ==> HasValues(code, s)
  {
  }

  lemma KeptNoNew(code: seq<Instruction>, code': seq<Instruction>, jumps: set<nat>)
    requires Kept(code, code', jumps)
    ensures NoNewValues(code, code')
  {
    forall j | 0 <= j < |code| && ByTestSet(code', j)
      ensures ByTestSet(code, j)
    {
      assert KeptAt(code[j], code'[j], j in jumps, j + 1 in jumps);
      if j > 0 { assert KeptAt(code[j - 1], code'[j - 1], j - 1 in jumps, j in jumps); }
    }
  }

  lemma RelinkedNoNew(code: seq<Instruction>, code': seq<Instruction>, s: set<nat>)
    requires Relinked(code, code', s)
    ensures NoNewValues(code, code')
  {
    forall j | 0 <= j < |code| && ByTestSet(code', j)
      ensures ByTestSet(code, j)
    {
      assert RelinkedAt(code[j], code'[j], j in s);
      if j > 0 { assert RelinkedAt(code[j - 1], code'[j - 1], j - 1 in s); }
    }
  }

  lemma DevaluedNoNew(code: seq<Instruction>, code': seq<Instruction>, s: set<nat>)
    requires Devalued(code, code', s)
    ensures NoNewValues(code, code')
  {
    forall j | 0 <= j < |code| && ByTestSet(code', j)
      ensures ByTestSet(code, j)
    {
      assert DevaluedAt(code[j], code'[j], j + 1 in s);
      if j > 0 { assert DevaluedAt(code[j - 1], code'[j - 1], j in s); }
    }
  }

  lemma MoreNoNew(code: seq<Instruction>, more: seq<Instruction>)
    ensures NoNewValues(code, code + more)
  {
  }

  /** Emitting instructions after the waiting jumps got their target. */
  lemma EmittedNoNew(g: Gen, more: seq<Instruction>)
    requires Ready(g)
    ensures NoNewValues(g.code, Discharged(g).code + more)
  {
    hide Discharged;
    DischargeSame(g);
    KeptNoNew(g.code, Discharged(g).code, Positions(g.here));
    MoreNoNew(Discharged(g).code, more);
    NoNewTrans(g.code, Discharged(g).code, Discharged(g).code + more);
  }

  /** The constant is c: the run goes on, with the jumps of the other list waiting here too. */
  lemma {:induction false} GoesOn(g0: Gen, g: Gen, c: bool, e: Exp, tl: seq<nat>, fl: seq<nat>, x: Goal, nactvar: nat, base: nat,
                                  code': seq<Instruction>, own: seq<nat>, other: seq<nat>)
    requires Compiled(g0, g, e, tl, fl, x, nactvar, base) && IsConstant(e.k) && IsFalse(ConstantOf(e.k)) == !c
    requires own == (if c then fl else tl) && other == (if c then tl else fl)
    requires Relinked(g.code, code', Positions(g.here)) && Distinct(g.here + other)
    ensures Chain(code', if c then e.f else e.t, own)
    ensures Tested(g0, g.(code := code', here := g.here + other), c, if c then e.f else e.t, own, x, base)
  {
    hide Sem, Chain, Kept, Carries, Result, SameCarries, Extends, Closed, Relinked, Branches, Meaning;
    var k := g.(code := code');
    var h := k.(here := g.here + other);
    DistinctParts(tl, fl, g.here);
    RelinkedSame(g, code', Positions(g.here));
    RelinkedExtends(g0, g, code', Positions(g.here));
    ExtendsHere(g0, k, h);
    WaitHere(k, other);
    RelinkedList(g.code, code', Positions(g.here), if c then e.f else e.t, own);
    assert Positions(g.here + other) == Positions(g.here) + Positions(other);
    DistinctWhole(own, g.here, other);
    assert own + g.here + other == own + (g.here + other);
    ChainMembers(g.code, e.t, tl);
    ChainMembers(g.code, e.f, fl);
    RelinkedCarries(g.code, code', Positions(g.here), own);
    forall w
      ensures Branches(Sem(g0, w), Sem(h, w), code', c, own, x, w.cmp, base)
    {
      assert Meaning(Sem(g0, w), Sem(g, w), g.code, e, tl, fl, x, w.cmp, base);
      OthersRemain(g0, other, w);
      GoesOnMeaning(Sem(g0, w), Sem(g, w), g.code, code', c, e, tl, fl, own, other, x, w.cmp, base);
    }
  }

  lemma GoesOnMeaning(o0: Outcome, o1: Outcome, code: seq<Instruction>, code': seq<Instruction>, c: bool, e: Exp,
                      tl: seq<nat>, fl: seq<nat>, own: seq<nat>, other: seq<nat>, x: Goal, cmp: Comparisons, base: nat)
    requires Meaning(o0, o1, code, e, tl, fl, x, cmp, base) && IsConstant(e.k) && IsFalse(ConstantOf(e.k)) == !c
    requires own == (if c then fl else tl) && other == (if c then tl else fl) && Positions(own) !! Positions(other)
    requires SameCarries(code, code', own)
    requires o0.Exit? ==> o0.at !in other
    ensures Branches(o0, Settle(o1, other), code', c, own, x, cmp, base)
  {
    hide SameCarries, Result, Carries;
    if o0.Here? && x.ok && Result(x, cmp, o0.regs).Some? {
      var v, r := Result(x, cmp, o0.regs).value, o0.regs;
      if Leaves(o1, code, own, !c, x, r, v, base) {
        LeavesKept(o1, code, code', own, !c, x, r, v, base);
        assert o1.at in Positions(own);
        assert o1.at !in Positions(other);
      }
    }
  }

  /** What can be promised when waiting jumps join the exits: their values are not the constant. */
  function Absorbed(x: Goal, c: bool, values: bool): Goal {
    if c then x.(fx := x.fx && !values) else x.(tx := x.tx && !values)
  }

  /** The constant is not c: the run leaves by a new jump, which takes the waiting jumps along. */
  lemma {:induction false} NeverGoesOn(g0: Gen, g: Gen, c: bool, e: Exp, tl: seq<nat>, fl: seq<nat>, x: Goal, nactvar: nat, base: nat,
                                       code': seq<Instruction>, head: int, own: seq<nat>, other: seq<nat>, values: bool)
    requires Compiled(g0, g, e, tl, fl, x, nactvar, base) && e.k == (if c then VFALSE else VTRUE)
    requires own == (if c then fl else tl) && other == (if c then tl else fl) && (HasValues(g.code, g.here) ==> values)
    requires var s := own + ([|g.code|] + g.here);
             Relinked(g.code + [JMP(NO_JUMP)], code', Positions(s)) && Chain(code', head, s)
    ensures Tested(g0, Gen(code', g.pend + {|g.code|}, other), c, head, own + ([|g.code|] + g.here), Absorbed(x, c, values), base)
  {
    hide Sem, Chain, Kept, Carries, Result, SameCarries, Extends, Closed, Relinked, Branches, Meaning, HasValues;
    var js, p := [|g.code|] + g.here, WithJump(g, NO_JUMP);
    var s, k, h := own + js, p.(code := code'), Gen(code', g.pend + {|g.code|}, other);
    var y := Absorbed(x, c, values);
    AppendJump(g, NO_JUMP);
    NewJumpParts(g0, g, e, tl, fl, own, other);
    DistinctParts(tl, fl, g.here);
    RelinkedSame(p, code', Positions(s));
    ExtendsPlus(g0, g, p, [JMP(NO_JUMP)]);
    RelinkedExtends(g0, p, code', Positions(s));
    ExtendsHere(g0, k, h);
    assert [] + other == other;
    WaitHere(k, other);
    KeptPlus(g.code, [JMP(NO_JUMP)], {});
    KeptLists(g.code, p.code, {}, e.t, tl);
    KeptLists(g.code, p.code, {}, e.f, fl);
    ChainMembers(p.code, e.t, tl);
    ChainMembers(p.code, e.f, fl);
    RelinkedCarries(p.code, code', Positions(s), own);
    NewJumpsCarry(g, code', s, values);
    forall w
      ensures Branches(Sem(g0, w), Sem(h, w), code', c, s, y, w.cmp, base)
    {
      assert Meaning(Sem(g0, w), Sem(g, w), g.code, e, tl, fl, x, w.cmp, base);
      OthersRemain(g0, other, w);
      NeverMeaning(Sem(g0, w), Sem(g, w), Sem(p, w), g.code, p.code, code', c, e, tl, fl, own, js, other, x, y, w.cmp, base);
    }
  }

  /** The new jump and the waiting ones are on no list yet. */
  lemma {:induction false} NewJumpParts(g0: Gen, g: Gen, e: Exp, tl: seq<nat>, fl: seq<nat>, own: seq<nat>, other: seq<nat>)
    requires Ready(g0) && Ready(g) && Extends(g0, g) && Distinct(tl + fl + g.here)
    requires Positions(tl) <= g.pend && Positions(fl) <= g.pend
    requires g.pend - Positions(g.here) - Positions(tl) - Positions(fl) == g0.pend - Positions(g0.here)
    requires (own == tl && other == fl) || (own == fl && other == tl)
    ensures var js := [|g.code|] + g.here;
            var s, pend := own + js, g.pend + {|g.code|};
            && Distinct(s) && Distinct(s + other) && Positions(s) <= pend && Positions(s) !! Positions(other)
            && Positions(other) <= pend && pend - Positions(other) - Positions(s) == g0.pend - Positions(g0.here)
            && (g0.pend - Positions(g0.here)) !! Positions(s) && (g0.pend - Positions(g0.here)) !! Positions(other)
            && Positions(own) !! Positions(js) && Positions(other) !! Positions(js)
  {
    var j := |g.code|;
    var js := [j] + g.here;
    DistinctParts(tl, fl, g.here);
    PendingOld(g0, g, j);
    assert forall x :: x in Positions(js) <==> x == j || x in Positions(g.here);
    assert j !in g.here by { assert forall x :: x in g.here ==> x in Positions(g.here); }
    FirstDistinct(j, g.here);
    DistinctWhole(own, js, other);
    DistinctParts(own, js, other);
    assert Positions(own + js) == Positions(own) + Positions(js);
  }

  /** If none of the waiting jumps brings a value, none of the new exits does. */
  lemma NewJumpsCarry(g: Gen, code': seq<Instruction>, s: seq<nat>, values: bool)
    requires Ready(g) && (HasValues(g.code, g.here) ==> values)
    requires Relinked(g.code + [JMP(NO_JUMP)], code', Positions(s))
    ensures forall j :: j in [|g.code|] + g.here ==> j < |code'| && (ByTestSet(code', j) ==> values)
  {
    var n, p := |g.code|, g.code + [JMP(NO_JUMP)];
    ClosedMeans(g.code, g.pend);
    forall j | j in [n] + g.here
      ensures j < |code'| && (ByTestSet(code', j) ==> values)
    {
      assert j == n || j in Positions(g.here);
      assert RelinkedAt(p[j], code'[j], j in Positions(s));
      if j > 0 {
        assert RelinkedAt(p[j - 1], code'[j - 1], j - 1 in Positions(s));
        assert ClosedAt(g.code, g.pend, j - 1);
      }
    }
  }

  lemma NeverMeaning(o0: Outcome, o1: Outcome, o2: Outcome, code: seq<Instruction>, code2: seq<Instruction>, code': seq<Instruction>,
                     c: bool, e: Exp, tl: seq<nat>, fl: seq<nat>, own: seq<nat>, js: seq<nat>, other: seq<nat>, x: Goal, y: Goal,
                     cmp: Comparisons, base: nat)
    requires Meaning(o0, o1, code, e, tl, fl, x, cmp, base) && e.k == (if c then VFALSE else VTRUE)
    requires match o1
             case Here(r) => exists j :: j in js && o2 == Exit(j, r)
             case o => o2 == o
    requires own == (if c then fl else tl) && other == (if c then tl else fl) && Positions(own + js) !! Positions(other)
    requires SameCarries(code, code2, own) && SameCarries(code2, code', own)
    requires y.x == x.x && y.ok == x.ok && (Exact(y, !c) ==> Exact(x, !c))
    requires forall j :: j in js ==> j < |code'| && (ByTestSet(code', j) ==> !Exact(y, !c))
    requires o0.Exit? ==> o0.at !in other
    ensures Branches(o0, Settle(o2, other), code', c, own + js, y, cmp, base)
  {
    hide SameCarries, Eval;
    assert forall j :: j in own + js ==> j in Positions(own + js);
    assert forall j :: j in other ==> j in Positions(other);
    if o0.Here? && x.ok && Result(x, cmp, o0.regs).Some? {
      var v, r := Result(x, cmp, o0.regs).value, o0.regs;
      if o1.Here? {
        assert Leaves(o2, code', own + js, !c, y, r, v, base);
      } else if Leaves(o1, code, own, !c, x, r, v, base) {
        LeavesKept(o1, code, code2, own, !c, x, r, v, base);
        LeavesKept(o1, code2, code', own, !c, x, r, v, base);
        LeavesWeaker(o1, code', own, own + js, !c, x, y, r, r, v, base);
      }
    }
  }

  lemma CompiledVariable(g0: Gen, g: Gen, e: Exp, tl: seq<nat>, fl: seq<nat>, x: Goal, nactvar: nat, base: nat)
    requires Compiled(g0, g, e, tl, fl, x, nactvar, base) && e.k.VLOCAL?
    ensures Compiled(g0, g, e.(k := VNONRELOC), tl, fl, x, nactvar, base)
  {
    hide Sem, Closed, Result, Extends;
    forall w
      ensures Meaning(Sem(g0, w), Sem(g, w), g.code, e.(k := VNONRELOC), tl, fl, x, w.cmp, base)
    {
      assert Meaning(Sem(g0, w), Sem(g, w), g.code, e, tl, fl, x, w.cmp, base);
    }
  }

  ghost predicate SecondDecides(op: BinOp, c: bool) {
    (op.And? && c) || (op.Or? && !c)
  }

  /** The descriptor of the whole expression, its lists, and the list of the second operand that
      the first operand's exits join. */
  ghost function JoinedExp(e: Exp, c: bool, joined: int): Exp {
    if c then e.(f := joined) else e.(t := joined)
  }

  ghost function JoinedTrue(c: bool, tl: seq<nat>, s: seq<nat>): seq<nat> {
    if c then tl else tl + s
  }

  ghost function JoinedFalse(c: bool, fl: seq<nat>, s: seq<nat>): seq<nat> {
    if c then fl + s else fl
  }

  lemma JoinedDistinct(c: bool, tl: seq<nat>, fl: seq<nat>, here: seq<nat>, s: seq<nat>)
    requires Distinct(tl + fl + here) && Distinct(s)
    requires Positions(s) !! Positions(tl) && Positions(s) !! Positions(fl) && Positions(s) !! Positions(here)
    ensures Distinct(JoinedTrue(c, tl, s) + JoinedFalse(c, fl, s) + here)
    ensures Positions(JoinedTrue(c, tl, s)) + Positions(JoinedFalse(c, fl, s)) == Positions(tl) + Positions(fl) + Positions(s)
  {
    DistinctParts(tl, fl, here);
    var own := if c then fl else tl;
    DistinctWhole(own, s, []);
    assert own + s + [] == own + s;
    assert Positions(own + s) == Positions(own) + Positions(s);
    DistinctWhole(JoinedTrue(c, tl, s), JoinedFalse(c, fl, s), here);
  }

  /** The exits of the first operand stay what they are while the second is compiled. */
  lemma {:induction false} FirstListKept(g0: Gen, g2: Gen, c: bool, head: int, s: seq<nat>, left: Goal,
                      g: Gen, e: Exp, tl: seq<nat>, fl: seq<nat>, right: Goal, nactvar: nat, base: nat)
    requires Tested(g0, g2, c, head, s, left, base)
    requires Compiled(g2, g, e, tl, fl, right, nactvar, base)
    ensures Chain(g.code, head, s) && SameCarries(g2.code, g.code, s)
    ensures Distinct(s) && Positions(s) <= g.pend
    ensures Positions(s) !! Positions(tl) && Positions(s) !! Positions(fl) && Positions(s) !! Positions(g.here)
    ensures e.k.VJMP? ==> e.info !in s
    ensures Extends(g0, g)
    ensures Others(g, e, tl, fl) - Positions(s) == g0.pend - Positions(g0.here)
  {
    hide Sem, Closed, Meaning, Chain, SameCarries, Branches, Kept;
    assert [] + s + g2.here == s + g2.here;
    DistinctParts([], s, g2.here);
    assert Extends(g2, g);
    KeptLists(g2.code, g.code, Positions(g2.here), head, s);
    ExtendsTrans(g0, g2, g);
    assert forall x :: x in s ==> x in Positions(s);
    assert Positions(s) <= Others(g, e, tl, fl);
  }

  /** `and` (c) and `or` (not c): the exits of the first operand join those of the second. */
  lemma {:induction false} ShortCircuit(g0: Gen, g2: Gen, g: Gen, op: BinOp, c: bool, head: int, s: seq<nat>, left: Goal,
                     e: Exp, tl: seq<nat>, fl: seq<nat>, right: Goal, nactvar: nat, base: nat,
                     code': seq<Instruction>, joined: int, own: seq<nat>)
    requires Tested(g0, g2, c, head, s, left, base) && SecondDecides(op, c)
    requires Compiled(g2, g, e, tl, fl, right, nactvar, base) && Scoped(right.x, base) && !e.k.VLOCAL?
    requires own == (if c then fl else tl)
    requires Relinked(g.code, code', Positions(own)) && Chain(code', joined, own + s)
    ensures Compiled(g0, g.(code := code'), JoinedExp(e, c, joined), JoinedTrue(c, tl, s), JoinedFalse(c, fl, s),
                     Joined(op, c, left, right), nactvar, base)
  {
    hide Sem, Closed, Relinked, Meaning, Chain, SameCarries, Extends, Distinct, Carries, Result, Branches, Kept;
    var e' := JoinedExp(e, c, joined);
    var tl', fl', h := JoinedTrue(c, tl, s), JoinedFalse(c, fl, s), g.(code := code');
    var other := if c then tl else fl;
    FirstListKept(g0, g2, c, head, s, left, g, e, tl, fl, right, nactvar, base);
    DistinctParts(tl, fl, g.here);
    JoinedDistinct(c, tl, fl, g.here, s);
    RelinkedExtends(g0, g, code', Positions(own));
    ExtendsLength(g0, g2);
    RelinkedSame(g, code', Positions(own));
    RelinkedList(g.code, code', Positions(own), if c then e.t else e.f, other);
    ChainMembers(g.code, e.t, tl);
    ChainMembers(g.code, e.f, fl);
    ChainMembers(g.code, head, s);
    RelinkedCarries(g.code, code', Positions(own), tl);
    RelinkedCarries(g.code, code', Positions(own), fl);
    RelinkedCarries(g.code, code', Positions(own), s);
    RelinkedEnd(g, e, code', Positions(own));
    forall w
      ensures Meaning(Sem(g0, w), Sem(Front(h, e'), w), code', e', tl', fl', Joined(op, c, left, right), w.cmp, base)
    {
      assert Branches(Sem(g0, w), Sem(g2, w), g2.code, c, s, left, w.cmp, base);
      assert Meaning(Sem(g2, w), Sem(Front(g, e), w), g.code, e, tl, fl, right, w.cmp, base);
      ShortCircuitMeaning(Sem(g0, w), Sem(g2, w), Sem(Front(g, e), w), g2.code, g.code, code', op, c, s, left,
                          e, e', tl, fl, right, w.cmp, base);
    }
  }

  /** Relinking does not touch the instructions that make up an open value. */
  lemma RelinkedEnd(g: Gen, e: Exp, code': seq<Instruction>, s: set<nat>)
    requires Ready(g) && Relinked(g.code, code', s) && s <= g.pend && Ready(Front(g, e))
    requires e.k.VRELOCABLE? ==> g.code != [] && g.code[|g.code| - 1].NOT? && g.here == []
    requires e.k.VJMP? ==>
      |g.code| >= 2 && g.code[|g.code| - 1] == JMP(NO_JUMP) && g.code[|g.code| - 2].COMPARE? && |g.code| - 1 !in s
      && Ready(BeforeTest(g, e))
    ensures var h := g.(code := code');
            && Ready(Front(h, e)) && Same(Front(g, e), Front(h, e)) && |code'| == |g.code|
            && (e.k.VRELOCABLE? ==> code'[|g.code| - 1] == g.code[|g.code| - 1])
            && (e.k.VJMP? ==> code'[|g.code| - 1] == JMP(NO_JUMP) && code'[|g.code| - 2] == g.code[|g.code| - 2]
                              && Ready(BeforeTest(h, e)))
  {
    hide Sem, Closed;
    var h, n := g.(code := code'), |g.code|;
    if e.k.VRELOCABLE? {
      assert RelinkedAt(g.code[n - 1], code'[n - 1], n - 1 in s);
      RelinkedPrefix(g.code, code', s, n - 1);
      RelinkedSame(Front(g, e), code'[..n - 1], s);
    } else {
      RelinkedSame(g, code', s);
      if e.k.VJMP? {
        assert RelinkedAt(g.code[n - 1], code'[n - 1], n - 1 in s);
        assert RelinkedAt(g.code[n - 2], code'[n - 2], n - 2 in s);
        RelinkedPrefix(g.code, code', s, n - 2);
        RelinkedSame(BeforeTest(g, e), code'[..n - 2], s);
      }
    }
  }

  lemma RelinkedPrefix(code: seq<Instruction>, code': seq<Instruction>, s: set<nat>, n: nat)
    requires Relinked(code, code', s) && n <= |code|
    ensures Relinked(code[..n], code'[..n], s)
  {
    forall i | 0 <= i < n
      ensures RelinkedAt(code[..n][i], code'[..n][i], i in s)
    {
      assert RelinkedAt(code[i], code'[i], i in s);
    }
  }

  lemma {:induction false} ShortCircuitMeaning(o0: Outcome, o2: Outcome, o3: Outcome, code2: seq<Instruction>, code: seq<Instruction>,
                            code': seq<Instruction>, op: BinOp, c: bool, s: seq<nat>, left: Goal,
                            e: Exp, e': Exp, tl: seq<nat>, fl: seq<nat>, right: Goal, cmp: Comparisons, base: nat)
    requires SecondDecides(op, c) && Scoped(right.x, base)
    requires Branches(o0, o2, code2, c, s, left, cmp, base)
    requires Meaning(o2, o3, code, e, tl, fl, right, cmp, base)
    requires e'.k == e.k && e'.info == e.info && |code'| == |code|
    requires e.k.VRELOCABLE? && code != [] ==> code'[|code| - 1] == code[|code| - 1]
    requires SameCarries(code2, code, s) && SameCarries(code, code', s)
    requires SameCarries(code, code', tl) && SameCarries(code, code', fl)
    ensures Meaning(o0, o3, code', e', JoinedTrue(c, tl, s), JoinedFalse(c, fl, s), Joined(op, c, left, right), cmp, base)
  {
    hide SameCarries, Carries;
    var tl', fl', x' := JoinedTrue(c, tl, s), JoinedFalse(c, fl, s), Joined(op, c, left, right);
    if o0.Here? && left.ok && right.ok && Result(left, cmp, o0.regs).Some? {
      var v, r := Result(left, cmp, o0.regs).value, o0.regs;
      if IsFalse(v) == !c {
        EvalFrame(right.x, cmp, r, o2.regs, base);
        assert Result(Joined(op, c, left, right), cmp, r) == Result(right, cmp, o2.regs);
        if Result(right, cmp, o2.regs).Some? {
          var u := Result(right, cmp, o2.regs).value;
          if Leaves(o3, code, tl, true, right, o2.regs, u, base) {
            LeavesKept(o3, code, code', tl, true, right, o2.regs, u, base);
            LeavesWeaker(o3, code', tl, tl', true, right, x', o2.regs, r, u, base);
          } else if Leaves(o3, code, fl, false, right, o2.regs, u, base) {
            LeavesKept(o3, code, code', fl, false, right, o2.regs, u, base);
            LeavesWeaker(o3, code', fl, fl', false, right, x', o2.regs, r, u, base);
          }
        }
      } else {
        LeavesKept(o2, code2, code, s, !c, left, r, v, base);
        LeavesKept(o2, code, code', s, !c, left, r, v, base);
        assert Result(Joined(op, c, left, right), cmp, r) == Some(v);
        LeavesWeaker(o3, code', s, if c then fl' else tl', !c, left, x', r, r, v, base);
      }
    }
  }

  ghost predicate InstructionFor(op: BinOp, i: Instruction, o1: RK, o2: RK) {
    match op
    case Eq => i == COMPARE(EQ, true, o1, o2)
    case Ne => i == COMPARE(EQ, false, o1, o2)
    case Lt => i == COMPARE(LT, true, o1, o2)
    case Le => i == COMPARE(LE, true, o1, o2)
    case Gt => i == COMPARE(LT, true, o2, o1)
    case Ge => i == COMPARE(LE, true, o2, o1)
    case _ => false
  }

  /** What `luaK_exp2RK` leaves of an operand: a register or a constant. */
  predicate IsOperand(e: Exp) {
    e.k.VNONRELOC? || e.k.VK?
  }

  function OperandOf(e: Exp): RK
    requires IsOperand(e)
  {
    if e.k.VK? then Constant(e.k.k) else Register(e.info)
  }

  /** A comparison of two operands becomes a test whose jump is its value. */
  lemma {:induction false} CompareRegisters(g0: Gen, g1: Gen, g: Gen, op: BinOp, e1: Exp, left: Goal, e2: Exp, right: Goal,
                         nactvar: nat, base: nat, base2: nat, i: Instruction)
    requires Compiled(g0, g1, e1, [], [], left, nactvar, base) && IsOperand(e1)
    requires Compiled(g1, g, e2, [], [], right, nactvar, base2) && IsOperand(e2)
    requires (e1.k.VNONRELOC? ==> 0 <= e1.info < base2) && base <= base2 && Scoped(right.x, nactvar)
    requires InstructionFor(op, i, OperandOf(e1), OperandOf(e2))
    ensures Compiled(g0, WithTest(Discharged(g), i), Exp(VJMP, |g.code| + 1, NO_JUMP, NO_JUMP), [], [],
                     Compared(op, left, right), nactvar, base)
  {
    hide Sem, Closed, Meaning, Chain, SameCarries, Extends, Distinct, Carries, Result, Kept, Discharged, WithTest, InstructionFor;
    DischargeCompiled(g1, g, e2, [], [], right, nactvar, base2);
    DischargeSame(g);
    TestInstruction(op, i, OperandOf(e1), OperandOf(e2));
    var d, e' := Discharged(g), Exp(VJMP, |g.code| + 1, NO_JUMP, NO_JUMP);
    var h, x := WithTest(d, i), Compared(op, left, right);
    ExtendsTrans(g0, g1, d);
    EmptyChain(d.code);
    assert [] + [] + d.here == [];
    SplitState(g0, d, Exp(VNONRELOC, 0, NO_JUMP, NO_JUMP), [], [], right, nactvar, base, i);
    ExtendsLength(g0, d);
    WithTestParts(d, i);
    PendingOld(g0, d, |d.code| + 1);
    BeforeWithTest(d, i, e');
    forall w
      ensures Meaning(Sem(g0, w), Sem(h, w), h.code, e', [], [], x, w.cmp, base)
    {
      assert Meaning(Sem(g0, w), Sem(g1, w), g1.code, e1, [], [], left, w.cmp, base);
      assert Meaning(Sem(g1, w), Sem(d, w), d.code, e2, [], [], right, w.cmp, base2);
      CompareMeaning(Sem(g0, w), Sem(g1, w), Sem(d, w), op, g1.code, d.code, h.code, e1, left, e2, right, e', w.cmp, nactvar, base, base2, i);
    }
  }

  lemma TestInstruction(op: BinOp, i: Instruction, o1: RK, o2: RK)
    requires InstructionFor(op, i, o1, o2)
    ensures i.COMPARE? && !op.And? && !op.Or?
  {
  }

  lemma BeforeWithTest(d: Gen, i: Instruction, e: Exp)
    requires Ready(d) && e.k.VJMP?
    ensures BeforeTest(WithTest(d, i), e) == d
  {
    ClosedMeans(d.code, d.pend);
    assert d.pend + {|d.code| + 1} - {|d.code| + 1} == d.pend;
  }

  lemma TestDecides(op: BinOp, i: Instruction, o1: RK, o2: RK, cmp: Comparisons, r: Registers)
    requires InstructionFor(op, i, o1, o2) && !op.And? && !op.Or?
    ensures var c := Compare(op, cmp, Operand(r, o1), Operand(r, o2));
            Effect(i, cmp, r) == if c.None? then None else Some((if c.value == Bool(true) then 1 else 2, r))
    ensures var c := Compare(op, cmp, Operand(r, o1), Operand(r, o2)); c.Some? ==> c.value.Bool?
  {
  }

  lemma {:induction false} CompareMeaning(o0: Outcome, o1: Outcome, o2: Outcome, op: BinOp, code1: seq<Instruction>, code2: seq<Instruction>, code: seq<Instruction>,
                       e1: Exp, left: Goal, e2: Exp, right: Goal, e': Exp, cmp: Comparisons, nactvar: nat, base: nat, base2: nat, i: Instruction)
    requires Meaning(o0, o1, code1, e1, [], [], left, cmp, base) && IsOperand(e1)
    requires Meaning(o1, o2, code2, e2, [], [], right, cmp, base2) && IsOperand(e2)
    requires (e1.k.VNONRELOC? ==> 0 <= e1.info < base2) && nactvar <= base <= base2 && Scoped(right.x, nactvar)
    requires InstructionFor(op, i, OperandOf(e1), OperandOf(e2)) && e'.k.VJMP? && e'.info >= 0
    ensures Meaning(o0, ThenTest(o2, i, cmp, e'.info), code, e', [], [], Compared(op, left, right), cmp, base)
  {
    hide Carries, Effect, Compare, LookUp, InstructionFor;
    TestInstruction(op, i, OperandOf(e1), OperandOf(e2));
    if o0.Here? && left.ok && right.ok && Result(left, cmp, o0.regs).Some? {
      EvalFrame(right.x, cmp, o0.regs, o1.regs, nactvar);
      if Result(right, cmp, o1.regs).Some? {
        assert Result(Compared(op, left, right), cmp, o0.regs)
            == Compare(op, cmp, Operand(o2.regs, OperandOf(e1)), Operand(o2.regs, OperandOf(e2)));
        TestDecides(op, i, OperandOf(e1), OperandOf(e2), cmp, o2.regs);
      }
    }
  }
}
