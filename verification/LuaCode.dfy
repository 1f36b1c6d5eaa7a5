/** Lua instructions as the code generator emits them for conditions, and what a piece of code
    does while some of its jumps are still on patch lists. */
module LuaCode {
  import opened Options

  const NO_JUMP: int := -1
  const NO_REG: int := 255
  const MAXSTACK: int := 250
  const MAXARG_SBX: int := 131071

  datatype Value = Nil | Bool(b: bool) | Number(n: int) | Text(s: string)

  datatype CompareOp = EQ | LT | LE

  /** An operand that is a register or a constant. */
  datatype RK = Register(r: int) | Constant(v: Value)

  /** The operands that are only ever 0 or 1 are booleans, and constants stand where the instructions
      have their places in the constant table. */
  datatype Instruction =
    | MOVE(a: int, b: int)
    | LOADK(a: int, k: Value)
    | LOADBOOL(a: int, value: bool, skip: bool)
    | NOT(a: int, b: int)
    | JMP(sbx: int)
    | COMPARE(op: CompareOp, cond: bool, p: RK, q: RK)
    | TEST(a: int, cond: bool)
    | TESTSET(a: int, b: int, cond: bool)

  /** `testTMode`: the next instruction must be a jump. */
  predicate IsTest(i: Instruction) {
    i.COMPARE? || i.TEST? || i.TESTSET?
  }

  type Registers = map<int, Value>

  function Get(regs: Registers, r: int): Value {
    if r in regs then regs[r] else Nil
  }

  function Operand(regs: Registers, o: RK): Value {
    match o
    case Register(r) => Get(regs, r)
    case Constant(v) => v
  }

  predicate IsFalse(v: Value) {
    v == Nil || v == Bool(false)
  }

  /** How values compare; a comparison that is not listed raises an error. */
  type Comparisons = imap<(CompareOp, Value, Value), bool>

  /** Where a run starts from: what comparisons mean and what the registers hold. */
  datatype Start = Start(cmp: Comparisons, regs: Registers)

  /** Control reaches the end of the code, leaves by the pending jump at a position, or an error is
      raised. */
  datatype Outcome = Here(regs: Registers) | Exit(at: nat, regs: Registers) | Raise

  /** Jumps that are not pending go forward, within the code, and never between a test and its
      jump; a pending TESTSET has no target register yet. */
  ghost predicate Closed(code: seq<Instruction>, pend: set<nat>) {
    && (forall j :: j in pend ==> j < |code| && code[j].JMP?)
    && forall i :: 0 <= i < |code| ==> ClosedAt(code, pend, i)
  }

  ghost predicate EntryPoint(code: seq<Instruction>, p: int) {
    0 <= p <= |code| && (p == 0 || !IsTest(code[p - 1]))
  }

  ghost predicate ClosedAt(code: seq<Instruction>, pend: set<nat>, i: nat)
    requires i < |code|
  {
    && (code[i].JMP? && i !in pend ==> code[i].sbx >= 0 && EntryPoint(code, i + 1 + code[i].sbx))
    && (code[i].LOADBOOL? && code[i].skip ==> EntryPoint(code, i + 2))
    && (IsTest(code[i]) ==> i + 2 <= |code| && code[i + 1].JMP?)
    && (code[i].TESTSET? && i + 1 in pend ==> code[i].a == NO_REG)
  }

  /** What an instruction other than a jump does: how far control advances, and the registers. A
      TESTSET without target register copies nothing; the copy is made once its jump has been given
      a target. */
  function Effect(i: Instruction, cmp: Comparisons, regs: Registers): (e: Option<(nat, Registers)>)
    ensures e.Some? ==> e.value.0 == 1 || (e.value.0 == 2 && (IsTest(i) || (i.LOADBOOL? && i.skip)))
  {
    match i
    case MOVE(a, b) => Some((1, regs[a := Get(regs, b)]))
    case LOADK(a, k) => Some((1, regs[a := k]))
    case LOADBOOL(a, v, skip) => Some((if skip then 2 else 1, regs[a := Bool(v)]))
    case NOT(a, b) => Some((1, regs[a := Bool(IsFalse(Get(regs, b)))]))
    case JMP(_) => Some((1, regs))
    case COMPARE(op, cond, p, q) =>
      var key := (op, Operand(regs, p), Operand(regs, q));
      if key !in cmp then None else Some((if cmp[key] == cond then 1 else 2, regs))
    case TEST(a, cond) => Some((if IsFalse(Get(regs, a)) != cond then 1 else 2, regs))
    case TESTSET(a, b, cond) =>
      if IsFalse(Get(regs, b)) != cond then Some((1, if a == NO_REG then regs else regs[a := Get(regs, b)]))
      else Some((2, regs))
  }

  /** Runs the code from pc on. */
  function Run(code: seq<Instruction>, pend: set<nat>, cmp: Comparisons, pc: nat, regs: Registers): Outcome
    requires Closed(code, pend) && pc <= |code|
    decreases |code| - pc
  {
    if pc == |code| then Here(regs)
    else
      assert ClosedAt(code, pend, pc);
      if code[pc].JMP? then
        if pc in pend then Exit(pc, regs) else Run(code, pend, cmp, pc + 1 + code[pc].sbx, regs)
      else
        var e := Effect(code[pc], cmp, regs);
        if e.None? then Raise else Run(code, pend, cmp, pc + e.value.0, e.value.1)
  }

  lemma ClosedMeans(code: seq<Instruction>, pend: set<nat>)
    requires Closed(code, pend)
    ensures forall j :: j in pend ==> j < |code| && code[j].JMP?
    ensures forall i :: 0 <= i < |code| ==> ClosedAt(code, pend, i)
  {
  }

  lemma RunStep(code: seq<Instruction>, pend: set<nat>, cmp: Comparisons, pc: nat, regs: Registers)
    requires Closed(code, pend) && pc <= |code|
    ensures pc == |code| ==> Run(code, pend, cmp, pc, regs) == Here(regs)
    ensures pc < |code| && code[pc].JMP? && pc in pend ==> Run(code, pend, cmp, pc, regs) == Exit(pc, regs)
    ensures pc < |code| && code[pc].JMP? && pc !in pend ==>
              && code[pc].sbx >= 0 && pc + 1 + code[pc].sbx <= |code|
              && Run(code, pend, cmp, pc, regs) == Run(code, pend, cmp, pc + 1 + code[pc].sbx, regs)
    ensures pc < |code| && !code[pc].JMP? ==>
              var e := Effect(code[pc], cmp, regs);
              if e.None? then Run(code, pend, cmp, pc, regs) == Raise
              else pc + e.value.0 <= |code| && Run(code, pend, cmp, pc, regs) == Run(code, pend, cmp, pc + e.value.0, e.value.1)
  {
    if pc < |code| {
      assert ClosedAt(code, pend, pc);
    }
  }

  // -------------------------------------------------------------------------
  // Longer code
  // -------------------------------------------------------------------------

  /** Code that is extended runs as before up to its old end, and continues from there. */
  lemma {:induction false} RunExtended(code: seq<Instruction>, pend: set<nat>, more: seq<Instruction>, pend': set<nat>,
                                       cmp: Comparisons, pc: nat, regs: Registers)
    requires Closed(code, pend) && Closed(code + more, pend') && pc <= |code|
    requires forall j :: j < |code| ==> (j in pend <==> j in pend')
    ensures Run(code + more, pend', cmp, pc, regs) ==
            match Run(code, pend, cmp, pc, regs)
               case Here(r) => Run(code + more, pend', cmp, |code|, r)
               case o => o
    decreases |code| - pc
  {
    if pc < |code| {
      assert (code + more)[pc] == code[pc];
      assert ClosedAt(code, pend, pc) && ClosedAt(code + more, pend', pc);
      if code[pc].JMP? {
        if pc !in pend { RunExtended(code, pend, more, pend', cmp, pc + 1 + code[pc].sbx, regs); }
      } else {
        var e := Effect(code[pc], cmp, regs);
        if e.Some? { RunExtended(code, pend, more, pend', cmp, pc + e.value.0, e.value.1); }
      }
    }
  }

  // -------------------------------------------------------------------------
  // Changes that do not matter: links of pending jumps, TEST for TESTSET
  // -------------------------------------------------------------------------

  /** The same instruction, up to the link kept in a pending jump and up to the form of a test whose
      jump is pending. */
  ghost predicate SameEffect(i: Instruction, i': Instruction, pending: bool) {
    || i == i'
    || (pending && i.JMP? && i'.JMP?)
    || (i.TESTSET? && i.a == NO_REG && i' == TEST(i.b, i.cond))
  }

  ghost predicate SameEffects(code: seq<Instruction>, code': seq<Instruction>, pend: set<nat>) {
    && |code| == |code'|
    && forall i :: 0 <= i < |code| ==> SameEffect(code[i], code'[i], i in pend)
  }

  lemma SameEffectsClosed(code: seq<Instruction>, code': seq<Instruction>, pend: set<nat>)
    requires Closed(code, pend) && SameEffects(code, code', pend)
    ensures Closed(code', pend)
  {
    forall i | 0 <= i < |code'|
      ensures ClosedAt(code', pend, i)
    {
      assert ClosedAt(code, pend, i) && SameEffect(code[i], code'[i], i in pend);
      if i + 1 < |code| { assert SameEffect(code[i + 1], code'[i + 1], i + 1 in pend); }
      if code[i].JMP? && i !in pend {
        var p := i + code[i].sbx;
        assert SameEffect(code[p], code'[p], p in pend);
      }
    }
  }

  lemma {:induction false} SameEffectsRun(code: seq<Instruction>, code': seq<Instruction>, pend: set<nat>,
                                          cmp: Comparisons, pc: nat, regs: Registers)
    requires Closed(code, pend) && Closed(code', pend) && SameEffects(code, code', pend) && pc <= |code|
    ensures Run(code', pend, cmp, pc, regs) == Run(code, pend, cmp, pc, regs)
    decreases |code| - pc
  {
    hide Run, Closed, Effect;
    ClosedMeans(code, pend);
    RunStep(code, pend, cmp, pc, regs);
    RunStep(code', pend, cmp, pc, regs);
    if pc < |code| {
      assert SameEffect(code[pc], code'[pc], pc in pend);
      SameEffectRuns(code[pc], code'[pc], pc in pend, cmp, regs);
      if code[pc].JMP? {
        if pc !in pend { SameEffectsRun(code, code', pend, cmp, pc + 1 + code[pc].sbx, regs); }
      } else {
        var e := Effect(code[pc], cmp, regs);
        if e.Some? { SameEffectsRun(code, code', pend, cmp, pc + e.value.0, e.value.1); }
      }
    }
  }

  lemma SameEffectRuns(i: Instruction, i': Instruction, pending: bool, cmp: Comparisons, regs: Registers)
    requires SameEffect(i, i', pending)
    ensures i.JMP? <==> i'.JMP?
    ensures !i.JMP? ==> Effect(i', cmp, regs) == Effect(i, cmp, regs)
    ensures i.JMP? && !pending ==> i' == i
  {
  }

  // -------------------------------------------------------------------------
  // Giving a pending jump its target
  // -------------------------------------------------------------------------

  /** The test that controls the jump at j, or the jump itself. */
  function ControlOf(code: seq<Instruction>, j: nat): (c: nat)
    requires j < |code|
    ensures c <= j && c < |code|
  {
    if j >= 1 && IsTest(code[j - 1]) then j - 1 else j
  }

  predicate ByTestSet(code: seq<Instruction>, j: nat)
    requires j < |code|
  {
    code[ControlOf(code, j)].TESTSET?
  }

  /** The code in which the jump at j goes to vtarget with its value in reg if it carries one, and
      to dtarget otherwise. */
  function Patch(code: seq<Instruction>, j: nat, vtarget: int, reg: int, dtarget: int): seq<Instruction>
    requires j < |code|
  {
    var c := ControlOf(code, j);
    if code[c].TESTSET? then
      var t := if reg != NO_REG && reg != code[c].b then TESTSET(reg, code[c].b, code[c].cond)
               else TEST(code[c].b, code[c].cond);
      code[c := t][j := JMP(vtarget - (j + 1))]
    else
      code[j := JMP(dtarget - (j + 1))]
  }

  function TargetOf(code: seq<Instruction>, j: nat, vtarget: int, dtarget: int): int
    requires j < |code|
  {
    if ByTestSet(code, j) then vtarget else dtarget
  }

  /** The registers with which a patched jump arrives. */
  function Arrival(code: seq<Instruction>, j: nat, reg: int, regs: Registers): Registers
    requires j < |code|
  {
    if ByTestSet(code, j) && reg != NO_REG && reg != code[ControlOf(code, j)].b
    then regs[reg := Get(regs, code[ControlOf(code, j)].b)]
    else regs
  }

  lemma PatchClosed(code: seq<Instruction>, pend: set<nat>, j: nat, vtarget: int, reg: int, dtarget: int)
    requires Closed(code, pend) && j in pend
    requires var t := TargetOf(code, j, vtarget, dtarget); j < t && EntryPoint(code, t)
    ensures Closed(Patch(code, j, vtarget, reg, dtarget), pend - {j})
  {
    var code' := Patch(code, j, vtarget, reg, dtarget);
    assert forall i :: 0 <= i < |code| ==> (IsTest(code'[i]) <==> IsTest(code[i])) && (code'[i].JMP? <==> code[i].JMP?);
    forall i | 0 <= i < |code'|
      ensures ClosedAt(code', pend - {j}, i)
    {
      assert ClosedAt(code, pend, i);
    }
  }

  lemma PatchShape(code: seq<Instruction>, j: nat, vtarget: int, reg: int, dtarget: int)
    requires j < |code| && code[j].JMP?
    ensures var code' := Patch(code, j, vtarget, reg, dtarget);
            && |code'| == |code|
            && (forall i :: 0 <= i < |code| ==> (code'[i].JMP? <==> code[i].JMP?) && (IsTest(code'[i]) <==> IsTest(code[i])))
            && (forall i :: 0 <= i < |code| && code[i].JMP? && i != j ==> code'[i] == code[i])
            && code'[j] == JMP(TargetOf(code, j, vtarget, dtarget) - (j + 1))
    ensures !IsTest(code[ControlOf(code, j)]) ==> forall regs :: Arrival(code, j, reg, regs) == regs
  {
  }

  /** Only the control of the patched jump behaves differently: it may now copy its value. */
  lemma PatchEffect(code: seq<Instruction>, j: nat, vtarget: int, reg: int, dtarget: int,
                    cmp: Comparisons, pc: nat, regs: Registers)
    requires j < |code| && pc < |code| && code[j].JMP? && !code[pc].JMP?
    requires code[pc].TESTSET? && pc + 1 == j ==> code[pc].a == NO_REG
    ensures var e, e' := Effect(code[pc], cmp, regs), Effect(Patch(code, j, vtarget, reg, dtarget)[pc], cmp, regs);
            if e.Some? && IsTest(code[pc]) && pc + 1 == j && e.value.0 == 1
            then e' == Some((1, Arrival(code, j, reg, e.value.1)))
            else e' == e
  {
  }

  /** A patched jump is taken where it was pending before; nothing else changes. */
  lemma {:induction false} PatchRun(code: seq<Instruction>, pend: set<nat>, j: nat, vtarget: int, reg: int, dtarget: int,
                                    cmp: Comparisons, pc: nat, regs: Registers)
    requires Closed(code, pend) && j in pend && Closed(Patch(code, j, vtarget, reg, dtarget), pend - {j})
    requires var t := TargetOf(code, j, vtarget, dtarget); j < t && EntryPoint(code, t)
    requires EntryPoint(code, pc)
    ensures Run(Patch(code, j, vtarget, reg, dtarget), pend - {j}, cmp, pc, regs)
            == match Run(code, pend, cmp, pc, regs)
               case Exit(i, r) =>
                 if i == j then Run(Patch(code, j, vtarget, reg, dtarget), pend - {j}, cmp,
                                    TargetOf(code, j, vtarget, dtarget), Arrival(code, j, reg, r))
                 else Exit(i, r)
               case o => o
    decreases |code| - pc
  {
    hide Effect, Patch, Arrival, TargetOf, Run, Closed;
    ClosedMeans(code, pend);
    PatchShape(code, j, vtarget, reg, dtarget);
    var code' := Patch(code, j, vtarget, reg, dtarget);
    ClosedMeans(code', pend - {j});
    RunStep(code, pend, cmp, pc, regs);
    RunStep(code', pend - {j}, cmp, pc, regs);
    if pc < |code| {
      assert ClosedAt(code, pend, pc) && ClosedAt(code', pend - {j}, pc);
      if code[pc].JMP? {
        if pc !in pend {
          PatchRun(code, pend, j, vtarget, reg, dtarget, cmp, pc + 1 + code[pc].sbx, regs);
        }
      } else {
        var e := Effect(code[pc], cmp, regs);
        PatchEffect(code, j, vtarget, reg, dtarget, cmp, pc, regs);
        if e.Some? {
          var q, regs' := pc + e.value.0, e.value.1;
          if IsTest(code[pc]) && e.value.0 == 1 {
            assert ClosedAt(code, pend, q) && ClosedAt(code', pend - {j}, q);
            RunStep(code, pend, cmp, q, regs');
            var e' := Effect(code'[pc], cmp, regs);
            RunStep(code', pend - {j}, cmp, q, e'.value.1);
            if q !in pend {
              PatchRun(code, pend, j, vtarget, reg, dtarget, cmp, q + 1 + code[q].sbx, regs');
            }
          } else {
            PatchRun(code, pend, j, vtarget, reg, dtarget, cmp, q, regs');
          }
        }
      }
    }
  }

  // -------------------------------------------------------------------------
  // Patch lists, threaded through the jumps themselves
  // -------------------------------------------------------------------------

  /** The next jump of the list: a jump to itself marks the end. */
  function GetJump(code: seq<Instruction>, pc: nat): int
    requires pc < |code| && code[pc].JMP?
  {
    if code[pc].sbx == NO_JUMP then NO_JUMP else pc + 1 + code[pc].sbx
  }

  ghost predicate Distinct(s: seq<nat>) {
    forall i, j :: 0 <= i < j < |s| ==> s[i] != s[j]
  }

  ghost function Positions(s: seq<nat>): set<nat> {
    set x | x in s
  }

  /** The list that starts at head has exactly the members s, in this order. */
  ghost predicate Chain(code: seq<Instruction>, head: int, s: seq<nat>)
    decreases |s|
  {
    if s == [] then head == NO_JUMP
    else
      && head == s[0] && s[0] < |code| && code[s[0]].JMP?
      && Chain(code, GetJump(code, s[0]), s[1..])
  }

  lemma {:induction false} ChainFrame(code: seq<Instruction>, code': seq<Instruction>, head: int, s: seq<nat>)
    requires Chain(code, head, s)
    requires forall x :: x in s ==> x < |code| && x < |code'| && code'[x] == code[x]
    ensures Chain(code', head, s)
    decreases |s|
  {
    if s != [] {
      assert s[0] in s && forall x :: x in s[1..] ==> x in s;
      ChainFrame(code, code', GetJump(code, s[0]), s[1..]);
    }
  }

  lemma {:induction false} ChainMembers(code: seq<Instruction>, head: int, s: seq<nat>)
    requires Chain(code, head, s)
    ensures forall x :: x in s ==> x < |code| && code[x].JMP?
    decreases |s|
  {
    if s != [] {
      ChainMembers(code, GetJump(code, s[0]), s[1..]);
      assert forall x :: x in s ==> x == s[0] || x in s[1..];
    }
  }

  /** A list has no two readings: it is finite and without cycles. */
  lemma {:induction false} ChainIsUnique(code: seq<Instruction>, head: int, s: seq<nat>, t: seq<nat>)
    requires Chain(code, head, s) && Chain(code, head, t)
    ensures s == t
    decreases |s|
  {
    if s != [] && t != [] {
      ChainIsUnique(code, GetJump(code, s[0]), s[1..], t[1..]);
    }
  }

  /** Linking the last member of one list to the head of another joins them. */
  lemma {:induction false} ChainJoin(code: seq<Instruction>, a: int, s: seq<nat>, b: int, t: seq<nat>)
    requires Chain(code, a, s) && Chain(code, b, t) && s != [] && t != [] && Distinct(s + t)
    ensures s[|s| - 1] < |code|
    ensures Chain(code[s[|s| - 1] := JMP(b - (s[|s| - 1] + 1))], a, s + t)
    decreases |s|
  {
    ChainMembers(code, a, s);
    var last := s[|s| - 1];
    assert last in s;
    var code' := code[last := JMP(b - (last + 1))];
    if |s| == 1 {
      assert (s + t)[1..] == t;
      assert forall i :: 0 <= i < |t| ==> (s + t)[i + 1] == t[i];
      ChainMembers(code, b, t);
      ChainFrame(code, code', b, t);
    } else {
      assert s[1..] + t == (s + t)[1..];
      ChainJoin(code, GetJump(code, s[0]), s[1..], b, t);
      assert (s + t)[0] != (s + t)[|s| - 1];
    }
  }

  ghost function PatchAll(code: seq<Instruction>, s: seq<nat>, vtarget: int, reg: int, dtarget: int): (r: seq<Instruction>)
    ensures |r| == |code|
    decreases |s|
  {
    if s == [] || s[0] >= |code| then code
    else PatchAll(Patch(code, s[0], vtarget, reg, dtarget), s[1..], vtarget, reg, dtarget)
  }

  /** Patching a list sends each member to its own target, once. */
  lemma {:induction false} PatchAllTarget(code: seq<Instruction>, s: seq<nat>, vtarget: int, reg: int, dtarget: int, j: nat)
    requires Distinct(s) && (forall x :: x in s ==> x < |code| && code[x].JMP?) && j in s
    ensures PatchAll(code, s, vtarget, reg, dtarget)[j] == JMP(TargetOf(code, j, vtarget, dtarget) - (j + 1))
    decreases |s|
  {
    hide Patch, TargetOf;
    assert s[0] in s;
    var code1, rest := Patch(code, s[0], vtarget, reg, dtarget), s[1..];
    PatchShape(code, s[0], vtarget, reg, dtarget);
    PatchKept(code, s[0], vtarget, reg, dtarget);
    assert forall x :: x in rest ==> x in s && x != s[0];
    if j == s[0] {
      PatchAllKept(code1, rest, vtarget, reg, dtarget);
      KeptControl(code1, PatchAll(code1, rest, vtarget, reg, dtarget), Positions(rest), j);
    } else {
      assert j in rest;
      KeptControl(code, code1, {s[0]}, j);
      PatchAllTarget(code1, rest, vtarget, reg, dtarget, j);
      SameTarget(code, code1, vtarget, dtarget, j);
    }
  }

  lemma SameTarget(code: seq<Instruction>, code': seq<Instruction>, vtarget: int, dtarget: int, j: nat)
    requires j < |code| && j < |code'| && ControlOf(code', j) == ControlOf(code, j)
    requires code'[ControlOf(code, j)] == code[ControlOf(code, j)]
    ensures TargetOf(code', j, vtarget, dtarget) == TargetOf(code, j, vtarget, dtarget)
  {
  }

  /** How an instruction may change when jumps are patched or relinked: jumps in the set get a new
      offset, the tests that control them a new form. */
  ghost predicate KeptAt(i: Instruction, i': Instruction, jumpChanges: bool, controlChanges: bool) {
    || i == i'
    || (i.JMP? && i'.JMP? && jumpChanges)
    || (i.TESTSET? && controlChanges
        && (i' == TEST(i.b, i.cond) || (i'.TESTSET? && i'.b == i.b && i'.cond == i.cond)))
  }

  /** code' is code with the given jumps patched or relinked and possibly more code behind. */
  ghost predicate Kept(code: seq<Instruction>, code': seq<Instruction>, jumps: set<nat>) {
    && |code| <= |code'|
    && forall i :: 0 <= i < |code| ==> KeptAt(code[i], code'[i], i in jumps, i + 1 in jumps)
  }

  lemma KeptTrans(a: seq<Instruction>, b: seq<Instruction>, c: seq<Instruction>, s: set<nat>, t: set<nat>)
    requires Kept(a, b, s) && Kept(b, c, t) && s <= t
    ensures Kept(a, c, t)
  {
    forall i | 0 <= i < |a|
      ensures KeptAt(a[i], c[i], i in t, i + 1 in t)
    {
      assert KeptAt(a[i], b[i], i in s, i + 1 in s) && KeptAt(b[i], c[i], i in t, i + 1 in t);
    }
  }

  lemma PatchKept(code: seq<Instruction>, j: nat, vtarget: int, reg: int, dtarget: int)
    requires j < |code| && code[j].JMP?
    ensures Kept(code, Patch(code, j, vtarget, reg, dtarget), {j})
  {
  }

  lemma {:induction false} PatchAllKept(code: seq<Instruction>, s: seq<nat>, vtarget: int, reg: int, dtarget: int)
    requires forall x :: x in s ==> x < |code| && code[x].JMP?
    ensures Kept(code, PatchAll(code, s, vtarget, reg, dtarget), Positions(s))
    decreases |s|
  {
    hide Patch, Kept;
    if s == [] {
      KeptSelf(code, Positions(s));
    } else {
      assert s[0] in s;
      var code1 := Patch(code, s[0], vtarget, reg, dtarget);
      PatchShape(code, s[0], vtarget, reg, dtarget);
      PatchKept(code, s[0], vtarget, reg, dtarget);
      KeptMore(code, code1, {s[0]}, Positions(s));
      assert forall x :: x in s[1..] ==> x in s;
      PatchAllKept(code1, s[1..], vtarget, reg, dtarget);
      KeptMore(code1, PatchAll(code1, s[1..], vtarget, reg, dtarget), Positions(s[1..]), Positions(s));
      KeptTrans(code, code1, PatchAll(code1, s[1..], vtarget, reg, dtarget), Positions(s), Positions(s));
    }
  }

  lemma KeptSelf(code: seq<Instruction>, s: set<nat>)
    ensures Kept(code, code, s)
  {
  }

  lemma KeptMore(code: seq<Instruction>, code': seq<Instruction>, s: set<nat>, t: set<nat>)
    requires Kept(code, code', s) && s <= t
    ensures Kept(code, code', t)
  {
    forall i | 0 <= i < |code|
      ensures KeptAt(code[i], code'[i], i in t, i + 1 in t)
    {
      assert KeptAt(code[i], code'[i], i in s, i + 1 in s);
    }
  }

  /** What Kept leaves alone: the other jumps, their controls and every list made of them. */
  lemma KeptControl(code: seq<Instruction>, code': seq<Instruction>, s: set<nat>, j: nat)
    requires Kept(code, code', s) && j < |code| && code[j].JMP? && j !in s
    ensures code'[j] == code[j] && ControlOf(code', j) == ControlOf(code, j)
    ensures code'[ControlOf(code, j)] == code[ControlOf(code, j)]
  {
    assert KeptAt(code[j], code'[j], j in s, j + 1 in s);
    if j > 0 {
      assert KeptAt(code[j - 1], code'[j - 1], j - 1 in s, j - 1 + 1 in s);
    }
  }

  /** Where a patched jump may land: at the end, or on a LOADBOOL from which control reaches it. */
  ghost predicate Landing(code: seq<Instruction>, t: int) {
    && EntryPoint(code, t)
    && (t == |code| || (code[t].LOADBOOL? && (if code[t].skip then t + 2 else t + 1) == |code|))
  }

  ghost function Land(code: seq<Instruction>, t: int, regs: Registers): Registers
    requires Landing(code, t)
  {
    if t == |code| then regs else regs[code[t].a := Bool(code[t].value)]
  }

  lemma {:induction false} LandingRun(code: seq<Instruction>, pend: set<nat>, cmp: Comparisons, t: nat, regs: Registers)
    requires Closed(code, pend) && Landing(code, t)
    ensures Run(code, pend, cmp, t, regs) == Here(Land(code, t, regs))
  {
    RunStep(code, pend, cmp, t, regs);
  }

  /** Every jump of a list is patched once: it arrives at its own target with its own value. */
  lemma {:induction false} PatchAllRun(code: seq<Instruction>, pend: set<nat>, s: seq<nat>,
                                       vtarget: int, reg: int, dtarget: int, cmp: Comparisons, regs: Registers)
    requires Closed(code, pend) && Distinct(s) && Positions(s) <= pend
    requires forall x :: x in s ==> x in pend && x < TargetOf(code, x, vtarget, dtarget) && Landing(code, TargetOf(code, x, vtarget, dtarget))
    ensures Closed(PatchAll(code, s, vtarget, reg, dtarget), pend - Positions(s))
    ensures Run(PatchAll(code, s, vtarget, reg, dtarget), pend - Positions(s), cmp, 0, regs)
            == match Run(code, pend, cmp, 0, regs)
               case Exit(i, r) =>
                 if i in s && i < |code|
                 then Here(Land(code, TargetOf(code, i, vtarget, dtarget), Arrival(code, i, reg, r)))
                 else Exit(i, r)
               case o => o
    decreases |s|
  {
    hide Run, Patch, Closed, Land, Landing, Arrival, TargetOf;
    if s == [] {
      assert pend - Positions(s) == pend;
    } else {
      var j, rest := s[0], s[1..];
      assert j in s;
      ClosedMeans(code, pend);
      var t := TargetOf(code, j, vtarget, dtarget);
      ClosedMeans(code, pend);
      LandingEntry(code, t);
      PatchShape(code, j, vtarget, reg, dtarget);
      PatchClosed(code, pend, j, vtarget, reg, dtarget);
      PatchRun(code, pend, j, vtarget, reg, dtarget, cmp, 0, regs);
      var code1 := Patch(code, j, vtarget, reg, dtarget);
      forall x | x in s
        ensures x != j ==> TargetOf(code1, x, vtarget, dtarget) == TargetOf(code, x, vtarget, dtarget)
        ensures Landing(code1, TargetOf(code, x, vtarget, dtarget))
        ensures forall r :: Land(code1, TargetOf(code, x, vtarget, dtarget), r) == Land(code, TargetOf(code, x, vtarget, dtarget), r)
        ensures x != j ==> forall r :: Arrival(code1, x, reg, r) == Arrival(code, x, reg, r)
      {
        PatchOther(code, j, vtarget, reg, dtarget, x);
      }
      match Run(code, pend, cmp, 0, regs) {
        case Exit(i, r) =>
          if i == j { LandingRun(code1, pend - {j}, cmp, t, Arrival(code, j, reg, r)); }
        case _ =>
      }
      PatchAllRun(code1, pend - {j}, rest, vtarget, reg, dtarget, cmp, regs);
      assert pend - {j} - Positions(rest) == pend - Positions(s);
    }
  }

  lemma LandingEntry(code: seq<Instruction>, t: int)
    requires Landing(code, t)
    ensures EntryPoint(code, t)
  {
  }

  /** Patching one jump leaves the others' controls and the landing places alone. */
  lemma PatchOther(code: seq<Instruction>, j: nat, vtarget: int, reg: int, dtarget: int, x: nat)
    requires j < |code| && code[j].JMP? && x < |code| && code[x].JMP?
    requires Landing(code, TargetOf(code, x, vtarget, dtarget))
    ensures var code1, t := Patch(code, j, vtarget, reg, dtarget), TargetOf(code, x, vtarget, dtarget);
            && Landing(code1, t) && (forall r :: Land(code1, t, r) == Land(code, t, r))
            && (x != j ==> TargetOf(code1, x, vtarget, dtarget) == t)
            && (x != j ==> forall r :: Arrival(code1, x, reg, r) == Arrival(code, x, reg, r))
  {
    PatchShape(code, j, vtarget, reg, dtarget);
  }
}
