/** The checker that Lua runs over precompiled code before it trusts it. */
module Bytecode {

  /** An instruction word, cut into its fields. A count word after SETLIST is cut up the same way,
      and may look like anything. */
  datatype Word = Word(op: nat, a: nat, b: nat, c: nat)

  const MAXSTACK := 250
  const MAXARG_SBX := 131071
  const NUM_OPCODES := 38
  const BITRK := 256

  const OP_MOVE := 0
  const OP_LOADK := 1
  const OP_LOADBOOL := 2
  const OP_LOADNIL := 3
  const OP_GETUPVAL := 4
  const OP_GETGLOBAL := 5
  const OP_GETTABLE := 6
  const OP_SETGLOBAL := 7
  const OP_SETUPVAL := 8
  const OP_SETTABLE := 9
  const OP_NEWTABLE := 10
  const OP_SELF := 11
  const OP_ADD := 12
  const OP_POW := 17
  const OP_UNM := 18
  const OP_LEN := 20
  const OP_CONCAT := 21
  const OP_JMP := 22
  const OP_EQ := 23
  const OP_LE := 25
  const OP_TEST := 26
  const OP_TESTSET := 27
  const OP_CALL := 28
  const OP_TAILCALL := 29
  const OP_RETURN := 30
  const OP_FORLOOP := 31
  const OP_FORPREP := 32
  const OP_TFORLOOP := 33
  const OP_SETLIST := 34
  const OP_CLOSE := 35
  const OP_CLOSURE := 36
  const OP_VARARG := 37

  predicate IsWord(w: Word) {
    w.op < 64 && w.a < 256 && w.b < 512 && w.c < 512
  }

  function Bx(w: Word): nat {
    512 * w.b + w.c
  }

  function SBx(w: Word): int {
    Bx(w) - MAXARG_SBX
  }

  /** B and C side by side are one field of 18 bits, for jumps with its middle for 0. */
  lemma LongField(w: Word)
    requires IsWord(w)
    ensures Bx(w) / 512 == w.b && Bx(w) % 512 == w.c && Bx(w) < 262144
    ensures -131071 <= SBx(w) <= 131072 && (SBx(w) == 0 <==> w.b == 255 && w.c == 511)
  {
  }

  datatype ArgMode = ArgN | ArgU | ArgR | ArgK

  datatype Layout = ABC | ABx | AsBx

  function LayoutOf(op: nat): Layout {
    if op == OP_LOADK || op == OP_GETGLOBAL || op == OP_SETGLOBAL || op == OP_CLOSURE then ABx
    else if op == OP_JMP || op == OP_FORLOOP || op == OP_FORPREP then AsBx
    else ABC
  }

  /** How the B field is used. */
  function BMode(op: nat): ArgMode {
    if op == OP_MOVE || op == OP_LOADNIL || op == OP_GETTABLE || op == OP_SELF || op == OP_CONCAT || op == OP_JMP
       || op == OP_TEST || op == OP_TESTSET || op == OP_FORLOOP || op == OP_FORPREP
       || OP_UNM <= op <= OP_LEN then ArgR
    else if op == OP_LOADK || op == OP_GETGLOBAL || op == OP_SETGLOBAL || op == OP_SETTABLE
            || OP_SELF < op < OP_UNM || OP_EQ <= op <= OP_LE then ArgK
    else if op == OP_TFORLOOP || op == OP_CLOSE then ArgN
    else ArgU
  }

  /** How the C field is used. */
  function CMode(op: nat): ArgMode {
    if op == OP_CONCAT then ArgR
    else if op == OP_GETTABLE || op == OP_SETTABLE || OP_SELF <= op < OP_UNM || OP_EQ <= op <= OP_LE then ArgK
    else if op == OP_LOADBOOL || op == OP_NEWTABLE || OP_TEST <= op <= OP_TAILCALL || op == OP_TFORLOOP || op == OP_SETLIST then ArgU
    else ArgN
  }

  predicate IsTest(op: nat) {
    OP_EQ <= op <= OP_TESTSET || op == OP_TFORLOOP
  }

  /** A function prototype, as far as the checker looks at it: which constants are strings and how
      many upvalues the inner functions have. */
  datatype Proto = Proto(
    code: seq<Word>, maxstacksize: nat, numparams: nat, hasArg: bool, isVararg: bool, needsArg: bool,
    sizeupvalues: nat, nups: nat, sizelineinfo: nat, strings: seq<bool>, inner: seq<nat>)

  predicate IsProto(pt: Proto) {
    forall i :: 0 <= i < |pt.code| ==> IsWord(pt.code[i])
  }

  predicate Precheck(pt: Proto) {
    && pt.maxstacksize <= MAXSTACK
    && pt.numparams + (if pt.hasArg then 1 else 0) <= pt.maxstacksize
    && (!pt.needsArg || pt.hasArg)
    && pt.sizeupvalues <= pt.nups
    && (pt.sizelineinfo == |pt.code| || pt.sizelineinfo == 0)
    && |pt.code| > 0 && pt.code[|pt.code| - 1].op == OP_RETURN
  }

  predicate CheckArgMode(pt: Proto, r: nat, mode: ArgMode) {
    match mode
    case ArgN => r == 0
    case ArgU => true
    case ArgR => r < pt.maxstacksize
    case ArgK => if r >= BITRK then r - BITRK < |pt.strings| else r < pt.maxstacksize
  }

  /** Does the word look like a SETLIST whose count is in the next word? */
  predicate LooksLong(w: Word) {
    w.op == OP_SETLIST && w.c == 0
  }

  // -------------------------------------------------------------------------
  // Which words are instructions
  // -------------------------------------------------------------------------

  /** A position holds an instruction unless it holds the count of the instruction before. */
  predicate Decoded(code: seq<Word>, q: nat)
    requires q <= |code|
  {
    q == 0 || !(Decoded(code, q - 1) && LooksLong(code[q - 1]))
  }

  /** How many words right before a position look like long SETLISTs. */
  function LongsBefore(code: seq<Word>, q: nat): (n: nat)
    requires q <= |code|
    ensures n <= q
  {
    if q == 0 || !LooksLong(code[q - 1]) then 0 else 1 + LongsBefore(code, q - 1)
  }

  /** The parity of that number tells instructions from counts. */
  lemma {:induction false} ParityIsExact(code: seq<Word>, q: nat)
    requires q <= |code|
    ensures Decoded(code, q) <==> LongsBefore(code, q) % 2 == 0
  {
    if q > 0 && LooksLong(code[q - 1]) { ParityIsExact(code, q - 1); }
  }

  /** The jump check: the loop counts the words that look like long SETLISTs. */
  method CheckJump(pt: Proto, dest: int) returns (ok: bool)
    ensures ok <==> 0 <= dest < |pt.code| && Decoded(pt.code, dest)
  {
    if !(0 <= dest < |pt.code|) {
      return false;
    }
    ParityIsExact(pt.code, dest);
    var j := 0;
    while j < dest
      invariant 0 <= j <= dest && LongsBefore(pt.code, dest) == j + LongsBefore(pt.code, dest - j)
      decreases dest - j
    {
      var d := pt.code[dest - 1 - j];
      if !LooksLong(d) {
        break;
      }
      j := j + 1;
    }
    ok := j % 2 == 0;
  }

  // -------------------------------------------------------------------------
  // What is checked of one instruction
  // -------------------------------------------------------------------------

  predicate CheckReg(pt: Proto, r: int) {
    r < pt.maxstacksize
  }

  /** `luaG_checkopenop`. */
  predicate CheckOpenOp(w: Word) {
    (w.op == OP_CALL || w.op == OP_TAILCALL || w.op == OP_RETURN || w.op == OP_SETLIST) && w.b == 0
  }

  predicate CheckArgs(pt: Proto, w: Word) {
    && w.op < NUM_OPCODES && CheckReg(pt, w.a)
    && match LayoutOf(w.op)
       case ABC => CheckArgMode(pt, w.b, BMode(w.op)) && CheckArgMode(pt, w.c, CMode(w.op))
       case ABx => BMode(w.op) == ArgK ==> Bx(w) < |pt.strings|
       case AsBx => true
  }

  function Dest(w: Word, pc: nat): int {
    pc + 1 + SBx(w)
  }

  predicate CheckTarget(pt: Proto, pc: nat)
    requires pc < |pt.code|
  {
    LayoutOf(pt.code[pc].op) == AsBx ==>
      0 <= Dest(pt.code[pc], pc) < |pt.code| && Decoded(pt.code, Dest(pt.code[pc], pc))
  }

  predicate CheckTest(pt: Proto, pc: nat)
    requires pc < |pt.code|
  {
    IsTest(pt.code[pc].op) ==> pc + 2 < |pt.code| && pt.code[pc + 1].op == OP_JMP
  }

  /** The pseudo-instructions after a CLOSURE. */
  predicate CheckCaptures(pt: Proto, pc: nat, n: nat) {
    forall q :: pc < q <= pc + n ==> q < |pt.code| && (pt.code[q].op == OP_GETUPVAL || pt.code[q].op == OP_MOVE)
  }

  predicate CheckOp(pt: Proto, pc: nat)
    requires Precheck(pt) && pc < |pt.code| && CheckArgs(pt, pt.code[pc])
  {
    var w := pt.code[pc];
    if w.op == OP_LOADBOOL then w.c == 1 ==> SkipIsSafe(pt, pc)
    else if w.op == OP_GETUPVAL || w.op == OP_SETUPVAL then w.b < pt.nups
    else if w.op == OP_GETGLOBAL || w.op == OP_SETGLOBAL then pt.strings[Bx(w)]
    else if w.op == OP_SELF then CheckReg(pt, w.a + 1)
    else if w.op == OP_CONCAT then w.b < w.c
    else if w.op == OP_TFORLOOP then w.c >= 1 && CheckReg(pt, w.a + 2 + w.c)
    else if w.op == OP_FORLOOP || w.op == OP_FORPREP then CheckReg(pt, w.a + 3)
    else if w.op == OP_CALL || w.op == OP_TAILCALL then
      && (w.b != 0 ==> CheckReg(pt, w.a + w.b - 1))
      && (if w.c == 0 then CheckOpenOp(pt.code[pc + 1]) else w.c != 1 ==> CheckReg(pt, w.a + w.c - 2))
    else if w.op == OP_RETURN then w.b > 1 ==> CheckReg(pt, w.a + w.b - 2)
    else if w.op == OP_SETLIST then (w.b > 0 ==> CheckReg(pt, w.a + w.b)) && (w.c == 0 ==> pc + 1 < |pt.code| - 1)
    else if w.op == OP_CLOSURE then
      Bx(w) < |pt.inner| && pc + pt.inner[Bx(w)] < |pt.code| && CheckCaptures(pt, pc, pt.inner[Bx(w)])
    else if w.op == OP_VARARG then
      && pt.isVararg && !pt.needsArg
      && (w.b == 0 ==> CheckOpenOp(pt.code[pc + 1]))
      && CheckReg(pt, w.a + w.b - 2)
    else true
  }

  /** The word after a LOADBOOL that jumps is a whole instruction, with another one after it. */
  predicate SkipIsSafe(pt: Proto, pc: nat) {
    pc + 2 < |pt.code| && !LooksLong(pt.code[pc + 1])
  }

  predicate CheckAt(pt: Proto, pc: nat)
    requires Precheck(pt) && pc < |pt.code|
  {
    CheckArgs(pt, pt.code[pc]) && CheckTarget(pt, pc) && CheckTest(pt, pc) && CheckOp(pt, pc)
  }

  /** What acceptance means: every instruction passes. */
  ghost predicate Accepted(pt: Proto) {
    Precheck(pt) && forall pc :: 0 <= pc < |pt.code| && Decoded(pt.code, pc) ==> CheckAt(pt, pc)
  }

  // -------------------------------------------------------------------------
  // What acceptance means for the machine
  // -------------------------------------------------------------------------

  /** An operand below BITRK is a register, any other a constant. */
  predicate IsRegister(x: nat, r: nat) {
    x < BITRK && r == x
  }

  predicate IsConstant(x: nat, k: nat) {
    x >= BITRK && k == x - BITRK
  }

  /** The instruction reads or writes register r, as the table of instructions says. What lies above
      the arguments of an open call is not counted. */
  predicate Uses(w: Word, r: nat) {
    if w.op == OP_JMP then false
    else if w.op == OP_MOVE || OP_UNM <= w.op <= OP_LEN || w.op == OP_TESTSET then r == w.a || r == w.b
    else if w.op == OP_LOADNIL then r == w.a || r == w.b || w.a <= r <= w.b
    else if w.op == OP_GETTABLE then r == w.a || r == w.b || IsRegister(w.c, r)
    else if w.op == OP_SETTABLE || OP_ADD <= w.op <= OP_POW then r == w.a || IsRegister(w.b, r) || IsRegister(w.c, r)
    else if OP_EQ <= w.op <= OP_LE then IsRegister(w.b, r) || IsRegister(w.c, r)
    else if w.op == OP_SELF then w.a <= r <= w.a + 1 || r == w.b || IsRegister(w.c, r)
    else if w.op == OP_CONCAT then r == w.a || w.b <= r <= w.c
    else if w.op == OP_CALL || w.op == OP_TAILCALL then r == w.a || w.a <= r < w.a + w.b || w.a <= r < w.a + w.c - 1
    else if w.op == OP_RETURN || w.op == OP_VARARG then w.a <= r < w.a + w.b - 1
    else if w.op == OP_FORLOOP || w.op == OP_FORPREP then w.a <= r <= w.a + 3
    else if w.op == OP_TFORLOOP then w.a <= r <= w.a + 2 + w.c
    else if w.op == OP_SETLIST then w.a <= r <= w.a + w.b
    else r == w.a
  }

  predicate UsesConstant(w: Word, k: nat) {
    if w.op == OP_LOADK || w.op == OP_GETGLOBAL || w.op == OP_SETGLOBAL then k == Bx(w)
    else if w.op == OP_GETTABLE || w.op == OP_SELF then IsConstant(w.c, k)
    else if w.op == OP_SETTABLE || OP_ADD <= w.op <= OP_POW || OP_EQ <= w.op <= OP_LE then IsConstant(w.b, k) || IsConstant(w.c, k)
    else false
  }

  /** The fields that the instruction has no use for. */
  predicate RestIsZero(w: Word) {
    && (w.op == OP_TFORLOOP || w.op == OP_CLOSE ==> w.b == 0)
    && (w.op in {OP_MOVE, OP_LOADNIL, OP_GETUPVAL, OP_SETUPVAL, OP_RETURN, OP_CLOSE, OP_VARARG} || OP_UNM <= w.op <= OP_LEN ==>
          w.c == 0)
  }

  /** The number of values the instruction leaves is not known before it is run. */
  predicate LeavesOpen(w: Word) {
    ((w.op == OP_CALL || w.op == OP_TAILCALL) && w.c == 0) || (w.op == OP_VARARG && w.b == 0)
  }

  /** The instruction takes whatever values were left. */
  predicate TakesOpen(w: Word) {
    w.b == 0 && (w.op == OP_CALL || w.op == OP_TAILCALL || w.op == OP_RETURN || w.op == OP_SETLIST)
  }

  /** The frame of the function holds its parameters, and the code ends. */
  ghost predicate FrameFits(pt: Proto) {
    && (forall i :: 0 <= i < pt.numparams ==> InFrame(pt, i)) && (pt.hasArg ==> InFrame(pt, pt.numparams))
    && pt.maxstacksize <= MAXSTACK && pt.sizeupvalues <= pt.nups && (pt.needsArg ==> pt.hasArg)
    && (pt.sizelineinfo != 0 ==> pt.sizelineinfo == |pt.code|)
    && pt.code != [] && pt.code[|pt.code| - 1].op == OP_RETURN
  }

  predicate InFrame(pt: Proto, r: nat) {
    r < pt.maxstacksize
  }

  /** The operands of the instruction are there: registers in the frame, constants, upvalues and inner
      functions in their tables. */
  ghost predicate OperandsFit(pt: Proto, w: Word) {
    && w.op < NUM_OPCODES && RestIsZero(w)
    && (forall r :: Uses(w, r) ==> InFrame(pt, r))
    && (forall k: nat :: UsesConstant(w, k) ==> k < |pt.strings|)
    && (w.op == OP_GETGLOBAL || w.op == OP_SETGLOBAL ==> Bx(w) < |pt.strings| && pt.strings[Bx(w)])
    && (w.op == OP_GETUPVAL || w.op == OP_SETUPVAL ==> w.b < pt.nups)
    && (w.op == OP_CLOSURE ==> Bx(w) < |pt.inner|)
    && (w.op == OP_VARARG ==> pt.isVararg && !pt.needsArg)
    && (w.op == OP_CONCAT ==> w.b < w.c) && (w.op == OP_TFORLOOP ==> w.c >= 1)
    // Also where A is a flag or not used, and B of TEST, which is not used.
    && InFrame(pt, w.a) && (w.op == OP_TEST ==> InFrame(pt, w.b))
  }

  /** What stands behind the instruction, and where it jumps, goes with it. */
  ghost predicate SurroundingsFit(pt: Proto, pc: nat)
    requires pc < |pt.code|
  {
    var w := pt.code[pc];
    && (w.op == OP_JMP || w.op == OP_FORLOOP || w.op == OP_FORPREP ==> Inside(pt, pc + 1 + SBx(w)))
    && (OP_EQ <= w.op <= OP_LE || w.op == OP_TEST || w.op == OP_TESTSET || w.op == OP_TFORLOOP ==>
          pc + 2 < |pt.code| && pt.code[pc + 1].op == OP_JMP)
    && (w.op == OP_LOADBOOL && w.c == 1 ==> pc + 2 < |pt.code| && !LooksLong(pt.code[pc + 1]))
    && (LeavesOpen(w) ==> pc + 1 < |pt.code| && TakesOpen(pt.code[pc + 1]))
    && (LooksLong(w) ==> pc + 2 < |pt.code|)
    && (w.op == OP_CLOSURE && Bx(w) < |pt.inner| ==>
          forall q :: pc < q <= pc + pt.inner[Bx(w)] ==> q < |pt.code| && Captures(pt.code[q]))
  }

  predicate Captures(w: Word) {
    w.op == OP_MOVE || w.op == OP_GETUPVAL
  }

  ghost predicate Fits(pt: Proto) {
    FrameFits(pt) && forall pc :: 0 <= pc < |pt.code| && Decoded(pt.code, pc) ==> OperandsFit(pt, pt.code[pc]) && SurroundingsFit(pt, pc)
  }

  lemma PrecheckIsFrame(pt: Proto)
    ensures Precheck(pt) <==> FrameFits(pt)
  {
    if FrameFits(pt) && pt.numparams > 0 { assert InFrame(pt, pt.numparams - 1); }
  }

  lemma OperandsAreChecked(pt: Proto, pc: nat)
    requires Precheck(pt) && pc < |pt.code| && IsWord(pt.code[pc]) && CheckAt(pt, pc)
    ensures OperandsFit(pt, pt.code[pc])
  {
    hide Decoded, CheckTarget, CheckTest, CheckCaptures, SkipIsSafe, CheckOpenOp;
    var w := pt.code[pc];
    forall r | Uses(w, r)
      ensures InFrame(pt, r)
    {
    }
    forall k: nat | UsesConstant(w, k)
      ensures k < |pt.strings|
    {
    }
  }

  lemma SurroundingsAreChecked(pt: Proto, pc: nat)
    requires Precheck(pt) && pc < |pt.code| && CheckAt(pt, pc)
    ensures SurroundingsFit(pt, pc)
  {
    hide Decoded, BMode, CMode;
  }

  lemma ArgumentsFit(pt: Proto, w: Word)
    requires OperandsFit(pt, w)
    ensures CheckArgs(pt, w)
  {
    var mode := BMode(w.op);
    if LayoutOf(w.op) == ABC {
      if mode == ArgK {
        assert if w.b >= BITRK then UsesConstant(w, w.b - BITRK) else Uses(w, w.b);
      } else if mode == ArgR && w.op != OP_TEST {
        assert Uses(w, w.b);
      }
      if CMode(w.op) == ArgK {
        assert if w.c >= BITRK then UsesConstant(w, w.c - BITRK) else Uses(w, w.c);
      } else if CMode(w.op) == ArgR {
        assert Uses(w, w.c);
      }
    } else if mode == ArgK {
      assert UsesConstant(w, Bx(w));
    }
  }

  /** The greatest registers used. */
  lemma LastUsed(pt: Proto, w: Word)
    requires OperandsFit(pt, w)
    ensures w.op == OP_SELF ==> InFrame(pt, w.a + 1)
    ensures w.op == OP_TFORLOOP ==> InFrame(pt, w.a + 2 + w.c)
    ensures w.op == OP_FORLOOP || w.op == OP_FORPREP ==> InFrame(pt, w.a + 3)
    ensures (w.op == OP_CALL || w.op == OP_TAILCALL) && w.b != 0 ==> InFrame(pt, w.a + w.b - 1)
    ensures (w.op == OP_CALL || w.op == OP_TAILCALL) && w.c > 1 ==> InFrame(pt, w.a + w.c - 2)
    ensures w.op == OP_RETURN || w.op == OP_VARARG ==> w.b > 1 ==> InFrame(pt, w.a + w.b - 2)
    ensures w.op == OP_SETLIST ==> InFrame(pt, w.a + w.b)
  {
    if w.op == OP_SELF {
      assert Uses(w, w.a + 1);
    } else if w.op == OP_TFORLOOP {
      assert Uses(w, w.a + 2 + w.c);
    } else if w.op == OP_FORLOOP || w.op == OP_FORPREP {
      assert Uses(w, w.a + 3);
    } else if w.op == OP_CALL || w.op == OP_TAILCALL {
      if w.b != 0 { assert Uses(w, w.a + w.b - 1); }
      if w.c > 1 { assert Uses(w, w.a + w.c - 2); }
    } else if w.op == OP_RETURN || w.op == OP_VARARG {
      if w.b > 1 { assert Uses(w, w.a + w.b - 2); }
    } else if w.op == OP_SETLIST {
      assert Uses(w, w.a + w.b);
    }
  }

  lemma FitIsAccepted(pt: Proto, pc: nat)
    requires Precheck(pt) && pc < |pt.code| && IsWord(pt.code[pc]) && OperandsFit(pt, pt.code[pc]) && SurroundingsFit(pt, pc)
    ensures CheckAt(pt, pc)
  {
    hide Decoded;
    var w := pt.code[pc];
    ArgumentsFit(pt, w);
    LastUsed(pt, w);
    if w.op == OP_CLOSURE {
      assert pt.inner[Bx(w)] > 0 ==> pc + pt.inner[Bx(w)] < |pt.code|;
    }
  }

  /** Code is accepted exactly when the machine finds everything in its place: all registers,
      constants, upvalues and inner functions that any instruction uses, every jump target, and
      behind every instruction what it needs there. */
  lemma AcceptedMeans(pt: Proto)
    requires IsProto(pt)
    ensures Accepted(pt) <==> Fits(pt)
  {
    hide Precheck, FrameFits, CheckAt, OperandsFit, SurroundingsFit, Decoded;
    PrecheckIsFrame(pt);
    if Precheck(pt) {
      forall pc | 0 <= pc < |pt.code|
        ensures CheckAt(pt, pc) <==> OperandsFit(pt, pt.code[pc]) && SurroundingsFit(pt, pc)
      {
        if CheckAt(pt, pc) {
          OperandsAreChecked(pt, pc);
          SurroundingsAreChecked(pt, pc);
        } else if OperandsFit(pt, pt.code[pc]) && SurroundingsFit(pt, pc) {
          FitIsAccepted(pt, pc);
        }
      }
    }
  }

  /** The registers and upvalues that a new closure captures are there too. */
  lemma {:induction false} CapturesFit(pt: Proto, pc: nat, j: nat)
    requires Fits(pt) && pc < |pt.code| && Decoded(pt.code, pc) && pt.code[pc].op == OP_CLOSURE
    requires Bx(pt.code[pc]) < |pt.inner| && 1 <= j <= pt.inner[Bx(pt.code[pc])]
    ensures pc + j < |pt.code| && Decoded(pt.code, pc + j)
    ensures var w := pt.code[pc + j]; if w.op == OP_MOVE then InFrame(pt, w.b) else w.op == OP_GETUPVAL && w.b < pt.nups
  {
    hide RestIsZero, UsesConstant;
    assert SurroundingsFit(pt, pc);
    if j > 1 { CapturesFit(pt, pc, j - 1); }
    var w := pt.code[pc + j];
    assert Captures(w) && Decoded(pt.code, pc + j);
    assert OperandsFit(pt, w);
    if w.op == OP_MOVE { assert Uses(w, w.b); }
  }

  /** `luaG_checkcode`: `symbexec` over the whole code without tracing a register. Its result, the
      last instruction that may have changed a register beyond all, is never the zero word. */
  method CheckCode(pt: Proto) returns (ok: bool)
    requires IsProto(pt)
    ensures ok <==> Accepted(pt)
    ensures ok <==> Fits(pt)
  {
    hide Fits;
    AcceptedMeans(pt);
    if !Precheck(pt) {
      return false;
    }
    var last := |pt.code| - 1;
    var pc := 0;
    while pc < |pt.code|
      invariant 0 <= pc <= |pt.code| && Decoded(pt.code, pc)
      invariant 0 <= last < |pt.code| && pt.code[last].op != OP_MOVE
      invariant forall q :: 0 <= q < pc && Decoded(pt.code, q) ==> CheckAt(pt, q)
      decreases |pt.code| - pc
    {
      var w := pt.code[pc];
      if !CheckArgs(pt, w) {
        return false;
      }
      if LayoutOf(w.op) == AsBx {
        var good := CheckJump(pt, Dest(w, pc));
        if !good {
          return false;
        }
      }
      if !CheckTest(pt, pc) || !CheckOp(pt, pc) {
        return false;
      }
      if w.op == OP_TFORLOOP || w.op == OP_CALL || w.op == OP_TAILCALL {
        last := pc;
      }
      assert CheckAt(pt, pc);
      if LooksLong(w) {
        pc := pc + 2;
      } else {
        pc := pc + 1;
      }
    }
    ok := pt.code[last] != Word(OP_MOVE, 0, 0, 0);
  }

  // -------------------------------------------------------------------------
  // Where control may go
  // -------------------------------------------------------------------------

  /** Can execution continue at q after the instruction at pc? The tests run the jump after them in
      the same step. */
  ghost predicate Successor(pt: Proto, pc: nat, q: int)
    requires pc < |pt.code|
  {
    var w := pt.code[pc];
    if w.op == OP_RETURN then false
    else if w.op == OP_JMP || w.op == OP_FORPREP then q == Dest(w, pc)
    else if w.op == OP_FORLOOP then q == Dest(w, pc) || q == pc + 1
    else if IsTest(w.op) then q == pc + 2 || (pc + 1 < |pt.code| && q == Dest(pt.code[pc + 1], pc + 1))
    else if w.op == OP_LOADBOOL then q == if w.c != 0 then pc + 2 else pc + 1
    else if w.op == OP_SETLIST then q == if w.c == 0 then pc + 2 else pc + 1
    else if w.op == OP_CLOSURE then Bx(w) < |pt.inner| && q == pc + 1 + pt.inner[Bx(w)]
    else q == pc + 1
  }

  ghost predicate Inside(pt: Proto, q: int) {
    0 <= q < |pt.code| && Decoded(pt.code, q)
  }

  /** The check for C == 1, for all values that jump. */
  ghost predicate AllSkipsAreSafe(pt: Proto) {
    forall pc :: 0 <= pc < |pt.code| && Decoded(pt.code, pc) && pt.code[pc].op == OP_LOADBOOL && pt.code[pc].c > 1 ==> SkipIsSafe(pt, pc)
  }

  lemma {:induction false} NextIsInside(pt: Proto, pc: nat)
    requires Precheck(pt) && pc < |pt.code| && Decoded(pt.code, pc) && pt.code[pc].op != OP_RETURN && !LooksLong(pt.code[pc])
    ensures Inside(pt, pc + 1)
  {
  }

  lemma {:induction false} CapturesInside(pt: Proto, pc: nat, n: nat)
    requires Accepted(pt) && pc + 1 < |pt.code| && Decoded(pt.code, pc + 1) && CheckCaptures(pt, pc, n)
    ensures Inside(pt, pc + 1 + n)
  {
    if n > 0 {
      CapturesInside(pt, pc, n - 1);
      NextIsInside(pt, pc + n);
    }
  }

  lemma {:induction false} StepsInside(pt: Proto, pc: nat, q: int)
    requires IsProto(pt) && Accepted(pt) && pc < |pt.code| && Decoded(pt.code, pc) && Successor(pt, pc, q)
    requires pt.code[pc].op == OP_LOADBOOL && pt.code[pc].c > 1 ==> SkipIsSafe(pt, pc)
    ensures Inside(pt, q)
  {
    hide Decoded, CheckArgs, CheckCaptures, IsProto, CheckArgMode, LayoutOf, Dest;
    var w := pt.code[pc];
    assert CheckAt(pt, pc);
    LayoutOfJumps(w);
    if !LooksLong(w) && w.op != OP_RETURN { NextIsInside(pt, pc); }
    if LooksLong(w) {
      TwoOn(pt.code, pc);
    } else if IsTest(w.op) {
      JumpInside(pt, pc + 1);
      TwoOn(pt.code, pc);
    } else if w.op == OP_LOADBOOL && w.c != 0 {
      TwoOn(pt.code, pc);
    } else if w.op == OP_CLOSURE {
      CapturesInside(pt, pc, pt.inner[Bx(w)]);
    }
  }

  lemma LayoutOfJumps(w: Word)
    ensures LayoutOf(w.op) == AsBx <==> w.op == OP_JMP || w.op == OP_FORLOOP || w.op == OP_FORPREP
  {
  }

  /** Two words on there is an instruction again if exactly one of the two before is long. */
  lemma TwoOn(code: seq<Word>, pc: nat)
    requires pc + 2 <= |code| && Decoded(code, pc)
    ensures LooksLong(code[pc]) || !LooksLong(code[pc + 1]) ==> Decoded(code, pc + 2)
    ensures Decoded(code, pc + 1) && LooksLong(code[pc + 1]) ==> !Decoded(code, pc + 2)
  {
  }

  lemma {:induction false} JumpInside(pt: Proto, pc: nat)
    requires Accepted(pt) && pc < |pt.code| && Decoded(pt.code, pc) && pt.code[pc].op == OP_JMP
    ensures Inside(pt, Dest(pt.code[pc], pc))
  {
    assert CheckAt(pt, pc);
  }

  /** In accepted code control stays at instructions inside the code exactly when the skips of
      LOADBOOLs whose C is neither 0 nor 1, which the checker does not look at, are safe as well. */
  lemma ControlStaysInside(pt: Proto)
    requires IsProto(pt) && Accepted(pt)
    ensures (forall pc, q :: 0 <= pc < |pt.code| && Decoded(pt.code, pc) && Successor(pt, pc, q) ==> Inside(pt, q))
            <==> AllSkipsAreSafe(pt)
  {
    if AllSkipsAreSafe(pt) {
      forall pc, q | 0 <= pc < |pt.code| && Decoded(pt.code, pc) && Successor(pt, pc, q)
        ensures Inside(pt, q)
      {
        StepsInside(pt, pc, q);
      }
    } else {
      var pc :| 0 <= pc < |pt.code| && Decoded(pt.code, pc) && pt.code[pc].op == OP_LOADBOOL && pt.code[pc].c > 1 && !SkipIsSafe(pt, pc);
      NextIsInside(pt, pc);
      if pc + 2 <= |pt.code| { TwoOn(pt.code, pc); }
      assert Successor(pt, pc, pc + 2) && !Inside(pt, pc + 2);
    }
  }

  /** It does happen: a LOADBOOL with C equal to 2 right before the final RETURN. */
  lemma UnsafeSkipHappens() returns (pt: Proto)
    ensures IsProto(pt) && Accepted(pt) && !AllSkipsAreSafe(pt)
  {
    pt := Proto([Word(OP_LOADBOOL, 0, 0, 2), Word(OP_RETURN, 0, 1, 0)], 2, 0, false, false, false, 0, 0, 0, [], []);
    assert Decoded(pt.code, 0);
    assert forall pc :: 0 <= pc < |pt.code| ==> CheckAt(pt, pc);
    assert !SkipIsSafe(pt, 0);
  }
}
