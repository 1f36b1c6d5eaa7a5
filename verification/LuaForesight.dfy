/** What can be known of the code of a condition from the condition alone: where its value will be,
    which of its jumps bring values, and whether these are the right ones. */
module LuaForesight {
  import opened LuaCode
  import opened LuaExpressions

  /** Where the value will be: a constant that is true, false or another one, a register, a NOT whose
      target is open, a comparison. */
  datatype Form = IsTrue | IsFalseItself | IsFixed | InSomePlace | IsNot | IsCompare

  /** The form, what can be promised, and whether the jumps of the true list, those of the false list
      and those waiting at the end may bring values. */
  datatype Foreseen = Foreseen(form: Form, goal: Goal, tv: bool, fv: bool, hv: bool)

  /** After the first operand of `and` or `or`: what can be promised, and whether its exits and the
      waiting jumps may bring values. */
  datatype Exits = Exits(goal: Goal, v: bool, hv: bool)

  predicate IsFolded(f: Form) {
    f.IsTrue? || f.IsFalseItself? || f.IsFixed?
  }

  function Denied(s: Foreseen): Foreseen {
    var form := if s.form.IsFalseItself? then IsTrue
                else if s.form.IsTrue? || s.form.IsFixed? then IsFalseItself
                else if s.form.IsCompare? then IsCompare
                else IsNot;
    Foreseen(form, Negated(s.goal), false, false, IsFolded(s.form) && s.hv)
  }

  /** Going on if the operand is c. A constant that forbids it takes the waiting jumps along, and if
      these bring values they are not the constant. */
  function Decided(s: Foreseen, c: bool): Exits {
    var own, other := if c then s.fv else s.tv, if c then s.tv else s.fv;
    if (c && (s.form.IsTrue? || s.form.IsFixed?)) || (!c && s.form.IsFalseItself?) then
      Exits(s.goal, own, s.hv || other)
    else if (c && s.form.IsFalseItself?) || (!c && s.form.IsTrue?) then
      Exits(Absorbed(s.goal, c, s.hv), own || s.hv, other)
    else
      Exits(s.goal, own || !(s.form.IsCompare? || s.form.IsNot?), other)
  }

  function Chained(op: BinOp, c: bool, l: Exits, r: Foreseen): Foreseen {
    Foreseen(r.form, Joined(op, c, l.goal, r.goal), r.tv || (!c && l.v), r.fv || (c && l.v), r.hv)
  }

  /** The second operand is compiled behind the first. */
  function Together(op: BinOp, a: Foreseen, b: Foreseen): Foreseen {
    if op.And? || op.Or? then Chained(op, op.And?, Decided(a, op.And?), b)
    else Foreseen(IsCompare, Compared(op, Materialized(a.goal), Materialized(b.goal)), false, false, false)
  }

  /** May jumps that wait before the second operand bring values? */
  function Between(op: BinOp, a: Foreseen): bool {
    if op.And? || op.Or? then Decided(a, op.And?).hv else a.hv
  }

  /** hv says whether jumps that wait at the beginning may bring values. */
  function Foresee(x: Expr, hv: bool): (s: Foreseen)
    ensures s.goal.x == x
  {
    match x
    case Truth(b) => Foreseen(if b then IsTrue else IsFalseItself, Sure(x), false, false, hv)
    case Numeral(_) => Foreseen(IsFixed, Sure(x), false, false, hv)
    case Literal(_) => Foreseen(IsFixed, Sure(x), false, false, hv)
    case Local(_) => Foreseen(InSomePlace, Sure(x), false, false, hv)
    case Not(e) => Denied(Foresee(e, hv))
    case Binary(op, l, r) =>
      var a := Foresee(l, hv);
      Together(op, a, Foresee(r, Between(op, a)))
  }

  /** The code of x leaves the right value behind: wherever a value is put into a register, none of the
      jumps that bring one was taken along by a constant. */
  predicate Trusted(x: Expr) {
    Materialized(Foresee(x, false).goal).ok
  }

  /** Somewhere in x the generator meets `false and` or `true or`, with a constant it knows, while a
      jump that brings a value may be waiting. */
  predicate Absorbs(x: Expr, hv: bool) {
    match x
    case Not(e) => Absorbs(e, hv)
    case Binary(op, l, r) =>
      var a := Foresee(l, hv);
      || Absorbs(l, hv) || Absorbs(r, Between(op, a))
      || (op.And? && a.form.IsFalseItself? && a.hv) || (op.Or? && a.form.IsTrue? && a.hv)
    case _ => false
  }

  /** Only a jump with a value that is taken along by a constant can do harm. */
  lemma {:induction false} NothingAbsorbed(x: Expr, hv: bool)
    requires !Absorbs(x, hv)
    ensures Foresee(x, hv).goal == Sure(x)
    ensures !hv ==> Trusted(x)
  {
    match x
    case Not(e) => NothingAbsorbed(e, hv);
    case Binary(op, l, r) =>
      NothingAbsorbed(l, hv);
      NothingAbsorbed(r, Between(op, Foresee(l, hv)));
    case _ =>
  }

  /** All operands of `and` and `or` in x, however deep, are booleans: true, false, comparisons and
      negations. */
  predicate Boolean(x: Expr) {
    match x
    case Truth(_) => true
    case Not(e) => Boolean(e) || (WithoutTruth(e) && !Fixed(e))
    case Binary(op, l, r) => (Boolean(l) && Boolean(r)) || (!op.And? && !op.Or? && WithoutTruth(l) && WithoutTruth(r))
    case _ => false
  }

  /** No jump of such a condition brings a value, so that it is compiled right, with constants
      wherever they may stand. */
  lemma {:induction false} BooleansAreTrusted(x: Expr)
    requires Boolean(x)
    ensures Trusted(x)
    ensures var s := Foresee(x, false); !s.tv && !s.fv && !s.hv && s.goal == Sure(x) && !s.form.IsFixed? && !s.form.InSomePlace?
  {
    match x
    case Truth(_) =>
    case Not(e) =>
      if Boolean(e) {
        BooleansAreTrusted(e);
      } else {
        FixedIsForeseen(e, false);
        WithoutTruthAbsorbsNothing(e, false);
        NothingAbsorbed(e, false);
      }
    case Binary(op, l, r) =>
      if Boolean(l) && Boolean(r) {
        BooleansAreTrusted(l);
        BooleansAreTrusted(r);
      } else {
        WithoutTruthAbsorbsNothing(l, false);
        NothingAbsorbed(l, false);
        WithoutTruthAbsorbsNothing(r, Foresee(l, false).hv);
        NothingAbsorbed(r, Foresee(l, false).hv);
      }
  }

  /** Is the value known to the generator? */
  predicate Fixed(x: Expr) {
    match x
    case Local(_) => false
    case Not(e) => Fixed(e)
    case Binary(op, _, r) => (op.And? || op.Or?) && Fixed(r)
    case _ => true
  }

  /** No true or false is written or folded. */
  predicate WithoutTruth(x: Expr) {
    match x
    case Truth(_) => false
    case Not(e) => WithoutTruth(e) && !Fixed(e)
    case Binary(_, l, r) => WithoutTruth(l) && WithoutTruth(r)
    case _ => true
  }

  lemma {:induction false} FixedIsForeseen(x: Expr, hv: bool)
    ensures IsFolded(Foresee(x, hv).form) <==> Fixed(x)
  {
    match x
    case Not(e) => FixedIsForeseen(e, hv);
    case Binary(op, l, r) =>
      if op.And? || op.Or? { FixedIsForeseen(r, Between(op, Foresee(l, hv))); }
    case _ =>
  }

  /** Every condition without true and false is compiled right. */
  lemma {:induction false} WithoutTruthIsTrusted(x: Expr)
    requires WithoutTruth(x)
    ensures Trusted(x)
  {
    WithoutTruthAbsorbsNothing(x, false);
    NothingAbsorbed(x, false);
  }

  lemma {:induction false} WithoutTruthAbsorbsNothing(x: Expr, hv: bool)
    requires WithoutTruth(x)
    ensures var s := Foresee(x, hv); !s.form.IsTrue? && !s.form.IsFalseItself?
    ensures !Absorbs(x, hv)
  {
    match x
    case Not(e) =>
      FixedIsForeseen(e, hv);
      WithoutTruthAbsorbsNothing(e, hv);
    case Binary(op, l, r) =>
      WithoutTruthAbsorbsNothing(l, hv);
      WithoutTruthAbsorbsNothing(r, Between(op, Foresee(l, hv)));
    case _ =>
  }
}
