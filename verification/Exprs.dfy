/** Symbolic expressions and their meaning. An expression denotes a natural
    number below two to its width under an assignment of bytes to arrays. */
module Exprs {
  import opened Bits

  /** A root array. `constants` is empty for a symbolic array and otherwise
      lists the initial contents. */
  datatype Array = Array(name: string, size: nat, domain: nat, range: nat, constants: seq<nat>) {
    predicate IsConstant() {
      constants != []
    }

    predicate Valid() {
      && domain > 0 && range > 0
      && (IsConstant() ==> |constants| == size)
      && forall i :: 0 <= i < |constants| ==> constants[i] < Pow2(range)
    }
  }

  /** A write log, most recent write first. */
  datatype Updates = Empty | Update(index: Expr, value: Expr, next: Updates)

  datatype BinaryOp =
    | Add | Sub | Mul | UDiv | SDiv | URem | SRem
    | And | Or | Xor | Shl | LShr | AShr

  datatype CompareOp = Eq | Ne | Ult | Ule | Ugt | Uge | Slt | Sle | Sgt | Sge

  datatype Expr =
    | Constant(value: nat, width: nat)
    | NotOptimized(src: Expr)
    | Read(root: Array, updates: Updates, index: Expr)
    | Select(cond: Expr, trueExpr: Expr, falseExpr: Expr)
    | Concat(high: Expr, low: Expr)
    | Extract(expr: Expr, offset: nat, bits: nat)
    | ZExt(narrow: Expr, bits: nat)
    | SExt(narrow: Expr, bits: nat)
    | Not(expr: Expr)
    | Binary(op: BinaryOp, left: Expr, right: Expr)
    | Compare(cmp: CompareOp, left: Expr, right: Expr)

  const Bool: nat := 1
  const Int8: nat := 8
  const Int32: nat := 32
  const True := Constant(1, 1)
  const False := Constant(0, 1)

  function Width(e: Expr): nat {
    match e
    case Constant(_, w) => w
    case NotOptimized(x) => Width(x)
    case Read(a, _, _) => a.range
    case Select(_, t, _) => Width(t)
    case Concat(l, r) => Width(l) + Width(r)
    case Extract(_, _, w) => w
    case ZExt(_, w) => w
    case SExt(_, w) => w
    case Not(x) => Width(x)
    case Binary(_, l, _) => Width(l)
    case Compare(_, _, _) => Bool
  }

  /** Division, remainder and arithmetic shift: the operations that never exist
      at width one, because their constructors replace them there. */
  predicate WideOnly(op: BinaryOp) {
    op.UDiv? || op.SDiv? || op.URem? || op.SRem? || op.AShr?
  }

  /** The expressions the constructors build from well-formed kids. */
  predicate WF(e: Expr) {
    match e
    case Constant(v, w) => w > 0 && v < Pow2(w)
    case NotOptimized(x) => WF(x)
    case Read(a, u, i) => a.Valid() && WFUpdates(u, a) && WF(i) && Width(i) == a.domain
    case Select(c, t, f) => WF(c) && WF(t) && WF(f) && Width(c) == Bool && Width(t) == Width(f)
    case Concat(l, r) => WF(l) && WF(r)
    case Extract(x, off, w) => WF(x) && w > 0 && off + w <= Width(x)
    case ZExt(x, w) => WF(x) && Width(x) <= w
    case SExt(x, w) => WF(x) && Width(x) <= w
    case Not(x) => WF(x)
    case Binary(op, l, r) =>
      WF(l) && WF(r) && Width(l) == Width(r) && (WideOnly(op) ==> Width(l) > Bool)
    case Compare(_, l, r) => WF(l) && WF(r) && Width(l) == Width(r)
  }

  predicate WFUpdates(u: Updates, a: Array) {
    match u
    case Empty => true
    case Update(i, v, next) =>
      WF(i) && WF(v) && Width(i) == a.domain && Width(v) == a.range && WFUpdates(next, a)
  }

  // ----------------------------------------------------------------- meaning

  /** What every array holds at every index, out-of-range ones included. */
  type Env = (Array, nat) -> nat

  /** The initial value of one array cell. */
  function Cell(a: Array, i: nat, env: Env): (v: nat)
    ensures v < Pow2(a.range)
  {
    if i < |a.constants| then Low(a.constants[i], a.range) else Low(env(a, i), a.range)
  }

  /** Undefined divisions take the SMT-LIB values; a shift by the width or more gives zero. */
  function EvalBinary(op: BinaryOp, a: nat, b: nat, w: nat): (v: nat)
    ensures v < Pow2(w)
  {
    match op
    case Add => Low(a + b, w)
    case Sub => Low(a - b, w)
    case Mul => Low(a * b, w)
    case UDiv => Low(if b == 0 then -1 else a / b, w)
    case SDiv => Low(if b == 0 then (if Signed(a, w) < 0 then 1 else -1) else SignedQuotient(a, b, w), w)
    case URem => Low(if b == 0 then a else a % b, w)
    case SRem => Low(if b == 0 then a else SignedRemainder(a, b, w), w)
    case And => Bitwise(AndGate, a, b, w)
    case Or => Bitwise(OrGate, a, b, w)
    case Xor => Bitwise(XorGate, a, b, w)
    case Shl => if b >= w then 0 else Low(a * Pow2(b), w)
    case LShr => if b >= w then 0 else Low(Shr(a, b), w)
    case AShr => if b >= w then 0 else Low(Signed(a, w) / Pow2(b), w)
  }

  function SignedQuotient(a: nat, b: nat, w: nat): int {
    if Signed(b, w) == 0 then 0 else TruncDiv(Signed(a, w), Signed(b, w))
  }

  function SignedRemainder(a: nat, b: nat, w: nat): int {
    if Signed(b, w) == 0 then 0 else TruncRem(Signed(a, w), Signed(b, w))
  }

  predicate Relates(cmp: CompareOp, a: nat, b: nat, w: nat) {
    match cmp
    case Eq => a == b
    case Ne => a != b
    case Ult => a < b
    case Ule => a <= b
    case Ugt => a > b
    case Uge => a >= b
    case Slt => Signed(a, w) < Signed(b, w)
    case Sle => Signed(a, w) <= Signed(b, w)
    case Sgt => Signed(a, w) > Signed(b, w)
    case Sge => Signed(a, w) >= Signed(b, w)
  }

  function BoolValue(b: bool): nat {
    if b then 1 else 0
  }

  function Eval(e: Expr, env: Env): nat
    decreases e
  {
    match e
    case Constant(v, _) => v
    case NotOptimized(x) => Eval(x, env)
    case Read(a, u, i) => EvalRead(a, u, Eval(i, env), env)
    case Select(c, t, f) => if Eval(c, env) == 1 then Eval(t, env) else Eval(f, env)
    case Concat(l, r) => Join(Eval(l, env), Eval(r, env), Width(r))
    case Extract(x, off, w) => Field(Eval(x, env), off, w)
    case ZExt(x, _) => Eval(x, env)
    case SExt(x, w) => SignExtend(Eval(x, env), Width(x), w)
    case Not(x) => Low(-1 - Eval(x, env), Width(x))
    case Binary(op, l, r) => EvalBinary(op, Eval(l, env), Eval(r, env), Width(l))
    case Compare(cmp, l, r) => BoolValue(Relates(cmp, Eval(l, env), Eval(r, env), Width(l)))
  }

  /** Reading index i of an array behind a write log. */
  function EvalRead(a: Array, u: Updates, i: nat, env: Env): nat
    decreases u
  {
    match u
    case Empty => Cell(a, i, env)
    case Update(index, value, next) =>
      if Eval(index, env) == i then Eval(value, env) else EvalRead(a, next, i, env)
  }

  lemma {:induction false} WidthPositive(e: Expr)
    requires WF(e)
    ensures Width(e) > 0
  {
    match e
    case NotOptimized(x) => WidthPositive(x);
    case Select(_, t, _) => WidthPositive(t);
    case Concat(l, _) => WidthPositive(l);
    case ZExt(x, _) => WidthPositive(x);
    case SExt(x, _) => WidthPositive(x);
    case Not(x) => WidthPositive(x);
    case Binary(_, l, _) => WidthPositive(l);
    case _ =>
  }

  /** A well-formed expression fits its width under every assignment. */
  lemma {:induction false} EvalBound(e: Expr, env: Env)
    requires WF(e)
    ensures Eval(e, env) < Pow2(Width(e))
    decreases e
  {
    match e
    case NotOptimized(x) => EvalBound(x, env);
    case Read(a, u, i) => EvalReadBound(a, u, Eval(i, env), env);
    case Select(_, t, f) =>
      EvalBound(t, env);
      EvalBound(f, env);
    case Concat(l, r) =>
      EvalBound(l, env);
      EvalBound(r, env);
      JoinBound(Eval(l, env), Eval(r, env), Width(l), Width(r));
    case ZExt(x, w) =>
      EvalBound(x, env);
      Pow2Mono(Width(x), w);
    case _ =>
  }

  lemma {:induction false} EvalReadBound(a: Array, u: Updates, i: nat, env: Env)
    requires a.Valid() && WFUpdates(u, a)
    ensures EvalRead(a, u, i, env) < Pow2(a.range)
    decreases u
  {
    match u
    case Empty =>
    case Update(_, value, next) =>
      EvalBound(value, env);
      EvalReadBound(a, next, i, env);
  }

  // ------------------------------------------------------------- constraints

  /** A condition is a well-formed expression of width one. */
  predicate IsCondition(e: Expr) {
    WF(e) && Width(e) == Bool
  }

  predicate Conditions(cs: seq<Expr>) {
    forall i :: 0 <= i < |cs| ==> IsCondition(cs[i])
  }

  predicate Holds(e: Expr, env: Env) {
    Eval(e, env) == 1
  }

  /** The assignment is a model of the constraint list. */
  ghost predicate Models(cs: seq<Expr>, env: Env) {
    forall i :: 0 <= i < |cs| ==> Holds(cs[i], env)
  }

  ghost predicate Satisfiable(cs: seq<Expr>) {
    exists env :: Models(cs, env)
  }

  lemma ConditionValue(e: Expr, env: Env)
    requires IsCondition(e)
    ensures Eval(e, env) == 0 || Eval(e, env) == 1
  {
    EvalBound(e, env);
    Pow2One();
  }
}
