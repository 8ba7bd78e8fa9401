/** The simplifying expression constructors. Each one takes well-formed kids
    of agreeing widths and returns a well-formed expression of the same width
    as the plain node, no heavier than that node in the sense of `Weight`.
    That the value is the same as well is proved in CreateMeaning. */
module Create {
  import opened Bits
  import opened Exprs

  // ------------------------------------------------------------------ weight

  function OpWeight(op: BinaryOp): nat {
    match op
    case Or => 3
    case Shl => 3
    case LShr => 3
    case _ => 1
  }

  function CmpWeight(cmp: CompareOp): nat {
    if cmp.Eq? then 1 else 5
  }

  /** A measure that every constructor rule keeps or lowers, chosen so that
      De Morgan, the Boolean encodings and extract-of-concat do not raise it. */
  function Weight(e: Expr): (w: nat)
    ensures w >= 1
    ensures !e.Constant? ==> w >= 2
  {
    match e
    case Constant(_, _) => 1
    case NotOptimized(x) => 1 + Weight(x)
    case Read(_, u, i) => 1 + UpdatesWeight(u) + Weight(i)
    case Select(c, t, f) => 6 + Weight(c) + Weight(t) + Weight(f)
    case Concat(l, r) => 1 + Weight(l) + Weight(r)
    case Extract(x, _, _) => 2 * Weight(x)
    case ZExt(x, _) => 1 + Weight(x)
    case SExt(x, _) => 1 + Weight(x)
    case Not(x) => 1 + Weight(x)
    case Binary(op, l, r) => OpWeight(op) + Weight(l) + Weight(r)
    case Compare(cmp, l, r) => CmpWeight(cmp) + Weight(l) + Weight(r)
  }

  function UpdatesWeight(u: Updates): nat {
    match u
    case Empty => 0
    case Update(i, v, next) => Weight(i) + Weight(v) + UpdatesWeight(next)
  }

  /** The contract every constructor meets: a well-formed result of the width
      of the plain node, no heavier than the plain node. */
  predicate Fits(e: Expr, width: nat, weight: nat) {
    WF(e) && Width(e) == width && Weight(e) <= weight
  }

  // --------------------------------------------------------- constant folding

  predicate SameWidth(l: Expr, r: Expr) {
    WF(l) && WF(r) && Width(l) == Width(r)
  }

  function FoldBinary(op: BinaryOp, l: Expr, r: Expr): (e: Expr)
    requires SameWidth(l, r) && l.Constant? && r.Constant?
    ensures e.Constant? && Fits(e, Width(l), 1)
  {
    Constant(EvalBinary(op, l.value, r.value, l.width), l.width)
  }

  function FoldCompare(cmp: CompareOp, l: Expr, r: Expr): (e: Expr)
    requires SameWidth(l, r) && l.Constant? && r.Constant?
    ensures e.Constant? && Fits(e, Bool, 1)
  {
    Pow2One();
    Constant(BoolValue(Relates(cmp, l.value, r.value, l.width)), Bool)
  }

  function Zero(w: nat): (e: Expr)
    requires w > 0
    ensures e.Constant? && Fits(e, w, 1)
  {
    Constant(0, w)
  }

  predicate IsZero(e: Expr) {
    e.Constant? && e.value == 0
  }

  predicate IsAllOnes(e: Expr) {
    e.Constant? && e.value == Pow2(e.width) - 1
  }

  predicate IsTrue(e: Expr) {
    e == True
  }

  // ------------------------------------------------------- bitwise and logic

  function AndPartial(l: Expr, cr: Expr): (e: Expr)
    requires SameWidth(l, cr) && cr.Constant?
    ensures Fits(e, Width(l), 1 + Weight(l) + 1)
  {
    if IsAllOnes(cr) then l
    else if IsZero(cr) then cr
    else Binary(And, l, cr)
  }

  function CreateAnd(l: Expr, r: Expr): (e: Expr)
    requires SameWidth(l, r)
    ensures Fits(e, Width(l), 1 + Weight(l) + Weight(r))
  {
    if l.Constant? && r.Constant? then FoldBinary(And, l, r)
    else if l.Constant? then AndPartial(r, l)
    else if r.Constant? then AndPartial(l, r)
    else Binary(And, l, r)
  }

  function OrPartial(l: Expr, cr: Expr): (e: Expr)
    requires SameWidth(l, cr) && cr.Constant?
    ensures Fits(e, Width(l), 3 + Weight(l) + 1)
  {
    if IsAllOnes(cr) then cr
    else if IsZero(cr) then l
    else Binary(Or, l, cr)
  }

  function CreateOr(l: Expr, r: Expr): (e: Expr)
    requires SameWidth(l, r)
    ensures Fits(e, Width(l), 3 + Weight(l) + Weight(r))
  {
    if l.Constant? && r.Constant? then FoldBinary(Or, l, r)
    else if l.Constant? then OrPartial(r, l)
    else if r.Constant? then OrPartial(l, r)
    else Binary(Or, l, r)
  }

  function CreateNot(x: Expr): (e: Expr)
    requires WF(x)
    ensures Fits(e, Width(x), 1 + Weight(x))
  {
    if x.Constant? then Constant(Low(-1 - x.value, x.width), x.width) else Not(x)
  }

  // ------------------------------------------------------------------ extract

  function CreateExtract(x: Expr, off: nat, w: nat): (e: Expr)
    requires WF(x) && w > 0 && off + w <= Width(x)
    ensures Fits(e, w, 2 * Weight(x))
    decreases 2 * Weight(x), 0
  {
    if w == Width(x) then x
    else if x.Constant? then Constant(Field(x.value, off, w), w)
    else if x.Concat? then
      var rw := Width(x.low);
      WidthPositive(x.low);
      if off >= rw then CreateExtract(x.high, off - rw, w)
      else if off + w <= rw then CreateExtract(x.low, off, w)
      else CreateConcat(CreateExtract(x.high, 0, w - rw + off), CreateExtract(x.low, off, rw - off))
    else Extract(x, off, w)
  }

  function CreateConcat(l: Expr, r: Expr): (e: Expr)
    requires WF(l) && WF(r)
    ensures Fits(e, Width(l) + Width(r), 1 + Weight(l) + Weight(r))
    decreases Weight(l) + Weight(r), 1
  {
    if l.Constant? && r.Constant? then
      JoinBound(l.value, r.value, l.width, r.width);
      Constant(Join(l.value, r.value, r.width), l.width + r.width)
    else if l.Extract? && r.Extract? && l.expr == r.expr && r.offset + r.bits == l.offset then
      CreateExtract(l.expr, r.offset, l.bits + r.bits)
    else Concat(l, r)
  }

  function CreateZExt(x: Expr, w: nat): (e: Expr)
    requires WF(x) && w > 0
    ensures WF(e) && Width(e) == w
    ensures Width(x) <= w ==> Weight(e) <= 1 + Weight(x)
  {
    if w == Width(x) then x
    else if w < Width(x) then CreateExtract(x, 0, w)
    else if x.Constant? then
      Pow2Mono(x.width, w);
      Constant(x.value, w)
    else ZExt(x, w)
  }

  function CreateSExt(x: Expr, w: nat): (e: Expr)
    requires WF(x) && w > 0
    ensures WF(e) && Width(e) == w
    ensures Width(x) <= w ==> Weight(e) <= 1 + Weight(x)
  {
    if w == Width(x) then x
    else if w < Width(x) then CreateExtract(x, 0, w)
    else if x.Constant? then Constant(SignExtend(x.value, x.width, w), w)
    else SExt(x, w)
  }

  // ----------------------------------------------------------------- equality

  function EqAlloc(l: Expr, r: Expr): (e: Expr)
    requires SameWidth(l, r)
    ensures Fits(e, Bool, 1 + Weight(l) + Weight(r))
  {
    Pow2One();
    if l == r then True else Compare(Eq, l, r)
  }

  /** Equality with a constant on the left; the constant-array option is off. */
  function EqPartialR(cl: Expr, r: Expr): (e: Expr)
    requires SameWidth(cl, r) && cl.Constant?
    ensures Fits(e, Bool, 1 + 1 + Weight(r))
    decreases 1 + Weight(r), 0
  {
    Pow2One();
    if cl.width == Bool then
      if IsTrue(cl) then r
      else if r.Compare? && r.cmp.Eq? && r.left == False then r.right
      else if r.Binary? && r.op.Or? then CreateAnd(CreateIsZero(r.left), CreateIsZero(r.right))
      else EqAlloc(cl, r)
    else if r.SExt? then
      WidthPositive(r.narrow);
      var trunc := CreateZExt(cl, Width(r.narrow));
      if cl == CreateSExt(trunc, cl.width) then CreateEq(r.narrow, trunc) else False
    else if r.ZExt? then
      WidthPositive(r.narrow);
      var trunc := CreateZExt(cl, Width(r.narrow));
      if cl == CreateZExt(trunc, cl.width) then CreateEq(r.narrow, trunc) else False
    else if r.Binary? && r.op.Add? && r.left.Constant? then
      EqPartialR(FoldBinary(Sub, cl, r.left), r.right)
    else if r.Binary? && r.op.Sub? && r.left.Constant? then
      EqPartialR(FoldBinary(Sub, r.left, cl), r.right)
    else EqAlloc(cl, r)
  }

  function CreateEq(l: Expr, r: Expr): (e: Expr)
    requires SameWidth(l, r)
    ensures Fits(e, Bool, 1 + Weight(l) + Weight(r))
    decreases Weight(l) + Weight(r), 1
  {
    if l.Constant? && r.Constant? then FoldCompare(Eq, l, r)
    else if l.Constant? then EqPartialR(l, r)
    else if r.Constant? then EqPartialR(r, l)
    else EqAlloc(l, r)
  }

  function CreateIsZero(x: Expr): (e: Expr)
    requires WF(x)
    ensures Fits(e, Bool, 2 + Weight(x))
    decreases Weight(x) + 1, 2
  {
    WidthPositive(x);
    CreateEq(x, Zero(Width(x)))
  }

  function CreateNe(l: Expr, r: Expr): (e: Expr)
    requires SameWidth(l, r)
    ensures Fits(e, Bool, 5 + Weight(l) + Weight(r))
  {
    CreateEq(Zero(Bool), CreateEq(l, r))
  }

  // ------------------------------------------------------------ add, sub, mul

  function XorPartialR(cl: Expr, r: Expr): (e: Expr)
    requires SameWidth(cl, r) && cl.Constant?
    ensures Fits(e, Width(r), 1 + 1 + Weight(r))
  {
    if IsZero(cl) then r
    else if cl.width == Bool then EqPartialR(Zero(Bool), r)
    else Binary(Xor, cl, r)
  }

  function CreateXor(l: Expr, r: Expr): (e: Expr)
    requires SameWidth(l, r)
    ensures Fits(e, Width(l), 1 + Weight(l) + Weight(r))
  {
    if l.Constant? && r.Constant? then FoldBinary(Xor, l, r)
    else if l.Constant? then XorPartialR(l, r)
    else if r.Constant? then XorPartialR(r, l)
    else Binary(Xor, l, r)
  }

  /** A sum or difference whose left operand is a constant. */
  predicate Headed(e: Expr, op: BinaryOp) {
    e.Binary? && e.op == op && e.left.Constant?
  }

  /** Termination rank at equal total weight: constant left, constant right, neither. */
  function Rank(l: Expr, r: Expr): nat {
    if l.Constant? then 0 else if r.Constant? then 1 else 2
  }

  function CreateAdd(l: Expr, r: Expr): (e: Expr)
    requires SameWidth(l, r)
    ensures Fits(e, Width(l), 1 + Weight(l) + Weight(r))
    decreases Weight(l) + Weight(r), Rank(l, r), 1
  {
    if l.Constant? && r.Constant? then FoldBinary(Add, l, r)
    else if l.Constant? then AddPartialR(l, r)
    else if r.Constant? then AddPartialR(r, l)
    else AddGeneral(l, r)
  }

  function AddPartialR(cl: Expr, r: Expr): (e: Expr)
    requires SameWidth(cl, r) && cl.Constant?
    ensures Fits(e, Width(r), 1 + 1 + Weight(r))
    decreases 1 + Weight(r), 0, 0
  {
    if cl.width == Bool then XorPartialR(cl, r)
    else if IsZero(cl) then r
    else if Headed(r, Add) then CreateAdd(CreateAdd(cl, r.left), r.right)
    else if Headed(r, Sub) then CreateSub(CreateAdd(cl, r.left), r.right)
    else Binary(Add, cl, r)
  }

  function AddGeneral(l: Expr, r: Expr): (e: Expr)
    requires SameWidth(l, r) && !l.Constant? && !r.Constant?
    ensures Fits(e, Width(l), 1 + Weight(l) + Weight(r))
    decreases Weight(l) + Weight(r), 2, 0
  {
    if Width(l) == Bool then Binary(Xor, l, r)
    else if Headed(l, Add) then CreateAdd(l.left, CreateAdd(l.right, r))
    else if Headed(l, Sub) then CreateAdd(l.left, CreateSub(r, l.right))
    else if Headed(r, Add) then CreateAdd(r.left, CreateAdd(l, r.right))
    else if Headed(r, Sub) then CreateAdd(r.left, CreateSub(l, r.right))
    else Binary(Add, l, r)
  }

  function CreateSub(l: Expr, r: Expr): (e: Expr)
    requires SameWidth(l, r)
    ensures Fits(e, Width(l), 1 + Weight(l) + Weight(r))
    decreases Weight(l) + Weight(r), Rank(l, r), 1
  {
    WidthPositive(l);
    if l.Constant? && r.Constant? then FoldBinary(Sub, l, r)
    else if l.Constant? then SubPartialR(l, r)
    else if r.Constant? then AddPartialR(FoldBinary(Sub, Zero(r.width), r), l)
    else SubGeneral(l, r)
  }

  function SubPartialR(cl: Expr, r: Expr): (e: Expr)
    requires SameWidth(cl, r) && cl.Constant?
    ensures Fits(e, Width(r), 1 + 1 + Weight(r))
    decreases 1 + Weight(r), 0, 0
  {
    if cl.width == Bool then XorPartialR(cl, r)
    else if Headed(r, Add) then CreateSub(CreateSub(cl, r.left), r.right)
    else if Headed(r, Sub) then CreateAdd(CreateSub(cl, r.left), r.right)
    else Binary(Sub, cl, r)
  }

  function SubGeneral(l: Expr, r: Expr): (e: Expr)
    requires SameWidth(l, r) && !l.Constant? && !r.Constant?
    ensures Fits(e, Width(l), 1 + Weight(l) + Weight(r))
    decreases Weight(l) + Weight(r), 2, 0
  {
    if Width(l) == Bool then Binary(Xor, l, r)
    else if l == r then
      WidthPositive(l);
      Zero(Width(l))
    else if Headed(l, Add) then CreateAdd(l.left, CreateSub(l.right, r))
    else if Headed(l, Sub) then CreateSub(l.left, CreateAdd(l.right, r))
    else if Headed(r, Add) then CreateSub(CreateSub(l, r.right), r.left)
    else if Headed(r, Sub) then CreateSub(CreateAdd(l, r.right), r.left)
    else Binary(Sub, l, r)
  }

  function MulPartialR(cl: Expr, r: Expr): (e: Expr)
    requires SameWidth(cl, r) && cl.Constant?
    ensures Fits(e, Width(r), 1 + 1 + Weight(r))
  {
    if cl.width == Bool then AndPartial(r, cl)
    else if cl.value == 1 then r
    else if IsZero(cl) then cl
    else Binary(Mul, cl, r)
  }

  function CreateMul(l: Expr, r: Expr): (e: Expr)
    requires SameWidth(l, r)
    ensures Fits(e, Width(l), 1 + Weight(l) + Weight(r))
  {
    if l.Constant? && r.Constant? then FoldBinary(Mul, l, r)
    else if l.Constant? then MulPartialR(l, r)
    else if r.Constant? then MulPartialR(r, l)
    else if Width(l) == Bool then Binary(And, l, r)
    else Binary(Mul, l, r)
  }

  // --------------------------------------------- division, remainder, shifts

  function CreateDivision(op: BinaryOp, l: Expr, r: Expr): (e: Expr)
    requires SameWidth(l, r) && WideOnly(op) && !op.AShr?
    ensures Fits(e, Width(l), OpWeight(op) + Weight(l) + Weight(r))
  {
    WidthPositive(l);
    if l.Constant? && r.Constant? then FoldBinary(op, l, r)
    else if Width(l) == Bool then (if op.UDiv? || op.SDiv? then l else Zero(Bool))
    else Binary(op, l, r)
  }

  function CreateShift(op: BinaryOp, l: Expr, r: Expr): (e: Expr)
    requires SameWidth(l, r) && (op.Shl? || op.LShr? || op.AShr?)
    ensures Fits(e, Width(l), OpWeight(op) + Weight(l) + Weight(r))
  {
    WidthPositive(l);
    if l.Constant? && r.Constant? then FoldBinary(op, l, r)
    else if Width(l) == Bool then (if op.AShr? then l else CreateAnd(l, CreateIsZero(r)))
    else Binary(op, l, r)
  }

  function CreateBinary(op: BinaryOp, l: Expr, r: Expr): (e: Expr)
    requires SameWidth(l, r)
    ensures Fits(e, Width(l), OpWeight(op) + Weight(l) + Weight(r))
  {
    match op
    case Add => CreateAdd(l, r)
    case Sub => CreateSub(l, r)
    case Mul => CreateMul(l, r)
    case And => CreateAnd(l, r)
    case Or => CreateOr(l, r)
    case Xor => CreateXor(l, r)
    case Shl => CreateShift(op, l, r)
    case LShr => CreateShift(op, l, r)
    case AShr => CreateShift(op, l, r)
    case _ => CreateDivision(op, l, r)
  }

  // -------------------------------------------------------------- comparisons

  /** Ult, Ule, Slt and Sle; at width one each becomes a Boolean formula. */
  function CreateOrder(cmp: CompareOp, l: Expr, r: Expr): (e: Expr)
    requires SameWidth(l, r) && (cmp.Ult? || cmp.Ule? || cmp.Slt? || cmp.Sle?)
    ensures Fits(e, Bool, CmpWeight(cmp) + Weight(l) + Weight(r))
  {
    if l.Constant? && r.Constant? then FoldCompare(cmp, l, r)
    else if Width(l) == Bool then
      if cmp.Ult? then CreateAnd(CreateIsZero(l), r)
      else if cmp.Ule? then CreateOr(CreateIsZero(l), r)
      else if cmp.Slt? then CreateAnd(l, CreateIsZero(r))
      else CreateOr(l, CreateIsZero(r))
    else Compare(cmp, l, r)
  }

  function CreateCompare(cmp: CompareOp, l: Expr, r: Expr): (e: Expr)
    requires SameWidth(l, r)
    ensures Fits(e, Bool, CmpWeight(cmp) + Weight(l) + Weight(r))
  {
    match cmp
    case Eq => CreateEq(l, r)
    case Ne => CreateNe(l, r)
    case Ugt => CreateOrder(Ult, r, l)
    case Uge => CreateOrder(Ule, r, l)
    case Sgt => CreateOrder(Slt, r, l)
    case Sge => CreateOrder(Sle, r, l)
    case _ => CreateOrder(cmp, l, r)
  }

  // ---------------------------------------------------------- select and read

  function CreateSelect(c: Expr, t: Expr, f: Expr): (e: Expr)
    requires WF(c) && Width(c) == Bool && SameWidth(t, f)
    ensures Fits(e, Width(t), 6 + Weight(c) + Weight(t) + Weight(f))
  {
    if c.Constant? then (if IsTrue(c) then t else f)
    else if t == f then t
    else if Width(t) == Bool && t.Constant? then
      if IsTrue(t) then CreateOr(c, f) else CreateAnd(CreateIsZero(c), f)
    else if Width(t) == Bool && f.Constant? then
      if IsTrue(f) then CreateOr(CreateIsZero(c), t) else CreateAnd(c, t)
    else Select(c, t, f)
  }

  /** How far a read can be rolled back through a write log: to a write that
      certainly matches, to the first write that may match, or past them all. */
  datatype Rollback = Found(value: Expr) | Blocked(rest: Updates) | Exhausted

  function RollBack(u: Updates, a: Array, index: Expr): (b: Rollback)
    requires WFUpdates(u, a) && WF(index) && Width(index) == a.domain
    ensures b.Found? ==> WF(b.value) && Width(b.value) == a.range && Weight(b.value) <= UpdatesWeight(u)
    ensures b.Blocked? ==> WFUpdates(b.rest, a) && UpdatesWeight(b.rest) <= UpdatesWeight(u)
  {
    match u
    case Empty => Exhausted
    case Update(i, v, next) =>
      var cond := CreateEq(index, i);
      if !cond.Constant? then Blocked(u)
      else if IsTrue(cond) then Found(v)
      else RollBack(next, a, index)
  }

  /** The update list left after the writes that were rolled back. */
  function Remaining(b: Rollback): Updates {
    if b.Blocked? then b.rest else Empty
  }

  function CreateRead(a: Array, u: Updates, index: Expr): (e: Expr)
    requires a.Valid() && WFUpdates(u, a) && WF(index) && Width(index) == a.domain
    ensures Fits(e, a.range, 1 + UpdatesWeight(u) + Weight(index))
  {
    var b := RollBack(u, a, index);
    if b.Found? then b.value
    else if b.Exhausted? && a.IsConstant() && index.Constant? && index.value < a.size then
      Constant(a.constants[index.value], a.range)
    else if index.Constant? && index.value < a.size then Read(a, Remaining(b), index)
    else Read(a, u, index)
  }

  /** The rollback loop itself, over the chain of update nodes. */
  method ReadCreate(a: Array, u: Updates, index: Expr) returns (e: Expr)
    requires a.Valid() && WFUpdates(u, a) && WF(index) && Width(index) == a.domain
    ensures e == CreateRead(a, u, index)
  {
    var un := u;
    var hasSymbolicWrites := false;
    while un.Update?
      invariant WFUpdates(un, a) && !hasSymbolicWrites
      invariant RollBack(u, a, index) == RollBack(un, a, index)
      decreases un
    {
      var cond := CreateEq(index, un.index);
      if cond.Constant? {
        if IsTrue(cond) {
          return un.value;
        }
      } else {
        hasSymbolicWrites := true;
        break;
      }
      un := un.next;
    }
    if a.IsConstant() && !hasSymbolicWrites && index.Constant? && index.value < a.size {
      return Constant(a.constants[index.value], a.range);
    }
    if index.Constant? && index.value < a.size {
      return Read(a, un, index);
    }
    return Read(a, u, index);
  }
}
