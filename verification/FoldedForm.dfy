/** The canonicalisation rules of expressions. No node has only constant arguments, reads and
    optimisation barriers apart; Booleans are combined by few operations, with no constant but
    the one in a negation; a constant stands on one fixed side. Every constructor keeps them. */
module FoldedForm {
  import opened Bits
  import opened Exprs
  import opened Create
  import opened CreateForm
  import opened CreateMeaning
  import opened Visitors

  /** The rules on Booleans: five comparisons are never used, one-bit operands occur only in the
      gates, equality and selection, and the only constant beside one is the `false` of a
      negation. (One-bit operands of concatenations, which the rules leave out, do occur.) */
  predicate BooleanRule(e: Expr) {
    match e
    case Select(c, t, f) => !c.Constant? && (Width(t) == Bool ==> !t.Constant? && !f.Constant?)
    case Extract(x, _, _) => Width(x) > Bool
    case Binary(op, l, r) => Width(l) == Bool ==> (op.And? || op.Or? || op.Xor?) && !l.Constant? && !r.Constant?
    case Compare(cmp, l, r) =>
      && (cmp.Eq? || cmp.Ult? || cmp.Ule? || cmp.Slt? || cmp.Sle?)
      && (Width(l) == Bool ==> cmp.Eq? && (l.Constant? ==> l == False))
    case _ => true
  }

  /** The side of a constant: the left one, except that in conjunctions and disjunctions, against
      the rule, it is the right one. */
  predicate SideRule(e: Expr) {
    match e
    case Binary(op, l, r) =>
      && (op.And? || op.Or? ==> !l.Constant?)
      && (op.Add? || op.Sub? || op.Mul? || op.Xor? ==> !r.Constant?)
    case Compare(cmp, l, r) => cmp.Eq? ==> !r.Constant?
    case _ => true
  }

  predicate Folded(e: Expr) {
    && BooleanRule(e)
    && SideRule(e)
    && match e
    case Constant(_, _) => true
    case NotOptimized(x) => Folded(x)
    case Read(_, u, i) => FoldedUpdates(u) && Folded(i)
    case Select(c, t, f) => Folded(c) && Folded(t) && Folded(f) && !(c.Constant? && t.Constant? && f.Constant?)
    case Concat(l, r) => Folded(l) && Folded(r) && !(l.Constant? && r.Constant?)
    case Extract(x, _, _) => Folded(x) && !x.Constant?
    case ZExt(x, _) => Folded(x) && !x.Constant?
    case SExt(x, _) => Folded(x) && !x.Constant?
    case Not(x) => Folded(x) && !x.Constant?
    case Binary(_, l, r) => Folded(l) && Folded(r) && !(l.Constant? && r.Constant?)
    case Compare(_, l, r) => Folded(l) && Folded(r) && !(l.Constant? && r.Constant?)
  }

  predicate FoldedUpdates(u: Updates) {
    match u
    case Empty => true
    case Update(i, v, next) => Folded(i) && Folded(v) && FoldedUpdates(next)
  }

  lemma FoldedNode(op: BinaryOp, l: Expr, r: Expr)
    requires Folded(l) && Folded(r) && !(l.Constant? && r.Constant?)
    ensures BooleanRule(Binary(op, l, r)) && SideRule(Binary(op, l, r)) ==> Folded(Binary(op, l, r))
  {
  }

  lemma FoldedConstant(e: Expr)
    requires e.Constant?
    ensures Folded(e) && Weight(e) == 1
  {
  }

  /** The operands of a sum. */
  lemma FoldedParts(e: Expr)
    requires WF(e) && IsSum(e) && Folded(e)
    ensures SameWidth(e.left, e.right) && Width(e.left) == Width(e) && Folded(e.left) && Folded(e.right)
    ensures Weight(e) == 1 + Weight(e.left) + Weight(e.right) && (e.left.Constant? ==> !e.right.Constant?)
  {
  }

  // ------------------------------------------------------------ bits and equality

  lemma {:induction false} FoldedExtract(x: Expr, off: nat, w: nat)
    requires WF(x) && w > 0 && off + w <= Width(x) && Folded(x)
    ensures Folded(CreateExtract(x, off, w))
    decreases 2 * Weight(x), 0
  {
    if w != Width(x) && x.Concat? {
      var rw := Width(x.low);
      WidthPositive(x.low);
      if off >= rw {
        FoldedExtract(x.high, off - rw, w);
      } else if off + w <= rw {
        FoldedExtract(x.low, off, w);
      } else {
        FoldedExtract(x.high, 0, w - rw + off);
        FoldedExtract(x.low, off, rw - off);
        FoldedConcat(CreateExtract(x.high, 0, w - rw + off), CreateExtract(x.low, off, rw - off));
      }
    }
  }

  lemma {:induction false} FoldedConcat(l: Expr, r: Expr)
    requires WF(l) && WF(r) && Folded(l) && Folded(r)
    ensures Folded(CreateConcat(l, r))
    decreases Weight(l) + Weight(r), 1
  {
    if l.Extract? && r.Extract? && l.expr == r.expr && r.offset + r.bits == l.offset {
      FoldedExtract(l.expr, r.offset, l.bits + r.bits);
    }
  }

  lemma FoldedCast(x: Expr, w: nat)
    requires WF(x) && w > 0 && Folded(x)
    ensures Folded(CreateZExt(x, w)) && Folded(CreateSExt(x, w))
  {
    hide WF, Weight, Folded, CreateExtract;
    if w < Width(x) {
      FoldedExtract(x, 0, w);
    } else if w > Width(x) {
      if x.Constant? {
        FoldedConstant(CreateZExt(x, w));
        FoldedConstant(CreateSExt(x, w));
      } else {
        PlainCasts(x, w);
      }
    }
  }

  lemma PlainCasts(x: Expr, w: nat)
    requires Folded(x) && !x.Constant?
    ensures Folded(ZExt(x, w)) && Folded(SExt(x, w))
  {
  }

  lemma BooleanConstant(c: Expr)
    requires IsCondition(c) && c.Constant?
    ensures c == False || c == True
    ensures IsZero(c) || IsAllOnes(c)
  {
    Pow2One();
  }

  lemma FoldedGates(l: Expr, r: Expr)
    requires SameWidth(l, r) && Folded(l) && Folded(r)
    ensures Folded(CreateAnd(l, r)) && Folded(CreateOr(l, r))
  {
    hide WF, Width, Weight, Folded, EvalBinary, IsAllOnes;
    if l.Constant? && IsCondition(l) {
      BooleanConstant(l);
    }
    if r.Constant? && IsCondition(r) {
      BooleanConstant(r);
    }
    if l.Constant? && r.Constant? {
      FoldedConstant(CreateAnd(l, r));
      FoldedConstant(CreateOr(l, r));
    } else {
      FoldedNode(And, l, r);
      FoldedNode(And, r, l);
      FoldedNode(Or, l, r);
      FoldedNode(Or, r, l);
    }
  }

  lemma PlainCompare(cmp: CompareOp, l: Expr, r: Expr)
    requires Folded(l) && Folded(r) && !(l.Constant? && r.Constant?)
    ensures BooleanRule(Compare(cmp, l, r)) && SideRule(Compare(cmp, l, r)) ==> Folded(Compare(cmp, l, r))
  {
  }

  lemma FoldedEqAlloc(l: Expr, r: Expr)
    requires SameWidth(l, r) && Folded(l) && Folded(r) && !(l.Constant? && r.Constant?)
    ensures BooleanRule(Compare(Eq, l, r)) && SideRule(Compare(Eq, l, r)) ==> Folded(EqAlloc(l, r))
  {
    hide WF, Width, Weight, Folded;
    FoldedConstant(True);
    PlainCompare(Eq, l, r);
  }

  lemma {:induction false} FoldedEqPartialR(cl: Expr, r: Expr)
    requires SameWidth(cl, r) && cl.Constant? && !r.Constant? && Folded(r)
    ensures Folded(EqPartialR(cl, r))
    decreases 1 + Weight(r), 0
  {
    hide CreateAnd, CreateEq, CreateIsZero, CreateZExt, CreateSExt, EvalBinary, EqAlloc;
    FoldedConstant(False);
    FoldedEqAlloc(cl, r);
    if cl.width == Bool {
      if r.Binary? && r.op.Or? {
        FoldedIsZero(r.left);
        FoldedIsZero(r.right);
        FoldedGates(CreateIsZero(r.left), CreateIsZero(r.right));
      }
    } else if r.SExt? || r.ZExt? {
      WidthPositive(r.narrow);
      ConstCasts(cl, Width(r.narrow));
      FoldedConstant(CreateZExt(cl, Width(r.narrow)));
      FoldedEq(r.narrow, CreateZExt(cl, Width(r.narrow)));
    } else if Headed(r, Add) {
      FoldedEqPartialR(FoldBinary(Sub, cl, r.left), r.right);
    } else if Headed(r, Sub) {
      FoldedEqPartialR(FoldBinary(Sub, r.left, cl), r.right);
    }
  }

  lemma {:induction false} FoldedEq(l: Expr, r: Expr)
    requires SameWidth(l, r) && Folded(l) && Folded(r)
    ensures Folded(CreateEq(l, r))
    decreases Weight(l) + Weight(r), 1
  {
    hide WF, Width, Weight, Folded, EqPartialR, EqAlloc, Relates;
    if l.Constant? && r.Constant? {
      FoldedConstant(CreateEq(l, r));
    } else if l.Constant? {
      FoldedConstant(l);
      FoldedEqPartialR(l, r);
    } else if r.Constant? {
      FoldedConstant(r);
      FoldedEqPartialR(r, l);
    } else {
      FoldedEqAlloc(l, r);
    }
  }

  lemma {:induction false} FoldedIsZero(x: Expr)
    requires WF(x) && Folded(x)
    ensures Folded(CreateIsZero(x))
    decreases Weight(x) + 1, 2
  {
    hide CreateEq;
    WidthPositive(x);
    FoldedEq(x, Zero(Width(x)));
  }

  // ------------------------------------------------------------------------- sums

  lemma FoldedXorPartialR(cl: Expr, r: Expr)
    requires SameWidth(cl, r) && cl.Constant? && !r.Constant? && Folded(r)
    ensures Folded(XorPartialR(cl, r))
  {
    hide WF, Weight, Folded, EqPartialR;
    FoldedConstant(cl);
    FoldedNode(Xor, cl, r);
    if cl.width == Bool {
      FoldedEqPartialR(Zero(Bool), r);
    }
  }

  lemma {:induction false} FoldedAdd(l: Expr, r: Expr)
    requires SameWidth(l, r) && Folded(l) && Folded(r)
    ensures Folded(CreateAdd(l, r))
    decreases Weight(l) + Weight(r), Rank(l, r), 2
  {
    hide WF, Width, Weight, Folded, EvalBinary, AddPartialR, AddGeneral;
    if l.Constant? && !r.Constant? {
      FoldedAddPartialR(l, r);
    } else if r.Constant? && !l.Constant? {
      FoldedAddPartialR(r, l);
    } else if !l.Constant? {
      FoldedAddGeneral(l, r);
    } else {
      FoldedConstant(CreateAdd(l, r));
    }
  }

  lemma {:induction false} FoldedAddPartialR(cl: Expr, r: Expr)
    requires SameWidth(cl, r) && cl.Constant? && !r.Constant? && Folded(r)
    ensures Folded(AddPartialR(cl, r))
    decreases 1 + Weight(r), 0, 1
  {
    hide WF, Weight, Folded, XorPartialR, CreateAdd, CreateSub, EvalBinary;
    FoldedConstant(cl);
    FoldedNode(Add, cl, r);
    FoldedNode(Sub, cl, r);
    if IsSum(r) {
      FoldedParts(r);
    }
    if cl.width == Bool {
      FoldedXorPartialR(cl, r);
    } else if !IsZero(cl) && Headed(r, Add) {
      ConstantSums(cl, r.left);
      FoldedConstant(r.left);
      FoldedConstant(CreateAdd(cl, r.left));
      FoldedAdd(CreateAdd(cl, r.left), r.right);
    } else if !IsZero(cl) && Headed(r, Sub) {
      ConstantSums(cl, r.left);
      FoldedConstant(r.left);
      FoldedConstant(CreateAdd(cl, r.left));
      FoldedSub(CreateAdd(cl, r.left), r.right);
    }
  }

  lemma {:induction false} FoldedAddGeneral(l: Expr, r: Expr)
    requires SameWidth(l, r) && !l.Constant? && !r.Constant? && Folded(l) && Folded(r)
    ensures Folded(AddGeneral(l, r))
    decreases Weight(l) + Weight(r), 2, 1
  {
    hide WF, Width, Weight, Folded, CreateAdd, CreateSub, EvalBinary;
    FoldedNode(Xor, l, r);
    FoldedNode(Add, l, r);
    FoldedNode(Sub, l, r);
    if IsSum(l) {
      FoldedParts(l);
    }
    if IsSum(r) {
      FoldedParts(r);
    }
    if Width(l) == Bool {
    } else if Headed(l, Add) {
      FoldedAdd(l.right, r);
      FoldedAdd(l.left, CreateAdd(l.right, r));
    } else if Headed(l, Sub) {
      FoldedSub(r, l.right);
      FoldedAdd(l.left, CreateSub(r, l.right));
    } else if Headed(r, Add) {
      FoldedAdd(l, r.right);
      FoldedAdd(r.left, CreateAdd(l, r.right));
    } else if Headed(r, Sub) {
      FoldedSub(l, r.right);
      FoldedAdd(r.left, CreateSub(l, r.right));
    }
  }

  lemma {:induction false} FoldedSub(l: Expr, r: Expr)
    requires SameWidth(l, r) && Folded(l) && Folded(r)
    ensures Folded(CreateSub(l, r))
    decreases Weight(l) + Weight(r), Rank(l, r), 2
  {
    hide WF, Weight, Folded, EvalBinary, AddPartialR, SubPartialR, SubGeneral;
    WidthPositive(l);
    if l.Constant? && !r.Constant? {
      FoldedSubPartialR(l, r);
    } else if r.Constant? && !l.Constant? {
      FoldedConstant(FoldBinary(Sub, Zero(r.width), r));
      FoldedConstant(r);
      FoldedAddPartialR(FoldBinary(Sub, Zero(r.width), r), l);
    } else if !l.Constant? {
      FoldedSubGeneral(l, r);
    } else {
      FoldedConstant(CreateSub(l, r));
    }
  }

  lemma {:induction false} FoldedSubPartialR(cl: Expr, r: Expr)
    requires SameWidth(cl, r) && cl.Constant? && !r.Constant? && Folded(r)
    ensures Folded(SubPartialR(cl, r))
    decreases 1 + Weight(r), 0, 1
  {
    hide WF, Weight, Folded, XorPartialR, CreateAdd, CreateSub, EvalBinary;
    FoldedConstant(cl);
    FoldedNode(Add, cl, r);
    FoldedNode(Sub, cl, r);
    if IsSum(r) {
      FoldedParts(r);
    }
    if cl.width == Bool {
      FoldedXorPartialR(cl, r);
    } else if Headed(r, Add) {
      ConstantSums(cl, r.left);
      FoldedConstant(r.left);
      FoldedConstant(CreateSub(cl, r.left));
      FoldedSub(CreateSub(cl, r.left), r.right);
    } else if Headed(r, Sub) {
      ConstantSums(cl, r.left);
      FoldedConstant(r.left);
      FoldedConstant(CreateSub(cl, r.left));
      FoldedAdd(CreateSub(cl, r.left), r.right);
    }
  }

  lemma {:induction false} FoldedSubGeneral(l: Expr, r: Expr)
    requires SameWidth(l, r) && !l.Constant? && !r.Constant? && Folded(l) && Folded(r)
    ensures Folded(SubGeneral(l, r))
    decreases Weight(l) + Weight(r), 2, 1
  {
    hide WF, Width, Weight, Folded, CreateAdd, CreateSub, EvalBinary;
    FoldedNode(Xor, l, r);
    FoldedNode(Add, l, r);
    FoldedNode(Sub, l, r);
    if IsSum(l) {
      FoldedParts(l);
    }
    if IsSum(r) {
      FoldedParts(r);
    }
    if Width(l) == Bool {
    } else if l == r {
      WidthPositive(l);
      FoldedConstant(Zero(Width(l)));
    } else if Headed(l, Add) {
      FoldedSub(l.right, r);
      FoldedAdd(l.left, CreateSub(l.right, r));
    } else if Headed(l, Sub) {
      FoldedAdd(l.right, r);
      FoldedSub(l.left, CreateAdd(l.right, r));
    } else if Headed(r, Add) {
      FoldedSub(l, r.right);
      FoldedSub(CreateSub(l, r.right), r.left);
    } else if Headed(r, Sub) {
      FoldedAdd(l, r.right);
      FoldedSub(CreateAdd(l, r.right), r.left);
    }
  }

  /** A constant added to or subtracted from something symbolic leaves something symbolic. */
  lemma {:induction false} SymbolicSums(c: Expr, r: Expr)
    requires SameWidth(c, r) && Width(c) > Bool && c.Constant? && !r.Constant? && Folded(r)
    ensures !CreateAdd(c, r).Constant? && !CreateSub(c, r).Constant? && CreateAdd(r, c) == CreateAdd(c, r)
    decreases Weight(r)
  {
    hide WF, Weight, Folded, EvalBinary;
    assert CreateAdd(c, r) == AddPartialR(c, r) == CreateAdd(r, c) && CreateSub(c, r) == SubPartialR(c, r);
    if ConstantHeaded(r) {
      FoldedParts(r);
      ConstantSums(c, r.left);
      SymbolicSums(CreateAdd(c, r.left), r.right);
      SymbolicSums(CreateSub(c, r.left), r.right);
    }
  }

  // ------------------------------------------------------------- all constructors

  lemma FoldedXor(l: Expr, r: Expr)
    requires SameWidth(l, r) && Folded(l) && Folded(r)
    ensures Folded(CreateXor(l, r))
  {
    hide WF, Width, Weight, Folded, EvalBinary, XorPartialR;
    if l.Constant? && r.Constant? {
      FoldedConstant(CreateXor(l, r));
    } else if l.Constant? {
      FoldedXorPartialR(l, r);
    } else if r.Constant? {
      FoldedXorPartialR(r, l);
    } else {
      FoldedNode(Xor, l, r);
    }
  }

  lemma FoldedMul(l: Expr, r: Expr)
    requires SameWidth(l, r) && Folded(l) && Folded(r)
    ensures Folded(CreateMul(l, r))
  {
    hide WF, Weight, Folded, EvalBinary, IsAllOnes;
    if l.Constant? && IsCondition(l) {
      BooleanConstant(l);
    }
    if r.Constant? && IsCondition(r) {
      BooleanConstant(r);
    }
    if l.Constant? && r.Constant? {
      FoldedConstant(CreateMul(l, r));
    } else {
      FoldedNode(And, l, r);
      FoldedNode(And, r, l);
      FoldedNode(Mul, l, r);
      FoldedNode(Mul, r, l);
    }
  }

  lemma FoldedDivision(op: BinaryOp, l: Expr, r: Expr)
    requires SameWidth(l, r) && WideOnly(op) && !op.AShr? && Folded(l) && Folded(r)
    ensures Folded(CreateDivision(op, l, r))
  {
    hide WF, Weight, Folded, EvalBinary;
    WidthPositive(l);
    FoldedConstant(Zero(Bool));
    if l.Constant? && r.Constant? {
      FoldedConstant(FoldBinary(op, l, r));
    } else {
      FoldedNode(op, l, r);
    }
  }

  lemma FoldedShift(op: BinaryOp, l: Expr, r: Expr)
    requires SameWidth(l, r) && (op.Shl? || op.LShr? || op.AShr?) && Folded(l) && Folded(r)
    ensures Folded(CreateShift(op, l, r))
  {
    hide WF, Weight, Folded, EvalBinary, CreateAnd, CreateOr, CreateIsZero;
    WidthPositive(l);
    if l.Constant? && r.Constant? {
      FoldedConstant(FoldBinary(op, l, r));
    } else {
      FoldedNode(op, l, r);
      if Width(l) == Bool {
        FoldedIsZero(r);
        FoldedGates(l, CreateIsZero(r));
      }
    }
  }

  lemma FoldedBinary(op: BinaryOp, l: Expr, r: Expr)
    requires SameWidth(l, r) && Folded(l) && Folded(r)
    ensures Folded(CreateBinary(op, l, r))
  {
    hide WF, Width, Weight, Folded, CreateAdd, CreateSub, CreateMul, CreateXor, CreateAnd, CreateOr, CreateShift,
         CreateDivision;
    match op
    case Add => FoldedAdd(l, r);
    case Sub => FoldedSub(l, r);
    case Mul => FoldedMul(l, r);
    case And => FoldedGates(l, r);
    case Or => FoldedGates(l, r);
    case Xor => FoldedXor(l, r);
    case Shl => FoldedShift(op, l, r);
    case LShr => FoldedShift(op, l, r);
    case AShr => FoldedShift(op, l, r);
    case _ => FoldedDivision(op, l, r);
  }

  lemma FoldedCompare(cmp: CompareOp, l: Expr, r: Expr)
    requires SameWidth(l, r) && Folded(l) && Folded(r)
    ensures Folded(CreateCompare(cmp, l, r))
  {
    hide CreateEq, CreateOrder;
    FoldedEq(l, r);
    if cmp.Eq? {
    } else if cmp.Ne? {
      FoldedEq(Zero(Bool), CreateEq(l, r));
    } else {
      var swapped := cmp.Ugt? || cmp.Uge? || cmp.Sgt? || cmp.Sge?;
      var order := match cmp case Ugt => Ult case Uge => Ule case Sgt => Slt case Sge => Sle case _ => cmp;
      FoldedOrder(order, if swapped then r else l, if swapped then l else r);
    }
  }

  lemma PlainOrder(cmp: CompareOp, l: Expr, r: Expr)
    requires Folded(l) && Folded(r) && !(l.Constant? && r.Constant?)
    requires Width(l) != Bool && (cmp.Ult? || cmp.Ule? || cmp.Slt? || cmp.Sle?)
    ensures Folded(Compare(cmp, l, r))
  {
    hide Width;
  }

  lemma FoldedOrder(cmp: CompareOp, l: Expr, r: Expr)
    requires SameWidth(l, r) && (cmp.Ult? || cmp.Ule? || cmp.Slt? || cmp.Sle?) && Folded(l) && Folded(r)
    ensures Folded(CreateOrder(cmp, l, r))
  {
    hide WF, Weight, Folded, BooleanRule, SideRule, CreateIsZero, CreateAnd, CreateOr, FoldCompare;
    if l.Constant? && r.Constant? {
      FoldedConstant(FoldCompare(cmp, l, r));
    } else if Width(l) == Bool {
      if cmp.Ult? || cmp.Ule? {
        FoldedNotGates(l, r);
      } else {
        FoldedGatesNot(l, r);
      }
    } else {
      PlainOrder(cmp, l, r);
    }
  }

  lemma FoldedNotGates(l: Expr, r: Expr)
    requires IsCondition(l) && IsCondition(r) && Folded(l) && Folded(r)
    ensures Folded(CreateAnd(CreateIsZero(l), r)) && Folded(CreateOr(CreateIsZero(l), r))
  {
    hide WF, Weight, Folded, CreateIsZero, CreateAnd, CreateOr;
    FoldedIsZero(l);
    FoldedGates(CreateIsZero(l), r);
  }

  lemma FoldedGatesNot(l: Expr, r: Expr)
    requires IsCondition(l) && IsCondition(r) && Folded(l) && Folded(r)
    ensures Folded(CreateAnd(l, CreateIsZero(r))) && Folded(CreateOr(l, CreateIsZero(r)))
  {
    hide WF, Weight, Folded, CreateIsZero, CreateAnd, CreateOr;
    FoldedIsZero(r);
    FoldedGates(l, CreateIsZero(r));
  }

  lemma FoldedSelect(c: Expr, t: Expr, f: Expr)
    requires IsCondition(c) && SameWidth(t, f) && Folded(c) && Folded(t) && Folded(f)
    ensures Folded(CreateSelect(c, t, f))
  {
    hide WF, Weight, Folded, CreateIsZero, CreateAnd, CreateOr;
    if c.Constant? || t == f {
    } else if Width(t) == Bool && t.Constant? {
      FoldedGates(c, f);
      FoldedNotGates(c, f);
    } else if Width(t) == Bool && f.Constant? {
      FoldedGates(c, t);
      FoldedNotGates(c, t);
    } else {
      PlainSelect(c, t, f);
    }
  }

  lemma PlainSelect(c: Expr, t: Expr, f: Expr)
    requires Folded(c) && Folded(t) && Folded(f) && BooleanRule(Select(c, t, f))
    ensures Folded(Select(c, t, f))
  {
  }

  lemma {:induction false} FoldedRollBack(u: Updates, a: Array, index: Expr)
    requires WFUpdates(u, a) && WF(index) && Width(index) == a.domain && FoldedUpdates(u)
    ensures RollBack(u, a, index).Found? ==> Folded(RollBack(u, a, index).value)
    ensures FoldedUpdates(Remaining(RollBack(u, a, index)))
    decreases u
  {
    hide CreateEq, WF, Width;
    if u.Update? {
      FoldedRollBack(u.next, a, index);
    }
  }

  lemma FoldedRead(a: Array, u: Updates, index: Expr)
    requires a.Valid() && WFUpdates(u, a) && WF(index) && Width(index) == a.domain && FoldedUpdates(u) && Folded(index)
    ensures Folded(CreateRead(a, u, index))
  {
    hide RollBack, WF, Width;
    FoldedRollBack(u, a, index);
  }

  /** Whatever node is built from arguments that keep the rule keeps it too. */
  lemma FoldedRebuild(e: Expr, k: seq<Expr>)
    requires WF(e) && !e.Constant? && KidsFit(e, k) && (e.Read? ==> FoldedUpdates(e.updates))
    requires forall i :: 0 <= i < |k| ==> Folded(k[i])
    ensures Folded(Rebuild(e, k))
  {
    hide WF, Width, WFUpdates, CreateRead, CreateSelect, CreateConcat, CreateExtract, CreateZExt, CreateSExt,
         CreateBinary, CreateCompare;
    KidsParts(e, k);
    match e
    case NotOptimized(_) =>
    case Read(a, u, _) => FoldedRead(a, u, k[0]);
    case Select(_, _, _) => FoldedSelect(k[0], k[1], k[2]);
    case Concat(_, _) => FoldedConcat(k[0], k[1]);
    case Extract(_, off, w) => FoldedExtract(k[0], off, w);
    case ZExt(_, w) => FoldedCast(k[0], w);
    case SExt(_, w) => FoldedCast(k[0], w);
    case Not(_) =>
    case Binary(op, _, _) => FoldedBinary(op, k[0], k[1]);
    case Compare(cmp, _, _) => FoldedCompare(cmp, k[0], k[1]);
  }
}
