/** Sums and differences in normal form. A constant occurs in a chain of
    additions and subtractions only as the left operand of its outermost node,
    the constructors keep that form, and they never enlarge the expression. */
module CreateForm {
  import opened Exprs
  import opened Create

  predicate IsSum(e: Expr) {
    e.Binary? && (e.op.Add? || e.op.Sub?)
  }

  /** A sum or difference with a constant on the left. */
  predicate ConstantHeaded(e: Expr) {
    IsSum(e) && e.left.Constant?
  }

  /** The form of one node of a sum: no constant on the right, nothing added to
      zero, and no operand that itself carries a constant. */
  predicate NormalNode(e: Expr) {
    IsSum(e) ==>
      && !e.right.Constant?
      && !ConstantHeaded(e.left)
      && !ConstantHeaded(e.right)
      && (e.op.Add? ==> !IsZero(e.left))
  }

  /** Every node of the sum an expression forms is in normal form. */
  predicate Canonical(e: Expr) {
    NormalNode(e) && (IsSum(e) ==> Canonical(e.left) && Canonical(e.right))
  }

  /** The number of expression nodes, update lists aside. */
  function Nodes(e: Expr): (n: nat)
    ensures n >= 1
  {
    match e
    case Constant(_, _) => 1
    case NotOptimized(x) => 1 + Nodes(x)
    case Read(_, _, i) => 1 + Nodes(i)
    case Select(c, t, f) => 1 + Nodes(c) + Nodes(t) + Nodes(f)
    case Concat(l, r) => 1 + Nodes(l) + Nodes(r)
    case Extract(x, _, _) => 1 + Nodes(x)
    case ZExt(x, _) => 1 + Nodes(x)
    case SExt(x, _) => 1 + Nodes(x)
    case Not(x) => 1 + Nodes(x)
    case Binary(_, l, r) => 1 + Nodes(l) + Nodes(r)
    case Compare(_, l, r) => 1 + Nodes(l) + Nodes(r)
  }

  /** Operands of a sum wider than one bit, in normal form. */
  ghost predicate Operands(l: Expr, r: Expr) {
    SameWidth(l, r) && Width(l) > Bool && Canonical(l) && Canonical(r)
  }

  /** What normalising a sum of two operands yields. */
  ghost predicate Normalised(e: Expr, l: Expr, r: Expr) {
    Canonical(e) && Nodes(e) <= 1 + Nodes(l) + Nodes(r)
  }

  lemma SumParts(e: Expr)
    requires IsSum(e) && WF(e) && Width(e) > Bool && Canonical(e)
    ensures Operands(e.left, e.right) && Width(e.left) == Width(e)
    ensures Weight(e) == 1 + Weight(e.left) + Weight(e.right)
    ensures Nodes(e) == 1 + Nodes(e.left) + Nodes(e.right)
    ensures e.left.Constant? ==> Weight(e.left) == 1 == Nodes(e.left)
  {
  }

  lemma ZeroForm(w: nat)
    requires w > 0
    ensures Canonical(Zero(w)) && Nodes(Zero(w)) == 1
  {
  }

  /** A sum left as it is, because neither operand carries a constant. */
  lemma SumAlloc(op: BinaryOp, l: Expr, r: Expr)
    requires Operands(l, r) && !l.Constant? && !r.Constant? && (op.Add? || op.Sub?)
    requires !ConstantHeaded(l) && !ConstantHeaded(r)
    ensures Normalised(Binary(op, l, r), l, r)
  {
  }

  lemma {:induction false} AddForm(l: Expr, r: Expr)
    requires Operands(l, r)
    ensures Normalised(CreateAdd(l, r), l, r)
    decreases Weight(l) + Weight(r), Rank(l, r), 2
  {
    hide WF, AddPartialR, AddGeneral, FoldBinary;
    if l.Constant? && r.Constant? {
    } else if l.Constant? {
      AddPartialRForm(l, r);
    } else if r.Constant? {
      AddPartialRForm(r, l);
    } else {
      AddGeneralForm(l, r);
    }
  }

  lemma {:induction false} AddPartialRForm(cl: Expr, r: Expr)
    requires Operands(cl, r) && cl.Constant? && !r.Constant?
    ensures Normalised(AddPartialR(cl, r), cl, r)
    decreases 1 + Weight(r), 0, 1
  {
    hide CreateAdd, CreateSub;
    if !IsZero(cl) && ConstantHeaded(r) {
      ConstantSums(cl, r.left);
      if r.op.Add? {
        AddForm(CreateAdd(cl, r.left), r.right);
      } else {
        SubForm(CreateAdd(cl, r.left), r.right);
      }
    }
  }

  lemma ConstantSums(l: Expr, r: Expr)
    requires SameWidth(l, r) && l.Constant? && r.Constant?
    ensures CreateAdd(l, r).Constant? && CreateSub(l, r).Constant?
  {
    hide AddPartialR, SubPartialR, AddGeneral, SubGeneral;
  }

  lemma {:induction false} AddGeneralForm(l: Expr, r: Expr)
    requires Operands(l, r) && !l.Constant? && !r.Constant?
    ensures Normalised(AddGeneral(l, r), l, r)
    decreases Weight(l) + Weight(r), 2, 1
  {
    hide CreateAdd, CreateSub, WF, Width, Weight, Nodes, Canonical;
    if ConstantHeaded(l) {
      SumParts(l);
    } else if ConstantHeaded(r) {
      SumParts(r);
    } else {
      SumAlloc(Add, l, r);
    }
    if Headed(l, Add) {
      AddForm(l.right, r);
      AddForm(l.left, CreateAdd(l.right, r));
    } else if Headed(l, Sub) {
      SubForm(r, l.right);
      AddForm(l.left, CreateSub(r, l.right));
    } else if Headed(r, Add) {
      AddForm(l, r.right);
      AddForm(r.left, CreateAdd(l, r.right));
    } else if Headed(r, Sub) {
      SubForm(l, r.right);
      AddForm(r.left, CreateSub(l, r.right));
    }
  }

  lemma {:induction false} SubForm(l: Expr, r: Expr)
    requires Operands(l, r)
    ensures Normalised(CreateSub(l, r), l, r)
    decreases Weight(l) + Weight(r), Rank(l, r), 2
  {
    hide AddPartialR, SubPartialR, SubGeneral;
    WidthPositive(l);
    if l.Constant? && r.Constant? {
    } else if l.Constant? {
      SubPartialRForm(l, r);
    } else if r.Constant? {
      AddPartialRForm(FoldBinary(Sub, Zero(r.width), r), l);
    } else {
      SubGeneralForm(l, r);
    }
  }

  lemma {:induction false} SubPartialRForm(cl: Expr, r: Expr)
    requires Operands(cl, r) && cl.Constant? && !r.Constant?
    ensures Normalised(SubPartialR(cl, r), cl, r)
    decreases 1 + Weight(r), 0, 1
  {
    hide CreateAdd, CreateSub;
    if ConstantHeaded(r) {
      ConstantSums(cl, r.left);
      if r.op.Add? {
        SubForm(CreateSub(cl, r.left), r.right);
      } else {
        AddForm(CreateSub(cl, r.left), r.right);
      }
    }
  }

  lemma {:induction false} SubGeneralForm(l: Expr, r: Expr)
    requires Operands(l, r) && !l.Constant? && !r.Constant?
    ensures Normalised(SubGeneral(l, r), l, r)
    decreases Weight(l) + Weight(r), 2, 1
  {
    hide CreateAdd, CreateSub, WF, Width, Weight, Nodes, Canonical;
    if ConstantHeaded(l) {
      SumParts(l);
    } else if ConstantHeaded(r) {
      SumParts(r);
    } else {
      SumAlloc(Sub, l, r);
    }
    if l == r {
      WidthPositive(l);
      ZeroForm(Width(l));
    } else if Headed(l, Add) {
      SubForm(l.right, r);
      AddForm(l.left, CreateSub(l.right, r));
    } else if Headed(l, Sub) {
      AddForm(l.right, r);
      SubForm(l.left, CreateAdd(l.right, r));
    } else if Headed(r, Add) {
      SubForm(l, r.right);
      SubForm(CreateSub(l, r.right), r.left);
    } else if Headed(r, Sub) {
      AddForm(l, r.right);
      SubForm(CreateAdd(l, r.right), r.left);
    }
  }
}
