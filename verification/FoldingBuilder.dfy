/** The constant-folding expression builder over the plain one: a second set of
    rewrite rules, which unlike the constructors reassociates every sum to the
    right and also looks for constants on the right of a sum. */
module FoldingBuilder {
  import opened Bits
  import opened Exprs
  import opened Create
  import opened CreateMeaning

  predicate IsBinary(e: Expr, op: BinaryOp) {
    e.Binary? && e.op == op
  }

  function Negated(c: Expr): (e: Expr)
    requires WF(c) && c.Constant?
    ensures e.Constant? && Fits(e, c.width, 1)
  {
    FoldBinary(Sub, Zero(c.width), c)
  }

  /** The plain node, as the base builder makes it. */
  function PlainSum(op: BinaryOp, l: Expr, r: Expr): (e: Expr)
    requires SameWidth(l, r) && (op.Add? || op.Sub?)
    ensures Fits(e, Width(l), 1 + Weight(l) + Weight(r))
  {
    Binary(op, l, r)
  }

  /** Termination: total weight, then weight of the left operand. */
  function FoldingAdd(l: Expr, r: Expr): (e: Expr)
    requires SameWidth(l, r)
    ensures Fits(e, Width(l), 1 + Weight(l) + Weight(r))
    decreases Weight(l) + Weight(r), Weight(l), 1
  {
    if l.Constant? && r.Constant? then FoldBinary(Add, l, r)
    else if l.Constant? then FoldingAddConstant(l, r)
    else if r.Constant? then FoldingAddConstant(r, l)
    else FoldingAddGeneral(l, r)
  }

  function FoldingAddConstant(c: Expr, r: Expr): (e: Expr)
    requires SameWidth(c, r) && c.Constant? && !r.Constant?
    ensures Fits(e, Width(r), 2 + Weight(r))
    decreases 1 + Weight(r), 1, 0
  {
    if IsZero(c) then r
    else if IsBinary(r, Add) && r.left.Constant? then FoldingAdd(FoldBinary(Add, c, r.left), r.right)
    else if IsBinary(r, Add) && r.right.Constant? then FoldingAdd(FoldBinary(Add, c, r.right), r.left)
    else if IsBinary(r, Sub) && r.left.Constant? then FoldingSub(FoldBinary(Add, c, r.left), r.right)
    else if IsBinary(r, Sub) && r.right.Constant? then FoldingAdd(FoldBinary(Sub, c, r.right), r.left)
    else PlainSum(Add, c, r)
  }

  function FoldingAddGeneral(l: Expr, r: Expr): (e: Expr)
    requires SameWidth(l, r) && !l.Constant? && !r.Constant?
    ensures Fits(e, Width(l), 1 + Weight(l) + Weight(r))
    decreases Weight(l) + Weight(r), Weight(l), 0
  {
    if IsBinary(l, Add) then FoldingAdd(l.left, FoldingAdd(l.right, r))
    else if IsBinary(l, Sub) then FoldingAdd(l.left, FoldingSub(r, l.right))
    else if IsBinary(r, Add) && r.left.Constant? then FoldingAdd(r.left, FoldingAdd(l, r.right))
    else if IsBinary(r, Add) && r.right.Constant? then FoldingAdd(r.right, FoldingAdd(l, r.left))
    else if IsBinary(r, Sub) && r.left.Constant? then FoldingAdd(r.left, FoldingSub(l, r.right))
    else if IsBinary(r, Sub) && r.right.Constant? then FoldingAdd(Negated(r.right), FoldingAdd(l, r.left))
    else PlainSum(Add, l, r)
  }

  function FoldingSub(l: Expr, r: Expr): (e: Expr)
    requires SameWidth(l, r)
    ensures Fits(e, Width(l), 1 + Weight(l) + Weight(r))
    decreases Weight(l) + Weight(r), Weight(l), 1
  {
    if l.Constant? && r.Constant? then FoldBinary(Sub, l, r)
    else if l.Constant? then FoldingSubConstant(l, r)
    else if r.Constant? then FoldingAddConstant(Negated(r), l)
    else FoldingSubGeneral(l, r)
  }

  function FoldingSubConstant(c: Expr, r: Expr): (e: Expr)
    requires SameWidth(c, r) && c.Constant? && !r.Constant?
    ensures Fits(e, Width(r), 2 + Weight(r))
    decreases 1 + Weight(r), 1, 0
  {
    assert Weight(c) == 1;
    if IsBinary(r, Add) && r.left.Constant? then FoldingSub(FoldBinary(Sub, c, r.left), r.right)
    else if IsBinary(r, Add) && r.right.Constant? then FoldingSub(FoldBinary(Sub, c, r.right), r.left)
    else if IsBinary(r, Sub) && r.left.Constant? then FoldingAdd(FoldBinary(Sub, c, r.left), r.right)
    else if IsBinary(r, Sub) && r.right.Constant? then FoldingSub(FoldBinary(Add, c, r.right), r.left)
    else PlainSum(Sub, c, r)
  }

  function FoldingSubGeneral(l: Expr, r: Expr): (e: Expr)
    requires SameWidth(l, r) && !l.Constant? && !r.Constant?
    ensures Fits(e, Width(l), 1 + Weight(l) + Weight(r))
    decreases Weight(l) + Weight(r), Weight(l), 0
  {
    if IsBinary(l, Add) then FoldingAdd(l.left, FoldingSub(l.right, r))
    else if IsBinary(l, Sub) then FoldingSub(l.left, FoldingAdd(l.right, r))
    else if IsBinary(r, Add) && r.left.Constant? then FoldingAdd(Negated(r.left), FoldingSub(l, r.right))
    else if IsBinary(r, Add) && r.right.Constant? then FoldingAdd(Negated(r.right), FoldingSub(l, r.left))
    else if IsBinary(r, Sub) && r.left.Constant? then FoldingAdd(Negated(r.left), FoldingAdd(l, r.right))
    else if IsBinary(r, Sub) && r.right.Constant? then FoldingAdd(r.right, FoldingSub(l, r.left))
    else PlainSum(Sub, l, r)
  }

  // ----------------------------------------------------------------- meaning

  /** What a chain of residues amounts to: each is an integer taken modulo 2^w. */
  lemma Residues(k: int, x: int, w: nat)
    ensures Low(k + Low(x, w), w) == Low(k + x, w) == Low(Low(k, w) + x, w)
    ensures Low(k - Low(x, w), w) == Low(k - x, w) == Low(Low(k, w) - x, w)
    ensures Low(Low(k, w) + Low(x, w), w) == Low(k + x, w)
    ensures Low(Low(k, w) - Low(x, w), w) == Low(k - x, w)
  {
    hide Low;
    LowSum(k, x, w);
    LowSum(k, Low(x, w), w);
  }

  /** A sum node and its operands as residues. */
  lemma SumNode(e: Expr, env: Env)
    requires WF(e) && e.Binary? && (e.op.Add? || e.op.Sub?)
    ensures SameWidth(e.left, e.right) && Width(e) == Width(e.left)
    ensures Weight(e) == 1 + Weight(e.left) + Weight(e.right)
    ensures e.op.Add? ==> Eval(e, env) == Low(Eval(e.left, env) + Eval(e.right, env), Width(e))
    ensures e.op.Sub? ==> Eval(e, env) == Low(Eval(e.left, env) - Eval(e.right, env), Width(e))
    ensures WF(e.left) && WF(e.right)
    ensures e.left.Constant? ==> Weight(e.left) == 1 && e.left.width == Width(e)
    ensures e.right.Constant? ==> Weight(e.right) == 1 && e.right.width == Width(e)
  {
    hide Low, Pow2;
  }

  lemma FoldAddMeaning(l: Expr, r: Expr, env: Env)
    requires SameWidth(l, r) && l.Constant? && r.Constant?
    ensures Eval(FoldBinary(Add, l, r), env) == Low(Eval(l, env) + Eval(r, env), Width(l))
    ensures Eval(FoldBinary(Sub, l, r), env) == Low(Eval(l, env) - Eval(r, env), Width(l))
  {
    hide Low, Pow2, WF, Weight, Eval;
    EvalConstant(l, env);
    EvalConstant(r, env);
    EvalConstant(FoldBinary(Add, l, r), env);
    EvalConstant(FoldBinary(Sub, l, r), env);
  }

  lemma NegatedMeaning(c: Expr, env: Env)
    requires WF(c) && c.Constant?
    ensures Eval(Negated(c), env) == Low(0 - Eval(c, env), c.width)
  {
    hide Low, Pow2;
    FoldAddMeaning(Zero(c.width), c, env);
  }

  lemma {:induction false} FoldingAddMeaning(l: Expr, r: Expr, env: Env)
    requires SameWidth(l, r)
    ensures Eval(FoldingAdd(l, r), env) == Low(Eval(l, env) + Eval(r, env), Width(l))
    decreases Weight(l) + Weight(r), Weight(l), 2
  {
    hide Low, Eval, FoldBinary, FoldingAddConstant, FoldingAddGeneral;
    if l.Constant? && r.Constant? {
      FoldAddMeaning(l, r, env);
    } else if l.Constant? {
      FoldingAddConstantMeaning(l, r, env);
    } else if r.Constant? {
      FoldingAddConstantMeaning(r, l, env);
    } else {
      FoldingAddGeneralMeaning(l, r, env);
    }
  }

  lemma {:induction false} FoldingAddConstantMeaning(c: Expr, r: Expr, env: Env)
    requires SameWidth(c, r) && c.Constant? && !r.Constant?
    ensures Eval(FoldingAddConstant(c, r), env) == Low(Eval(c, env) + Eval(r, env), Width(r))
    decreases 1 + Weight(r), 1, 1
  {
    hide Low, Eval, WF, Width, Weight, EvalBinary, FoldBinary, FoldingAdd, FoldingSub;
    var k: int, w := Eval(c, env), Width(r);
    EvalConstant(c, env);
    EvalSum(c, r, env);
    EvalBound(r, env);
    LowSmall(Eval(r, env), w);
    if IsBinary(r, Add) || IsBinary(r, Sub) {
      SumNode(r, env);
      var x: int, y: int := Eval(r.left, env), Eval(r.right, env);
      Residues(k, x + y, w);
      Residues(k, x - y, w);
      if r.left.Constant? {
        FoldAddMeaning(c, r.left, env);
        Residues(k + x, y, w);
        if r.op.Add? {
          FoldingAddMeaning(FoldBinary(Add, c, r.left), r.right, env);
        } else {
          FoldingSubMeaning(FoldBinary(Add, c, r.left), r.right, env);
        }
        assert k + (x + y) == (k + x) + y && k + (x - y) == (k + x) - y;
      } else if r.right.Constant? {
        FoldAddMeaning(c, r.right, env);
        Residues(k + y, x, w);
        Residues(k - y, x, w);
        if r.op.Add? {
          FoldingAddMeaning(FoldBinary(Add, c, r.right), r.left, env);
        } else {
          FoldingAddMeaning(FoldBinary(Sub, c, r.right), r.left, env);
        }
        assert k + (x + y) == (k + y) + x && k + (x - y) == (k - y) + x;
      }
    }
  }

  lemma {:induction false} FoldingAddGeneralMeaning(l: Expr, r: Expr, env: Env)
    requires SameWidth(l, r) && !l.Constant? && !r.Constant?
    ensures Eval(FoldingAddGeneral(l, r), env) == Low(Eval(l, env) + Eval(r, env), Width(l))
    decreases Weight(l) + Weight(r), Weight(l), 1
  {
    hide Low, Eval, WF, Width, Weight, EvalBinary, FoldBinary, FoldingAdd, FoldingSub;
    var a: int, b: int, w := Eval(l, env), Eval(r, env), Width(l);
    EvalSum(l, r, env);
    if IsBinary(l, Add) || IsBinary(l, Sub) {
      SumNode(l, env);
      var x: int, y: int := Eval(l.left, env), Eval(l.right, env);
      if l.op.Add? {
        FoldingAddMeaning(l.right, r, env);
        FoldingAddMeaning(l.left, FoldingAdd(l.right, r), env);
        Residues(x, y + b, w);
        Residues(x + y, b, w);
        assert x + (y + b) == (x + y) + b;
      } else {
        FoldingSubMeaning(r, l.right, env);
        FoldingAddMeaning(l.left, FoldingSub(r, l.right), env);
        Residues(x, b - y, w);
        Residues(x - y, b, w);
        assert x + (b - y) == (x - y) + b;
      }
    } else if IsBinary(r, Add) || IsBinary(r, Sub) {
      FoldingAddRight(l, r, env);
    }
  }

  lemma {:induction false} FoldingAddRight(l: Expr, r: Expr, env: Env)
    requires SameWidth(l, r) && !l.Constant? && !r.Constant?
    requires !IsBinary(l, Add) && !IsBinary(l, Sub) && (IsBinary(r, Add) || IsBinary(r, Sub))
    ensures Eval(FoldingAddGeneral(l, r), env) == Low(Eval(l, env) + Eval(r, env), Width(l))
    decreases Weight(l) + Weight(r), Weight(l), 0
  {
    hide Low, Eval, WF, Width, Weight, EvalBinary, FoldBinary, Negated, FoldingAdd, FoldingSub;
    var a: int, w := Eval(l, env), Width(l);
    EvalSum(l, r, env);
    SumNode(r, env);
    var x: int, y: int := Eval(r.left, env), Eval(r.right, env);
    Residues(a, x + y, w);
    Residues(a, x - y, w);
    if r.left.Constant? {
      if r.op.Add? {
        FoldingAddMeaning(l, r.right, env);
        FoldingAddMeaning(r.left, FoldingAdd(l, r.right), env);
        Residues(x, a + y, w);
        assert x + (a + y) == a + (x + y);
      } else {
        FoldingSubMeaning(l, r.right, env);
        FoldingAddMeaning(r.left, FoldingSub(l, r.right), env);
        Residues(x, a - y, w);
        assert x + (a - y) == a + (x - y);
      }
    } else if r.right.Constant? {
      FoldingAddMeaning(l, r.left, env);
      if r.op.Add? {
        FoldingAddMeaning(r.right, FoldingAdd(l, r.left), env);
        Residues(y, a + x, w);
        assert y + (a + x) == a + (x + y);
      } else {
        NegatedMeaning(r.right, env);
        FoldingAddMeaning(Negated(r.right), FoldingAdd(l, r.left), env);
        Residues(0 - y, a + x, w);
        assert (0 - y) + (a + x) == a + (x - y);
      }
    }
  }

  lemma {:induction false} FoldingSubMeaning(l: Expr, r: Expr, env: Env)
    requires SameWidth(l, r)
    ensures Eval(FoldingSub(l, r), env) == Low(Eval(l, env) - Eval(r, env), Width(l))
    decreases Weight(l) + Weight(r), Weight(l), 2
  {
    hide Low, Eval, FoldBinary, Negated, FoldingAddConstant, FoldingSubConstant, FoldingSubGeneral;
    if l.Constant? && r.Constant? {
      FoldAddMeaning(l, r, env);
    } else if l.Constant? {
      FoldingSubConstantMeaning(l, r, env);
    } else if r.Constant? {
      NegatedMeaning(r, env);
      FoldingAddConstantMeaning(Negated(r), l, env);
      Residues(0 - Eval(r, env), Eval(l, env), Width(l));
    } else {
      FoldingSubGeneralMeaning(l, r, env);
    }
  }

  lemma {:induction false} FoldingSubConstantMeaning(c: Expr, r: Expr, env: Env)
    requires SameWidth(c, r) && c.Constant? && !r.Constant?
    ensures Eval(FoldingSubConstant(c, r), env) == Low(Eval(c, env) - Eval(r, env), Width(r))
    decreases 1 + Weight(r), 1, 1
  {
    hide Low, Eval, WF, Width, Weight, EvalBinary, FoldBinary, FoldingAdd, FoldingSub;
    var k: int, w := Eval(c, env), Width(r);
    EvalSum(c, r, env);
    if IsBinary(r, Add) || IsBinary(r, Sub) {
      SumNode(r, env);
      var x: int, y: int := Eval(r.left, env), Eval(r.right, env);
      Residues(k, x + y, w);
      Residues(k, x - y, w);
      if r.left.Constant? {
        FoldAddMeaning(c, r.left, env);
        Residues(k - x, y, w);
        if r.op.Add? {
          FoldingSubMeaning(FoldBinary(Sub, c, r.left), r.right, env);
        } else {
          FoldingAddMeaning(FoldBinary(Sub, c, r.left), r.right, env);
        }
        assert k - (x + y) == (k - x) - y && k - (x - y) == (k - x) + y;
      } else if r.right.Constant? {
        FoldAddMeaning(c, r.right, env);
        Residues(k + y, x, w);
        Residues(k - y, x, w);
        if r.op.Add? {
          FoldingSubMeaning(FoldBinary(Sub, c, r.right), r.left, env);
        } else {
          FoldingSubMeaning(FoldBinary(Add, c, r.right), r.left, env);
        }
        assert k - (x + y) == (k - y) - x && k - (x - y) == (k + y) - x;
      }
    }
  }

  lemma {:induction false} FoldingSubGeneralMeaning(l: Expr, r: Expr, env: Env)
    requires SameWidth(l, r) && !l.Constant? && !r.Constant?
    ensures Eval(FoldingSubGeneral(l, r), env) == Low(Eval(l, env) - Eval(r, env), Width(l))
    decreases Weight(l) + Weight(r), Weight(l), 1
  {
    hide Low, Eval, WF, Width, Weight, EvalBinary, FoldBinary, FoldingAdd, FoldingSub;
    var a: int, b: int, w := Eval(l, env), Eval(r, env), Width(l);
    EvalSum(l, r, env);
    if IsBinary(l, Add) || IsBinary(l, Sub) {
      SumNode(l, env);
      var x: int, y: int := Eval(l.left, env), Eval(l.right, env);
      if l.op.Add? {
        FoldingSubMeaning(l.right, r, env);
        FoldingAddMeaning(l.left, FoldingSub(l.right, r), env);
        Residues(x, y - b, w);
        Residues(x + y, b, w);
        assert x + (y - b) == (x + y) - b;
      } else {
        FoldingAddMeaning(l.right, r, env);
        FoldingSubMeaning(l.left, FoldingAdd(l.right, r), env);
        Residues(x, y + b, w);
        Residues(x - y, b, w);
        assert x - (y + b) == (x - y) - b;
      }
    } else if IsBinary(r, Add) || IsBinary(r, Sub) {
      FoldingSubRight(l, r, env);
    }
  }

  lemma {:induction false} FoldingSubRight(l: Expr, r: Expr, env: Env)
    requires SameWidth(l, r) && !l.Constant? && !r.Constant?
    requires !IsBinary(l, Add) && !IsBinary(l, Sub) && (IsBinary(r, Add) || IsBinary(r, Sub))
    ensures Eval(FoldingSubGeneral(l, r), env) == Low(Eval(l, env) - Eval(r, env), Width(l))
    decreases Weight(l) + Weight(r), Weight(l), 0
  {
    hide Low, Eval, WF, Width, Weight, EvalBinary, FoldBinary, Negated, FoldingAdd, FoldingSub;
    var a: int, w := Eval(l, env), Width(l);
    EvalSum(l, r, env);
    SumNode(r, env);
    var x: int, y: int := Eval(r.left, env), Eval(r.right, env);
    Residues(a, x + y, w);
    Residues(a, x - y, w);
    if r.left.Constant? {
      NegatedMeaning(r.left, env);
      if r.op.Add? {
        FoldingSubMeaning(l, r.right, env);
        FoldingAddMeaning(Negated(r.left), FoldingSub(l, r.right), env);
        Residues(0 - x, a - y, w);
        assert (0 - x) + (a - y) == a - (x + y);
      } else {
        FoldingAddMeaning(l, r.right, env);
        FoldingAddMeaning(Negated(r.left), FoldingAdd(l, r.right), env);
        Residues(0 - x, a + y, w);
        assert (0 - x) + (a + y) == a - (x - y);
      }
    } else if r.right.Constant? {
      FoldingSubMeaning(l, r.left, env);
      if r.op.Add? {
        NegatedMeaning(r.right, env);
        FoldingAddMeaning(Negated(r.right), FoldingSub(l, r.left), env);
        Residues(0 - y, a - x, w);
        assert (0 - y) + (a - x) == a - (x + y);
      } else {
        FoldingAddMeaning(r.right, FoldingSub(l, r.left), env);
        Residues(y, a - x, w);
        assert y + (a - x) == a - (x - y);
      }
    }
  }
}
