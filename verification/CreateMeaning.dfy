/** Every simplifying constructor returns an expression with the value of the
    plain node under every assignment. */
module CreateMeaning {
  import opened Bits
  import opened Exprs
  import opened Create

  lemma EvalNode(op: BinaryOp, l: Expr, r: Expr, env: Env)
    ensures Eval(Binary(op, l, r), env) == EvalBinary(op, Eval(l, env), Eval(r, env), Width(l))
  {
    hide EvalBinary;
  }

  lemma EvalCompareNode(cmp: CompareOp, l: Expr, r: Expr, env: Env)
    ensures Eval(Compare(cmp, l, r), env) == BoolValue(Relates(cmp, Eval(l, env), Eval(r, env), Width(l)))
  {
    hide Relates;
  }

  lemma EvalGates(l: Expr, r: Expr, env: Env)
    ensures Eval(Binary(And, l, r), env) == Bitwise(AndGate, Eval(l, env), Eval(r, env), Width(l))
    ensures Eval(Binary(Or, l, r), env) == Bitwise(OrGate, Eval(l, env), Eval(r, env), Width(l))
    ensures Eval(Binary(Xor, l, r), env) == Bitwise(XorGate, Eval(l, env), Eval(r, env), Width(l))
  {
    hide Bitwise;
  }

  lemma AndPartialMeaning(l: Expr, cr: Expr, env: Env)
    requires SameWidth(l, cr) && cr.Constant?
    ensures Eval(AndPartial(l, cr), env) == Eval(Binary(And, l, cr), env)
  {
    hide Low, Bitwise, Weight;
    EvalGates(l, cr, env);
    EvalBound(l, env);
    BitwiseZero(Eval(l, env), Width(l));
    BitwiseOnes(Eval(l, env), Width(l));
  }

  lemma AndMeaning(l: Expr, r: Expr, env: Env)
    requires SameWidth(l, r)
    ensures Eval(CreateAnd(l, r), env) == Eval(Binary(And, l, r), env)
  {
    hide Low, Bitwise, Weight;
    var a, b, w := Eval(l, env), Eval(r, env), Width(l);
    EvalGates(l, r, env);
    EvalBound(l, env);
    EvalBound(r, env);
    BitwiseComm(AndGate, a, b, w);
    BitwiseZero(a, w);
    BitwiseZero(b, w);
    BitwiseOnes(a, w);
    BitwiseOnes(b, w);
  }

  lemma OrMeaning(l: Expr, r: Expr, env: Env)
    requires SameWidth(l, r)
    ensures Eval(CreateOr(l, r), env) == Eval(Binary(Or, l, r), env)
  {
    hide Low, Bitwise, Weight;
    var a, b, w := Eval(l, env), Eval(r, env), Width(l);
    EvalGates(l, r, env);
    EvalBound(l, env);
    EvalBound(r, env);
    BitwiseComm(OrGate, a, b, w);
    BitwiseZero(a, w);
    BitwiseZero(b, w);
    BitwiseOnes(a, w);
    BitwiseOnes(b, w);
  }

  /** Conjunction and disjunction of conditions. */
  lemma AndCondition(l: Expr, r: Expr, env: Env)
    requires IsCondition(l) && IsCondition(r)
    ensures Holds(Binary(And, l, r), env) <==> Holds(l, env) && Holds(r, env)
    ensures Holds(CreateAnd(l, r), env) <==> Holds(l, env) && Holds(r, env)
  {
    hide Low, Bitwise, Weight, Eval, WF, CreateAnd, CreateOr;
    EvalGates(l, r, env);
    ConditionValue(l, env);
    ConditionValue(r, env);
    BitwiseBool(AndGate, Eval(l, env), Eval(r, env));
    AndMeaning(l, r, env);
  }

  lemma OrCondition(l: Expr, r: Expr, env: Env)
    requires IsCondition(l) && IsCondition(r)
    ensures Holds(Binary(Or, l, r), env) <==> Holds(l, env) || Holds(r, env)
    ensures Holds(CreateOr(l, r), env) <==> Holds(l, env) || Holds(r, env)
  {
    hide Low, Bitwise, Weight, Eval, WF, CreateAnd, CreateOr;
    EvalGates(l, r, env);
    ConditionValue(l, env);
    ConditionValue(r, env);
    BitwiseBool(OrGate, Eval(l, env), Eval(r, env));
    OrMeaning(l, r, env);
  }

  // ------------------------------------------------------ fields and casts

  lemma {:induction false} ExtractMeaning(x: Expr, off: nat, w: nat, env: Env)
    requires WF(x) && w > 0 && off + w <= Width(x)
    ensures Eval(CreateExtract(x, off, w), env) == Field(Eval(x, env), off, w)
    decreases 2 * Weight(x), 0
  {
    hide Low, Pow2, Field, Join;
    if w == Width(x) {
      EvalBound(x, env);
      FieldWhole(Eval(x, env), w);
    } else if x.Concat? {
      var l, r, rw := x.high, x.low, Width(x.low);
      WidthPositive(r);
      EvalBound(r, env);
      var a, b := Eval(l, env), Eval(r, env);
      if off >= rw {
        ExtractMeaning(l, off - rw, w, env);
        FieldOfJoinHigh(a, b, rw, off, w);
      } else if off + w <= rw {
        ExtractMeaning(r, off, w, env);
        FieldOfJoinLow(a, b, rw, off, w);
      } else {
        ExtractMeaning(l, 0, w - rw + off, env);
        ExtractMeaning(r, off, rw - off, env);
        FieldOfJoinAcross(a, b, rw, off, w);
        ConcatMeaning(CreateExtract(l, 0, w - rw + off), CreateExtract(r, off, rw - off), env);
      }
    }
  }

  lemma {:induction false} ConcatMeaning(l: Expr, r: Expr, env: Env)
    requires WF(l) && WF(r)
    ensures Eval(CreateConcat(l, r), env) == Join(Eval(l, env), Eval(r, env), Width(r))
    decreases Weight(l) + Weight(r), 1
  {
    hide Low, Pow2, Field, Join;
    if l.Extract? && r.Extract? && l.expr == r.expr && r.offset + r.bits == l.offset {
      ExtractMeaning(l.expr, r.offset, l.bits + r.bits, env);
      JoinOfFields(Eval(l.expr, env), r.offset, r.bits, l.bits);
    }
  }

  /** Zero extension keeps the value; at a smaller width it truncates. */
  lemma ZExtMeaning(x: Expr, w: nat, env: Env)
    requires WF(x) && w > 0
    ensures Eval(CreateZExt(x, w), env) == Low(Eval(x, env), w)
    ensures Width(x) <= w ==> Eval(CreateZExt(x, w), env) == Eval(x, env)
  {
    hide Low, Pow2, Shr, Weight, CreateExtract;
    EvalBound(x, env);
    if w < Width(x) {
      ExtractMeaning(x, 0, w, env);
      ShrZero(Eval(x, env));
    } else {
      Pow2Mono(Width(x), w);
      LowSmall(Eval(x, env), w);
    }
  }

  lemma SExtMeaning(x: Expr, w: nat, env: Env)
    requires WF(x) && w > 0
    ensures Eval(CreateSExt(x, w), env) == SignExtend(Eval(x, env), Width(x), w)
  {
    hide Low, Pow2, Shr, Signed, Weight, CreateExtract;
    var a, k := Eval(x, env), Width(x);
    EvalBound(x, env);
    SignedLow(a, k);
    if w < k {
      ExtractMeaning(x, 0, w, env);
      ShrZero(a);
      LowOfLow(Signed(a, k), w, k);
    }
  }

  // ----------------------------------------------------------------- equality

  lemma ConstZExt(c: Expr, k: nat)
    requires c.Constant? && WF(c) && k > 0
    ensures CreateZExt(c, k) == Constant(Low(c.value, k), k)
  {
    hide Low, Pow2, Field, Weight, CreateExtract, CreateZExt;
    var z := CreateZExt(c, k);
    ZExtMeaning(c, k, (a, i) => 0);
    ConstCasts(c, k);
  }

  lemma ConstSExt(c: Expr, k: nat)
    requires c.Constant? && WF(c) && k > 0
    ensures CreateSExt(c, k) == Constant(SignExtend(c.value, c.width, k), k)
  {
    hide Low, Pow2, Field, Weight, CreateExtract, CreateSExt, SignExtend;
    SExtMeaning(c, k, (a, i) => 0);
    ConstCasts(c, k);
  }

  lemma ConstCasts(c: Expr, k: nat)
    requires c.Constant? && WF(c) && k > 0
    ensures CreateZExt(c, k).Constant? && CreateSExt(c, k).Constant?
    ensures Width(CreateZExt(c, k)) == k == Width(CreateSExt(c, k))
  {
    hide Low, Field, SignExtend, Weight;
  }

  /** Comparing a sign extension with a constant is comparing the narrow
      values, unless no narrow value extends to the constant. */
  lemma SignExtendEq(c: nat, a: nat, k: nat, w: nat)
    requires k <= w && c < Pow2(w) && a < Pow2(k)
    ensures SignExtend(a, k, w) == c
       <==> SignExtend(Low(c, k), k, w) == c && a == Low(c, k)
  {
    hide Low, Pow2, SignExtend;
    SignExtendInverse(a, k, w);
  }

  lemma ZeroExtendEq(c: nat, a: nat, k: nat, w: nat)
    requires k <= w && c < Pow2(w) && a < Pow2(k)
    ensures Low(Low(c, k), w) == Low(c, k)
    ensures a == c <==> Low(c, k) == c && a == Low(c, k)
  {
    hide Low, Pow2;
    Pow2Mono(k, w);
    LowSmall(a, k);
    LowSmall(Low(c, k), w);
  }

  lemma EqAllocMeaning(l: Expr, r: Expr, env: Env)
    requires SameWidth(l, r)
    ensures Eval(EqAlloc(l, r), env) == BoolValue(Eval(l, env) == Eval(r, env))
  {
    hide Low, Pow2, EvalBinary, Weight, WF, Width;
  }

  lemma FoldCompareMeaning(cmp: CompareOp, l: Expr, r: Expr, env: Env)
    requires SameWidth(l, r) && l.Constant? && r.Constant?
    ensures Eval(FoldCompare(cmp, l, r), env) == Eval(Compare(cmp, l, r), env)
  {
    hide Low, Pow2, EvalBinary, Weight, Relates;
  }

  lemma {:induction false} EqPartialRMeaning(cl: Expr, r: Expr, env: Env)
    requires SameWidth(cl, r) && cl.Constant?
    ensures Eval(EqPartialR(cl, r), env) == BoolValue(cl.value == Eval(r, env))
    decreases 1 + Weight(r), 1
  {
    hide Low, Pow2, SignExtend, EvalBinary, Relates, Eval, CreateEq, CreateIsZero, CreateZExt, CreateSExt, EqAlloc;
    EqAllocMeaning(cl, r, env);
    EvalConstant(cl, env);
    if cl.width == Bool {
      EqBoolMeaning(cl, r, env);
    } else if r.SExt? || r.ZExt? {
      EqCastMeaning(cl, r, env);
    } else if Headed(r, Add) || Headed(r, Sub) {
      EvalBound(r.right, env);
      EvalConstant(r.left, env);
      EvalSum(r.left, r.right, env);
      FoldSum(cl, r.left);
      FoldSum(r.left, cl);
      LowSolve(cl.value, r.left.value, Eval(r.right, env), cl.width);
      if r.op.Add? {
        EqPartialRMeaning(FoldBinary(Sub, cl, r.left), r.right, env);
      } else {
        EqPartialRMeaning(FoldBinary(Sub, r.left, cl), r.right, env);
      }
    }
  }

  /** Equality of conditions: double negation and De Morgan. */
  lemma {:induction false} EqBoolMeaning(cl: Expr, r: Expr, env: Env)
    requires SameWidth(cl, r) && cl.Constant? && cl.width == Bool
    ensures Eval(EqPartialR(cl, r), env) == BoolValue(cl.value == Eval(r, env))
    decreases 1 + Weight(r), 0
  {
    hide Low, Pow2, EvalBinary, Eval, CreateEq, CreateIsZero, CreateAnd, CreateZExt, CreateSExt, EqAlloc;
    EqAllocMeaning(cl, r, env);
    EvalConstant(cl, env);
    Pow2One();
    ConditionValue(r, env);
    if !IsTrue(cl) {
      if r.Compare? && r.cmp.Eq? && r.left == False {
        ConditionValue(r.right, env);
        EvalEq(r.left, r.right, env);
        EvalConstant(r.left, env);
      } else if r.Binary? && r.op.Or? {
        IsZeroMeaning(r.left, env);
        IsZeroMeaning(r.right, env);
        OrCondition(r.left, r.right, env);
        AndCondition(CreateIsZero(r.left), CreateIsZero(r.right), env);
        ConditionValue(r.left, env);
        ConditionValue(r.right, env);
        ConditionValue(CreateAnd(CreateIsZero(r.left), CreateIsZero(r.right)), env);
      }
    }
  }

  lemma {:induction false} EqCastMeaning(cl: Expr, r: Expr, env: Env)
    requires SameWidth(cl, r) && cl.Constant? && cl.width != Bool && (r.SExt? || r.ZExt?)
    ensures Eval(EqPartialR(cl, r), env) == BoolValue(cl.value == Eval(r, env))
    decreases 1 + Weight(r), 0
  {
    hide Low, Pow2, SignExtend, EvalBinary, CreateEq, CreateIsZero, CreateAnd, CreateZExt, CreateSExt;
    var x, k := r.narrow, Width(r.narrow);
    WidthPositive(x);
    EvalBound(x, env);
    ConstZExt(cl, k);
    var t := CreateZExt(cl, k);
    ConstSExt(t, cl.width);
    ConstZExt(t, cl.width);
    SignExtendEq(cl.value, Eval(x, env), k, cl.width);
    ZeroExtendEq(cl.value, Eval(x, env), k, cl.width);
    EqMeaning(x, t, env);
  }

  lemma {:induction false} EqMeaning(l: Expr, r: Expr, env: Env)
    requires SameWidth(l, r)
    ensures Eval(CreateEq(l, r), env) == BoolValue(Eval(l, env) == Eval(r, env))
    decreases Weight(l) + Weight(r), 2
  {
    hide Low, Pow2, EvalBinary, EqPartialR, Eval, EqAlloc, FoldCompare;
    if l.Constant? && r.Constant? {
      FoldCompareMeaning(Eq, l, r, env);
      EvalEq(l, r, env);
    } else if l.Constant? {
      EvalConstant(l, env);
      EqPartialRMeaning(l, r, env);
    } else if r.Constant? {
      EvalConstant(r, env);
      EqPartialRMeaning(r, l, env);
    } else {
      EqAllocMeaning(l, r, env);
    }
  }

  lemma EvalEq(l: Expr, r: Expr, env: Env)
    ensures Eval(Compare(Eq, l, r), env) == BoolValue(Eval(l, env) == Eval(r, env))
  {
  }

  lemma {:induction false} IsZeroMeaning(x: Expr, env: Env)
    requires WF(x)
    ensures Eval(CreateIsZero(x), env) == BoolValue(Eval(x, env) == 0)
    decreases Weight(x) + 1, 3
  {
    hide Low, Pow2, Field, Shr, Join, Bitwise, Signed, SignExtend;
    WidthPositive(x);
    EqMeaning(x, Zero(Width(x)), env);
  }

  lemma IsZeroCondition(x: Expr, env: Env)
    requires IsCondition(x)
    ensures IsCondition(CreateIsZero(x))
    ensures Holds(CreateIsZero(x), env) <==> !Holds(x, env)
  {
    hide Low, Pow2, Field, Shr, Join, Bitwise, Signed, SignExtend;
    IsZeroMeaning(x, env);
    ConditionValue(x, env);
  }

  // ------------------------------------------------------------ add and sub

  lemma XorPartialRMeaning(cl: Expr, r: Expr, env: Env)
    requires SameWidth(cl, r) && cl.Constant?
    ensures Eval(XorPartialR(cl, r), env) == Bitwise(XorGate, cl.value, Eval(r, env), cl.width)
  {
    hide Low, Bitwise, Weight, EqPartialR;
    var a := Eval(r, env);
    EvalGates(cl, r, env);
    EvalBound(r, env);
    BitwiseComm(XorGate, cl.value, a, cl.width);
    BitwiseZero(a, cl.width);
    if cl.width == Bool && !IsZero(cl) {
      Pow2One();
      BitwiseBool(XorGate, cl.value, a);
      EqPartialRMeaning(Zero(Bool), r, env);
    }
  }

  lemma XorMeaning(l: Expr, r: Expr, env: Env)
    requires SameWidth(l, r)
    ensures Eval(CreateXor(l, r), env) == Eval(Binary(Xor, l, r), env)
  {
    hide Low, Bitwise, Weight, XorPartialR;
    EvalGates(l, r, env);
    BitwiseComm(XorGate, Eval(l, env), Eval(r, env), Width(l));
    if l.Constant? && r.Constant? {
    } else if l.Constant? {
      XorPartialRMeaning(l, r, env);
    } else if r.Constant? {
      XorPartialRMeaning(r, l, env);
    }
  }

  /** At width one, addition and subtraction are exclusive or. */
  lemma BoolSum(a: nat, b: nat)
    requires a < 2 && b < 2
    ensures Low(a + b, 1) == Bitwise(XorGate, a, b, 1) == Low(a - b, 1)
  {
  }

  lemma EvalConstant(c: Expr, env: Env)
    requires c.Constant?
    ensures Eval(c, env) == c.value
  {
  }

  lemma EvalSum(l: Expr, r: Expr, env: Env)
    ensures Eval(Binary(Add, l, r), env) == Low(Eval(l, env) + Eval(r, env), Width(l))
    ensures Eval(Binary(Sub, l, r), env) == Low(Eval(l, env) - Eval(r, env), Width(l))
  {
    hide Low, Pow2;
  }

  lemma FoldSum(l: Expr, r: Expr)
    requires SameWidth(l, r) && l.Constant? && r.Constant?
    ensures FoldBinary(Add, l, r) == Constant(Low(l.value + r.value, l.width), l.width)
    ensures FoldBinary(Sub, l, r) == Constant(Low(l.value - r.value, l.width), l.width)
  {
    hide Low, Pow2;
  }

  lemma ConstSum(l: Expr, r: Expr)
    requires SameWidth(l, r) && l.Constant? && r.Constant?
    ensures CreateAdd(l, r) == FoldBinary(Add, l, r)
    ensures CreateSub(l, r) == FoldBinary(Sub, l, r)
  {
    hide Low, Pow2, AddPartialR, SubPartialR, AddGeneral, SubGeneral;
  }

  lemma {:induction false} AddMeaning(l: Expr, r: Expr, env: Env)
    requires SameWidth(l, r)
    ensures Eval(CreateAdd(l, r), env) == Low(Eval(l, env) + Eval(r, env), Width(l))
    decreases Weight(l) + Weight(r), Rank(l, r), 2
  {
    hide Low, Pow2, EvalBinary, Relates, Bitwise, AddPartialR, SubPartialR, AddGeneral, SubGeneral;
    if l.Constant? && r.Constant? {
      FoldSum(l, r);
    } else if l.Constant? {
      AddPartialRMeaning(l, r, env);
    } else if r.Constant? {
      AddPartialRMeaning(r, l, env);
    } else {
      AddGeneralMeaning(l, r, env);
    }
  }

  lemma {:induction false} AddPartialRMeaning(cl: Expr, r: Expr, env: Env)
    requires SameWidth(cl, r) && cl.Constant?
    ensures Eval(AddPartialR(cl, r), env) == Low(cl.value + Eval(r, env), cl.width)
    decreases 1 + Weight(r), 0, 0
  {
    hide Low, Pow2, EvalBinary, Relates, Bitwise, Eval, CreateAdd, CreateSub, AddGeneral, SubGeneral, XorPartialR;
    EvalBound(r, env);
    EvalSum(cl, r, env);
    EvalConstant(cl, env);
    var w := cl.width;
    if w == Bool {
      Pow2One();
      BoolSum(cl.value, Eval(r, env));
      XorPartialRMeaning(cl, r, env);
    } else if IsZero(cl) {
      LowSmall(Eval(r, env), w);
    } else if Headed(r, Add) || Headed(r, Sub) {
      var k, x := r.left, r.right;
      EvalSum(k, x, env);
      ConstSum(cl, k);
      EvalConstant(k, env);
      var s := CreateAdd(cl, k);
      AddMeaning(cl, k, env);
      var c, b := cl.value + k.value, Eval(x, env);
      LowSum(c, b, w);
      LowSum(cl.value, k.value + b, w);
      LowSum(cl.value, k.value - b, w);
      if r.op.Add? {
        AddMeaning(s, x, env);
        assert cl.value + (k.value + b) == c + b;
      } else {
        SubMeaning(s, x, env);
        assert cl.value + (k.value - b) == c - b;
      }
    }
  }

  lemma {:induction false} AddGeneralMeaning(l: Expr, r: Expr, env: Env)
    requires SameWidth(l, r) && !l.Constant? && !r.Constant?
    ensures Eval(AddGeneral(l, r), env) == Low(Eval(l, env) + Eval(r, env), Width(l))
    decreases Weight(l) + Weight(r), 2, 1
  {
    hide Low, Pow2, EvalBinary, Relates, Bitwise, Eval, CreateAdd, CreateSub, AddPartialR, SubPartialR;
    var w := Width(l);
    var a, b := Eval(l, env), Eval(r, env);
    EvalSum(l, r, env);
    EvalBound(l, env);
    EvalBound(r, env);
    if w == Bool {
      Pow2One();
      EvalGates(l, r, env);
      BoolSum(a, b);
    } else if Headed(l, Add) || Headed(l, Sub) {
      AddHeadedLeft(l, r, env);
    } else if Headed(r, Add) || Headed(r, Sub) {
      AddHeadedRight(l, r, env);
    }
  }

  lemma {:induction false} AddHeadedLeft(l: Expr, r: Expr, env: Env)
    requires SameWidth(l, r) && !l.Constant? && !r.Constant? && Width(l) != Bool
    requires Headed(l, Add) || Headed(l, Sub)
    ensures Eval(AddGeneral(l, r), env) == Low(Eval(l, env) + Eval(r, env), Width(l))
    decreases Weight(l) + Weight(r), 2, 0
  {
    hide Low, Pow2, EvalBinary, Relates, Bitwise, Eval, CreateAdd, CreateSub, AddPartialR, SubPartialR;
    var w := Width(l);
    var a, b := Eval(l, env), Eval(r, env);
    var k, x := l.left, l.right;
    EvalSum(k, x, env);
    EvalConstant(k, env);
    RotateLeft(k.value, Eval(x, env), b, w);
    if l.op.Add? {
      AddMeaning(x, r, env);
      AddMeaning(k, CreateAdd(x, r), env);
    } else {
      SubMeaning(r, x, env);
      AddMeaning(k, CreateSub(r, x), env);
    }
  }

  lemma {:induction false} AddHeadedRight(l: Expr, r: Expr, env: Env)
    requires SameWidth(l, r) && !l.Constant? && !r.Constant? && Width(l) != Bool
    requires !Headed(l, Add) && !Headed(l, Sub) && (Headed(r, Add) || Headed(r, Sub))
    ensures Eval(AddGeneral(l, r), env) == Low(Eval(l, env) + Eval(r, env), Width(l))
    decreases Weight(l) + Weight(r), 2, 0
  {
    hide Low, Pow2, EvalBinary, Relates, Bitwise, Eval, CreateAdd, CreateSub, AddPartialR, SubPartialR;
    var w := Width(l);
    var a, b := Eval(l, env), Eval(r, env);
    var k, x := r.left, r.right;
    EvalSum(k, x, env);
    EvalConstant(k, env);
    RotateRight(a, k.value, Eval(x, env), w);
    if r.op.Add? {
      AddMeaning(l, x, env);
      AddMeaning(k, CreateAdd(l, x), env);
    } else {
      SubMeaning(l, x, env);
      AddMeaning(k, CreateSub(l, x), env);
    }
  }

  lemma {:induction false} SubMeaning(l: Expr, r: Expr, env: Env)
    requires SameWidth(l, r)
    ensures Eval(CreateSub(l, r), env) == Low(Eval(l, env) - Eval(r, env), Width(l))
    decreases Weight(l) + Weight(r), Rank(l, r), 2
  {
    hide Low, Pow2, EvalBinary, Relates, Bitwise, AddPartialR, SubPartialR, AddGeneral, SubGeneral;
    WidthPositive(l);
    if l.Constant? && r.Constant? {
      FoldSum(l, r);
    } else if l.Constant? {
      SubPartialRMeaning(l, r, env);
    } else if r.Constant? {
      var neg := FoldBinary(Sub, Zero(r.width), r);
      FoldSum(Zero(r.width), r);
      AddPartialRMeaning(neg, l, env);
      LowSum(0 - r.value, Eval(l, env), r.width);
    } else {
      SubGeneralMeaning(l, r, env);
    }
  }

  lemma {:induction false} SubPartialRMeaning(cl: Expr, r: Expr, env: Env)
    requires SameWidth(cl, r) && cl.Constant?
    ensures Eval(SubPartialR(cl, r), env) == Low(cl.value - Eval(r, env), cl.width)
    decreases 1 + Weight(r), 0, 0
  {
    hide Low, Pow2, EvalBinary, Relates, Bitwise, Eval, CreateAdd, CreateSub, AddGeneral, SubGeneral, XorPartialR;
    EvalBound(r, env);
    EvalSum(cl, r, env);
    EvalConstant(cl, env);
    var w := cl.width;
    if w == Bool {
      Pow2One();
      BoolSum(cl.value, Eval(r, env));
      XorPartialRMeaning(cl, r, env);
    } else if Headed(r, Add) || Headed(r, Sub) {
      var k, x := r.left, r.right;
      EvalSum(k, x, env);
      ConstSum(cl, k);
      EvalConstant(k, env);
      var s := CreateSub(cl, k);
      SubMeaning(cl, k, env);
      var c: int, b := cl.value - k.value, Eval(x, env);
      LowSum(c, b, w);
      LowSum(cl.value, k.value + b, w);
      LowSum(cl.value, k.value - b, w);
      if r.op.Add? {
        SubMeaning(s, x, env);
        assert cl.value - (k.value + b) == c - b;
      } else {
        AddMeaning(s, x, env);
        assert cl.value - (k.value - b) == c + b;
      }
    }
  }

  lemma {:induction false} SubGeneralMeaning(l: Expr, r: Expr, env: Env)
    requires SameWidth(l, r) && !l.Constant? && !r.Constant?
    ensures Eval(SubGeneral(l, r), env) == Low(Eval(l, env) - Eval(r, env), Width(l))
    decreases Weight(l) + Weight(r), 2, 1
  {
    hide Low, Pow2, EvalBinary, Relates, Bitwise, Eval, CreateAdd, CreateSub, AddPartialR, SubPartialR;
    var w := Width(l);
    var a, b := Eval(l, env), Eval(r, env);
    EvalSum(l, r, env);
    EvalBound(l, env);
    EvalBound(r, env);
    if w == Bool {
      Pow2One();
      EvalGates(l, r, env);
      BoolSum(a, b);
    } else if l == r {
      LowSmall(0, w);
      WidthPositive(l);
      EvalConstant(Zero(w), env);
    } else if Headed(l, Add) || Headed(l, Sub) {
      SubHeadedLeft(l, r, env);
    } else if Headed(r, Add) || Headed(r, Sub) {
      SubHeadedRight(l, r, env);
    }
  }

  lemma {:induction false} SubHeadedLeft(l: Expr, r: Expr, env: Env)
    requires SameWidth(l, r) && !l.Constant? && !r.Constant? && Width(l) != Bool && l != r
    requires Headed(l, Add) || Headed(l, Sub)
    ensures Eval(SubGeneral(l, r), env) == Low(Eval(l, env) - Eval(r, env), Width(l))
    decreases Weight(l) + Weight(r), 2, 0
  {
    hide Low, Pow2, EvalBinary, Relates, Bitwise, Eval, CreateAdd, CreateSub, AddPartialR, SubPartialR;
    var w := Width(l);
    var a, b := Eval(l, env), Eval(r, env);
    var k, x := l.left, l.right;
    EvalSum(k, x, env);
    EvalConstant(k, env);
    RotateLeft(k.value, Eval(x, env), b, w);
    if l.op.Add? {
      SubMeaning(x, r, env);
      AddMeaning(k, CreateSub(x, r), env);
    } else {
      AddMeaning(x, r, env);
      SubMeaning(k, CreateAdd(x, r), env);
    }
  }

  lemma {:induction false} SubHeadedRight(l: Expr, r: Expr, env: Env)
    requires SameWidth(l, r) && !l.Constant? && !r.Constant? && Width(l) != Bool && l != r
    requires !Headed(l, Add) && !Headed(l, Sub) && (Headed(r, Add) || Headed(r, Sub))
    ensures Eval(SubGeneral(l, r), env) == Low(Eval(l, env) - Eval(r, env), Width(l))
    decreases Weight(l) + Weight(r), 2, 0
  {
    hide Low, Pow2, EvalBinary, Relates, Bitwise, Eval, CreateAdd, CreateSub, AddPartialR, SubPartialR;
    var w := Width(l);
    var a, b := Eval(l, env), Eval(r, env);
    var k, x := r.left, r.right;
    EvalSum(k, x, env);
    EvalConstant(k, env);
    RotateRight(a, k.value, Eval(x, env), w);
    if r.op.Add? {
      SubMeaning(l, x, env);
      SubMeaning(CreateSub(l, x), k, env);
    } else {
      AddMeaning(l, x, env);
      SubMeaning(CreateAdd(l, x), k, env);
    }
  }

  /** The regroupings used when the left operand carries a constant. */
  lemma RotateLeft(k: int, x: int, b: int, w: nat)
    ensures Low(k + Low(x + b, w), w) == Low(Low(k + x, w) + b, w)
    ensures Low(k + Low(b - x, w), w) == Low(Low(k - x, w) + b, w)
    ensures Low(k + Low(x - b, w), w) == Low(Low(k + x, w) - b, w)
    ensures Low(k - Low(x + b, w), w) == Low(Low(k - x, w) - b, w)
  {
    hide Low, Pow2, Field, Shr, Join, Bitwise, Signed, SignExtend;
    LowSum(k, x + b, w);
    LowSum(k, b - x, w);
    LowSum(k, x - b, w);
    LowSum(k + x, b, w);
    LowSum(k - x, b, w);
    assert k + (x + b) == k + x + b && k + (b - x) == k - x + b;
    assert k + (x - b) == k + x - b && k - (x + b) == k - x - b;
  }

  /** The regroupings used when the right operand carries a constant. */
  lemma RotateRight(a: int, k: int, x: int, w: nat)
    ensures Low(k + Low(a + x, w), w) == Low(a + Low(k + x, w), w)
    ensures Low(k + Low(a - x, w), w) == Low(a + Low(k - x, w), w)
    ensures Low(Low(a - x, w) - k, w) == Low(a - Low(k + x, w), w)
    ensures Low(Low(a + x, w) - k, w) == Low(a - Low(k - x, w), w)
  {
    hide Low, Pow2, Field, Shr, Join, Bitwise, Signed, SignExtend;
    LowSum(k, a + x, w);
    LowSum(k, a - x, w);
    LowSum(a, k + x, w);
    LowSum(a, k - x, w);
    LowSum(a - x, k, w);
    LowSum(a + x, k, w);
    assert k + (a + x) == a + (k + x) && k + (a - x) == a + (k - x);
    assert a - x - k == a - (k + x) && a + x - k == a - (k - x);
  }

  lemma MulMeaning(l: Expr, r: Expr, env: Env)
    requires SameWidth(l, r)
    ensures Eval(CreateMul(l, r), env) == Low(Eval(l, env) * Eval(r, env), Width(l))
  {
    hide Low, Bitwise, Weight, WF, Pow2, Eval, EvalBinary, MulPartialR, FoldBinary;
    EvalNode(Mul, l, r, env);
    MulNode(Eval(l, env), Eval(r, env), Width(l));
    if l.Constant? && r.Constant? {
      FoldMeaning(Mul, l, r, env);
    } else if l.Constant? {
      EvalConstant(l, env);
      MulPartialRMeaning(l, r, env);
    } else if r.Constant? {
      EvalConstant(r, env);
      MulPartialRMeaning(r, l, env);
    } else if Width(l) == Bool {
      ConditionValue(l, env);
      ConditionValue(r, env);
      EvalGates(l, r, env);
      BoolProduct(Eval(l, env), Eval(r, env));
    }
  }

  lemma MulNode(a: nat, b: nat, w: nat)
    ensures EvalBinary(Mul, a, b, w) == Low(a * b, w) == Low(b * a, w)
  {
  }

  lemma BoolProduct(a: nat, b: nat)
    requires a < 2 && b < 2
    ensures Low(a * b, 1) == Bitwise(AndGate, a, b, 1)
  {
  }

  lemma FoldMeaning(op: BinaryOp, l: Expr, r: Expr, env: Env)
    requires SameWidth(l, r) && l.Constant? && r.Constant?
    ensures Eval(FoldBinary(op, l, r), env) == Eval(Binary(op, l, r), env)
  {
    hide EvalBinary, Pow2;
  }

  lemma MulPartialRMeaning(cl: Expr, r: Expr, env: Env)
    requires SameWidth(cl, r) && cl.Constant?
    ensures Eval(MulPartialR(cl, r), env) == Low(cl.value * Eval(r, env), cl.width)
  {
    hide Low, Bitwise, Weight, WF, Eval, EvalBinary, AndPartial, CreateAnd;
    var b, w := Eval(r, env), cl.width;
    EvalBound(r, env);
    EvalConstant(cl, env);
    EvalNode(Mul, cl, r, env);
    MulNode(cl.value, b, w);
    LowSmall(b, w);
    LowSmall(0, w);
    if w == Bool {
      EvalBound(cl, env);
      Pow2One();
      EvalGates(r, cl, env);
      AndPartialMeaning(r, cl, env);
      BoolProduct(b, cl.value);
    }
  }

  /** At width one the quotient is the dividend and the remainder zero. The
      constructors rely on a non-zero divisor there, and exactly then, or when
      the SMT-LIB value of a division by zero happens to agree, are they right. */
  lemma DivisionMeaning(op: BinaryOp, l: Expr, r: Expr, env: Env)
    requires SameWidth(l, r) && WideOnly(op) && !op.AShr?
    ensures Width(l) > Bool || (l.Constant? && r.Constant?) ==>
              Eval(CreateDivision(op, l, r), env) == Eval(Binary(op, l, r), env)
    ensures Width(l) == Bool && !(l.Constant? && r.Constant?) ==>
              (Eval(CreateDivision(op, l, r), env) == Eval(Binary(op, l, r), env)
               <==> Eval(r, env) == 1 || (if op.UDiv? || op.SDiv? then Eval(l, env) == 1 else Eval(l, env) == 0))
  {
    hide WF, Weight, Eval, EvalBinary, FoldBinary;
    EvalNode(op, l, r, env);
    if l.Constant? && r.Constant? {
      FoldMeaning(op, l, r, env);
    }
    WidthPositive(l);
    EvalConstant(Zero(Bool), env);
    if Width(l) == Bool {
      EvalBound(l, env);
      EvalBound(r, env);
      Pow2One();
      BoolDivision(op, Eval(l, env), Eval(r, env));
    }
  }

  /** Two Boolean reads and an assignment that divides by zero: the quotient constructor
      returns the dividend. Only the division checks inserted into the program keep such
      inputs away. */
  lemma DivisionCounterexample() returns (l: Expr, r: Expr, env: Env)
    ensures SameWidth(l, r) && Eval(r, env) == 0
    ensures Eval(CreateDivision(UDiv, l, r), env) != Eval(Binary(UDiv, l, r), env)
  {
    l, r, env := BoolReads(0, 0);
    DivisionMeaning(UDiv, l, r, env);
  }

  /** Two reads of width one with any given values. */
  lemma BoolReads(a: nat, b: nat) returns (l: Expr, r: Expr, env: Env)
    requires a < 2 && b < 2
    ensures SameWidth(l, r) && Width(l) == Bool && l.Read? && r.Read?
    ensures Eval(l, env) == a && Eval(r, env) == b
  {
    hide Pow2;
    Pow2One();
    Pow2Values();
    var x, y := Array("x", 1, 8, Bool, []), Array("y", 1, 8, Bool, []);
    l, r := Read(x, Empty, Constant(0, 8)), Read(y, Empty, Constant(0, 8));
    env := (c, i) => if c == x then a else b;
    LowSmall(a, Bool);
    LowSmall(b, Bool);
    assert x != y;
    assert Cell(x, 0, env) == a && Cell(y, 0, env) == b;
  }

  lemma BoolDivision(op: BinaryOp, a: nat, b: nat)
    requires a < 2 && b < 2
    ensures op.UDiv? || op.SDiv? ==> (EvalBinary(op, a, b, 1) == a <==> b == 1 || a == 1)
    ensures op.URem? || op.SRem? ==> (EvalBinary(op, a, b, 1) == 0 <==> b == 1 || a == 0)
  {
    Pow2One();
    assert Signed(a, 1) == 0 - a && Signed(b, 1) == 0 - b;
  }

  /** Shifts. An arithmetic shift of a Boolean by its width should give zero
      but the constructor returns the operand. */
  lemma ShiftMeaning(op: BinaryOp, l: Expr, r: Expr, env: Env)
    requires SameWidth(l, r) && (op.Shl? || op.LShr? || op.AShr?)
    ensures !op.AShr? || Width(l) > Bool || (l.Constant? && r.Constant?) ==>
              Eval(CreateShift(op, l, r), env) == Eval(Binary(op, l, r), env)
    ensures op.AShr? && Width(l) == Bool && !(l.Constant? && r.Constant?) ==>
              (Eval(CreateShift(op, l, r), env) == Eval(Binary(op, l, r), env)
               <==> Eval(r, env) < Width(l) || Eval(l, env) == 0)
  {
    hide WF, Weight, CreateAnd, CreateIsZero, Eval, EvalBinary, FoldBinary;
    EvalNode(op, l, r, env);
    if l.Constant? && r.Constant? {
      FoldMeaning(op, l, r, env);
    }
    WidthPositive(l);
    if Width(l) == Bool {
      EvalBound(l, env);
      EvalBound(r, env);
      Pow2One();
      BoolShift(op, Eval(l, env), Eval(r, env));
      IsZeroCondition(r, env);
      AndCondition(l, CreateIsZero(r), env);
      ConditionValue(CreateAnd(l, CreateIsZero(r)), env);
    }
  }

  /** Shifting true by its whole width: the constructor returns true. Only the overshift
      checks inserted into the program keep such inputs away. */
  lemma ShiftCounterexample() returns (l: Expr, r: Expr, env: Env)
    ensures SameWidth(l, r) && Eval(r, env) >= Width(l)
    ensures Eval(CreateShift(AShr, l, r), env) != Eval(Binary(AShr, l, r), env)
  {
    l, r, env := BoolReads(1, 1);
    ShiftMeaning(AShr, l, r, env);
  }

  lemma BoolShift(op: BinaryOp, a: nat, b: nat)
    requires a < 2 && b < 2
    ensures op.Shl? || op.LShr? ==> EvalBinary(op, a, b, 1) == BoolValue(a == 1 && b == 0)
    ensures op.AShr? ==> EvalBinary(op, a, b, 1) == (if b == 0 then a else 0)
  {
    Pow2One();
    assert Pow2(0) == 1;
    assert Signed(a, 1) == 0 - a;
    ShrZero(a);
  }

  lemma BoolOrder(a: nat, b: nat)
    requires a < 2 && b < 2
    ensures Relates(Ult, a, b, 1) == (a == 0 && b == 1)
    ensures Relates(Ule, a, b, 1) == (a == 0 || b == 1)
    ensures Relates(Slt, a, b, 1) == (a == 1 && b == 0)
    ensures Relates(Sle, a, b, 1) == (a == 1 || b == 0)
  {
  }

  lemma OrderMeaning(cmp: CompareOp, l: Expr, r: Expr, env: Env)
    requires SameWidth(l, r) && (cmp.Ult? || cmp.Ule? || cmp.Slt? || cmp.Sle?)
    ensures Eval(CreateOrder(cmp, l, r), env) == Eval(Compare(cmp, l, r), env)
  {
    hide WF, Weight, CreateAnd, CreateOr, CreateIsZero, FoldCompare, Relates;
    if l.Constant? && r.Constant? {
      FoldCompareMeaning(cmp, l, r, env);
    } else if Width(l) == Bool {
      ConditionValue(l, env);
      ConditionValue(r, env);
      BoolOrder(Eval(l, env), Eval(r, env));
      IsZeroCondition(l, env);
      IsZeroCondition(r, env);
      if cmp.Ult? {
        AndCondition(CreateIsZero(l), r, env);
      } else if cmp.Ule? {
        OrCondition(CreateIsZero(l), r, env);
      } else if cmp.Slt? {
        AndCondition(l, CreateIsZero(r), env);
      } else {
        OrCondition(l, CreateIsZero(r), env);
      }
      ConditionValue(CreateOrder(cmp, l, r), env);
    }
  }

  lemma CompareMeaning(cmp: CompareOp, l: Expr, r: Expr, env: Env)
    requires SameWidth(l, r)
    ensures Eval(CreateCompare(cmp, l, r), env) == Eval(Compare(cmp, l, r), env)
  {
    hide WF, Weight, CreateEq, CreateOrder, Eval;
    EvalCompareNode(cmp, l, r, env);
    EvalCompareNode(Ult, r, l, env);
    EvalCompareNode(Ule, r, l, env);
    EvalCompareNode(Slt, r, l, env);
    EvalCompareNode(Sle, r, l, env);
    EvalConstant(Zero(Bool), env);
    match cmp
    case Eq => EqMeaning(l, r, env);
    case Ne =>
      EqMeaning(l, r, env);
      EqMeaning(Zero(Bool), CreateEq(l, r), env);
    case Ugt => OrderMeaning(Ult, r, l, env);
    case Uge => OrderMeaning(Ule, r, l, env);
    case Sgt => OrderMeaning(Slt, r, l, env);
    case Sge => OrderMeaning(Sle, r, l, env);
    case _ => OrderMeaning(cmp, l, r, env);
  }

  lemma SelectMeaning(c: Expr, t: Expr, f: Expr, env: Env)
    requires WF(c) && Width(c) == Bool && SameWidth(t, f)
    ensures Eval(CreateSelect(c, t, f), env) == Eval(Select(c, t, f), env)
  {
    hide Weight, CreateAnd, CreateOr, CreateIsZero, EvalBinary, Relates, Bitwise, Low;
    Pow2One();
    ConditionValue(c, env);
    if !c.Constant? && t != f && Width(t) == Bool && (t.Constant? || f.Constant?) {
      ConditionValue(t, env);
      ConditionValue(f, env);
      IsZeroCondition(c, env);
      OrCondition(c, f, env);
      AndCondition(CreateIsZero(c), f, env);
      OrCondition(CreateIsZero(c), t, env);
      AndCondition(c, t, env);
      ConditionValue(CreateSelect(c, t, f), env);
    }
  }

  /** Rolling a read back through the log does not change what it reads. */
  lemma {:induction false} RollBackMeaning(u: Updates, a: Array, index: Expr, env: Env)
    requires a.Valid() && WFUpdates(u, a) && WF(index) && Width(index) == a.domain
    ensures EvalRead(a, u, Eval(index, env), env)
         == if RollBack(u, a, index).Found? then Eval(RollBack(u, a, index).value, env)
            else EvalRead(a, Remaining(RollBack(u, a, index)), Eval(index, env), env)
    decreases u
  {
    hide Weight, CreateEq, Eval, WF;
    match u
    case Empty =>
    case Update(i, v, next) =>
      UpdateParts(u, a);
      EqMeaning(index, i, env);
      var cond := CreateEq(index, i);
      if cond.Constant? {
        EvalConstant(cond, env);
        if !IsTrue(cond) {
          ConditionConstant(cond);
          RollBackMeaning(next, a, index, env);
        }
      }
  }

  lemma UpdateParts(u: Updates, a: Array)
    requires u.Update? && WFUpdates(u, a)
    ensures WF(u.index) && WF(u.value) && WFUpdates(u.next, a)
    ensures Width(u.index) == a.domain && Width(u.value) == a.range
  {
  }

  lemma ConditionConstant(e: Expr)
    requires IsCondition(e) && e.Constant?
    ensures e == True || e == False
  {
  }

  lemma ReadMeaning(a: Array, u: Updates, index: Expr, env: Env)
    requires a.Valid() && WFUpdates(u, a) && WF(index) && Width(index) == a.domain
    ensures Eval(CreateRead(a, u, index), env) == Eval(Read(a, u, index), env)
  {
    hide Weight, Low, RollBack, WF, WFUpdates;
    RollBackMeaning(u, a, index, env);
    if index.Constant? && index.value < |a.constants| {
      LowSmall(a.constants[index.value], a.range);
    }
  }
}
