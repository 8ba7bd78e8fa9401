/** Conditions built by the constructors: what the connectives and a comparison with a
    constant mean under every assignment. */
module Logic {
  import opened Bits
  import opened Exprs
  import opened Create
  import opened CreateMeaning

  lemma TrueFalse()
    ensures IsCondition(True) && IsCondition(False)
    ensures forall env :: Holds(True, env) && !Holds(False, env)
  {
  }

  lemma Negation(e: Expr)
    requires IsCondition(e)
    ensures IsCondition(CreateIsZero(e))
    ensures forall env :: Holds(CreateIsZero(e), env) <==> !Holds(e, env)
  {
    hide CreateIsZero;
    forall env ensures Holds(CreateIsZero(e), env) <==> !Holds(e, env) {
      IsZeroCondition(e, env);
    }
  }

  lemma Conjunction(a: Expr, b: Expr)
    requires IsCondition(a) && IsCondition(b)
    ensures IsCondition(CreateAnd(a, b))
    ensures forall env :: Holds(CreateAnd(a, b), env) <==> Holds(a, env) && Holds(b, env)
  {
    hide CreateAnd;
    forall env ensures Holds(CreateAnd(a, b), env) <==> Holds(a, env) && Holds(b, env) {
      AndCondition(a, b, env);
    }
  }

  lemma Disjunction(a: Expr, b: Expr)
    requires IsCondition(a) && IsCondition(b)
    ensures IsCondition(CreateOr(a, b))
    ensures forall env :: Holds(CreateOr(a, b), env) <==> Holds(a, env) || Holds(b, env)
  {
    hide CreateOr;
    forall env ensures Holds(CreateOr(a, b), env) <==> Holds(a, env) || Holds(b, env) {
      OrCondition(a, b, env);
    }
  }

  /** Comparing an expression with a constant of its width. */
  lemma EqualsConstant(e: Expr, v: nat)
    requires WF(e) && v < Pow2(Width(e))
    ensures WF(Constant(v, Width(e))) && Width(Constant(v, Width(e))) == Width(e)
    ensures IsCondition(CreateEq(e, Constant(v, Width(e))))
    ensures forall env :: Holds(CreateEq(e, Constant(v, Width(e))), env) <==> Eval(e, env) == v
  {
    hide CreateEq;
    WidthPositive(e);
    forall env ensures Holds(CreateEq(e, Constant(v, Width(e))), env) <==> Eval(e, env) == v {
      EqMeaning(e, Constant(v, Width(e)), env);
    }
  }
}
