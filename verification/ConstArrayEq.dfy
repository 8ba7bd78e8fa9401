/** The optional rewriting of "constant equals a read of a constant array" into a
    disjunction over the matching positions. */
module ConstArrayEq {
  import opened Bits
  import opened Exprs
  import opened Create
  import opened CreateMeaning
  import opened Logic

  const MaxMatches := 100

  /** How many of the first n cells hold the value. */
  function Matches(a: Array, v: nat, n: nat): nat
    requires n <= |a.constants|
  {
    if n == 0 then 0 else Matches(a, v, n - 1) + if a.constants[n - 1] == v then 1 else 0
  }

  lemma {:induction false} MatchesMono(a: Array, v: nat, n: nat, m: nat)
    requires n <= m <= |a.constants|
    ensures Matches(a, v, n) <= Matches(a, v, m)
    decreases m
  {
    if n < m {
      MatchesMono(a, v, n, m - 1);
    }
  }

  /** Whether the rewriting applies: a constant array without writes and few matches. */
  predicate Applies(cl: Expr, rd: Expr)
    requires cl.Constant? && rd.Read?
  {
    rd.root.IsConstant() && rd.updates.Empty? && Matches(rd.root, cl.value, |rd.root.constants|) <= MaxMatches
  }

  /** `TryConstArrayOpt`. Where it applies, the result asks for an index inside the array
      that holds the value; elsewhere it is the plain equality. */
  method TryConstArrayOpt(cl: Expr, rd: Expr) returns (res: Expr)
    requires cl.Constant? && rd.Read? && WF(cl) && WF(rd) && Width(cl) == Width(rd)
    requires rd.root.size <= Pow2(rd.root.domain)
    ensures IsCondition(res)
    ensures forall env :: Holds(res, env) <==>
      Eval(rd, env) == cl.value && (Applies(cl, rd) ==> Eval(rd.index, env) < rd.root.size)
    ensures !Applies(cl, rd) ==> forall env :: Holds(res, env) <==> Holds(Compare(Eq, cl, rd), env)
    ensures Applies(cl, rd) ==> forall env ::
      (Holds(res, env) <==> Holds(Compare(Eq, cl, rd), env))
        <==> Eval(rd.index, env) < rd.root.size || Eval(rd, env) != cl.value
  {
    hide CreateOr, CreateEq, EqAlloc, Pow2;
    PlainEquality(cl, rd);
    if !rd.root.IsConstant() || !rd.updates.Empty? {
      return EqAlloc(cl, rd);
    }
    var numMatches := 0;
    res := False;
    TrueFalse();
    var constants := rd.root.constants;
    for i := 0 to rd.root.size
      invariant IsCondition(res) && numMatches == Matches(rd.root, cl.value, i) <= MaxMatches
      invariant forall env :: Holds(res, env) <==> Eval(rd.index, env) < i && constants[Eval(rd.index, env)] == cl.value
    {
      if cl == Constant(constants[i], rd.root.range) {
        numMatches := numMatches + 1;
        if numMatches > MaxMatches {
          MatchesMono(rd.root, cl.value, i + 1, |constants|);
          return EqAlloc(cl, rd);
        }
        EqualsConstant(rd.index, i);
        var mayBe := CreateEq(rd.index, Constant(i, Width(rd.index)));
        Disjunction(res, mayBe);
        res := CreateOr(res, mayBe);
      }
    }
    forall env | Eval(rd.index, env) < rd.root.size ensures Eval(rd, env) == constants[Eval(rd.index, env)] {
      ConstantCell(rd, env);
    }
  }

  lemma ConstantCell(rd: Expr, env: Env)
    requires rd.Read? && WF(rd) && rd.updates.Empty? && Eval(rd.index, env) < |rd.root.constants|
    ensures Eval(rd, env) == rd.root.constants[Eval(rd.index, env)]
  {
    LowSmall(rd.root.constants[Eval(rd.index, env)], rd.root.range);
  }

  lemma PlainEquality(cl: Expr, rd: Expr)
    requires cl.Constant? && SameWidth(cl, rd)
    ensures IsCondition(EqAlloc(cl, rd)) && forall env :: Holds(EqAlloc(cl, rd), env) <==> Eval(rd, env) == cl.value
    ensures forall env :: Holds(Compare(Eq, cl, rd), env) <==> Eval(rd, env) == cl.value
  {
    Pow2One();
    forall env
      ensures Holds(EqAlloc(cl, rd), env) <==> Eval(rd, env) == cl.value
      ensures Holds(Compare(Eq, cl, rd), env) <==> Eval(rd, env) == cl.value
    {
      EvalConstant(cl, env);
      EvalCompareNode(Eq, cl, rd, env);
      if cl == rd {
        EvalConstant(True, env);
      }
    }
  }

  /** For a caller: where the constraints keep the index inside the array, the result means
      the equality in each of their models. */
  method EqualInModels(cs: seq<Expr>, cl: Expr, rd: Expr) returns (res: Expr)
    requires cl.Constant? && rd.Read? && WF(cl) && WF(rd) && Width(cl) == Width(rd)
    requires rd.root.size <= Pow2(rd.root.domain)
    ensures IsCondition(res)
    ensures (forall env :: Models(cs, env) ==> Eval(rd.index, env) < rd.root.size) ==>
      forall env :: Models(cs, env) ==> (Holds(res, env) <==> Holds(Compare(Eq, cl, rd), env))
  {
    res := TryConstArrayOpt(cl, rd);
  }

  /** An input on which the rewriting changes the answer: a one-cell array read past its end. */
  method OutsideCounterexample() returns (cl: Expr, rd: Expr, env: Env, res: Expr)
    ensures cl.Constant? && rd.Read? && WF(cl) && WF(rd) && Width(cl) == Width(rd)
    ensures Applies(cl, rd) && rd.root.size <= Pow2(rd.root.domain)
    ensures Holds(Compare(Eq, cl, rd), env) && !Holds(res, env)
  {
    hide Pow2, Low;
    Pow2Values();
    var a := Array("a", 1, 8, 8, [7]);
    var b := Array("b", 1, 8, 8, []);
    cl := Constant(0, 8);
    var index := Read(b, Empty, Constant(0, 8));
    rd := Read(a, Empty, index);
    env := (x, i) => if x == b then 1 else 0;
    LowSmall(1, 8);
    LowSmall(0, 8);
    assert Cell(b, 0, env) == 1 && Cell(a, 1, env) == 0;
    assert Eval(index, env) == 1;
    assert Matches(a, 0, 1) == Matches(a, 0, 0);
    EvalCompareNode(Eq, cl, rd, env);
    res := TryConstArrayOpt(cl, rd);
  }
}
