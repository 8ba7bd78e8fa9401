/** The solver as an oracle over models. A query may time out; an answer that
    does arrive is exact. */
module Solvers {
  import opened Exprs

  datatype Answer<T> = TimedOut | Answer(value: T)

  datatype Validity = Valid | Invalid | Unknown

  datatype Solver = Solver(
    evaluate: (seq<Expr>, Expr) -> Answer<Validity>,
    mayBeTrue: (seq<Expr>, Expr) -> Answer<bool>,
    mustBeTrue: (seq<Expr>, Expr) -> Answer<bool>,
    getValue: (seq<Expr>, Expr) -> Answer<nat>)
  {
    /** No query times out. */
    ghost predicate Prompt() {
      forall cs, e ::
        evaluate(cs, e).Answer? && mayBeTrue(cs, e).Answer? && mustBeTrue(cs, e).Answer? && getValue(cs, e).Answer?
    }

    ghost predicate Exact() {
      && (forall cs, e :: IsCondition(e) && mayBeTrue(cs, e).Answer? ==>
            (mayBeTrue(cs, e).value <==> Possible(cs, e)))
      && (forall cs, e :: IsCondition(e) && mustBeTrue(cs, e).Answer? ==>
            (mustBeTrue(cs, e).value <==> Certain(cs, e)))
      && (forall cs, e :: IsCondition(e) && Satisfiable(cs) && evaluate(cs, e).Answer? ==>
            && (evaluate(cs, e).value == Valid <==> Certain(cs, e))
            && (evaluate(cs, e).value == Invalid <==> !Possible(cs, e)))
      && (forall cs, e :: WF(e) && getValue(cs, e).Answer? && Satisfiable(cs) ==>
            Attained(cs, e, getValue(cs, e).value))
    }
  }

  ghost predicate Possible(cs: seq<Expr>, e: Expr) {
    exists env :: Models(cs, env) && Holds(e, env)
  }

  ghost predicate Certain(cs: seq<Expr>, e: Expr) {
    forall env :: Models(cs, env) ==> Holds(e, env)
  }

  ghost predicate Attained(cs: seq<Expr>, e: Expr, v: nat) {
    exists env :: Models(cs, env) && Eval(e, env) == v
  }
}
