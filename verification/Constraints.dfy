/** The constraint set of a path. Adding a condition simplifies it under the
    known equalities, splits conjunctions, and rewrites the constraints already
    there when the condition fixes an expression to a constant. */
module Constraints {
  import opened Bits
  import opened Exprs
  import opened Create
  import opened CreateMeaning
  import opened Visitors

  function TotalWeight(cs: seq<Expr>): nat {
    if cs == [] then 0 else TotalWeight(cs[..|cs| - 1]) + Weight(cs[|cs| - 1])
  }

  lemma TotalWeightPush(cs: seq<Expr>, e: Expr)
    ensures TotalWeight(cs + [e]) == TotalWeight(cs) + Weight(e)
  {
  }

  lemma {:induction false} TotalWeightPrefix(cs: seq<Expr>, n: nat)
    requires n <= |cs|
    ensures TotalWeight(cs[..n]) <= TotalWeight(cs)
    decreases |cs|
  {
    if n == |cs| {
      assert cs[..n] == cs;
    } else {
      TotalWeightPrefix(cs[..|cs| - 1], n);
      assert cs[..|cs| - 1][..n] == cs[..n];
    }
  }

  lemma ModelsPush(cs: seq<Expr>, e: Expr, env: Env)
    ensures Models(cs + [e], env) <==> Models(cs, env) && Holds(e, env)
  {
    if Models(cs + [e], env) {
      assert (cs + [e])[|cs|] == e;
      forall i | 0 <= i < |cs| ensures Holds(cs[i], env) {
        assert (cs + [e])[i] == cs[i];
      }
    }
  }

  lemma ModelsPrefix(cs: seq<Expr>, n: nat, env: Env)
    requires n <= |cs| && Models(cs, env)
    ensures Models(cs[..n], env)
  {
  }

  /** The two conjuncts of a conjunction hold exactly when it does. */
  lemma SplitConjunction(e: Expr, env: Env)
    requires IsCondition(e) && e.Binary? && e.op.And?
    ensures IsCondition(e.left) && IsCondition(e.right)
    ensures Weight(e) == 1 + Weight(e.left) + Weight(e.right)
    ensures Holds(e, env) <==> Holds(e.left, env) && Holds(e.right, env)
  {
    AndCondition(e.left, e.right, env);
  }

  /** An equality with a constant makes the matching replacement sound. */
  lemma EqualityIsSound(e: Expr, env: Env)
    requires IsCondition(e) && e.Compare? && e.cmp.Eq? && e.left.Constant?
    ensures ReplaceVisitor(e.right, e.left).Valid()
    ensures ReplaceVisitor(e.right, e.left).Sound(env) <==> Holds(e, env)
  {
    hide Pow2;
    var v := ReplaceVisitor(e.right, e.left);
    assert e.right in v.replacements;
  }

  /** What a constraint teaches: an equality with a constant fixes the other
      side, anything else is itself true. */
  function Lesson(c: Expr): (p: (Expr, Expr))
    requires IsCondition(c)
    ensures p.1.Constant? && WF(p.1) && Width(p.0) == Width(p.1)
    ensures p == (c, True) || c == Compare(Eq, p.1, p.0)
    ensures c.Compare? && c.cmp.Eq? && c.left.Constant? ==> p == (c.right, c.left)
  {
    Pow2One();
    if c.Compare? && c.cmp.Eq? && c.left.Constant? then (c.right, c.left) else (c, True)
  }

  lemma LessonSound(c: Expr, env: Env)
    requires IsCondition(c) && Holds(c, env)
    ensures Eval(Lesson(c).0, env) == Eval(Lesson(c).1, env)
  {
    hide Pow2;
  }

  /** What a list of constraints teaches; the first lesson about an expression counts. */
  ghost function Lessons(cs: seq<Expr>): map<Expr, Expr>
    requires Conditions(cs)
  {
    if cs == [] then map[]
    else
      var m, c := Lessons(cs[..|cs| - 1]), cs[|cs| - 1];
      if Lesson(c).0 in m then m else m[Lesson(c).0 := Lesson(c).1]
  }

  /** Every constraint teaches something, nothing else does, and the first lesson counts. */
  lemma {:induction false} TaughtBy(cs: seq<Expr>, x: Expr)
    requires Conditions(cs)
    ensures x in Lessons(cs) <==> exists i :: 0 <= i < |cs| && Lesson(cs[i]).0 == x
    ensures x in Lessons(cs) ==> exists i ::
      0 <= i < |cs| && Lesson(cs[i]) == (x, Lessons(cs)[x]) && forall j :: 0 <= j < i ==> Lesson(cs[j]).0 != x
    decreases |cs|
  {
    hide Lesson, IsCondition;
    if cs != [] {
      var n := |cs| - 1;
      TaughtBy(cs[..n], x);
      assert forall i :: 0 <= i < n ==> cs[..n][i] == cs[i];
    }
  }

  /** No part of the expression is fixed by a constraint. */
  ghost predicate Free(cs: seq<Expr>, e: Expr)
    requires Conditions(cs)
  {
    forall p, c :: p in Parts(e) && !p.Constant? && c in cs ==> p != Lesson(c).0
  }

  /** Neither a constant nor a conjunction: what is left after splitting. */
  predicate Atomic(c: Expr) {
    !c.Constant? && !(c.Binary? && c.op.And?)
  }

  ghost predicate AllAtomic(cs: seq<Expr>) {
    forall i :: 0 <= i < |cs| ==> Atomic(cs[i])
  }

  class ConstraintManager {
    /** Whether equalities rewrite the constraints already present. */
    const rewriteEqualities: bool
    var constraints: seq<Expr>

    ghost predicate Valid()
      reads this
    {
      Conditions(constraints)
    }

    constructor (rewriteEqualities: bool, cs: seq<Expr>)
      requires Conditions(cs)
      ensures Valid() && constraints == cs && this.rewriteEqualities == rewriteEqualities
    {
      this.rewriteEqualities := rewriteEqualities;
      constraints := cs;
    }

    /** Rewrites every constraint. The list is rebuilt while additions made on
        the way may rewrite the part already rebuilt. */
    method RewriteConstraints(visitor: ExprVisitor) returns (changed: bool)
      requires Valid() && visitor.Valid()
      requires exists env :: Models(constraints, env) && visitor.visitor.Sound(env)
      modifies this, visitor
      ensures Valid() && TotalWeight(constraints) <= old(TotalWeight(constraints))
      ensures forall env :: visitor.visitor.Sound(env) ==> (Models(constraints, env) <==> Models(old(constraints), env))
      ensures !changed ==> constraints == old(constraints)
      ensures changed ==> TotalWeight(constraints) < old(TotalWeight(constraints))
      ensures changed <==> exists i :: 0 <= i < |old(constraints)| && !Untouched(visitor.visitor, old(constraints)[i])
      ensures old(AllAtomic(constraints)) ==> AllAtomic(constraints)
      decreases TotalWeight(constraints), 0
    {
      hide WF, Width, Weight, Eval, Rewrite, TotalWeight, Untouched, Atomic;
      changed := false;
      var previous := constraints;
      constraints := [];
      ghost var v := visitor.visitor;
      ghost var model :| Models(previous, model) && v.Sound(model);
      EmptyWeight();
      var i := 0;
      while i < |previous|
        invariant i <= |previous| && Valid() && visitor.Valid() && visitor.visitor == v
        invariant TotalWeight(constraints) <= TotalWeight(previous[..i])
        invariant forall env :: v.Sound(env) ==> (Models(constraints, env) <==> Models(previous[..i], env))
        invariant !changed ==> constraints == previous[..i]
        invariant changed ==> TotalWeight(constraints) < TotalWeight(previous[..i])
        invariant changed <==> exists k :: 0 <= k < i && !Untouched(v, previous[k])
        invariant AllAtomic(previous) ==> AllAtomic(constraints)
      {
        var ce := previous[i];
        var e := visitor.Visit(ce);
        ChangedIff(v, ce);
        assert previous[..i + 1] == previous[..i] + [ce];
        TotalWeightPush(previous[..i], ce);
        TotalWeightPrefix(previous, i + 1);
        StepModels(v, previous, i, constraints, e);
        if e != ce {
          assert Models(constraints, model) && Holds(e, model) by {
            ModelsPrefix(previous, i, model);
          }
          AddConstraintInternal(e);
          changed := true;
        } else {
          TotalWeightPush(constraints, ce);
          forall env ensures Models(constraints + [ce], env) <==> Models(constraints, env) && Holds(ce, env) {
            ModelsPush(constraints, ce, env);
          }
          constraints := constraints + [ce];
        }
        i := i + 1;
      }
      assert previous[..i] == previous;
    }

    /** The condition is an equality that fixes part of a constraint already present. */
    ghost predicate Rewrites(e: Expr, cs: seq<Expr>) {
      && rewriteEqualities && e.Compare? && e.cmp.Eq? && e.left.Constant?
      && exists i :: 0 <= i < |cs| && !Untouched(ReplaceVisitor(e.right, e.left), cs[i])
    }

    /** Adds a simplified condition. */
    method AddConstraintInternal(e: Expr)
      requires Valid() && IsCondition(e)
      requires exists env :: Models(constraints, env) && Holds(e, env)
      modifies this
      ensures Valid() && TotalWeight(constraints) <= old(TotalWeight(constraints)) + Weight(e)
      ensures forall env :: Models(constraints, env) <==> Models(old(constraints), env) && Holds(e, env)
      ensures old(AllAtomic(constraints)) ==> AllAtomic(constraints)
      ensures e.Constant? ==> constraints == old(constraints)
      ensures Atomic(e) && !Rewrites(e, old(constraints)) ==> constraints == old(constraints) + [e]
      ensures Atomic(e) && Rewrites(e, old(constraints)) ==>
        TotalWeight(constraints) < old(TotalWeight(constraints)) + Weight(e)
      ensures Atomic(e) ==> constraints != [] && constraints[|constraints| - 1] == e
      ensures !rewriteEqualities ==> old(constraints) <= constraints
      ensures !rewriteEqualities ==> forall i :: |old(constraints)| <= i < |constraints| ==> constraints[i] in Parts(e)
      decreases TotalWeight(constraints) + Weight(e), 1
    {
      hide WF, Width, Weight, Eval, TotalWeight, Untouched, Parts;
      ghost var model :| Models(constraints, model) && Holds(e, model);
      OwnParts(e);
      if e.Constant? {
        assert IsTrue(e) by { TrueConstant(e, model); }
        forall env ensures Holds(e, env) { EvalConstant(e, env); }
      } else if e.Binary? && e.op.And? {
        forall env ensures Holds(e, env) <==> Holds(e.left, env) && Holds(e.right, env) {
          SplitConjunction(e, env);
        }
        SplitConjunction(e, model);
        AddConstraintInternal(e.left);
        AddConstraintInternal(e.right);
      } else {
        if e.Compare? && e.cmp.Eq? && rewriteEqualities && e.left.Constant? {
          forall env ensures ReplaceVisitor(e.right, e.left).Sound(env) <==> Holds(e, env) {
            EqualityIsSound(e, env);
          }
          EqualityIsSound(e, model);
          var visitor := new ExprVisitor(ReplaceVisitor(e.right, e.left));
          var _ := RewriteConstraints(visitor);
        }
        TotalWeightPush(constraints, e);
        forall env ensures Models(constraints + [e], env) <==> Models(constraints, env) && Holds(e, env) {
          ModelsPush(constraints, e, env);
        }
        constraints := constraints + [e];
      }
    }

    /** Simplifies an expression under the equalities the constraints give. */
    method SimplifyExpr(e: Expr) returns (r: Expr)
      requires Valid() && WF(e)
      ensures WF(r) && Width(r) == Width(e) && Weight(r) <= Weight(e)
      ensures forall env :: Models(constraints, env) ==> Eval(r, env) == Eval(e, env)
      ensures Free(constraints, r) && (Free(constraints, e) ==> r == e)
      ensures !e.Constant? && e in Lessons(constraints) && (forall k :: k in Kids(e) ==> Free(constraints, k)) ==>
        r == Lessons(constraints)[e]
    {
      hide WF, Width, Weight, Eval, Rewrite, Kids, Lesson, Lessons, Untouched, Free;
      if e.Constant? {
        NothingTaught(constraints);
        FreeIff(constraints, e);
        ConstantUntouched(ReplaceAllVisitor(Lessons(constraints)), e);
        return e;
      }
      var equalities: map<Expr, Expr> := map[];
      assert constraints[..0] == [];
      NothingTaught([]);
      for i := 0 to |constraints|
        invariant equalities == Lessons(constraints[..i])
        invariant ReplaceAllVisitor(equalities).Valid()
        invariant forall env :: Models(constraints, env) ==> ReplaceAllVisitor(equalities).Sound(env)
      {
        var lesson := Lesson(constraints[i]);
        NextLesson(constraints, i);
        if lesson.0 !in equalities {
          ExtendSound(equalities, constraints, i);
          equalities := equalities[lesson.0 := lesson.1];
        }
      }
      assert constraints[..|constraints|] == constraints;
      var v := ReplaceAllVisitor(equalities);
      var visitor := new ExprVisitor(v);
      r := visitor.Visit(e);
      NothingToReplace(v, e);
      ChangedIff(v, e);
      FreeIff(constraints, e);
      FreeIff(constraints, r);
      if e in equalities && forall k :: k in Kids(e) ==> Free(constraints, k) {
        forall i | 0 <= i < |Kids(e)| ensures Untouched(v, Kids(e)[i]) {
          FreeIff(constraints, Kids(e)[i]);
        }
        ReplacedOutright(v, e);
      }
      forall env | Models(constraints, env) ensures Eval(r, env) == Eval(e, env) {
        RewriteMeaning(v, e, env);
      }
    }

    /** Adds a condition that is satisfiable together with the constraints. */
    method AddConstraint(e: Expr)
      requires Valid() && IsCondition(e)
      requires exists env :: Models(constraints, env) && Holds(e, env)
      modifies this
      ensures Valid()
      ensures forall env :: Models(constraints, env) <==> Models(old(constraints), env) && Holds(e, env)
      ensures old(AllAtomic(constraints)) ==> AllAtomic(constraints)
      ensures !rewriteEqualities ==> old(constraints) <= constraints
      ensures !rewriteEqualities ==>
        forall i :: |old(constraints)| <= i < |constraints| ==> Free(old(constraints), constraints[i])
      ensures !e.Constant? && e in Lessons(old(constraints))
        ==> (forall k :: k in Kids(e) ==> Free(old(constraints), k)) ==> constraints == old(constraints)
    {
      hide WF, Width, Weight, Eval, Kids, Lesson, Lessons, Parts;
      ghost var model :| Models(constraints, model) && Holds(e, model);
      var simplified := SimplifyExpr(e);
      assert Holds(simplified, model);
      TaughtConstant(constraints, e);
      AddConstraintInternal(simplified);
      if !rewriteEqualities {
        forall i | |old(constraints)| <= i < |constraints| ensures Free(old(constraints), constraints[i]) {
          PartsOfParts(simplified, constraints[i]);
        }
      }
    }
  }

  lemma NothingTaught(cs: seq<Expr>)
    requires Conditions(cs)
    ensures cs == [] ==> Lessons(cs) == map[]
  {
  }

  lemma NextLesson(cs: seq<Expr>, i: nat)
    requires Conditions(cs) && i < |cs|
    ensures Conditions(cs[..i]) && Conditions(cs[..i + 1])
    ensures var m, l := Lessons(cs[..i]), Lesson(cs[i]);
      Lessons(cs[..i + 1]) == if l.0 in m then m else m[l.0 := l.1]
  {
    hide Lesson, IsCondition;
    assert cs[..i + 1][..i] == cs[..i] && cs[..i + 1][i] == cs[i];
  }

  lemma OwnParts(e: Expr)
    ensures e in Parts(e)
    ensures e.Binary? ==> Parts(e.left) <= Parts(e) && Parts(e.right) <= Parts(e)
  {
  }

  lemma TaughtConstant(cs: seq<Expr>, x: Expr)
    requires Conditions(cs)
    ensures x in Lessons(cs) ==> Lessons(cs)[x].Constant?
  {
    hide Lessons;
    TaughtBy(cs, x);
  }

  lemma FreeIff(cs: seq<Expr>, e: Expr)
    requires Conditions(cs)
    ensures Free(cs, e) <==> Untouched(ReplaceAllVisitor(Lessons(cs)), e)
  {
    hide Lesson, Lessons, Parts, IsCondition;
    forall p ensures p in Lessons(cs) <==> exists c :: c in cs && Lesson(c).0 == p {
      TaughtBy(cs, p);
      assert forall i :: 0 <= i < |cs| ==> cs[i] in cs;
    }
  }

  lemma EmptyWeight()
    ensures TotalWeight([]) == 0
  {
  }

  lemma TrueConstant(e: Expr, env: Env)
    requires IsCondition(e) && e.Constant? && Holds(e, env)
    ensures IsTrue(e)
  {
  }

  /** Carrying the models of a rewritten prefix over one more constraint. */
  lemma StepModels(v: Visitor, previous: seq<Expr>, i: nat, cs: seq<Expr>, e: Expr)
    requires i < |previous| && Conditions(previous) && v.Valid()
    requires e == Rewrite(v, previous[i])
    requires forall env :: v.Sound(env) ==> (Models(cs, env) <==> Models(previous[..i], env))
    ensures IsCondition(e)
    ensures forall env :: v.Sound(env) ==>
              (Models(cs, env) && Holds(e, env) <==> Models(previous[..i + 1], env))
  {
    hide WF, Eval, Weight, Rewrite;
    forall env | v.Sound(env)
      ensures Models(cs, env) && Holds(e, env) <==> Models(previous[..i + 1], env)
    {
      RewriteMeaning(v, previous[i], env);
      ModelsPush(previous[..i], previous[i], env);
      assert previous[..i + 1] == previous[..i] + [previous[i]];
    }
  }

  lemma ExtendSound(equalities: map<Expr, Expr>, cs: seq<Expr>, i: nat)
    requires Conditions(cs) && i < |cs|
    requires ReplaceAllVisitor(equalities).Valid()
    requires forall env :: Models(cs, env) ==> ReplaceAllVisitor(equalities).Sound(env)
    ensures ReplaceAllVisitor(equalities[Lesson(cs[i]).0 := Lesson(cs[i]).1]).Valid()
    ensures forall env :: Models(cs, env) ==>
              ReplaceAllVisitor(equalities[Lesson(cs[i]).0 := Lesson(cs[i]).1]).Sound(env)
  {
    hide WF, Width, Eval, Lesson;
    var l := Lesson(cs[i]);
    forall env | Models(cs, env)
      ensures ReplaceAllVisitor(equalities[l.0 := l.1]).Sound(env)
    {
      LessonSound(cs[i], env);
      assert ReplaceAllVisitor(equalities).Sound(env);
    }
  }
}
