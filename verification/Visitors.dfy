/** Rewriting an expression by replacing subexpressions with constants and
    rebuilding through the constructors, with an optional second visit of what
    was rebuilt, and the memo table the visitor keeps. */
module Visitors {
  import opened Bits
  import opened Exprs
  import opened Create
  import opened CreateMeaning

  // -------------------------------------------------------------------- kids

  function Kids(e: Expr): seq<Expr> {
    match e
    case Constant(_, _) => []
    case NotOptimized(x) => [x]
    case Read(_, _, i) => [i]
    case Select(c, t, f) => [c, t, f]
    case Concat(l, r) => [l, r]
    case Extract(x, _, _) => [x]
    case ZExt(x, _) => [x]
    case SExt(x, _) => [x]
    case Not(x) => [x]
    case Binary(_, l, r) => [l, r]
    case Compare(_, l, r) => [l, r]
  }

  /** Kids that may stand in for those of a node. */
  predicate KidsFit(e: Expr, k: seq<Expr>) {
    && |k| == |Kids(e)|
    && forall i :: 0 <= i < |k| ==> WF(k[i]) && Width(k[i]) == Width(Kids(e)[i])
  }

  /** The plain node with other kids. */
  function WithKids(e: Expr, k: seq<Expr>): Expr
    requires |k| == |Kids(e)|
  {
    match e
    case Constant(_, _) => e
    case NotOptimized(_) => NotOptimized(k[0])
    case Read(a, u, _) => Read(a, u, k[0])
    case Select(_, _, _) => Select(k[0], k[1], k[2])
    case Concat(_, _) => Concat(k[0], k[1])
    case Extract(_, off, w) => Extract(k[0], off, w)
    case ZExt(_, w) => ZExt(k[0], w)
    case SExt(_, w) => SExt(k[0], w)
    case Not(_) => Not(k[0])
    case Binary(op, _, _) => Binary(op, k[0], k[1])
    case Compare(cmp, _, _) => Compare(cmp, k[0], k[1])
  }

  /** The same node built anew through its constructor. */
  function Rebuild(e: Expr, k: seq<Expr>): (r: Expr)
    requires WF(e) && !e.Constant? && KidsFit(e, k)
    ensures Fits(r, Width(e), Weight(WithKids(e, k)))
  {
    KidsParts(e, k);
    match e
    case NotOptimized(_) => NotOptimized(k[0])
    case Read(a, u, _) => CreateRead(a, u, k[0])
    case Select(_, _, _) => CreateSelect(k[0], k[1], k[2])
    case Concat(_, _) => CreateConcat(k[0], k[1])
    case Extract(_, off, w) => CreateExtract(k[0], off, w)
    case ZExt(_, w) => CreateZExt(k[0], w)
    case SExt(_, w) => CreateSExt(k[0], w)
    case Not(_) => CreateNot(k[0])
    case Binary(op, _, _) => CreateBinary(op, k[0], k[1])
    case Compare(cmp, _, _) => CreateCompare(cmp, k[0], k[1])
  }

  lemma KidsWF(e: Expr)
    requires WF(e)
    ensures KidsFit(e, Kids(e))
  {
    hide Pow2;
  }

  lemma KidsParts(e: Expr, k: seq<Expr>)
    requires WF(e) && !e.Constant? && KidsFit(e, k)
    ensures |k| >= 1 && WF(k[0])
    ensures e.ZExt? || e.SExt? ==> Width(k[0]) <= e.bits && 0 < e.bits
    ensures e.Extract? ==> e.offset + e.bits <= Width(k[0]) && 0 < e.bits
    ensures e.Read? ==> Width(k[0]) == e.root.domain && e.root.Valid() && WFUpdates(e.updates, e.root)
    ensures e.Binary? || e.Compare? ==> |k| == 2 && SameWidth(k[0], k[1])
    ensures e.Binary? && WideOnly(e.op) ==> Width(k[0]) > Bool
    ensures e.Concat? ==> |k| == 2 && WF(k[1])
    ensures e.Select? ==> |k| == 3 && Width(k[0]) == Bool && SameWidth(k[1], k[2])
    ensures e.NotOptimized? || e.Not? || e.Binary? ==> Width(k[0]) == Width(e)
    ensures e.Select? ==> Width(k[1]) == Width(e)
    ensures e.Concat? ==> Width(k[0]) + Width(k[1]) == Width(e)
  {
    hide Pow2, WFUpdates;
    if e.ZExt? || e.SExt? { WidthPositive(e.narrow); }
    assert forall i :: 0 <= i < |k| ==> Width(k[i]) == Width(Kids(e)[i]);
  }

  lemma CreateBinaryMeaning(op: BinaryOp, l: Expr, r: Expr, env: Env)
    requires SameWidth(l, r) && (WideOnly(op) ==> Width(l) > Bool)
    ensures Eval(CreateBinary(op, l, r), env) == Eval(Binary(op, l, r), env)
  {
    hide WF, Weight, Eval, Low, CreateAdd, CreateSub, CreateMul, CreateAnd, CreateOr, CreateXor, CreateShift,
         CreateDivision;
    EvalNode(op, l, r, env);
    match op
    case Add => AddMeaning(l, r, env); EvalSum(l, r, env);
    case Sub => SubMeaning(l, r, env); EvalSum(l, r, env);
    case Mul => MulMeaning(l, r, env);
    case And => AndMeaning(l, r, env);
    case Or => OrMeaning(l, r, env);
    case Xor => XorMeaning(l, r, env);
    case Shl => ShiftMeaning(op, l, r, env);
    case LShr => ShiftMeaning(op, l, r, env);
    case AShr => ShiftMeaning(op, l, r, env);
    case _ => DivisionMeaning(op, l, r, env);
  }

  /** Rebuilding keeps the value of the node. */
  lemma RebuildMeaning(e: Expr, k: seq<Expr>, env: Env)
    requires WF(e) && !e.Constant? && KidsFit(e, k)
    ensures Eval(Rebuild(e, k), env) == Eval(WithKids(e, k), env)
  {
    hide WF, Weight, Low, EvalBinary, Relates, CreateRead, CreateSelect, CreateConcat, CreateExtract, CreateZExt,
         CreateSExt, CreateNot, CreateBinary, CreateCompare;
    KidsParts(e, k);
    match e
    case NotOptimized(_) =>
    case Read(a, u, _) => ReadMeaning(a, u, k[0], env);
    case Select(_, _, _) => SelectMeaning(k[0], k[1], k[2], env);
    case Concat(_, _) => ConcatMeaning(k[0], k[1], env);
    case Extract(_, off, w) => ExtractMeaning(k[0], off, w, env);
    case ZExt(_, w) => ZExtMeaning(k[0], w, env);
    case SExt(_, w) => SExtMeaning(k[0], w, env);
    case Not(_) => NotMeaning(k[0], env);
    case Binary(op, _, _) => CreateBinaryMeaning(op, k[0], k[1], env);
    case Compare(cmp, _, _) => CompareMeaning(cmp, k[0], k[1], env);
  }

  lemma NotMeaning(x: Expr, env: Env)
    requires WF(x)
    ensures Eval(CreateNot(x), env) == Eval(Not(x), env)
  {
    hide Low, Weight;
  }

  /** A node depends on its kids only through their values. */
  lemma WithKidsValue(e: Expr, k: seq<Expr>, env: Env)
    requires WF(e) && KidsFit(e, k)
    requires forall i :: 0 <= i < |k| ==> Eval(k[i], env) == Eval(Kids(e)[i], env)
    ensures Eval(WithKids(e, k), env) == Eval(e, env)
  {
    hide WF, Low, EvalBinary, Relates, Pow2, EvalRead;
    assert forall i :: 0 <= i < |k| ==> Width(k[i]) == Width(Kids(e)[i]);
    if |k| > 0 { assert Eval(k[0], env) == Eval(Kids(e)[0], env); }
    if |k| > 1 { assert Eval(k[1], env) == Eval(Kids(e)[1], env); }
    if |k| > 2 { assert Eval(k[2], env) == Eval(Kids(e)[2], env); }
  }

  lemma KidsLighter(e: Expr)
    ensures forall i :: 0 <= i < |Kids(e)| ==> Weight(Kids(e)[i]) < Weight(e)
  {
  }

  /** Each kid is kept or made lighter. */
  predicate NoHeavier(k: seq<Expr>, old_k: seq<Expr>) {
    && |k| == |old_k|
    && forall i :: 0 <= i < |k| ==> k[i] == old_k[i] || Weight(k[i]) < Weight(old_k[i])
  }

  /** A node becomes lighter when its kids do. */
  lemma WithKidsWeight(e: Expr, k: seq<Expr>)
    requires NoHeavier(k, Kids(e)) && k != Kids(e)
    ensures Weight(WithKids(e, k)) < Weight(e)
  {
    if |k| > 0 { assert k[0] == Kids(e)[0] || Weight(k[0]) < Weight(Kids(e)[0]); }
    if |k| > 1 { assert k[1] == Kids(e)[1] || Weight(k[1]) < Weight(Kids(e)[1]); }
    if |k| > 2 { assert k[2] == Kids(e)[2] || Weight(k[2]) < Weight(Kids(e)[2]); }
    assert e.Constant? || (exists i :: 0 <= i < |k| && k[i] != Kids(e)[i]);
  }

  // ----------------------------------------------------------------- visitors

  /** A replacing visitor. `eager` visitors try to replace a node before they
      visit its kids; every visitor tries again after rebuilding; `recursive`
      visitors visit a rebuilt node once more first. */
  datatype Visitor = Visitor(replacements: map<Expr, Expr>, eager: bool, recursive: bool) {
    /** Replacements are constants of the width of what they replace. */
    predicate Valid() {
      forall x :: x in replacements ==>
        replacements[x].Constant? && WF(replacements[x]) && Width(replacements[x]) == Width(x)
    }

    /** The assignment gives each expression the value of its replacement. */
    predicate Sound(env: Env) {
      forall x :: x in replacements ==> Eval(x, env) == Eval(replacements[x], env)
    }
  }

  /** One equality, as used to rewrite a constraint list. */
  function ReplaceVisitor(src: Expr, dst: Expr): Visitor {
    Visitor(map[src := dst], true, false)
  }

  /** Many equalities at once, as used to simplify an expression. */
  function ReplaceAllVisitor(replacements: map<Expr, Expr>): Visitor {
    Visitor(replacements, false, true)
  }

  predicate Shrinks(r: Expr, e: Expr) {
    WF(r) && Width(r) == Width(e) && (r == e || Weight(r) < Weight(e))
  }

  function Post(v: Visitor, e: Expr): (r: Expr)
    requires v.Valid() && WF(e)
    ensures Shrinks(r, e)
  {
    if !e.Constant? && e in v.replacements then v.replacements[e] else e
  }

  function Rewrite(v: Visitor, e: Expr): (r: Expr)
    requires v.Valid() && WF(e)
    ensures Shrinks(r, e)
    decreases Weight(e), 1, 0
  {
    if e.Constant? then e
    else if v.eager && e in v.replacements then v.replacements[e]
    else
      KidsLighter(e);
      KidsWF(e);
      var k := RewriteAll(v, Kids(e), Weight(e));
      if k == Kids(e) then Post(v, e)
      else
        WithKidsWeight(e, k);
        var rebuilt := Rebuild(e, k);
        Post(v, if v.recursive then Rewrite(v, rebuilt) else rebuilt)
  }

  function RewriteAll(v: Visitor, es: seq<Expr>, bound: nat): (rs: seq<Expr>)
    requires v.Valid()
    requires forall i :: 0 <= i < |es| ==> WF(es[i]) && Weight(es[i]) < bound
    ensures |rs| == |es| && NoHeavier(rs, es)
    ensures forall i :: 0 <= i < |es| ==> rs[i] == Rewrite(v, es[i])
    decreases bound, 0, |es|
  {
    if es == [] then [] else [Rewrite(v, es[0])] + RewriteAll(v, es[1..], bound)
  }

  /** What becomes of a node that is not replaced outright, from its visited kids. */
  lemma RewriteStep(v: Visitor, e: Expr, k: seq<Expr>)
    requires v.Valid() && WF(e) && !e.Constant? && !(v.eager && e in v.replacements)
    requires |k| == |Kids(e)|
    requires forall i :: 0 <= i < |k| ==> WF(Kids(e)[i]) && k[i] == Rewrite(v, Kids(e)[i])
    ensures KidsFit(e, k) && NoHeavier(k, Kids(e))
    ensures k == Kids(e) ==> Rewrite(v, e) == Post(v, e)
    ensures k != Kids(e) ==>
              && Weight(Rebuild(e, k)) < Weight(e)
              && Rewrite(v, e) == Post(v, if v.recursive then Rewrite(v, Rebuild(e, k)) else Rebuild(e, k))
  {
    hide WF, Weight, Width, Kids, Rebuild, WithKids, Post;
    KidsLighter(e);
    KidsWF(e);
    assert k == RewriteAll(v, Kids(e), Weight(e));
    if k != Kids(e) {
      WithKidsWeight(e, k);
    }
  }

  lemma PostMeaning(v: Visitor, e: Expr, env: Env)
    requires v.Valid() && WF(e) && v.Sound(env)
    ensures Eval(Post(v, e), env) == Eval(e, env)
  {
    hide Eval, WF;
  }

  /** A visit keeps the value under every assignment its replacements respect. */
  lemma {:induction false} RewriteMeaning(v: Visitor, e: Expr, env: Env)
    requires v.Valid() && WF(e) && v.Sound(env)
    ensures Eval(Rewrite(v, e), env) == Eval(e, env)
    decreases Weight(e)
  {
    hide WF, Weight, Width, Eval, Kids, Rebuild, WithKids, Post;
    if !e.Constant? && !(v.eager && e in v.replacements) {
      KidsLighter(e);
      KidsWF(e);
      var k := RewriteAll(v, Kids(e), Weight(e));
      forall i | 0 <= i < |k|
        ensures Eval(k[i], env) == Eval(Kids(e)[i], env)
      {
        RewriteMeaning(v, Kids(e)[i], env);
      }
      RewriteStep(v, e, k);
      RebuiltMeaning(v, e, k, env);
    }
  }

  lemma {:induction false} RebuiltMeaning(v: Visitor, e: Expr, k: seq<Expr>, env: Env)
    requires v.Valid() && WF(e) && v.Sound(env) && !e.Constant? && !(v.eager && e in v.replacements)
    requires KidsFit(e, k) && NoHeavier(k, Kids(e))
    requires forall i :: 0 <= i < |k| ==> Eval(k[i], env) == Eval(Kids(e)[i], env)
    ensures k == Kids(e) ==> Eval(Post(v, e), env) == Eval(e, env)
    ensures k != Kids(e) ==>
              Eval(Post(v, if v.recursive then Rewrite(v, Rebuild(e, k)) else Rebuild(e, k)), env) == Eval(e, env)
    decreases Weight(e), 0
  {
    hide WF, Weight, Width, Eval, Kids, Rebuild, WithKids, Rewrite, Post;
    if k == Kids(e) {
      PostMeaning(v, e, env);
    } else {
      WithKidsWeight(e, k);
      WithKidsValue(e, k, env);
      RebuildMeaning(e, k, env);
      if v.recursive {
        RewriteMeaning(v, Rebuild(e, k), env);
        PostMeaning(v, Rewrite(v, Rebuild(e, k)), env);
      } else {
        PostMeaning(v, Rebuild(e, k), env);
      }
    }
  }

  // ------------------------------------------------------ what a visit replaces

  /** An expression and everything it is built from, write logs aside. */
  ghost function Parts(e: Expr): set<Expr> {
    {e} + match e
    case Constant(_, _) => {}
    case NotOptimized(x) => Parts(x)
    case Read(_, _, i) => Parts(i)
    case Select(c, t, f) => Parts(c) + Parts(t) + Parts(f)
    case Concat(l, r) => Parts(l) + Parts(r)
    case Extract(x, _, _) => Parts(x)
    case ZExt(x, _) => Parts(x)
    case SExt(x, _) => Parts(x)
    case Not(x) => Parts(x)
    case Binary(_, l, r) => Parts(l) + Parts(r)
    case Compare(_, l, r) => Parts(l) + Parts(r)
  }

  lemma PartsOfKids(e: Expr, p: Expr)
    ensures p in Parts(e) <==> p == e || exists i :: 0 <= i < |Kids(e)| && p in Parts(Kids(e)[i])
  {
    if p in Parts(e) && p != e {
      var k := Kids(e);
      assert p in Parts(k[0]) || (|k| > 1 && p in Parts(k[1])) || (|k| > 2 && p in Parts(k[2]));
    }
  }

  lemma {:induction false} PartsOfParts(e: Expr, p: Expr)
    requires p in Parts(e)
    ensures Parts(p) <= Parts(e)
    decreases Weight(e)
  {
    hide Parts, Kids, Weight;
    if p != e {
      PartsOfKids(e, p);
      var i :| 0 <= i < |Kids(e)| && p in Parts(Kids(e)[i]);
      KidLighter(e, i);
      PartsOfParts(Kids(e)[i], p);
      forall q | q in Parts(p) ensures q in Parts(e) {
        PartsOfKids(e, q);
      }
    }
  }

  lemma KidLighter(e: Expr, i: nat)
    requires i < |Kids(e)|
    ensures Weight(Kids(e)[i]) < Weight(e)
  {
  }

  /** No part of the expression is to be replaced. */
  ghost predicate Untouched(v: Visitor, e: Expr) {
    forall p :: p in Parts(e) && !p.Constant? ==> p !in v.replacements
  }

  lemma UntouchedKids(v: Visitor, e: Expr)
    requires !e.Constant?
    ensures Untouched(v, e) <==>
      e !in v.replacements && forall i :: 0 <= i < |Kids(e)| ==> Untouched(v, Kids(e)[i])
  {
    hide Parts, Kids;
    forall p ensures p in Parts(e) <==> p == e || exists i :: 0 <= i < |Kids(e)| && p in Parts(Kids(e)[i]) {
      PartsOfKids(e, p);
    }
    forall i | 0 <= i < |Kids(e)| && Untouched(v, e) ensures Untouched(v, Kids(e)[i]) {
      assert forall p :: p in Parts(Kids(e)[i]) ==> p in Parts(e);
    }
  }

  /** A visit changes an expression exactly if some part of it is to be replaced. */
  lemma {:induction false} ChangedIff(v: Visitor, e: Expr)
    requires v.Valid() && WF(e)
    ensures Rewrite(v, e) == e <==> Untouched(v, e)
    decreases Weight(e)
  {
    hide WF, Weight, Width, Kids, Rebuild, WithKids, Untouched, Rewrite, RewriteAll;
    if e.Constant? {
      ConstantVisit(v, e);
    } else if v.eager && e in v.replacements {
      UntouchedKids(v, e);
      EagerVisit(v, e);
    } else {
      UntouchedKids(v, e);
      KidsLighter(e);
      KidsWF(e);
      var k := RewriteAll(v, Kids(e), Weight(e));
      forall i | 0 <= i < |k| ensures k[i] == Kids(e)[i] <==> Untouched(v, Kids(e)[i]) {
        ChangedIff(v, Kids(e)[i]);
      }
      RewriteStep(v, e, k);
      if k != Kids(e) {
        ShrunkVisit(v, e, k);
      }
    }
  }

  lemma ConstantVisit(v: Visitor, e: Expr)
    requires v.Valid() && WF(e) && e.Constant?
    ensures Rewrite(v, e) == e && Untouched(v, e)
  {
  }

  lemma EagerVisit(v: Visitor, e: Expr)
    requires v.Valid() && WF(e) && !e.Constant? && v.eager && e in v.replacements
    ensures Rewrite(v, e) == v.replacements[e] && Rewrite(v, e) != e
  {
  }

  lemma ShrunkVisit(v: Visitor, e: Expr, k: seq<Expr>)
    requires v.Valid() && WF(e) && !e.Constant? && KidsFit(e, k) && Weight(Rebuild(e, k)) < Weight(e)
    ensures Post(v, if v.recursive then Rewrite(v, Rebuild(e, k)) else Rebuild(e, k)) != e
  {
    hide WF, Weight, Width, Rebuild, Rewrite;
  }

  /** After a visit that visits rebuilt nodes again, nothing to be replaced is left. */
  lemma {:induction false} NothingToReplace(v: Visitor, e: Expr)
    requires v.Valid() && WF(e) && v.recursive
    ensures Untouched(v, Rewrite(v, e))
    decreases Weight(e)
  {
    hide WF, Weight, Width, Kids, Rebuild, WithKids, Untouched, Rewrite, RewriteAll, Post;
    if e.Constant? {
      ConstantVisit(v, e);
    } else if v.eager && e in v.replacements {
      EagerVisit(v, e);
      ConstantUntouched(v, v.replacements[e]);
    } else {
      KidsLighter(e);
      KidsWF(e);
      var k := RewriteAll(v, Kids(e), Weight(e));
      RewriteStep(v, e, k);
      if k == Kids(e) {
        forall i | 0 <= i < |k| ensures Untouched(v, Kids(e)[i]) {
          ChangedIff(v, Kids(e)[i]);
        }
        UntouchedKids(v, e);
        PostVisit(v, e);
      } else {
        NothingToReplace(v, Rebuild(e, k));
        PostUntouched(v, Rewrite(v, Rebuild(e, k)));
      }
    }
  }

  lemma ConstantUntouched(v: Visitor, e: Expr)
    requires e.Constant?
    ensures Untouched(v, e)
  {
  }

  lemma PostVisit(v: Visitor, e: Expr)
    requires v.Valid() && WF(e) && !e.Constant? && (e !in v.replacements ==> Untouched(v, e))
    ensures Untouched(v, Post(v, e))
  {
  }

  lemma PostUntouched(v: Visitor, e: Expr)
    requires v.Valid() && WF(e) && Untouched(v, e)
    ensures Post(v, e) == e
  {
  }

  /** An expression to be replaced, of which no smaller part is, becomes its replacement. */
  lemma ReplacedOutright(v: Visitor, e: Expr)
    requires v.Valid() && WF(e) && !e.Constant? && e in v.replacements
    requires forall i :: 0 <= i < |Kids(e)| ==> Untouched(v, Kids(e)[i])
    ensures Rewrite(v, e) == v.replacements[e]
  {
    hide WF, Weight, Width, Kids, Rebuild, WithKids, Untouched, Rewrite, RewriteAll;
    if v.eager {
      EagerVisit(v, e);
    } else {
      KidsLighter(e);
      KidsWF(e);
      var k := RewriteAll(v, Kids(e), Weight(e));
      forall i | 0 <= i < |k| ensures k[i] == Kids(e)[i] {
        ChangedIff(v, Kids(e)[i]);
      }
      assert k == Kids(e);
      RewriteStep(v, e, k);
    }
  }

  lemma ByteRead(name: string) returns (x: Expr)
    ensures x == Read(Array(name, 1, 8, 8, []), Empty, Constant(0, 8)) && WF(x) && Width(x) == 8 && Kids(x) == [x.index]
  {
    Pow2Values();
    x := Read(Array(name, 1, 8, 8, []), Empty, Constant(0, 8));
  }

  lemma XorNode(x: Expr, y: Expr)
    requires WF(x) && WF(y) && Width(x) == Width(y) == 8 && !x.Constant? && !y.Constant?
    ensures var e, c := Binary(Xor, x, y), Constant(3, 8);
      && WF(e) && Width(e) == 8 && WF(c) && Width(c) == 8 && Kids(e) == [x, y] && KidsFit(e, [c, y])
      && Rebuild(e, [c, y]) == Binary(Xor, c, y) && WF(Binary(Xor, c, y)) && Kids(Binary(Xor, c, y)) == [c, y]
  {
    hide Pow2, EqPartialR, Weight;
    Pow2Values();
    var e, c := Binary(Xor, x, y), Constant(3, 8);
    assert WF(c) && WF(e) && KidsFit(e, [c, y]);
    assert CreateXor(c, y) == XorPartialR(c, y) == Binary(Xor, c, y);
  }

  /** Otherwise it may not: with x replaced inside x ^ y, the whole is no longer found. */
  lemma NestedCounterexample() returns (v: Visitor, e: Expr)
    ensures v.Valid() && WF(e) && v == ReplaceAllVisitor(v.replacements)
    ensures e in v.replacements && !Rewrite(v, e).Constant?
  {
    hide WF, Weight, Width, Kids, Rebuild, WithKids, Untouched, Rewrite;
    var x := ByteRead("a");
    var y := ByteRead("b");
    XorNode(x, y);
    var three := Constant(3, 8);
    var folded := Binary(Xor, three, y);
    e := Binary(Xor, x, y);
    v := ReplaceAllVisitor(map[x := three, e := three]);
    ConstantUntouched(v, x.index);
    ConstantUntouched(v, y.index);
    ConstantUntouched(v, three);
    ReplacedOutright(v, x);
    UntouchedKids(v, y);
    ChangedIff(v, y);
    RewriteStep(v, e, [three, y]);
    UntouchedKids(v, folded);
    ChangedIff(v, folded);
  }

  // --------------------------------------------------------------- memo table

  /** The visitor object: the same visit, computed with a table of results. */
  class ExprVisitor {
    const visitor: Visitor
    var visited: map<Expr, Expr>

    /** The table only holds results of visits. */
    ghost predicate Valid()
      reads this
    {
      && visitor.Valid()
      && forall e :: e in visited ==> WF(e) && visited[e] == Rewrite(visitor, e)
    }

    constructor (v: Visitor)
      requires v.Valid()
      ensures Valid() && visitor == v && visited == map[]
    {
      visitor := v;
      visited := map[];
    }

    method Visit(e: Expr) returns (r: Expr)
      requires Valid() && WF(e)
      modifies this
      ensures Valid() && r == Rewrite(visitor, e) && visited.Keys >= old(visited).Keys
      ensures !e.Constant? ==> e in visited
      decreases Weight(e), 3
    {
      hide WF, Weight, Width, Rewrite;
      if e.Constant? {
        r := VisitActual(e);
      } else if e in visited {
        r := visited[e];
      } else {
        r := VisitActual(e);
        visited := visited[e := r];
      }
    }

    method VisitActual(e: Expr) returns (r: Expr)
      requires Valid() && WF(e)
      modifies this
      ensures Valid() && r == Rewrite(visitor, e) && visited.Keys >= old(visited).Keys
      decreases Weight(e), 2
    {
      hide WF, Weight, Width, Kids, Rebuild, WithKids, KidsFit, NoHeavier;
      if e.Constant? {
        return e;
      }
      if visitor.eager && e in visitor.replacements {
        return visitor.replacements[e];
      }
      var kids := VisitKids(e);
      RewriteStep(visitor, e, kids);
      r := e;
      if kids != Kids(e) {
        r := Rebuild(e, kids);
        if visitor.recursive {
          r := Visit(r);
        }
      }
      if !r.Constant? && r in visitor.replacements {
        r := visitor.replacements[r];
      }
    }

    method VisitKids(e: Expr) returns (kids: seq<Expr>)
      requires Valid() && WF(e)
      modifies this
      ensures Valid() && |kids| == |Kids(e)| && visited.Keys >= old(visited).Keys
      ensures forall i :: 0 <= i < |kids| ==> WF(Kids(e)[i]) && kids[i] == Rewrite(visitor, Kids(e)[i])
      decreases Weight(e), 1
    {
      hide WF, Weight, Width, Kids, Rewrite;
      KidsLighter(e);
      KidsWF(e);
      kids := [];
      while |kids| < |Kids(e)|
        invariant Valid() && |kids| <= |Kids(e)| && visited.Keys >= old(visited).Keys
        invariant forall i :: 0 <= i < |kids| ==> kids[i] == Rewrite(visitor, Kids(e)[i])
      {
        var kid := Visit(Kids(e)[|kids|]);
        kids := kids + [kid];
      }
    }
  }
}
