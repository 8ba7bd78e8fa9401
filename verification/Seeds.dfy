/** Partial evaluation under an assignment of bytes to arrays, and the patching of a seed
    so that it can satisfy a further condition. */
module Seeds {
  import opened Bits
  import opened Exprs
  import opened Create
  import opened CreateMeaning
  import opened Logic
  import opened Visitors
  import opened Constraints
  import opened MemoryLog
  import opened Solvers

  type Bindings = map<Array, seq<Byte>>

  ghost predicate GoodBindings(bindings: Bindings) {
    forall a :: a in bindings ==> ByteArray(a) && a.size < 0x1_0000_0000 && |bindings[a]| == a.size
  }

  /** The assignment of bytes is what the environment holds. */
  ghost predicate Agrees(bindings: Bindings, env: Env) {
    forall a, i :: a in bindings && 0 <= i < |bindings[a]| ==> Cell(a, i, env) == bindings[a][i]
  }

  // -------------------------------------------------------------------- evaluation

  predicate AllConstant(k: seq<Expr>) {
    forall x :: x in k ==> x.Constant?
  }

  /** A node over evaluated kids. One that has only constants, which its construction did
      not fold, is built once more. */
  function Rebuilt(e: Expr, k: seq<Expr>): (r: Expr)
    requires WF(e) && !e.Constant? && KidsFit(e, k)
    ensures WF(r) && Width(r) == Width(e)
  {
    if k == Kids(e) && (e.Read? || !AllConstant(k)) then e else Rebuild(e, k)
  }

  lemma RebuiltValue(e: Expr, k: seq<Expr>, env: Env)
    requires WF(e) && !e.Constant? && KidsFit(e, k)
    ensures Eval(Rebuilt(e, k), env) == Eval(WithKids(e, k), env)
  {
    hide Rebuild, Eval, WF, Width;
    RebuildMeaning(e, k, env);
    SameKids(e);
  }

  lemma SameKids(e: Expr)
    ensures WithKids(e, Kids(e)) == e
  {
  }

  /** The initial value of a cell: the bound byte, or a plain read where nothing is bound. */
  function InitialValue(bindings: Bindings, a: Array, i: nat): (r: Expr)
    requires a.Valid() && i < Pow2(a.domain)
    ensures a in bindings && i < |bindings[a]| ==> r == Constant(bindings[a][i], a.range)
    ensures !(a in bindings && i < |bindings[a]|) ==> WF(r) && Width(r) == a.range
  {
    if a in bindings && i < |bindings[a]| then Constant(bindings[a][i], a.range)
    else CreateRead(a, Empty, Constant(i, a.domain))
  }

  /** `Assignment::evaluate`: substitutes bound bytes and folds. A divisor that becomes zero
      is left as it was. */
  function Evaluate(bindings: Bindings, e: Expr): (r: Expr)
    requires WF(e) && GoodBindings(bindings)
    ensures WF(r) && Width(r) == Width(e)
    decreases e, 1
  {
    match e
    case Constant(_, _) => e
    case NotOptimized(x) => if x.Constant? then e else Evaluate(bindings, x)
    case Read(a, u, i) =>
      var v := Evaluate(bindings, i);
      if v.Constant? then EvaluateRead(bindings, a, u, v.value) else Rebuilt(e, [v])
    case Select(c, t, f) => Rebuilt(e, [Evaluate(bindings, c), Evaluate(bindings, t), Evaluate(bindings, f)])
    case Concat(l, r) => Rebuilt(e, [Evaluate(bindings, l), Evaluate(bindings, r)])
    case Binary(op, l, r) =>
      var b := Evaluate(bindings, r);
      Rebuilt(e, [Evaluate(bindings, l), if Divides(op) && b.Constant? && b.value == 0 then r else b])
    case Compare(_, l, r) => Rebuilt(e, [Evaluate(bindings, l), Evaluate(bindings, r)])
    case _ => EvaluateUnary(bindings, e)
  }

  function EvaluateUnary(bindings: Bindings, e: Expr): (r: Expr)
    requires WF(e) && GoodBindings(bindings) && (e.Extract? || e.ZExt? || e.SExt? || e.Not?)
    ensures WF(r) && Width(r) == Width(e)
    decreases e, 0
  {
    Rebuilt(e, [Evaluate(bindings, Kids(e)[0])])
  }

  predicate Divides(op: BinaryOp) {
    op.UDiv? || op.SDiv? || op.URem? || op.SRem?
  }

  /** `evalRead`: the newest write known to hit the index, stopping at one that may. */
  function EvaluateRead(bindings: Bindings, a: Array, u: Updates, i: nat): (r: Expr)
    requires a.Valid() && WFUpdates(u, a) && i < Pow2(a.domain) && GoodBindings(bindings)
    ensures WF(r) && Width(r) == a.range
    decreases u
  {
    match u
    case Empty =>
      if i < |a.constants| then Constant(a.constants[i], a.range)
        else InitialByte(bindings, a, i); InitialValue(bindings, a, i)
    case Update(index, value, next) =>
      var at := Evaluate(bindings, index);
      if !at.Constant? then CreateRead(a, u, Constant(i, a.domain))
      else if at.value == i then Evaluate(bindings, value)
      else EvaluateRead(bindings, a, next, i)
  }

  lemma InitialByte(bindings: Bindings, a: Array, i: nat)
    requires a.Valid() && i < Pow2(a.domain) && GoodBindings(bindings)
    ensures WF(InitialValue(bindings, a, i)) && Width(InitialValue(bindings, a, i)) == a.range
  {
    Pow2Values();
  }

  /** Under every environment that agrees with the assignment, evaluation keeps the value. */
  lemma {:induction false} EvaluateMeaning(bindings: Bindings, e: Expr, env: Env)
    requires WF(e) && GoodBindings(bindings) && Agrees(bindings, env)
    ensures Eval(Evaluate(bindings, e), env) == Eval(e, env)
    decreases e
  {
    hide Rebuilt, Rebuild, Low, Field, Join, SignExtend, EvalBinary, Relates, EvalRead, Pow2, GoodBindings, Agrees;
    match e
    case Constant(_, _) =>
    case NotOptimized(x) => EvaluateMeaning(bindings, x, env);
    case Read(a, u, i) =>
      EvaluateMeaning(bindings, i, env);
      var v := Evaluate(bindings, i);
      if v.Constant? {
        EvaluateReadMeaning(bindings, a, u, v.value, env);
      } else {
        RebuiltValue(e, [v], env);
      }
    case Select(c, t, f) =>
      EvaluateMeaning(bindings, c, env);
      EvaluateMeaning(bindings, t, env);
      EvaluateMeaning(bindings, f, env);
      RebuiltValue(e, [Evaluate(bindings, c), Evaluate(bindings, t), Evaluate(bindings, f)], env);
    case Concat(l, r) =>
      EvaluateMeaning(bindings, l, env);
      EvaluateMeaning(bindings, r, env);
      RebuiltValue(e, [Evaluate(bindings, l), Evaluate(bindings, r)], env);
    case Extract(x, _, _) => UnaryEvaluate(bindings, e, x, env);
    case ZExt(x, _) => UnaryEvaluate(bindings, e, x, env);
    case SExt(x, _) => UnaryEvaluate(bindings, e, x, env);
    case Not(x) => UnaryEvaluate(bindings, e, x, env);
    case Binary(op, l, r) =>
      EvaluateMeaning(bindings, l, env);
      EvaluateMeaning(bindings, r, env);
      var b := Evaluate(bindings, r);
      RebuiltValue(e, [Evaluate(bindings, l), if Divides(op) && b.Constant? && b.value == 0 then r else b], env);
    case Compare(_, l, r) =>
      EvaluateMeaning(bindings, l, env);
      EvaluateMeaning(bindings, r, env);
      RebuiltValue(e, [Evaluate(bindings, l), Evaluate(bindings, r)], env);
  }

  lemma {:induction false} UnaryEvaluate(bindings: Bindings, e: Expr, x: Expr, env: Env)
    requires WF(e) && GoodBindings(bindings) && Agrees(bindings, env)
    requires (e.Extract? && x == e.expr) || (e.ZExt? && x == e.narrow) || (e.SExt? && x == e.narrow)
      || (e.Not? && x == e.expr)
    ensures Eval(Evaluate(bindings, e), env) == Eval(e, env)
    decreases e, 0
  {
    hide Rebuilt, Rebuild, Low, Field, SignExtend, Pow2, GoodBindings, Agrees;
    EvaluateMeaning(bindings, x, env);
    RebuiltValue(e, [Evaluate(bindings, x)], env);
  }

  lemma {:induction false} EvaluateReadMeaning(bindings: Bindings, a: Array, u: Updates, i: nat, env: Env)
    requires a.Valid() && WFUpdates(u, a) && i < Pow2(a.domain) && GoodBindings(bindings) && Agrees(bindings, env)
    ensures Eval(EvaluateRead(bindings, a, u, i), env) == EvalRead(a, u, i, env)
    decreases u
  {
    hide CreateRead, GoodBindings;
    match u
    case Empty =>
      if i < |a.constants| {
        LowSmall(a.constants[i], a.range);
      } else if !(a in bindings && i < |bindings[a]|) {
        PlainRead(a, Empty, i, env);
      }
    case Update(index, value, next) =>
      EvaluateMeaning(bindings, index, env);
      EvaluateMeaning(bindings, value, env);
      EvaluateReadMeaning(bindings, a, next, i, env);
      PlainRead(a, u, i, env);
  }

  /** Nothing the value depends on is left open: the array cells read have bound or constant
      bytes, no divisor is zero, and no constant hides behind a barrier. */
  ghost predicate Determined(bindings: Bindings, e: Expr, env: Env)
    decreases e
  {
    match e
    case Constant(_, _) => true
    case NotOptimized(x) => !x.Constant? && Determined(bindings, x, env)
    case Read(a, u, i) => Determined(bindings, i, env) && DeterminedRead(bindings, a, u, Eval(i, env), env)
    case Select(c, t, f) => Determined(bindings, c, env) && Determined(bindings, t, env) && Determined(bindings, f, env)
    case Concat(l, r) => Determined(bindings, l, env) && Determined(bindings, r, env)
    case Extract(x, _, _) => Determined(bindings, x, env)
    case ZExt(x, _) => Determined(bindings, x, env)
    case SExt(x, _) => Determined(bindings, x, env)
    case Not(x) => Determined(bindings, x, env)
    case Binary(op, l, r) =>
      Determined(bindings, l, env) && Determined(bindings, r, env) && (Divides(op) ==> Eval(r, env) != 0)
    case Compare(_, l, r) => Determined(bindings, l, env) && Determined(bindings, r, env)
  }

  ghost predicate DeterminedRead(bindings: Bindings, a: Array, u: Updates, i: nat, env: Env)
    decreases u
  {
    match u
    case Empty => i < |a.constants| || (a in bindings && i < |bindings[a]|)
    case Update(index, value, next) =>
      && Determined(bindings, index, env)
      && if Eval(index, env) == i then Determined(bindings, value, env) else DeterminedRead(bindings, a, next, i, env)
  }

  /** An expression whose value the assignment determines evaluates to that value. */
  lemma EvaluateDetermined(bindings: Bindings, e: Expr, env: Env)
    requires WF(e) && GoodBindings(bindings) && Agrees(bindings, env) && Determined(bindings, e, env)
    ensures Evaluate(bindings, e) == Constant(Eval(e, env), Width(e))
  {
    hide Evaluate, Determined, Agrees, GoodBindings;
    EvaluateMeaning(bindings, e, env);
    EvaluateConstant(bindings, e, env);
  }

  lemma {:induction false} EvaluateConstant(bindings: Bindings, e: Expr, env: Env)
    requires WF(e) && GoodBindings(bindings) && Agrees(bindings, env) && Determined(bindings, e, env)
    ensures Evaluate(bindings, e).Constant?
    decreases e
  {
    hide Rebuilt, Low, Field, Join, SignExtend, EvalBinary, Relates, EvalRead, Pow2, GoodBindings, Agrees;
    match e
    case Constant(_, _) =>
    case NotOptimized(x) => EvaluateConstant(bindings, x, env);
    case Read(a, u, i) =>
      EvaluateConstant(bindings, i, env);
      EvaluateMeaning(bindings, i, env);
      EvaluateReadConstant(bindings, a, u, Eval(i, env), env);
    case Select(c, t, f) =>
      EvaluateConstant(bindings, c, env);
      EvaluateConstant(bindings, t, env);
      EvaluateConstant(bindings, f, env);
      RebuiltConstant(e, [Evaluate(bindings, c), Evaluate(bindings, t), Evaluate(bindings, f)]);
    case Concat(l, r) =>
      EvaluateConstant(bindings, l, env);
      EvaluateConstant(bindings, r, env);
      RebuiltConstant(e, [Evaluate(bindings, l), Evaluate(bindings, r)]);
    case Extract(x, _, _) =>
      EvaluateConstant(bindings, x, env);
      RebuiltConstant(e, [Evaluate(bindings, x)]);
    case ZExt(x, _) =>
      EvaluateConstant(bindings, x, env);
      RebuiltConstant(e, [Evaluate(bindings, x)]);
    case SExt(x, _) =>
      EvaluateConstant(bindings, x, env);
      RebuiltConstant(e, [Evaluate(bindings, x)]);
    case Not(x) =>
      EvaluateConstant(bindings, x, env);
      RebuiltConstant(e, [Evaluate(bindings, x)]);
    case Binary(op, l, r) =>
      EvaluateConstant(bindings, l, env);
      EvaluateConstant(bindings, r, env);
      EvaluateMeaning(bindings, r, env);
      RebuiltConstant(e, [Evaluate(bindings, l), Evaluate(bindings, r)]);
    case Compare(_, l, r) =>
      EvaluateConstant(bindings, l, env);
      EvaluateConstant(bindings, r, env);
      RebuiltConstant(e, [Evaluate(bindings, l), Evaluate(bindings, r)]);
  }

  lemma {:induction false} EvaluateReadConstant(bindings: Bindings, a: Array, u: Updates, i: nat, env: Env)
    requires a.Valid() && WFUpdates(u, a) && i < Pow2(a.domain) && GoodBindings(bindings) && Agrees(bindings, env)
    requires DeterminedRead(bindings, a, u, i, env)
    ensures EvaluateRead(bindings, a, u, i).Constant?
    decreases u
  {
    hide CreateRead, GoodBindings, Agrees;
    match u
    case Empty =>
    case Update(index, value, next) =>
      EvaluateConstant(bindings, index, env);
      EvaluateMeaning(bindings, index, env);
      if Eval(index, env) == i {
        EvaluateConstant(bindings, value, env);
      } else {
        EvaluateReadConstant(bindings, a, next, i, env);
      }
  }

  /** Every constructor but the read and the barrier folds constant kids. */
  lemma RebuiltConstant(e: Expr, k: seq<Expr>)
    requires WF(e) && !e.Constant? && !e.Read? && !e.NotOptimized? && KidsFit(e, k) && AllConstant(k)
    ensures Rebuilt(e, k).Constant?
  {
    hide WF, Width, Rebuild;
    ConstantKids(e, k);
  }

  lemma ConstantKids(e: Expr, k: seq<Expr>)
    requires WF(e) && !e.Constant? && !e.Read? && !e.NotOptimized? && KidsFit(e, k) && AllConstant(k)
    ensures Rebuild(e, k).Constant?
  {
    hide WF, EvalBinary, Relates, AddPartialR, SubPartialR, AddGeneral, SubGeneral, EqPartialR, EqAlloc;
    KidsParts(e, k);
    WidthPositive(k[0]);
    assert forall i :: 0 <= i < |k| ==> k[i] in k && k[i].Constant?;
  }

  lemma PlainRead(a: Array, u: Updates, i: nat, env: Env)
    requires a.Valid() && WFUpdates(u, a) && i < Pow2(a.domain)
    ensures WF(Constant(i, a.domain)) && Width(Constant(i, a.domain)) == a.domain
    ensures Eval(CreateRead(a, u, Constant(i, a.domain)), env) == EvalRead(a, u, i, env)
  {
    hide CreateRead;
    ReadMeaning(a, u, Constant(i, a.domain), env);
  }

  // ---------------------------------------------------------------------- patching

  /** `findReads` without write logs: the cells read at constant indices. */
  function DirectReads(e: Expr): set<(Array, nat)> {
    match e
    case Constant(_, _) => {}
    case NotOptimized(x) => DirectReads(x)
    case Read(a, _, i) => if i.Constant? then {(a, Low(i.value, 32))} else DirectReads(i)
    case Select(c, t, f) => DirectReads(c) + DirectReads(t) + DirectReads(f)
    case Concat(l, r) => DirectReads(l) + DirectReads(r)
    case Extract(x, _, _) => DirectReads(x)
    case ZExt(x, _) => DirectReads(x)
    case SExt(x, _) => DirectReads(x)
    case Not(x) => DirectReads(x)
    case Binary(_, l, r) => DirectReads(l) + DirectReads(r)
    case Compare(_, l, r) => DirectReads(l) + DirectReads(r)
  }

  /** They are the constant cells of the reads among the parts of the expression. */
  lemma {:induction false} DirectReadsOf(e: Expr, c: (Array, nat))
    ensures c in DirectReads(e) <==>
      exists p :: p in Parts(e) && p.Read? && p.index.Constant? && c == (p.root, Low(p.index.value, 32))
  {
    hide Low;
    forall i | 0 <= i < |Kids(e)|
      ensures c in DirectReads(Kids(e)[i]) <==> exists p ::
        p in Parts(Kids(e)[i]) && p.Read? && p.index.Constant? && c == (p.root, Low(p.index.value, 32))
    {
      DirectReadsOf(Kids(e)[i], c);
    }
    forall p ensures p in Parts(e) <==> p == e || exists i :: 0 <= i < |Kids(e)| && p in Parts(Kids(e)[i]) {
      PartsOfKids(e, p);
    }
    DirectReadsOfKids(e, c);
  }

  lemma DirectReadsOfKids(e: Expr, c: (Array, nat))
    ensures c in DirectReads(e) <==>
      || (e.Read? && e.index.Constant? && c == (e.root, Low(e.index.value, 32)))
      || exists i :: 0 <= i < |Kids(e)| && c in DirectReads(Kids(e)[i])
  {
    hide Low;
    var k := Kids(e);
    if c in DirectReads(e) && !(e.Read? && e.index.Constant?) {
      assert c in DirectReads(k[0]) || (|k| > 1 && c in DirectReads(k[1])) || (|k| > 2 && c in DirectReads(k[2]));
    }
  }

  /** The condition that a cell holds a byte. */
  function IsByteAt(a: Array, i: nat, v: Byte): (e: Expr)
    requires ByteArray(a) && i < 0x1_0000_0000
    ensures IsCondition(e)
  {
    Pow2Values();
    CreateEq(CreateRead(a, Empty, Constant(i, Int32)), Constant(v, Int8))
  }

  lemma IsByteAtMeaning(a: Array, i: nat, v: Byte)
    requires ByteArray(a) && i < 0x1_0000_0000
    ensures forall env :: Holds(IsByteAt(a, i, v), env) <==> Cell(a, i, env) == v
  {
    hide CreateRead, CreateEq, Cell, Pow2;
    Pow2Values();
    forall env ensures Holds(IsByteAt(a, i, v), env) <==> Cell(a, i, env) == v {
      var read := CreateRead(a, Empty, Constant(i, Int32));
      PlainRead(a, Empty, i, env);
      EqMeaning(read, Constant(v, Int8), env);
    }
  }

  /** Every model of the constraints holds the assigned bytes at the given cells. */
  ghost predicate Fixed(cs: seq<Expr>, bindings: Bindings, cells: set<(Array, nat)>) {
    forall c :: c in cells ==> FixedAt(cs, bindings, c.0, c.1)
  }

  ghost predicate FixedAt(cs: seq<Expr>, bindings: Bindings, a: Array, i: nat) {
    a in bindings && i < |bindings[a]| && forall env :: Models(cs, env) ==> Cell(a, i, env) == bindings[a][i]
  }

  class SeedInfo {
    var bindings: Bindings

    constructor (bindings: Bindings)
      ensures this.bindings == bindings
    {
      this.bindings := bindings;
    }

    /** One byte: it is kept if some model of the working constraints allows it and replaced
        by a value one of them has otherwise; either way the working set now fixes it. */
    method PatchByte(a: Array, i: nat, tmp: ConstraintManager, solver: Solver, ghost fixed: set<(Array, nat)>)
      requires GoodBindings(bindings) && a in bindings && i < |bindings[a]|
      requires solver.Exact() && solver.Prompt() && tmp.Valid() && Satisfiable(tmp.constraints)
      requires Fixed(tmp.constraints, bindings, fixed)
      modifies this`bindings, tmp
      ensures GoodBindings(bindings) && bindings.Keys == old(bindings).Keys
      ensures tmp.Valid() && Satisfiable(tmp.constraints)
      ensures a in bindings && bindings == old(bindings)[a := old(bindings)[a][i := bindings[a][i]]]
      ensures forall env :: Models(tmp.constraints, env) <==>
        Models(old(tmp.constraints), env) && Cell(a, i, env) == bindings[a][i]
      ensures bindings[a][i] != old(bindings)[a][i] ==>
        forall env :: Models(old(tmp.constraints), env) ==> Cell(a, i, env) != old(bindings)[a][i]
      ensures Fixed(tmp.constraints, bindings, fixed + {(a, i)})
    {
      hide WF, Width, Eval, Models, Holds, IsByteAt, CreateRead, CreateIsZero, Cell, Conditions, Fixed;
      ghost var cs := tmp.constraints;
      var bytes := bindings[a];
      var isSeed := IsByteAt(a, i, bytes[i]);
      IsByteAtMeaning(a, i, bytes[i]);
      var impossible := MustBeFalse(cs, isSeed, solver, tmp);
      if impossible {
        var v := SomeByte(a, i, tmp, solver);
        IsByteAtMeaning(a, i, v);
        AttainedByte(cs, a, i, v);
        bindings := bindings[a := bytes[i := v]];
        tmp.AddConstraint(IsByteAt(a, i, v));
      } else {
        assert bytes[i := bytes[i]] == bytes && bindings[a := bytes] == bindings;
        tmp.AddConstraint(isSeed);
      }
      assert bindings[a] == bytes[i := bindings[a][i]];
      StillSatisfiable(cs, a, i, bindings[a][i], tmp.constraints);
      FixedMore(cs, tmp.constraints, old(bindings), bindings, fixed, a, i);
    }

    /** `patchSeed`: first the bytes the condition reads directly, and if the condition is still
        out of reach every bound byte. It always succeeds, changes no other byte if patching the
        direct reads (`direct`) was enough, and leaves a seed alone that could satisfy the
        condition as it was. */
    method PatchSeed(cs: seq<Expr>, condition: Expr, solver: Solver, rewriteEqualities: bool)
      returns (ghost direct: Bindings)
      requires GoodBindings(bindings) && Conditions(cs) && IsCondition(condition) && Possible(cs, condition)
      requires solver.Exact() && solver.Prompt()
      requires forall c :: c in DirectReads(condition) && c.0 in bindings ==> c.1 < |bindings[c.0]|
      modifies this`bindings
      ensures GoodBindings(bindings) && bindings.Keys == old(bindings).Keys
      ensures Possible(cs, Evaluate(bindings, condition))
      ensures GoodBindings(direct) && direct.Keys == bindings.Keys
      ensures forall a, i :: a in direct && 0 <= i < |direct[a]| && (a, i) !in DirectReads(condition) ==>
        |old(bindings)[a]| == |direct[a]| && direct[a][i] == old(bindings)[a][i]
      ensures Possible(cs, Evaluate(direct, condition)) ==> bindings == direct
      ensures (exists env :: Models(cs, env) && Holds(condition, env) && Agrees(old(bindings), env)) ==>
        bindings == old(bindings)
    {
      hide WF, Width, Eval, Models, Holds, Evaluate, Conditions, Fixed, DirectReads, Agrees;
      var tmp := new ConstraintManager(rewriteEqualities, cs);
      ghost var model :| Models(cs, model) && Holds(condition, model);
      tmp.AddConstraint(condition);
      assert Models(tmp.constraints, model);
      ghost var fixed := PatchDirectReads(cs, condition, tmp, solver, bindings);
      direct := bindings;
      var may := solver.mayBeTrue(cs, Evaluate(bindings, condition)).value;
      if may {
        return;
      }
      fixed := PatchAll(cs, condition, tmp, solver, old(bindings), fixed);
      Patched(cs, condition, tmp.constraints, bindings, fixed);
    }

    method PatchDirectReads(ghost cs: seq<Expr>, condition: Expr, tmp: ConstraintManager, solver: Solver,
                            ghost seed: Bindings)
      returns (ghost fixed: set<(Array, nat)>)
      requires GoodBindings(bindings) && solver.Exact() && solver.Prompt()
      requires Working(cs, condition, tmp.constraints, bindings, seed)
      requires tmp.Valid()
      requires forall c :: c in DirectReads(condition) && c.0 in bindings ==> c.1 < |bindings[c.0]|
      modifies this`bindings, tmp
      ensures GoodBindings(bindings) && bindings.Keys == old(bindings).Keys && tmp.Valid()
      ensures Working(cs, condition, tmp.constraints, bindings, seed) && Fixed(tmp.constraints, bindings, fixed)
      ensures forall c :: c in fixed <==> c in DirectReads(condition) && c.0 in bindings
      ensures forall a, i :: a in bindings && 0 <= i < |bindings[a]| && (a, i) !in fixed ==>
        |old(bindings)[a]| == |bindings[a]| && bindings[a][i] == old(bindings)[a][i]
    {
      hide WF, Width, Eval, Models, Holds, Conditions, Fixed, DirectReads, Agrees, Working;
      fixed := {};
      NoneFixed(tmp.constraints, bindings);
      var rest := DirectReads(condition);
      while rest != {}
        invariant rest <= DirectReads(condition) && GoodBindings(bindings) && tmp.Valid()
        invariant bindings.Keys == old(bindings).Keys && Working(cs, condition, tmp.constraints, bindings, seed)
        invariant Fixed(tmp.constraints, bindings, fixed)
        invariant forall c :: c in fixed <==> c in DirectReads(condition) && c.0 in bindings && c !in rest
        invariant forall a :: a in bindings ==> |old(bindings)[a]| == |bindings[a]|
        invariant forall a, i :: a in bindings && 0 <= i < |bindings[a]| && (a, i) !in fixed ==>
          bindings[a][i] == old(bindings)[a][i]
        invariant forall c :: c in DirectReads(condition) && c.0 in bindings ==> c.1 < |bindings[c.0]|
        decreases rest
      {
        var c :| c in rest;
        if c.0 in bindings {
          fixed := PatchNext(cs, condition, c.0, c.1, tmp, solver, seed, fixed);
        }
        rest := rest - {c};
      }
    }

    method PatchAll(ghost cs: seq<Expr>, ghost condition: Expr, tmp: ConstraintManager, solver: Solver,
                    ghost seed: Bindings, ghost before: set<(Array, nat)>)
      returns (ghost fixed: set<(Array, nat)>)
      requires GoodBindings(bindings) && solver.Exact() && solver.Prompt()
      requires Working(cs, condition, tmp.constraints, bindings, seed)
      requires tmp.Valid() && Fixed(tmp.constraints, bindings, before)
      modifies this`bindings, tmp
      ensures GoodBindings(bindings) && bindings.Keys == old(bindings).Keys && tmp.Valid()
      ensures Working(cs, condition, tmp.constraints, bindings, seed) && Fixed(tmp.constraints, bindings, fixed)
      ensures forall a, i :: a in bindings && 0 <= i < |bindings[a]| ==> (a, i) in fixed
    {
      hide WF, Width, Eval, Models, Holds, Conditions, Fixed, Agrees, Working;
      fixed := before;
      var arrays := bindings.Keys;
      while arrays != {}
        invariant arrays <= bindings.Keys == old(bindings).Keys && GoodBindings(bindings) && tmp.Valid()
        invariant Working(cs, condition, tmp.constraints, bindings, seed) && Fixed(tmp.constraints, bindings, fixed)
        invariant forall a, i :: a in bindings && a !in arrays && 0 <= i < |bindings[a]| ==> (a, i) in fixed
        decreases arrays
      {
        var a :| a in arrays;
        for i := 0 to a.size
          invariant bindings.Keys == old(bindings).Keys && GoodBindings(bindings) && tmp.Valid()
          invariant Working(cs, condition, tmp.constraints, bindings, seed) && Fixed(tmp.constraints, bindings, fixed)
          invariant forall b, k :: b in bindings && b !in arrays && 0 <= k < |bindings[b]| ==> (b, k) in fixed
          invariant forall k :: 0 <= k < i ==> (a, k) in fixed
        {
          fixed := PatchNext(cs, condition, a, i, tmp, solver, seed, fixed);
        }
        arrays := arrays - {a};
      }
    }

    method PatchNext(ghost cs: seq<Expr>, ghost condition: Expr, a: Array, i: nat, tmp: ConstraintManager,
                     solver: Solver, ghost seed: Bindings, ghost before: set<(Array, nat)>)
      returns (ghost fixed: set<(Array, nat)>)
      requires GoodBindings(bindings) && a in bindings && i < |bindings[a]|
      requires solver.Exact() && solver.Prompt() && Working(cs, condition, tmp.constraints, bindings, seed)
      requires tmp.Valid() && Fixed(tmp.constraints, bindings, before)
      modifies this`bindings, tmp
      ensures GoodBindings(bindings) && bindings.Keys == old(bindings).Keys && tmp.Valid()
      ensures forall b :: b in bindings ==> |bindings[b]| == |old(bindings)[b]|
      ensures forall b, k :: b in bindings && 0 <= k < |bindings[b]| && (b, k) != (a, i) ==>
        bindings[b][k] == old(bindings)[b][k]
      ensures Working(cs, condition, tmp.constraints, bindings, seed)
      ensures fixed == before + {(a, i)} && Fixed(tmp.constraints, bindings, fixed)
    {
      hide WF, Width, Eval, Models, Holds, Conditions, Fixed;
      PatchByte(a, i, tmp, solver, before);
      fixed := before + {(a, i)};
      forall env | Models(cs, env) && Holds(condition, env) && Agrees(seed, env)
        ensures Models(tmp.constraints, env) && bindings == seed
      {
        assert Cell(a, i, env) == old(bindings)[a][i];
        assert bindings[a] == old(bindings)[a];
      }
    }
  }

  /** The working constraints stay satisfiable and stronger than the goal, and a model of the
      goal that agrees with the seed keeps the seed as it is. */
  ghost predicate Working(cs: seq<Expr>, condition: Expr, tmp: seq<Expr>, bindings: Bindings, seed: Bindings) {
    && Satisfiable(tmp)
    && (forall env :: Models(tmp, env) ==> Models(cs, env) && Holds(condition, env))
    && (forall env :: Models(cs, env) && Holds(condition, env) && Agrees(seed, env) ==>
      Models(tmp, env) && bindings == seed)
  }

  lemma NoneFixed(cs: seq<Expr>, bindings: Bindings)
    ensures Fixed(cs, bindings, {})
  {
  }

  /** Once every bound byte is fixed, the seed itself evaluates the condition to something the
      constraints allow. */
  lemma Patched(cs: seq<Expr>, condition: Expr, tmp: seq<Expr>, bindings: Bindings, fixed: set<(Array, nat)>)
    requires GoodBindings(bindings) && IsCondition(condition) && Fixed(tmp, bindings, fixed) && Satisfiable(tmp)
    requires forall env :: Models(tmp, env) ==> Models(cs, env) && Holds(condition, env)
    requires forall a, i :: a in bindings && 0 <= i < |bindings[a]| ==> (a, i) in fixed
    ensures Possible(cs, Evaluate(bindings, condition))
  {
    hide Models, Eval, Cell, Evaluate, WF, Width;
    var env :| Models(tmp, env);
    forall a, i | a in bindings && 0 <= i < |bindings[a]| ensures Cell(a, i, env) == bindings[a][i] {
      assert (a, i) in fixed && FixedAt(tmp, bindings, (a, i).0, (a, i).1);
    }
    EvaluateMeaning(bindings, condition, env);
    assert Holds(Evaluate(bindings, condition), env);
  }

  /** `mustBeFalse`: the negation must be true. */
  method MustBeFalse(ghost cs: seq<Expr>, e: Expr, solver: Solver, tmp: ConstraintManager) returns (res: bool)
    requires solver.Exact() && solver.Prompt() && IsCondition(e) && cs == tmp.constraints
    ensures res <==> forall env :: Models(cs, env) ==> !Holds(e, env)
    ensures !res <==> Possible(cs, e)
  {
    hide WF, Width, Eval, Models, CreateIsZero;
    Negation(e);
    res := solver.mustBeTrue(tmp.constraints, CreateIsZero(e)).value;
  }

  /** A value the cell has in some model. */
  method SomeByte(a: Array, i: nat, tmp: ConstraintManager, solver: Solver) returns (v: Byte)
    requires solver.Exact() && solver.Prompt() && Satisfiable(tmp.constraints) && ByteArray(a) && i < 0x1_0000_0000
    ensures exists env :: Models(tmp.constraints, env) && Cell(a, i, env) == v
  {
    hide CreateRead, Models, Cell, Pow2;
    Pow2Values();
    var read := CreateRead(a, Empty, Constant(i, Int32));
    var sample := solver.getValue(tmp.constraints, read).value;
    ghost var env :| Models(tmp.constraints, env) && Eval(read, env) == sample;
    PlainRead(a, Empty, i, env);
    EvalBound(read, env);
    v := sample;
  }

  lemma AttainedByte(cs: seq<Expr>, a: Array, i: nat, v: Byte)
    requires ByteArray(a) && i < 0x1_0000_0000 && exists env :: Models(cs, env) && Cell(a, i, env) == v
    ensures Possible(cs, IsByteAt(a, i, v))
  {
    hide Models, Cell, IsByteAt;
    IsByteAtMeaning(a, i, v);
    var env :| Models(cs, env) && Cell(a, i, env) == v;
    assert Holds(IsByteAt(a, i, v), env);
  }

  lemma StillSatisfiable(cs: seq<Expr>, a: Array, i: nat, v: Byte, more: seq<Expr>)
    requires exists env :: Models(cs, env) && Cell(a, i, env) == v
    requires forall env :: Models(more, env) <==> Models(cs, env) && Cell(a, i, env) == v
    ensures Satisfiable(more)
  {
    hide Models, Cell;
  }

  lemma FixedMore(cs: seq<Expr>, more: seq<Expr>, bindings: Bindings, patched: Bindings, fixed: set<(Array, nat)>,
                  a: Array, i: nat)
    requires Fixed(cs, bindings, fixed) && a in bindings && i < |bindings[a]|
    requires a in patched && |patched[a]| == |bindings[a]| && patched == bindings[a := bindings[a][i := patched[a][i]]]
    requires forall env :: Models(more, env) <==> Models(cs, env) && Cell(a, i, env) == patched[a][i]
    ensures Fixed(more, patched, fixed + {(a, i)})
  {
    hide Models, Cell;
    forall c | c in fixed + {(a, i)} ensures FixedAt(more, patched, c.0, c.1) {
      if c != (a, i) {
        assert FixedAt(cs, bindings, c.0, c.1);
        assert patched[c.0][c.1] == bindings[c.0][c.1];
      }
    }
  }
}
