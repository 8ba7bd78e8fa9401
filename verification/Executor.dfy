/** How the executor splits a path: forks on a condition, branches on several, and the
    lowering of a switch. */
module Executor {
  import opened Bits
  import opened Exprs
  import opened Create
  import opened Logic
  import opened Sequences
  import opened Solvers
  import opened Constraints

  type Block = nat

  datatype Case = Case(value: nat, successor: Block)

  /** The block the switch instruction selects for a value: that of the first case with the
      value, or the default. */
  function Selected(cases: seq<Case>, defaultDest: Block, v: nat): (b: Block)
    ensures (forall i :: 0 <= i < |cases| ==> cases[i].value != v) ==> b == defaultDest
    ensures forall i :: 0 <= i < |cases| && cases[i].value == v && (forall j :: 0 <= j < i ==> cases[j].value != v) ==>
      b == cases[i].successor
  {
    if cases == [] then defaultDest
    else if cases[0].value == v then cases[0].successor
    else Selected(cases[1..], defaultDest, v)
  }

  function CaseTarget(order: map<nat, Block>, defaultDest: Block, v: nat): Block {
    if v in order then order[v] else defaultDest
  }

  ghost predicate Answers(solver: Solver, cs: seq<Expr>) {
    forall e :: solver.mayBeTrue(cs, e).Answer?
  }

  /** Where a value goes if only the cases in `done` count. */
  function Goes(order: map<nat, Block>, done: set<nat>, defaultDest: Block, v: nat): Block {
    if v in done && v in order then order[v] else defaultDest
  }

  /** The default condition holds exactly of the values that no case handled so far takes
      elsewhere. */
  ghost predicate DefaultLowered(cond: Expr, order: map<nat, Block>, defaultDest: Block, done: set<nat>,
                                 defaultValue: Expr) {
    && IsCondition(defaultValue)
    && forall env :: Holds(defaultValue, env) <==> Goes(order, done, defaultDest, Eval(cond, env)) == defaultDest
  }

  /** Among the models, the condition of a target holds exactly of the values that go there,
      and every value that leaves the default has a target. */
  ghost predicate TargetsLowered(cs: seq<Expr>, cond: Expr, order: map<nat, Block>, defaultDest: Block, done: set<nat>,
                                 branchTargets: map<Block, Expr>) {
    && (forall b :: b in branchTargets ==> IsCondition(branchTargets[b]) && Possible(cs, branchTargets[b]))
    && (forall b, env :: b in branchTargets && Models(cs, env) ==>
          (Holds(branchTargets[b], env) <==> Goes(order, done, defaultDest, Eval(cond, env)) == b))
    && (forall env :: Models(cs, env) && Goes(order, done, defaultDest, Eval(cond, env)) != defaultDest ==>
          Goes(order, done, defaultDest, Eval(cond, env)) in branchTargets)
  }

  ghost predicate Listed(targets: seq<Block>, branchTargets: map<Block, Expr>, defaultDest: Block) {
    NoDuplicates(targets) && (forall b :: b in targets <==> b in branchTargets) && defaultDest !in branchTargets
  }

  /** The cases handled so far. */
  ghost predicate Lowered(cs: seq<Expr>, cond: Expr, order: map<nat, Block>, defaultDest: Block, done: set<nat>,
                          branchTargets: map<Block, Expr>, defaultValue: Expr, targets: seq<Block>) {
    && DefaultLowered(cond, order, defaultDest, done, defaultValue)
    && TargetsLowered(cs, cond, order, defaultDest, done, branchTargets)
    && Listed(targets, branchTargets, defaultDest)
  }

  /** The part of an execution state that splitting a path touches. */
  class PathState {
    var constraints: seq<Expr>
    var block: Block
    var depth: nat

    constructor (constraints: seq<Expr>, block: Block, depth: nat)
      ensures this.constraints == constraints && this.block == block && this.depth == depth
    {
      this.constraints, this.block, this.depth := constraints, block, depth;
    }

    ghost predicate Valid()
      reads this
    {
      Conditions(constraints) && Satisfiable(constraints)
    }

    /** `branch`: a copy one level deeper. */
    method Branch() returns (copy: PathState)
      modifies this`depth
      ensures fresh(copy) && copy.constraints == constraints && copy.block == block
      ensures depth == old(depth) + 1 == copy.depth
    {
      depth := depth + 1;
      copy := new PathState(constraints, block, depth);
    }
  }

  class PathExecutor {
    const solver: Solver
    const rewriteEqualities: bool
    var addedStates: seq<PathState>

    constructor (solver: Solver, rewriteEqualities: bool)
      ensures this.solver == solver && addedStates == []
    {
      this.solver, this.rewriteEqualities, addedStates := solver, rewriteEqualities, [];
    }

    /** `addConstraint`; adding a condition that is constantly false is a fatal error. */
    method AddConstraint(state: PathState, condition: Expr)
      requires Conditions(state.constraints) && IsCondition(condition) && Possible(state.constraints, condition)
      modifies state`constraints
      ensures state.Valid()
      ensures forall env :: Models(state.constraints, env) <==>
        Models(old(state.constraints), env) && Holds(condition, env)
    {
      hide WF, Width, Eval, Models;
      ghost var model :| Models(state.constraints, model) && Holds(condition, model);
      if condition.Constant? {
        ConstantCondition(condition, model);
        return;
      }
      var cm := new ConstraintManager(rewriteEqualities, state.constraints);
      cm.AddConstraint(condition);
      state.constraints := cm.constraints;
      assert Models(state.constraints, model);
    }

    /** `fork` on a condition. The true side keeps the current state, the false side is a
        copy unless only the false side is possible. Where forking is inhibited a coin
        decides which side survives. */
    method Fork(current: PathState, condition: Expr, inhibited: bool, coin: bool)
      returns (onTrue: PathState?, onFalse: PathState?, timedOut: bool)
      requires solver.Exact() && current.Valid() && IsCondition(condition)
      modifies this`addedStates, current`constraints, current`depth
      ensures timedOut ==> onTrue == null && onFalse == null && current.constraints == old(current.constraints)
      ensures !timedOut ==> onTrue != null || onFalse != null
      ensures solver.Prompt() ==> !timedOut
      ensures onTrue != null ==> onTrue == current && onTrue.Valid()
      ensures onFalse != null ==> onFalse.Valid() && (if onTrue == null then onFalse == current else fresh(onFalse))
      ensures addedStates == if onTrue != null && onFalse != null then old(addedStates) + [onFalse]
        else old(addedStates)
      ensures onTrue != null ==> forall env ::
        Models(onTrue.constraints, env) <==> Models(old(current.constraints), env) && Holds(condition, env)
      ensures onFalse != null ==> forall env ::
        Models(onFalse.constraints, env) <==> Models(old(current.constraints), env) && !Holds(condition, env)
      ensures !timedOut && !inhibited ==>
        && (onTrue == null ==> forall env :: Models(old(current.constraints), env) ==> !Holds(condition, env))
        && (onFalse == null ==> forall env :: Models(old(current.constraints), env) ==> Holds(condition, env))
      ensures !timedOut && inhibited ==>
        var before := old(current.constraints);
        Possible(before, condition) && !Certain(before, condition) ==>
          (onTrue != null <==> coin) && (onFalse != null <==> !coin)
      ensures onFalse != null ==> onFalse.block == current.block
      ensures onTrue != null && onFalse != null ==> onFalse.depth == current.depth == old(current.depth) + 1
      ensures onTrue == null || onFalse == null ==> current.depth == old(current.depth)
    {
      hide WF, Width, Eval, Models, Conditions, Holds;
      onTrue, onFalse := null, null;
      var answer := solver.evaluate(current.constraints, condition);
      if answer.TimedOut? {
        return null, null, true;
      }
      timedOut := false;
      Negation(condition);
      if answer.value == Valid {
        onTrue := current;
      } else if answer.value == Invalid {
        onFalse := current;
      } else if inhibited {
        if coin {
          AddConstraint(current, condition);
          onTrue := current;
        } else {
          AddConstraint(current, CreateIsZero(condition));
          onFalse := current;
        }
      } else {
        onTrue := current;
        var copy := current.Branch();
        onFalse := copy;
        addedStates := addedStates + [copy];
        AddConstraint(current, condition);
        AddConstraint(copy, CreateIsZero(condition));
      }
    }

    /** `branch` on several conditions: the first result is the state itself, the others are
        copies of earlier results picked at random, and each gets its own condition. At the
        fork cap one random condition survives. */
    method Branch(state: PathState, conditions: seq<Expr>, rng: nat -> nat, capped: bool)
      returns (result: seq<PathState?>)
      requires state.Valid() && conditions != []
      requires forall i :: 0 <= i < |conditions| ==>
        IsCondition(conditions[i]) && Possible(state.constraints, conditions[i])
      modifies this`addedStates, state`constraints, state`depth
      ensures |result| == |conditions|
      ensures !capped ==> result[0] == state && forall i :: 0 < i < |result| ==> result[i] != null && fresh(result[i])
      ensures !capped ==> NoDuplicates(result) && addedStates == old(addedStates) + result[1..]
      ensures capped ==> addedStates == old(addedStates)
      ensures capped ==> forall i :: 0 <= i < |result| ==>
        result[i] == if i == rng(0) % |conditions| then state else null
      ensures forall i :: 0 <= i < |result| && result[i] != null ==> result[i].Valid() && result[i].block == state.block
      ensures forall i, env :: 0 <= i < |result| && result[i] != null ==>
        (Models(result[i].constraints, env) <==> Models(old(state.constraints), env) && Holds(conditions[i], env))
    {
      hide WF, Width, Eval, Models, Conditions, Holds, IsCondition;
      if capped {
        var next := rng(0) % |conditions|;
        result := seq(|conditions|, i => if i == next then state else null);
        AddConstraint(state, conditions[next]);
      } else {
        var copies := Copies(state, |conditions|, rng);
        result := copies;
        for i := 0 to |conditions|
          invariant forall k :: 0 <= k < i ==> copies[k].Valid()
          invariant forall k, env :: 0 <= k < i ==>
            (Models(copies[k].constraints, env) <==> Models(old(state.constraints), env) && Holds(conditions[k], env))
          invariant forall k :: i <= k < |conditions| ==> copies[k].constraints == old(state.constraints)
          invariant forall k :: 0 <= k < |conditions| ==> copies[k].block == state.block
          invariant addedStates == old(addedStates) + copies[1..]
        {
          AddConstraint(copies[i], conditions[i]);
        }
      }
    }

    method Copies(state: PathState, n: nat, rng: nat -> nat) returns (result: seq<PathState>)
      requires n > 0
      modifies this`addedStates, state`depth
      ensures |result| == n && result[0] == state && NoDuplicates(result)
      ensures addedStates == old(addedStates) + result[1..]
      ensures forall i :: 0 < i < n ==> fresh(result[i])
      ensures forall i :: 0 <= i < n ==> result[i].constraints == state.constraints && result[i].block == state.block
    {
      result := [state];
      for i := 1 to n
        invariant |result| == i && result[0] == state && NoDuplicates(result)
        invariant addedStates == old(addedStates) + result[1..]
        invariant forall k :: 0 < k < i ==> fresh(result[k])
        invariant forall k :: 0 <= k < i ==>
          result[k].constraints == state.constraints && result[k].block == state.block
      {
        var copy := result[rng(i) % i].Branch();
        addedStates := addedStates + [copy];
        result := result + [copy];
      }
    }

    /** `toUnique`: an expression with only one value becomes that constant. */
    method ToUnique(cs: seq<Expr>, e: Expr) returns (unique: Expr)
      requires solver.Exact() && Satisfiable(cs) && WF(e)
      ensures WF(unique) && Width(unique) == Width(e)
      ensures forall env :: Models(cs, env) ==> Eval(unique, env) == Eval(e, env)
      ensures unique == e || unique.Constant?
      ensures solver.Prompt() ==> (unique.Constant? <==> e.Constant? || exists v :: OnlyValue(cs, e, v))
    {
      hide WF, Width, Eval, Models, CreateEq;
      unique := e;
      if !e.Constant? {
        var sample := solver.getValue(cs, e);
        if sample.Answer? {
          AttainedConstant(cs, e, sample.value);
          var value := Constant(sample.value, Width(e));
          var must := solver.mustBeTrue(cs, CreateEq(e, value));
          EqualsConstant(e, sample.value);
          CertainValue(cs, e, sample.value, CreateEq(e, value));
          if must.Answer? && must.value {
            forall env | Models(cs, env) ensures Eval(value, env) == Eval(e, env) {
              ConstantValue(value, env);
            }
            unique := value;
          }
        }
      }
    }

    /** `toConstant`: the expression is simplified under the constraints and the state
        restricted to one of its values. */
    method ToConstant(state: PathState, e: Expr) returns (value: Expr)
      requires solver.Exact() && state.Valid() && WF(e) && forall x :: solver.getValue(state.constraints, x).Answer?
      modifies state`constraints
      ensures state.Valid() && value.Constant? && WF(value) && Width(value) == Width(e)
      ensures forall env :: Models(state.constraints, env) <==>
        Models(old(state.constraints), env) && Eval(e, env) == value.value
      ensures forall env :: Eval(value, env) == value.value
    {
      hide WF, Width, Eval, Models, CreateEq, Conditions, Holds, PathState.Valid;
      StateConditions(state);
      var cm := new ConstraintManager(rewriteEqualities, state.constraints);
      var simple := cm.SimplifyExpr(e);
      value := Concretize(state, simple);
    }

    method Concretize(state: PathState, e: Expr) returns (value: Expr)
      requires solver.Exact() && state.Valid() && WF(e) && solver.getValue(state.constraints, e).Answer?
      modifies state`constraints
      ensures state.Valid() && value.Constant? && WF(value) && Width(value) == Width(e)
      ensures forall env :: Models(state.constraints, env) <==>
        Models(old(state.constraints), env) && Eval(e, env) == value.value
      ensures forall env :: Eval(value, env) == value.value
    {
      hide WF, Width, Eval, Models, CreateEq, Conditions, Holds;
      if e.Constant? {
        forall env ensures Eval(e, env) == e.value {
          ConstantValue(e, env);
        }
        return e;
      }
      var sample := solver.getValue(state.constraints, e);
      AttainedConstant(state.constraints, e, sample.value);
      value := Constant(sample.value, Width(e));
      forall env ensures Eval(value, env) == value.value {
        ConstantValue(value, env);
      }
      EqualsConstant(e, sample.value);
      PossibleMatch(state.constraints, e, sample.value, CreateEq(e, value));
      AddConstraint(state, CreateEq(e, value));
    }

    lemma StateConditions(state: PathState)
      requires state.Valid()
      ensures Conditions(state.constraints)
    {
    }

    /** The successor blocks of a symbolic switch and the condition of each. Cases that lead
        to the default block are left to the default condition. */
    method SwitchTargets(cs: seq<Expr>, cond: Expr, cases: seq<Case>, defaultDest: Block)
      returns (targets: seq<Block>, conditions: seq<Expr>)
      requires solver.Exact() && Answers(solver, cs) && Satisfiable(cs)
      requires WF(cond) && forall i :: 0 <= i < |cases| ==> cases[i].value < Pow2(Width(cond))
      ensures |targets| == |conditions| > 0 && NoDuplicates(targets)
      ensures forall i :: 0 <= i < |targets| ==> IsCondition(conditions[i]) && Possible(cs, conditions[i])
      ensures forall i, env :: 0 <= i < |targets| && Models(cs, env) ==>
        (Holds(conditions[i], env) <==> targets[i] == Selected(cases, defaultDest, Eval(cond, env)))
      ensures forall env :: Models(cs, env) ==> Selected(cases, defaultDest, Eval(cond, env)) in targets
    {
      hide WF, Width, Eval, Models, Holds, Pow2, Lowered, Selected, Possible;
      WidthPositive(cond);
      var expressionOrder := ExpressionOrder(cases, defaultDest);
      var branchTargets: map<Block, Expr> := map[];
      var defaultValue := True;
      targets := [];
      var rest := expressionOrder.Keys;
      LoweredNone(cs, cond, expressionOrder, defaultDest);
      assert expressionOrder.Keys - rest == {};
      while rest != {}
        invariant rest <= expressionOrder.Keys
        invariant Lowered(cs, cond, expressionOrder, defaultDest, expressionOrder.Keys - rest, branchTargets,
                          defaultValue, targets)
        decreases rest
      {
        var value :| value in rest;
        branchTargets, defaultValue, targets :=
          AddCase(cs, cond, expressionOrder, defaultDest, expressionOrder.Keys - rest, branchTargets, defaultValue,
                  targets, value);
        assert expressionOrder.Keys - rest + {value} == expressionOrder.Keys - (rest - {value});
        rest := rest - {value};
      }
      assert expressionOrder.Keys - rest == expressionOrder.Keys;
      targets, conditions := AddDefault(cs, cond, expressionOrder, defaultDest, branchTargets, defaultValue, targets);
    }

    method ExpressionOrder(cases: seq<Case>, defaultDest: Block) returns (order: map<nat, Block>)
      ensures forall v :: CaseTarget(order, defaultDest, v) == Selected(cases, defaultDest, v)
      ensures forall v :: v in order ==> exists i :: 0 <= i < |cases| && cases[i].value == v
    {
      order := map[];
      for i := 0 to |cases|
        invariant forall v :: v in order ==> exists k :: 0 <= k < i && cases[k].value == v
        invariant forall v ::
          Selected(cases, defaultDest, v) == if v in order then order[v] else Selected(cases[i..], defaultDest, v)
      {
        assert cases[i..][1..] == cases[i + 1..];
        if cases[i].value !in order {
          order := order[cases[i].value := cases[i].successor];
        }
      }
    }

    method AddCase(cs: seq<Expr>, cond: Expr, order: map<nat, Block>, defaultDest: Block, ghost done: set<nat>,
                   branchTargets: map<Block, Expr>, defaultValue: Expr, targets: seq<Block>, value: nat)
      returns (branchTargets': map<Block, Expr>, defaultValue': Expr, targets': seq<Block>)
      requires solver.Exact() && Answers(solver, cs)
      requires WF(cond) && Width(cond) > 0 && value in order && value < Pow2(Width(cond)) && value !in done
      requires Lowered(cs, cond, order, defaultDest, done, branchTargets, defaultValue, targets)
      ensures Lowered(cs, cond, order, defaultDest, done + {value}, branchTargets', defaultValue', targets')
    {
      hide WF, Width, Eval, Models, Holds, CreateEq, CreateIsZero, CreateAnd, CreateOr, Pow2, Lowered;
      branchTargets', defaultValue', targets' := branchTargets, defaultValue, targets;
      EqualsConstant(cond, value);
      var matches := CreateEq(cond, Constant(value, Width(cond)));
      var successor := order[value];
      if successor == defaultDest {
        LoweredSkip(cs, cond, order, defaultDest, done, branchTargets, defaultValue, targets, value);
        return;
      }
      LoweredConditions(cs, cond, order, defaultDest, done, branchTargets, defaultValue, targets);
      NoMatch(cond, matches, value, defaultValue);
      defaultValue' := CreateAnd(defaultValue, CreateIsZero(matches));
      var may := solver.mayBeTrue(cs, matches);
      if may.value {
        var previous := if successor in branchTargets then branchTargets[successor] else False;
        TrueFalse();
        Disjunction(matches, previous);
        branchTargets' := branchTargets[successor := CreateOr(matches, previous)];
        if successor !in branchTargets {
          targets' := targets + [successor];
        }
        PossibleMatch(cs, cond, value, CreateOr(matches, previous));
        LoweredMatch(cs, cond, order, defaultDest, done, branchTargets, defaultValue, targets, value, defaultValue',
                     successor, CreateOr(matches, previous));
      } else {
        LoweredNoMatch(cs, cond, order, defaultDest, done, branchTargets, defaultValue, targets, value, defaultValue');
      }
    }

    /** The default block joins the targets if some model reaches it, and every target gets
        its condition. */
    method AddDefault(cs: seq<Expr>, cond: Expr, order: map<nat, Block>, defaultDest: Block,
                      branchTargets: map<Block, Expr>, defaultValue: Expr, targets: seq<Block>)
      returns (targets': seq<Block>, conditions: seq<Expr>)
      requires solver.Exact() && Answers(solver, cs) && Satisfiable(cs)
      requires Lowered(cs, cond, order, defaultDest, order.Keys, branchTargets, defaultValue, targets)
      ensures |targets'| == |conditions| > 0 && NoDuplicates(targets')
      ensures forall i :: 0 <= i < |targets'| ==> IsCondition(conditions[i]) && Possible(cs, conditions[i])
      ensures forall i, env :: 0 <= i < |targets'| && Models(cs, env) ==>
        (Holds(conditions[i], env) <==> targets'[i] == CaseTarget(order, defaultDest, Eval(cond, env)))
      ensures forall env :: Models(cs, env) ==> CaseTarget(order, defaultDest, Eval(cond, env)) in targets'
    {
      hide WF, Width, Eval, Models, Conditions, Holds, IsCondition, Possible;
      var all := branchTargets;
      targets' := targets;
      var may := solver.mayBeTrue(cs, defaultValue);
      if may.value {
        all := branchTargets[defaultDest := defaultValue];
        targets' := targets + [defaultDest];
      } else {
        assert forall env :: Models(cs, env) ==> !Holds(defaultValue, env) by { Impossible(cs, defaultValue); }
      }
      assert forall v :: Goes(order, order.Keys, defaultDest, v) == CaseTarget(order, defaultDest, v);
      assert forall b :: b in targets' <==> b in all;
      assert forall i :: 0 <= i < |targets'| ==> targets'[i] in targets';
      ghost var model :| Models(cs, model);
      assert CaseTarget(order, defaultDest, Eval(cond, model)) in targets';
      conditions := seq(|targets'|, i requires 0 <= i < |targets'| => all[targets'[i]]);
    }

    /** A switch instruction. Every successor allows exactly the models for which the switch
        selects its block, and every model of the state has a successor. */
    method ExecuteSwitch(state: PathState, cond: Expr, cases: seq<Case>, defaultDest: Block, rng: nat -> nat)
      returns (result: seq<PathState>)
      requires solver.Exact() && Answers(solver, state.constraints) && state.Valid()
      requires WF(cond) && forall i :: 0 <= i < |cases| ==> cases[i].value < Pow2(Width(cond))
      modifies this`addedStates, state
      ensures result != [] && result[0] == state && forall i :: 0 < i < |result| ==> fresh(result[i])
      ensures forall i, j :: 0 <= i < j < |result| ==> result[i] != result[j] && result[i].block != result[j].block
      ensures forall i, env :: 0 <= i < |result| ==>
        (Models(result[i].constraints, env) <==>
           Models(old(state.constraints), env) && result[i].block == Selected(cases, defaultDest, Eval(cond, env)))
      ensures forall env :: Models(old(state.constraints), env) ==>
        exists i :: 0 <= i < |result| && result[i].block == Selected(cases, defaultDest, Eval(cond, env))
    {
      hide WF, Width, Eval, Models, Conditions, Holds, Pow2, Selected, Possible, IsCondition;
      var unique := ToUnique(state.constraints, cond);
      if unique.Constant? {
        state.block := Selected(cases, defaultDest, unique.value);
        result := [state];
        forall env | Models(state.constraints, env)
          ensures state.block == Selected(cases, defaultDest, Eval(cond, env))
        {
          ConstantValue(unique, env);
        }
        assert result[0] == state;
      } else {
        result := SwitchSymbolic(state, unique, cases, defaultDest, rng);
      }
    }

    method SwitchSymbolic(state: PathState, cond: Expr, cases: seq<Case>, defaultDest: Block, rng: nat -> nat)
      returns (result: seq<PathState>)
      requires solver.Exact() && Answers(solver, state.constraints) && state.Valid()
      requires WF(cond) && forall i :: 0 <= i < |cases| ==> cases[i].value < Pow2(Width(cond))
      modifies this`addedStates, state
      ensures result != [] && result[0] == state && forall i :: 0 < i < |result| ==> fresh(result[i])
      ensures forall i, j :: 0 <= i < j < |result| ==> result[i] != result[j] && result[i].block != result[j].block
      ensures forall i, env :: 0 <= i < |result| ==>
        (Models(result[i].constraints, env) <==>
           Models(old(state.constraints), env) && result[i].block == Selected(cases, defaultDest, Eval(cond, env)))
      ensures forall env :: Models(old(state.constraints), env) ==>
        exists i :: 0 <= i < |result| && result[i].block == Selected(cases, defaultDest, Eval(cond, env))
    {
      hide WF, Width, Eval, Models, Conditions, Holds, Pow2, Selected, Possible, IsCondition;
      ghost var cs := state.constraints;
      var targets, conditions := SwitchTargets(state.constraints, cond, cases, defaultDest);
      var branches := Branch(state, conditions, rng, false);
      label branched:
      result := Transfer(branches, targets);
      forall i, env | 0 <= i < |result|
        ensures Models(result[i].constraints, env) <==>
          Models(cs, env) && result[i].block == Selected(cases, defaultDest, Eval(cond, env))
      {
        assert result[i] == branches[i] && result[i].block == targets[i];
        assert result[i].constraints == old@branched(branches[i].constraints);
        assert Models(result[i].constraints, env) <==> Models(cs, env) && Holds(conditions[i], env);
        assert Models(cs, env) ==>
          (Holds(conditions[i], env) <==> targets[i] == Selected(cases, defaultDest, Eval(cond, env)));
      }
      forall env | Models(cs, env)
        ensures exists i :: 0 <= i < |result| && result[i].block == Selected(cases, defaultDest, Eval(cond, env))
      {
        var i := IndexOf(targets, Selected(cases, defaultDest, Eval(cond, env)));
        assert result[i].block == targets[i];
      }
    }

    method Transfer(branches: seq<PathState?>, targets: seq<Block>) returns (result: seq<PathState>)
      requires |branches| == |targets| && NoDuplicates(branches)
      requires forall i :: 0 <= i < |branches| ==> branches[i] != null
      modifies (set s | s in branches)`block
      ensures result == branches && forall i :: 0 <= i < |result| ==> result[i].block == targets[i]
    {
      result := [];
      for i := 0 to |branches|
        invariant result == branches[..i] && forall k :: 0 <= k < i ==> result[k].block == targets[k]
      {
        branches[i].block := targets[i];
        result := result + [branches[i]];
      }
    }
  }

  lemma ConstantValue(e: Expr, env: Env)
    requires e.Constant?
    ensures Eval(e, env) == e.value
  {
  }

  lemma Impossible(cs: seq<Expr>, e: Expr)
    requires !Possible(cs, e)
    ensures forall env :: Models(cs, env) ==> !Holds(e, env)
  {
  }

  lemma NoMatch(cond: Expr, matches: Expr, v: nat, defaultValue: Expr)
    requires IsCondition(matches) && IsCondition(defaultValue)
    requires forall env :: Holds(matches, env) <==> Eval(cond, env) == v
    ensures WF(matches) && IsCondition(CreateIsZero(matches))
    ensures IsCondition(CreateAnd(defaultValue, CreateIsZero(matches)))
    ensures forall env :: Holds(CreateAnd(defaultValue, CreateIsZero(matches)), env) <==>
      Holds(defaultValue, env) && Eval(cond, env) != v
  {
    hide CreateAnd, CreateIsZero, Eval;
    Negation(matches);
    Conjunction(defaultValue, CreateIsZero(matches));
  }

  lemma LoweredNone(cs: seq<Expr>, cond: Expr, order: map<nat, Block>, defaultDest: Block)
    ensures Lowered(cs, cond, order, defaultDest, {}, map[], True, [])
  {
    TrueFalse();
  }

  lemma LoweredConditions(cs: seq<Expr>, cond: Expr, order: map<nat, Block>, defaultDest: Block, done: set<nat>,
                          branchTargets: map<Block, Expr>, defaultValue: Expr, targets: seq<Block>)
    requires Lowered(cs, cond, order, defaultDest, done, branchTargets, defaultValue, targets)
    ensures IsCondition(defaultValue) && forall b :: b in branchTargets ==> IsCondition(branchTargets[b])
  {
  }

  lemma LoweredSkip(cs: seq<Expr>, cond: Expr, order: map<nat, Block>, defaultDest: Block, done: set<nat>,
                    branchTargets: map<Block, Expr>, defaultValue: Expr, targets: seq<Block>, value: nat)
    requires Lowered(cs, cond, order, defaultDest, done, branchTargets, defaultValue, targets)
    requires value in order && order[value] == defaultDest
    ensures Lowered(cs, cond, order, defaultDest, done + {value}, branchTargets, defaultValue, targets)
  {
    hide Eval, Models, Holds, IsCondition, Possible, Listed, Goes;
    assert forall v :: Goes(order, done + {value}, defaultDest, v) == Goes(order, done, defaultDest, v) by {
      GoesSkip(order, done, defaultDest, value);
    }
  }

  lemma GoesSkip(order: map<nat, Block>, done: set<nat>, defaultDest: Block, value: nat)
    requires value in order && order[value] == defaultDest
    ensures forall v :: Goes(order, done + {value}, defaultDest, v) == Goes(order, done, defaultDest, v)
  {
  }

  lemma LoweredNoMatch(cs: seq<Expr>, cond: Expr, order: map<nat, Block>, defaultDest: Block, done: set<nat>,
                       branchTargets: map<Block, Expr>, defaultValue: Expr, targets: seq<Block>, value: nat,
                       defaultValue': Expr)
    requires Lowered(cs, cond, order, defaultDest, done, branchTargets, defaultValue, targets)
    requires value in order && value !in done && order[value] != defaultDest && IsCondition(defaultValue')
    requires forall env :: Holds(defaultValue', env) <==> Holds(defaultValue, env) && Eval(cond, env) != value
    requires forall env :: Models(cs, env) ==> Eval(cond, env) != value
    ensures Lowered(cs, cond, order, defaultDest, done + {value}, branchTargets, defaultValue', targets)
  {
    hide Eval, Models, Holds, IsCondition, Possible, Listed, Goes;
    GoesStep(order, done, defaultDest, value);
  }

  lemma LoweredMatch(cs: seq<Expr>, cond: Expr, order: map<nat, Block>, defaultDest: Block, done: set<nat>,
                     branchTargets: map<Block, Expr>, defaultValue: Expr, targets: seq<Block>, value: nat,
                     defaultValue': Expr, b: Block, e: Expr)
    requires Lowered(cs, cond, order, defaultDest, done, branchTargets, defaultValue, targets)
    requires value in order && value !in done && order[value] == b != defaultDest && IsCondition(defaultValue')
    requires IsCondition(e)
    requires forall env :: Holds(defaultValue', env) <==> Holds(defaultValue, env) && Eval(cond, env) != value
    requires Possible(cs, e)
    requires forall env :: Holds(e, env) <==>
      Eval(cond, env) == value || (b in branchTargets && Holds(branchTargets[b], env))
    ensures Lowered(cs, cond, order, defaultDest, done + {value}, branchTargets[b := e], defaultValue',
                    if b in branchTargets then targets else targets + [b])
  {
    hide Eval, Models, Holds, IsCondition, Possible, Goes, Listed, TargetsLowered;
    GoesStep(order, done, defaultDest, value);
    ListedAdd(targets, branchTargets, defaultDest, b, e);
    TargetsAdd(cs, cond, order, defaultDest, done, branchTargets, value, b, e);
  }

  lemma ListedAdd(targets: seq<Block>, branchTargets: map<Block, Expr>, defaultDest: Block, b: Block, e: Expr)
    requires Listed(targets, branchTargets, defaultDest) && b != defaultDest
    ensures defaultDest !in branchTargets
    ensures Listed(if b in branchTargets then targets else targets + [b], branchTargets[b := e], defaultDest)
  {
    hide NoDuplicates;
    if b !in branchTargets {
      AppendMembers(targets, b);
    }
  }

  lemma TargetsAdd(cs: seq<Expr>, cond: Expr, order: map<nat, Block>, defaultDest: Block, done: set<nat>,
                   branchTargets: map<Block, Expr>, value: nat, b: Block, e: Expr)
    requires TargetsLowered(cs, cond, order, defaultDest, done, branchTargets) && defaultDest !in branchTargets
    requires value in order && value !in done && order[value] == b != defaultDest && IsCondition(e) && Possible(cs, e)
    requires forall env :: Holds(e, env) <==>
      Eval(cond, env) == value || (b in branchTargets && Holds(branchTargets[b], env))
    ensures TargetsLowered(cs, cond, order, defaultDest, done + {value}, branchTargets[b := e])
  {
    hide Eval, Models, Holds, IsCondition, Possible, Goes;
    GoesStep(order, done, defaultDest, value);
    var all := branchTargets[b := e];
    forall env | Models(cs, env)
      ensures var to := Goes(order, done + {value}, defaultDest, Eval(cond, env));
        (to != defaultDest ==> to in all) && forall c :: c in all ==> (Holds(all[c], env) <==> to == c)
    {
      var to := Goes(order, done, defaultDest, Eval(cond, env));
      assert to != defaultDest ==> to in branchTargets;
      assert forall c :: c in branchTargets ==> (Holds(branchTargets[c], env) <==> to == c);
    }
  }

  lemma GoesStep(order: map<nat, Block>, done: set<nat>, defaultDest: Block, value: nat)
    requires value in order && value !in done
    ensures forall v ::
      Goes(order, done + {value}, defaultDest, v) == if v == value then order[value]
        else Goes(order, done, defaultDest, v)
    ensures Goes(order, done, defaultDest, value) == defaultDest
  {
  }

  lemma PossibleMatch(cs: seq<Expr>, cond: Expr, value: nat, e: Expr)
    requires exists env :: Models(cs, env) && Eval(cond, env) == value
    requires forall env :: Eval(cond, env) == value ==> Holds(e, env)
    ensures Possible(cs, e)
  {
    hide Eval, Models, Holds;
  }

  /** The expression has this value in every model. */
  ghost predicate OnlyValue(cs: seq<Expr>, e: Expr, v: nat) {
    forall env :: Models(cs, env) ==> Eval(e, env) == v
  }

  lemma CertainValue(cs: seq<Expr>, e: Expr, v: nat, matches: Expr)
    requires Attained(cs, e, v) && forall env :: Holds(matches, env) <==> Eval(e, env) == v
    ensures Certain(cs, matches) <==> exists u :: OnlyValue(cs, e, u)
  {
    hide Models, Eval, Holds;
    var model :| Models(cs, model) && Eval(e, model) == v;
    if Certain(cs, matches) {
      assert OnlyValue(cs, e, v);
    }
    if u :| OnlyValue(cs, e, u) {
      assert u == v;
    }
  }

  lemma AttainedConstant(cs: seq<Expr>, e: Expr, v: nat)
    requires WF(e) && Attained(cs, e, v)
    ensures Width(e) > 0 && v < Pow2(Width(e)) && WF(Constant(v, Width(e))) && Width(Constant(v, Width(e))) == Width(e)
    ensures IsCondition(CreateEq(e, Constant(v, Width(e))))
  {
    hide Eval;
    WidthPositive(e);
    var env :| Models(cs, env) && Eval(e, env) == v;
    EvalBound(e, env);
  }

  lemma ConstantCondition(e: Expr, model: Env)
    requires e.Constant? && Holds(e, model)
    ensures forall env :: Holds(e, env)
  {
  }

}
