/** Merging two execution states that reached the same instruction. */
module StateMerge {
  import opened Bits
  import opened Exprs
  import opened Create
  import opened CreateMeaning
  import opened Logic
  import opened MemoryLog
  import opened Memory
  import opened AddressSpaces
  import opened Constraints

  datatype KFunction = KFunction(id: nat, numRegisters: nat)

  datatype StackFrame = StackFrame(caller: nat, kf: KFunction, locals: seq<Option<Expr>>)

  /** All of the conditions hold. */
  ghost predicate AllHold(cs: set<Expr>, env: Env) {
    forall c :: c in cs ==> Holds(c, env)
  }

  ghost predicate AllConditions(cs: set<Expr>) {
    forall c :: c in cs ==> IsCondition(c)
  }

  /** The conjunction of a set of conditions, in whatever order the set is walked. */
  method Conjoin(cs: set<Expr>) returns (e: Expr)
    requires AllConditions(cs)
    ensures IsCondition(e)
    ensures forall env :: Holds(e, env) <==> AllHold(cs, env)
  {
    hide CreateAnd, WF, Eval, Width;
    e := True;
    TrueFalse();
    var rest := cs;
    while rest != {}
      invariant rest <= cs && IsCondition(e)
      invariant forall env :: Holds(e, env) <==> AllHold(cs - rest, env)
      decreases rest
    {
      var c :| c in rest;
      Conjunction(e, c);
      e := CreateAnd(e, c);
      rest := rest - {c};
    }
    assert cs - {} == cs;
  }

  lemma SelectValue(c: Expr, t: Expr, f: Expr, env: Env)
    requires IsCondition(c) && SameWidth(t, f)
    ensures Eval(CreateSelect(c, t, f), env) == if Holds(c, env) then Eval(t, env) else Eval(f, env)
  {
    hide CreateSelect;
    SelectMeaning(c, t, f, env);
    ConditionValue(c, env);
  }

  // ------------------------------------------------------------------ registers

  /** The same calls of the same functions. */
  ghost predicate SameFrames(a: seq<StackFrame>, b: seq<StackFrame>) {
    |a| == |b| && forall i :: 0 <= i < |a| ==> a[i].caller == b[i].caller && a[i].kf == b[i].kf
  }

  /** The walk down both call stacks. */
  method CompareFrames(a: seq<StackFrame>, b: seq<StackFrame>) returns (same: bool)
    ensures same <==> SameFrames(a, b)
  {
    var i := 0;
    while i < |a| && i < |b|
      invariant i <= |a| && i <= |b|
      invariant forall k :: 0 <= k < i ==> a[k].caller == b[k].caller && a[k].kf == b[k].kf
    {
      if a[i].caller != b[i].caller || a[i].kf != b[i].kf {
        return false;
      }
      i := i + 1;
    }
    return i == |a| && i == |b|;
  }

  /** Registers of the same function at the same index have the same type. */
  ghost predicate SameTypes(a: StackFrame, b: StackFrame) {
    |a.locals| == |b.locals| && forall r :: 0 <= r < |a.locals| && a.locals[r].Some? && b.locals[r].Some? ==>
      SameWidth(a.locals[r].value, b.locals[r].value)
  }

  ghost predicate MergedLocal(a: Option<Expr>, b: Option<Expr>, m: Option<Expr>, inA: Expr) {
    if a.None? || b.None? then m == a
    else m.Some? && WF(m.value) && Width(m.value) == Width(a.value)
         && forall env :: Eval(m.value, env) == if Holds(inA, env) then Eval(a.value, env) else Eval(b.value, env)
  }

  ghost predicate MergedFrame(a: StackFrame, b: StackFrame, m: StackFrame, inA: Expr) {
    && m.caller == a.caller && m.kf == a.kf && |m.locals| == |a.locals| == |b.locals|
    && forall r :: 0 <= r < |m.locals| ==> MergedLocal(a.locals[r], b.locals[r], m.locals[r], inA)
  }

  method MergeFrame(a: StackFrame, b: StackFrame, inA: Expr) returns (m: StackFrame)
    requires IsCondition(inA) && SameTypes(a, b)
    ensures MergedFrame(a, b, m, inA)
  {
    hide WF, Width, Eval, CreateSelect, Holds, IsCondition, MergedLocal;
    m := a;
    for r := 0 to |a.locals|
      invariant m.caller == a.caller && m.kf == a.kf && |m.locals| == |a.locals|
      invariant forall k :: 0 <= k < r ==> MergedLocal(a.locals[k], b.locals[k], m.locals[k], inA)
      invariant forall k :: r <= k < |a.locals| ==> m.locals[k] == a.locals[k]
    {
      var av, bv := m.locals[r], b.locals[r];
      if av.Some? && bv.Some? {
        MergeLocal(av.value, bv.value, inA);
        m := m.(locals := m.locals[r := Some(CreateSelect(inA, av.value, bv.value))]);
      } else {
        UnmergedLocal(av, bv, inA);
      }
    }
  }

  lemma MergeLocal(a: Expr, b: Expr, inA: Expr)
    requires IsCondition(inA) && SameWidth(a, b)
    ensures WF(inA) && Width(inA) == Bool && MergedLocal(Some(a), Some(b), Some(CreateSelect(inA, a, b)), inA)
  {
    hide CreateSelect;
    forall env ensures Eval(CreateSelect(inA, a, b), env) == if Holds(inA, env) then Eval(a, env) else Eval(b, env) {
      SelectValue(inA, a, b, env);
    }
  }

  lemma UnmergedLocal(a: Option<Expr>, b: Option<Expr>, inA: Expr)
    requires a.None? || b.None?
    ensures MergedLocal(a, b, a, inA)
  {
  }

  // --------------------------------------------------------------------- memory

  lemma StoredByte(s: seq<nat>, i: nat, v: nat, littleEndian: bool)
    requires i < |s| < 0x1_0000_0000 && v < Pow2(8)
    ensures Stored(s, i, v, Int8, littleEndian) == s[i := v]
  {
    hide Low, Field, Pow2;
    Pow2Values();
    FieldWhole(v, 8);
    LowSmall(i, 32);
    assert StoreBytes(s, i, v, 0, 1, littleEndian) == s;
  }

  /** Every byte becomes a choice between the two sides. Reading the other side may
      rewrite its log but not what it holds. */
  method MergeBytes(wos: ObjectState, other: ObjectState, inA: Expr)
    requires wos.Valid() && other.Valid() && wos.size == other.size
    requires wos != other && wos.concreteStore != other.concreteStore && IsCondition(inA)
    modifies wos`knownSymbolics, wos`concreteMask, wos`flushMask, wos`root, wos`head, wos.concreteStore, other`root,
             other`head
    ensures wos.Valid() && other.Valid()
    ensures forall env :: other.Contents(env) == old(other.Contents(env))
    ensures forall env ::
      wos.Contents(env) == if Holds(inA, env) then old(wos.Contents(env)) else old(other.Contents(env))
  {
    hide ObjectState.Valid, ObjectState.Contents, WF, Width, Eval, Holds, IsCondition, Spliced;
    forall env ensures Spliced(0, Holds(inA, env), wos.Contents(env), other.Contents(env)) == wos.Contents(env) {
      SplicedAll(Holds(inA, env), wos.Contents(env), other.Contents(env));
    }
    for i := 0 to wos.size
      invariant wos.Valid() && other.Valid()
      invariant forall env :: other.Contents(env) == old(other.Contents(env))
      invariant forall env ::
        wos.Contents(env) == Spliced(i, Holds(inA, env), old(wos.Contents(env)), old(other.Contents(env)))
    {
      label before:
      MergeByte(wos, other, i, inA);
      forall env
        ensures wos.Contents(env) == Spliced(i + 1, Holds(inA, env), old(wos.Contents(env)), old(other.Contents(env)))
      {
        var a, b := old(wos.Contents(env)), old(other.Contents(env));
        assert old@before(wos.Contents(env)) == Spliced(i, Holds(inA, env), a, b);
        SplicedStep(i, Holds(inA, env), a, b);
      }
    }
    forall env
      ensures wos.Contents(env) == if Holds(inA, env) then old(wos.Contents(env)) else old(other.Contents(env))
    {
      var a, b := old(wos.Contents(env)), old(other.Contents(env));
      SplicedAll(Holds(inA, env), a, b);
    }
  }

  method MergeByte(wos: ObjectState, other: ObjectState, i: nat, inA: Expr)
    requires wos.Valid() && other.Valid() && i < wos.size == other.size
    requires wos != other && wos.concreteStore != other.concreteStore && IsCondition(inA)
    modifies wos`knownSymbolics, wos`concreteMask, wos`flushMask, wos`root, wos`head, wos.concreteStore, other`root,
             other`head
    ensures wos.Valid() && other.Valid()
    ensures forall env :: other.Contents(env) == old(other.Contents(env))
    ensures forall env ::
      var byte := if Holds(inA, env) then old(wos.Contents(env))[i] else old(other.Contents(env))[i];
      wos.Contents(env) == old(wos.Contents(env))[i := byte]
  {
    hide ObjectState.Valid, ObjectState.Contents, WF, Width, Eval, CreateSelect, Stored;
    var av := wos.Read8(i);
    var bv := other.Read8(i);
    MergeLocal(av, bv, inA);
    var e := CreateSelect(inA, av, bv);
    wos.WriteAt(i, e, true);
    forall env ensures wos.Contents(env) ==
      old(wos.Contents(env))[i := if Holds(inA, env) then old(wos.Contents(env))[i] else old(other.Contents(env))[i]]
    {
      EvalBound(e, env);
      StoredByte(old(wos.Contents(env)), i, Eval(e, env), true);
    }
  }

  lemma SplicedAll(first: bool, a: seq<nat>, b: seq<nat>)
    requires |a| == |b|
    ensures Spliced(|a|, first, a, b) == if first then a else b
    ensures Spliced(0, first, a, b) == a
  {
  }

  lemma SplicedStep(n: nat, first: bool, a: seq<nat>, b: seq<nat>)
    requires n < |a| == |b|
    ensures Spliced(n, first, a, b)[n] == a[n]
    ensures Spliced(n + 1, first, a, b) == Spliced(n, first, a, b)[n := if first then a[n] else b[n]]
  {
  }

  /** The first n bytes taken from the chosen side, the rest from the first. */
  ghost function Spliced(n: nat, first: bool, a: seq<nat>, b: seq<nat>): seq<nat> {
    if first || |b| != |a| || n > |a| then a else b[..n] + a[n..]
  }

  /** Makes one object of the first space a choice between the two spaces. */
  method MergeObject(a: AddressSpace, b: AddressSpace, mo: MemoryObject, inA: Expr, ghost world: set<AddressSpace>)
    requires a in world && b in world && a != b && Isolated(world)
    requires mo in a.objects && mo in b.objects && a.objects[mo] != b.objects[mo] && !a.objects[mo].readOnly
    requires IsCondition(inA)
    modifies a`objects, a.objects[mo], a.objects[mo].concreteStore, b.objects[mo]
    ensures Isolated(world) && mo in a.objects && a.objects == old(a.objects)[mo := a.objects[mo]]
    ensures a.objects[mo] == old(a.objects[mo]) || fresh(a.objects[mo])
    ensures forall k :: k in old(a.objects) && k != mo ==> old(a.objects[k]).readOnly == old(a.objects[k].readOnly)
    ensures forall env :: View(a, mo, env) == if Holds(inA, env) then old(View(a, mo, env)) else old(View(b, mo, env))
    ensures forall s, k, env :: s in world && !(s == a && k == mo) ==> View(s, k, env) == old(View(s, k, env))
  {
    hide ObjectState.Valid, ObjectState.Contents, IsCondition, Holds;
    assert GoodBinding(a, mo) && GoodBinding(b, mo);
    var wos := a.GetWriteable(mo, world);
    assert GoodBinding(a, mo) && GoodBinding(b, mo) && Apart(a, mo, b, mo);
    MergeOwned(a, b, mo, wos, b.objects[mo], inA, world);
  }

  /** The same for an object the first space owns. */
  method MergeOwned(ghost a: AddressSpace, ghost b: AddressSpace, ghost mo: MemoryObject, wos: ObjectState,
                    other: ObjectState, inA: Expr, ghost world: set<AddressSpace>)
    requires a in world && b in world && a != b && Isolated(world) && IsCondition(inA)
    requires mo in a.objects && a.objects[mo] == wos && mo in b.objects && b.objects[mo] == other && a.Owned(mo)
    modifies wos`knownSymbolics, wos`concreteMask, wos`flushMask, wos`root, wos`head, wos.concreteStore, other`root,
             other`head
    ensures Isolated(world)
    ensures forall env :: View(a, mo, env) == if Holds(inA, env) then old(View(a, mo, env)) else old(View(b, mo, env))
    ensures forall s, k, env :: s in world && !(s == a && k == mo) ==> View(s, k, env) == old(View(s, k, env))
  {
    hide ObjectState.Valid, ObjectState.Contents, IsCondition, Holds;
    assert GoodBinding(a, mo) && GoodBinding(b, mo) && Apart(a, mo, b, mo);
    MergeBytes(wos, other, inA);
    forall s, k | s in world ensures GoodBinding(s, k) {
      assert old(GoodBinding(s, k));
      assert old(Apart(a, mo, s, k)) && old(Apart(b, mo, s, k));
    }
    forall s, k, env: Env | s in world && !(s == a && k == mo) ensures View(s, k, env) == old(View(s, k, env)) {
      assert old(GoodBinding(s, k));
      assert old(Apart(a, mo, s, k)) && old(Apart(b, mo, s, k));
    }
    forall s, k, t, k' | s in world && t in world ensures Apart(s, k, t, k') {
      assert old(Apart(s, k, t, k'));
    }
  }

  /** Objects bound differently in the two spaces. */
  function Mutated(a: AddressSpace, b: AddressSpace): set<MemoryObject>
    reads a, b
  {
    set mo | mo in a.objects && mo in b.objects && a.objects[mo] != b.objects[mo]
  }

  /** Makes every mutated object of the first space a choice between the two. */
  method MergeObjects(a: AddressSpace, b: AddressSpace, inA: Expr, ghost world: set<AddressSpace>,
                      ghost repr: set<object>)
    requires forall mo :: mo in a.objects ==> a.objects[mo] in repr && a.objects[mo].concreteStore in repr
    requires forall mo :: mo in b.objects ==> b.objects[mo] in repr
    requires a in world && b in world && a != b && Isolated(world) && IsCondition(inA)
    requires a.objects.Keys == b.objects.Keys
    requires forall mo :: mo in Mutated(a, b) ==> !a.objects[mo].readOnly
    modifies a`objects, repr
    ensures Isolated(world) && a.objects.Keys == old(a.objects.Keys)
    ensures forall mo, env ::
      View(a, mo, env) == if Holds(inA, env) then old(View(a, mo, env)) else old(View(b, mo, env))
    ensures forall s, k, env :: s in world && s != a ==> View(s, k, env) == old(View(s, k, env))
  {
    hide ObjectState.Valid, ObjectState.Contents, IsCondition, Holds, Isolated, View;
    var rest := Mutated(a, b);
    Unmutated(a, b);
    ghost var va := (mo: MemoryObject, env: Env) => old(View(a, mo, env));
    ghost var vb := (mo: MemoryObject, env: Env) => old(View(b, mo, env));
    ghost var others := (s: AddressSpace, k: MemoryObject, env: Env) requires s in world => old(View(s, k, env));
    while rest != {}
      invariant rest <= old(Mutated(a, b)) && Isolated(world)
      invariant a.objects.Keys == old(a.objects.Keys) && b.objects == old(b.objects)
      invariant forall mo :: mo in rest ==> a.objects[mo] == old(a.objects[mo])
      invariant forall mo :: mo in rest ==> a.objects[mo].readOnly == old(a.objects[mo].readOnly)
      invariant forall mo, env :: View(a, mo, env) == if mo in rest || Holds(inA, env) then va(mo, env) else vb(mo, env)
      invariant forall s, k, env :: s in world && s != a ==> View(s, k, env) == others(s, k, env)
      decreases rest
    {
      var mo :| mo in rest;
      MergeObject(a, b, mo, inA, world);
      rest := rest - {mo};
    }
  }

  lemma Unmutated(a: AddressSpace, b: AddressSpace)
    requires a.objects.Keys == b.objects.Keys
    ensures forall mo, env :: mo !in Mutated(a, b) ==> View(a, mo, env) == View(b, mo, env)
  {
  }

  // ---------------------------------------------------------------- constraints

  /** A fresh constraint set with the shared conditions and the choice between the two
      remainders. */
  method MergeConstraints(rewriteEqualities: bool, common: set<Expr>, inA: Expr, inB: Expr)
    returns (cm: ConstraintManager)
    requires AllConditions(common) && IsCondition(inA) && IsCondition(inB)
    requires exists env :: AllHold(common, env) && Holds(inA, env)
    ensures fresh(cm) && cm.Valid()
    ensures Joins(cm.constraints, common, inA, inB)
  {
    hide WF, Width, Eval, Holds, CreateOr, Conditions, Models;
    ghost var model :| AllHold(common, model) && Holds(inA, model);
    NoModels();
    cm := new ConstraintManager(rewriteEqualities, []);
    var rest := common;
    while rest != {}
      invariant rest <= common && cm.Valid() && fresh(cm)
      invariant forall env :: Models(cm.constraints, env) <==> AllHold(common - rest, env)
      decreases rest
    {
      var c :| c in rest;
      assert Models(cm.constraints, model) && Holds(c, model);
      cm.AddConstraint(c);
      rest := rest - {c};
    }
    assert common - {} == common;
    assert Models(cm.constraints, model);
    Disjunction(inA, inB);
    cm.AddConstraint(CreateOr(inA, inB));
  }

  lemma NoModels()
    ensures Conditions([]) && forall env :: Models([], env)
  {
  }

  function ToSet(cs: seq<Expr>): set<Expr> {
    set c | c in cs
  }

  /** A list of conditions is satisfied exactly when the set is, and the set splits into
      what it shares with another one and the rest. */
  lemma SplitModels(cs: seq<Expr>, shared: set<Expr>, env: Env)
    requires shared <= ToSet(cs)
    ensures Models(cs, env) <==> AllHold(shared, env) && AllHold(ToSet(cs) - shared, env)
  {
  }

  // --------------------------------------------------------------------- states

  class ExecutionState {
    var pc: nat
    var symbolics: seq<(MemoryObject, Array)>
    var stack: seq<StackFrame>
    const addressSpace: AddressSpace
    var constraints: ConstraintManager

    constructor (pc: nat, symbolics: seq<(MemoryObject, Array)>, stack: seq<StackFrame>, addressSpace: AddressSpace,
                 constraints: ConstraintManager)
      ensures this.pc == pc && this.symbolics == symbolics && this.stack == stack
      ensures this.addressSpace == addressSpace && this.constraints == constraints
    {
      this.pc, this.symbolics, this.stack := pc, symbolics, stack;
      this.addressSpace, this.constraints := addressSpace, constraints;
    }

    /** Merges another state into this one. It is refused, and nothing changes, unless
        both are at the same instruction with the same symbolic objects, call stack and
        bound objects. Otherwise this state has exactly the models of the two, and in each
        of them every register bound on both sides and every byte has the value it had in
        this state, if that state allowed the model, and else the value of the other. */
    method Merge(b: ExecutionState, ghost world: set<AddressSpace>, ghost repr: set<object>) returns (merged: bool)
      requires b != this && addressSpace != b.addressSpace && addressSpace in world && b.addressSpace in world
      requires Isolated(world)
      requires constraints.Valid() && b.constraints.Valid() && Satisfiable(constraints.constraints)
      requires |stack| == |b.stack| ==> forall i :: 0 <= i < |stack| && stack[i].kf == b.stack[i].kf ==>
        SameTypes(stack[i], b.stack[i])
      requires forall mo :: mo in Mutated(addressSpace, b.addressSpace) ==> !addressSpace.objects[mo].readOnly
      requires forall mo :: mo in addressSpace.objects ==>
        addressSpace.objects[mo] in repr && addressSpace.objects[mo].concreteStore in repr
      requires forall mo :: mo in b.addressSpace.objects ==> b.addressSpace.objects[mo] in repr
      requires this !in repr && b !in repr && constraints !in repr && b.constraints !in repr
      modifies this`stack, this`constraints, addressSpace`objects, repr
      ensures merged <==> pc == b.pc && symbolics == b.symbolics && old(SameFrames(stack, b.stack))
                          && old(addressSpace.objects.Keys == b.addressSpace.objects.Keys)
      ensures Isolated(world)
      ensures !merged ==> stack == old(stack) && constraints == old(constraints)
      ensures !merged ==> forall s, k, env :: s in world ==> View(s, k, env) == old(View(s, k, env))
      ensures forall s, k, env :: s in world && s != addressSpace ==> View(s, k, env) == old(View(s, k, env))
      ensures merged ==> constraints.Valid() && SameFrames(stack, old(stack))
      ensures merged ==> forall env ::
        Models(constraints.constraints, env) <==>
          Models(old(constraints.constraints), env) || Models(b.constraints.constraints, env)
      ensures merged ==> forall mo, env :: Models(constraints.constraints, env) ==>
        View(addressSpace, mo, env)
          == if Models(old(constraints.constraints), env) then old(View(addressSpace, mo, env))
            else old(View(b.addressSpace, mo, env))
      ensures merged ==> forall i, env :: 0 <= i < |stack| && Models(constraints.constraints, env) ==>
        SameValues(stack[i], old(stack)[i], b.stack[i], Models(old(constraints.constraints), env), env)
    {
      hide Isolated, View, SameTypes, Models, SameValues, Holds, MergedFrame;
      var sameFrames := CompareFrames(stack, b.stack);
      merged := pc == b.pc && symbolics == b.symbolics && sameFrames
                && addressSpace.objects.Keys == b.addressSpace.objects.Keys;
      if merged {
        ghost var mine := constraints.constraints;
        ghost var inA := MergeSame(b, world, repr);
        forall i, env | 0 <= i < |stack| && Models(constraints.constraints, env)
          ensures SameValues(stack[i], old(stack)[i], b.stack[i], Models(mine, env), env)
        {
          MergedValues(old(stack)[i], b.stack[i], stack[i], inA, env);
        }
      }
    }

    method MergeSame(b: ExecutionState, ghost world: set<AddressSpace>, ghost repr: set<object>)
      returns (ghost inA: Expr)
      requires b != this && addressSpace != b.addressSpace && addressSpace in world && b.addressSpace in world
      requires Isolated(world)
      requires constraints.Valid() && b.constraints.Valid() && Satisfiable(constraints.constraints)
      requires SameFrames(stack, b.stack) && forall i :: 0 <= i < |stack| ==> SameTypes(stack[i], b.stack[i])
      requires addressSpace.objects.Keys == b.addressSpace.objects.Keys
      requires forall mo :: mo in Mutated(addressSpace, b.addressSpace) ==> !addressSpace.objects[mo].readOnly
      requires forall mo :: mo in addressSpace.objects ==>
        addressSpace.objects[mo] in repr && addressSpace.objects[mo].concreteStore in repr
      requires forall mo :: mo in b.addressSpace.objects ==> b.addressSpace.objects[mo] in repr
      requires this !in repr && b !in repr && constraints !in repr && b.constraints !in repr
      modifies this`stack, this`constraints, addressSpace`objects, repr
      ensures Isolated(world) && constraints.Valid() && SameFrames(stack, old(stack))
      ensures forall s, k, env :: s in world && s != addressSpace ==> View(s, k, env) == old(View(s, k, env))
      ensures forall env ::
        Models(constraints.constraints, env) <==>
          Models(old(constraints.constraints), env) || Models(b.constraints.constraints, env)
      ensures forall env :: Models(constraints.constraints, env) ==>
        (Models(old(constraints.constraints), env) <==> Holds(inA, env))
      ensures forall mo, env ::
        View(addressSpace, mo, env) == if Holds(inA, env) then old(View(addressSpace, mo, env))
          else old(View(b.addressSpace, mo, env))
      ensures forall i :: 0 <= i < |stack| ==> MergedFrame(old(stack)[i], b.stack[i], stack[i], inA)
    {
      hide WF, Width, Eval, Holds, Isolated, View, SameTypes, Models, Conditions, ToSet, AllHold, MergedFrame,
           SameValues, IsCondition, AllConditions, Joins;
      ghost var mine, theirs := constraints.constraints, b.constraints.constraints;
      var shared, isA, isB := Suffixes(constraints.constraints, b.constraints.constraints);
      inA := isA;
      stack := MergeStack(stack, b.stack, isA);
      constraints := MergeConstraints(constraints.rewriteEqualities, shared, isA, isB);
      JoinedModels(constraints.constraints, mine, theirs, shared, isA, isB);
      MergeObjects(addressSpace, b.addressSpace, isA, world, repr); // touches neither the stack nor the constraints
    }
  }

  /** The list means the shared conditions and its own suffix. */
  ghost predicate Splits(cs: seq<Expr>, shared: set<Expr>, suffix: Expr) {
    forall env :: Models(cs, env) <==> AllHold(shared, env) && Holds(suffix, env)
  }

  /** The list means the shared conditions and one of the suffixes. */
  ghost predicate Joins(cs: seq<Expr>, shared: set<Expr>, inA: Expr, inB: Expr) {
    forall env :: Models(cs, env) <==> AllHold(shared, env) && (Holds(inA, env) || Holds(inB, env))
  }

  /** The models of the joined list, and which of them belong to the first state. */
  lemma JoinedModels(cs: seq<Expr>, mine: seq<Expr>, theirs: seq<Expr>, shared: set<Expr>, inA: Expr, inB: Expr)
    requires Splits(mine, shared, inA) && Splits(theirs, shared, inB) && Joins(cs, shared, inA, inB)
    ensures forall env :: Models(cs, env) <==> Models(mine, env) || Models(theirs, env)
    ensures forall env :: Models(cs, env) ==> (Models(mine, env) <==> Holds(inA, env))
  {
    hide Models, AllHold, Holds;
  }

  /** What the two constraint lists share, and the conjunction of what each has beyond
      that. */
  method Suffixes(mine: seq<Expr>, theirs: seq<Expr>) returns (shared: set<Expr>, inA: Expr, inB: Expr)
    requires Conditions(mine) && Conditions(theirs)
    ensures AllConditions(shared) && IsCondition(inA) && IsCondition(inB)
    ensures Splits(mine, shared, inA) && Splits(theirs, shared, inB)
  {
    hide IsCondition, Holds;
    shared := ToSet(mine) * ToSet(theirs);
    inA := Conjoin(ToSet(mine) - shared);
    inB := Conjoin(ToSet(theirs) - shared);
    forall env ensures Models(mine, env) <==> AllHold(shared, env) && Holds(inA, env) {
      SplitModels(mine, shared, env);
    }
    forall env ensures Models(theirs, env) <==> AllHold(shared, env) && Holds(inB, env) {
      SplitModels(theirs, shared, env);
    }
  }

  method MergeStack(a: seq<StackFrame>, b: seq<StackFrame>, inA: Expr) returns (m: seq<StackFrame>)
    requires IsCondition(inA) && SameFrames(a, b) && forall i :: 0 <= i < |a| ==> SameTypes(a[i], b[i])
    ensures |m| == |a| && forall i :: 0 <= i < |m| ==> MergedFrame(a[i], b[i], m[i], inA)
    ensures SameFrames(m, a)
  {
    hide SameTypes, IsCondition, MergedLocal;
    m := [];
    for i := 0 to |a|
      invariant |m| == i && forall k :: 0 <= k < i ==> MergedFrame(a[k], b[k], m[k], inA)
    {
      var f := MergeFrame(a[i], b[i], inA);
      m := m + [f];
    }
  }

  lemma MergedValues(a: StackFrame, b: StackFrame, m: StackFrame, inA: Expr, env: Env)
    requires MergedFrame(a, b, m, inA)
    ensures SameValues(m, a, b, Holds(inA, env), env)
  {
    forall r | 0 <= r < |m.locals| && a.locals[r].Some? && b.locals[r].Some?
      ensures m.locals[r].Some?
              && Eval(m.locals[r].value, env) == Eval((if Holds(inA, env) then a else b).locals[r].value, env)
    {
      assert MergedLocal(a.locals[r], b.locals[r], m.locals[r], inA);
    }
  }

  /** Registers bound on both sides have the value of the chosen side; the others are as
      they were. */
  ghost predicate SameValues(m: StackFrame, a: StackFrame, b: StackFrame, first: bool, env: Env) {
    && |m.locals| == |a.locals| == |b.locals|
    && forall r :: 0 <= r < |m.locals| ==>
         if a.locals[r].None? || b.locals[r].None? then m.locals[r] == a.locals[r]
         else m.locals[r].Some? && Eval(m.locals[r].value, env) == Eval((if first then a else b).locals[r].value, env)
  }
}
