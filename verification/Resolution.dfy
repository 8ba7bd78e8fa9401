/** Resolving a pointer expression to the memory objects it may point into. */
module Resolution {
  import opened Bits
  import opened Exprs
  import opened Create
  import opened CreateMeaning
  import opened Sequences
  import opened Solvers
  import opened AddressSpaces

  // ------------------------------------------------------------ bounds checks

  /** The address range of an object. An empty object still has its address. */
  function Extent(mo: MemoryObject): nat {
    if mo.size == 0 then 1 else mo.size
  }

  predicate Contains(mo: MemoryObject, address: nat) {
    mo.address <= address < mo.address + Extent(mo)
  }

  /** All bytes of an access lie inside the object. */
  predicate Serves(mo: MemoryObject, address: nat, bytes: nat) {
    mo.address <= address && address + bytes <= mo.address + mo.size
  }

  /** The object does not reach past the end of the address space. */
  predicate InSpace(mo: MemoryObject, w: nat) {
    mo.address + Extent(mo) <= Pow2(w) && mo.size < Pow2(w)
  }

  /** A pointer expression of the machine's pointer width. */
  predicate IsPointer(p: Expr, w: nat) {
    WF(p) && Width(p) == w > Bool
  }

  function BaseExpr(mo: MemoryObject, w: nat): (e: Expr)
    requires w > 0 && InSpace(mo, w)
    ensures WF(e) && Width(e) == w && e == Constant(mo.address, w)
  {
    Constant(mo.address, w)
  }

  function OffsetOf(mo: MemoryObject, p: Expr, w: nat): (e: Expr)
    requires IsPointer(p, w) && InSpace(mo, w)
    ensures WF(e) && Width(e) == w
  {
    CreateSub(p, BaseExpr(mo, w))
  }

  function BoundsCheck(mo: MemoryObject, p: Expr, w: nat): (e: Expr)
    requires IsPointer(p, w) && InSpace(mo, w)
    ensures IsCondition(e)
  {
    if mo.size == 0 then CreateEq(OffsetOf(mo, p, w), Constant(0, w))
    else CreateOrder(Ult, OffsetOf(mo, p, w), Constant(mo.size, w))
  }

  function BoundsCheckBytes(mo: MemoryObject, p: Expr, bytes: nat, w: nat): (e: Expr)
    requires IsPointer(p, w) && InSpace(mo, w) && bytes > 0
    ensures IsCondition(e)
  {
    Pow2One();
    if bytes <= mo.size then CreateOrder(Ult, OffsetOf(mo, p, w), Constant(mo.size - bytes + 1, w))
    else False
  }

  /** Subtracting a base and comparing unsigned is a two-sided bounds test. */
  lemma OffsetBelow(v: nat, a: nat, s: nat, w: nat)
    requires v < Pow2(w) && a + s <= Pow2(w) && s > 0
    ensures Low(v - a, w) < s <==> a <= v < a + s
    ensures a <= v ==> Low(v - a, w) == v - a
  {
    if a <= v {
      LowSmall(v - a, w);
    } else {
      var d: int := v - a;
      ModAddMultiple(d, 1, Pow2(w));
      LowSmall(d + Pow2(w), w);
    }
  }

  lemma OffsetMeaning(mo: MemoryObject, p: Expr, w: nat, env: Env)
    requires IsPointer(p, w) && InSpace(mo, w)
    ensures Eval(p, env) < Pow2(w)
    ensures Eval(OffsetOf(mo, p, w), env) == Low(Eval(p, env) - mo.address, w)
  {
    hide WF, Width, Eval, Low, CreateSub;
    EvalBound(p, env);
    SubMeaning(p, BaseExpr(mo, w), env);
    EvalConstant(BaseExpr(mo, w), env);
  }

  lemma BoundsCheckMeaning(mo: MemoryObject, p: Expr, w: nat, env: Env)
    requires IsPointer(p, w) && InSpace(mo, w)
    ensures Holds(BoundsCheck(mo, p, w), env) <==> Contains(mo, Eval(p, env))
  {
    hide WF, Width, Eval, Low, CreateSub, CreateEq, CreateOrder, OffsetOf;
    var off := OffsetOf(mo, p, w);
    OffsetMeaning(mo, p, w, env);
    OffsetBelow(Eval(p, env), mo.address, Extent(mo), w);
    if mo.size == 0 {
      ConstantWF(0, w);
      EqMeaning(off, Constant(0, w), env);
      EvalConstant(Constant(0, w), env);
    } else {
      BelowMeaning(off, mo.size, w, env);
    }
  }

  lemma BoundsCheckBytesMeaning(mo: MemoryObject, p: Expr, bytes: nat, w: nat, env: Env)
    requires IsPointer(p, w) && InSpace(mo, w) && bytes > 0
    ensures Holds(BoundsCheckBytes(mo, p, bytes, w), env) <==> Serves(mo, Eval(p, env), bytes)
  {
    hide WF, Width, Eval, Low, CreateSub, CreateOrder, OffsetOf;
    if bytes <= mo.size {
      var off := OffsetOf(mo, p, w);
      OffsetMeaning(mo, p, w, env);
      OffsetBelow(Eval(p, env), mo.address, mo.size - bytes + 1, w);
      BelowMeaning(off, mo.size - bytes + 1, w, env);
    } else {
      EvalConstant(False, env);
    }
  }

  lemma ConstantWF(v: nat, w: nat)
    requires w > 0 && v < Pow2(w)
    ensures WF(Constant(v, w)) && Width(Constant(v, w)) == w
  {
  }

  lemma BelowMeaning(off: Expr, bound: nat, w: nat, env: Env)
    requires WF(off) && Width(off) == w > 0 && bound < Pow2(w)
    ensures SameWidth(off, Constant(bound, w))
    ensures Holds(CreateOrder(Ult, off, Constant(bound, w)), env) <==> Eval(off, env) < bound
  {
    hide WF, Width, Eval, CreateOrder, Pow2;
    var c := Constant(bound, w);
    ConstantWF(bound, w);
    OrderMeaning(Ult, off, c, env);
    EvalCompareNode(Ult, off, c, env);
    EvalConstant(c, env);
  }

  /** Comparing the pointer with the base of an object. */
  function AtLeastBase(mo: MemoryObject, p: Expr, w: nat): (e: Expr)
    requires IsPointer(p, w) && InSpace(mo, w)
    ensures IsCondition(e)
  {
    CreateCompare(Uge, p, BaseExpr(mo, w))
  }

  function BelowBase(mo: MemoryObject, p: Expr, w: nat): (e: Expr)
    requires IsPointer(p, w) && InSpace(mo, w)
    ensures IsCondition(e)
  {
    CreateCompare(Ult, p, BaseExpr(mo, w))
  }

  lemma BaseMeaning(mo: MemoryObject, p: Expr, w: nat, env: Env)
    requires IsPointer(p, w) && InSpace(mo, w)
    ensures Holds(AtLeastBase(mo, p, w), env) <==> Eval(p, env) >= mo.address
    ensures Holds(BelowBase(mo, p, w), env) <==> Eval(p, env) < mo.address
  {
    hide WF, Width, Eval, CreateCompare;
    var b := BaseExpr(mo, w);
    CompareMeaning(Uge, p, b, env);
    CompareMeaning(Ult, p, b, env);
    EvalCompareNode(Uge, p, b, env);
    EvalCompareNode(Ult, p, b, env);
    EvalConstant(b, env);
  }

  // --------------------------------------------------------- the object table

  /** Objects in address order, without overlap. */
  ghost predicate Ordered(objects: seq<MemoryObject>, w: nat) {
    && (forall i :: 0 <= i < |objects| ==> InSpace(objects[i], w))
    && forall i, j :: 0 <= i < j < |objects| ==> objects[i].address + Extent(objects[i]) <= objects[j].address
  }

  /** Some model puts the pointer into the object. */
  ghost predicate CanPointTo(cs: seq<Expr>, p: Expr, mo: MemoryObject) {
    exists env :: Models(cs, env) && Contains(mo, Eval(p, env))
  }

  /** The position of the first object above an address. */
  method UpperBound(objects: seq<MemoryObject>, address: nat, ghost w: nat) returns (k: nat)
    requires Ordered(objects, w)
    ensures k <= |objects|
    ensures forall i :: 0 <= i < k ==> objects[i].address <= address
    ensures forall i :: k <= i < |objects| ==> address < objects[i].address
  {
    var lo, hi := 0, |objects|;
    while lo < hi
      invariant lo <= hi <= |objects|
      invariant forall i :: 0 <= i < lo ==> objects[i].address <= address
      invariant forall i :: hi <= i < |objects| ==> address < objects[i].address
    {
      var mid := (lo + hi) / 2;
      if objects[mid].address <= address {
        lo := mid + 1;
      } else {
        hi := mid;
      }
    }
    k := lo;
  }

  datatype Resolved = NoObject | Object(mo: MemoryObject)

  /** The object a constant address lies in. */
  method ResolveConstant(objects: seq<MemoryObject>, address: nat, ghost w: nat) returns (r: Resolved)
    requires Ordered(objects, w)
    ensures r.Object? ==> r.mo in objects && Contains(r.mo, address)
    ensures r.NoObject? ==> forall i :: 0 <= i < |objects| ==> !Contains(objects[i], address)
  {
    var k := UpperBound(objects, address, w);
    if k > 0 {
      var mo := objects[k - 1];
      if (mo.size == 0 && address == mo.address) || address - mo.address < mo.size {
        return Object(mo);
      }
    }
    return NoObject;
  }

  /** The solver's answer about one object, in terms of the pointer's values. */
  lemma PossibleInside(cs: seq<Expr>, p: Expr, mo: MemoryObject, w: nat)
    requires IsPointer(p, w) && InSpace(mo, w)
    ensures Possible(cs, BoundsCheck(mo, p, w)) <==> CanPointTo(cs, p, mo)
    ensures Certain(cs, BoundsCheck(mo, p, w)) <==> forall env :: Models(cs, env) ==> Contains(mo, Eval(p, env))
    ensures Certain(cs, AtLeastBase(mo, p, w)) <==> forall env :: Models(cs, env) ==> Eval(p, env) >= mo.address
    ensures Certain(cs, BelowBase(mo, p, w)) <==> forall env :: Models(cs, env) ==> Eval(p, env) < mo.address
  {
    hide WF, Width, Eval, BoundsCheck, AtLeastBase, BelowBase, Holds, Models;
    forall env: Env
      ensures Holds(BoundsCheck(mo, p, w), env) <==> Contains(mo, Eval(p, env))
      ensures Holds(AtLeastBase(mo, p, w), env) <==> Eval(p, env) >= mo.address
      ensures Holds(BelowBase(mo, p, w), env) <==> Eval(p, env) < mo.address
    {
      BoundsCheckMeaning(mo, p, w, env);
      BaseMeaning(mo, p, w, env);
    }
  }

  /** A pointer never below an object cannot reach the objects before it, and
      one always below it cannot reach it or the objects after it. */
  lemma OutOfReach(cs: seq<Expr>, p: Expr, objects: seq<MemoryObject>, k: nat, w: nat)
    requires Ordered(objects, w) && k < |objects|
    ensures (forall env :: Models(cs, env) ==> Eval(p, env) >= objects[k].address) ==>
              forall i :: 0 <= i < k ==> !CanPointTo(cs, p, objects[i])
    ensures (forall env :: Models(cs, env) ==> Eval(p, env) < objects[k].address) ==>
              forall i :: k <= i < |objects| ==> !CanPointTo(cs, p, objects[i])
  {
    hide Eval, Models;
  }

  /** A pointer that is always inside one object can point to no other. */
  lemma OnlyObject(cs: seq<Expr>, p: Expr, objects: seq<MemoryObject>, k: nat, w: nat)
    requires Ordered(objects, w) && k < |objects|
    requires forall env :: Models(cs, env) ==> Contains(objects[k], Eval(p, env))
    ensures forall i :: 0 <= i < |objects| && i != k ==> !CanPointTo(cs, p, objects[i])
  {
    hide Eval, Models;
  }

  datatype Progress = Complete | Incomplete | Continue

  /** Whether the pointer can point into one more object. */
  method CheckPointerInObject(cs: seq<Expr>, solver: Solver, p: Expr, mo: MemoryObject, rl: seq<MemoryObject>,
                              maxResolutions: nat, w: nat) returns (progress: Progress, found: seq<MemoryObject>)
    requires solver.Exact() && IsPointer(p, w) && InSpace(mo, w)
    ensures found == rl || (found == rl + [mo] && CanPointTo(cs, p, mo))
    ensures !progress.Incomplete? ==> (found == rl + [mo] <==> CanPointTo(cs, p, mo))
    ensures progress.Complete? ==> found == [mo] && CanPointTo(cs, p, mo) && forall env :: Models(cs, env) ==>
      Contains(mo, Eval(p, env))
    ensures maxResolutions >= 2 && progress.Continue? && |rl| < maxResolutions ==> |found| < maxResolutions
    ensures solver.Prompt() && progress.Incomplete? ==> |found| == maxResolutions >= 2
  {
    hide WF, Width, Eval, BoundsCheck, CanPointTo;
    PossibleInside(cs, p, mo, w);
    var inBounds := BoundsCheck(mo, p, w);
    found := rl;
    var may := solver.mayBeTrue(cs, inBounds);
    if may.TimedOut? {
      return Incomplete, found;
    }
    if may.value {
      found := rl + [mo];
      if |found| == 1 {
        var must := solver.mustBeTrue(cs, inBounds);
        if must.TimedOut? {
          return Incomplete, found;
        }
        if must.value {
          return Complete, found;
        }
      } else if |found| == maxResolutions {
        return Incomplete, found;
      }
    }
    return Continue, found;
  }

  /** The list holds exactly the possible objects among positions lo to hi. */
  ghost predicate Covers(rl: seq<MemoryObject>, cs: seq<Expr>, p: Expr, objects: seq<MemoryObject>, lo: nat, hi: nat)
    requires hi <= |objects|
  {
    && (forall i :: lo <= i < hi ==> (objects[i] in rl <==> CanPointTo(cs, p, objects[i])))
    && (forall mo :: mo in rl ==> exists i :: lo <= i < hi && objects[i] == mo)
    && NoDuplicates(rl)
  }

  /** The list holds objects the pointer can point to, each once. */
  ghost predicate Sound(rl: seq<MemoryObject>, cs: seq<Expr>, p: Expr, objects: seq<MemoryObject>) {
    NoDuplicates(rl) && forall mo :: mo in rl ==> mo in objects && CanPointTo(cs, p, mo)
  }

  lemma CoversStep(rl: seq<MemoryObject>, found: seq<MemoryObject>, cs: seq<Expr>, p: Expr, objects: seq<MemoryObject>,
                   lo: nat, hi: nat, k: nat, w: nat)
    requires Ordered(objects, w) && lo <= hi <= |objects| && Covers(rl, cs, p, objects, lo, hi)
    requires k < |objects| && (k + 1 == lo || k == hi)
    requires found == rl || (found == rl + [objects[k]] && CanPointTo(cs, p, objects[k]))
    ensures Sound(found, cs, p, objects)
    ensures (found == rl + [objects[k]] <==> CanPointTo(cs, p, objects[k])) ==>
              Covers(found, cs, p, objects, if k < lo then k else lo, if k < lo then hi else hi + 1)
  {
    hide CanPointTo, Ordered, InSpace;
    Distinct(objects, w);
    CoversSound(rl, cs, p, objects, lo, hi);
    assert objects[k] !in rl;
    if found == rl + [objects[k]] {
      assert found[|rl|] == objects[k];
      forall mo ensures mo in found <==> mo in rl || mo == objects[k] {
        if mo in rl {
          var i :| 0 <= i < |rl| && rl[i] == mo;
          assert found[i] == mo;
        }
      }
    }
  }

  /** A possible object before and one after the checked range are all there is to add. */
  ghost predicate Exactly(rl: seq<MemoryObject>, cs: seq<Expr>, p: Expr, objects: seq<MemoryObject>) {
    && Sound(rl, cs, p, objects)
    && forall i :: 0 <= i < |objects| ==> (objects[i] in rl <==> CanPointTo(cs, p, objects[i]))
  }

  lemma CoversAll(rl: seq<MemoryObject>, cs: seq<Expr>, p: Expr, objects: seq<MemoryObject>, lo: nat, hi: nat)
    requires lo <= hi <= |objects| && Covers(rl, cs, p, objects, lo, hi)
    requires forall i :: 0 <= i < lo ==> !CanPointTo(cs, p, objects[i])
    requires forall i :: hi <= i < |objects| ==> !CanPointTo(cs, p, objects[i])
    requires forall i, j :: 0 <= i < j < |objects| ==> objects[i] != objects[j]
    ensures Exactly(rl, cs, p, objects)
  {
    hide CanPointTo;
  }

  lemma CoversNone(cs: seq<Expr>, p: Expr, objects: seq<MemoryObject>)
    ensures Sound([], cs, p, objects)
    ensures forall k: nat :: k <= |objects| ==> Covers([], cs, p, objects, k, k)
  {
  }

  lemma SingleExactly(cs: seq<Expr>, p: Expr, objects: seq<MemoryObject>, k: nat)
    requires k < |objects| && CanPointTo(cs, p, objects[k])
    requires forall i :: 0 <= i < |objects| && i != k ==> !CanPointTo(cs, p, objects[i])
    ensures Exactly([objects[k]], cs, p, objects)
  {
    hide CanPointTo;
  }

  lemma Distinct(objects: seq<MemoryObject>, w: nat)
    requires Ordered(objects, w)
    ensures forall i, j :: 0 <= i < j < |objects| ==> objects[i] != objects[j]
  {
  }

  lemma ConstantTarget(cs: seq<Expr>, p: Expr, mo: MemoryObject)
    requires p.Constant? && Satisfiable(cs)
    ensures CanPointTo(cs, p, mo) <==> Contains(mo, p.value)
  {
  }

  lemma OnlyOne(objects: seq<MemoryObject>, address: nat, mo: MemoryObject, w: nat)
    requires Ordered(objects, w) && mo in objects && Contains(mo, address)
    ensures forall i :: 0 <= i < |objects| && Contains(objects[i], address) ==> objects[i] == mo
  {
  }

  method ResolveAddress(ghost cs: seq<Expr>, p: Expr, objects: seq<MemoryObject>, ghost w: nat)
    returns (rl: seq<MemoryObject>)
    requires p.Constant? && Satisfiable(cs) && Ordered(objects, w)
    ensures Exactly(rl, cs, p, objects) && |rl| <= 1
  {
    hide WF, Width, Eval, CanPointTo, Models;
    Distinct(objects, w);
    rl := [];
    var r := ResolveConstant(objects, p.value, w);
    forall mo ensures CanPointTo(cs, p, mo) <==> Contains(mo, p.value) {
      ConstantTarget(cs, p, mo);
    }
    if r.Object? {
      OnlyOne(objects, p.value, r.mo, w);
      rl := [r.mo];
    }
  }

  /** The objects a pointer can point to. An incomplete result is cut short by
      the cap (one is none), a solver time-out or the deadline; a complete one is exact. */
  method Resolve(cs: seq<Expr>, solver: Solver, p: Expr, objects: seq<MemoryObject>, maxResolutions: nat,
                 expired: nat -> bool, w: nat) returns (incomplete: bool, rl: seq<MemoryObject>)
    requires solver.Exact() && Satisfiable(cs) && IsPointer(p, w) && Ordered(objects, w)
    ensures Sound(rl, cs, p, objects)
    ensures !incomplete ==> Exactly(rl, cs, p, objects)
    ensures solver.Prompt() && incomplete && (forall n :: !expired(n)) ==> |rl| == maxResolutions >= 2
    ensures maxResolutions >= 2 ==> |rl| <= maxResolutions
  {
    hide WF, Width, Eval, CanPointTo, BoundsCheck, AtLeastBase, BelowBase, Models, NoDuplicates, Pow2, Covers, Sound,
         InSpace;
    rl := [];
    Distinct(objects, w);
    CoversNone(cs, p, objects);
    if p.Constant? {
      rl := ResolveAddress(cs, p, objects, w);
      return false, rl;
    }
    var example := solver.getValue(cs, p);
    if example.TimedOut? {
      return true, rl;
    }
    var start := UpperBound(objects, example.value, w);
    var lo: nat := start;
    while lo > 0
      invariant 0 <= lo <= start && Covers(rl, cs, p, objects, lo, start)
      invariant maxResolutions >= 2 ==> |rl| < maxResolutions
    {
      var k := lo - 1;
      var mo := objects[k];
      if expired(start - lo) {
        CoversSound(rl, cs, p, objects, lo, start);
        return true, rl;
      }
      var progress, found := CheckPointerInObject(cs, solver, p, mo, rl, maxResolutions, w);
      CoversStep(rl, found, cs, p, objects, lo, start, k, w);
      rl := found;
      if progress.Complete? {
        OnlyObject(cs, p, objects, k, w);
        SingleExactly(cs, p, objects, k);
        return false, rl;
      }
      if progress.Incomplete? {
        return true, rl;
      }
      lo := k;
      PossibleInside(cs, p, mo, w);
      OutOfReach(cs, p, objects, k, w);
      var must := solver.mustBeTrue(cs, AtLeastBase(mo, p, w));
      if must.TimedOut? {
        return true, rl;
      }
      if must.value {
        break;
      }
    }
    assert forall i :: 0 <= i < lo ==> !CanPointTo(cs, p, objects[i]);
    var hi: nat := start;
    while hi < |objects|
      invariant 0 <= lo <= start <= hi <= |objects| && Covers(rl, cs, p, objects, lo, hi)
      invariant maxResolutions >= 2 ==> |rl| < maxResolutions
    {
      var mo := objects[hi];
      if expired(hi) {
        CoversSound(rl, cs, p, objects, lo, hi);
        return true, rl;
      }
      PossibleInside(cs, p, mo, w);
      OutOfReach(cs, p, objects, hi, w);
      var must := solver.mustBeTrue(cs, BelowBase(mo, p, w));
      if must.TimedOut? {
        CoversSound(rl, cs, p, objects, lo, hi);
        return true, rl;
      }
      if must.value {
        break;
      }
      var progress, found := CheckPointerInObject(cs, solver, p, mo, rl, maxResolutions, w);
      CoversStep(rl, found, cs, p, objects, lo, hi, hi, w);
      rl := found;
      if progress.Complete? {
        OnlyObject(cs, p, objects, hi, w);
        SingleExactly(cs, p, objects, hi);
        return false, rl;
      }
      if progress.Incomplete? {
        return true, rl;
      }
      hi := hi + 1;
    }
    CoversAll(rl, cs, p, objects, lo, hi);
    return false, rl;
  }

  lemma CoversSound(rl: seq<MemoryObject>, cs: seq<Expr>, p: Expr, objects: seq<MemoryObject>, lo: nat, hi: nat)
    requires lo <= hi <= |objects| && Covers(rl, cs, p, objects, lo, hi)
    ensures Sound(rl, cs, p, objects)
  {
    hide CanPointTo;
  }

  /** One object a pointer can point to: first the object a sample value of the
      pointer falls in, then a search in both directions. Fails only if there is
      none. `answered` is false when a query timed out. */
  method ResolveOne(cs: seq<Expr>, solver: Solver, p: Expr, objects: seq<MemoryObject>, w: nat)
      returns (answered: bool, r: Resolved)
    requires solver.Exact() && Satisfiable(cs) && IsPointer(p, w) && Ordered(objects, w)
    ensures answered && r.Object? ==> r.mo in objects && CanPointTo(cs, p, r.mo)
    ensures answered && r.NoObject? ==> forall i :: 0 <= i < |objects| ==> !CanPointTo(cs, p, objects[i])
    ensures solver.Prompt() ==> answered
  {
    hide WF, Width, Eval, CanPointTo, BoundsCheck, AtLeastBase, BelowBase, Models;
    if p.Constant? {
      forall mo ensures CanPointTo(cs, p, mo) <==> Contains(mo, p.value) {
        ConstantTarget(cs, p, mo);
      }
      r := ResolveConstant(objects, p.value, w);
      return true, r;
    }
    var sample := solver.getValue(cs, p);
    if sample.TimedOut? {
      return false, NoObject;
    }
    var example := sample.value;
    var start := UpperBound(objects, example, w);
    if start > 0 && example - objects[start - 1].address < objects[start - 1].size {
      SampleTarget(cs, p, objects[start - 1], example);
      return true, Object(objects[start - 1]);
    }
    var lo: nat := start;
    while lo > 0
      invariant 0 <= lo <= start
      invariant forall i :: lo <= i < start ==> !CanPointTo(cs, p, objects[i])
    {
      lo := lo - 1;
      var mo := objects[lo];
      PossibleInside(cs, p, mo, w);
      OutOfReach(cs, p, objects, lo, w);
      var may := solver.mayBeTrue(cs, BoundsCheck(mo, p, w));
      if may.TimedOut? {
        return false, NoObject;
      }
      if may.value {
        return true, Object(mo);
      }
      var must := solver.mustBeTrue(cs, AtLeastBase(mo, p, w));
      if must.TimedOut? {
        return false, NoObject;
      }
      if must.value {
        break;
      }
    }
    assert forall i :: 0 <= i < start ==> !CanPointTo(cs, p, objects[i]);
    var hi: nat := start;
    while hi < |objects|
      invariant start <= hi <= |objects|
      invariant forall i :: 0 <= i < hi ==> !CanPointTo(cs, p, objects[i])
    {
      var mo := objects[hi];
      PossibleInside(cs, p, mo, w);
      OutOfReach(cs, p, objects, hi, w);
      var must := solver.mustBeTrue(cs, BelowBase(mo, p, w));
      if must.TimedOut? {
        return false, NoObject;
      }
      if must.value {
        break;
      }
      var may := solver.mayBeTrue(cs, BoundsCheck(mo, p, w));
      if may.TimedOut? {
        return false, NoObject;
      }
      if may.value {
        return true, Object(mo);
      }
      hi := hi + 1;
    }
    return true, NoObject;
  }

  lemma SampleTarget(cs: seq<Expr>, p: Expr, mo: MemoryObject, example: nat)
    requires Attained(cs, p, example) && Contains(mo, example)
    ensures CanPointTo(cs, p, mo)
  {
  }
}
