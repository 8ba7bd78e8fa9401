/** A load or store through a pointer that may fall into several objects: the state is
    split into one successor per object and one for the error. */
module MemoryAccess {
  import opened Bits
  import opened Exprs
  import opened Sequences
  import opened Solvers
  import opened AddressSpaces
  import opened Resolution
  import opened Executor

  /** What became of a successor state. */
  datatype Outcome =
    | Accessed(state: PathState, mo: MemoryObject, offset: Expr)
    | ReadOnlyError(state: PathState, mo: MemoryObject)
    | OutOfBound(state: PathState)
    | Early(state: PathState)

  predicate Touches(o: Outcome) {
    o.Accessed? || o.ReadOnlyError?
  }

  /** No object of the list serves the access. */
  ghost predicate Unserved(objects: seq<MemoryObject>, address: nat, bytes: nat) {
    forall i :: 0 <= i < |objects| ==> !Serves(objects[i], address, bytes)
  }

  /** The offset is that of the address, or of a constant it was made into. */
  ghost predicate Pointed(o: Outcome, address: Expr)
    requires o.Accessed?
  {
    exists addr, w ::
      IsPointer(addr, w) && InSpace(o.mo, w) && (addr == address || addr.Constant?)
        && o.offset == OffsetOf(o.mo, addr, w)
  }

  /** A successor bound to an object has exactly the models in which all accessed bytes lie
      inside that object, and accesses it at the right offset. */
  ghost predicate GoodAccess(o: Outcome, cs: seq<Expr>, address: Expr, bytes: nat, isWrite: bool,
                             readOnly: set<MemoryObject>)
    requires Touches(o)
    reads o.state
  {
    && (o.ReadOnlyError? <==> isWrite && o.mo in readOnly)
    && Satisfiable(o.state.constraints)
    && (o.Accessed? ==> Pointed(o, address))
    && (forall env :: Models(o.state.constraints, env) <==> Models(cs, env) && Serves(o.mo, Eval(address, env), bytes))
    && (o.Accessed? ==> forall env :: Models(cs, env) && Serves(o.mo, Eval(address, env), bytes) ==>
          Eval(o.offset, env) == Eval(address, env) - o.mo.address)
  }

  function Access(state: PathState, mo: MemoryObject, address: Expr, isWrite: bool, readOnly: set<MemoryObject>,
                  w: nat): (o: Outcome)
    requires IsPointer(address, w) && InSpace(mo, w)
    ensures Touches(o) && o.state == state && o.mo == mo
  {
    if isWrite && mo in readOnly then ReadOnlyError(state, mo) else Accessed(state, mo, OffsetOf(mo, address, w))
  }

  lemma AccessIsGood(state: PathState, mo: MemoryObject, addr: Expr, isWrite: bool, readOnly: set<MemoryObject>, w: nat,
                     cs: seq<Expr>, address: Expr, bytes: nat)
    requires IsPointer(addr, w) && InSpace(mo, w) && bytes > 0 && (addr == address || addr.Constant?)
    requires Satisfiable(state.constraints) && forall env :: Models(cs, env) ==> Eval(addr, env) == Eval(address, env)
    requires forall env :: Models(state.constraints, env) <==> Models(cs, env) && Serves(mo, Eval(address, env), bytes)
    ensures GoodAccess(Access(state, mo, addr, isWrite, readOnly, w), cs, address, bytes, isWrite, readOnly)
  {
    hide WF, Width, Eval, Models, OffsetOf, Low, Pow2;
    forall env | Models(cs, env) && Serves(mo, Eval(address, env), bytes)
      ensures Eval(OffsetOf(mo, addr, w), env) == Eval(address, env) - mo.address
    {
      OffsetMeaning(mo, addr, w, env);
      OffsetBelow(Eval(addr, env), mo.address, Extent(mo), w);
    }
  }

  lemma BoundsMeaning(mo: MemoryObject, p: Expr, bytes: nat, w: nat)
    requires IsPointer(p, w) && InSpace(mo, w) && bytes > 0
    ensures forall env :: Holds(BoundsCheckBytes(mo, p, bytes, w), env) <==> Serves(mo, Eval(p, env), bytes)
  {
    hide WF, Width, Eval, BoundsCheckBytes, Holds;
    forall env ensures Holds(BoundsCheckBytes(mo, p, bytes, w), env) <==> Serves(mo, Eval(p, env), bytes) {
      BoundsCheckBytesMeaning(mo, p, bytes, w, env);
    }
  }

  /** Distinct objects never serve the same access. */
  lemma OneServer(objects: seq<MemoryObject>, w: nat, a: MemoryObject, b: MemoryObject, address: nat, bytes: nat)
    requires Ordered(objects, w) && a in objects && b in objects && bytes > 0
    requires Serves(a, address, bytes) && Serves(b, address, bytes)
    ensures a == b
  {
  }

  lemma OtherServer(objects: seq<MemoryObject>, w: nat, a: MemoryObject, b: MemoryObject, address: nat, bytes: nat)
    requires Ordered(objects, w) && a in objects && b in objects && bytes > 0
    requires Serves(a, address, bytes) && a != b
    ensures !Serves(b, address, bytes)
  {
  }

  /** Every successor is bound to its own object of the list and has exactly the models that
      object serves. */
  ghost predicate GoodOutcomes(outcomes: seq<Outcome>, cs: seq<Expr>, address: Expr, bytes: nat, isWrite: bool,
                               readOnly: set<MemoryObject>, rl: seq<MemoryObject>)
    reads set o | o in outcomes :: o.state
  {
    && (forall k :: 0 <= k < |outcomes| ==>
          Touches(outcomes[k]) && outcomes[k].mo in rl
            && GoodAccess(outcomes[k], cs, address, bytes, isWrite, readOnly))
    && (forall j, k :: 0 <= j < k < |outcomes| ==>
      outcomes[j].mo != outcomes[k].mo && outcomes[j].state != outcomes[k].state)
  }

  /** Every object of the list that serves the access in some model has a successor. */
  ghost predicate Covered(outcomes: seq<Outcome>, cs: seq<Expr>, address: Expr, bytes: nat, rl: seq<MemoryObject>) {
    forall i, env :: 0 <= i < |rl| && Models(cs, env) && Serves(rl[i], Eval(address, env), bytes) ==>
      Binds(outcomes, rl[i])
  }

  ghost predicate Binds(outcomes: seq<Outcome>, mo: MemoryObject) {
    exists k :: 0 <= k < |outcomes| && Touches(outcomes[k]) && outcomes[k].mo == mo
  }

  lemma GoodAppend(outcomes: seq<Outcome>, cs: seq<Expr>, address: Expr, bytes: nat, isWrite: bool,
                   readOnly: set<MemoryObject>, rl: seq<MemoryObject>, i: nat, o: Outcome)
    requires i < |rl| && NoDuplicates(rl)
    requires GoodOutcomes(outcomes, cs, address, bytes, isWrite, readOnly, rl[..i])
    requires Touches(o) && o.mo == rl[i] && GoodAccess(o, cs, address, bytes, isWrite, readOnly)
    requires forall p :: p in outcomes ==> p.state != o.state
    ensures GoodOutcomes(outcomes + [o], cs, address, bytes, isWrite, readOnly, rl[..i + 1])
  {
    hide GoodAccess;
    var all := outcomes + [o];
    assert rl[..i + 1] == rl[..i] + [rl[i]];
    forall k | 0 <= k < |all|
      ensures Touches(all[k]) && all[k].mo in rl[..i + 1] && GoodAccess(all[k], cs, address, bytes, isWrite, readOnly)
      ensures k < |outcomes| ==> all[k].mo != o.mo && all[k].state != o.state
    {
      if k < |outcomes| {
        assert all[k] == outcomes[k] && outcomes[k] in outcomes && rl[i] !in rl[..i];
      }
    }
  }

  lemma GoodWiden(outcomes: seq<Outcome>, cs: seq<Expr>, address: Expr, bytes: nat, isWrite: bool,
                  readOnly: set<MemoryObject>, rl: seq<MemoryObject>, wider: seq<MemoryObject>)
    requires GoodOutcomes(outcomes, cs, address, bytes, isWrite, readOnly, rl) && forall mo :: mo in rl ==> mo in wider
    ensures GoodOutcomes(outcomes, cs, address, bytes, isWrite, readOnly, wider)
  {
    hide GoodAccess;
  }

  lemma ServedByPrefix(rl: seq<MemoryObject>, n: nat, address: nat, bytes: nat)
    requires n <= |rl| && !Unserved(rl[..n], address, bytes)
    ensures !Unserved(rl, address, bytes)
  {
    hide Serves;
    var k :| 0 <= k < n && Serves(rl[..n][k], address, bytes);
    assert Serves(rl[k], address, bytes);
  }

  lemma UnservedStep(rl: seq<MemoryObject>, i: nat, address: nat, bytes: nat, objects: seq<MemoryObject>, w: nat)
    requires i < |rl| && NoDuplicates(rl) && bytes > 0
    requires Ordered(objects, w) && forall mo :: mo in rl ==> mo in objects
    ensures Unserved(rl[..i + 1], address, bytes) <==>
      Unserved(rl[..i], address, bytes) && !Serves(rl[i], address, bytes)
    ensures Serves(rl[i], address, bytes) ==> Unserved(rl[..i], address, bytes)
  {
    hide Serves, Ordered;
    assert rl[..i + 1] == rl[..i] + [rl[i]];
    if Unserved(rl[..i + 1], address, bytes) {
      forall j | 0 <= j < i ensures !Serves(rl[..i][j], address, bytes) {
        assert rl[..i + 1][j] == rl[j];
      }
      assert rl[..i + 1][i] == rl[i];
    }
    if Serves(rl[i], address, bytes) {
      forall j | 0 <= j < i ensures !Serves(rl[..i][j], address, bytes) {
        if Serves(rl[j], address, bytes) {
          OneServer(objects, w, rl[i], rl[j], address, bytes);
        }
      }
    }
  }

  /** One object: the state keeps the models the object serves, the rest goes on. */
  method SplitOne(ex: PathExecutor, state: PathState, addr: Expr, bytes: nat, mo: MemoryObject, w: nat)
    returns (bound: PathState?, rest: PathState?, timedOut: bool)
    requires ex.solver.Exact() && state.Valid() && IsPointer(addr, w) && InSpace(mo, w) && bytes > 0
    modifies ex`addedStates, state`constraints, state`depth
    ensures bound != null ==> bound == state && bound.Valid() && Satisfiable(bound.constraints)
    ensures rest != null ==> rest.Valid() && (if bound == null then rest == state else fresh(rest))
    ensures timedOut ==> bound == null && rest == null && state.constraints == old(state.constraints)
    ensures ex.solver.Prompt() ==> !timedOut
    ensures bound != null ==> forall env ::
      Models(bound.constraints, env) <==> Models(old(state.constraints), env) && Serves(mo, Eval(addr, env), bytes)
    ensures rest != null ==> forall env ::
      Models(rest.constraints, env) <==> Models(old(state.constraints), env) && !Serves(mo, Eval(addr, env), bytes)
    ensures !timedOut ==>
      && (bound == null ==> forall env :: Models(old(state.constraints), env) ==> !Serves(mo, Eval(addr, env), bytes))
      && (rest == null ==> forall env :: Models(old(state.constraints), env) ==> Serves(mo, Eval(addr, env), bytes))
  {
    hide WF, Width, Eval, Models, Holds, BoundsCheckBytes, IsCondition, Serves;
    BoundsMeaning(mo, addr, bytes, w);
    bound, rest, timedOut := ex.Fork(state, BoundsCheckBytes(mo, addr, bytes, w), false, false);
  }

  lemma CoveredStep(outcomes: seq<Outcome>, more: seq<Outcome>, cs: seq<Expr>, address: Expr, bytes: nat,
                    rl: seq<MemoryObject>, i: nat)
    requires i < |rl| && Covered(outcomes, cs, address, bytes, rl[..i])
    requires forall k :: 0 <= k < |outcomes| ==> k < |more| && more[k] == outcomes[k]
    requires Binds(more, rl[i]) || forall env :: Models(cs, env) ==> !Serves(rl[i], Eval(address, env), bytes)
    ensures Covered(more, cs, address, bytes, rl[..i + 1])
  {
    hide Models, Eval, Serves;
    var longer := rl[..i + 1];
    forall j, env | 0 <= j < |longer| && Models(cs, env) && Serves(longer[j], Eval(address, env), bytes)
      ensures Binds(more, longer[j])
    {
      if j < i {
        assert Serves(rl[..i][j], Eval(address, env), bytes) && Binds(outcomes, rl[..i][j]);
        var k :| 0 <= k < |outcomes| && Touches(outcomes[k]) && outcomes[k].mo == rl[j];
        assert more[k] == outcomes[k];
      }
    }
  }

  lemma CoveredBreak(outcomes: seq<Outcome>, cs: seq<Expr>, address: Expr, bytes: nat, rl: seq<MemoryObject>, n: nat,
                     objects: seq<MemoryObject>, w: nat)
    requires n <= |rl| && Covered(outcomes, cs, address, bytes, rl[..n]) && bytes > 0
    requires Ordered(objects, w) && forall mo :: mo in rl ==> mo in objects
    requires forall env :: Models(cs, env) ==> !Unserved(rl[..n], Eval(address, env), bytes)
    ensures Covered(outcomes, cs, address, bytes, rl)
  {
    hide Models, Eval, Serves, Ordered, Binds;
    forall j, env | 0 <= j < |rl| && Models(cs, env) && Serves(rl[j], Eval(address, env), bytes)
      ensures Binds(outcomes, rl[j])
    {
      var k :| 0 <= k < n && Serves(rl[..n][k], Eval(address, env), bytes);
      OneServer(objects, w, rl[j], rl[k], Eval(address, env), bytes);
      assert Binds(outcomes, rl[..n][k]);
    }
  }

  lemma UnservedSteps(rl: seq<MemoryObject>, i: nat, address: Expr, bytes: nat, objects: seq<MemoryObject>, w: nat)
    requires i < |rl| && NoDuplicates(rl) && Ordered(objects, w) && bytes > 0 && forall mo :: mo in rl ==> mo in objects
    ensures forall env ::
      Unserved(rl[..i + 1], Eval(address, env), bytes) <==>
        Unserved(rl[..i], Eval(address, env), bytes) && !Serves(rl[i], Eval(address, env), bytes)
    ensures forall env :: Serves(rl[i], Eval(address, env), bytes) ==> Unserved(rl[..i], Eval(address, env), bytes)
  {
    hide Eval, Serves, Unserved, Ordered;
    forall env
      ensures Unserved(rl[..i + 1], Eval(address, env), bytes) <==>
        Unserved(rl[..i], Eval(address, env), bytes) && !Serves(rl[i], Eval(address, env), bytes)
      ensures Serves(rl[i], Eval(address, env), bytes) ==> Unserved(rl[..i], Eval(address, env), bytes)
    {
      UnservedStep(rl, i, Eval(address, env), bytes, objects, w);
    }
  }

  /** Once a prefix of the list serves every model, the rest of it adds nothing. */
  lemma AllServed(outcomes: seq<Outcome>, cs: seq<Expr>, address: Expr, bytes: nat, isWrite: bool,
                  readOnly: set<MemoryObject>, rl: seq<MemoryObject>, n: nat, objects: seq<MemoryObject>, w: nat)
    requires n <= |rl| && Covered(outcomes, cs, address, bytes, rl[..n]) && bytes > 0
    requires Ordered(objects, w) && forall mo :: mo in rl ==> mo in objects
    requires GoodOutcomes(outcomes, cs, address, bytes, isWrite, readOnly, rl[..n])
    requires forall env :: Models(cs, env) ==> !Unserved(rl[..n], Eval(address, env), bytes)
    ensures Covered(outcomes, cs, address, bytes, rl)
    ensures GoodOutcomes(outcomes, cs, address, bytes, isWrite, readOnly, rl)
    ensures forall env :: Models(cs, env) ==> !Unserved(rl, Eval(address, env), bytes)
  {
    hide Models, Eval, Serves, Unserved, Ordered, Covered, GoodOutcomes;
    CoveredBreak(outcomes, cs, address, bytes, rl, n, objects, w);
    GoodWiden(outcomes, cs, address, bytes, isWrite, readOnly, rl[..n], rl);
    forall env | Models(cs, env) ensures !Unserved(rl, Eval(address, env), bytes) {
      ServedByPrefix(rl, n, Eval(address, env), bytes);
    }
  }

  /** The next object of the list takes its share of the models no earlier one serves. */
  method SplitNext(ex: PathExecutor, unbound: PathState, isWrite: bool, addr: Expr, bytes: nat, rl: seq<MemoryObject>,
                   i: nat, readOnly: set<MemoryObject>, w: nat, outcomes: seq<Outcome>, ghost cs: seq<Expr>,
                   ghost address: Expr, ghost objects: seq<MemoryObject>)
    returns (next: seq<Outcome>, rest: PathState?, timedOut: bool)
    requires ex.solver.Exact() && unbound.Valid() && IsPointer(addr, w) && bytes > 0 && i < |rl|
    requires Ordered(objects, w) && NoDuplicates(rl) && forall mo :: mo in rl ==> mo in objects
    requires (addr == address || addr.Constant?)
    requires forall env :: Models(cs, env) ==> Eval(addr, env) == Eval(address, env)
    requires forall o :: o in outcomes ==> o.state != unbound
    requires GoodOutcomes(outcomes, cs, address, bytes, isWrite, readOnly, rl[..i])
    requires Covered(outcomes, cs, address, bytes, rl[..i])
    requires forall env :: Models(unbound.constraints, env) <==>
      Models(cs, env) && Unserved(rl[..i], Eval(address, env), bytes)
    modifies ex`addedStates, unbound`constraints, unbound`depth
    ensures ex.solver.Prompt() ==> !timedOut
    ensures timedOut ==> GoodOutcomes(outcomes, cs, address, bytes, isWrite, readOnly, rl[..i])
    ensures timedOut ==> unbound.constraints == old(unbound.constraints)
    ensures !timedOut ==>
      GoodOutcomes(next, cs, address, bytes, isWrite, readOnly, rl[..i + 1])
        && Covered(next, cs, address, bytes, rl[..i + 1])
    ensures !timedOut ==> forall o :: o in next ==> o.state != rest && (o in outcomes || o.state == unbound)
    ensures rest != null ==> rest.Valid() && (rest == unbound || fresh(rest))
    ensures !timedOut && rest != null ==>
      forall env :: Models(rest.constraints, env) <==>
        Models(cs, env) && Unserved(rl[..i + 1], Eval(address, env), bytes)
    ensures !timedOut && rest == null ==> forall env :: Models(cs, env) ==>
      !Unserved(rl[..i + 1], Eval(address, env), bytes)
  {
    hide WF, Width, Eval, Models, Holds, Serves, Access, GoodOutcomes, Covered, Unserved, GoodAccess, Binds,
         NoDuplicates, IsPointer, InSpace, Ordered, PathState.Valid, Solver.Exact, Solver.Prompt;
    var mo := rl[i];
    InSpaceMember(objects, mo, w);
    UnservedSteps(rl, i, address, bytes, objects, w);
    GoodWiden(outcomes, cs, address, bytes, isWrite, readOnly, rl[..i], rl[..i + 1]);
    next := outcomes;
    var bound;
    bound, rest, timedOut := SplitOne(ex, unbound, addr, bytes, mo, w);
    assert forall o :: o in outcomes ==> unchanged(o.state);
    if timedOut {
      return;
    }
    if bound != null {
      AccessIsGood(bound, mo, addr, isWrite, readOnly, w, cs, address, bytes);
      GoodAppend(outcomes, cs, address, bytes, isWrite, readOnly, rl, i, Access(bound, mo, addr, isWrite, readOnly, w));
      next := outcomes + [Access(bound, mo, addr, isWrite, readOnly, w)];
      BindsLast(next, mo);
    }
    CoveredStep(outcomes, next, cs, address, bytes, rl, i);
  }

  /** Splits a state over the objects of a resolution list. `served` is the part of the list
      that was dealt with, all of it unless a query timed out. */
  method SplitOver(ex: PathExecutor, state: PathState, isWrite: bool, addr: Expr, bytes: nat, rl: seq<MemoryObject>,
                   readOnly: set<MemoryObject>, w: nat, ghost cs: seq<Expr>, ghost address: Expr,
                   ghost objects: seq<MemoryObject>)
    returns (outcomes: seq<Outcome>, unbound: PathState?, timedOut: bool, ghost served: seq<MemoryObject>)
    requires ex.solver.Exact() && state.Valid() && IsPointer(addr, w) && bytes > 0
    requires Ordered(objects, w) && NoDuplicates(rl) && forall mo :: mo in rl ==> mo in objects
    requires cs == state.constraints && forall env :: Models(cs, env) ==> Eval(addr, env) == Eval(address, env)
    requires addr == address || addr.Constant?
    modifies ex`addedStates, state`constraints, state`depth
    ensures (ex.solver.Prompt() ==> !timedOut) && (timedOut ==> unbound != null) && (!timedOut ==> served == rl)
    ensures forall mo :: mo in served ==> mo in objects
    ensures GoodOutcomes(outcomes, cs, address, bytes, isWrite, readOnly, served)
    ensures Covered(outcomes, cs, address, bytes, served)
    ensures unbound != null ==> forall o :: o in outcomes ==> o.state != unbound
    ensures unbound != null ==>
      forall env :: Models(unbound.constraints, env) <==> Models(cs, env) && Unserved(served, Eval(address, env), bytes)
    ensures unbound == null ==>
      forall env :: Models(cs, env) ==> !Unserved(served, Eval(address, env), bytes)
  {
    hide WF, Width, Eval, Models, Holds, Serves, Access, GoodOutcomes, Covered, Unserved, GoodAccess, Binds,
         NoDuplicates, IsPointer, InSpace, Ordered, PathState.Valid, Solver.Exact, Solver.Prompt;
    outcomes, unbound, timedOut, served := [], state, false, rl;
    NothingYet(cs, address, bytes, isWrite, readOnly);
    assert rl[..0] == [];
    for i := 0 to |rl|
      invariant unbound != null && unbound.Valid() && (unbound == state || fresh(unbound))
      invariant forall o :: o in outcomes ==> o.state != unbound && (o.state == state || fresh(o.state))
      invariant GoodOutcomes(outcomes, cs, address, bytes, isWrite, readOnly, rl[..i])
      invariant Covered(outcomes, cs, address, bytes, rl[..i])
      invariant forall env :: Models(unbound.constraints, env) <==>
        Models(cs, env) && Unserved(rl[..i], Eval(address, env), bytes)
    {
      var next, rest, expired := SplitNext(ex, unbound, isWrite, addr, bytes, rl, i, readOnly, w, outcomes, cs, address,
                                           objects);
      if expired {
        return outcomes, unbound, true, rl[..i];
      }
      outcomes, unbound := next, rest;
      if unbound == null {
        AllServed(outcomes, cs, address, bytes, isWrite, readOnly, rl, i + 1, objects, w);
        return;
      }
    }
    assert rl[..|rl|] == rl;
  }

  lemma InSpaceMember(objects: seq<MemoryObject>, mo: MemoryObject, w: nat)
    requires Ordered(objects, w) && mo in objects
    ensures InSpace(mo, w)
  {
  }

  lemma NothingYet(cs: seq<Expr>, address: Expr, bytes: nat, isWrite: bool, readOnly: set<MemoryObject>)
    ensures GoodOutcomes([], cs, address, bytes, isWrite, readOnly, []) && Covered([], cs, address, bytes, [])
    ensures forall a :: Unserved([], a, bytes)
  {
  }

  lemma BindsLast(outcomes: seq<Outcome>, mo: MemoryObject)
    requires outcomes != [] && Touches(outcomes[|outcomes| - 1]) && outcomes[|outcomes| - 1].mo == mo
    ensures Binds(outcomes, mo)
  {
  }

  /** Every model of the state lands in exactly one successor; a successor bound to an object
      has exactly the models that object serves, the error successor exactly those that no
      object serves, and one that is given up early some of the rest. */
  ghost predicate Partitioned(outcomes: seq<Outcome>, cs: seq<Expr>, address: Expr, bytes: nat, isWrite: bool,
                              readOnly: set<MemoryObject>, objects: seq<MemoryObject>)
    reads set o | o in outcomes :: o.state
  {
    && (forall k :: 0 <= k < |outcomes| ==> Exact(outcomes[k], cs, address, bytes, isWrite, readOnly, objects))
    && (forall j, k :: 0 <= j < k < |outcomes| ==> Exclusive(outcomes[j], outcomes[k]))
    && (forall env :: Models(cs, env) ==> exists k :: 0 <= k < |outcomes| && Models(outcomes[k].state.constraints, env))
  }

  ghost predicate Exact(o: Outcome, cs: seq<Expr>, address: Expr, bytes: nat, isWrite: bool,
                        readOnly: set<MemoryObject>, objects: seq<MemoryObject>)
    reads o.state
  {
    if Touches(o) then o.mo in objects && GoodAccess(o, cs, address, bytes, isWrite, readOnly)
    else forall env ::
      && (Models(o.state.constraints, env) ==> Models(cs, env))
      && (o.OutOfBound? ==>
        (Models(o.state.constraints, env) <==> Models(cs, env) && Unserved(objects, Eval(address, env), bytes)))
  }

  ghost predicate Exclusive(a: Outcome, b: Outcome)
    reads a.state, b.state
  {
    a.state != b.state && forall env :: !(Models(a.state.constraints, env) && Models(b.state.constraints, env))
  }

  /** Whatever the resolution list leaves out cannot serve the access in any model. */
  lemma UnservedOutside(rl: seq<MemoryObject>, cs: seq<Expr>, addr: Expr, objects: seq<MemoryObject>, env: Env,
                        bytes: nat)
    requires Exactly(rl, cs, addr, objects) && Models(cs, env) && bytes > 0
    ensures Unserved(rl, Eval(addr, env), bytes) <==> Unserved(objects, Eval(addr, env), bytes)
  {
    hide Models, Eval;
    var v := Eval(addr, env);
    if i :| 0 <= i < |objects| && Serves(objects[i], v, bytes) {
      assert Contains(objects[i], v) && CanPointTo(cs, addr, objects[i]);
      assert Serves(rl[IndexOf(rl, objects[i])], v, bytes);
    }
    if i :| 0 <= i < |rl| && Serves(rl[i], v, bytes) {
      assert rl[i] in objects && Serves(objects[IndexOf(objects, rl[i])], v, bytes);
    }
  }

  lemma AccessExclusive(a: Outcome, b: Outcome, cs: seq<Expr>, address: Expr, bytes: nat, isWrite: bool,
                        readOnly: set<MemoryObject>, objects: seq<MemoryObject>, w: nat)
    requires Touches(a) && a.mo in objects && GoodAccess(a, cs, address, bytes, isWrite, readOnly)
    requires Touches(b) && b.mo in objects && GoodAccess(b, cs, address, bytes, isWrite, readOnly)
    requires a.state != b.state && a.mo != b.mo && bytes > 0 && Ordered(objects, w)
    ensures Exclusive(a, b)
  {
    hide Models, Eval, Serves, Ordered, Pointed;
    forall env | Models(a.state.constraints, env) ensures !Models(b.state.constraints, env) {
      OtherServer(objects, w, a.mo, b.mo, Eval(address, env), bytes);
    }
  }

  lemma RestExclusive(a: Outcome, b: Outcome, cs: seq<Expr>, address: Expr, bytes: nat, isWrite: bool,
                      readOnly: set<MemoryObject>, served: seq<MemoryObject>)
    requires Touches(a) && a.mo in served && GoodAccess(a, cs, address, bytes, isWrite, readOnly) && a.state != b.state
    requires forall env :: Models(b.state.constraints, env) ==> Unserved(served, Eval(address, env), bytes)
    ensures Exclusive(a, b)
  {
    hide Models, Eval, Serves, Pointed;
    forall env | Models(a.state.constraints, env) ensures !Models(b.state.constraints, env) {
      assert Serves(served[IndexOf(served, a.mo)], Eval(address, env), bytes);
    }
  }

  /** What becomes of the state that no object of the list took. */
  function WithRest(outcomes: seq<Outcome>, unbound: PathState?, early: bool): seq<Outcome> {
    if unbound == null then outcomes else outcomes + [if early then Early(unbound) else OutOfBound(unbound)]
  }

  lemma AllSplit(outcomes: seq<Outcome>, unbound: PathState?, early: bool, cs: seq<Expr>, addr: Expr, address: Expr,
                 bytes: nat, isWrite: bool, readOnly: set<MemoryObject>, served: seq<MemoryObject>,
                 objects: seq<MemoryObject>, w: nat)
    requires Ordered(objects, w) && bytes > 0 && (forall mo :: mo in served ==> mo in objects)
    requires !early && unbound != null ==> Exactly(served, cs, addr, objects)
    requires forall env :: Models(cs, env) ==> Eval(addr, env) == Eval(address, env)
    requires GoodOutcomes(outcomes, cs, address, bytes, isWrite, readOnly, served)
    requires Covered(outcomes, cs, address, bytes, served)
    requires unbound != null ==> forall o :: o in outcomes ==> o.state != unbound
    requires unbound != null ==>
      forall env :: Models(unbound.constraints, env) <==> Models(cs, env) && Unserved(served, Eval(address, env), bytes)
    requires unbound == null ==> forall env :: Models(cs, env) ==> !Unserved(served, Eval(address, env), bytes)
    ensures Partitioned(WithRest(outcomes, unbound, early), cs, address, bytes, isWrite, readOnly, objects)
  {
    hide Models, Eval, Serves, Ordered, GoodAccess, Unserved, Exclusive, Exactly;
    var all := WithRest(outcomes, unbound, early);
    forall k | 0 <= k < |all| ensures Exact(all[k], cs, address, bytes, isWrite, readOnly, objects) {
      if k < |outcomes| {
        assert all[k] == outcomes[k] && outcomes[k].mo in served;
      } else if !early {
        RestOutside(unbound, cs, addr, address, bytes, served, objects);
      }
    }
    forall j, k | 0 <= j < k < |all| ensures Exclusive(all[j], all[k]) {
      assert all[j] == outcomes[j] && outcomes[j] in outcomes;
      if k < |outcomes| {
        AccessExclusive(all[j], all[k], cs, address, bytes, isWrite, readOnly, objects, w);
      } else {
        RestExclusive(all[j], all[k], cs, address, bytes, isWrite, readOnly, served);
      }
    }
    forall env | Models(cs, env) ensures exists k :: 0 <= k < |all| && Models(all[k].state.constraints, env) {
      SomeSuccessor(outcomes, unbound, early, cs, address, bytes, isWrite, readOnly, served, env);
    }
  }

  lemma RestOutside(unbound: PathState, cs: seq<Expr>, addr: Expr, address: Expr, bytes: nat, rl: seq<MemoryObject>,
                    objects: seq<MemoryObject>)
    requires Exactly(rl, cs, addr, objects) && bytes > 0
    requires forall env :: Models(cs, env) ==> Eval(addr, env) == Eval(address, env)
    requires forall env :: Models(unbound.constraints, env) <==>
      Models(cs, env) && Unserved(rl, Eval(address, env), bytes)
    ensures forall env :: Models(unbound.constraints, env) <==>
      Models(cs, env) && Unserved(objects, Eval(address, env), bytes)
  {
    hide Models, Eval, Unserved, Exactly;
    forall env | Models(cs, env)
      ensures Unserved(rl, Eval(address, env), bytes) <==> Unserved(objects, Eval(address, env), bytes)
    {
      UnservedOutside(rl, cs, addr, objects, env, bytes);
    }
  }

  lemma SomeSuccessor(outcomes: seq<Outcome>, unbound: PathState?, early: bool, cs: seq<Expr>, address: Expr,
                      bytes: nat, isWrite: bool, readOnly: set<MemoryObject>, rl: seq<MemoryObject>, env: Env)
    requires GoodOutcomes(outcomes, cs, address, bytes, isWrite, readOnly, rl)
    requires Covered(outcomes, cs, address, bytes, rl)
    requires Models(cs, env)
    requires unbound != null ==> (Models(unbound.constraints, env) <==> Unserved(rl, Eval(address, env), bytes))
    requires unbound == null ==> !Unserved(rl, Eval(address, env), bytes)
    ensures var all := WithRest(outcomes, unbound, early);
            exists k :: 0 <= k < |all| && Models(all[k].state.constraints, env)
  {
    hide Models, Eval, Serves, Pointed;
    var all := WithRest(outcomes, unbound, early);
    if Unserved(rl, Eval(address, env), bytes) {
      assert all[|outcomes|].state == unbound;
    } else {
      var i :| 0 <= i < |rl| && Serves(rl[i], Eval(address, env), bytes);
      assert Binds(outcomes, rl[i]);
      var k :| 0 <= k < |outcomes| && Touches(outcomes[k]) && outcomes[k].mo == rl[i];
      assert all[k] == outcomes[k] && GoodAccess(outcomes[k], cs, address, bytes, isWrite, readOnly);
    }
  }

  /** `executeMemoryOperation`: first one object that must contain the access, else a split
      over every object the pointer can reach. `cs` is what the state was restricted to
      before the split; it differs from the original only if the address was made concrete. */
  method ExecuteMemoryOperation(ex: PathExecutor, state: PathState, isWrite: bool, address: Expr, bytes: nat,
                                objects: seq<MemoryObject>, readOnly: set<MemoryObject>, maxSymArraySize: nat,
                                expired: nat -> bool, w: nat)
    returns (outcomes: seq<Outcome>, complete: bool, concretized: bool, ghost cs: seq<Expr>)
    requires ex.solver.Exact() && Concretizes(ex.solver) && state.Valid() && IsPointer(address, w) && bytes > 0
    requires Ordered(objects, w)
    modifies ex`addedStates, state`constraints, state`depth
    ensures Partitioned(outcomes, cs, address, bytes, isWrite, readOnly, objects)
    ensures complete <==> forall o :: o in outcomes ==> !o.Early?
    ensures ex.solver.Prompt() && (forall n :: !expired(n)) ==> complete
    ensures Satisfiable(cs)
    ensures Narrowed(concretized, ex.solver.Prompt(), cs, old(state.constraints), address, objects, maxSymArraySize)
  {
    hide WF, Width, Eval, Models, Holds, Serves, Access, BoundsCheckBytes, Conditions, IsCondition, Exactly, Sound,
         Partitioned, Ordered, Narrowed;
    var addr, r;
    addr, r, concretized := Narrow(ex, state, address, objects, maxSymArraySize, w);
    if r.Object? {
      InSpaceMember(objects, r.mo, w);
      cs := state.constraints;
      var must := ex.solver.mustBeTrue(state.constraints, BoundsCheckBytes(r.mo, addr, bytes, w));
      if must.TimedOut? {
        EarlyPartition(state, cs, address, bytes, isWrite, readOnly, objects);
        return [Early(state)], false, concretized, cs;
      }
      if must.value {
        outcomes := [Access(state, r.mo, addr, isWrite, readOnly, w)];
        OnePartition(state, r.mo, addr, isWrite, readOnly, w, cs, address, bytes, objects);
        return outcomes, true, concretized, cs;
      }
    }
    cs := state.constraints;
    outcomes, complete := SplitResolved(ex, state, isWrite, addr, bytes, objects, readOnly, expired, w, address);
  }

  /** The models are those in which the address has one value. */
  ghost predicate PinnedTo(cs: seq<Expr>, before: seq<Expr>, address: Expr, v: nat) {
    forall env :: Models(cs, env) <==> Models(before, env) && Eval(address, env) == v
  }

  /** When the address is made concrete, and what that leaves. Without time-outs it happens
      only for objects of at least the given size, and certainly if the pointer can point to
      some object and only to such. */
  ghost predicate Narrowed(concretized: bool, prompt: bool, cs: seq<Expr>, before: seq<Expr>, address: Expr,
                           objects: seq<MemoryObject>, maxSymArraySize: nat) {
    && (!concretized ==> cs == before)
    && (concretized ==> exists v :: PinnedTo(cs, before, address, v))
    && (prompt && concretized ==>
          exists mo :: mo in objects && CanPointTo(before, address, mo) && mo.size >= maxSymArraySize > 0)
    && (prompt && !concretized && maxSymArraySize > 0 ==>
          (exists mo :: mo in objects && CanPointTo(before, address, mo)) ==>
          exists mo :: mo in objects && CanPointTo(before, address, mo) && mo.size < maxSymArraySize)
  }

  /** The first resolution: one object the pointer can point to, with the address made
      concrete if the query times out or the object is too large to index symbolically. */
  method Narrow(ex: PathExecutor, state: PathState, address: Expr, objects: seq<MemoryObject>, maxSymArraySize: nat,
                w: nat)
    returns (addr: Expr, r: Resolved, concretized: bool)
    requires ex.solver.Exact() && Concretizes(ex.solver) && state.Valid()
    requires IsPointer(address, w) && Ordered(objects, w)
    modifies state`constraints
    ensures state.Valid() && IsPointer(addr, w) && (addr == address || addr.Constant?)
    ensures r.Object? ==> r.mo in objects
    ensures forall env :: Models(state.constraints, env) ==> Eval(addr, env) == Eval(address, env)
    ensures Narrowed(concretized, ex.solver.Prompt(), state.constraints, old(state.constraints), address, objects,
                     maxSymArraySize)
  {
    hide WF, Width, Eval, Models, Conditions, Ordered, CanPointTo, PathState.Valid;
    ghost var before := state.constraints;
    addr := address;
    var answered;
    StateSatisfiable(state);
    answered, r := ResolveOne(state.constraints, ex.solver, addr, objects, w);
    concretized := !answered;
    if !answered {
      addr := ex.ToConstant(state, addr);
      r := ResolveConstant(objects, addr.value, w);
      assert PinnedTo(state.constraints, before, address, addr.value);
    }
    if r.Object? && maxSymArraySize > 0 && r.mo.size >= maxSymArraySize {
      var value := ex.ToConstant(state, addr);
      StateSatisfiable(state);
      ghost var model :| Models(state.constraints, model);
      assert Eval(addr, model) == value.value;
      assert PinnedTo(state.constraints, before, address, value.value);
      addr, concretized := value, true;
    }
    if answered && r.Object? {
      assert CanPointTo(before, address, r.mo);
    }
  }

  lemma StateSatisfiable(state: PathState)
    requires state.Valid()
    ensures Satisfiable(state.constraints)
  {
  }

  ghost predicate Concretizes(solver: Solver) {
    forall cs, e :: solver.getValue(cs, e).Answer?
  }

  lemma EarlyPartition(state: PathState, cs: seq<Expr>, address: Expr, bytes: nat, isWrite: bool,
                       readOnly: set<MemoryObject>, objects: seq<MemoryObject>)
    requires cs == state.constraints
    ensures Partitioned([Early(state)], cs, address, bytes, isWrite, readOnly, objects)
    ensures exists o :: o in [Early(state)] && o.Early?
  {
    hide Models;
    assert [Early(state)][0] == Early(state) && Early(state) in [Early(state)];
  }

  lemma OnePartition(state: PathState, mo: MemoryObject, addr: Expr, isWrite: bool, readOnly: set<MemoryObject>, w: nat,
                     cs: seq<Expr>, address: Expr, bytes: nat, objects: seq<MemoryObject>)
    requires IsPointer(addr, w) && InSpace(mo, w) && bytes > 0 && mo in objects && cs == state.constraints
    requires Satisfiable(cs) && (addr == address || addr.Constant?)
    requires forall env :: Models(cs, env) ==> Eval(addr, env) == Eval(address, env)
    requires Certain(cs, BoundsCheckBytes(mo, addr, bytes, w))
    ensures Partitioned([Access(state, mo, addr, isWrite, readOnly, w)], cs, address, bytes, isWrite, readOnly, objects)
  {
    hide WF, Width, Eval, Models, Holds, Serves, BoundsCheckBytes, GoodAccess, Access;
    BoundsMeaning(mo, addr, bytes, w);
    AccessIsGood(state, mo, addr, isWrite, readOnly, w, cs, address, bytes);
    var o := Access(state, mo, addr, isWrite, readOnly, w);
    assert [o][0] == o;
  }

  /** The error path: no object, several objects, or one that may be left. Whatever times
      out, every model stays in exactly one successor. */
  method SplitResolved(ex: PathExecutor, state: PathState, isWrite: bool, addr: Expr, bytes: nat,
                       objects: seq<MemoryObject>, readOnly: set<MemoryObject>, expired: nat -> bool, w: nat,
                       ghost address: Expr)
    returns (outcomes: seq<Outcome>, complete: bool)
    requires ex.solver.Exact() && state.Valid() && IsPointer(addr, w) && bytes > 0 && Ordered(objects, w)
    requires addr == address || addr.Constant?
    requires forall env :: Models(state.constraints, env) ==> Eval(addr, env) == Eval(address, env)
    modifies ex`addedStates, state`constraints, state`depth
    ensures Partitioned(outcomes, old(state.constraints), address, bytes, isWrite, readOnly, objects)
    ensures complete <==> forall o :: o in outcomes ==> !o.Early?
    ensures ex.solver.Prompt() && (forall n :: !expired(n)) ==> complete
  {
    hide WF, Width, Eval, Models, Holds, Serves, GoodOutcomes, Covered, Unserved, Partitioned, NoDuplicates, CanPointTo;
    ghost var cs := state.constraints;
    var incomplete, rl := Resolve(state.constraints, ex.solver, addr, objects, 0, expired, w);
    var found, unbound, timedOut;
    ghost var served;
    found, unbound, timedOut, served := SplitOver(ex, state, isWrite, addr, bytes, rl, readOnly, w, cs, address,
                                                  objects);
    var early := incomplete || timedOut;
    AllSplit(found, unbound, early, cs, addr, address, bytes, isWrite, readOnly, served, objects, w);
    outcomes := WithRest(found, unbound, early);
    complete := unbound == null || !early;
    EarlyLast(found, unbound, early, cs, address, bytes, isWrite, readOnly, served);
  }

  lemma EarlyLast(found: seq<Outcome>, unbound: PathState?, early: bool, cs: seq<Expr>, address: Expr, bytes: nat,
                  isWrite: bool, readOnly: set<MemoryObject>, served: seq<MemoryObject>)
    requires GoodOutcomes(found, cs, address, bytes, isWrite, readOnly, served)
    ensures unbound == null || !early <==> forall o :: o in WithRest(found, unbound, early) ==> !o.Early?
  {
    hide GoodAccess;
    var all := WithRest(found, unbound, early);
    if unbound != null && early {
      assert all[|found|].Early?;
    }
  }
}
