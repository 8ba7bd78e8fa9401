/** The open/close/pause/release protocol of bounded merging: merge handlers, the
    merging searcher and the bookkeeping of states around them.

    States and handlers are identities; a handler's identity is its creation
    order. Holding a handler on an open-merge stack is holding a reference to it,
    so a handler is destroyed when it is on no stack. Whether two states can be
    merged is the answer of the data merge and is a parameter here. */
module MergeProtocol {
  import opened Sequences

  type StateId = nat
  type HandlerId = nat
  type ClosePoint = nat
  type Stack = seq<HandlerId>

  datatype Handler = Handler(
    openInstruction: nat,
    openStates: seq<StateId>,
    closedMean: real,
    closedStateCount: nat,
    reachedCloseMerge: map<ClosePoint, seq<StateId>>)

  datatype Wait = Wait(handler: HandlerId, point: ClosePoint)

  /** What an instruction does to a state of its step: the scheduled one, at position 0, or
      one the step has added. */
  datatype Act = Fork(who: nat) | Exit(who: nat)

  /** What the scheduled state's instruction is. */
  datatype Event = Open | Close(point: ClosePoint) | Split(acts: seq<Act>)

  /** Every handler on the stack is alive, and what lies below it is the stack its
      opener had. */
  ghost predicate Layered(stack: Stack, alive: set<HandlerId>, below: map<HandlerId, Stack>) {
    forall i :: 0 <= i < |stack| ==>
      stack[i] in alive && stack[i] in below && stack[..i] == below[stack[i]]
  }

  ghost predicate Nested(stacks: map<StateId, Stack>, alive: set<HandlerId>, below: map<HandlerId, Stack>,
                         next: HandlerId) {
    && (forall h :: h in alive ==> h in below && h < next)
    && (forall h, g :: h in alive && g in below[h] ==> g < h)
    && (forall s :: s in stacks ==> Layered(stacks[s], alive, below))
  }

  /** A handler's open states are exactly the states that have it on their stack. */
  ghost predicate Opened(stacks: map<StateId, Stack>, handlers: map<HandlerId, Handler>) {
    forall h :: h in handlers ==>
      && NoDuplicates(handlers[h].openStates)
      && forall s :: s in handlers[h].openStates <==> s in stacks && h in stacks[s]
  }

  /** No handler outlives its last reference, `dying` apart. */
  ghost predicate Referenced(handlers: map<HandlerId, Handler>, dying: set<HandlerId>) {
    forall h :: h in handlers && h !in dying ==> handlers[h].openStates != []
  }

  /** Every paused state waits at exactly one close point of exactly one live
      handler, and still owes exactly the closes of the regions around it. */
  ghost predicate Waiting(stacks: map<StateId, Stack>, handlers: map<HandlerId, Handler>, below: map<HandlerId, Stack>,
                          waits: map<StateId, Wait>) {
    && (forall s :: s in waits ==>
          && waits[s].handler in handlers && waits[s].handler in below
          && waits[s].point in handlers[waits[s].handler].reachedCloseMerge
          && s in handlers[waits[s].handler].reachedCloseMerge[waits[s].point]
          && s in stacks && stacks[s] == below[waits[s].handler])
    && (forall h, p :: h in handlers && p in handlers[h].reachedCloseMerge ==>
          Group(handlers[h].reachedCloseMerge[p], waits, Wait(h, p)))
  }

  ghost predicate Group(group: seq<StateId>, waits: map<StateId, Wait>, w: Wait) {
    NoDuplicates(group) && forall s :: s in group ==> s in waits && waits[s] == w
  }

  ghost predicate Paused(waits: map<StateId, Wait>, pausedStates: seq<StateId>, inCloseMerge: set<StateId>) {
    && NoDuplicates(pausedStates)
    && (forall s :: s in pausedStates <==> s in waits)
    && inCloseMerge == waits.Keys
  }

  ghost predicate Timed(stacks: map<StateId, Stack>, handlers: map<HandlerId, Handler>, stepped: map<StateId, nat>)
    requires stepped.Keys == stacks.Keys
  {
    forall h, s :: h in handlers && s in stacks && h in stacks[s] ==> handlers[h].openInstruction <= stepped[s]
  }

  /** The merge groups are the live handlers, and each handler's travelling mean is
      the mean distance at which its states closed. */
  ghost predicate Registered(handlers: map<HandlerId, Handler>, mergeGroups: seq<HandlerId>,
                             distances: map<HandlerId, seq<nat>>) {
    && NoDuplicates(mergeGroups)
    && (forall h :: h in mergeGroups <==> h in handlers)
    && (forall h :: h in handlers ==> h in distances && IsMean(handlers[h], distances[h]))
  }

  function Total(distances: seq<nat>): nat {
    if distances == [] then 0 else Total(distances[..|distances| - 1]) + distances[|distances| - 1]
  }

  ghost predicate IsMean(h: Handler, distances: seq<nat>) {
    h.closedStateCount == |distances| && h.closedMean * |distances| as real == Total(distances) as real
  }

  lemma MeanStep(mean: real, n: nat, total: nat, d: nat)
    requires mean * n as real == total as real
    ensures (mean + (d as real - mean) / (n + 1) as real) * (n + 1) as real == (total + d) as real
  {
    var k := (n + 1) as real;
    var q := (d as real - mean) / k;
    assert q * k == d as real - mean;
    assert (mean + q) * k == mean * k + q * k;
    assert mean * k == mean * n as real + mean;
  }

  /** What every step keeps about states, handlers and waits; handlers in `dying` may
      have lost their last reference. */
  ghost predicate Protocol(stacks: map<StateId, Stack>, stepped: map<StateId, nat>, handlers: map<HandlerId, Handler>,
                           mergeGroups: seq<HandlerId>, next: HandlerId, below: map<HandlerId, Stack>,
                           waits: map<StateId, Wait>, distances: map<HandlerId, seq<nat>>, dying: set<HandlerId>) {
    && Nested(stacks, handlers.Keys, below, next)
    && Opened(stacks, handlers)
    && Referenced(handlers, dying)
    && Waiting(stacks, handlers, below, waits)
    && stepped.Keys == stacks.Keys
    && Timed(stacks, handlers, stepped)
    && Registered(handlers, mergeGroups, distances)
  }

  /** Forked states have not reached the searcher yet, terminated ones have not left
      it, and apart from them the base searcher holds exactly the unpaused states. */
  ghost predicate Scheduled(live: set<StateId>, states: set<StateId>, added: seq<StateId>, removed: seq<StateId>,
                            paused: set<StateId>, base: set<StateId>) {
    && live == states + Elements(added)
    && NoDuplicates(added) && NoDuplicates(removed)
    && (forall s :: s in added ==> s !in states)
    && (forall s :: s in removed ==> s in states && s !in paused)
    && paused <= states
    && base == states - paused
  }

  class MergingSearcher {
    var states: set<StateId>
    var addedStates: seq<StateId>
    var removedStates: seq<StateId>
    var stacks: map<StateId, Stack>
    var stepped: map<StateId, nat>
    var handlers: map<HandlerId, Handler>
    var mergeGroups: seq<HandlerId>
    var baseSearcher: set<StateId>
    var pausedStates: seq<StateId>
    var inCloseMerge: set<StateId>
    var nextState: StateId
    var nextHandler: HandlerId
    ghost var below: map<HandlerId, Stack>
    ghost var waits: map<StateId, Wait>
    ghost var distances: map<HandlerId, seq<nat>>

    /** What holds of handlers and stacks even while a state is being deleted. */
    ghost predicate Consistent(dying: set<HandlerId>)
      reads this`stacks, this`stepped, this`handlers, this`mergeGroups, this`pausedStates, this`inCloseMerge,
            this`nextState, this`nextHandler, this`below, this`waits, this`distances
    {
      && Protocol(stacks, stepped, handlers, mergeGroups, nextHandler, below, waits, distances, dying)
      && Paused(waits, pausedStates, inCloseMerge)
      && (forall s :: s in stacks ==> s < nextState)
    }

    /** Inside a step. */
    ghost predicate Stepping()
      reads this
    {
      Consistent({}) && Scheduled(stacks.Keys, states, addedStates, removedStates, waits.Keys, baseSearcher)
    }

    /** Between steps. */
    ghost predicate Stable()
      reads this
    {
      Stepping() && addedStates == [] && removedStates == []
    }

    constructor ()
      ensures Stable() && states == baseSearcher == {0} && stacks == map[0 := []]
    {
      states, addedStates, removedStates, baseSearcher := {0}, [], [], {0};
      stacks, stepped := map[0 := []], map[0 := 0];
      handlers, mergeGroups, pausedStates, inCloseMerge := map[], [], [], {};
      nextState, nextHandler := 1, 0;
      below, waits, distances := map[], map[], map[];
    }

    /** `pauseState` */
    method PauseState(s: StateId)
      requires s !in pausedStates
      modifies this`pausedStates, this`baseSearcher
      ensures pausedStates == old(pausedStates) + [s] && baseSearcher == old(baseSearcher) - {s}
    {
      pausedStates := pausedStates + [s];
      baseSearcher := baseSearcher - {s};
    }

    /** `continueState` */
    method ContinueState(s: StateId)
      requires s in pausedStates
      modifies this`pausedStates, this`baseSearcher
      ensures pausedStates == Erase(old(pausedStates), s) && baseSearcher == old(baseSearcher) + {s}
    {
      pausedStates := Erase(pausedStates, s);
      baseSearcher := baseSearcher + {s};
    }

    /** `releaseStates` */
    method ReleaseStates(h: HandlerId)
      requires h in handlers
      requires Waiting(stacks, handlers, below, waits) && Paused(waits, pausedStates, inCloseMerge)
      modifies this`handlers, this`pausedStates, this`inCloseMerge, this`baseSearcher, this`waits
      ensures handlers == old(handlers)[h := old(handlers)[h].(reachedCloseMerge := map[])]
      ensures waits == old(waits) - WaitingAt(old(waits), h)
      ensures Paused(waits, pausedStates, inCloseMerge) && Waiting(stacks, handlers, below, waits)
      ensures baseSearcher == old(baseSearcher) + WaitingAt(old(waits), h)
    {
      hide Waiting, Paused, Group;
      var reached := handlers[h].reachedCloseMerge;
      var points := reached.Keys;
      ghost var released: set<StateId> := {};
      WaitingGroups(stacks, handlers, below, waits, h);
      while points != {}
        invariant points <= reached.Keys && handlers == old(handlers)
        invariant Paused(waits, pausedStates, inCloseMerge)
        invariant forall s :: s in released <==>
          s in old(waits) && old(waits)[s].handler == h && old(waits)[s].point !in points
        invariant waits == old(waits) - released && baseSearcher == old(baseSearcher) + released
        decreases points
      {
        var p :| p in points;
        GroupMembers(reached[p], old(waits), Wait(h, p));
        ReleaseGroup(reached[p]);
        points := points - {p};
        released := released + Elements(reached[p]);
        assert forall s :: s in released ==>
          s in old(waits) && old(waits)[s].handler == h && old(waits)[s].point !in points;
      }
      handlers := handlers[h := handlers[h].(reachedCloseMerge := map[])];
      assert released == WaitingAt(old(waits), h);
      WaitingElsewhere(stacks, old(handlers), below, old(waits), h);
    }

    method ReleaseGroup(group: seq<StateId>)
      requires NoDuplicates(group) && Elements(group) <= waits.Keys && Paused(waits, pausedStates, inCloseMerge)
      modifies this`pausedStates, this`inCloseMerge, this`baseSearcher, this`waits
      ensures Paused(waits, pausedStates, inCloseMerge)
      ensures waits == old(waits) - Elements(group)
      ensures baseSearcher == old(baseSearcher) + Elements(group)
    {
      hide Erase, IndexOf;
      for i := 0 to |group|
        invariant Paused(waits, pausedStates, inCloseMerge)
        invariant waits == old(waits) - Elements(group[..i])
        invariant baseSearcher == old(baseSearcher) + Elements(group[..i])
      {
        var s := group[i];
        assert s in Elements(group) && s !in Elements(group[..i]);
        EraseMembers(pausedStates, s);
        ContinueState(s);
        inCloseMerge := inCloseMerge - {s};
        waits := waits - {s};
        assert group[..i + 1] == group[..i] + [s];
      }
      assert group[..|group|] == group;
    }

    /** The destructor of a handler that is on no stack: it leaves the merge groups
        and its waiting states run again. */
    method Destroy(h: HandlerId, ghost dying: set<HandlerId>)
      requires Consistent(dying) && h in handlers && handlers[h].openStates == []
      modifies this`handlers, this`mergeGroups, this`pausedStates, this`inCloseMerge, this`baseSearcher, this`waits
      ensures Consistent(dying - {h}) && handlers == old(handlers) - {h}
      ensures waits == old(waits) - WaitingAt(old(waits), h)
      ensures baseSearcher == old(baseSearcher) + WaitingAt(old(waits), h)
    {
      hide Waiting, Paused, Nested, Opened, Timed, Referenced, Registered, SwapRemove;
      ForgetGroup(handlers, mergeGroups, distances, h);
      mergeGroups := SwapRemove(mergeGroups, h);
      ReleaseStates(h);
      handlers := handlers - {h};
      Forget(stacks, old(handlers), handlers, below, waits, stepped, dying, nextHandler, h);
      ForgetWaiting(stacks, old(handlers)[h := old(handlers)[h].(reachedCloseMerge := map[])], below, waits, h);
      assert handlers == old(handlers)[h := old(handlers)[h].(reachedCloseMerge := map[])] - {h};
    }

    /** Dropping one reference to a handler. */
    method DropReference(h: HandlerId, ghost dying: set<HandlerId>) returns (ghost released: set<StateId>)
      requires Consistent(dying) && h in handlers
      modifies this`handlers, this`mergeGroups, this`pausedStates, this`inCloseMerge, this`baseSearcher, this`waits
      ensures Consistent(dying - {h})
      ensures h in handlers <==> exists s :: s in stacks && h in stacks[s]
      ensures forall g :: g in old(handlers) && g != h ==> g in handlers
      ensures released == if h in handlers then {} else WaitingAt(old(waits), h)
      ensures waits == old(waits) - released && baseSearcher == old(baseSearcher) + released
    {
      released := {};
      if forall s :: s in stacks ==> h !in stacks[s] {
        Unreferenced(stacks, handlers, h);
        released := WaitingAt(waits, h);
        Destroy(h, dying);
        assert h !in handlers;
      } else {
        var s :| s in stacks && h in stacks[s];
        assert s in handlers[h].openStates;
      }
    }

    /** The destructor of a state: it leaves the open states of every handler on its
        stack, then gives its references up. */
    method DeleteState(s: StateId)
      requires Consistent({}) && s in stacks && s !in waits
      modifies this`handlers, this`mergeGroups, this`pausedStates, this`inCloseMerge, this`baseSearcher, this`waits,
               this`stacks, this`stepped
      ensures Consistent({}) && stacks == old(stacks) - {s} && stepped == old(stepped) - {s}
      ensures Releasing(old(waits), waits)
      ensures baseSearcher == old(baseSearcher) + (old(waits).Keys - waits.Keys)
    {
      hide MergingSearcher.Consistent;
      var stack := LeaveOpenStates(s);
      for i := 0 to |stack|
        invariant Consistent(Elements(stack[i..])) && stacks == old(stacks) - {s} && stepped == old(stepped) - {s}
        invariant Releasing(old(waits), waits)
        invariant baseSearcher == old(baseSearcher) + (old(waits).Keys - waits.Keys)
        invariant forall h :: h in stack[i..] ==> h in handlers
      {
        assert stack[i] in stack[i..] && stack[i..][1..] == stack[i + 1..];
        ghost var released := DropReference(stack[i], Elements(stack[i..]));
        ElementsTail(stack[i..]);
        assert NoDuplicates(stack[i + 1..]);
        assert forall h :: h in stack[i + 1..] ==> h in stack[i..] && h != stack[i];
      }
      assert Elements(stack[|stack|..]) == {};
    }

    method LeaveOpenStates(s: StateId) returns (stack: Stack)
      requires Consistent({}) && s in stacks && s !in waits
      modifies this`handlers, this`stacks, this`stepped
      ensures stack == old(stacks)[s] && Consistent(Elements(stack))
      ensures stacks == old(stacks) - {s} && stepped == old(stepped) - {s}
      ensures NoDuplicates(stack) && forall h :: h in stack ==> h in handlers
    {
      hide Waiting, Paused, Nested, Opened, Timed, Referenced, Registered, Left;
      stack := stacks[s];
      IncreasingStack(stacks, handlers.Keys, below, nextHandler, s);
      OpenedBy(stacks, handlers, s);
      RemoveOpenStates(stack, s);
      stacks := stacks - {s};
      stepped := stepped - {s};
      LeftOpen(old(handlers), handlers, stack, s);
      LeaveHandlers(old(stacks), old(handlers), handlers, s);
      Without(old(stacks), old(handlers), handlers, below, old(stepped), nextHandler, s);
      WaitingFrame(old(stacks), stacks, old(handlers), handlers, below, waits);
      RegisteredFrame(old(handlers), handlers, mergeGroups, distances);
    }

    method RemoveOpenStates(stack: Stack, s: StateId)
      requires NoDuplicates(stack) && forall h :: h in stack ==> h in handlers && s in handlers[h].openStates
      modifies this`handlers
      ensures Left(old(handlers), handlers, stack, s)
    {
      for i := 0 to |stack|
        invariant Left(old(handlers), handlers, stack[..i], s)
      {
        var h := stack[i];
        assert h !in stack[..i] && h in stack;
        handlers := handlers[h := handlers[h].(openStates := SwapRemove(handlers[h].openStates, s))];
        assert stack[..i + 1] == stack[..i] + [h];
      }
      assert stack[..|stack|] == stack;
    }

    /** The constructor of a handler. */
    method NewHandler(s: StateId) returns (h: HandlerId)
      requires s in stepped && s in stacks
      modifies this`handlers, this`mergeGroups, this`nextHandler, this`below, this`distances
      ensures h == old(nextHandler) && nextHandler == h + 1 && mergeGroups == old(mergeGroups) + [h]
      ensures handlers == old(handlers)[h := Handler(stepped[s], [s], 0.0, 0, map[])]
      ensures below == old(below)[h := stacks[s]] && distances == old(distances)[h := []]
    {
      h := nextHandler;
      nextHandler := nextHandler + 1;
      handlers := handlers[h := Handler(stepped[s], [s], 0.0, 0, map[])];
      mergeGroups := mergeGroups + [h];
      below := below[h := stacks[s]];
      distances := distances[h := []];
    }

    /** `handleOpenMerge`: a new handler goes on the stack of the state. */
    method OpenMerge(s: StateId)
      requires Stepping() && s in stacks && s !in waits && s !in removedStates
      modifies this`handlers, this`mergeGroups, this`stacks, this`nextHandler, this`below, this`distances
      ensures Stepping() && nextHandler == old(nextHandler) + 1
      ensures stacks == old(stacks)[s := old(stacks)[s] + [old(nextHandler)]]
      ensures s in stepped && handlers == old(handlers)[old(nextHandler) := Handler(stepped[s], [s], 0.0, 0, map[])]
      ensures mergeGroups == old(mergeGroups) + [old(nextHandler)]
    {
      hide Protocol, Paused, Scheduled;
      Pushed(stacks, stepped, handlers, mergeGroups, nextHandler, below, waits, distances, s);
      var h := NewHandler(s);
      stacks := stacks[s := stacks[s] + [h]];
    }

    /** `branch`: the copy joins every handler on the stack it inherits. */
    method Branch(s: StateId) returns (child: StateId)
      requires Stepping() && s in stacks && s !in waits && s !in removedStates
      modifies this`handlers, this`stacks, this`stepped, this`nextState, this`addedStates
      ensures Stepping() && child == old(nextState) && nextState == child + 1 && child !in old(stacks)
      ensures stacks == old(stacks)[child := old(stacks)[s]] && addedStates == old(addedStates) + [child]
      ensures s in old(stepped) && stepped == old(stepped)[child := old(stepped)[s]]
    {
      hide Protocol, Paused, Scheduled;
      child := nextState;
      Forked(stacks, stepped, handlers, mergeGroups, nextHandler, below, waits, distances, s, child);
      AddOpenStates(stacks[s], child);
      NewState(s, child);
      ScheduledFork(old(stacks).Keys, states, old(addedStates), removedStates, waits.Keys, baseSearcher, child);
      assert stacks.Keys == old(stacks).Keys + {child};
    }

    method NewState(s: StateId, child: StateId)
      requires s in stacks && s in stepped && child == nextState
      modifies this`stacks, this`stepped, this`nextState, this`addedStates
      ensures stacks == old(stacks)[child := old(stacks)[s]] && stepped == old(stepped)[child := old(stepped)[s]]
      ensures nextState == child + 1 && addedStates == old(addedStates) + [child]
    {
      stacks := stacks[child := stacks[s]];
      stepped := stepped[child := stepped[s]];
      nextState := child + 1;
      addedStates := addedStates + [child];
    }

    method AddOpenStates(stack: Stack, s: StateId)
      requires NoDuplicates(stack) && forall h :: h in stack ==> h in handlers
      modifies this`handlers
      ensures handlers == Joined(old(handlers), stack, s)
    {
      for i := 0 to |stack|
        invariant handlers == Joined(old(handlers), stack[..i], s)
      {
        var h := stack[i];
        assert h !in stack[..i] && h in stack;
        handlers := handlers[h := handlers[h].(openStates := handlers[h].openStates + [s])];
        assert stack[..i + 1] == stack[..i] + [h];
      }
      assert stack[..|stack|] == stack;
    }

    /** `addClosedState`: the state leaves the open states of the handler, then either
        is merged into a state waiting at the same point and terminated, or waits
        there itself. */
    method AddClosedState(h: HandlerId, s: StateId, point: ClosePoint, canMerge: (StateId, StateId) -> bool)
      returns (merged: bool)
      requires h in handlers && s in stepped && handlers[h].openInstruction <= stepped[s] && s in handlers[h].openStates
      requires s !in pausedStates
      modifies this`handlers, this`inCloseMerge, this`removedStates, this`pausedStates, this`baseSearcher
      ensures merged <==> exists m :: m in Arrived(old(handlers)[h], point) && canMerge(m, s)
      ensures handlers
        == old(handlers)[h := Closed(old(handlers)[h], s, point, stepped[s] - old(handlers)[h].openInstruction, merged)]
      ensures inCloseMerge == if merged then old(inCloseMerge) - {s} else old(inCloseMerge)
      ensures removedStates == if merged then old(removedStates) + [s] else old(removedStates)
      ensures pausedStates == if merged then old(pausedStates) else old(pausedStates) + [s]
      ensures baseSearcher == if merged then old(baseSearcher) else old(baseSearcher) - {s}
    {
      var handler := handlers[h];
      var count := handler.closedStateCount + 1;
      var distance := stepped[s] - handler.openInstruction;
      handler := handler.(closedStateCount := count,
                          closedMean := handler.closedMean + (distance as real - handler.closedMean) / count as real,
                          openStates := SwapRemove(handler.openStates, s));
      merged := false;
      if point !in handler.reachedCloseMerge {
        assert [] + [s] == [s];
        handler := handler.(reachedCloseMerge := handler.reachedCloseMerge[point := [s]]);
        PauseState(s);
      } else {
        var group := handler.reachedCloseMerge[point];
        var i := 0;
        while i < |group| && !merged
          invariant 0 <= i <= |group|
          invariant !merged ==> forall k :: 0 <= k < i ==> !canMerge(group[k], s)
          invariant merged ==> exists k :: 0 <= k < |group| && canMerge(group[k], s)
          invariant inCloseMerge == if merged then old(inCloseMerge) - {s} else old(inCloseMerge)
          invariant removedStates == if merged then old(removedStates) + [s] else old(removedStates)
          invariant pausedStates == old(pausedStates) && baseSearcher == old(baseSearcher) && handlers == old(handlers)
        {
          if canMerge(group[i], s) {
            removedStates := removedStates + [s];
            inCloseMerge := inCloseMerge - {s};
            merged := true;
          }
          i := i + 1;
        }
        if !merged {
          handler := handler.(reachedCloseMerge := handler.reachedCloseMerge[point := group + [s]]);
          PauseState(s);
        }
      }
      handlers := handlers[h := handler];
    }

    /** `handleCloseMerge`. A close without an open is ignored. */
    method CloseMerge(s: StateId, point: ClosePoint, canMerge: (StateId, StateId) -> bool)
      requires Stable() && s in states && s !in waits
      modifies this`handlers, this`mergeGroups, this`inCloseMerge, this`removedStates, this`pausedStates,
               this`baseSearcher,
               this`stacks, this`waits, this`distances
      ensures Stepping() && addedStates == [] && (removedStates == [] || removedStates == [s])
      ensures old(stacks)[s] == [] ==> stacks == old(stacks) && removedStates == [] && waits == old(waits)
      ensures old(stacks)[s] != [] ==>
        var h := old(stacks)[s][|old(stacks)[s]| - 1];
        && h in old(handlers)
        && ClosedRegion(old(handlers)[h], handlers.Keys, old(stacks), stacks, waits, s, h, point, canMerge,
                        removedStates == [s])
    {
      if stacks[s] != [] {
        CloseRegion(s, point, canMerge);
      }
    }

    method CloseRegion(s: StateId, point: ClosePoint, canMerge: (StateId, StateId) -> bool)
      requires Stable() && s in states && s !in waits && stacks[s] != []
      modifies this`handlers, this`mergeGroups, this`inCloseMerge, this`removedStates, this`pausedStates,
               this`baseSearcher,
               this`stacks, this`waits, this`distances
      ensures Stepping() && addedStates == [] && (removedStates == [] || removedStates == [s])
      ensures var h := old(stacks)[s][|old(stacks)[s]| - 1];
        && h in old(handlers)
        && ClosedRegion(old(handlers)[h], handlers.Keys, old(stacks), stacks, waits, s, h, point, canMerge,
                        removedStates == [s])
    {
      hide MergingSearcher.Consistent, Scheduled, Departed, ClosedRegion;
      ScheduledLive(stacks.Keys, states, addedStates, removedStates, waits.Keys, baseSearcher);
      var h, merged;
      ghost var waiting, released;
      h, merged, waiting, released := LeaveAndDrop(s, point, canMerge);
      RegionClosed(old(handlers)[h], handlers.Keys, old(stacks), stacks, old(waits), waiting, waits, s, h, point,
                   canMerge, merged, released);
      ScheduledClose(old(stacks).Keys, states, old(waits).Keys, old(baseSearcher), s, merged, released);
    }

    method LeaveAndDrop(s: StateId, point: ClosePoint, canMerge: (StateId, StateId) -> bool)
      returns (h: HandlerId, merged: bool, ghost waiting: map<StateId, Wait>, ghost released: set<StateId>)
      requires Consistent({}) && s in stacks && s !in waits && stacks[s] != [] && removedStates == []
      modifies this`handlers, this`mergeGroups, this`inCloseMerge, this`removedStates, this`pausedStates,
               this`baseSearcher,
               this`stacks, this`waits, this`distances
      ensures Consistent({}) && h == old(stacks)[s][|old(stacks)[s]| - 1] && h in old(handlers)
      ensures Departed(old(handlers)[h], old(stacks), stacks, old(waits), waiting, s, h, point, canMerge, merged)
      ensures h in handlers.Keys <==> exists t :: t in stacks && h in stacks[t]
      ensures released == if h in handlers.Keys then {} else WaitingAt(waiting, h)
      ensures waits == waiting - released && removedStates == if merged then [s] else []
      ensures baseSearcher == (if merged then old(baseSearcher) else old(baseSearcher) - {s}) + released
    {
      hide MergingSearcher.Consistent, Departed;
      h, merged := LeaveRegion(s, point, canMerge);
      waiting := waits;
      released := DropReference(h, {h});
      assert {h} - {h} == {};
    }

    /** Everything a close does before the popped reference is given up. */
    method LeaveRegion(s: StateId, point: ClosePoint, canMerge: (StateId, StateId) -> bool)
      returns (h: HandlerId, merged: bool)
      requires Consistent({}) && s in stacks && s !in waits && stacks[s] != []
      modifies this`handlers, this`inCloseMerge, this`removedStates, this`pausedStates, this`baseSearcher,
               this`stacks, this`waits, this`distances
      ensures Consistent({h}) && h == old(stacks)[s][|old(stacks)[s]| - 1] && h in old(handlers) && h in handlers
      ensures Departed(old(handlers)[h], old(stacks), stacks, old(waits), waits, s, h, point, canMerge, merged)
      ensures old(removedStates) == [] ==> removedStates == if merged then [s] else []
      ensures baseSearcher == if merged then old(baseSearcher) else old(baseSearcher) - {s}
    {
      hide Protocol, Paused, Closed, Arrived, Departed;
      assert [] + [s] == [s];
      h := stacks[s][|stacks[s]| - 1];
      TopHandler(stacks, stepped, handlers, mergeGroups, nextHandler, below, waits, distances, {}, s, point);
      PausedClose(waits, pausedStates, inCloseMerge, s, Wait(h, point));
      merged := Depart(s, h, point, canMerge);
      AfterClose(old(stacks), stepped, old(handlers), mergeGroups, nextHandler, below, old(waits), old(distances), s,
                 point, merged);
      Leaving(old(stacks), old(handlers)[h], below, old(waits), s, h, point, canMerge, merged);
    }

    method Depart(s: StateId, h: HandlerId, point: ClosePoint, canMerge: (StateId, StateId) -> bool)
      returns (merged: bool)
      requires h in handlers && s in stepped && handlers[h].openInstruction <= stepped[s] && s in handlers[h].openStates
      requires s !in pausedStates && s in stacks && stacks[s] != [] && h in distances
      modifies this`handlers, this`inCloseMerge, this`removedStates, this`pausedStates, this`baseSearcher,
               this`stacks, this`waits, this`distances
      ensures merged <==> exists m :: m in Arrived(old(handlers)[h], point) && canMerge(m, s)
      ensures handlers
        == old(handlers)[h := Closed(old(handlers)[h], s, point, stepped[s] - old(handlers)[h].openInstruction, merged)]
      ensures inCloseMerge == if merged then old(inCloseMerge) + {s} - {s} else old(inCloseMerge) + {s}
      ensures removedStates == if merged then old(removedStates) + [s] else old(removedStates)
      ensures pausedStates == if merged then old(pausedStates) else old(pausedStates) + [s]
      ensures baseSearcher == if merged then old(baseSearcher) else old(baseSearcher) - {s}
      ensures stacks == old(stacks)[s := old(stacks)[s][..|old(stacks)[s]| - 1]]
      ensures waits == if merged then old(waits) else old(waits)[s := Wait(h, point)]
      ensures distances == old(distances)[h := old(distances)[h] + [stepped[s] - old(handlers)[h].openInstruction]]
    {
      hide Closed, Arrived;
      ghost var distance := stepped[s] - handlers[h].openInstruction;
      inCloseMerge := inCloseMerge + {s};
      merged := AddClosedState(h, s, point, canMerge);
      stacks := stacks[s := stacks[s][..|stacks[s]| - 1]];
      waits := if merged then waits else waits[s := Wait(h, point)];
      distances := distances[h := distances[h] + [distance]];
    }

    /** `terminateState`: a state that never reached the searcher is deleted at once. */
    method TerminateState(s: StateId)
      requires Stepping() && s in stacks && s !in waits && s !in removedStates
      modifies this`handlers, this`mergeGroups, this`pausedStates, this`inCloseMerge, this`baseSearcher, this`waits,
               this`stacks, this`stepped, this`addedStates, this`removedStates
      ensures Stepping()
      ensures s in old(addedStates) ==>
        && addedStates == Erase(old(addedStates), s) && removedStates == old(removedStates)
        && stacks == old(stacks) - {s} && stepped == old(stepped) - {s}
      ensures s !in old(addedStates) ==>
        && removedStates == old(removedStates) + [s] && addedStates == old(addedStates)
        && stacks == old(stacks) && stepped == old(stepped)
      ensures Releasing(old(waits), waits)
    {
      hide MergingSearcher.Consistent, Scheduled;
      if s in addedStates {
        ScheduledDiscard(stacks.Keys, states, addedStates, removedStates, waits.Keys, baseSearcher, s);
        addedStates := Erase(addedStates, s);
        DeleteState(s);
        assert stacks.Keys == old(stacks).Keys - {s};
        ScheduledRelease(stacks.Keys, states, addedStates, removedStates, old(waits), waits, old(baseSearcher));
      } else {
        ScheduledExit(stacks.Keys, states, addedStates, removedStates, waits.Keys, baseSearcher, s);
        removedStates := removedStates + [s];
      }
    }

    /** `updateStates`: the searcher hears of added and removed states unless the current
        state has just been paused; then removed states are deleted. */
    method UpdateStates(current: StateId)
      requires Stepping()
      requires current in pausedStates ==> addedStates == [] && removedStates == []
      modifies this`handlers, this`mergeGroups, this`pausedStates, this`inCloseMerge, this`baseSearcher, this`waits,
               this`stacks, this`stepped, this`addedStates, this`removedStates, this`states
      ensures Stable() && states == old(states) + Elements(old(addedStates)) - Elements(old(removedStates))
      ensures stacks == old(stacks) - Elements(old(removedStates)) && stacks.Keys == states
      ensures stepped == old(stepped) - Elements(old(removedStates))
      ensures Releasing(old(waits), waits)
    {
      hide MergingSearcher.Consistent, Scheduled, Removing, Elements;
      if current !in pausedStates {
        baseSearcher := baseSearcher + Elements(addedStates) - Elements(removedStates);
      }
      ScheduledUpdate(stacks.Keys, states, addedStates, removedStates, waits.Keys, old(baseSearcher), baseSearcher);
      states := states + Elements(addedStates);
      addedStates := [];
      NoElements(removedStates);
      for i := 0 to |removedStates|
        invariant i <= |removedStates|
        invariant Consistent({}) && Removing(stacks.Keys, states, removedStates[i..], waits.Keys, baseSearcher)
        invariant removedStates == old(removedStates) && addedStates == []
        invariant states == old(states) + Elements(old(addedStates)) - Elements(removedStates[..i])
        invariant stacks == old(stacks) - Elements(removedStates[..i])
        invariant stepped == old(stepped) - Elements(removedStates[..i])
        invariant Releasing(old(waits), waits)
      {
        RemoveState(removedStates[i], removedStates[i..]);
        assert removedStates[i..][1..] == removedStates[i + 1..];
        PrefixElements(removedStates, i);
      }
      assert removedStates[..|removedStates|] == removedStates;
      RemovingNone(stacks.Keys, states, removedStates[|removedStates|..], waits.Keys, baseSearcher);
      removedStates := [];
    }

    method RemoveState(s: StateId, ghost pending: seq<StateId>)
      requires Consistent({}) && pending != [] && s == pending[0]
      requires Removing(stacks.Keys, states, pending, waits.Keys, baseSearcher)
      modifies this`handlers, this`mergeGroups, this`pausedStates, this`inCloseMerge, this`baseSearcher, this`waits,
               this`stacks, this`stepped, this`states
      ensures Consistent({}) && Removing(stacks.Keys, states, pending[1..], waits.Keys, baseSearcher)
      ensures states == old(states) - {s} && stacks == old(stacks) - {s} && stepped == old(stepped) - {s}
      ensures Releasing(old(waits), waits)
    {
      hide MergingSearcher.Consistent, Removing;
      RemovingHead(stacks.Keys, states, pending, waits.Keys, baseSearcher);
      states := states - {s};
      DeleteState(s);
      assert stacks.Keys == old(stacks).Keys - {s};
      RemovingRelease(stacks.Keys, states, pending[1..], old(waits), waits, old(baseSearcher));
    }

    /** Whenever a state is live, the base searcher has one to run. */
    lemma DeadlockFree()
      requires Stable()
      ensures states != {} <==> baseSearcher != {}
    {
      if s :| s in states {
        var t := SomeUnpaused(stacks, stepped, handlers, mergeGroups, nextHandler, below, waits, distances, s);
        assert t in baseSearcher;
      }
    }

    /** `getPrioritizeState` */
    method GetPrioritizeState(h: HandlerId) returns (found: bool, s: StateId)
      requires Consistent({}) && h in handlers
      ensures found ==> Urgent(handlers[h], stepped, waits, s) && s in stacks && s !in inCloseMerge
      ensures !found ==> forall t :: !Urgent(handlers[h], stepped, waits, t)
    {
      hide Protocol, WithinReach;
      OpenStepped(stacks, stepped, handlers, mergeGroups, nextHandler, below, waits, distances, h);
      var open := handlers[h].openStates;
      for i := 0 to |open|
        invariant forall k :: 0 <= k < i && open[k] !in inCloseMerge ==> !WithinReach(handlers[h], stepped[open[k]])
      {
        assert open[i] in open;
        if open[i] !in inCloseMerge && WithinReach(handlers[h], stepped[open[i]]) {
          return true, open[i];
        }
      }
      return false, 0;
    }

    /** `selectState`. With incomplete merging the handlers that have waiting states are tried
        in order: the first one with an open state still within reach has such a state
        prioritised, and those before it give up waiting. `k` is its position, or the number of
        handlers if there is none. */
    method SelectState(useIncompleteMerge: bool) returns (s: StateId, ghost k: nat)
      requires Stable() && baseSearcher != {}
      modifies this`handlers, this`pausedStates, this`inCloseMerge, this`baseSearcher, this`waits
      ensures Stable() && s in baseSearcher && s in states && s !in waits && s !in pausedStates
      ensures Releasing(old(waits), waits) && (!useIncompleteMerge ==> waits == old(waits))
      ensures useIncompleteMerge ==>
        && FirstHopeful(old(handlers), stepped, mergeGroups, old(waits), k)
        && waits == StillWaiting(old(waits), mergeGroups[..k])
        && (k < |mergeGroups| ==> Urgent(old(handlers)[mergeGroups[k]], stepped, waits, s))
        && (k == |mergeGroups| ==> waits == map[])
    {
      k := |mergeGroups|;
      if useIncompleteMerge {
        assert mergeGroups[..0] == [];
        for i := 0 to |mergeGroups|
          invariant Stable() && baseSearcher != {}
          invariant waits == StillWaiting(old(waits), mergeGroups[..i])
          invariant AllBut(old(handlers), handlers, mergeGroups[..i])
          invariant FirstHopeful(old(handlers), stepped, mergeGroups[..i], old(waits), i)
        {
          var found, chosen := TryHandler(i, old(handlers), old(waits));
          if found {
            Schedulable(chosen);
            return chosen, i;
          }
        }
        assert mergeGroups[..|mergeGroups|] == mergeGroups;
        AllReleased(old(waits));
      }
      s :| s in baseSearcher;
      Schedulable(s);
    }

    /** One handler: prioritise one of its open states, or release it if it has waiting states. */
    method TryHandler(i: nat, ghost before: map<HandlerId, Handler>, ghost waited: map<StateId, Wait>)
      returns (found: bool, s: StateId)
      requires Stable() && i < |mergeGroups| && waits == StillWaiting(waited, mergeGroups[..i])
      requires AllBut(before, handlers, mergeGroups[..i])
      requires FirstHopeful(before, stepped, mergeGroups[..i], waited, i)
      modifies this`handlers, this`pausedStates, this`inCloseMerge, this`baseSearcher, this`waits
      ensures Stable() && baseSearcher >= old(baseSearcher)
      ensures found ==> waits == old(waits) && s in stacks && s !in inCloseMerge
      ensures found ==> FirstHopeful(before, stepped, mergeGroups, waited, i)
      ensures found ==> mergeGroups[i] in before && Urgent(before[mergeGroups[i]], stepped, waits, s)
      ensures !found ==> waits == StillWaiting(waited, mergeGroups[..i + 1])
      ensures !found ==> AllBut(before, handlers, mergeGroups[..i + 1])
      ensures !found ==> FirstHopeful(before, stepped, mergeGroups[..i + 1], waited, i + 1)
    {
      hide Protocol, Paused, Scheduled, StillWaiting, FirstHopeful, AllBut, Urgent;
      var h := mergeGroups[i];
      Unvisited(before, i);
      found, s := false, 0;
      if handlers[h].reachedCloseMerge != map[] {
        found, s := GetPrioritizeState(h);
        if found {
          FoundHopeful(before, stepped, mergeGroups, waited, i, s);
          return;
        }
        Release(h);
      } else {
        NobodyWaits(h);
      }
      StillStep(waited, mergeGroups, i);
      VisitedMore(before, old(handlers), handlers, mergeGroups, i);
      NextHopeful(before, stepped, mergeGroups, waited, i);
    }

    lemma Unvisited(before: map<HandlerId, Handler>, i: nat)
      requires Stable() && i < |mergeGroups| && AllBut(before, handlers, mergeGroups[..i])
      ensures mergeGroups[i] in handlers && mergeGroups[i] in before
      ensures handlers[mergeGroups[i]] == before[mergeGroups[i]]
    {
      assert mergeGroups[i] in mergeGroups && mergeGroups[i] !in mergeGroups[..i];
    }

    lemma NobodyWaits(h: HandlerId)
      requires Stable() && h in handlers && handlers[h].reachedCloseMerge == map[]
      ensures waits == waits - WaitingAt(waits, h)
    {
    }

    /** When every handler has been released nobody waits. */
    lemma AllReleased(waited: map<StateId, Wait>)
      requires Stable() && waits == StillWaiting(waited, mergeGroups)
      ensures waits == map[]
    {
      assert forall s :: s in waits ==> waits[s].handler in handlers;
    }

    lemma Schedulable(s: StateId)
      requires Stable() && (s in baseSearcher || (s in stacks && s !in inCloseMerge))
      ensures s in baseSearcher && s in states && s !in waits && s !in pausedStates
    {
    }

    /** Releasing the states of a handler that lives on. */
    method Release(h: HandlerId)
      requires Stable() && h in handlers
      modifies this`handlers, this`pausedStates, this`inCloseMerge, this`baseSearcher, this`waits
      ensures Stable() && Releasing(old(waits), waits)
      ensures baseSearcher >= old(baseSearcher) && waits == old(waits) - WaitingAt(old(waits), h)
      ensures handlers == old(handlers)[h := old(handlers)[h].(reachedCloseMerge := map[])]
    {
      hide Paused, Waiting, Scheduled, Nested, Opened, Timed, Registered, Referenced;
      ReleaseStates(h);
      ReleasedProtocol(stacks, stepped, old(handlers), mergeGroups, nextHandler, below, distances, h);
      ScheduledRelease(stacks.Keys, states, [], [], old(waits), waits, old(baseSearcher));
      assert old(waits).Keys - waits.Keys == WaitingAt(old(waits), h);
    }

    /** One instruction of the scheduled state, then the searcher update. */
    method Step(event: Event, useIncompleteMerge: bool, canMerge: (StateId, StateId) -> bool) returns (s: StateId)
      requires Stable() && baseSearcher != {}
      modifies this
      ensures Stable() && s in old(stacks) && s in old(stepped)
      ensures After(event, s, old(stacks), old(stepped)[s := old(stepped)[s] + 1], old(nextHandler), old(nextState),
                    stacks, stepped)
    {
      hide MergingSearcher.Consistent, After;
      ghost var k;
      Counted();
      s, k := SelectState(useIncompleteMerge);
      Advance(s);
      Take(s, event, canMerge);
    }

    method Take(s: StateId, event: Event, canMerge: (StateId, StateId) -> bool)
      requires Stable() && s in states && s in stacks && s !in waits && s !in pausedStates
      modifies this
      ensures Stable()
      ensures After(event, s, old(stacks), old(stepped), old(nextHandler), old(nextState), stacks, stepped)
    {
      hide MergingSearcher.Consistent, PerformedAll, ClosedRegion;
      Execute(s, event, canMerge);
      UpdateStates(s);
    }

    lemma Counted()
      requires Consistent({})
      ensures stepped.Keys == stacks.Keys
    {
    }

    method Execute(s: StateId, event: Event, canMerge: (StateId, StateId) -> bool)
      requires Stable() && s in states && s in stacks && s !in waits && s !in pausedStates
      modifies this
      ensures Stepping() && (s in pausedStates ==> addedStates == [] && removedStates == [])
      ensures !event.Split? ==> stepped == old(stepped)
      ensures event.Open? ==> stacks == old(stacks)[s := old(stacks)[s] + [old(nextHandler)]]
      ensures event.Open? ==> addedStates == [] && removedStates == []
      ensures event.Close? ==> addedStates == [] && (removedStates == [] || removedStates == [s])
      ensures event.Close? && old(stacks)[s] == [] ==> stacks == old(stacks) && removedStates == []
      ensures event.Close? && old(stacks)[s] != [] ==>
        stacks == old(stacks)[s := old(stacks)[s][..|old(stacks)[s]| - 1]]
      ensures event.Split? ==>
        Now() == PerformedAll(Population(old(stacks), old(stepped), [], [], old(nextState)), s, event.acts)
    {
      hide MergingSearcher.Consistent, Scheduled, PerformedAll;
      if event.Open? {
        OpenMerge(s);
      } else if event.Close? {
        CloseMerge(s, event.point, canMerge);
        RemovedRun();
      } else {
        Perform(s, event.acts);
      }
    }

    ghost function Now(): Population
      reads this`stacks, this`stepped, this`addedStates, this`removedStates, this`nextState
    {
      Population(stacks, stepped, addedStates, removedStates, nextState)
    }

    /** Forks and terminations of the scheduled state and of the states forked in the same
        step, in any order; one that names no such live state does nothing. */
    method Perform(s: StateId, acts: seq<Act>)
      requires Stepping() && s in states && s !in waits
      modifies this`handlers, this`mergeGroups, this`pausedStates, this`inCloseMerge, this`baseSearcher, this`waits,
               this`stacks, this`stepped, this`nextState, this`addedStates, this`removedStates
      ensures Stepping() && s !in pausedStates
      ensures Now() == PerformedAll(old(Now()), s, acts)
    {
      hide MergingSearcher.Stepping, Performed;
      for i := 0 to |acts|
        invariant Stepping() && s in states && s !in waits
        invariant Now() == PerformedAll(old(Now()), s, acts[..i])
      {
        PerformedNext(old(Now()), s, acts, i);
        PerformAct(s, acts[i]);
      }
      assert acts[..|acts|] == acts;
      Running(s);
    }

    method PerformAct(s: StateId, act: Act)
      requires Stepping() && s in states && s !in waits
      modifies this`handlers, this`mergeGroups, this`pausedStates, this`inCloseMerge, this`baseSearcher, this`waits,
               this`stacks, this`stepped, this`nextState, this`addedStates, this`removedStates
      ensures Stepping() && s !in waits
      ensures Now() == Performed(old(Now()), s, act)
    {
      hide MergingSearcher.Stepping;
      if act.who <= |addedStates| {
        var t: StateId := if act.who == 0 then s else addedStates[act.who - 1];
        if t !in removedStates {
          Actionable(s, t);
          if act.Fork? {
            var child := Branch(t);
          } else {
            TerminateState(t);
          }
        }
      }
    }

    lemma Actionable(s: StateId, t: StateId)
      requires Stepping() && (t == s || t in addedStates) && s in states && s !in waits
      ensures t in stacks && t in stepped && t !in waits
    {
      hide MergingSearcher.Consistent;
      Counted();
    }

    lemma Running(s: StateId)
      requires Stepping() && s !in waits
      ensures s !in pausedStates
    {
    }

    lemma RemovedRun()
      requires Stepping()
      ensures forall s :: s in removedStates ==> s !in pausedStates
    {
    }

    /** A whole run: every step keeps the invariant, and the run stops early only when no
        state is left. */
    method RunAll(events: seq<Event>, useIncompleteMerge: bool, canMerge: (StateId, StateId) -> bool)
      returns (done: nat)
      requires Stable()
      modifies this
      ensures Stable() && done <= |events| && (done < |events| ==> states == {})
      ensures states != {} <==> baseSearcher != {}
    {
      done := 0;
      while done < |events| && baseSearcher != {}
        invariant Stable() && done <= |events|
      {
        var s := Step(events[done], useIncompleteMerge, canMerge);
        done := done + 1;
      }
      DeadlockFree();
    }

    method Advance(s: StateId)
      requires Stable() && s in stacks
      modifies this`stepped
      ensures Stable() && stepped == old(stepped)[s := old(stepped)[s] + 1]
    {
      stepped := stepped[s := stepped[s] + 1];
    }
  }

  /** The states of a step: their stacks and instruction counts, those added and removed so far,
      and the next name. */
  datatype Population =
    Population(stacks: map<StateId, Stack>, stepped: map<StateId, nat>, added: seq<StateId>, removed: seq<StateId>,
               next: StateId)

  /** A fork copies the stack and the count of its parent under a new name; a termination
      forgets a state added in this step and marks any other for removal. */
  ghost function Performed(p: Population, s: StateId, act: Act): Population {
    if act.who > |p.added| then p
    else
      var t: StateId := if act.who == 0 then s else p.added[act.who - 1];
      if t in p.removed || t !in p.stacks || t !in p.stepped then p
      else if act.Fork? then
        Population(p.stacks[p.next := p.stacks[t]], p.stepped[p.next := p.stepped[t]], p.added + [p.next], p.removed,
                   p.next + 1)
      else if t in p.added then
        p.(stacks := p.stacks - {t}, stepped := p.stepped - {t}, added := Erase(p.added, t))
      else p.(removed := p.removed + [t])
  }

  ghost function PerformedAll(p: Population, s: StateId, acts: seq<Act>): Population {
    if acts == [] then p else Performed(PerformedAll(p, s, acts[..|acts| - 1]), s, acts[|acts| - 1])
  }

  /** What an event of a state leaves of the stacks and the instruction counts. */
  ghost predicate After(event: Event, s: StateId, stacks: map<StateId, Stack>, stepped: map<StateId, nat>,
                        nextHandler: HandlerId, nextState: StateId, stacks': map<StateId, Stack>,
                        stepped': map<StateId, nat>)
    requires s in stacks
  {
    var stack := stacks[s];
    match event
    case Open => stacks' == stacks[s := stack + [nextHandler]] && stepped' == stepped
    case Close(_) =>
      if stack == [] then stacks' == stacks && stepped' == stepped
      else
        var popped := stacks[s := stack[..|stack| - 1]];
        (stacks' == popped && stepped' == stepped) || (stacks' == popped - {s} && stepped' == stepped - {s})
    case Split(acts) =>
      var p := PerformedAll(Population(stacks, stepped, [], [], nextState), s, acts);
      stacks' == p.stacks - Elements(p.removed) && stepped' == p.stepped - Elements(p.removed)
  }

  lemma NoElements(s: seq<StateId>)
    ensures Elements(s[..0]) == {}
  {
  }

  lemma PrefixElements(s: seq<StateId>, i: nat)
    requires i < |s|
    ensures Elements(s[..i + 1]) == Elements(s[..i]) + {s[i]}
  {
    assert s[..i + 1] == s[..i] + [s[i]];
    ElementsAppend(s[..i], s[i]);
  }

  lemma PerformedNext(p: Population, s: StateId, acts: seq<Act>, i: nat)
    requires i < |acts|
    ensures PerformedAll(p, s, acts[..i + 1]) == Performed(PerformedAll(p, s, acts[..i]), s, acts[i])
  {
    assert acts[..i + 1][..i] == acts[..i];
  }

  /** From a waiting state, follow the handlers: the handler it waits for is open in
      some state, and if that one waits too it waits at a handler created later. */
  lemma SomeUnpaused(stacks: map<StateId, Stack>, stepped: map<StateId, nat>, handlers: map<HandlerId, Handler>,
                     mergeGroups: seq<HandlerId>, next: HandlerId, below: map<HandlerId, Stack>,
                     waits: map<StateId, Wait>, distances: map<HandlerId, seq<nat>>, s: StateId) returns (t: StateId)
    requires Protocol(stacks, stepped, handlers, mergeGroups, next, below, waits, distances, {}) && s in stacks
    ensures t in stacks && t !in waits
    decreases if s in waits then next - waits[s].handler else -1
  {
    if s !in waits {
      return s;
    }
    var h := waits[s].handler;
    var opener := handlers[h].openStates[0];
    assert opener in handlers[h].openStates;
    if opener in waits {
      var g := waits[opener].handler;
      assert h in below[g] && g in handlers;
    }
    t := SomeUnpaused(stacks, stepped, handlers, mergeGroups, next, below, waits, distances, opener);
  }

  lemma ReleasedProtocol(stacks: map<StateId, Stack>, stepped: map<StateId, nat>, handlers: map<HandlerId, Handler>,
                         mergeGroups: seq<HandlerId>, next: HandlerId, below: map<HandlerId, Stack>,
                         distances: map<HandlerId, seq<nat>>, h: HandlerId)
    requires Nested(stacks, handlers.Keys, below, next) && Opened(stacks, handlers) && Referenced(handlers, {})
    requires stepped.Keys == stacks.Keys && Timed(stacks, handlers, stepped)
    requires Registered(handlers, mergeGroups, distances)
    requires h in handlers
    ensures var after := handlers[h := handlers[h].(reachedCloseMerge := map[])];
            && after.Keys == handlers.Keys
            && Nested(stacks, after.Keys, below, next) && Opened(stacks, after) && Referenced(after, {})
            && Timed(stacks, after, stepped) && Registered(after, mergeGroups, distances)
  {
    hide Nested, Opened, Referenced, Timed, Registered;
    var after := handlers[h := handlers[h].(reachedCloseMerge := map[])];
    assert after.Keys == handlers.Keys;
    ReleasedOpen(stacks, stepped, handlers, after);
    ReleasedMeans(handlers, after, mergeGroups, distances);
  }

  lemma ReleasedOpen(stacks: map<StateId, Stack>, stepped: map<StateId, nat>, handlers: map<HandlerId, Handler>,
                     after: map<HandlerId, Handler>)
    requires after.Keys == handlers.Keys && stepped.Keys == stacks.Keys
    requires forall h :: h in handlers ==>
      after[h].openStates == handlers[h].openStates && after[h].openInstruction == handlers[h].openInstruction
    requires Opened(stacks, handlers) && Referenced(handlers, {}) && Timed(stacks, handlers, stepped)
    ensures Opened(stacks, after) && Referenced(after, {}) && Timed(stacks, after, stepped)
  {
    assert forall h :: h in after ==> h in handlers;
  }

  lemma ReleasedMeans(handlers: map<HandlerId, Handler>, after: map<HandlerId, Handler>, mergeGroups: seq<HandlerId>,
                      distances: map<HandlerId, seq<nat>>)
    requires after.Keys == handlers.Keys
    requires forall h :: h in handlers ==>
      after[h].closedMean == handlers[h].closedMean && after[h].closedStateCount == handlers[h].closedStateCount
    requires Registered(handlers, mergeGroups, distances)
    ensures Registered(after, mergeGroups, distances)
  {
    hide IsMean, Total;
    assert forall h :: h in after <==> h in handlers;
    forall h | h in after ensures h in distances && IsMean(after[h], distances[h]) {
      SameMean(handlers[h], after[h], distances[h]);
    }
  }

  /** Only the mean and the count of a handler say what its mean is of. */
  lemma SameMean(a: Handler, b: Handler, distances: seq<nat>)
    requires a.closedMean == b.closedMean && a.closedStateCount == b.closedStateCount && IsMean(a, distances)
    ensures IsMean(b, distances)
  {
    hide Total;
  }

  /** An open state of a handler that is not waiting and has not run too far ahead. */
  ghost predicate Urgent(h: Handler, stepped: map<StateId, nat>, waits: map<StateId, Wait>, s: StateId) {
    s in h.openStates && s !in waits && s in stepped && WithinReach(h, stepped[s])
  }

  /** What waits once some handlers have been released. */
  ghost function StillWaiting(waits: map<StateId, Wait>, released: seq<HandlerId>): map<StateId, Wait> {
    map s | s in waits && waits[s].handler !in released :: waits[s]
  }

  /** A handler with waiting states has an urgent one, after the handlers before it in the
      merge groups have been released. */
  ghost predicate Hopeful(handlers: map<HandlerId, Handler>, stepped: map<StateId, nat>, groups: seq<HandlerId>,
                          waits: map<StateId, Wait>, k: nat)
    requires k < |groups|
  {
    && groups[k] in handlers && handlers[groups[k]].reachedCloseMerge != map[]
    && exists s :: Urgent(handlers[groups[k]], stepped, StillWaiting(waits, groups[..k]), s)
  }

  /** The handler at k is the first hopeful one, or there is none. */
  ghost predicate FirstHopeful(handlers: map<HandlerId, Handler>, stepped: map<StateId, nat>, groups: seq<HandlerId>,
                               waits: map<StateId, Wait>, k: nat) {
    && k <= |groups| && (forall j :: 0 <= j < k ==> !Hopeful(handlers, stepped, groups, waits, j))
    && (k < |groups| ==> Hopeful(handlers, stepped, groups, waits, k))
  }

  /** Handlers are as they were, except that the visited ones may have forgotten their close
      points. */
  ghost predicate AllBut(before: map<HandlerId, Handler>, after: map<HandlerId, Handler>, visited: seq<HandlerId>) {
    && after.Keys == before.Keys
    && forall h :: h in before && h !in visited ==> after[h] == before[h]
  }

  lemma StillStep(waits: map<StateId, Wait>, groups: seq<HandlerId>, i: nat)
    requires i < |groups|
    ensures var now := StillWaiting(waits, groups[..i]);
      StillWaiting(waits, groups[..i + 1]) == now - WaitingAt(now, groups[i])
  {
    assert groups[..i + 1] == groups[..i] + [groups[i]];
  }

  lemma VisitedMore(before: map<HandlerId, Handler>, now: map<HandlerId, Handler>, after: map<HandlerId, Handler>,
                    groups: seq<HandlerId>, i: nat)
    requires i < |groups| && groups[i] in now && AllBut(before, now, groups[..i])
    requires after == now || after == now[groups[i] := now[groups[i]].(reachedCloseMerge := map[])]
    ensures AllBut(before, after, groups[..i + 1])
  {
    assert groups[..i + 1] == groups[..i] + [groups[i]];
  }

  lemma SameHopes(handlers: map<HandlerId, Handler>, stepped: map<StateId, nat>, groups: seq<HandlerId>,
                  waits: map<StateId, Wait>, n: nat, j: nat)
    requires j < n <= |groups|
    ensures Hopeful(handlers, stepped, groups[..n], waits, j) <==> Hopeful(handlers, stepped, groups, waits, j)
  {
    assert groups[..n][..j] == groups[..j] && groups[..n][j] == groups[j];
  }

  lemma FoundHopeful(handlers: map<HandlerId, Handler>, stepped: map<StateId, nat>, groups: seq<HandlerId>,
                     waits: map<StateId, Wait>, i: nat, s: StateId)
    requires i < |groups| && FirstHopeful(handlers, stepped, groups[..i], waits, i)
    requires groups[i] in handlers && handlers[groups[i]].reachedCloseMerge != map[]
    requires Urgent(handlers[groups[i]], stepped, StillWaiting(waits, groups[..i]), s)
    ensures FirstHopeful(handlers, stepped, groups, waits, i)
  {
    hide Urgent, StillWaiting;
    forall j | 0 <= j < i ensures !Hopeful(handlers, stepped, groups, waits, j) {
      SameHopes(handlers, stepped, groups, waits, i, j);
    }
  }

  lemma NextHopeful(handlers: map<HandlerId, Handler>, stepped: map<StateId, nat>, groups: seq<HandlerId>,
                    waits: map<StateId, Wait>, i: nat)
    requires i < |groups| && FirstHopeful(handlers, stepped, groups[..i], waits, i) && groups[i] in handlers
    requires handlers[groups[i]].reachedCloseMerge == map[]
             || forall s :: !Urgent(handlers[groups[i]], stepped, StillWaiting(waits, groups[..i]), s)
    ensures FirstHopeful(handlers, stepped, groups[..i + 1], waits, i + 1)
  {
    hide Urgent, StillWaiting;
    var n := i + 1;
    forall j | 0 <= j < n ensures !Hopeful(handlers, stepped, groups[..n], waits, j) {
      SameHopes(handlers, stepped, groups, waits, n, j);
      if j < i {
        SameHopes(handlers, stepped, groups, waits, i, j);
      }
    }
  }

  /** The state is less than twice the mean distance past the open. */
  predicate WithinReach(h: Handler, stepped: nat) {
    (stepped - h.openInstruction) as real < 2.0 * (if h.closedStateCount == 0 then 0.0 else h.closedMean)
  }

  /** Whole numbers only: the distance is within reach exactly when, times the number of
      closed states, it is below twice the sum of their distances. */
  lemma ReachIsTwiceMean(h: Handler, distances: seq<nat>, stepped: nat)
    requires IsMean(h, distances) && h.openInstruction <= stepped
    ensures WithinReach(h, stepped) <==> (stepped - h.openInstruction) * |distances| < 2 * Total(distances)
  {
    hide Total;
    var d, n, m := stepped - h.openInstruction, |distances|, h.closedMean;
    if n == 0 {
      assert Total(distances) as real == 0.0;
    } else {
      assert (d * n) as real == d as real * n as real && (2.0 * m) * n as real == 2.0 * (m * n as real);
      MulOrder(d as real, 2.0 * m, n as real);
    }
  }

  lemma MulOrder(a: real, b: real, n: real)
    requires n > 0.0
    ensures a < b <==> a * n < b * n
  {
  }

  lemma OpenStepped(stacks: map<StateId, Stack>, stepped: map<StateId, nat>, handlers: map<HandlerId, Handler>,
                    mergeGroups: seq<HandlerId>, next: HandlerId, below: map<HandlerId, Stack>,
                    waits: map<StateId, Wait>, distances: map<HandlerId, seq<nat>>, h: HandlerId)
    requires Protocol(stacks, stepped, handlers, mergeGroups, next, below, waits, distances, {}) && h in handlers
    ensures forall s :: s in handlers[h].openStates ==>
      s in stepped && s in stacks && handlers[h].openInstruction <= stepped[s]
  {
  }

  ghost predicate Departed(handler: Handler, before: map<StateId, Stack>, after: map<StateId, Stack>,
                           waits: map<StateId, Wait>, waiting: map<StateId, Wait>, s: StateId, h: HandlerId,
                           point: ClosePoint, canMerge: (StateId, StateId) -> bool, merged: bool)
    requires s in before && before[s] != []
  {
    && after == before[s := before[s][..|before[s]| - 1]]
    && (merged <==> exists m :: m in Arrived(handler, point) && canMerge(m, s))
    && (forall m :: m in Arrived(handler, point) ==> m in after && after[m] == after[s])
    && waiting == if merged then waits else waits[s := Wait(h, point)]
  }

  lemma Leaving(stacks: map<StateId, Stack>, handler: Handler, below: map<HandlerId, Stack>, waits: map<StateId, Wait>,
                s: StateId, h: HandlerId, point: ClosePoint, canMerge: (StateId, StateId) -> bool, merged: bool)
    requires s in stacks && stacks[s] != [] && h in below && below[h] == stacks[s][..|stacks[s]| - 1]
    requires forall m :: m in Arrived(handler, point) ==> m in stacks && stacks[m] == below[h]
    requires merged <==> exists m :: m in Arrived(handler, point) && canMerge(m, s)
    ensures Departed(handler, stacks, stacks[s := stacks[s][..|stacks[s]| - 1]], waits,
                     if merged then waits else waits[s := Wait(h, point)], s, h, point, canMerge, merged)
  {
    hide Arrived;
  }

  lemma RegionClosed(handler: Handler, alive: set<HandlerId>, before: map<StateId, Stack>, after: map<StateId, Stack>,
                     waits: map<StateId, Wait>, waiting: map<StateId, Wait>, waits': map<StateId, Wait>, s: StateId,
                     h: HandlerId, point: ClosePoint, canMerge: (StateId, StateId) -> bool, merged: bool,
                     released: set<StateId>)
    requires s in before && before[s] != [] && s !in waits
    requires Departed(handler, before, after, waits, waiting, s, h, point, canMerge, merged)
    requires h in alive <==> exists t :: t in after && h in after[t]
    requires released == if h in alive then {} else WaitingAt(waiting, h)
    requires waits' == waiting - released
    ensures ClosedRegion(handler, alive, before, after, waits', s, h, point, canMerge, merged)
    ensures after.Keys == before.Keys
    ensures released <= if merged then waits.Keys else waits.Keys + {s}
    ensures waits'.Keys == (if merged then waits.Keys else waits.Keys + {s}) - released
  {
  }

  /** What one close at `point` did to the closing state and its handler: the state is
      merged away exactly when some state that arrived there before accepts it, all of
      those have the same regions left to close, and the handler lives on exactly
      while some state still has it open. */
  ghost predicate ClosedRegion(handler: Handler, alive: set<HandlerId>, before: map<StateId, Stack>,
                               after: map<StateId, Stack>, waits: map<StateId, Wait>, s: StateId, h: HandlerId,
                               point: ClosePoint, canMerge: (StateId, StateId) -> bool, merged: bool)
    requires s in before && before[s] != []
  {
    && after == before[s := before[s][..|before[s]| - 1]]
    && (merged <==> exists m :: m in Arrived(handler, point) && canMerge(m, s))
    && (forall m :: m in Arrived(handler, point) ==> m in after && after[m] == after[s])
    && (h in alive <==> exists t :: t in after && h in after[t])
    && (s in waits <==> h in alive && !merged)
    && (s in waits ==> waits[s] == Wait(h, point))
  }

  function Arrived(h: Handler, point: ClosePoint): seq<StateId> {
    if point in h.reachedCloseMerge then h.reachedCloseMerge[point] else []
  }

  function Closed(h: Handler, s: StateId, point: ClosePoint, distance: nat, merged: bool): Handler
    requires s in h.openStates
  {
    Handler(h.openInstruction, SwapRemove(h.openStates, s),
            h.closedMean + (distance as real - h.closedMean) / (h.closedStateCount + 1) as real, h.closedStateCount + 1,
            if merged then h.reachedCloseMerge else h.reachedCloseMerge[point := Arrived(h, point) + [s]])
  }

  /** The region a state closes is the innermost one it opened, and every state that
      waits at that handler has exactly the outer regions of this one left. */
  lemma TopHandler(stacks: map<StateId, Stack>, stepped: map<StateId, nat>, handlers: map<HandlerId, Handler>,
                   mergeGroups: seq<HandlerId>, next: HandlerId, below: map<HandlerId, Stack>,
                   waits: map<StateId, Wait>, distances: map<HandlerId, seq<nat>>, dying: set<HandlerId>, s: StateId,
                   point: ClosePoint)
    requires Protocol(stacks, stepped, handlers, mergeGroups, next, below, waits, distances, dying)
    requires s in stacks && stacks[s] != []
    ensures var h := stacks[s][|stacks[s]| - 1];
            && h in handlers && s in stepped && h in distances && handlers[h].openInstruction <= stepped[s]
            && s in handlers[h].openStates && h in below && below[h] == stacks[s][..|stacks[s]| - 1]
            && forall m :: m in Arrived(handlers[h], point) ==> m in waits && m in stacks && stacks[m] == below[h]
  {
    var h := stacks[s][|stacks[s]| - 1];
    assert h in stacks[s] && Layered(stacks[s], handlers.Keys, below);
    assert point in handlers[h].reachedCloseMerge ==>
      Group(handlers[h].reachedCloseMerge[point], waits, Wait(h, point));
  }

  lemma PausedClose(waits: map<StateId, Wait>, pausedStates: seq<StateId>, inCloseMerge: set<StateId>, s: StateId,
                    w: Wait)
    requires Paused(waits, pausedStates, inCloseMerge) && s !in waits
    ensures s !in pausedStates && Paused(waits, pausedStates, inCloseMerge + {s} - {s})
    ensures Paused(waits[s := w], pausedStates + [s], inCloseMerge + {s})
  {
    assert inCloseMerge + {s} - {s} == inCloseMerge;
    AppendMembers(pausedStates, s);
  }

  lemma AfterClose(stacks: map<StateId, Stack>, stepped: map<StateId, nat>, handlers: map<HandlerId, Handler>,
                   mergeGroups: seq<HandlerId>, next: HandlerId, below: map<HandlerId, Stack>,
                   waits: map<StateId, Wait>, distances: map<HandlerId, seq<nat>>, s: StateId, point: ClosePoint,
                   merged: bool)
    requires Protocol(stacks, stepped, handlers, mergeGroups, next, below, waits, distances, {})
    requires s in stacks && stacks[s] != [] && s !in waits
    requires var h := stacks[s][|stacks[s]| - 1];
             h in handlers && s in handlers[h].openStates && s in stepped && handlers[h].openInstruction <= stepped[s]
               && h in distances
    ensures var front := stacks[s][..|stacks[s]| - 1];
            var h := stacks[s][|stacks[s]| - 1];
            var d := stepped[s] - handlers[h].openInstruction;
            && stacks[s := front].Keys == stacks.Keys
            && Protocol(stacks[s := front], stepped, handlers[h := Closed(handlers[h], s, point, d, merged)],
                     mergeGroups, next, below, if merged then waits else waits[s := Wait(h, point)],
                     distances[h := distances[h] + [d]], {h})
  {
    hide SwapRemove, Nested, Opened, Timed, Referenced, Waiting, Registered;
    var h := stacks[s][|stacks[s]| - 1];
    var d := stepped[s] - handlers[h].openInstruction;
    var handler := Closed(handlers[h], s, point, d, merged);
    TopHandler(stacks, stepped, handlers, mergeGroups, next, below, waits, distances, {}, s, point);
    IncreasingStack(stacks, handlers.Keys, below, next, s);
    PoppedNested(stacks, handlers.Keys, below, next, s);
    PoppedOpened(stacks, handlers, stepped, h, handler, s);
    if merged {
      MergedWaiting(stacks, handlers, below, waits, h, handler, s);
    } else {
      PausedWaiting(stacks, handlers, below, waits, h, handler, s, point);
    }
    CloseRegistered(handlers, mergeGroups, distances, h, handler, d);
    assert handlers[h := handler].Keys == handlers.Keys;
  }

  lemma PoppedNested(stacks: map<StateId, Stack>, alive: set<HandlerId>, below: map<HandlerId, Stack>, next: HandlerId,
                     s: StateId)
    requires Nested(stacks, alive, below, next) && s in stacks && stacks[s] != []
    ensures Nested(stacks[s := stacks[s][..|stacks[s]| - 1]], alive, below, next)
  {
    var stack := stacks[s];
    var front := stack[..|stack| - 1];
    forall i | 0 <= i < |front| ensures front[i] in alive && front[i] in below && front[..i] == below[front[i]] {
      assert Layered(stack, alive, below);
      assert front[i] == stack[i] && front[..i] == stack[..i];
    }
    assert Layered(front, alive, below);
  }

  lemma PoppedOpened(stacks: map<StateId, Stack>, handlers: map<HandlerId, Handler>, stepped: map<StateId, nat>,
                     h: HandlerId, handler: Handler, s: StateId)
    requires Opened(stacks, handlers) && stepped.Keys == stacks.Keys && Timed(stacks, handlers, stepped)
    requires Referenced(handlers, {})
    requires s in stacks && stacks[s] != [] && h == stacks[s][|stacks[s]| - 1] && NoDuplicates(stacks[s])
    requires h in handlers && s in handlers[h].openStates && handler.openStates == SwapRemove(handlers[h].openStates, s)
    requires handler.openInstruction == handlers[h].openInstruction
    ensures Opened(stacks[s := stacks[s][..|stacks[s]| - 1]], handlers[h := handler])
    ensures Timed(stacks[s := stacks[s][..|stacks[s]| - 1]], handlers[h := handler], stepped)
    ensures Referenced(handlers[h := handler], {h})
  {
    hide SwapRemove;
    var front := stacks[s][..|stacks[s]| - 1];
    var stacks' := stacks[s := front];
    assert forall g :: g in stacks[s] <==> g in front || g == h by { assert stacks[s] == front + [h]; }
    assert h !in front;
    SwapRemoveMembers(handlers[h].openStates, s);
    forall g | g in handlers
      ensures forall t :: t in handlers[h := handler][g].openStates <==> t in stacks' && g in stacks'[t]
    {
    }
  }

  lemma MergedWaiting(stacks: map<StateId, Stack>, handlers: map<HandlerId, Handler>, below: map<HandlerId, Stack>,
                      waits: map<StateId, Wait>, h: HandlerId, handler: Handler, s: StateId)
    requires Waiting(stacks, handlers, below, waits) && s in stacks && stacks[s] != [] && s !in waits
    requires h in handlers && handler.reachedCloseMerge == handlers[h].reachedCloseMerge
    ensures Waiting(stacks[s := stacks[s][..|stacks[s]| - 1]], handlers[h := handler], below, waits)
  {
    var after := handlers[h := handler];
    forall g | g in after ensures g in handlers && after[g].reachedCloseMerge == handlers[g].reachedCloseMerge {
    }
  }

  lemma PausedWaiting(stacks: map<StateId, Stack>, handlers: map<HandlerId, Handler>, below: map<HandlerId, Stack>,
                      waits: map<StateId, Wait>, h: HandlerId, handler: Handler, s: StateId, point: ClosePoint)
    requires Waiting(stacks, handlers, below, waits) && s in stacks && stacks[s] != [] && s !in waits
    requires h in handlers && h in below && below[h] == stacks[s][..|stacks[s]| - 1]
    requires handler.reachedCloseMerge == handlers[h].reachedCloseMerge[point := Arrived(handlers[h], point) + [s]]
    ensures Waiting(stacks[s := stacks[s][..|stacks[s]| - 1]], handlers[h := handler], below,
                    waits[s := Wait(h, point)])
  {
    PausedGroups(stacks, handlers, below, waits, h, handler, s, point);
    PausedMembers(stacks, handlers, below, waits, h, handler, s, point);
  }

  lemma PausedGroups(stacks: map<StateId, Stack>, handlers: map<HandlerId, Handler>, below: map<HandlerId, Stack>,
                     waits: map<StateId, Wait>, h: HandlerId, handler: Handler, s: StateId, point: ClosePoint)
    requires Waiting(stacks, handlers, below, waits) && s !in waits && h in handlers
    requires handler.reachedCloseMerge == handlers[h].reachedCloseMerge[point := Arrived(handlers[h], point) + [s]]
    ensures var after, waits' := handlers[h := handler], waits[s := Wait(h, point)];
            forall g, p :: g in after && p in after[g].reachedCloseMerge ==>
              Group(after[g].reachedCloseMerge[p], waits', Wait(g, p))
  {
    hide Waiting;
    var after := handlers[h := handler];
    var waits' := waits[s := Wait(h, point)];
    forall g, p | g in after && p in after[g].reachedCloseMerge
      ensures Group(after[g].reachedCloseMerge[p], waits', Wait(g, p))
    {
      ArrivedGroup(stacks, handlers, below, waits, g, p);
      if g == h && p == point {
        AppendMembers(Arrived(handlers[h], point), s);
      } else {
        assert after[g].reachedCloseMerge[p] == Arrived(handlers[g], p);
      }
    }
  }

  lemma PausedMembers(stacks: map<StateId, Stack>, handlers: map<HandlerId, Handler>, below: map<HandlerId, Stack>,
                      waits: map<StateId, Wait>, h: HandlerId, handler: Handler, s: StateId, point: ClosePoint)
    requires Waiting(stacks, handlers, below, waits) && s !in waits && h in handlers
    requires handler.reachedCloseMerge == handlers[h].reachedCloseMerge[point := Arrived(handlers[h], point) + [s]]
    ensures var after, waits' := handlers[h := handler], waits[s := Wait(h, point)];
            forall t :: t in waits' ==>
              && waits'[t].handler in after && waits'[t].point in after[waits'[t].handler].reachedCloseMerge
              && t in after[waits'[t].handler].reachedCloseMerge[waits'[t].point]
  {
    hide Group;
    var after := handlers[h := handler];
    var waits' := waits[s := Wait(h, point)];
    forall t | t in waits'
      ensures waits'[t].handler in after && waits'[t].point in after[waits'[t].handler].reachedCloseMerge
      ensures t in after[waits'[t].handler].reachedCloseMerge[waits'[t].point]
    {
      if t == s {
        assert (Arrived(handlers[h], point) + [s])[|Arrived(handlers[h], point)|] == s;
      } else {
        assert t in Arrived(handlers[waits[t].handler], waits[t].point);
      }
    }
  }

  lemma ArrivedGroup(stacks: map<StateId, Stack>, handlers: map<HandlerId, Handler>, below: map<HandlerId, Stack>,
                     waits: map<StateId, Wait>, h: HandlerId, point: ClosePoint)
    requires Waiting(stacks, handlers, below, waits) && h in handlers
    ensures Group(Arrived(handlers[h], point), waits, Wait(h, point))
  {
  }

  lemma CloseRegistered(handlers: map<HandlerId, Handler>, mergeGroups: seq<HandlerId>,
                        distances: map<HandlerId, seq<nat>>, h: HandlerId, handler: Handler, d: nat)
    requires Registered(handlers, mergeGroups, distances) && h in handlers && h in distances
    requires handler.closedStateCount == handlers[h].closedStateCount + 1
    requires handler.closedMean ==
      handlers[h].closedMean + (d as real - handlers[h].closedMean) / (handlers[h].closedStateCount + 1) as real
    ensures Registered(handlers[h := handler], mergeGroups, distances[h := distances[h] + [d]])
  {
    var all := distances[h] + [d];
    assert all[..|all| - 1] == distances[h];
    assert IsMean(handlers[h], distances[h]);
    MeanStep(handlers[h].closedMean, |distances[h]|, Total(distances[h]), d);
    assert IsMean(handler, all);
  }

  lemma ScheduledLive(live: set<StateId>, states: set<StateId>, added: seq<StateId>, removed: seq<StateId>,
                      paused: set<StateId>, base: set<StateId>)
    requires Scheduled(live, states, added, removed, paused, base)
    ensures states <= live && (added == [] ==> live == states)
    ensures base == states - paused && paused <= states
  {
  }

  lemma ScheduledDiscard(live: set<StateId>, states: set<StateId>, added: seq<StateId>, removed: seq<StateId>,
                         paused: set<StateId>, base: set<StateId>, s: StateId)
    requires Scheduled(live, states, added, removed, paused, base) && s in added
    ensures Scheduled(live - {s}, states, Erase(added, s), removed, paused, base)
  {
    hide Erase;
    EraseMembers(added, s);
  }

  lemma ScheduledExit(live: set<StateId>, states: set<StateId>, added: seq<StateId>, removed: seq<StateId>,
                      paused: set<StateId>, base: set<StateId>, s: StateId)
    requires Scheduled(live, states, added, removed, paused, base) && s in live && s !in added && s !in paused
    requires s !in removed
    ensures Scheduled(live, states, added, removed + [s], paused, base)
  {
    AppendMembers(removed, s);
  }

  lemma ScheduledRelease(live: set<StateId>, states: set<StateId>, added: seq<StateId>, removed: seq<StateId>,
                         waits: map<StateId, Wait>, waits': map<StateId, Wait>, base: set<StateId>)
    requires Scheduled(live, states, added, removed, waits.Keys, base) && Releasing(waits, waits')
    ensures Scheduled(live, states, added, removed, waits'.Keys, base + (waits.Keys - waits'.Keys))
  {
  }

  /** While removed states are being deleted the searcher no longer holds them. */
  ghost predicate Removing(live: set<StateId>, states: set<StateId>, removed: seq<StateId>, paused: set<StateId>,
                           base: set<StateId>) {
    && live == states && NoDuplicates(removed) && paused <= states
    && (forall s :: s in removed ==> s in states && s !in paused)
    && base == states - paused - Elements(removed)
  }

  lemma ScheduledUpdate(live: set<StateId>, states: set<StateId>, added: seq<StateId>, removed: seq<StateId>,
                        paused: set<StateId>, base: set<StateId>, base': set<StateId>)
    requires Scheduled(live, states, added, removed, paused, base)
    requires base' == base + Elements(added) - Elements(removed) || (base' == base && added == [] && removed == [])
    ensures Removing(live, states + Elements(added), removed, paused, base')
  {
    assert forall s :: s in removed <==> s in Elements(removed);
    assert forall s :: s in added <==> s in Elements(added);
  }

  lemma RemovingHead(live: set<StateId>, states: set<StateId>, removed: seq<StateId>, paused: set<StateId>,
                     base: set<StateId>)
    requires Removing(live, states, removed, paused, base) && removed != []
    ensures removed[0] in live && removed[0] !in paused
    ensures Removing(live - {removed[0]}, states - {removed[0]}, removed[1..], paused, base)
  {
    ElementsTail(removed);
  }

  lemma RemovingRelease(live: set<StateId>, states: set<StateId>, removed: seq<StateId>, waits: map<StateId, Wait>,
                        waits': map<StateId, Wait>, base: set<StateId>)
    requires Removing(live, states, removed, waits.Keys, base) && Releasing(waits, waits')
    ensures Removing(live, states, removed, waits'.Keys, base + (waits.Keys - waits'.Keys))
  {
    assert forall s :: s in removed <==> s in Elements(removed);
  }

  lemma RemovingNone(live: set<StateId>, states: set<StateId>, removed: seq<StateId>, paused: set<StateId>,
                     base: set<StateId>)
    requires Removing(live, states, removed, paused, base) && removed == []
    ensures live == states && Scheduled(live, states, [], [], paused, base)
  {
  }

  lemma ScheduledClose(live: set<StateId>, states: set<StateId>, paused: set<StateId>, base: set<StateId>, s: StateId,
                       merged: bool, released: set<StateId>)
    requires Scheduled(live, states, [], [], paused, base) && s in states && s !in paused
    requires released <= if merged then paused else paused + {s}
    ensures merged ==> Scheduled(live, states, [], [s], paused - released, base + released)
    ensures !merged ==> Scheduled(live, states, [], [], paused + {s} - released, base - {s} + released)
  {
  }

  ghost function Joined(handlers: map<HandlerId, Handler>, stack: Stack, s: StateId): map<HandlerId, Handler> {
    map h | h in handlers ::
      if h in stack then handlers[h].(openStates := handlers[h].openStates + [s]) else handlers[h]
  }

  lemma Forked(stacks: map<StateId, Stack>, stepped: map<StateId, nat>, handlers: map<HandlerId, Handler>,
               mergeGroups: seq<HandlerId>, next: HandlerId, below: map<HandlerId, Stack>, waits: map<StateId, Wait>,
               distances: map<HandlerId, seq<nat>>, s: StateId, child: StateId)
    requires Protocol(stacks, stepped, handlers, mergeGroups, next, below, waits, distances, {})
    requires s in stacks && child !in stacks
    ensures s in stepped && NoDuplicates(stacks[s]) && forall h :: h in stacks[s] ==> h in handlers
    ensures Protocol(stacks[child := stacks[s]], stepped[child := stepped[s]], Joined(handlers, stacks[s], child),
                     mergeGroups, next, below, waits, distances, {})
  {
    var after := Joined(handlers, stacks[s], child);
    IncreasingStack(stacks, handlers.Keys, below, next, s);
    JoinedOpened(stacks, handlers, s, child);
    ForkedNested(stacks, handlers, after, below, stepped, next, s, child);
    WaitingFrame(stacks, stacks[child := stacks[s]], handlers, after, below, waits) by {
      assert forall t :: t in waits ==> t in stacks;
    }
    RegisteredFrame(handlers, after, mergeGroups, distances);
  }

  lemma JoinedOpened(stacks: map<StateId, Stack>, handlers: map<HandlerId, Handler>, s: StateId, child: StateId)
    requires Opened(stacks, handlers) && Referenced(handlers, {}) && s in stacks && child !in stacks
    ensures OpenOnly(handlers, Joined(handlers, stacks[s], child))
    ensures Opened(stacks[child := stacks[s]], Joined(handlers, stacks[s], child))
    ensures Referenced(Joined(handlers, stacks[s], child), {})
  {
    var after := Joined(handlers, stacks[s], child);
    var stacks' := stacks[child := stacks[s]];
    forall h | h in after
      ensures NoDuplicates(after[h].openStates)
      ensures forall t :: t in after[h].openStates <==> t in stacks' && h in stacks'[t]
    {
      if h in stacks[s] {
        AppendMembers(handlers[h].openStates, child);
      }
    }
  }

  lemma ForkedNested(stacks: map<StateId, Stack>, handlers: map<HandlerId, Handler>, after: map<HandlerId, Handler>,
                     below: map<HandlerId, Stack>, stepped: map<StateId, nat>, next: HandlerId, s: StateId,
                     child: StateId)
    requires stepped.Keys == stacks.Keys && s in stacks && OpenOnly(handlers, after)
    requires Nested(stacks, handlers.Keys, below, next) && Timed(stacks, handlers, stepped)
    ensures Nested(stacks[child := stacks[s]], after.Keys, below, next)
    ensures Timed(stacks[child := stacks[s]], after, stepped[child := stepped[s]])
  {
  }

  lemma ScheduledFork(live: set<StateId>, states: set<StateId>, added: seq<StateId>, removed: seq<StateId>,
                      paused: set<StateId>, base: set<StateId>, child: StateId)
    requires Scheduled(live, states, added, removed, paused, base) && child !in live
    ensures Scheduled(live + {child}, states, added + [child], removed, paused, base)
  {
    ElementsAppend(added, child);
    AppendMembers(added, child) by { assert forall s :: s in added ==> s in Elements(added); }
  }

  lemma FreshHandler(stacks: map<StateId, Stack>, alive: set<HandlerId>, below: map<HandlerId, Stack>, next: HandlerId)
    requires Nested(stacks, alive, below, next)
    ensures next !in alive
    ensures forall s :: s in stacks ==> next !in stacks[s]
  {
    forall s | s in stacks ensures next !in stacks[s] {
      assert Layered(stacks[s], alive, below);
    }
  }

  lemma NewGroup(handlers: map<HandlerId, Handler>, mergeGroups: seq<HandlerId>, distances: map<HandlerId, seq<nat>>,
                 h: HandlerId, handler: Handler)
    requires Registered(handlers, mergeGroups, distances) && h !in handlers && handler.closedStateCount == 0
    ensures Registered(handlers[h := handler], mergeGroups + [h], distances[h := []])
  {
    AppendMembers(mergeGroups, h);
  }

  lemma ForgetGroup(handlers: map<HandlerId, Handler>, mergeGroups: seq<HandlerId>, distances: map<HandlerId, seq<nat>>,
                    h: HandlerId)
    requires Registered(handlers, mergeGroups, distances) && h in handlers
    ensures h in mergeGroups && Registered(handlers - {h}, SwapRemove(mergeGroups, h), distances)
  {
    SwapRemoveMembers(mergeGroups, h);
  }

  lemma Pushed(stacks: map<StateId, Stack>, stepped: map<StateId, nat>, handlers: map<HandlerId, Handler>,
               mergeGroups: seq<HandlerId>, h: HandlerId, below: map<HandlerId, Stack>, waits: map<StateId, Wait>,
               distances: map<HandlerId, seq<nat>>, s: StateId)
    requires Protocol(stacks, stepped, handlers, mergeGroups, h, below, waits, distances, {})
    requires s in stacks && s !in waits
    ensures s in stepped && stacks[s := stacks[s] + [h]].Keys == stacks.Keys
    ensures Protocol(stacks[s := stacks[s] + [h]], stepped, handlers[h := Handler(stepped[s], [s], 0.0, 0, map[])],
                     mergeGroups + [h], h + 1, below[h := stacks[s]], waits, distances[h := []], {})
  {
    var stacks' := stacks[s := stacks[s] + [h]];
    var handlers' := handlers[h := Handler(stepped[s], [s], 0.0, 0, map[])];
    NewGroup(handlers, mergeGroups, distances, h, handlers'[h]) by { FreshHandler(stacks, handlers.Keys, below, h); }
    PushedOpened(stacks, handlers, below, stepped, h, s);
    PushedNested(stacks, handlers.Keys, below, h, s);
    PushedWaiting(stacks, handlers, below, waits, stepped, h, s);
  }

  lemma PushedOpened(stacks: map<StateId, Stack>, handlers: map<HandlerId, Handler>, below: map<HandlerId, Stack>,
                     stepped: map<StateId, nat>, h: HandlerId, s: StateId)
    requires stepped.Keys == stacks.Keys && s in stacks
    requires Nested(stacks, handlers.Keys, below, h) && Opened(stacks, handlers) && Timed(stacks, handlers, stepped)
    ensures var stacks' := stacks[s := stacks[s] + [h]];
            var handlers' := handlers[h := Handler(stepped[s], [s], 0.0, 0, map[])];
            Opened(stacks', handlers') && Timed(stacks', handlers', stepped)
  {
    var stacks' := stacks[s := stacks[s] + [h]];
    FreshHandler(stacks, handlers.Keys, below, h);
    forall t ensures t in stacks' && h in stacks'[t] <==> t == s {
      assert h in stacks[s] + [h];
    }
    forall g | g in handlers ensures forall t :: t in stacks ==> (g in stacks[t] <==> g in stacks'[t]) {
    }
  }

  lemma PushedNested(stacks: map<StateId, Stack>, alive: set<HandlerId>, below: map<HandlerId, Stack>, h: HandlerId,
                     s: StateId)
    requires Nested(stacks, alive, below, h) && s in stacks
    ensures Nested(stacks[s := stacks[s] + [h]], alive + {h}, below[h := stacks[s]], h + 1)
  {
    var stacks' := stacks[s := stacks[s] + [h]];
    var below' := below[h := stacks[s]];
    FreshHandler(stacks, alive, below, h);
    IncreasingStack(stacks, alive, below, h, s);
    forall t | t in stacks' ensures Layered(stacks'[t], alive + {h}, below') {
      assert Layered(stacks[t], alive, below);
      forall i | 0 <= i < |stacks'[t]|
        ensures stacks'[t][i] in alive + {h} && stacks'[t][i] in below' && stacks'[t][..i] == below'[stacks'[t][i]]
      {
        if i < |stacks[t]| {
          assert stacks[t][i] in stacks[t] && stacks'[t][..i] == stacks[t][..i];
        } else {
          assert stacks'[t][..i] == stacks[s];
        }
      }
    }
  }

  lemma PushedWaiting(stacks: map<StateId, Stack>, handlers: map<HandlerId, Handler>, below: map<HandlerId, Stack>,
                      waits: map<StateId, Wait>, stepped: map<StateId, nat>, h: HandlerId, s: StateId)
    requires Waiting(stacks, handlers, below, waits) && s in stacks && s !in waits && s in stepped && h !in handlers
    ensures Waiting(stacks[s := stacks[s] + [h]], handlers[h := Handler(stepped[s], [s], 0.0, 0, map[])],
                    below[h := stacks[s]], waits)
  {
    var after := handlers[h := Handler(stepped[s], [s], 0.0, 0, map[])];
    forall g, p | g in after && p in after[g].reachedCloseMerge
      ensures Group(after[g].reachedCloseMerge[p], waits, Wait(g, p))
    {
      assert g in handlers;
    }
  }

  ghost predicate Left(before: map<HandlerId, Handler>, after: map<HandlerId, Handler>, stack: Stack, s: StateId) {
    && after.Keys == before.Keys
    && forall h :: h in before ==>
         if h in stack && s in before[h].openStates
         then after[h] == before[h].(openStates := SwapRemove(before[h].openStates, s))
         else after[h] == before[h]
  }

  lemma IncreasingStack(stacks: map<StateId, Stack>, alive: set<HandlerId>, below: map<HandlerId, Stack>,
                        next: HandlerId, s: StateId)
    requires Nested(stacks, alive, below, next) && s in stacks
    ensures NoDuplicates(stacks[s])
    ensures forall i, j :: 0 <= i < j < |stacks[s]| ==> stacks[s][i] < stacks[s][j]
    ensures forall h :: h in stacks[s] ==> h in alive
  {
    var stack := stacks[s];
    forall i, j | 0 <= i < j < |stack| ensures stack[i] < stack[j] {
      assert stack[..j][i] in below[stack[j]];
    }
  }

  lemma OpenedBy(stacks: map<StateId, Stack>, handlers: map<HandlerId, Handler>, s: StateId)
    requires Opened(stacks, handlers) && s in stacks
    ensures forall h :: h in handlers ==> (h in stacks[s] <==> s in handlers[h].openStates)
  {
  }

  /** Only the lists of open states differ. */
  ghost predicate OpenOnly(before: map<HandlerId, Handler>, after: map<HandlerId, Handler>) {
    after.Keys == before.Keys && forall h :: h in before ==> after[h] == before[h].(openStates := after[h].openStates)
  }

  lemma LeftOpen(before: map<HandlerId, Handler>, after: map<HandlerId, Handler>, stack: Stack, s: StateId)
    requires Left(before, after, stack, s)
    ensures OpenOnly(before, after)
  {
  }

  lemma LeaveHandlers(stacks: map<StateId, Stack>, handlers: map<HandlerId, Handler>, after: map<HandlerId, Handler>,
                      s: StateId)
    requires Opened(stacks, handlers) && Referenced(handlers, {})
    requires s in stacks && Left(handlers, after, stacks[s], s)
    ensures Opened(stacks - {s}, after) && Referenced(after, Elements(stacks[s]))
  {
    hide SwapRemove;
    forall h | h in after
      ensures NoDuplicates(after[h].openStates)
      ensures forall t :: t in after[h].openStates <==> t in stacks - {s} && h in (stacks - {s})[t]
    {
      if h in stacks[s] {
        SwapRemoveMembers(handlers[h].openStates, s);
      }
    }
  }

  lemma Without(stacks: map<StateId, Stack>, handlers: map<HandlerId, Handler>, after: map<HandlerId, Handler>,
                below: map<HandlerId, Stack>, stepped: map<StateId, nat>, next: HandlerId, s: StateId)
    requires stepped.Keys == stacks.Keys
    requires Nested(stacks, handlers.Keys, below, next) && Timed(stacks, handlers, stepped)
    requires OpenOnly(handlers, after)
    ensures Nested(stacks - {s}, after.Keys, below, next) && Timed(stacks - {s}, after, stepped - {s})
  {
  }

  lemma WaitingFrame(stacks: map<StateId, Stack>, stacks': map<StateId, Stack>, handlers: map<HandlerId, Handler>,
                     after: map<HandlerId, Handler>, below: map<HandlerId, Stack>, waits: map<StateId, Wait>)
    requires Waiting(stacks, handlers, below, waits) && OpenOnly(handlers, after)
    requires forall s :: s in waits && s in stacks ==> s in stacks' && stacks'[s] == stacks[s]
    ensures Waiting(stacks', after, below, waits)
  {
    forall h, p | h in after && p in after[h].reachedCloseMerge
      ensures Group(after[h].reachedCloseMerge[p], waits, Wait(h, p))
    {
      assert handlers[h].reachedCloseMerge == after[h].reachedCloseMerge;
    }
  }

  lemma RegisteredFrame(handlers: map<HandlerId, Handler>, after: map<HandlerId, Handler>, mergeGroups: seq<HandlerId>,
                        distances: map<HandlerId, seq<nat>>)
    requires OpenOnly(handlers, after) && Registered(handlers, mergeGroups, distances)
    ensures Registered(after, mergeGroups, distances)
  {
    forall h | h in after ensures h in distances && IsMean(after[h], distances[h]) {
      assert IsMean(handlers[h], distances[h]);
    }
  }

  ghost predicate Releasing(before: map<StateId, Wait>, after: map<StateId, Wait>) {
    forall s :: s in after ==> s in before && before[s] == after[s]
  }

  lemma Unreferenced(stacks: map<StateId, Stack>, handlers: map<HandlerId, Handler>, h: HandlerId)
    requires Opened(stacks, handlers) && h in handlers
    ensures handlers[h].openStates == [] <==> forall s :: s in stacks ==> h !in stacks[s]
  {
    if handlers[h].openStates != [] {
      assert handlers[h].openStates[0] in handlers[h].openStates;
    }
  }

  lemma Forget(stacks: map<StateId, Stack>, handlers: map<HandlerId, Handler>, after: map<HandlerId, Handler>,
               below: map<HandlerId, Stack>, waits: map<StateId, Wait>, stepped: map<StateId, nat>,
               dying: set<HandlerId>, next: HandlerId, h: HandlerId)
    requires stepped.Keys == stacks.Keys
    requires Nested(stacks, handlers.Keys, below, next) && Opened(stacks, handlers) && Timed(stacks, handlers, stepped)
    requires Referenced(handlers, dying)
    requires h in handlers && handlers[h].openStates == [] && after == handlers - {h}
    ensures Nested(stacks, after.Keys, below, next) && Opened(stacks, after) && Timed(stacks, after, stepped)
    ensures Referenced(after, dying - {h})
  {
    Unreferenced(stacks, handlers, h);
    forall s | s in stacks ensures Layered(stacks[s], after.Keys, below) {
      assert Layered(stacks[s], handlers.Keys, below);
      assert forall i :: 0 <= i < |stacks[s]| ==> stacks[s][i] in stacks[s];
    }
  }

  lemma ForgetWaiting(stacks: map<StateId, Stack>, handlers: map<HandlerId, Handler>, below: map<HandlerId, Stack>,
                      waits: map<StateId, Wait>, h: HandlerId)
    requires h in handlers && Waiting(stacks, handlers, below, waits) && handlers[h].reachedCloseMerge == map[]
    ensures Waiting(stacks, handlers - {h}, below, waits)
  {
  }

  ghost function WaitingAt(waits: map<StateId, Wait>, h: HandlerId): set<StateId> {
    set s | s in waits && waits[s].handler == h
  }

  lemma WaitingGroups(stacks: map<StateId, Stack>, handlers: map<HandlerId, Handler>, below: map<HandlerId, Stack>,
                      waits: map<StateId, Wait>, h: HandlerId)
    requires h in handlers && Waiting(stacks, handlers, below, waits)
    ensures forall p :: p in handlers[h].reachedCloseMerge ==>
      Group(handlers[h].reachedCloseMerge[p], waits, Wait(h, p))
    ensures forall s :: s in waits && waits[s].handler == h ==>
      waits[s].point in handlers[h].reachedCloseMerge && s in handlers[h].reachedCloseMerge[waits[s].point]
  {
  }

  lemma GroupMembers(group: seq<StateId>, waits: map<StateId, Wait>, w: Wait)
    requires Group(group, waits, w)
    ensures NoDuplicates(group) && Elements(group) <= waits.Keys && forall s :: s in group ==> waits[s] == w
  {
  }

  /** Releasing the states at one handler leaves every other wait as it was. */
  lemma WaitingElsewhere(stacks: map<StateId, Stack>, handlers: map<HandlerId, Handler>, below: map<HandlerId, Stack>,
                         waits: map<StateId, Wait>, h: HandlerId)
    requires h in handlers && Waiting(stacks, handlers, below, waits)
    ensures Waiting(stacks, handlers[h := handlers[h].(reachedCloseMerge := map[])], below, waits - WaitingAt(waits, h))
  {
    var after := handlers[h := handlers[h].(reachedCloseMerge := map[])];
    var rest := waits - WaitingAt(waits, h);
    forall g, p | g in after && p in after[g].reachedCloseMerge
      ensures Group(after[g].reachedCloseMerge[p], rest, Wait(g, p))
    {
      assert g != h && g in handlers && Group(handlers[g].reachedCloseMerge[p], waits, Wait(g, p));
    }
    forall s | s in rest
      ensures rest[s].handler in after && after[rest[s].handler] == handlers[rest[s].handler]
    {
    }
  }
}
