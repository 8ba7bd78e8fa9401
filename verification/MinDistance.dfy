/** The distance of every instruction to a return of its function, by relaxation to a
    fixpoint over the whole module. Zero stands for "no return is reachable". */
module MinDistance {

  datatype Instruction = Return | Call(targets: seq<nat>) | Other

  datatype Block = Block(body: seq<Instruction>, successors: seq<nat>)

  datatype Function = Declaration(mayReturn: bool) | Definition(blocks: seq<Block>)

  type Module = seq<Function>

  /** The place of an instruction: function, basic block, and index in the block. */
  datatype Pos = Pos(fn: nat, block: nat, index: nat)

  ghost predicate WellFormed(m: Module) {
    forall f :: 0 <= f < |m| && m[f].Definition? ==> m[f].blocks != [] && forall b :: 0 <= b < |m[f].blocks| ==>
      && m[f].blocks[b].body != []
      && (forall s :: s in m[f].blocks[b].successors ==> s < |m[f].blocks|)
      && (forall i :: 0 <= i < |m[f].blocks[b].body| && m[f].blocks[b].body[i].Call? ==>
            forall t :: t in m[f].blocks[b].body[i].targets ==> t < |m|)
  }

  predicate Within(m: Module, p: Pos) {
    p.fn < |m| && m[p.fn].Definition? && p.block < |m[p.fn].blocks| && p.index < |m[p.fn].blocks[p.block].body|
  }

  function At(m: Module, p: Pos): Instruction
    requires Within(m, p)
  {
    m[p.fn].blocks[p.block].body[p.index]
  }

  function Entry(f: nat): Pos {
    Pos(f, 0, 0)
  }

  function FirstOf(fn: nat, blocks: seq<nat>): (r: seq<Pos>)
    ensures forall n :: n in r ==> n.fn == fn && n.block in blocks && n.index == 0
    ensures forall b :: b in blocks ==> Pos(fn, b, 0) in r
  {
    if blocks == [] then [] else [Pos(fn, blocks[0], 0)] + FirstOf(fn, blocks[1..])
  }

  /** Control can go from p to n: to the instruction after it in its block, or from the last
      one to the start of a successor block. */
  ghost predicate Edge(m: Module, p: Pos, n: Pos) {
    && Within(m, p) && n.fn == p.fn
    && if p.index + 1 < |m[p.fn].blocks[p.block].body| then n.block == p.block && n.index == p.index + 1
       else n.block in m[p.fn].blocks[p.block].successors && n.index == 0
  }

  /** `getSuccs`: the next instruction, or the first one of every successor block. */
  function Successors(m: Module, p: Pos): (r: seq<Pos>)
    requires WellFormed(m) && Within(m, p)
    ensures forall n :: n in r <==> Edge(m, p, n)
    ensures forall n :: n in r ==> Within(m, n) && n.fn == p.fn
  {
    if p.index == |m[p.fn].blocks[p.block].body| - 1 then FirstOf(p.fn, m[p.fn].blocks[p.block].successors)
    else [Pos(p.fn, p.block, p.index + 1)]
  }

  // ----------------------------------------------------------------------- paths

  /** A way from an instruction to a return of its function; a call goes through one of its
      targets first. */
  datatype Path =
    | Ret
    | Step(next: Pos, rest: Path)
    | Through(callee: nat, inside: Inside, next: Pos, rest: Path)

  datatype Inside = External | Body(path: Path)

  ghost predicate IsPath(m: Module, p: Pos, path: Path)
    requires WellFormed(m)
    decreases path
  {
    Within(m, p) &&
    match path
    case Ret => At(m, p).Return?
    case Step(next, rest) => !At(m, p).Call? && Edge(m, p, next) && IsPath(m, next, rest)
    case Through(callee, inside, next, rest) =>
      && At(m, p).Call? && callee in At(m, p).targets && Edge(m, p, next)
      && IsPath(m, next, rest) && IsInside(m, callee, inside)
  }

  ghost predicate IsInside(m: Module, f: nat, inside: Inside)
    requires WellFormed(m)
    decreases inside
  {
    f < |m| &&
    match inside
    case External => m[f].Declaration? && m[f].mayReturn
    case Body(path) => m[f].Definition? && IsPath(m, Entry(f), path)
  }

  /** The number of instructions on the way, a call counting one plus its callee's way. */
  function Length(path: Path): nat
    decreases path
  {
    match path
    case Ret => 1
    case Step(next, rest) => 1 + Length(rest)
    case Through(callee, inside, next, rest) => 1 + InsideLength(inside) + Length(rest)
  }

  function InsideLength(inside: Inside): nat
    decreases inside
  {
    match inside
    case External => 1
    case Body(path) => Length(path)
  }

  /** The distance is the length of a shortest path, and zero exactly if there is none. */
  ghost predicate Shortest(m: Module, p: Pos, d: nat)
    requires WellFormed(m)
  {
    && (d == 0 ==> forall path :: !IsPath(m, p, path))
    && (d > 0 ==> exists path :: IsPath(m, p, path) && Length(path) == d)
    && (d > 0 ==> forall path :: IsPath(m, p, path) ==> d <= Length(path))
  }

  ghost predicate ShortestInside(m: Module, f: nat, d: nat)
    requires WellFormed(m)
  {
    && (d == 0 ==> forall inside :: !IsInside(m, f, inside))
    && (d > 0 ==>
          && (exists inside :: IsInside(m, f, inside) && InsideLength(inside) == d)
          && forall inside :: IsInside(m, f, inside) ==> d <= InsideLength(inside))
  }

  // ------------------------------------------------------------------ invariants

  type Distances = map<Pos, nat>
  type Functions = map<nat, nat>

  ghost predicate Domains(m: Module, dist: Distances, fsp: Functions) {
    && (forall p :: p in dist <==> Within(m, p))
    && (forall f: nat :: f in fsp <==> f < |m|)
  }

  /** Every recorded distance is the length of some path. */
  ghost predicate Attained(m: Module, dist: Distances, fsp: Functions)
    requires WellFormed(m)
  {
    && (forall p :: p in dist && dist[p] > 0 ==> exists path :: IsPath(m, p, path) && Length(path) == dist[p])
    && (forall f :: f in fsp && fsp[f] > 0 ==> exists inside ::
      IsInside(m, f, inside) && InsideLength(inside) == fsp[f])
  }

  /** A function's shortest path follows its entry once it is known. */
  ghost predicate Linked(m: Module, dist: Distances, fsp: Functions)
    requires Domains(m, dist, fsp) && WellFormed(m)
  {
    forall f :: 0 <= f < |m| ==>
      if m[f].Declaration? then fsp[f] == if m[f].mayReturn then 1 else 0
      else fsp[f] == 0 || fsp[f] == dist[Entry(f)]
  }

  ghost predicate Returns(m: Module, dist: Distances) {
    forall p :: p in dist && Within(m, p) && At(m, p).Return? ==> dist[p] == 1
  }

  /** A known cost of getting past an instruction: one step, or for a call one more than a
      target that returns. */
  ghost predicate Passes(m: Module, fsp: Functions, p: Pos, cost: nat)
    requires Within(m, p)
  {
    if At(m, p).Call? then
      exists f: nat :: f in At(m, p).targets && f in fsp && fsp[f] > 0 && cost == 1 + fsp[f]
    else cost == 1
  }

  /** An instruction with a distance can be passed. */
  ghost predicate Passable(m: Module, dist: Distances, fsp: Functions) {
    forall p :: p in dist && Within(m, p) && dist[p] > 0 ==> exists cost: nat :: Passes(m, fsp, p, cost)
  }

  ghost predicate Invariant(m: Module, dist: Distances, fsp: Functions)
    requires WellFormed(m)
  {
    Domains(m, dist, fsp) && Attained(m, dist, fsp) && Linked(m, dist, fsp) && Returns(m, dist)
      && Passable(m, dist, fsp)
  }

  /** No successor offers anything better, and a function follows its entry. */
  ghost predicate Relaxed(m: Module, dist: Distances, fsp: Functions, p: Pos)
    requires WellFormed(m) && Domains(m, dist, fsp) && Within(m, p)
  {
    && (forall n, cost :: n in Successors(m, p) && dist[n] > 0 && Passes(m, fsp, p, cost) ==>
      0 < dist[p] <= cost + dist[n])
    && (p == Entry(p.fn) && dist[p] > 0 ==> fsp[p.fn] == dist[p])
  }

  // ---------------------------------------------------- fixpoints are shortest paths

  /** At a fixpoint no path is shorter than the recorded distance. */
  lemma {:induction false} NoShorterPath(m: Module, dist: Distances, fsp: Functions, p: Pos, path: Path)
    requires WellFormed(m) && Invariant(m, dist, fsp) && forall q :: Within(m, q) ==> Relaxed(m, dist, fsp, q)
    requires IsPath(m, p, path)
    ensures 0 < dist[p] <= Length(path)
    decreases path
  {
    assert Relaxed(m, dist, fsp, p);
    match path
    case Ret =>
    case Step(next, rest) =>
      NoShorterPath(m, dist, fsp, next, rest);
      assert Passes(m, fsp, p, 1);
    case Through(callee, inside, next, rest) =>
      NoShorterPath(m, dist, fsp, next, rest);
      NoShorterInside(m, dist, fsp, callee, inside);
      assert Passes(m, fsp, p, 1 + fsp[callee]);
  }

  lemma {:induction false} NoShorterInside(m: Module, dist: Distances, fsp: Functions, f: nat, inside: Inside)
    requires WellFormed(m) && Invariant(m, dist, fsp) && forall q :: Within(m, q) ==> Relaxed(m, dist, fsp, q)
    requires IsInside(m, f, inside)
    ensures 0 < fsp[f] <= InsideLength(inside)
    decreases inside
  {
    if inside.Body? {
      NoShorterPath(m, dist, fsp, Entry(f), inside.path);
      assert Relaxed(m, dist, fsp, Entry(f));
    }
  }

  lemma FixpointIsShortest(m: Module, dist: Distances, fsp: Functions)
    requires WellFormed(m) && Invariant(m, dist, fsp) && forall q :: Within(m, q) ==> Relaxed(m, dist, fsp, q)
    ensures forall p :: p in dist ==> Shortest(m, p, dist[p])
    ensures forall f :: f in fsp ==> ShortestInside(m, f, fsp[f])
    ensures forall f :: 0 <= f < |m| && m[f].Definition? ==> fsp[f] == dist[Entry(f)]
  {
    hide IsPath, IsInside, Length, InsideLength, WellFormed, Passes, Passable;
    forall p, path | p in dist && IsPath(m, p, path) ensures 0 < dist[p] <= Length(path) {
      NoShorterPath(m, dist, fsp, p, path);
    }
    forall f, inside | f in fsp && IsInside(m, f, inside) ensures 0 < fsp[f] <= InsideLength(inside) {
      NoShorterInside(m, dist, fsp, f, inside);
    }
    forall f: nat | f < |m| && m[f].Definition? ensures Entry(f) in dist && fsp[f] == dist[Entry(f)] {
      EntryWithin(m, f);
      assert Relaxed(m, dist, fsp, Entry(f));
    }
  }

  lemma EntryWithin(m: Module, f: nat)
    requires WellFormed(m) && f < |m| && m[f].Definition?
    ensures Within(m, Entry(f))
  {
  }

  // --------------------------------------------------------------- termination

  ghost function Zeros(ps: seq<Pos>, dist: Distances): nat {
    if ps == [] then 0 else (if ps[0] in dist && dist[ps[0]] == 0 then 1 else 0) + Zeros(ps[1..], dist)
  }

  ghost function Sum(ps: seq<Pos>, dist: Distances): nat {
    if ps == [] then 0 else (if ps[0] in dist then dist[ps[0]] else 0) + Sum(ps[1..], dist)
  }

  function FunctionZeros(n: nat, fsp: Functions): nat {
    if n == 0 then 0 else (if n - 1 in fsp && fsp[n - 1] == 0 then 1 else 0) + FunctionZeros(n - 1, fsp)
  }

  ghost function FunctionSum(n: nat, fsp: Functions): nat {
    if n == 0 then 0 else (if n - 1 in fsp then fsp[n - 1] else 0) + FunctionSum(n - 1, fsp)
  }

  ghost function UnknownCount(ps: seq<Pos>, n: nat, dist: Distances, fsp: Functions): nat {
    Zeros(ps, dist) + FunctionZeros(n, fsp)
  }

  ghost function KnownTotal(ps: seq<Pos>, n: nat, dist: Distances, fsp: Functions): nat {
    Sum(ps, dist) + FunctionSum(n, fsp)
  }

  lemma {:induction false} SetDistance(ps: seq<Pos>, dist: Distances, p: Pos, d: nat)
    requires p in dist && d > 0
    ensures Zeros(ps, dist[p := d]) <= Zeros(ps, dist)
    ensures p in ps && dist[p] == 0 ==> Zeros(ps, dist[p := d]) < Zeros(ps, dist)
    ensures dist[p] > 0 ==> Zeros(ps, dist[p := d]) == Zeros(ps, dist)
    ensures dist[p] >= d ==> Sum(ps, dist[p := d]) <= Sum(ps, dist)
    ensures p in ps && dist[p] > d ==> Sum(ps, dist[p := d]) < Sum(ps, dist)
  {
    if ps != [] {
      SetDistance(ps[1..], dist, p, d);
    }
  }

  lemma {:induction false} SetFunction(n: nat, fsp: Functions, f: nat, d: nat)
    requires f in fsp && d > 0
    ensures FunctionZeros(n, fsp[f := d]) <= FunctionZeros(n, fsp)
    ensures f < n && fsp[f] == 0 ==> FunctionZeros(n, fsp[f := d]) < FunctionZeros(n, fsp)
    ensures fsp[f] > 0 ==> FunctionZeros(n, fsp[f := d]) == FunctionZeros(n, fsp)
    ensures fsp[f] >= d ==> FunctionSum(n, fsp[f := d]) <= FunctionSum(n, fsp)
  {
    if n > 0 {
      SetFunction(n - 1, fsp, f, d);
    }
  }

  /** Fewer unknown distances, or as many and a smaller total. */
  ghost predicate Progress(ps: seq<Pos>, n: nat, dist: Distances, fsp: Functions, dist': Distances, fsp': Functions) {
    || UnknownCount(ps, n, dist', fsp') < UnknownCount(ps, n, dist, fsp)
    || (&& UnknownCount(ps, n, dist', fsp') == UnknownCount(ps, n, dist, fsp)
        && KnownTotal(ps, n, dist', fsp') < KnownTotal(ps, n, dist, fsp))
  }

  /** What one update does: a better distance for an instruction, handed on to its function
      if it is the entry. */
  function UpdatedFunctions(fsp: Functions, p: Pos, d: nat): Functions {
    if p == Entry(p.fn) then fsp[p.fn := d] else fsp
  }

  lemma UpdateProgress(m: Module, ps: seq<Pos>, dist: Distances, fsp: Functions, p: Pos, best: nat)
    requires WellFormed(m) && Invariant(m, dist, fsp) && Within(m, p) && p in ps
    requires 0 < best && (dist[p] == 0 || best <= dist[p])
    requires best != dist[p] || (p == Entry(p.fn) && fsp[p.fn] != best)
    ensures Progress(ps, |m|, dist, fsp, dist[p := best], UpdatedFunctions(fsp, p, best))
  {
    SetDistance(ps, dist, p, best);
    SetFunction(|m|, fsp, p.fn, best);
  }

  lemma UpdateInvariant(m: Module, dist: Distances, fsp: Functions, p: Pos, cost: nat, best: nat)
    requires WellFormed(m) && Invariant(m, dist, fsp) && Within(m, p)
    requires 0 < best && (At(m, p).Return? ==> best == 1) && Passes(m, fsp, p, cost)
    requires exists path :: IsPath(m, p, path) && Length(path) == best
    ensures Invariant(m, dist[p := best], UpdatedFunctions(fsp, p, best))
  {
    hide Attained, Linked, Returns, Passable, Passes;
    UpdateAttained(m, dist, fsp, p, best);
    UpdateLinked(m, dist, fsp, p, best);
    UpdatePassable(m, dist, fsp, p, cost, best);
  }

  lemma UpdateAttained(m: Module, dist: Distances, fsp: Functions, p: Pos, best: nat)
    requires WellFormed(m) && Attained(m, dist, fsp) && Within(m, p)
    requires exists path :: IsPath(m, p, path) && Length(path) == best
    ensures Attained(m, dist[p := best], UpdatedFunctions(fsp, p, best))
  {
    hide WellFormed;
    var path :| IsPath(m, p, path) && Length(path) == best;
    if p == Entry(p.fn) {
      assert IsInside(m, p.fn, Body(path)) && InsideLength(Body(path)) == best;
    }
    hide IsPath, IsInside, Length, InsideLength;
  }

  lemma UpdateLinked(m: Module, dist: Distances, fsp: Functions, p: Pos, best: nat)
    requires WellFormed(m) && Domains(m, dist, fsp) && Linked(m, dist, fsp) && Returns(m, dist) && Within(m, p)
    requires At(m, p).Return? ==> best == 1
    ensures var dist', fsp' := dist[p := best], UpdatedFunctions(fsp, p, best);
            Domains(m, dist', fsp') && Linked(m, dist', fsp') && Returns(m, dist')
  {
  }

  lemma UpdatePassable(m: Module, dist: Distances, fsp: Functions, p: Pos, cost: nat, best: nat)
    requires Passable(m, dist, fsp) && Within(m, p) && p.fn in fsp && Passes(m, fsp, p, cost) && best > 0
    ensures Passable(m, dist[p := best], UpdatedFunctions(fsp, p, best))
  {
    var fsp' := UpdatedFunctions(fsp, p, best);
    forall q | q in dist[p := best] && Within(m, q) && dist[p := best][q] > 0
      ensures exists c: nat :: Passes(m, fsp', q, c)
    {
      if q == p {
        StillPasses(m, fsp, p, best, q, cost);
      } else {
        assert q in dist && dist[q] > 0;
        var c: nat :| Passes(m, fsp, q, c);
        StillPasses(m, fsp, p, best, q, c);
      }
    }
  }

  lemma StillPasses(m: Module, fsp: Functions, p: Pos, best: nat, q: Pos, cost: nat)
    requires Within(m, q) && p.fn in fsp && Passes(m, fsp, q, cost) && best > 0
    ensures exists c: nat :: Passes(m, UpdatedFunctions(fsp, p, best), q, c)
  {
    var fsp' := UpdatedFunctions(fsp, p, best);
    if At(m, q).Call? {
      var f: nat :| f in At(m, q).targets && f in fsp && fsp[f] > 0 && cost == 1 + fsp[f];
      assert Passes(m, fsp', q, 1 + fsp'[f]);
    } else {
      assert Passes(m, fsp', q, 1);
    }
  }

  lemma KnownTargets(m: Module, dist: Distances, fsp: Functions, p: Pos)
    requires WellFormed(m) && Domains(m, dist, fsp) && Within(m, p) && At(m, p).Call?
    ensures forall t :: t in At(m, p).targets ==> t in fsp
  {
  }

  lemma ChangeIsKnown(m: Module, dist: Distances, fsp: Functions, p: Pos, best: nat)
    requires WellFormed(m) && Domains(m, dist, fsp) && Linked(m, dist, fsp) && Returns(m, dist) && Within(m, p)
    requires dist[p] > 0 ==> 0 < best <= dist[p]
    requires best != dist[p] || (p == Entry(p.fn) && fsp[p.fn] != best)
    ensures best > 0 && (At(m, p).Return? ==> best == 1)
  {
  }

  /** A relaxed distance is the length of a path: through the instruction, then on from the
      successor. */
  lemma BestIsAttained(m: Module, dist: Distances, fsp: Functions, p: Pos, cost: nat, best: nat)
    requires WellFormed(m) && Domains(m, dist, fsp) && Attained(m, dist, fsp) && Within(m, p) && Passes(m, fsp, p, cost)
    requires best > 0
    requires best == dist[p] || exists n :: n in Successors(m, p) && dist[n] > 0 && best == cost + dist[n]
    ensures exists path :: IsPath(m, p, path) && Length(path) == best
  {
    if best != dist[p] {
      var n :| n in Successors(m, p) && dist[n] > 0 && best == cost + dist[n];
      PathThrough(m, dist, fsp, p, cost, n);
    }
  }

  lemma PathThrough(m: Module, dist: Distances, fsp: Functions, p: Pos, cost: nat, n: Pos)
    requires WellFormed(m) && Domains(m, dist, fsp) && Attained(m, dist, fsp) && Within(m, p) && Passes(m, fsp, p, cost)
    requires n in Successors(m, p) && dist[n] > 0
    ensures exists path :: IsPath(m, p, path) && Length(path) == cost + dist[n]
  {
    hide WellFormed, Successors;
    var rest :| IsPath(m, n, rest) && Length(rest) == dist[n];
    if At(m, p).Call? {
      var f: nat :| f in At(m, p).targets && f in fsp && fsp[f] > 0 && cost == 1 + fsp[f];
      var inside :| IsInside(m, f, inside) && InsideLength(inside) == fsp[f];
      var path := Through(f, inside, n, rest);
      assert IsPath(m, p, path) && Length(path) == cost + dist[n];
    } else {
      var path := Step(n, rest);
      assert IsPath(m, p, path) && Length(path) == cost + dist[n];
    }
  }

  /** An instruction nothing passes yet has no distance. */
  lemma Unpassed(m: Module, dist: Distances, fsp: Functions, p: Pos)
    requires WellFormed(m) && Invariant(m, dist, fsp) && Within(m, p) && forall cost :: !Passes(m, fsp, p, cost)
    ensures dist[p] == 0 && Relaxed(m, dist, fsp, p)
  {
  }

  // ------------------------------------------------------------------- the tracker

  class StatsTracker {
    const m: Module
    var minDistToReturn: Distances
    var functionShortestPath: Functions

    constructor (m: Module)
      ensures this.m == m
    {
      this.m, minDistToReturn, functionShortestPath := m, map[], map[];
    }

    ghost predicate Valid()
      reads this
    {
      WellFormed(m) && Invariant(m, minDistToReturn, functionShortestPath)
    }

    /** The cheapest known way past an instruction; zero if no target of a call returns. */
    method BestThrough(p: Pos) returns (best: nat)
      requires Valid() && Within(m, p)
      ensures best > 0 ==> Passes(m, functionShortestPath, p, best)
      ensures forall cost :: Passes(m, functionShortestPath, p, cost) ==> 0 < best <= cost
    {
      hide Attained, Linked, Returns, Passable;
      if !At(m, p).Call? {
        return 1;
      }
      best := 0;
      var targets := At(m, p).targets;
      KnownTargets(m, minDistToReturn, functionShortestPath, p);
      for i := 0 to |targets|
        invariant best > 0 ==> Passes(m, functionShortestPath, p, best)
        invariant forall k :: 0 <= k < i && functionShortestPath[targets[k]] > 0 ==>
          0 < best <= 1 + functionShortestPath[targets[k]]
      {
        assert targets[i] in targets;
        var dist := functionShortestPath[targets[i]];
        if dist > 0 {
          if best == 0 || 1 + dist < best {
            best := 1 + dist;
          }
        }
      }
    }

    /** The best distance the successors offer, starting from the current one. */
    method BestDistance(p: Pos, bestThrough: nat) returns (best: nat)
      requires Valid() && Within(m, p) && bestThrough > 0
      ensures best == minDistToReturn[p] || exists n ::
        n in Successors(m, p) && minDistToReturn[n] > 0 && best == bestThrough + minDistToReturn[n]
      ensures minDistToReturn[p] > 0 ==> 0 < best <= minDistToReturn[p]
      ensures forall n :: n in Successors(m, p) && minDistToReturn[n] > 0 ==>
        0 < best <= bestThrough + minDistToReturn[n]
    {
      hide Attained, Linked, Returns, Passable;
      best := minDistToReturn[p];
      var succs := Successors(m, p);
      for i := 0 to |succs|
        invariant best == minDistToReturn[p] || exists n ::
          n in succs && minDistToReturn[n] > 0 && best == bestThrough + minDistToReturn[n]
        invariant minDistToReturn[p] > 0 ==> 0 < best <= minDistToReturn[p]
        invariant forall k :: 0 <= k < i && minDistToReturn[succs[k]] > 0 ==>
          0 < best <= bestThrough + minDistToReturn[succs[k]]
      {
        assert succs[i] in succs;
        var dist := minDistToReturn[succs[i]];
        if dist > 0 {
          var val := bestThrough + dist;
          if best == 0 || val < best {
            best := val;
          }
        }
      }
    }

    /** One instruction of a pass. */
    method Relax(p: Pos, ghost ps: seq<Pos>) returns (changed: bool)
      requires Valid() && Within(m, p) && p in ps
      modifies this`minDistToReturn, this`functionShortestPath
      ensures Valid()
      ensures !changed ==> minDistToReturn == old(minDistToReturn) && functionShortestPath == old(functionShortestPath)
      ensures !changed ==> Relaxed(m, minDistToReturn, functionShortestPath, p)
      ensures changed ==>
        Progress(ps, |m|, old(minDistToReturn), old(functionShortestPath), minDistToReturn, functionShortestPath)
    {
      hide Attained, Linked, Returns, Passable, Progress, Passes;
      changed := false;
      var bestThrough := BestThrough(p);
      if bestThrough > 0 {
        var best := BestDistance(p, bestThrough);
        if best != minDistToReturn[p] || (p == Entry(p.fn) && functionShortestPath[p.fn] != best) {
          ChangeIsKnown(m, minDistToReturn, functionShortestPath, p, best);
          BestIsAttained(m, minDistToReturn, functionShortestPath, p, bestThrough, best);
          UpdateProgress(m, ps, minDistToReturn, functionShortestPath, p, best);
          UpdateInvariant(m, minDistToReturn, functionShortestPath, p, bestThrough, best);
          functionShortestPath := UpdatedFunctions(functionShortestPath, p, best);
          minDistToReturn := minDistToReturn[p := best];
          changed := true;
        }
      } else {
        Unpassed(m, minDistToReturn, functionShortestPath, p);
      }
    }

    /** One pass over all instructions. */
    method Pass(instructions: seq<Pos>) returns (changed: bool)
      requires Valid() && forall p :: p in instructions <==> Within(m, p)
      modifies this`minDistToReturn, this`functionShortestPath
      ensures Valid()
      ensures changed ==>
        Progress(instructions, |m|, old(minDistToReturn), old(functionShortestPath), minDistToReturn,
                 functionShortestPath)
      ensures !changed ==> minDistToReturn == old(minDistToReturn) && functionShortestPath == old(functionShortestPath)
      ensures !changed ==> forall p :: Within(m, p) ==> Relaxed(m, minDistToReturn, functionShortestPath, p)
    {
      hide Invariant, Relaxed;
      changed := false;
      for i := 0 to |instructions|
        invariant Valid()
        invariant changed ==>
          Progress(instructions, |m|, old(minDistToReturn), old(functionShortestPath), minDistToReturn,
                   functionShortestPath)
        invariant !changed ==>
          minDistToReturn == old(minDistToReturn) && functionShortestPath == old(functionShortestPath)
        invariant !changed ==> forall k :: 0 <= k < i ==>
          Within(m, instructions[k]) && Domains(m, minDistToReturn, functionShortestPath)
          && Relaxed(m, minDistToReturn, functionShortestPath, instructions[k])
      {
        assert instructions[i] in instructions;
        var c := Relax(instructions[i], instructions);
        InvariantDomains(m, minDistToReturn, functionShortestPath);
        changed := changed || c;
      }
      InvariantDomains(m, minDistToReturn, functionShortestPath);
    }

    /** The initial distances and the fixpoint loop. */
    method ComputeMinDistToReturn()
      requires WellFormed(m)
      modifies this`minDistToReturn, this`functionShortestPath
      ensures Domains(m, minDistToReturn, functionShortestPath)
      ensures forall p :: p in minDistToReturn ==> Shortest(m, p, minDistToReturn[p])
      ensures forall f :: f in functionShortestPath ==> ShortestInside(m, f, functionShortestPath[f])
      ensures forall f :: 0 <= f < |m| && m[f].Definition? ==> functionShortestPath[f] == minDistToReturn[Entry(f)]
    {
      hide Relaxed, Shortest, ShortestInside;
      var instructions := Instructions(m);
      functionShortestPath := map f: nat | f < |m| :: if m[f].Declaration? && m[f].mayReturn then 1 else 0;
      minDistToReturn := map p | p in instructions && Within(m, p) :: if At(m, p).Return? then 1 else 0;
      assert forall p :: p in minDistToReturn <==> Within(m, p);
      InitialInvariant(m, minDistToReturn, functionShortestPath);
      var changed := true;
      while changed
        invariant Valid()
        invariant !changed ==> forall p :: Within(m, p) ==> Relaxed(m, minDistToReturn, functionShortestPath, p)
        decreases UnknownCount(instructions, |m|, minDistToReturn, functionShortestPath),
                  KnownTotal(instructions, |m|, minDistToReturn, functionShortestPath), changed
      {
        changed := Pass(instructions);
      }
      FixpointIsShortest(m, minDistToReturn, functionShortestPath);
    }
  }

  lemma InvariantDomains(m: Module, dist: Distances, fsp: Functions)
    requires WellFormed(m) && Invariant(m, dist, fsp)
    ensures Domains(m, dist, fsp)
  {
  }

  lemma InitialInvariant(m: Module, dist: Distances, fsp: Functions)
    requires WellFormed(m) && Domains(m, dist, fsp)
    requires forall f :: f in fsp ==> fsp[f] == if m[f].Declaration? && m[f].mayReturn then 1 else 0
    requires forall p :: p in dist ==> dist[p] == if At(m, p).Return? then 1 else 0
    ensures Invariant(m, dist, fsp)
  {
    forall p | p in dist && dist[p] > 0
      ensures exists path :: IsPath(m, p, path) && Length(path) == dist[p]
      ensures exists cost: nat :: Passes(m, fsp, p, cost)
    {
      assert IsPath(m, p, Ret) && Length(Ret) == 1 && Passes(m, fsp, p, 1);
    }
    forall f | f in fsp && fsp[f] > 0
      ensures exists inside :: IsInside(m, f, inside) && InsideLength(inside) == fsp[f]
    {
      assert IsInside(m, f, External) && InsideLength(External) == 1;
    }
  }

  /** Every instruction of the module, last one first. */
  method Instructions(m: Module) returns (ps: seq<Pos>)
    ensures forall p :: p in ps <==> Within(m, p)
  {
    ps := [];
    for f := 0 to |m|
      invariant forall p :: p in ps <==> Within(m, p) && p.fn < f
    {
      if m[f].Definition? {
        for b := 0 to |m[f].blocks|
          invariant forall p :: p in ps <==> Within(m, p) && (p.fn < f || (p.fn == f && p.block < b))
        {
          for i := 0 to |m[f].blocks[b].body|
            invariant forall p :: p in ps <==>
              Within(m, p) && (p.fn < f || (p.fn == f && (p.block < b || (p.block == b && p.index < i))))
          {
            ps := [Pos(f, b, i)] + ps;
          }
        }
      }
    }
  }
}
