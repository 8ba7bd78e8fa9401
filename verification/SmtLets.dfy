/** Abbreviating shared expressions with nested `let`s: the bindings are sorted into levels
    by what they use, and every level may use only names of the levels around it. */
module SmtLets {
  import opened Exprs
  import opened Create
  import opened CreateForm
  import opened Logic
  import opened Sequences
  import opened Visitors
  import opened SmtLib

  datatype Binding = Binding(expr: Expr, id: nat)

  type Level = seq<Binding>

  // ---------------------------------------------------------------- dependencies

  function Sizes(es: seq<Expr>): nat {
    if es == [] then 0 else Nodes(es[0]) + Sizes(es[1..])
  }

  lemma ThreeSizes(a: Expr, b: Expr, c: Expr)
    ensures Sizes([a]) == Nodes(a) && Sizes([a, b]) == Nodes(a) + Nodes(b)
    ensures Sizes([a, b, c]) == Nodes(a) + Nodes(b) + Nodes(c)
  {
    hide Nodes;
    assert [a, b, c][1..] == [b, c] && [b, c][1..] == [c] && [c][1..] == [] && [a, b][1..] == [b] && [b][1..] == []
      && [a][1..] == [];
    assert Sizes([c]) == Nodes(c) && Sizes([b]) == Nodes(b) && Sizes([b, c]) == Nodes(b) + Nodes(c);
  }

  lemma KidSizes(e: Expr)
    ensures Sizes(Kids(e)) == Nodes(e) - 1
  {
    hide Sizes;
    var ks := Kids(e);
    if ks == [] {
      NoSizes();
    } else {
      ThreeSizes(ks[0], ks[|ks| / 2], ks[|ks| - 1]);
    }
  }

  lemma NoSizes()
    ensures Sizes([]) == 0
  {
  }

  /** The nearest bound expressions below an expression. */
  function Deps(e: Expr, all: set<Expr>): set<Expr>
    decreases Nodes(e), 0
  {
    KidSizes(e);
    KidDeps(Kids(e), all)
  }

  function KidDeps(ks: seq<Expr>, all: set<Expr>): set<Expr>
    decreases Sizes(ks), |ks|
  {
    if ks == [] then {}
    else (if ks[0].Constant? then {} else if ks[0] in all then {ks[0]} else Deps(ks[0], all)) + KidDeps(ks[1..], all)
  }

  /** A dependency is a proper part, and one of the bound expressions. */
  lemma {:induction false} DepsSmaller(e: Expr, all: set<Expr>)
    ensures forall d :: d in Deps(e, all) ==> d in all && Nodes(d) < Nodes(e)
    decreases Nodes(e), 0
  {
    KidSizes(e);
    KidDepsSmaller(Kids(e), all);
  }

  lemma {:induction false} KidDepsSmaller(ks: seq<Expr>, all: set<Expr>)
    ensures forall d :: d in KidDeps(ks, all) ==> d in all && Nodes(d) <= Sizes(ks)
    decreases Sizes(ks), |ks|
  {
    if ks != [] {
      DepsSmaller(ks[0], all);
      KidDepsSmaller(ks[1..], all);
    }
  }

  /** What one expression contributes to the dependencies of the node above it. */
  function OwnDeps(e: Expr, all: set<Expr>): set<Expr> {
    if e.Constant? then {} else if e in all then {e} else Deps(e, all)
  }

  lemma DepsOfKids(e: Expr, all: set<Expr>, d: Expr)
    ensures d in Deps(e, all) <==> exists i :: 0 <= i < |Kids(e)| && d in OwnDeps(Kids(e)[i], all)
  {
    hide Deps, Nodes, Kids;
    var ks := Kids(e);
    AnyDeps(ks, all, d);
    assert Deps(e, all) == KidDeps(ks, all) by {
      DepsUnfold(e, all);
    }
  }

  lemma DepsUnfold(e: Expr, all: set<Expr>)
    ensures Deps(e, all) == KidDeps(Kids(e), all)
  {
  }

  lemma {:induction false} AnyDeps(ks: seq<Expr>, all: set<Expr>, d: Expr)
    ensures d in KidDeps(ks, all) <==> exists i :: 0 <= i < |ks| && d in OwnDeps(ks[i], all)
    decreases |ks|
  {
    if ks != [] {
      AnyDeps(ks[1..], all, d);
      forall i | 0 <= i < |ks| - 1 ensures ks[1..][i] == ks[1 + i] {
      }
      if d in KidDeps(ks[1..], all) {
        var i :| 0 <= i < |ks[1..]| && d in OwnDeps(ks[1..][i], all);
        assert d in OwnDeps(ks[i + 1], all);
      }
      if exists i :: 0 <= i < |ks| && d in OwnDeps(ks[i], all) {
        var i :| 0 <= i < |ks| && d in OwnDeps(ks[i], all);
        if i > 0 {
          assert ks[1..][i - 1] == ks[i];
        }
      }
    }
  }

  /** A dependency is a proper part, and every other bound part lies inside a dependency. */
  lemma {:induction false} DepsOfParts(e: Expr, all: set<Expr>)
    ensures forall d :: d in Deps(e, all) ==> d in all && d in Parts(e) && d != e && !d.Constant?
    ensures forall p :: p in Parts(e) && p != e && p in all && !p.Constant? ==>
      exists d :: d in Deps(e, all) && p in Parts(d)
    decreases e
  {
    hide Deps, Nodes;
    DepsSmaller(e, all);
    forall i | 0 <= i < |Kids(e)|
      ensures forall d :: d in OwnDeps(Kids(e)[i], all) ==> d in all && d in Parts(Kids(e)[i]) && !d.Constant?
      ensures forall p :: p in Parts(Kids(e)[i]) && p in all && !p.Constant? ==>
        exists d :: d in OwnDeps(Kids(e)[i], all) && p in Parts(d)
    {
      DepsOfParts(Kids(e)[i], all);
    }
    forall d | d in Deps(e, all) ensures d in all && d in Parts(e) && d != e && !d.Constant? {
      DepsOfKids(e, all, d);
      PartsOfKids(e, d);
    }
    forall p | p in Parts(e) && p != e && p in all && !p.Constant?
      ensures exists d :: d in Deps(e, all) && p in Parts(d)
    {
      PartsOfKids(e, p);
      var i :| 0 <= i < |Kids(e)| && p in Parts(Kids(e)[i]);
      var d :| d in OwnDeps(Kids(e)[i], all) && p in Parts(d);
      DepsOfKids(e, all, d);
    }
  }

  /** Bound expressions that no path reaches first do not matter. */
  lemma {:induction false} DepsRestrict(e: Expr, all: set<Expr>, some: set<Expr>)
    requires some <= all && Deps(e, all) <= some
    ensures Deps(e, some) == Deps(e, all)
    decreases e
  {
    hide Deps, Nodes;
    var ks := Kids(e);
    forall i | 0 <= i < |ks| ensures OwnDeps(ks[i], some) == OwnDeps(ks[i], all) {
      forall d | d in OwnDeps(ks[i], all) ensures d in some {
        DepsOfKids(e, all, d);
      }
      if !ks[i].Constant? && ks[i] !in all {
        DepsRestrict(ks[i], all, some);
      }
    }
    forall d ensures d in Deps(e, some) <==> d in Deps(e, all) {
      DepsOfKids(e, all, d);
      DepsOfKids(e, some, d);
    }
  }

  function StackDeps(stack: seq<Expr>, all: set<Expr>): set<Expr> {
    if stack == [] then {} else StackDeps(stack[..|stack| - 1], all) + Deps(stack[|stack| - 1], all)
  }

  function StackSize(stack: seq<Expr>): nat {
    if stack == [] then 0 else StackSize(stack[..|stack| - 1]) + Nodes(stack[|stack| - 1])
  }

  /** The walk over an expression with an explicit stack finds exactly its dependencies. */
  method CollectDeps(e: Expr, all: set<Expr>) returns (deps: set<Expr>)
    ensures deps == Deps(e, all)
  {
    hide Nodes, Deps, KidDeps, Kids;
    deps := {};
    var childQueue := [e];
    assert childQueue[..0] == [];
    while childQueue != []
      invariant Deps(e, all) == deps + StackDeps(childQueue, all)
      decreases StackSize(childQueue)
    {
      var ep := childQueue[|childQueue| - 1];
      childQueue := childQueue[..|childQueue| - 1];
      var found, pushed := VisitKids(ep, all, childQueue);
      deps, childQueue := deps + found, pushed;
    }
  }

  method VisitKids(ep: Expr, all: set<Expr>, stack: seq<Expr>) returns (found: set<Expr>, pushed: seq<Expr>)
    ensures found + StackDeps(pushed, all) == Deps(ep, all) + StackDeps(stack, all)
    ensures StackSize(pushed) < StackSize(stack) + Nodes(ep)
  {
    hide Nodes, Kids;
    KidSizes(ep);
    var ks := Kids(ep);
    found, pushed := {}, stack;
    assert ks[0..] == ks;
    for i := 0 to |ks|
      invariant found + StackDeps(pushed, all) + KidDeps(ks[i..], all) == Deps(ep, all) + StackDeps(stack, all)
      invariant StackSize(pushed) + Sizes(ks[i..]) <= StackSize(stack) + Sizes(ks)
    {
      assert ks[i..][0] == ks[i] && ks[i..][1..] == ks[i + 1..];
      if !ks[i].Constant? {
        if ks[i] in all {
          found := found + {ks[i]};
        } else {
          assert (pushed + [ks[i]])[..|pushed|] == pushed;
          pushed := pushed + [ks[i]];
        }
      }
    }
  }

  // ------------------------------------------------------------------- abbreviations

  /** The names a term uses. */
  function NamesIn(t: Term): set<nat>
    decreases t
  {
    match t
    case TrueOrFalse(_) => {}
    case BitsLiteral(_, _) => {}
    case Name(id) => {id}
    case Ite(c, x, y) => NamesIn(c) + NamesIn(x) + NamesIn(y)
    case BoolNot(x) => NamesIn(x)
    case BoolGate(_, l, r) => NamesIn(l) + NamesIn(r)
    case BvNot(x) => NamesIn(x)
    case Bv(_, l, r) => NamesIn(l) + NamesIn(r)
    case BvCompare(_, l, r) => NamesIn(l) + NamesIn(r)
    case Equal(l, r) => NamesIn(l) + NamesIn(r)
    case Distinct(l, r) => NamesIn(l) + NamesIn(r)
    case BvConcat(l, r) => NamesIn(l) + NamesIn(r)
    case BvExtract(_, _, x) => NamesIn(x)
    case ZeroExtend(_, x) => NamesIn(x)
    case SignExtendBy(_, x) => NamesIn(x)
    case SelectFrom(a, i) => ArrayNames(a) + NamesIn(i)
  }

  function ArrayNames(a: ArrayTerm): set<nat>
    decreases a
  {
    match a
    case ArrayName(_) => {}
    case Store(base, i, v) => ArrayNames(base) + NamesIn(i) + NamesIn(v)
  }

  /** The term refers to what the expression depends on by name. */
  ghost predicate UsesNames(t: Term, deps: set<Expr>, bindings: map<Expr, nat>) {
    forall d :: d in deps && d in bindings ==> bindings[d] in NamesIn(t)
  }

  /** A bound expression is printed as its name, and any other one with the names of everything
      it depends on. */
  lemma {:induction false} PrintAbbreviates(e: Expr, kind: Kind, bindings: map<Expr, nat>)
    ensures UsesNames(Print(e, kind, bindings), OwnDeps(e, bindings.Keys), bindings)
    ensures e in bindings ==> Print(e, GetSort(e), bindings) == Name(bindings[e])
    decreases e, if GetSort(e) == kind then 1 else 2
  {
    hide Deps, Nodes, PrintFull;
    if GetSort(e) != kind {
      PrintAbbreviates(e, if kind.BitVecKind? then BoolKind else BitVecKind, bindings);
    } else if e !in bindings {
      FullAbbreviates(e, kind, bindings);
    }
  }

  lemma {:induction false} FullAbbreviates(e: Expr, kind: Kind, bindings: map<Expr, nat>)
    ensures UsesNames(PrintFull(e, kind, bindings), Deps(e, bindings.Keys), bindings)
    decreases e, 0
  {
    hide Deps, Nodes, Print, Width, OwnDeps, PrintArray;
    var all := bindings.Keys;
    forall i, k | 0 <= i < |Kids(e)|
      ensures UsesNames(Print(Kids(e)[i], k, bindings), OwnDeps(Kids(e)[i], all), bindings)
    {
      PrintAbbreviates(Kids(e)[i], k, bindings);
    }
    forall d | d in Deps(e, all) && d in bindings ensures bindings[d] in NamesIn(PrintFull(e, kind, bindings)) {
      DepsOfKids(e, all, d);
      var i :| 0 <= i < |Kids(e)| && d in OwnDeps(Kids(e)[i], all);
      KidNames(e, kind, bindings, i, bindings[d]);
    }
  }

  lemma KidNames(e: Expr, kind: Kind, bindings: map<Expr, nat>, i: nat, n: nat)
    requires i < |Kids(e)| && forall k :: n in NamesIn(Print(Kids(e)[i], k, bindings))
    ensures n in NamesIn(PrintFull(e, kind, bindings))
  {
    hide Print, Width, PrintArray;
    var x := Kids(e)[i];
    assert n in NamesIn(Print(x, BoolKind, bindings)) && n in NamesIn(Print(x, BitVecKind, bindings));
    if e.Binary? {
      assert x == e.left || x == e.right;
      assert n in NamesIn(Bv(e.op, Print(e.left, BitVecKind, bindings), Print(e.right, BitVecKind, bindings)));
    }
  }

  // ----------------------------------------------------------------------- levels

  ghost function LevelSet(level: Level): set<Expr> {
    set b | b in level :: b.expr
  }

  ghost function Placed(levels: seq<Level>): set<Expr> {
    if levels == [] then {} else Placed(levels[..|levels| - 1]) + LevelSet(levels[|levels| - 1])
  }

  function Count(levels: seq<Level>): nat {
    if levels == [] then 0 else Count(levels[..|levels| - 1]) + |levels[|levels| - 1]|
  }

  /** A level on top of others: new expressions, each once, that use only what is below, with
      the next numbers. */
  ghost predicate GoodLevel(level: Level, below: set<Expr>, count: nat, all: set<Expr>) {
    && (forall k :: 0 <= k < |level| ==>
          level[k].expr in all && level[k].expr !in below && Deps(level[k].expr, all) <= below
            && level[k].id == count + k + 1)
    && (forall j, k :: 0 <= j < k < |level| ==> level[j].expr != level[k].expr)
  }

  ghost predicate GoodLevels(levels: seq<Level>, all: set<Expr>) {
    forall i :: 0 <= i < |levels| ==> GoodLevel(levels[i], Placed(levels[..i]), Count(levels[..i]), all)
  }

  /** The levels hold every bound expression exactly once, whatever an expression uses lies
      strictly below it, and the numbers run from one. */
  ghost predicate Levelled(levels: seq<Level>, all: set<Expr>) {
    GoodLevels(levels, all) && Placed(levels) == all
  }

  lemma {:induction false} PlacedAt(levels: seq<Level>, e: Expr)
    ensures e in Placed(levels) <==> exists i, k :: 0 <= i < |levels| && 0 <= k < |levels[i]| && levels[i][k].expr == e
  {
    if levels != [] {
      var n := |levels| - 1;
      PlacedAt(levels[..n], e);
      assert forall i :: 0 <= i < n ==> levels[..n][i] == levels[i];
      if e in LevelSet(levels[n]) {
        var b :| b in levels[n] && b.expr == e;
        var k :| 0 <= k < |levels[n]| && levels[n][k] == b;
      }
    }
  }

  /** Every bound part of a bound expression is bound on an earlier level. */
  lemma {:induction false} PartsEarlier(levels: seq<Level>, all: set<Expr>, i: nat, k: nat, p: Expr)
    requires GoodLevels(levels, all) && i < |levels| && k < |levels[i]|
    requires p in Parts(levels[i][k].expr) && p != levels[i][k].expr && p in all && !p.Constant?
    ensures exists j, m :: 0 <= j < i && 0 <= m < |levels[j]| && levels[j][m].expr == p
    decreases i
  {
    hide Deps, Placed, Parts;
    DepsOfParts(levels[i][k].expr, all);
    var d :| d in Deps(levels[i][k].expr, all) && p in Parts(d);
    assert GoodLevel(levels[i], Placed(levels[..i]), Count(levels[..i]), all);
    PlacedAt(levels[..i], d);
    var j, m :| 0 <= j < |levels[..i]| && 0 <= m < |levels[..i][j]| && levels[..i][j][m].expr == d;
    assert levels[..i][j] == levels[j];
    if p != d {
      PartsEarlier(levels, all, j, m, p);
    }
  }

  type DepMap = map<Expr, set<Expr>>

  /** `done` are the placed expressions and `ready` those that wait for nothing. */
  ghost predicate Unrolled(all: set<Expr>, done: set<Expr>, ready: set<Expr>, uses: DepMap) {
    && done <= all && ready <= all && done !! ready
    && (forall b :: b in uses <==> b in all && Deps(b, all) != {})
    && (forall b :: b in uses ==> uses[b] == Deps(b, all) - done)
    && (forall b :: b in all ==> (Deps(b, all) <= done <==> b in done || b in ready))
  }

  ghost predicate Reversed(all: set<Expr>, users: DepMap) {
    forall x, u :: (x in users && u in users[x]) <==> (u in all && x in Deps(u, all))
  }

  /** If nothing is ready, everything has been placed: among the rest a smallest expression
      would have to wait for a smaller one. */
  lemma NothingLeft(all: set<Expr>, done: set<Expr>, uses: DepMap)
    requires Unrolled(all, done, {}, uses)
    ensures done == all
  {
    var rest := all - done;
    if rest != {} {
      var least := Smallest(rest);
      DepsSmaller(least, all);
    }
  }

  lemma Smallest(s: set<Expr>) returns (least: Expr)
    requires s != {}
    ensures least in s && forall e :: e in s ==> Nodes(least) <= Nodes(e)
  {
    hide Nodes;
    least :| least in s;
    if s != {least} {
      var other := Smallest(s - {least});
      if Nodes(other) < Nodes(least) {
        least := other;
      }
    }
  }

  lemma Place(all: set<Expr>, done: set<Expr>, ready: set<Expr>, uses: DepMap, users: DepMap, x: Expr, uses': DepMap,
              freed: set<Expr>)
    requires Unrolled(all, done, ready, uses) && Reversed(all, users) && x in ready
    requires forall b :: b in uses' <==> b in uses
    requires forall b :: b in uses ==> uses'[b] == if x in users && b in users[x] then uses[b] - {x} else uses[b]
    requires forall b :: b in freed <==> x in users && b in users[x] && b in uses && uses[b] - {x} == {}
    ensures Unrolled(all, done + {x}, ready - {x} + freed, uses')
    ensures freed !! ready && x !in freed
    ensures forall b :: b in freed ==> b in all && b !in done && Deps(b, all) <= done + {x}
  {
    hide Deps;
    DepsSmaller(x, all);
    forall b | b in all ensures Deps(b, all) <= done + {x} <==> b in done + {x} || b in ready - {x} + freed {
      assert b in freed <==> x in Deps(b, all) && Deps(b, all) - done - {x} == {};
      assert Deps(b, all) <= done + {x} <==> Deps(b, all) - done - {x} == {};
    }
  }

  /** Records that one expression has been placed: every user waits for one thing less, and
      those that wait for nothing any more are freed. */
  method Release(x: Expr, uses: DepMap, users: DepMap) returns (uses': DepMap, freed: seq<Expr>)
    requires forall u :: x in users && u in users[x] ==> u in uses
    ensures forall b :: b in uses' <==> b in uses
    ensures forall b :: b in uses ==> uses'[b] == if x in users && b in users[x] then uses[b] - {x} else uses[b]
    ensures forall b :: b in freed <==> x in users && b in users[x] && b in uses && uses[b] - {x} == {}
    ensures NoDuplicates(freed)
  {
    uses', freed := uses, [];
    if x in users {
      var rest := users[x];
      while rest != {}
        invariant rest <= users[x] && NoDuplicates(freed)
        invariant forall b :: b in uses' <==> b in uses
        invariant forall b :: b in uses ==> uses'[b] == if b in users[x] && b !in rest then uses[b] - {x} else uses[b]
        invariant forall b :: b in freed <==> b in users[x] && b !in rest && b in uses && uses[b] - {x} == {}
        decreases rest
      {
        var u :| u in rest;
        uses' := uses'[u := uses'[u] - {x}];
        if uses'[u] == {} {
          freed := freed + [u];
        }
        rest := rest - {u};
      }
    }
  }

  /** One level: everything that was ready, numbered in turn, and what it frees. */
  method UnrollLevel(ready: seq<Expr>, count: nat, uses: DepMap, users: DepMap, ghost all: set<Expr>,
                     ghost done: set<Expr>)
    returns (level: Level, next: seq<Expr>, uses': DepMap)
    requires Unrolled(all, done, Elements(ready), uses) && Reversed(all, users) && NoDuplicates(ready)
    ensures GoodLevel(level, done, count, all) && LevelSet(level) == Elements(ready) && |level| == |ready|
    ensures Unrolled(all, done + Elements(ready), Elements(next), uses') && NoDuplicates(next)
  {
    hide Unrolled;
    level, next, uses' := [], [], uses;
    assert ready[0..] == ready && done + Elements(ready[..0]) == done
      && Elements(ready[0..]) + Elements(next) == Elements(ready);
    for i := 0 to |ready|
      invariant |level| == i && forall k :: 0 <= k < i ==> level[k] == Binding(ready[k], count + k + 1)
      invariant Unrolled(all, done + Elements(ready[..i]), Elements(ready[i..]) + Elements(next), uses')
      invariant NoDuplicates(next) && Elements(ready[i..]) !! Elements(next)
    {
      var x := ready[i];
      level := level + [Binding(x, count + i + 1)];
      UsersWait(all, done + Elements(ready[..i]), Elements(ready[i..]) + Elements(next), uses', users, x);
      ghost var before := uses';
      var freed;
      uses', freed := Release(x, uses', users);
      Place(all, done + Elements(ready[..i]), Elements(ready[i..]) + Elements(next), before, users, x, uses',
            Elements(freed));
      Steps(ready, i, next, freed);
      assert done + Elements(ready[..i + 1]) == done + Elements(ready[..i]) + {x};
      next := next + freed;
    }
    assert ready[..|ready|] == ready && Elements(ready[|ready|..]) + Elements(next) == Elements(next);
    LevelOf(ready, level, count, done, all, uses);
  }

  lemma UsersWait(all: set<Expr>, done: set<Expr>, ready: set<Expr>, uses: DepMap, users: DepMap, x: Expr)
    requires Unrolled(all, done, ready, uses) && Reversed(all, users)
    ensures forall u :: x in users && u in users[x] ==> u in uses
  {
    hide Deps;
  }

  lemma Steps(ready: seq<Expr>, i: nat, next: seq<Expr>, freed: seq<Expr>)
    requires i < |ready| && NoDuplicates(ready) && NoDuplicates(next) && NoDuplicates(freed)
    requires Elements(ready[i..]) !! Elements(next) && Elements(freed) !! Elements(ready[i..]) + Elements(next)
    ensures Elements(ready[..i + 1]) == Elements(ready[..i]) + {ready[i]}
    ensures Elements(ready[i + 1..]) + Elements(next + freed)
      == Elements(ready[i..]) + Elements(next) - {ready[i]} + Elements(freed)
    ensures NoDuplicates(next + freed) && Elements(ready[i + 1..]) !! Elements(next + freed)
  {
    assert ready[..i + 1] == ready[..i] + [ready[i]] && ready[i..][1..] == ready[i + 1..];
    ElementsTail(ready[i..]);
    assert forall k :: 0 <= k < |next| ==> next[k] in Elements(next);
    assert forall k :: 0 <= k < |freed| ==> freed[k] in Elements(freed);
    assert Elements(next + freed) == Elements(next) + Elements(freed);
  }

  lemma LevelOf(ready: seq<Expr>, level: Level, count: nat, done: set<Expr>, all: set<Expr>, uses: DepMap)
    requires Unrolled(all, done, Elements(ready), uses) && NoDuplicates(ready)
    requires |level| == |ready| && forall k :: 0 <= k < |level| ==> level[k] == Binding(ready[k], count + k + 1)
    ensures GoodLevel(level, done, count, all) && LevelSet(level) == Elements(ready)
  {
    hide Deps;
    forall k | 0 <= k < |level| ensures level[k].expr in Elements(ready) && level[k].expr in LevelSet(level) {
      assert level[k] in level;
    }
  }

  // ----------------------------------------------------------------- printed levels

  /** A printed binding has its expression's name and names what the expression depends on. */
  ghost predicate Abbreviated(printed: Bound, b: Binding, all: set<Expr>, bindings: map<Expr, nat>) {
    printed.id == b.id && UsesNames(printed.term, Deps(b.expr, all), bindings)
  }

  ghost predicate AllAbbreviated(printed: seq<seq<Bound>>, levels: seq<Level>, all: set<Expr>, bindings: map<Expr, nat>)
  {
    && |printed| == |levels|
    && (forall i :: 0 <= i < |levels| ==> |printed[i]| == |levels[i]|)
    && forall i, k :: 0 <= i < |levels| && 0 <= k < |levels[i]| ==>
         Abbreviated(printed[i][k], levels[i][k], all, bindings)
  }

  lemma LevelAbbreviates(level: Level, count: nat, all: set<Expr>, bindings: map<Expr, nat>, more: map<Expr, nat>)
    requires GoodLevel(level, bindings.Keys, count, all) && bindings.Keys <= all
    requires forall e :: e in bindings ==> e in more && more[e] == bindings[e]
    ensures forall k :: 0 <= k < |level| ==> Abbreviated(PrintLevel(level, bindings)[k], level[k], all, more)
  {
    hide Deps, Nodes, Print;
    forall k | 0 <= k < |level| ensures Abbreviated(PrintLevel(level, bindings)[k], level[k], all, more) {
      var e := level[k].expr;
      DepsRestrict(e, all, bindings.Keys);
      NoOwnDeps(e, bindings.Keys);
      PrintAbbreviates(e, GetSort(e), bindings);
    }
  }

  lemma NoOwnDeps(e: Expr, all: set<Expr>)
    requires e !in all
    ensures OwnDeps(e, all) == Deps(e, all)
  {
  }

  /** Names bound further in leave the outer levels as they are. */
  lemma StillAbbreviated(printed: seq<seq<Bound>>, levels: seq<Level>, n: nat, all: set<Expr>,
                         bindings: map<Expr, nat>, level: Level)
    requires n < |levels| && GoodLevels(levels, all) && level == levels[n]
    requires AllAbbreviated(printed, levels[..n], all, bindings) && bindings.Keys == Placed(levels[..n]) <= all
    ensures AllAbbreviated(printed + [PrintLevel(level, bindings)], levels[..n + 1], all, bindings + LevelMap(level))
  {
    hide Deps, UsesNames, LevelMap, Placed, PrintLevel;
    var more := bindings + LevelMap(level);
    LevelKeys(level);
    assert GoodLevel(level, Placed(levels[..n]), Count(levels[..n]), all);
    LevelAbbreviates(level, Count(levels[..n]), all, bindings, more);
    forall i, k | 0 <= i < n && 0 <= k < |levels[i]| ensures Abbreviated(printed[i][k], levels[i][k], all, more) {
      assert Abbreviated(printed[i][k], levels[..n][i][k], all, bindings);
      DepsBelow(levels, n, i, k, all);
      StillNames(printed[i][k].term, Deps(levels[i][k].expr, all), bindings, more);
    }
  }

  lemma PlacedGrows(levels: seq<Level>, n: nat)
    requires n <= |levels|
    ensures Placed(levels[..n]) <= Placed(levels)
  {
    hide Placed;
    forall e | e in Placed(levels[..n]) ensures e in Placed(levels) {
      PlacedAt(levels[..n], e);
      PlacedAt(levels, e);
      var j, m :| 0 <= j < n && 0 <= m < |levels[..n][j]| && levels[..n][j][m].expr == e;
      assert levels[j] == levels[..n][j];
    }
  }

  lemma NothingAbbreviated(all: set<Expr>)
    ensures AllAbbreviated([], [], all, map[])
  {
  }

  lemma StillNames(t: Term, deps: set<Expr>, bindings: map<Expr, nat>, more: map<Expr, nat>)
    requires UsesNames(t, deps, bindings) && deps <= bindings.Keys
    requires forall e :: e in bindings ==> e in more && more[e] == bindings[e]
    ensures UsesNames(t, deps, more)
  {
  }

  lemma DepsBelow(levels: seq<Level>, n: nat, i: nat, k: nat, all: set<Expr>)
    requires GoodLevels(levels, all) && i < n <= |levels| && k < |levels[i]|
    ensures Deps(levels[i][k].expr, all) <= Placed(levels[..n])
  {
    hide Deps, Placed;
    assert GoodLevel(levels[i], Placed(levels[..i]), Count(levels[..i]), all);
    assert levels[..n][..i] == levels[..i];
    PlacedGrows(levels[..n], i);
  }

  // ---------------------------------------------------------------------- printer

  class Printer {
    var bindings: map<Expr, nat>
    var orderedBindings: seq<Level>

    constructor (shared: set<Expr>)
      ensures bindings.Keys == shared && orderedBindings == []
    {
      bindings := map e | e in shared :: 0;
      orderedBindings := [];
    }

    /** `scanBindingExprDeps` */
    method ScanBindingExprDeps()
      requires orderedBindings == []
      modifies this`orderedBindings
      ensures Levelled(orderedBindings, bindings.Keys)
    {
      hide Unrolled, Reversed, GoodLevel, NoDuplicates;
      ghost var all := bindings.Keys;
      var uses, users, nonDepBindings := DepMaps(bindings.Keys);
      while nonDepBindings != []
        invariant GoodLevels(orderedBindings, all) && NoDuplicates(nonDepBindings)
        invariant Unrolled(all, Placed(orderedBindings), Elements(nonDepBindings), uses)
        decreases all - Placed(orderedBindings)
      {
        ghost var done := Placed(orderedBindings);
        ReadyIsNew(all, done, Elements(nonDepBindings), uses);
        assert nonDepBindings[0] in Elements(nonDepBindings);
        var level;
        ghost var ready := Elements(nonDepBindings);
        level, nonDepBindings, uses := UnrollLevel(nonDepBindings, Count(orderedBindings), uses, users, all, done);
        AddLevel(orderedBindings, level, all);
        orderedBindings := orderedBindings + [level];
      }
      assert Elements(nonDepBindings) == {};
      NothingLeft(all, Placed(orderedBindings), uses);
    }

    /** `printAssert`: the levels as nested lets around the expression. The term is a boolean
        with the value of the expression under every assignment. */
    method PrintAssert(e: Expr) returns (t: LetTerm)
      requires IsCondition(e) && Levelled(orderedBindings, bindings.Keys) && forall b :: b in bindings ==> WF(b)
      modifies this`bindings
      ensures LetSort(t) == BoolSort
      ensures forall env :: LetValue(t, env) == Truth(Holds(e, env))
      ensures t.body == Print(e, BoolKind, bindings)
      ensures bindings.Keys == old(bindings.Keys)
      ensures AllAbbreviated(t.levels, orderedBindings, bindings.Keys, bindings)
    {
      hide WF, Eval, InScope, LetSort, LetValue, GoodLevel, Count, PrintLevel, LevelMap, Print, Numbered, Placed,
           LevelSet, AllAbbreviated;
      ghost var all := bindings.Keys;
      var levels: seq<seq<Bound>> := [];
      bindings := map[];
      EmptyScope();
      NoCount();
      NothingAbbreviated(all);
      assert orderedBindings[..0] == [];
      for i := 0 to |orderedBindings|
        invariant InScope(bindings, levels, Count(orderedBindings[..i]))
        invariant bindings.Keys == Placed(orderedBindings[..i])
        invariant AllAbbreviated(levels, orderedBindings[..i], all, bindings)
      {
        var level := orderedBindings[i];
        LevelNumbered(orderedBindings, i, all);
        DeeperScope(bindings, levels, Count(orderedBindings[..i]), level);
        NextCount(orderedBindings, i);
        LevelKeys(level);
        PlacedGrows(orderedBindings, i);
        StillAbbreviated(levels, orderedBindings, i, all, bindings, level);
        levels := levels + [PrintLevel(level, bindings)];
        bindings := bindings + LevelMap(level);
      }
      assert orderedBindings[..|orderedBindings|] == orderedBindings;
      t := LetTerm(levels, Print(e, BoolKind, bindings));
      BodyMeaning(e, bindings, levels, Count(orderedBindings[..|orderedBindings|]));
    }

    /** `printQueryInSingleAssert`: the printed term holds exactly in the models of the
        constraints that falsify the query. */
    method PrintQuery(constraints: seq<Expr>, query: Expr) returns (t: LetTerm)
      requires Conditions(constraints) && IsCondition(query)
      requires Levelled(orderedBindings, bindings.Keys) && forall b :: b in bindings ==> WF(b)
      modifies this`bindings
      ensures LetSort(t) == BoolSort
      ensures forall env :: LetValue(t, env) == Truth(Models(constraints, env) && !Holds(query, env))
    {
      hide WF, Eval, Levelled, LetSort, LetValue, CreateAnd, CreateIsZero;
      Negation(query);
      var queryAssert := CreateIsZero(query);
      for i := 0 to |constraints|
        invariant IsCondition(queryAssert) && bindings == old(bindings)
        invariant forall env :: Holds(queryAssert, env) <==> Models(constraints[..i], env) && !Holds(query, env)
      {
        Conjunction(queryAssert, constraints[i]);
        forall env
          ensures Models(constraints[..i + 1], env) <==> Models(constraints[..i], env) && Holds(constraints[i], env)
        {
          ModelsNext(constraints, i, env);
        }
        queryAssert := CreateAnd(queryAssert, constraints[i]);
      }
      assert constraints[..|constraints|] == constraints;
      t := PrintAssert(queryAssert);
    }
  }

  // ------------------------------------------------------------------- nested lets

  datatype Bound = Bound(id: nat, term: Term)

  /** A term inside nested `let`s, outermost first. The bindings of one `let` are evaluated
      side by side in the scope around it (section 3.6 of the SMT-LIB Standard 2.6). */
  datatype LetTerm = LetTerm(levels: seq<seq<Bound>>, body: Term)

  function LevelValues(level: seq<Bound>, env: Env, names: map<nat, Value>): map<nat, Value> {
    if level == [] then map[]
    else LevelValues(level[..|level| - 1], env,
                     names)[level[|level| - 1].id := TermValue(level[|level| - 1].term, env, names)]
  }

  function NamesAfter(levels: seq<seq<Bound>>, env: Env): map<nat, Value> {
    if levels == [] then map[]
    else
      var names := NamesAfter(levels[..|levels| - 1], env);
      names + LevelValues(levels[|levels| - 1], env, names)
  }

  function LetValue(t: LetTerm, env: Env): Value {
    TermValue(t.body, env, NamesAfter(t.levels, env))
  }

  function LevelSorts(level: seq<Bound>, names: map<nat, Sort>): map<nat, Sort> {
    if level == [] then map[]
    else LevelSorts(level[..|level| - 1], names)[level[|level| - 1].id := SortOf(level[|level| - 1].term, names)]
  }

  function SortsAfter(levels: seq<seq<Bound>>): map<nat, Sort> {
    if levels == [] then map[]
    else
      var names := SortsAfter(levels[..|levels| - 1]);
      names + LevelSorts(levels[|levels| - 1], names)
  }

  /** Ill-sorted if any bound term or the body is, or uses a name no enclosing `let` binds. */
  ghost function LetSort(t: LetTerm): Sort {
    if forall n :: n in SortsAfter(t.levels) ==> SortsAfter(t.levels)[n] != IllSorted
    then SortOf(t.body, SortsAfter(t.levels)) else IllSorted
  }

  function LevelMap(level: Level): map<Expr, nat> {
    if level == [] then map[] else LevelMap(level[..|level| - 1])[level[|level| - 1].expr := level[|level| - 1].id]
  }

  function PrintLevel(level: Level, bindings: map<Expr, nat>): (printed: seq<Bound>)
    ensures |printed| == |level|
    ensures forall k :: 0 <= k < |level| ==>
      printed[k] == Bound(level[k].id, Print(level[k].expr, GetSort(level[k].expr), bindings))
  {
    if level == [] then []
    else
      var last := level[|level| - 1];
      PrintLevel(level[..|level| - 1], bindings) + [Bound(last.id, Print(last.expr, GetSort(last.expr), bindings))]
  }

  ghost predicate Numbered(level: Level, count: nat) {
    && (forall k :: 0 <= k < |level| ==> WF(level[k].expr) && level[k].id == count + k + 1)
    && (forall j, k :: 0 <= j < k < |level| ==> level[j].expr != level[k].expr)
  }

  /** Within a level, the names stand for the expressions they abbreviate. */
  lemma {:induction false} LevelMeaning(level: Level, count: nat, bindings: map<Expr, nat>, names: map<nat, Value>,
                                        env: Env)
    requires Numbered(level, count) && ValuesAgree(bindings, names, env)
    ensures ValuesAgree(LevelMap(level), LevelValues(PrintLevel(level, bindings), env, names), env)
    ensures forall n :: n in LevelValues(PrintLevel(level, bindings), env, names) <==> count < n <= count + |level|
  {
    hide WF, TermValue, Print, ValueFor, GetSort;
    if level != [] {
      var front, last := level[..|level| - 1], level[|level| - 1];
      LevelMeaning(front, count, bindings, names, env);
      var printed := PrintLevel(level, bindings);
      assert printed[..|printed| - 1] == PrintLevel(front, bindings);
      SortWidth(last.expr);
      PrintMeaning(last.expr, GetSort(last.expr), bindings, names, env);
    }
  }

  lemma {:induction false} LevelSorting(level: Level, count: nat, bindings: map<Expr, nat>, names: map<nat, Sort>)
    requires Numbered(level, count) && SortsAgree(bindings, names)
    ensures SortsAgree(LevelMap(level), LevelSorts(PrintLevel(level, bindings), names))
    ensures forall n :: n in LevelSorts(PrintLevel(level, bindings), names) <==> count < n <= count + |level|
    ensures forall n :: n in LevelSorts(PrintLevel(level, bindings), names) ==>
      LevelSorts(PrintLevel(level, bindings), names)[n] != IllSorted
  {
    hide WF, SortOf, Print, GetSort;
    if level != [] {
      var front, last := level[..|level| - 1], level[|level| - 1];
      LevelSorting(front, count, bindings, names);
      var printed := PrintLevel(level, bindings);
      assert printed[..|printed| - 1] == PrintLevel(front, bindings);
      SortWidth(last.expr);
      PrintSorted(last.expr, GetSort(last.expr), bindings, names);
    }
  }

  /** The scope after some levels: every name bound so far is numbered from one, has the sort
      and, under every assignment, the value of the expression it abbreviates. */
  ghost predicate InScope(bindings: map<Expr, nat>, levels: seq<seq<Bound>>, count: nat) {
    && (forall e :: e in bindings ==> bindings[e] <= count)
    && SortsAgree(bindings, SortsAfter(levels))
    && (forall n :: n in SortsAfter(levels) ==> n <= count && SortsAfter(levels)[n] != IllSorted)
    && (forall env :: ValuesAgree(bindings, NamesAfter(levels, env), env))
    && (forall env, n :: n in NamesAfter(levels, env) ==> n <= count)
  }

  lemma DeeperScope(bindings: map<Expr, nat>, levels: seq<seq<Bound>>, count: nat, level: Level)
    requires InScope(bindings, levels, count) && Numbered(level, count)
    ensures InScope(bindings + LevelMap(level), levels + [PrintLevel(level, bindings)], count + |level|)
  {
    hide WF, Numbered, LevelMap, PrintLevel, LevelValues, LevelSorts, ValuesAgree, SortsAgree;
    var printed := PrintLevel(level, bindings);
    var more := levels + [printed];
    assert more[..|levels|] == levels;
    LevelMapIds(level, count);
    LevelSorting(level, count, bindings, SortsAfter(levels));
    WiderSorts(bindings, LevelMap(level), SortsAfter(levels), LevelSorts(printed, SortsAfter(levels)), count);
    forall env
      ensures ValuesAgree(bindings + LevelMap(level), NamesAfter(more, env), env)
      ensures forall n :: n in NamesAfter(more, env) ==> n <= count + |level|
    {
      var names := NamesAfter(levels, env);
      LevelMeaning(level, count, bindings, names, env);
      WiderValues(bindings, LevelMap(level), names, LevelValues(printed, env, names), count, env);
    }
  }

  /** Names of a new level do not disturb the older ones. */
  lemma WiderValues(bindings: map<Expr, nat>, more: map<Expr, nat>, names: map<nat, Value>, newer: map<nat, Value>,
                    count: nat, env: Env)
    requires ValuesAgree(bindings, names, env) && ValuesAgree(more, newer, env)
    requires (forall n :: n in names ==> n <= count) && forall n :: n in newer ==> n > count
    ensures ValuesAgree(bindings + more, names + newer, env)
  {
    hide ValueFor, GetSort;
  }

  lemma WiderSorts(bindings: map<Expr, nat>, more: map<Expr, nat>, names: map<nat, Sort>, newer: map<nat, Sort>,
                   count: nat)
    requires SortsAgree(bindings, names) && SortsAgree(more, newer)
    requires (forall n :: n in names ==> n <= count) && forall n :: n in newer ==> n > count
    ensures SortsAgree(bindings + more, names + newer)
  {
    hide SortFor, GetSort;
  }

  lemma {:induction false} LevelMapIds(level: Level, count: nat)
    requires Numbered(level, count)
    ensures forall e :: e in LevelMap(level) ==> count < LevelMap(level)[e] <= count + |level|
  {
    if level != [] {
      LevelMapIds(level[..|level| - 1], count);
    }
  }

  lemma NoCount()
    ensures Count([]) == 0 && Placed([]) == {}
  {
  }

  lemma EmptyScope()
    ensures InScope(map[], [], 0)
  {
  }

  lemma LevelNumbered(levels: seq<Level>, i: nat, all: set<Expr>)
    requires i < |levels| && GoodLevels(levels, all) && forall e :: e in all ==> WF(e)
    ensures Numbered(levels[i], Count(levels[..i]))
  {
    hide WF, Deps;
  }

  lemma NextCount(levels: seq<Level>, i: nat)
    requires i < |levels|
    ensures Count(levels[..i + 1]) == Count(levels[..i]) + |levels[i]|
    ensures Placed(levels[..i + 1]) == Placed(levels[..i]) + LevelSet(levels[i])
  {
    assert levels[..i + 1][..i] == levels[..i];
  }

  lemma {:induction false} LevelKeys(level: Level)
    ensures LevelMap(level).Keys == LevelSet(level)
  {
    if level != [] {
      var front, last := level[..|level| - 1], level[|level| - 1];
      LevelKeys(front);
      assert level == front + [last];
    }
  }

  lemma BodyMeaning(e: Expr, bindings: map<Expr, nat>, levels: seq<seq<Bound>>, count: nat)
    requires IsCondition(e) && InScope(bindings, levels, count)
    ensures LetSort(LetTerm(levels, Print(e, BoolKind, bindings))) == BoolSort
    ensures forall env :: LetValue(LetTerm(levels, Print(e, BoolKind, bindings)), env) == Truth(Holds(e, env))
  {
    hide WF, Print, TermValue, SortOf;
    PrintSorted(e, BoolKind, bindings, SortsAfter(levels));
    forall env ensures LetValue(LetTerm(levels, Print(e, BoolKind, bindings)), env) == Truth(Holds(e, env)) {
      PrintMeaning(e, BoolKind, bindings, NamesAfter(levels, env), env);
    }
  }

  lemma ModelsNext(cs: seq<Expr>, i: nat, env: Env)
    requires i < |cs|
    ensures Models(cs[..i + 1], env) <==> Models(cs[..i], env) && Holds(cs[i], env)
  {
    hide Holds;
    assert cs[..i + 1] == cs[..i] + [cs[i]];
    if Models(cs[..i + 1], env) {
      assert Holds(cs[..i + 1][i], env);
      forall k | 0 <= k < i ensures Holds(cs[..i][k], env) {
        assert cs[..i + 1][k] == cs[..i][k];
      }
    }
  }

  lemma ReadyIsNew(all: set<Expr>, done: set<Expr>, ready: set<Expr>, uses: DepMap)
    requires Unrolled(all, done, ready, uses)
    ensures ready <= all && done !! ready
  {
  }

  lemma AddLevel(levels: seq<Level>, level: Level, all: set<Expr>)
    requires GoodLevels(levels, all) && GoodLevel(level, Placed(levels), Count(levels), all)
    ensures GoodLevels(levels + [level], all)
    ensures Placed(levels + [level]) == Placed(levels) + LevelSet(level)
    ensures Count(levels + [level]) == Count(levels) + |level|
  {
    hide GoodLevel;
    var more := levels + [level];
    assert more[..|levels|] == levels;
    forall i | 0 <= i < |more| ensures GoodLevel(more[i], Placed(more[..i]), Count(more[..i]), all) {
      if i < |levels| {
        assert more[..i] == levels[..i];
      }
    }
  }

  /** The dependencies of every bound expression, the reverse map, and the expressions without
      any. */
  method DepMaps(all: set<Expr>) returns (uses: DepMap, users: DepMap, ready: seq<Expr>)
    ensures Unrolled(all, {}, Elements(ready), uses) && Reversed(all, users) && NoDuplicates(ready)
  {
    hide Deps;
    uses, users, ready := map[], map[], [];
    var rest := all;
    while rest != {}
      invariant rest <= all && NoDuplicates(ready)
      invariant forall b :: b in uses <==> b in all - rest && Deps(b, all) != {}
      invariant forall b :: b in uses ==> uses[b] == Deps(b, all)
      invariant forall x, u :: (x in users && u in users[x]) <==> (u in all - rest && x in Deps(u, all))
      invariant forall b :: b in ready <==> b in all - rest && Deps(b, all) == {}
      decreases rest
    {
      var b :| b in rest;
      var deps := CollectDeps(b, all);
      if deps != {} {
        uses := uses[b := deps];
        users := map x | x in users.Keys + deps ::
          (if x in users then users[x] else {}) + (if x in deps then {b} else {});
      } else {
        AppendMembers(ready, b);
        ready := ready + [b];
      }
      rest := rest - {b};
    }
  }
}
