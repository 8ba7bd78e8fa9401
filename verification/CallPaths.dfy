/** Call paths that fold recursion, and the summary of statistics per call site and
    function. A node is identified by its position; the root is node 0 and carries no
    call. */
module CallPaths {

  /** A call site and the function called there. */
  datatype Call = Call(callSite: nat, callee: nat)

  datatype Node = Node(parent: nat, call: Call, children: map<Call, nat>, statistics: nat, summary: nat, count: nat)

  /** Parents come before their children. */
  ghost predicate Rooted(nodes: seq<Node>) {
    nodes != [] && forall i :: 1 <= i < |nodes| ==> nodes[i].parent < i
  }

  /** The node lies on the parent chain of the other one, ends included. */
  ghost predicate Above(nodes: seq<Node>, i: nat, j: nat)
    requires Rooted(nodes) && j < |nodes|
    decreases j
  {
    i == j || (j > 0 && Above(nodes, i, nodes[j].parent))
  }

  /** The labels on every parent chain are pairwise distinct. */
  ghost predicate Distinct(nodes: seq<Node>)
    requires Rooted(nodes)
  {
    forall i, j :: 1 <= i < j < |nodes| && Above(nodes, i, j) ==> nodes[i].call != nodes[j].call
  }

  /** A child stands for its call: it is a node made for it, or one further up with the same
      call. */
  ghost predicate Linked(nodes: seq<Node>)
    requires Rooted(nodes)
  {
    forall i, key :: 0 <= i < |nodes| && key in nodes[i].children ==>
      && 1 <= nodes[i].children[key] < |nodes|
      && nodes[nodes[i].children[key]].call == key
      && (nodes[nodes[i].children[key]].parent == i || Above(nodes, nodes[i].children[key], i))
  }

  ghost predicate Valid(nodes: seq<Node>) {
    Rooted(nodes) && Distinct(nodes) && Linked(nodes)
  }

  // ------------------------------------------------------------------- chains

  lemma {:induction false} AboveOrder(nodes: seq<Node>, i: nat, j: nat)
    requires Rooted(nodes) && j < |nodes| && Above(nodes, i, j)
    ensures i <= j
    decreases j
  {
    if i != j {
      AboveOrder(nodes, i, nodes[j].parent);
    }
  }

  lemma {:induction false} AboveTransitive(nodes: seq<Node>, i: nat, j: nat, k: nat)
    requires Rooted(nodes) && k < |nodes| && j < |nodes| && Above(nodes, i, j) && Above(nodes, j, k)
    ensures Above(nodes, i, k)
    decreases k
  {
    if j != k {
      AboveTransitive(nodes, i, j, nodes[k].parent);
    }
  }

  /** Of two nodes on one chain, one lies above the other. */
  lemma {:induction false} AboveTotal(nodes: seq<Node>, i: nat, j: nat, k: nat)
    requires Rooted(nodes) && k < |nodes| && Above(nodes, i, k) && Above(nodes, j, k) && i <= j
    ensures j < |nodes| && Above(nodes, i, j)
    decreases k
  {
    if j == k {
    } else if i == k {
      AboveOrder(nodes, j, k);
    } else {
      AboveTotal(nodes, i, j, nodes[k].parent);
    }
  }

  /** Only the parents matter for chains. */
  lemma {:induction false} AboveFrame(nodes: seq<Node>, after: seq<Node>, i: nat, j: nat)
    requires Rooted(nodes) && Rooted(after) && j < |nodes| <= |after|
    requires forall k :: 0 <= k < |nodes| ==> after[k].parent == nodes[k].parent
    ensures Above(nodes, i, j) <==> Above(after, i, j)
    decreases j
  {
    if j > 0 && i != j {
      AboveFrame(nodes, after, i, nodes[j].parent);
    }
  }

  // ------------------------------------------------------------------- sums

  /** The sum over the positions in a set. */
  function SumIn(xs: seq<nat>, s: set<nat>): nat {
    if xs == [] then 0
    else SumIn(xs[..|xs| - 1], s) + if |xs| - 1 in s then xs[|xs| - 1] else 0
  }

  lemma {:induction false} SumUnion(xs: seq<nat>, a: set<nat>, b: set<nat>)
    requires a !! b
    ensures SumIn(xs, a + b) == SumIn(xs, a) + SumIn(xs, b)
  {
    if xs != [] {
      SumUnion(xs[..|xs| - 1], a, b);
    }
  }

  lemma {:induction false} SumNone(xs: seq<nat>)
    ensures SumIn(xs, {}) == 0
  {
    if xs != [] {
      SumNone(xs[..|xs| - 1]);
    }
  }

  lemma {:induction false} SumOne(xs: seq<nat>, i: nat)
    ensures SumIn(xs, {i}) == if i < |xs| then xs[i] else 0
  {
    if xs != [] {
      SumOne(xs[..|xs| - 1], i);
    }
  }

  ghost function Statistics(nodes: seq<Node>): (xs: seq<nat>)
    ensures |xs| == |nodes| && forall i :: 0 <= i < |nodes| ==> xs[i] == nodes[i].statistics
  {
    if nodes == [] then [] else Statistics(nodes[..|nodes| - 1]) + [nodes[|nodes| - 1].statistics]
  }

  ghost function Counts(nodes: seq<Node>): (xs: seq<nat>)
    ensures |xs| == |nodes| && forall i :: 0 <= i < |nodes| ==> xs[i] == nodes[i].count
  {
    if nodes == [] then [] else Counts(nodes[..|nodes| - 1]) + [nodes[|nodes| - 1].count]
  }

  ghost function Subtree(nodes: seq<Node>, i: nat): set<nat>
    requires Rooted(nodes)
  {
    set j: nat | j < |nodes| && Above(nodes, i, j)
  }

  /** The node itself, or one below a child after position `last`. */
  ghost predicate IsGathered(nodes: seq<Node>, i: nat, last: nat, j: nat)
    requires Rooted(nodes) && j < |nodes|
  {
    j == i || exists c :: last < c < |nodes| && nodes[c].parent == i && Above(nodes, c, j)
  }

  ghost function Gathered(nodes: seq<Node>, i: nat, last: nat): set<nat>
    requires Rooted(nodes)
  {
    set j: nat | j < |nodes| && IsGathered(nodes, i, last, j)
  }

  /** A node with this call on its chain, at a position after `last`. */
  ghost predicate IsCovered(nodes: seq<Node>, call: Call, last: nat, j: nat)
    requires Rooted(nodes) && j < |nodes|
  {
    exists i :: last < i < |nodes| && nodes[i].call == call && Above(nodes, i, j)
  }

  ghost function Covered(nodes: seq<Node>, call: Call, last: nat): set<nat>
    requires Rooted(nodes)
  {
    set j: nat | j < |nodes| && IsCovered(nodes, call, last, j)
  }

  ghost function Calls(nodes: seq<Node>, call: Call, last: nat): set<nat> {
    set i: nat | last < i < |nodes| && nodes[i].call == call
  }

  // ------------------------------------------------------------- one reverse step

  /** Before any child has been added, only the node itself is gathered; after the last one,
      the whole subtree. */
  lemma GatheredEnds(nodes: seq<Node>, i: nat)
    requires Rooted(nodes) && i < |nodes|
    ensures Gathered(nodes, i, |nodes| - 1) == {i}
    ensures Gathered(nodes, i, i) == Gathered(nodes, i, 0) == Subtree(nodes, i)
  {
    forall j: nat | j < |nodes| ensures IsGathered(nodes, i, i, j) <==> Above(nodes, i, j) {
      GatheredBelow(nodes, i, j);
    }
    forall j: nat | j < |nodes| ensures IsGathered(nodes, i, 0, j) <==> IsGathered(nodes, i, i, j) {
      if c :| 0 < c < |nodes| && nodes[c].parent == i && Above(nodes, c, j) {
        assert i < c;
      }
    }
  }

  lemma {:induction false} GatheredBelow(nodes: seq<Node>, i: nat, j: nat)
    requires Rooted(nodes) && i < |nodes| && j < |nodes|
    ensures IsGathered(nodes, i, i, j) <==> Above(nodes, i, j)
    decreases j
  {
    if c :| i < c < |nodes| && nodes[c].parent == i && Above(nodes, c, j) {
      AboveTransitive(nodes, i, c, j);
    }
    if i != j && Above(nodes, i, j) {
      GatheredBelow(nodes, i, nodes[j].parent);
      if nodes[j].parent == i {
        assert Above(nodes, j, j);
      } else {
        var c :| i < c < |nodes| && nodes[c].parent == i && Above(nodes, c, nodes[j].parent);
        assert Above(nodes, c, j);
      }
    }
  }

  /** Adding child `i` to its parent adds exactly the subtree of `i`, and changes no other
      node. */
  lemma GatheredStep(nodes: seq<Node>, i: nat, k: nat)
    requires Rooted(nodes) && 1 <= i < |nodes| && k < |nodes|
    ensures k == nodes[i].parent ==> Gathered(nodes, k, i - 1) == Gathered(nodes, k, i) + Subtree(nodes, i)
    ensures k == nodes[i].parent ==> Gathered(nodes, k, i) !! Subtree(nodes, i)
    ensures k != nodes[i].parent ==> Gathered(nodes, k, i - 1) == Gathered(nodes, k, i)
  {
    forall j: nat | j < |nodes|
      ensures IsGathered(nodes, k, i - 1, j) <==>
        IsGathered(nodes, k, i, j) || (k == nodes[i].parent && Above(nodes, i, j))
      ensures k == nodes[i].parent ==> !(IsGathered(nodes, k, i, j) && Above(nodes, i, j))
    {
      if k == nodes[i].parent && Above(nodes, i, j) {
        AboveOrder(nodes, i, j);
        forall c: nat | i < c < |nodes| && nodes[c].parent == k ensures !Above(nodes, c, j) {
          Siblings(nodes, i, c, j);
        }
      }
    }
  }

  lemma Siblings(nodes: seq<Node>, i: nat, c: nat, j: nat)
    requires Rooted(nodes) && 1 <= i < c < |nodes| && nodes[i].parent == nodes[c].parent && j < |nodes|
    requires Above(nodes, i, j)
    ensures !Above(nodes, c, j)
  {
    if Above(nodes, c, j) {
      AboveTotal(nodes, i, c, j);
      AboveOrder(nodes, i, nodes[c].parent);
    }
  }

  /** A new call covers its subtree, which no other node of the same call reaches. */
  lemma CoveredStep(nodes: seq<Node>, i: nat, call: Call)
    requires Rooted(nodes) && Distinct(nodes) && 1 <= i < |nodes|
    ensures call == nodes[i].call ==> Covered(nodes, call, i - 1) == Covered(nodes, call, i) + Subtree(nodes, i)
    ensures call == nodes[i].call ==> Covered(nodes, call, i) !! Subtree(nodes, i)
    ensures call != nodes[i].call ==> Covered(nodes, call, i - 1) == Covered(nodes, call, i)
    ensures Calls(nodes, call, i - 1) == Calls(nodes, call, i) + if call == nodes[i].call then {i} else {}
  {
    forall j: nat | j < |nodes|
      ensures IsCovered(nodes, call, i - 1, j) <==>
        IsCovered(nodes, call, i, j) || (call == nodes[i].call && Above(nodes, i, j))
      ensures call == nodes[i].call ==> !(IsCovered(nodes, call, i, j) && Above(nodes, i, j))
    {
      if call == nodes[i].call && Above(nodes, i, j) {
        forall h: nat | i < h < |nodes| && nodes[h].call == call ensures !Above(nodes, h, j) {
          OneOfACall(nodes, i, h, j);
        }
      }
    }
  }

  lemma OneOfACall(nodes: seq<Node>, i: nat, h: nat, j: nat)
    requires Rooted(nodes) && Distinct(nodes) && 1 <= i < h < |nodes| && nodes[i].call == nodes[h].call
    requires j < |nodes| && Above(nodes, i, j)
    ensures !Above(nodes, h, j)
  {
    if Above(nodes, h, j) {
      AboveTotal(nodes, i, h, j);
    }
  }

  // ------------------------------------------------------------------- the manager

  datatype CallSiteInfo = CallSiteInfo(count: nat, statistics: nat)

  type SummaryTable = map<Call, CallSiteInfo>

  function Entry(table: SummaryTable, call: Call): CallSiteInfo {
    if call in table then table[call] else CallSiteInfo(0, 0)
  }

  ghost predicate SummaryOnly(before: seq<Node>, after: seq<Node>) {
    |after| == |before| && forall k :: 0 <= k < |after| ==> after[k] == before[k].(summary := after[k].summary)
  }

  /** Summaries after the children beyond position `i` have been added. */
  ghost predicate Summed(shape: seq<Node>, nodes: seq<Node>, i: nat)
    requires Rooted(shape) && |nodes| == |shape|
  {
    forall k :: 1 <= k < |shape| ==> nodes[k].summary == SumIn(Statistics(shape), Gathered(shape, k, i))
  }

  /** The table after the nodes beyond position `i` have been entered. */
  ghost predicate Tabled(shape: seq<Node>, table: SummaryTable, i: nat)
    requires Rooted(shape)
  {
    forall call :: TabledAt(shape, table, i, call)
  }

  ghost predicate TabledAt(shape: seq<Node>, table: SummaryTable, i: nat, call: Call)
    requires Rooted(shape)
  {
    && Entry(table, call).statistics == SumIn(Statistics(shape), Covered(shape, call, i))
    && Entry(table, call).count == SumIn(Counts(shape), Calls(shape, call, i))
    && (call in table <==> exists h :: i < h < |shape| && shape[h].call == call)
  }

  lemma Initially(shape: seq<Node>, nodes: seq<Node>)
    requires Rooted(shape) && SummaryOnly(shape, nodes)
    requires forall k :: 1 <= k < |nodes| ==> nodes[k].summary == nodes[k].statistics
    ensures Summed(shape, nodes, |shape| - 1) && Tabled(shape, map[], |shape| - 1)
  {
    var last := |shape| - 1;
    forall k | 1 <= k < |shape| ensures nodes[k].summary == SumIn(Statistics(shape), Gathered(shape, k, last)) {
      GatheredEnds(shape, k);
      SumOne(Statistics(shape), k);
    }
    forall call ensures TabledAt(shape, map[], last, call) {
      assert Covered(shape, call, |shape| - 1) == {} && Calls(shape, call, |shape| - 1) == {};
      SumNone(Statistics(shape));
      SumNone(Counts(shape));
    }
  }

  lemma SummedAt(shape: seq<Node>, nodes: seq<Node>, i: nat)
    requires Rooted(shape) && SummaryOnly(shape, nodes) && Summed(shape, nodes, i) && 1 <= i < |shape|
    ensures nodes[i].summary == SumIn(Statistics(shape), Subtree(shape, i))
  {
    GatheredEnds(shape, i);
  }

  lemma SummedStep(shape: seq<Node>, nodes: seq<Node>, i: nat)
    requires Rooted(shape) && SummaryOnly(shape, nodes) && Summed(shape, nodes, i) && 1 <= i < |shape|
    ensures var p := nodes[i].parent;
      p < |nodes|
      && Summed(shape, nodes[p := nodes[p].(summary := nodes[p].summary + nodes[i].summary)], i - 1)
  {
    hide SumIn;
    var p := shape[i].parent;
    var after := nodes[p := nodes[p].(summary := nodes[p].summary + nodes[i].summary)];
    GatheredEnds(shape, i);
    var last := i - 1;
    forall k | 1 <= k < |shape| ensures after[k].summary == SumIn(Statistics(shape), Gathered(shape, k, last)) {
      GatheredStep(shape, i, k);
      if k == p {
        SumUnion(Statistics(shape), Gathered(shape, k, i), Subtree(shape, i));
      }
    }
  }

  lemma TabledStep(shape: seq<Node>, table: SummaryTable, i: nat, cp: Node)
    requires Rooted(shape) && Distinct(shape) && Tabled(shape, table, i) && 1 <= i < |shape|
    requires cp.call == shape[i].call && cp.count == shape[i].count
    requires cp.summary == SumIn(Statistics(shape), Subtree(shape, i))
    ensures var csi := Entry(table, cp.call);
            Tabled(shape, table[cp.call := CallSiteInfo(csi.count + cp.count, csi.statistics + cp.summary)], i - 1)
  {
    hide TabledAt, Distinct, SumIn, Subtree, Statistics;
    var csi := Entry(table, cp.call);
    var after := table[cp.call := CallSiteInfo(csi.count + cp.count, csi.statistics + cp.summary)];
    var last := i - 1;
    forall call ensures TabledAt(shape, after, last, call) {
      assert TabledAt(shape, table, i, call);
      TabledStepAt(shape, table, after, i, cp, call);
    }
  }

  lemma TabledStepAt(shape: seq<Node>, table: SummaryTable, after: SummaryTable, i: nat, cp: Node, call: Call)
    requires Rooted(shape) && Distinct(shape) && TabledAt(shape, table, i, call) && 1 <= i < |shape|
    requires cp.call == shape[i].call && cp.count == shape[i].count
    requires cp.summary == SumIn(Statistics(shape), Subtree(shape, i))
    requires var csi := Entry(table, cp.call);
      after == table[cp.call := CallSiteInfo(csi.count + cp.count, csi.statistics + cp.summary)]
    ensures TabledAt(shape, after, i - 1, call)
  {
    hide SumIn, Distinct;
    CoveredStep(shape, i, call);
    if call == cp.call {
      assert shape[i].call == call;
      SumUnion(Statistics(shape), Covered(shape, call, i), Subtree(shape, i));
      SumUnion(Counts(shape), Calls(shape, call, i), {i});
      SumOne(Counts(shape), i);
    } else {
      assert Calls(shape, call, i - 1) == Calls(shape, call, i);
    }
  }

  /** Chains, sums and sets look only at what a summary leaves alone. */
  lemma SameShape(before: seq<Node>, after: seq<Node>)
    requires Valid(before) && |after| == |before|
    requires forall k :: 0 <= k < |after| ==>
      after[k].parent == before[k].parent && after[k].call == before[k].call && after[k].children == before[k].children
    ensures Valid(after) && forall i, j :: 0 <= j < |before| && 0 <= i ==> (Above(before, i, j) <==> Above(after, i, j))
  {
    forall i: nat, j: nat | j < |before| ensures Above(before, i, j) <==> Above(after, i, j) {
      AboveFrame(before, after, i, j);
    }
  }

  /** What the summary promises of one call. */
  ghost predicate Reported(nodes: seq<Node>, results: SummaryTable, call: Call)
    requires Rooted(nodes)
  {
    && (call in results <==> exists i :: 1 <= i < |nodes| && nodes[i].call == call)
    && (call in results ==>
          && results[call].statistics == SumIn(Statistics(nodes), Covered(nodes, call, 0))
          && results[call].count == SumIn(Counts(nodes), Calls(nodes, call, 0)))
  }

  lemma Finally(shape: seq<Node>, nodes: seq<Node>, results: SummaryTable)
    requires Valid(shape) && SummaryOnly(shape, nodes) && Summed(shape, nodes, 0) && Tabled(shape, results, 0)
    ensures Rooted(nodes)
    ensures forall i :: 1 <= i < |nodes| ==> nodes[i].summary == SumIn(Statistics(nodes), Subtree(nodes, i))
    ensures forall call :: Reported(nodes, results, call)
  {
    hide SumIn, Tabled, TabledAt, Reported;
    SameShape(shape, nodes);
    assert Statistics(nodes) == Statistics(shape);
    forall i | 1 <= i < |nodes| ensures nodes[i].summary == SumIn(Statistics(nodes), Subtree(nodes, i)) {
      GatheredEnds(shape, i);
      assert Subtree(nodes, i) == Subtree(shape, i);
    }
    forall call ensures Reported(nodes, results, call) {
      FinallyAt(shape, nodes, results, call);
    }
  }

  lemma FinallyAt(shape: seq<Node>, nodes: seq<Node>, results: SummaryTable, call: Call)
    requires Rooted(shape) && Rooted(nodes) && SummaryOnly(shape, nodes) && Tabled(shape, results, 0)
    requires forall i, j :: 0 <= j < |shape| && 0 <= i ==> (Above(shape, i, j) <==> Above(nodes, i, j))
    ensures Reported(nodes, results, call)
  {
    hide SumIn;
    assert Statistics(nodes) == Statistics(shape) && Counts(nodes) == Counts(shape);
    assert TabledAt(shape, results, 0, call);
    forall j: nat | j < |nodes| ensures IsCovered(nodes, call, 0, j) <==> IsCovered(shape, call, 0, j) {
      SameCover(shape, nodes, call, j);
    }
    assert Covered(nodes, call, 0) == Covered(shape, call, 0) && Calls(nodes, call, 0) == Calls(shape, call, 0);
    if call in results {
      var h :| 0 < h < |shape| && shape[h].call == call;
      assert nodes[h].call == call;
    }
    if i :| 1 <= i < |nodes| && nodes[i].call == call {
      assert shape[i].call == call;
    }
  }

  lemma SameCover(shape: seq<Node>, nodes: seq<Node>, call: Call, j: nat)
    requires Rooted(shape) && Rooted(nodes) && SummaryOnly(shape, nodes) && j < |nodes|
    requires forall i :: 0 <= i ==> (Above(shape, i, j) <==> Above(nodes, i, j))
    ensures IsCovered(nodes, call, 0, j) <==> IsCovered(shape, call, 0, j)
  {
  }

  lemma NewNode(before: seq<Node>, after: seq<Node>, parent: nat, key: Call)
    requires Valid(before) && parent < |before| && after == before + [Node(parent, key, map[], 0, 0, 0)]
    requires forall i :: 1 <= i < |before| && Above(before, i, parent) ==> before[i].call != key
    ensures Valid(after)
  {
    forall i: nat, j: nat | j < |before| ensures Above(before, i, j) <==> Above(after, i, j) {
      AboveFrame(before, after, i, j);
    }
    forall i, j | 1 <= i < j < |after| && Above(after, i, j) ensures after[i].call != after[j].call {
      if j == |before| {
        assert Above(after, i, parent);
      }
    }
  }

  lemma NewChild(before: seq<Node>, after: seq<Node>, parent: nat, key: Call, n: nat)
    requires Valid(before) && parent < |before| && 1 <= n < |before| && before[n].call == key
    requires before[n].parent == parent || Above(before, n, parent)
    requires after == before[parent := before[parent].(children := before[parent].children[key := n])]
    ensures Valid(after)
  {
    forall i: nat, j: nat | j < |before| ensures Above(before, i, j) <==> Above(after, i, j) {
      AboveFrame(before, after, i, j);
    }
  }

  // --------------------------------------------------------------- bounded depth

  ghost function CallsAbove(nodes: seq<Node>, j: nat): set<Call>
    requires Rooted(nodes) && j < |nodes|
    decreases j
  {
    if j == 0 then {} else CallsAbove(nodes, nodes[j].parent) + {nodes[j].call}
  }

  ghost function Depth(nodes: seq<Node>, j: nat): nat
    requires Rooted(nodes) && j < |nodes|
    decreases j
  {
    if j == 0 then 0 else 1 + Depth(nodes, nodes[j].parent)
  }

  /** However deep the recursion, a chain is no longer than there are distinct calls on it. */
  lemma {:induction false} DepthIsCalls(nodes: seq<Node>, j: nat)
    requires Valid(nodes) && j < |nodes|
    ensures Depth(nodes, j) == |CallsAbove(nodes, j)|
    ensures forall call :: call in CallsAbove(nodes, j) ==> exists i ::
      1 <= i <= j && Above(nodes, i, j) && nodes[i].call == call
    decreases j
  {
    if j > 0 {
      var p := nodes[j].parent;
      DepthIsCalls(nodes, p);
      assert nodes[j].call !in CallsAbove(nodes, p);
      forall call | call in CallsAbove(nodes, j)
        ensures exists i :: 1 <= i <= j && Above(nodes, i, j) && nodes[i].call == call
      {
        if call == nodes[j].call {
          assert Above(nodes, j, j);
        } else {
          var i :| 1 <= i <= p && Above(nodes, i, p) && nodes[i].call == call;
          assert Above(nodes, i, j);
        }
      }
    }
  }

  class CallPathManager {
    var nodes: seq<Node>

    constructor ()
      ensures Valid(nodes) && |nodes| == 1
    {
      nodes := [Node(0, Call(0, 0), map[], 0, 0, 0)];
    }

    /** `computeCallPath`: a recursive call comes back to its node further up. */
    method ComputeCallPath(parent: nat, key: Call) returns (n: nat)
      requires Valid(nodes) && parent < |nodes|
      modifies this`nodes
      ensures Valid(nodes) && 1 <= n < |nodes| && nodes[n].call == key
      ensures (nodes == old(nodes) && Above(nodes, n, parent))
              || (n == |old(nodes)| && nodes == old(nodes) + [Node(parent, key, map[], 0, 0, 0)])
    {
      var p: nat := parent;
      while p != 0
        invariant nodes == old(nodes) && p < |nodes| && Above(nodes, p, parent)
        invariant forall i :: 1 <= i < |nodes| && Above(nodes, i, parent) && !Above(nodes, i, p) ==>
          nodes[i].call != key
      {
        if nodes[p].call == key {
          return p;
        }
        AboveTransitive(nodes, nodes[p].parent, p, parent);
        p := nodes[p].parent;
      }
      n := |nodes|;
      ghost var before := nodes;
      nodes := nodes + [Node(parent, key, map[], 0, 0, 0)];
      NewNode(before, nodes, parent, key);
    }

    /** `getCallPath` */
    method GetCallPath(parent: nat, key: Call) returns (n: nat)
      requires Valid(nodes) && parent < |nodes|
      modifies this`nodes
      ensures 1 <= n < |nodes| && nodes[n].call == key && Valid(nodes)
      ensures |old(nodes)| <= |nodes| && key in nodes[parent].children && nodes[parent].children[key] == n
      ensures key in old(nodes)[parent].children ==> nodes == old(nodes)
      ensures forall i :: 0 <= i < |old(nodes)| ==> nodes[i] == old(nodes)[i].(children := nodes[i].children)
    {
      if key !in nodes[parent].children {
        n := ComputeCallPath(parent, key);
        ghost var before := nodes;
        nodes := nodes[parent := nodes[parent].(children := nodes[parent].children[key := n])];
        NewChild(before, nodes, parent, key, n);
      } else {
        n := nodes[parent].children[key];
      }
    }

    /** Work done at a node. */
    method Record(n: nat, statistics: nat, count: nat)
      requires Valid(nodes) && n < |nodes|
      modifies this`nodes
      ensures Valid(nodes)
      ensures nodes
        == old(nodes)[n := old(nodes)[n].(statistics := old(nodes)[n].statistics + statistics,
                                          count := old(nodes)[n].count + count)]
    {
      ghost var before := nodes;
      nodes := nodes[n := nodes[n].(statistics := nodes[n].statistics + statistics, count := nodes[n].count + count)];
      SameShape(before, nodes);
    }

    /** `getSummaryStatistics`: every node gets the total of its subtree, and every call the
        work done anywhere below it, each record once however the call recurs. */
    method GetSummaryStatistics() returns (results: SummaryTable)
      requires Valid(nodes)
      modifies this`nodes
      ensures Valid(nodes) && SummaryOnly(old(nodes), nodes)
      ensures forall i :: 1 <= i < |nodes| ==> nodes[i].summary == SumIn(Statistics(nodes), Subtree(nodes, i))
      ensures forall call :: Reported(nodes, results, call)
    {
      hide Summed, Tabled, Reported, Distinct, Linked;
      results := map[];
      ghost var shape := nodes;
      ResetSummaries();
      Initially(shape, nodes);
      var i := |nodes| - 1;
      while i > 0
        invariant 0 <= i < |nodes| && SummaryOnly(shape, nodes)
        invariant Summed(shape, nodes, i) && Tabled(shape, results, i)
        decreases i
      {
        var cp := nodes[i];
        SummedAt(shape, nodes, i);
        SummedStep(shape, nodes, i);
        TabledStep(shape, results, i, cp);
        nodes := nodes[cp.parent := nodes[cp.parent].(summary := nodes[cp.parent].summary + cp.summary)];
        var csi := Entry(results, cp.call);
        results := results[cp.call := CallSiteInfo(csi.count + cp.count, csi.statistics + cp.summary)];
        i := i - 1;
      }
      SameShape(shape, nodes);
      Finally(shape, nodes, results);
    }

    method ResetSummaries()
      requires nodes != []
      modifies this`nodes
      ensures SummaryOnly(old(nodes), nodes) && forall k :: 1 <= k < |nodes| ==> nodes[k].summary == nodes[k].statistics
    {
      for k := 1 to |nodes|
        invariant SummaryOnly(old(nodes), nodes) && forall h :: 1 <= h < k ==> nodes[h].summary == nodes[h].statistics
      {
        nodes := nodes[k := nodes[k].(summary := nodes[k].statistics)];
      }
    }
  }
}
