/** The process tree: every live state owns a leaf, a fork splits a leaf, and removing a
    state prunes upward. Random-path search walks it from the root. */
module ProcessTree {

  type StateId = nat

  datatype Owner = Nobody | State(id: StateId)

  class PTreeNode {
    var parent: PTreeNode?
    var left: PTreeNode?
    var right: PTreeNode?
    var owner: Owner
    ghost const depth: nat

    constructor (parent: PTreeNode?, owner: Owner, ghost depth: nat)
      ensures this.parent == parent && left == null && right == null && this.owner == owner && this.depth == depth
    {
      this.parent, left, right, this.owner, this.depth := parent, null, null, owner, depth;
    }
  }

  class PTree {
    const root: PTreeNode
    /** The leaf each live state points to. */
    var leaf: map<StateId, PTreeNode>
    ghost var nodes: set<PTreeNode>

    ghost predicate ChildOf(c: PTreeNode?, n: PTreeNode)
      reads this, nodes
    {
      c != null ==> c in nodes && c.parent == n && c.depth == n.depth + 1
    }

    ghost predicate Shaped(n: PTreeNode)
      reads this, nodes, n
    {
      && ChildOf(n.left, n) && ChildOf(n.right, n)
      && (n.left != null ==> n.left != n.right)
      && (n == root <==> n.parent == null)
      && (n.parent != null ==>
        n.parent in nodes && (n == n.parent.left || n == n.parent.right) && n.depth == n.parent.depth + 1)
    }

    ghost predicate Childless(n: PTreeNode)
      reads n
    {
      n.left == null && n.right == null
    }

    /** A node owned by a live state is that state's leaf; one owned by nobody has a child. */
    ghost predicate Settled(n: PTreeNode)
      reads this, n
    {
      match n.owner
      case State(s) => Childless(n) && s in leaf && leaf[s] == n
      case Nobody => !Childless(n)
    }

    /** The tree, with one childless node that nobody owns allowed. */
    ghost predicate TreeBut(gap: PTreeNode?)
      reads this, nodes
    {
      && root in nodes
      && (forall n :: n in nodes ==> Shaped(n))
      && (forall n :: n in nodes && n != gap ==> Settled(n))
      && (forall s :: s in leaf ==> leaf[s] in nodes && leaf[s] != gap && leaf[s].owner == State(s))
    }

    ghost predicate Valid()
      reads this, nodes
    {
      TreeBut(null)
    }

    constructor (initial: StateId)
      ensures Valid() && leaf.Keys == {initial}
    {
      root := new PTreeNode(null, State(initial), 0);
      new;
      leaf := map[initial := root];
      nodes := {root};
    }

    static method Split(node: PTreeNode, leftState: StateId, rightState: StateId) returns (l: PTreeNode, r: PTreeNode)
      modifies node
      ensures fresh(l) && fresh(r) && l != r && l.parent == node == r.parent && l.depth == node.depth + 1 == r.depth
      ensures l.left == null == l.right && r.left == null == r.right && l.owner == State(leftState)
      ensures r.owner == State(rightState)
      ensures node.owner == Nobody && node.left == l && node.right == r && node.parent == old(node.parent)
    {
      l := new PTreeNode(node, State(leftState), node.depth + 1);
      r := new PTreeNode(node, State(rightState), node.depth + 1);
      node.owner, node.left, node.right := Nobody, l, r;
    }

    /** `attach`: the leaf of a state becomes an inner node with a leaf for the new state and a
        leaf for the old one. */
    method Attach(node: PTreeNode, leftState: StateId, rightState: StateId)
      requires Valid() && node in nodes && node.owner == State(rightState) && leftState !in leaf
      modifies this`leaf, this`nodes, node
      ensures Valid() && leaf.Keys == old(leaf.Keys) + {leftState}
      ensures node in nodes && node.left == leaf[leftState] && node.right == leaf[rightState]
      ensures forall s :: s in old(leaf) && s != rightState ==> leaf[s] == old(leaf)[s]
    {
      assert Shaped(node) && Settled(node);
      var l, r := Split(node, leftState, rightState);
      leaf := leaf[leftState := l][rightState := r];
      nodes := nodes + {l, r};
      forall n | n in nodes ensures Shaped(n) && Settled(n) {
        if n in old(nodes) && n != node {
          assert old(Shaped(n)) && old(Settled(n));
        }
      }
      forall s | s in leaf ensures leaf[s] in nodes && leaf[s].owner == State(s) {
        if s != leftState && s != rightState {
          assert old(s in leaf && leaf[s] in nodes && leaf[s].owner == State(s));
        }
      }
    }

    static method Cut(p: PTreeNode, n: PTreeNode)
      requires n == p.left || n == p.right
      modifies p
      ensures p.left == if old(p.left) == n then null else old(p.left)
      ensures p.right == if old(p.left) == n then old(p.right) else null
      ensures p.parent == old(p.parent) && p.owner == old(p.owner)
    {
      if n == p.left {
        p.left := null;
      } else {
        p.right := null;
      }
    }

    /** Cutting off a childless node that nobody live owns. */
    method Detach(n: PTreeNode) returns (p: PTreeNode)
      requires n in nodes && Childless(n) && TreeBut(n) && n.parent != null
      modifies this`nodes, n.parent
      ensures p == old(n.parent) && p in nodes && nodes == old(nodes) - {n} && p.depth < n.depth
      ensures TreeBut(if Childless(p) then p else null)
    {
      assert Shaped(n) && Shaped(n.parent) && Settled(n.parent);
      p := n.parent;
      Cut(p, n);
      nodes := nodes - {n};
      forall m | m in nodes ensures Shaped(m) && (m != p ==> Settled(m)) {
        assert old(Shaped(m)) && old(Settled(m));
      }
    }

    /** `remove`: a leaf goes, and with it every ancestor that has nothing else below it. */
    method Remove(s: StateId)
      requires Valid() && s in leaf
      modifies this`leaf, this`nodes, nodes
      ensures leaf == old(leaf) - {s}
      ensures leaf != map[] ==> Valid()
      ensures nodes <= old(nodes)
    {
      hide PTree.Settled, PTree.Shaped;
      var n: PTreeNode? := Vacate(s);
      var more := true;
      while more
        invariant leaf == old(leaf) - {s} && nodes <= old(nodes)
        invariant more ==> n != null && n in nodes && Childless(n) && TreeBut(n)
        invariant !more ==> leaf == map[] || Valid()
        decreases if more then 1 + n.depth else 0
      {
        if n.parent == null {
          OnlyRoot(n);
          n := null;
        } else {
          ParentInside(n);
          n := Detach(n);
        }
        more := n != null && n.left == null && n.right == null;
      }
    }

    /** The state is gone; its leaf is left without an owner. */
    method Vacate(s: StateId) returns (n: PTreeNode)
      requires Valid() && s in leaf
      modifies this`leaf
      ensures leaf == old(leaf) - {s} && n in nodes && Childless(n) && TreeBut(n)
    {
      n := leaf[s];
      assert Settled(n);
      leaf := leaf - {s};
      forall m | m in nodes ensures Shaped(m) && (m != n ==> Settled(m)) {
        assert old(Shaped(m)) && old(Settled(m));
      }
    }

    lemma ParentInside(n: PTreeNode)
      requires n in nodes && TreeBut(n) && n.parent != null
      ensures n.parent in nodes
    {
    }

    lemma OnlyRoot(n: PTreeNode)
      requires n in nodes && Childless(n) && TreeBut(n) && n.parent == null
      ensures leaf == map[]
    {
      assert Shaped(n);
      if s :| s in leaf {
        BelowRoot(leaf[s]);
        assert false;
      }
    }

    /** Whoever is not the root hangs below it. */
    lemma BelowRoot(m: PTreeNode)
      requires root in nodes && (forall n :: n in nodes ==> Shaped(n)) && m in nodes && m != root
      ensures !Childless(root)
      decreases m.depth
    {
      assert Shaped(m);
      if m.parent != root {
        BelowRoot(m.parent);
      }
    }

    ghost function Deeper(n: PTreeNode): set<PTreeNode>
      reads this`nodes
    {
      set m | m in nodes && m.depth > n.depth
    }

    /** The state a walk from a node ends at; a coin is used only where there is a choice. */
    ghost function Chosen(n: PTreeNode, coins: nat -> bool, k: nat): StateId
      requires Valid() && n in nodes
      reads this, nodes
      decreases Deeper(n)
    {
      assert Shaped(n) && Settled(n);
      if n.owner.State? then n.owner.id
      else if n.left == null then assert n.right in Deeper(n); Chosen(n.right, coins, k)
      else if n.right == null then assert n.left in Deeper(n); Chosen(n.left, coins, k)
      else
        assert n.left in Deeper(n) && n.right in Deeper(n);
        Chosen(if coins(k) then n.left else n.right, coins, k + 1)
    }

    /** `selectState` of the random-path searcher: the walk ends, at a live state. */
    method SelectState(coins: nat -> bool) returns (s: StateId)
      requires Valid()
      ensures s in leaf && s == Chosen(root, coins, 0)
    {
      var n := root;
      var k := 0;
      while n.owner == Nobody
        invariant n in nodes && Chosen(root, coins, 0) == Chosen(n, coins, k)
        decreases Deeper(n)
      {
        assert Shaped(n) && Settled(n);
        ghost var here := n;
        if n.left == null {
          n := n.right;
        } else if n.right == null {
          n := n.left;
        } else {
          n := if coins(k) then n.left else n.right;
          k := k + 1;
        }
        assert n in Deeper(here);
      }
      assert Settled(n);
      s := n.owner.id;
    }

    /** The node lies on the way from the root to the leaf. */
    ghost predicate OnTheWay(n: PTreeNode, m: PTreeNode)
      requires Valid() && m in nodes
      reads this, nodes
      decreases m.depth
    {
      assert Shaped(m);
      n == m || (m.parent != null && OnTheWay(n, m.parent))
    }

    lemma RootIsAbove(m: PTreeNode)
      requires Valid() && m in nodes
      ensures OnTheWay(root, m)
      decreases m.depth
    {
      assert Shaped(m);
      if m.parent != null {
        RootIsAbove(m.parent);
      }
    }

    /** The flips that lead from a node on the way down to the leaf below it. */
    lemma {:induction false} FlipsTo(n: PTreeNode, m: PTreeNode) returns (flips: seq<bool>)
      requires Valid() && n in nodes && m in nodes && OnTheWay(n, m)
      ensures forall coins: nat -> bool, k: nat :: Follows(coins, k, flips) ==>
        Chosen(n, coins, k) == Chosen(m, coins, k + |flips|)
      decreases m.depth
    {
      hide Follows, PTree.Chosen;
      flips := [];
      if n != m {
        var p := m.parent;
        assert Shaped(m);
        var before := FlipsTo(n, p);
        flips := if p.left != null && p.right != null then before + [m == p.left] else before;
        forall coins: nat -> bool, k: nat | Follows(coins, k, flips)
          ensures Chosen(n, coins, k) == Chosen(m, coins, k + |flips|)
        {
          OneMore(p, m, before, flips, coins, k);
        }
      }
    }

    lemma OneMore(p: PTreeNode, m: PTreeNode, before: seq<bool>, flips: seq<bool>, coins: nat -> bool, k: nat)
      requires Valid() && m in nodes && p in nodes && m.parent == p && Follows(coins, k, flips)
      requires flips == if p.left != null && p.right != null then before + [m == p.left] else before
      ensures Follows(coins, k, before) && Chosen(p, coins, k + |before|) == Chosen(m, coins, k + |flips|)
    {
      hide Follows, PTree.Chosen, PTree.Shaped, PTree.Settled, PTree.TreeBut;
      if p.left != null && p.right != null {
        FollowsPrefix(coins, k, flips, |before|);
        assert flips[..|before|] == before && flips[|before|] == (m == p.left);
        ByCoin(p, m, coins, k + |before|);
      } else {
        ByNecessity(p, m, coins, k + |before|);
      }
    }

    lemma ByCoin(p: PTreeNode, m: PTreeNode, coins: nat -> bool, k: nat)
      requires Valid() && m in nodes && p in nodes && m.parent == p && p.left != null && p.right != null
      requires coins(k) <==> m == p.left
      ensures Chosen(p, coins, k) == Chosen(m, coins, k + 1)
    {
    }

    lemma ByNecessity(p: PTreeNode, m: PTreeNode, coins: nat -> bool, k: nat)
      requires Valid() && m in nodes && p in nodes && m.parent == p && (p.left == null || p.right == null)
      ensures Chosen(p, coins, k) == Chosen(m, coins, k)
    {
    }

    /** Every live state is where some sequence of coin flips leads. */
    lemma EveryStateIsReached(s: StateId) returns (coins: nat -> bool)
      requires Valid() && s in leaf
      ensures Chosen(root, coins, 0) == s
    {
      RootIsAbove(leaf[s]);
      var flips := FlipsTo(root, leaf[s]);
      coins := (i: nat) => i < |flips| && flips[i];
      FollowsSeq(coins, 0, flips);
      assert Chosen(root, coins, 0) == Chosen(leaf[s], coins, 0 + |flips|);
    }
  }

  ghost predicate Follows(coins: nat -> bool, k: nat, flips: seq<bool>)
    decreases |flips|
  {
    flips == [] || (coins(k) == flips[0] && Follows(coins, k + 1, flips[1..]))
  }

  lemma {:induction false} FollowsPrefix(coins: nat -> bool, k: nat, flips: seq<bool>, n: nat)
    requires Follows(coins, k, flips) && n <= |flips|
    ensures Follows(coins, k, flips[..n])
    ensures n < |flips| ==> coins(k + n) == flips[n]
    decreases n
  {
    if n > 0 {
      FollowsPrefix(coins, k + 1, flips[1..], n - 1);
      assert flips[..n][1..] == flips[1..][..n - 1];
    }
  }

  lemma {:induction false} FollowsSeq(coins: nat -> bool, k: nat, flips: seq<bool>)
    requires forall i :: 0 <= i < |flips| && k + i >= 0 ==> coins(k + i) == flips[i]
    ensures Follows(coins, k, flips)
    decreases |flips|
  {
    if flips != [] {
      assert coins(k + 0) == flips[0];
      forall i | 0 <= i < |flips[1..]| ensures coins(k + 1 + i) == flips[1..][i] {
        assert coins(k + (i + 1)) == flips[i + 1];
      }
      FollowsSeq(coins, k + 1, flips[1..]);
    }
  }
}
