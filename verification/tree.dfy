/**
 Nodes of the search tree and the utilities that walk them.

 A node holds a board and, unless it is the root, the parent it was expanded
 from and the action that produced it. Depth, the solution path and the cycle
 test all walk the parent links up to the root.
 */
module SearchTree {
  import opened Puzzle

  datatype Node = Root(state: Board) | Child(state: Board, parent: Node, action: Action)

  /** Two nodes are equal when their tiles are, whatever their parents and actions. */
  predicate SameState(a: Node, b: Node)
  {
    a.state.tiles == b.state.tiles
  }

  /** Node equality is an equivalence that ignores the history of a node. */
  lemma SameStateIsEquivalence(a: Node, b: Node, c: Node, p: Node, x: Action)
    ensures SameState(a, a)
    ensures SameState(a, b) ==> SameState(b, a)
    ensures SameState(a, b) && SameState(b, c) ==> SameState(a, c)
    ensures SameState(Child(a.state, p, x), Root(a.state))
  {
  }

  /** Number of parent links between `n` and the root. */
  function Depth(n: Node): nat
  {
    if n.Root? then 0 else 1 + Depth(n.parent)
  }

  /** The node `k` parent links above `n`. */
  function Ancestor(n: Node, k: nat): (a: Node)
    requires k <= Depth(n)
    ensures Depth(a) == Depth(n) - k
    decreases k
  {
    if k == 0 then n else Ancestor(n.parent, k - 1)
  }

  /** The root at the top of `n`'s chain of parents. */
  function TreeRoot(n: Node): (r: Node)
    ensures r.Root? && r == Ancestor(n, Depth(n))
  {
    if n.Root? then n else TreeRoot(n.parent)
  }

  lemma {:induction false} AncestorStep(n: Node, k: nat)
    requires k < Depth(n)
    ensures Ancestor(n, k).Child? && Ancestor(n, k + 1) == Ancestor(n, k).parent
    decreases k
  {
    if k > 0 {
      AncestorStep(n.parent, k - 1);
    }
  }

  /** Some strict ancestor of `n` holds the same tiles as `n`. */
  ghost predicate HasCycle(n: Node)
  {
    exists k :: 1 <= k <= Depth(n) && SameState(Ancestor(n, k), n)
  }

  /** The actions from the root down to `n`, read off the parent links. */
  function PathTo(n: Node): seq<Action>
  {
    if n.Root? then [] else PathTo(n.parent) + [n.action]
  }

  /** The action that produced the ancestor of `n` lying at depth `d`. */
  function ActionAtDepth(n: Node, d: nat): Action
    requires 1 <= d <= Depth(n)
  {
    var a := Ancestor(n, Depth(n) - d);
    assert a.Child?;
    a.action
  }

  /**
   The path has one action per parent link, and its i-th action is the one
   that produced the ancestor at depth i + 1.
   */
  lemma {:induction false} PathListsAncestorActions(n: Node)
    ensures |PathTo(n)| == Depth(n)
    ensures forall i :: 0 <= i < Depth(n) ==> PathTo(n)[i] == ActionAtDepth(n, i + 1)
  {
    if n.Child? {
      PathListsAncestorActions(n.parent);
      forall i | 0 <= i < Depth(n)
        ensures PathTo(n)[i] == ActionAtDepth(n, i + 1)
      {
        assert PathTo(n) == PathTo(n.parent) + [n.action];
        if i < Depth(n.parent) {
          assert PathTo(n.parent)[i] == ActionAtDepth(n.parent, i + 1);
          assert Ancestor(n, Depth(n) - 1 - i) == Ancestor(n.parent, Depth(n.parent) - 1 - i);
        } else {
          assert Ancestor(n, Depth(n) - 1 - i) == n;
        }
      }
    }
  }

  /** Counts parent links by walking up to the root. */
  method ComputeDepth(n: Node) returns (d: nat)
    ensures d == Depth(n)
    ensures d == 0 <==> n.Root?
  {
    d := 0;
    var cur := n;
    while cur.Child?
      invariant d <= Depth(n) && cur == Ancestor(n, d)
      decreases Depth(cur)
    {
      AncestorStep(n, d);
      d := d + 1;
      cur := cur.parent;
    }
  }

  function Reverse<T>(s: seq<T>): (r: seq<T>)
    ensures |r| == |s|
    ensures forall i :: 0 <= i < |s| ==> r[i] == s[|s| - 1 - i]
  {
    if s == [] then [] else Reverse(s[1..]) + [s[0]]
  }

  /**
   Collects the actions on the way up to the root and reverses them: the
   actions from the root down to `n`, one per parent link.
   */
  method FindPath(n: Node) returns (path: seq<Action>)
    ensures |path| == Depth(n)
    ensures forall i :: 0 <= i < |path| ==> path[i] == ActionAtDepth(n, i + 1)
    ensures path == PathTo(n)
  {
    var collected: seq<Action> := [];
    var cur := n;
    while cur.Child?
      invariant |collected| <= Depth(n) && cur == Ancestor(n, |collected|)
      invariant forall j :: 0 <= j < |collected| ==>
        Ancestor(n, j).Child? && collected[j] == Ancestor(n, j).action
      decreases Depth(cur)
    {
      AncestorStep(n, |collected|);
      collected := collected + [cur.action];
      cur := cur.parent;
    }
    path := Reverse(collected);
    PathListsAncestorActions(n);
  }

  /** Walks up the parent links looking for the node's own tiles. */
  method IsCycle(n: Node) returns (c: bool)
    ensures c <==> HasCycle(n)
    ensures n.Root? ==> !c
  {
    var current := n.state.tiles;
    var cur := n;
    ghost var k: nat := 0;
    while cur.Child?
      invariant k <= Depth(n) && cur == Ancestor(n, k)
      invariant forall j :: 1 <= j <= k ==> !SameState(Ancestor(n, j), n)
      decreases Depth(cur)
    {
      AncestorStep(n, k);
      if current == cur.parent.state.tiles {
        assert SameState(Ancestor(n, k + 1), n);
        return true;
      }
      cur := cur.parent;
      k := k + 1;
    }
    return false;
  }

  /** The four children of `n`, one per action, in the order L, R, U, D. */
  function Children(n: Node): (cs: seq<Node>)
    requires Valid(n.state)
    ensures |cs| == |Actions| == 4
    ensures forall i :: 0 <= i < 4 ==>
      && cs[i].Child? && cs[i].parent == n && cs[i].action == Actions[i]
      && cs[i].state == Execute(n.state, Actions[i])
    ensures forall i :: 0 <= i < 4 ==>
      Depth(cs[i]) == Depth(n) + 1 && PathTo(cs[i]) == PathTo(n) + [Actions[i]]
  {
    seq(4, i requires 0 <= i < 4 => Child(Execute(n.state, Actions[i]), n, Actions[i]))
  }

  /** The node reached from `n` by expanding along the actions of `s`. */
  function Extend(n: Node, s: seq<Action>): (m: Node)
    requires Valid(n.state)
    ensures Valid(m.state)
    ensures Depth(m) == Depth(n) + |s|
    decreases |s|
  {
    if s == [] then n
    else
      var p := Extend(n, s[..|s| - 1]);
      assert s == s[..|s| - 1] + [s[|s| - 1]];
      Child(Execute(p.state, s[|s| - 1]), p, s[|s| - 1])
  }

  /** The path of an extension continues the path of the node it extends. */
  lemma {:induction false} ExtendPath(n: Node, s: seq<Action>)
    requires Valid(n.state)
    ensures PathTo(Extend(n, s)) == PathTo(n) + s
    decreases |s|
  {
    if s != [] {
      ExtendPath(n, s[..|s| - 1]);
      assert s == s[..|s| - 1] + [s[|s| - 1]];
    }
  }

  /** Extending a node along `s` reaches the board that replaying `s` gives. */
  lemma {:induction false} ExtendReplays(n: Node, s: seq<Action>)
    requires Valid(n.state)
    ensures Extend(n, s).state == Replay(n.state, s)
    decreases |s|
  {
    if s != [] {
      ExtendReplays(n, s[..|s| - 1]);
    }
  }

  /** Every child was produced from its parent's board by its action. */
  predicate WellBuilt(n: Node)
  {
    match n
    case Root(b) => Valid(b)
    case Child(b, p, a) => WellBuilt(p) && Valid(p.state) && b == Execute(p.state, a)
  }

  lemma ChildrenWellBuilt(n: Node)
    requires WellBuilt(n) && Valid(n.state)
    ensures forall c :: c in Children(n) ==> WellBuilt(c)
  {
  }

  /**
   Replaying the path of a well-built node from its root rebuilds the node:
   the path lists exactly the actions that led from the root to it.
   */
  lemma {:induction false} PathRebuildsNode(n: Node)
    requires WellBuilt(n)
    ensures Valid(TreeRoot(n).state)
    ensures Extend(TreeRoot(n), PathTo(n)) == n
  {
    if n.Child? {
      PathRebuildsNode(n.parent);
      var s := PathTo(n);
      assert s[..|s| - 1] == PathTo(n.parent);
    }
  }

  lemma ExtendParent(root: Node, s: seq<Action>)
    requires Valid(root.state) && |s| > 0
    ensures Extend(root, s).Child? && Extend(root, s).parent == Extend(root, s[..|s| - 1])
  {
  }

  /**
   The ancestors of an extension are the extensions along prefixes: `k` links
   above the extension along `s` lies the extension along its first `i` actions.
   */
  lemma {:induction false} AncestorOfExtend(root: Node, s: seq<Action>, k: nat, i: nat)
    requires Valid(root.state) && k + i == |s|
    ensures Ancestor(Extend(root, s), k) == Extend(root, s[..i])
    decreases k
  {
    if k == 0 {
      assert s[..i] == s;
    } else {
      var s' := s[..|s| - 1];
      ExtendParent(root, s);
      AncestorOfExtend(root, s', k - 1, i);
      assert s'[..i] == s[..i];
    }
  }

  /** A repeated ancestor is a proper prefix of the path that replays to the same board. */
  lemma CycleGivesRepeat(root: Node, s: seq<Action>, k: nat, i: nat)
    requires Valid(root.state) && 1 <= k && k + i == |s|
    requires SameState(Ancestor(Extend(root, s), k), Extend(root, s))
    ensures Replay(root.state, s[..i]) == Replay(root.state, s)
  {
    AncestorOfExtend(root, s, k, i);
    ExtendReplays(root, s);
    ExtendReplays(root, s[..i]);
  }

  /** A proper prefix replaying to the same board is a repeated ancestor. */
  lemma RepeatGivesCycle(root: Node, s: seq<Action>, k: nat, i: nat)
    requires Valid(root.state) && 1 <= k && k + i == |s|
    requires Replay(root.state, s[..i]) == Replay(root.state, s)
    ensures SameState(Ancestor(Extend(root, s), k), Extend(root, s))
  {
    AncestorOfExtend(root, s, k, i);
    ExtendReplays(root, s);
    ExtendReplays(root, s[..i]);
  }

  /**
   Below a root, a node is a cycle exactly when replaying some proper prefix
   of its path already gives the node's board.
   */
  lemma CycleOnExtension(root: Node, s: seq<Action>)
    requires root.Root? && Valid(root.state)
    ensures HasCycle(Extend(root, s)) <==>
      exists i :: 0 <= i < |s| && Replay(root.state, s[..i]) == Replay(root.state, s)
  {
    if HasCycle(Extend(root, s)) {
      CycleHasRepeat(root, s);
    }
    if exists i :: 0 <= i < |s| && Replay(root.state, s[..i]) == Replay(root.state, s) {
      RepeatHasCycle(root, s);
    }
  }

  lemma CycleHasRepeat(root: Node, s: seq<Action>)
    requires root.Root? && Valid(root.state) && HasCycle(Extend(root, s))
    ensures exists i :: 0 <= i < |s| && Replay(root.state, s[..i]) == Replay(root.state, s)
  {
    var m := Extend(root, s);
    var k :| 1 <= k <= Depth(m) && SameState(Ancestor(m, k), m);
    CycleGivesRepeat(root, s, k, |s| - k);
  }

  lemma RepeatHasCycle(root: Node, s: seq<Action>)
    requires root.Root? && Valid(root.state)
    requires exists i :: 0 <= i < |s| && Replay(root.state, s[..i]) == Replay(root.state, s)
    ensures HasCycle(Extend(root, s))
  {
    var i :| 0 <= i < |s| && Replay(root.state, s[..i]) == Replay(root.state, s);
    RepeatGivesCycle(root, s, |s| - i, i);
  }
}
