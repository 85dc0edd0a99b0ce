/**
 Iterative deepening: depth-limited search with bounds 0, 1, 2, ... until a
 search does not report a cutoff.

 From a root node, the first bound at which a goal is reached is the length of
 a shortest solution, so the path returned is a shortest one; and a failure
 (no cutoff, no goal) means that no sequence of moves solves the board.
 */
module Deepening {
  import opened Puzzle
  import opened SearchTree
  import opened DepthLimited

  /**
   Runs depth-limited search with bounds 0, 1, 2, ... and returns the first
   result that is not a cutoff. The bounds stop at `maxBound`, where the
   cutoff is returned as it is. The count of a solved result is that of the
   last search alone: four per node in `expanded`, the nodes that search
   expanded.
   */
  method IterativeDeepening(root: Node, maxBound: nat)
    returns (r: Outcome, ghost last: nat, ghost expanded: set<seq<Action>>)
    requires Valid(root.state)
    ensures last <= maxBound && CutoffBelow(root, last)
    ensures Characterises(root, last, r)
    ensures r.Solved? ==> r.expanded == 4 * |expanded|
    ensures forall s :: s in expanded ==> Reached(root, last, s) && Expandable(Extend(root, s), last)
    ensures r.Cutoff? ==> last == maxBound
    ensures IsGoal(root.state.tiles) ==> r == Solved(PathTo(root), 0) && last == 0
    ensures root.Root? && r.Solved? ==> Shortest(root.state, r.path)
    ensures root.Root? ==> (r.Solved? <==> exists t :: |t| <= maxBound && Solves(root.state, t))
    ensures root.Root? && r.Failure? ==> forall t :: !Solves(root.state, t)
  {
    var depth: nat := 0;
    r, expanded := DepthLimitedSearch(root, depth);
    while r.Cutoff? && depth < maxBound
      invariant depth <= maxBound && CutoffBelow(root, depth)
      invariant Characterises(root, depth, r)
      invariant IsGoal(root.state.tiles) ==> r == Solved(PathTo(root), 0) && depth == 0
      invariant r.Solved? ==> r.expanded == 4 * |expanded|
      invariant forall s :: s in expanded ==> Reached(root, depth, s) && Expandable(Extend(root, s), depth)
      decreases maxBound - depth
    {
      CutoffBelowGrows(root, depth);
      depth := depth + 1;
      r, expanded := DepthLimitedSearch(root, depth);
    }
    last := depth;
    if root.Root? {
      DeepeningIsOptimal(root, maxBound, r, last);
    }
  }

  /** Every bound below `depth` was cut off. */
  ghost predicate CutoffBelow(root: Node, depth: nat)
    requires Valid(root.state)
  {
    forall b: nat :: b < depth ==> Characterises(root, b, Cutoff)
  }

  lemma CutoffBelowGrows(root: Node, depth: nat)
    requires Valid(root.state) && CutoffBelow(root, depth)
    requires Characterises(root, depth, Cutoff)
    ensures CutoffBelow(root, depth + 1)
  {
  }

  // ---------------------------------------------------------------------------
  // Shortest solutions.

  /** `t` solves `b` and no solution of `b` is shorter. */
  ghost predicate Shortest(b: Board, t: seq<Action>)
    requires Valid(b)
  {
    Solves(b, t) && forall u :: Solves(b, u) ==> |t| <= |u|
  }

  /** A solvable board has a shortest solution, no longer than any given one. */
  lemma {:induction false} ExistsShortest(b: Board, t: seq<Action>)
    requires Valid(b) && Solves(b, t)
    ensures exists u :: Shortest(b, u) && |u| <= |t|
    decreases |t|
  {
    if !Shortest(b, t) {
      var u :| Solves(b, u) && |u| < |t|;
      ExistsShortest(b, u);
    }
  }

  /**
   Cutting out the moves between two visits of the same board leaves a
   sequence that ends on the same board.
   */
  lemma SpliceReplays(b: Board, t: seq<Action>, i: nat, j: nat)
    requires Valid(b) && i <= j <= |t|
    requires Replay(b, t[..i]) == Replay(b, t[..j])
    ensures Replay(b, t[..i] + t[j..]) == Replay(b, t)
  {
    TakeDrop(t, j);
    SameBoardSameFuture(b, t[..i], t[..j], t[j..]);
  }

  lemma TakeDrop(t: seq<Action>, j: nat)
    requires j <= |t|
    ensures t[..j] + t[j..] == t
  {
  }

  /** Two move sequences reaching the same board continue identically. */
  lemma SameBoardSameFuture(b: Board, p: seq<Action>, m: seq<Action>, q: seq<Action>)
    requires Valid(b) && Replay(b, p) == Replay(b, m)
    ensures Replay(b, p + q) == Replay(b, m + q)
  {
    ReplayAppend(b, p, q);
    ReplayAppend(b, m, q);
  }

  /** Cutting a revisit out of a solution gives a shorter solution. */
  lemma ShorterSolution(b: Board, t: seq<Action>, i: nat, j: nat)
    requires Valid(b) && Solves(b, t) && i < j < |t|
    requires Replay(b, t[..j][..i]) == Replay(b, t[..j])
    ensures Solves(b, t[..i] + t[j..]) && |t[..i] + t[j..]| < |t|
  {
    assert t[..j][..i] == t[..i];
    SpliceReplays(b, t, i, j);
  }

  /**
   Every proper prefix of a shortest solution, below the bound, leads from a
   root to a node that depth-limited search expands.
   */
  lemma ShortestPrefixExpandable(root: Node, t: seq<Action>, bound: nat, j: nat)
    requires root.Root? && Valid(root.state) && Shortest(root.state, t)
    requires j < |t| && j < bound
    ensures Expandable(Extend(root, t[..j]), bound)
  {
    ShortestPrefixNotGoal(root, t, j);
    ShortestPrefixNoCycle(root, t, j);
  }

  /** A proper prefix of a shortest solution does not reach the goal. */
  lemma ShortestPrefixNotGoal(root: Node, t: seq<Action>, j: nat)
    requires root.Root? && Valid(root.state) && Shortest(root.state, t) && j < |t|
    ensures !IsGoal(Extend(root, t[..j]).state.tiles)
  {
    ExtendReplays(root, t[..j]);
    if IsGoal(Extend(root, t[..j]).state.tiles) {
      assert false;
    }
  }

  /** A prefix of a shortest solution never revisits a board. */
  lemma ShortestPrefixNoCycle(root: Node, t: seq<Action>, j: nat)
    requires root.Root? && Valid(root.state) && Shortest(root.state, t) && j < |t|
    ensures !HasCycle(Extend(root, t[..j]))
  {
    var p := t[..j];
    CycleOnExtension(root, p);
    forall i | 0 <= i < |p|
      ensures Replay(root.state, p[..i]) != Replay(root.state, p)
    {
      ShortestHasNoRepeat(root.state, t, i, j);
    }
  }

  /** A shortest solution never comes back to a board it has already been on. */
  lemma ShortestHasNoRepeat(b: Board, t: seq<Action>, i: nat, j: nat)
    requires Valid(b) && Shortest(b, t) && i < j < |t|
    ensures Replay(b, t[..j][..i]) != Replay(b, t[..j])
  {
    if Replay(b, t[..j][..i]) == Replay(b, t[..j]) {
      ShorterSolution(b, t, i, j);
      assert false;
    }
  }

  /** The first `k` moves of a shortest solution lead to a reached node. */
  lemma ShortestPrefixReached(root: Node, t: seq<Action>, bound: nat, k: nat)
    requires root.Root? && Valid(root.state) && Shortest(root.state, t)
    requires k <= |t| && k <= bound
    ensures Reached(root, bound, t[..k])
  {
    var s := t[..k];
    forall j | 0 <= j < |s|
      ensures ExpandableAt(root, bound, s, j)
    {
      assert s[..j] == t[..j];
      ShortestPrefixExpandable(root, t, bound, j);
    }
  }

  /** A shortest solution within the bound is found by depth-limited search. */
  lemma ShortestFoundWithin(root: Node, t: seq<Action>, bound: nat)
    requires root.Root? && Valid(root.state) && Shortest(root.state, t) && |t| <= bound
    ensures GoalWithin(root, bound)
  {
    ShortestPrefixReached(root, t, bound, |t|);
    assert t[..|t|] == t;
    ExtendReplays(root, t);
  }

  /** A shortest solution beyond the bound makes depth-limited search cut off. */
  lemma ShortestBeyondBound(root: Node, t: seq<Action>, bound: nat)
    requires root.Root? && Valid(root.state) && Shortest(root.state, t) && bound < |t|
    ensures HitsBound(root, bound)
  {
    ShortestPrefixReached(root, t, bound, bound);
    assert Depth(Extend(root, t[..bound])) == bound;
  }

  /** Without a reached goal, every solution from a root is longer than the bound. */
  lemma NoSolutionWithin(root: Node, bound: nat, t: seq<Action>)
    requires root.Root? && Valid(root.state) && !GoalWithin(root, bound)
    requires Solves(root.state, t)
    ensures |t| > bound
  {
    ExistsShortest(root.state, t);
    var u :| Shortest(root.state, u) && |u| <= |t|;
    if |t| <= bound {
      ShortestFoundWithin(root, u, bound);
    }
  }

  /** A depth-limited failure from a root means that the board has no solution. */
  lemma FailureMeansUnsolvable(root: Node, bound: nat, t: seq<Action>)
    requires root.Root? && Valid(root.state)
    requires !GoalWithin(root, bound) && !HitsBound(root, bound)
    ensures !Solves(root.state, t)
  {
    if Solves(root.state, t) {
      ExistsShortest(root.state, t);
      var u :| Shortest(root.state, u) && |u| <= |t|;
      if |u| <= bound {
        ShortestFoundWithin(root, u, bound);
      } else {
        ShortestBeyondBound(root, u, bound);
      }
    }
  }

  /** The path of a solved depth-limited search from a root is a solution. */
  lemma SolvedPathSolves(root: Node, bound: nat, path: seq<Action>)
    requires root.Root? && Valid(root.state) && SolutionBelow(root, bound, path)
    ensures Solves(root.state, path) && |path| <= bound
  {
    assert path[Depth(root)..] == path;
  }

  /**
   When every bound before `last` was cut off, the outcome at `last` is
   shortest when solved, and found exactly when some solution fits under
   `maxBound`.
   */
  lemma DeepeningIsOptimal(root: Node, maxBound: nat, r: Outcome, last: nat)
    requires root.Root? && Valid(root.state) && last <= maxBound
    requires CutoffBelow(root, last)
    requires Characterises(root, last, r)
    requires r.Cutoff? ==> last == maxBound
    ensures r.Solved? ==> Shortest(root.state, r.path)
    ensures r.Solved? <==> exists t :: |t| <= maxBound && Solves(root.state, t)
    ensures r.Failure? ==> forall t :: !Solves(root.state, t)
  {
    if r.Solved? {
      SolvedPathSolves(root, last, r.path);
      forall u | Solves(root.state, u)
        ensures |r.path| <= |u|
      {
        if |u| < last {
          assert Characterises(root, |u|, Cutoff);
          NoSolutionWithin(root, |u|, u);
        }
      }
    } else {
      forall t | |t| <= maxBound
        ensures !Solves(root.state, t)
      {
        if r.Cutoff? {
          if Solves(root.state, t) {
            NoSolutionWithin(root, last, t);
          }
        } else {
          FailureMeansUnsolvable(root, last, t);
        }
      }
    }
    if r.Failure? {
      forall t
        ensures !Solves(root.state, t)
      {
        FailureMeansUnsolvable(root, last, t);
      }
    }
  }
}
