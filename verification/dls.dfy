/**
 Depth-limited search over a first-in first-out frontier.

 The frontier starts with the root. A dequeued goal ends the search with its
 path and the number of children generated so far; a node at the depth bound
 records a cutoff; any other node that does not repeat an ancestor's tiles has
 its four children appended. An emptied frontier reports a cutoff if one was
 recorded and a failure otherwise.

 The result is characterised without reference to the queue: a node is
 reached when every proper ancestor below the root passed the expansion test,
 and the search is solved, cut off or failed according to which reached nodes
 exist.
 */
module DepthLimited {
  import opened Puzzle
  import opened SearchTree

  /** The solved 4-by-4 arrangement: "1" to "15" in row-major order, blank last. */
  const GoalTiles: seq<Tile> :=
    ["1", "2", "3", "4", "5", "6", "7", "8", "9", "10", "11", "12", "13", "14", "15", "0"]

  /** The goal test: equality with the 4-by-4 solved list, whatever the board's side. */
  predicate IsGoal(tiles: seq<Tile>)
  {
    tiles == GoalTiles
  }

  /** The goal is a valid 4-by-4 board with its one blank in the last cell. */
  lemma GoalIsFourByFour(b: Board)
    requires IsGoal(b.tiles)
    ensures Valid(b) && Side(b) == 4
    ensures UniqueBlank(b) && BlankIndex(b.tiles) == 15
  {
    GoalBoard();
  }

  lemma GoalBoard()
    ensures Valid(Board(GoalTiles)) && Side(Board(GoalTiles)) == 4
    ensures UniqueBlank(Board(GoalTiles)) && BlankIndex(GoalTiles) == 15
  {
    GoalBlank();
    GoalSide();
  }

  lemma GoalSide()
    ensures Valid(Board(GoalTiles)) && Side(Board(GoalTiles)) == 4
  {
    GoalHasOneBlank();
    ISqrtOfSquare(4);
  }

  lemma GoalBlank()
    ensures UniqueBlank(Board(GoalTiles)) && BlankIndex(GoalTiles) == 15
  {
    GoalHasOneBlank();
    UniqueBlankAt(GoalTiles, 15);
  }

  lemma GoalHasOneBlank()
    ensures |GoalTiles| == 16 == 4 * 4 && GoalTiles[15] == Blank
    ensures forall i :: 0 <= i < |GoalTiles| && i != 15 ==> GoalTiles[i] != Blank
  {
  }

  /** No board of another size passes the goal test. */
  lemma OnlyFourByFourIsGoal(b: Board)
    requires Valid(b) && Side(b) != 4
    ensures !IsGoal(b.tiles)
  {
    if IsGoal(b.tiles) {
      GoalIsFourByFour(b);
    }
  }

  /** Replaying `path` from `b` reaches the goal. */
  ghost predicate Solves(b: Board, path: seq<Action>)
    requires Valid(b)
  {
    IsGoal(Replay(b, path).tiles)
  }

  datatype Outcome = Solved(path: seq<Action>, expanded: nat) | Cutoff | Failure

  /** A dequeued node whose children are enqueued. */
  ghost predicate Expandable(n: Node, bound: nat)
  {
    !IsGoal(n.state.tiles) && Depth(n) < bound && !HasCycle(n)
  }

  /**
   The node below `root` along `s` is reached: every node strictly between
   the root and it (the root included) was expanded.
   */
  ghost predicate Reached(root: Node, bound: nat, s: seq<Action>)
    requires Valid(root.state)
  {
    forall k :: 0 <= k < |s| ==> ExpandableAt(root, bound, s, k)
  }

  /** The node along the first `k` actions of `s` is expanded. */
  ghost predicate ExpandableAt(root: Node, bound: nat, s: seq<Action>, k: nat)
    requires Valid(root.state) && k <= |s|
  {
    Expandable(Extend(root, s[..k]), bound)
  }

  /** The actions leading to the parent of the node that `s` leads to. */
  function DropLast(s: seq<Action>): seq<Action>
    requires s != []
  {
    s[..|s| - 1]
  }

  /** Some reached node is a goal. */
  ghost predicate GoalWithin(root: Node, bound: nat)
    requires Valid(root.state)
  {
    exists s :: Reached(root, bound, s) && IsGoal(Extend(root, s).state.tiles)
  }

  /** Some reached node lies at or below the depth bound. */
  ghost predicate HitsBound(root: Node, bound: nat)
    requires Valid(root.state)
  {
    exists s :: Reached(root, bound, s) && Depth(Extend(root, s)) >= bound
  }

  /**
   `path` is the root's own path followed by the actions of a reached goal,
   at most `bound` of them.
   */
  ghost predicate SolutionBelow(root: Node, bound: nat, path: seq<Action>)
    requires Valid(root.state)
  {
    && Depth(root) <= |path| <= Depth(root) + bound
    && path[..Depth(root)] == PathTo(root)
    && Reached(root, bound, path[Depth(root)..])
    && Solves(root.state, path[Depth(root)..])
  }

  /**
   What a depth-limited search from `root` reports: solved exactly when a
   reached node is a goal (with a solution path within the bound), cut off
   exactly when there is none but some reached node lies at the bound, and
   failed otherwise.
   */
  ghost predicate Characterises(root: Node, bound: nat, r: Outcome)
    requires Valid(root.state)
  {
    && (r.Solved? <==> GoalWithin(root, bound))
    && (r.Cutoff? <==> !GoalWithin(root, bound) && HitsBound(root, bound))
    && (r.Failure? <==> !GoalWithin(root, bound) && !HitsBound(root, bound))
    && (r.Solved? ==> SolutionBelow(root, bound, r.path))
  }

  // ---------------------------------------------------------------------------
  // Facts about reached nodes.

  lemma ReachedBounded(root: Node, bound: nat, s: seq<Action>)
    requires Valid(root.state) && Reached(root, bound, s) && s != []
    ensures Depth(root) + |s| <= bound
  {
    assert ExpandableAt(root, bound, s, |s| - 1);
  }

  lemma ReachedChild(root: Node, bound: nat, h: seq<Action>, a: Action)
    requires Valid(root.state) && Reached(root, bound, h)
    requires Expandable(Extend(root, h), bound)
    ensures Reached(root, bound, h + [a])
  {
    var s := h + [a];
    forall k | 0 <= k < |s|
      ensures ExpandableAt(root, bound, s, k)
    {
      if k < |h| {
        assert s[..k] == h[..k];
        assert ExpandableAt(root, bound, h, k);
      } else {
        assert s[..k] == h;
      }
    }
  }

  /** A reached strict extension of `h` passes through an expanded `h`. */
  lemma ReachedThrough(root: Node, bound: nat, h: seq<Action>, s: seq<Action>)
    requires Valid(root.state) && Reached(root, bound, s)
    requires h <= s && |h| < |s|
    ensures Expandable(Extend(root, h), bound)
  {
    assert s[..|h|] == h;
    assert ExpandableAt(root, bound, s, |h|);
  }

  lemma ExtendChild(root: Node, h: seq<Action>, i: nat)
    requires Valid(root.state) && i < 4
    ensures Children(Extend(root, h))[i] == Extend(root, h + [Actions[i]])
  {
    var s := h + [Actions[i]];
    assert s[..|s| - 1] == h;
  }

  // ---------------------------------------------------------------------------
  // Termination: a node below the bound weighs more than its four children.

  function Pow5(k: nat): (p: nat)
    ensures p >= 1
  {
    if k == 0 then 1 else 5 * Pow5(k - 1)
  }

  function NodeWeight(n: Node, bound: nat): nat
  {
    if Depth(n) < bound then Pow5(bound - Depth(n)) else 1
  }

  function Weight(q: seq<Node>, bound: nat): nat
  {
    if q == [] then 0 else NodeWeight(q[0], bound) + Weight(q[1..], bound)
  }

  lemma {:induction false} WeightAppend(a: seq<Node>, b: seq<Node>, bound: nat)
    ensures Weight(a + b, bound) == Weight(a, bound) + Weight(b, bound)
  {
    if a == [] {
      assert a + b == b;
    } else {
      assert (a + b)[0] == a[0];
      assert (a + b)[1..] == a[1..] + b;
      WeightAppend(a[1..], b, bound);
    }
  }

  lemma WeightOfFour(q: seq<Node>, bound: nat, w: nat)
    requires |q| == 4 && forall i :: 0 <= i < 4 ==> NodeWeight(q[i], bound) == w
    ensures Weight(q, bound) == 4 * w
  {
    assert q[1..][1..][1..][1..] == [];
    assert Weight(q[1..][1..][1..], bound) == w;
    assert Weight(q[1..][1..], bound) == 2 * w;
    assert Weight(q[1..], bound) == 3 * w;
  }

  lemma ChildrenWeighLess(n: Node, bound: nat)
    requires Valid(n.state) && Depth(n) < bound
    ensures Weight(Children(n), bound) < NodeWeight(n, bound)
  {
    var cs := Children(n);
    var w := Pow5(bound - Depth(n) - 1);
    assert forall i :: 0 <= i < 4 ==> Depth(cs[i]) == Depth(n) + 1;
    WeightOfFour(cs, bound, w);
  }

  /** Replacing the head of the frontier by its children makes the frontier lighter. */
  lemma ExpansionWeighsLess(frontier: seq<Node>, bound: nat)
    requires |frontier| > 0 && Valid(frontier[0].state) && Depth(frontier[0]) < bound
    ensures Weight(frontier[1..] + Children(frontier[0]), bound) < Weight(frontier, bound)
  {
    ChildrenWeighLess(frontier[0], bound);
    WeightAppend(frontier[1..], Children(frontier[0]), bound);
  }

  // ---------------------------------------------------------------------------
  // The loop invariant and its maintenance.
  //
  // The frontier's nodes are named by their actions below the root (`sfxs`);
  // `processed` holds the names of dequeued nodes and `expanded` those whose
  // children were enqueued. Each part of the invariant has its own predicate
  // and its own maintenance lemmas.

  /** The frontier holds the nodes named by `sfxs`, each of them reached. */
  ghost predicate Named(root: Node, bound: nat, frontier: seq<Node>, sfxs: seq<seq<Action>>)
    requires Valid(root.state)
  {
    && |sfxs| == |frontier|
    && (forall i :: 0 <= i < |sfxs| ==> frontier[i] == Extend(root, sfxs[i]))
    && (forall i :: 0 <= i < |sfxs| ==> Reached(root, bound, sfxs[i]))
  }

  /** Every dequeued node was reached and is not a goal. */
  ghost predicate ProcessedReached(root: Node, bound: nat, processed: set<seq<Action>>)
    requires Valid(root.state)
  {
    forall s :: s in processed ==> Reached(root, bound, s) && !IsGoal(Extend(root, s).state.tiles)
  }

  /** A cutoff is recorded exactly when a dequeued node lay at or below the bound. */
  ghost predicate CutoffRecorded(root: Node, bound: nat, processed: set<seq<Action>>, result: Outcome)
    requires Valid(root.state)
  {
    && (result == Cutoff || result == Failure)
    && (result == Cutoff <==> exists s :: s in processed && Depth(Extend(root, s)) >= bound)
  }

  /** Every reached node was dequeued or lies below a frontier node. */
  ghost predicate Covered(root: Node, bound: nat, sfxs: seq<seq<Action>>, processed: set<seq<Action>>)
    requires Valid(root.state)
  {
    forall s :: Reached(root, bound, s) ==>
      s in processed || exists i :: 0 <= i < |sfxs| && sfxs[i] <= s
  }

  /**
   The frontier's names are distinct and not yet dequeued, and the parent of
   every dequeued or queued node was dequeued.
   */
  ghost predicate Fresh(sfxs: seq<seq<Action>>, processed: set<seq<Action>>)
  {
    && (forall i, j :: 0 <= i < j < |sfxs| ==> sfxs[i] != sfxs[j])
    && (forall i :: 0 <= i < |sfxs| ==> sfxs[i] !in processed)
    && (forall s {:trigger DropLast(s)} :: s in processed && s != [] ==> DropLast(s) in processed)
    && (forall i :: 0 <= i < |sfxs| && sfxs[i] != [] ==> DropLast(sfxs[i]) in processed)
  }

  /** The expanded nodes are the dequeued ones that pass the test, four children each. */
  ghost predicate Counted(root: Node, bound: nat, processed: set<seq<Action>>,
                          expanded: set<seq<Action>>, count: nat)
    requires Valid(root.state)
  {
    && expanded <= processed
    && (forall s :: s in processed ==> (s in expanded <==> Expandable(Extend(root, s), bound)))
    && count == 4 * |expanded|
  }

  ghost predicate Inv(root: Node, bound: nat, frontier: seq<Node>, sfxs: seq<seq<Action>>,
                      processed: set<seq<Action>>, expanded: set<seq<Action>>,
                      result: Outcome, count: nat)
    requires Valid(root.state)
  {
    && Named(root, bound, frontier, sfxs)
    && ProcessedReached(root, bound, processed)
    && CutoffRecorded(root, bound, processed, result)
    && Covered(root, bound, sfxs, processed)
    && Fresh(sfxs, processed)
    && Counted(root, bound, processed, expanded, count)
    && (IsGoal(root.state.tiles) ==> sfxs == [[]] && processed == {})
  }

  lemma InvInit(root: Node, bound: nat)
    requires Valid(root.state)
    ensures Inv(root, bound, [root], [[]], {}, {}, Failure, 0)
  {
    forall s | Reached(root, bound, s)
      ensures exists i :: 0 <= i < 1 && [[]][i] <= s
    {
      assert [[]][0] <= s;
    }
  }

  lemma NamedDrop(root: Node, bound: nat, frontier: seq<Node>, sfxs: seq<seq<Action>>)
    requires Valid(root.state) && |frontier| > 0 && Named(root, bound, frontier, sfxs)
    ensures Named(root, bound, frontier[1..], sfxs[1..])
  {
    assert forall i :: 0 <= i < |sfxs[1..]| ==> sfxs[1..][i] == sfxs[i + 1];
  }

  lemma ProcessedAdd(root: Node, bound: nat, processed: set<seq<Action>>, h: seq<Action>)
    requires Valid(root.state) && ProcessedReached(root, bound, processed)
    requires Reached(root, bound, h) && !IsGoal(Extend(root, h).state.tiles)
    ensures ProcessedReached(root, bound, processed + {h})
  {
  }

  /** Dequeuing `h` records a cutoff exactly when `h` lies at or below the bound. */
  lemma CutoffAdd(root: Node, bound: nat, processed: set<seq<Action>>, result: Outcome, h: seq<Action>)
    requires Valid(root.state) && CutoffRecorded(root, bound, processed, result)
    ensures var result' := if Depth(Extend(root, h)) >= bound then Cutoff else result;
      CutoffRecorded(root, bound, processed + {h}, result')
  {
    var processed' := processed + {h};
    if Depth(Extend(root, h)) >= bound {
      assert h in processed';
    } else {
      assert (exists s :: s in processed' && Depth(Extend(root, s)) >= bound) ==>
             (exists s :: s in processed && Depth(Extend(root, s)) >= bound);
    }
  }

  lemma CountedSkip(root: Node, bound: nat, processed: set<seq<Action>>,
                    expanded: set<seq<Action>>, count: nat, h: seq<Action>)
    requires Valid(root.state) && Counted(root, bound, processed, expanded, count)
    requires !Expandable(Extend(root, h), bound)
    ensures Counted(root, bound, processed + {h}, expanded, count)
  {
  }

  lemma CountedExpand(root: Node, bound: nat, processed: set<seq<Action>>,
                      expanded: set<seq<Action>>, count: nat, h: seq<Action>)
    requires Valid(root.state) && Counted(root, bound, processed, expanded, count)
    requires h !in processed && Expandable(Extend(root, h), bound)
    ensures Counted(root, bound, processed + {h}, expanded + {h}, count + 4)
  {
    assert h !in expanded;
    assert |expanded + {h}| == |expanded| + 1;
  }

  lemma CoveredSkip(root: Node, bound: nat, sfxs: seq<seq<Action>>, processed: set<seq<Action>>)
    requires Valid(root.state) && |sfxs| > 0 && Covered(root, bound, sfxs, processed)
    requires !Expandable(Extend(root, sfxs[0]), bound)
    ensures Covered(root, bound, sfxs[1..], processed + {sfxs[0]})
  {
    var h := sfxs[0];
    forall s | Reached(root, bound, s)
      ensures s in processed + {h} || exists i :: 0 <= i < |sfxs[1..]| && sfxs[1..][i] <= s
    {
      if s !in processed {
        var i :| 0 <= i < |sfxs| && sfxs[i] <= s;
        if i > 0 {
          assert sfxs[1..][i - 1] <= s;
        } else if |h| < |s| {
          ReachedThrough(root, bound, h, s);
        } else {
          assert s == h;
        }
      }
    }
  }

  lemma FreshSkip(sfxs: seq<seq<Action>>, processed: set<seq<Action>>)
    requires |sfxs| > 0 && Fresh(sfxs, processed)
    ensures Fresh(sfxs[1..], processed + {sfxs[0]})
  {
    var processed' := processed + {sfxs[0]};
    forall s | s in processed' && s != []
      ensures DropLast(s) in processed'
    {
      if s == sfxs[0] {
        assert sfxs[0] != [] ==> DropLast(sfxs[0]) in processed;
      }
    }
    forall i | 0 <= i < |sfxs[1..]|
      ensures sfxs[1..][i] !in processed'
    {
      assert sfxs[1..][i] == sfxs[i + 1];
    }
  }

  /** Dequeuing a node that is not expanded (it is at the bound or a cycle). */
  lemma InvSkip(root: Node, bound: nat, frontier: seq<Node>, sfxs: seq<seq<Action>>,
                processed: set<seq<Action>>, expanded: set<seq<Action>>,
                result: Outcome, count: nat)
    requires Valid(root.state)
    requires Inv(root, bound, frontier, sfxs, processed, expanded, result, count)
    requires |frontier| > 0 && !IsGoal(frontier[0].state.tiles)
    requires !Expandable(frontier[0], bound)
    ensures var result' := if Depth(frontier[0]) >= bound then Cutoff else result;
      Inv(root, bound, frontier[1..], sfxs[1..], processed + {sfxs[0]}, expanded, result', count)
  {
    var h := sfxs[0];
    NamedDrop(root, bound, frontier, sfxs);
    ProcessedAdd(root, bound, processed, h);
    CutoffAdd(root, bound, processed, result, h);
    CoveredSkip(root, bound, sfxs, processed);
    FreshSkip(sfxs, processed);
    CountedSkip(root, bound, processed, expanded, count, h);
  }

  lemma CoveredExpand(root: Node, bound: nat, sfxs: seq<seq<Action>>, processed: set<seq<Action>>)
    requires Valid(root.state) && |sfxs| > 0 && Covered(root, bound, sfxs, processed)
    ensures var h := sfxs[0];
      Covered(root, bound, sfxs[1..] + [h + [L], h + [R], h + [U], h + [D]], processed + {h})
  {
    var h := sfxs[0];
    var kids := [h + [L], h + [R], h + [U], h + [D]];
    var sfxs' := sfxs[1..] + kids;
    var n := |sfxs| - 1;
    forall s | Reached(root, bound, s)
      ensures s in processed + {h} || exists i :: 0 <= i < |sfxs'| && sfxs'[i] <= s
    {
      if s !in processed {
        var i :| 0 <= i < |sfxs| && sfxs[i] <= s;
        if i > 0 {
          assert sfxs'[i - 1] == sfxs[i];
          assert sfxs'[i - 1] <= s;
        } else if |h| < |s| {
          var a := s[|h|];
          var j := if a == L then 0 else if a == R then 1 else if a == U then 2 else 3;
          assert s[..|h| + 1] == h + [a];
          assert sfxs'[n + j] == kids[j] == h + [a];
          assert sfxs'[n + j] <= s;
        } else {
          assert s == h;
        }
      }
    }
  }

  lemma FreshExpand(sfxs: seq<seq<Action>>, processed: set<seq<Action>>)
    requires |sfxs| > 0 && Fresh(sfxs, processed)
    ensures var h := sfxs[0];
      Fresh(sfxs[1..] + [h + [L], h + [R], h + [U], h + [D]], processed + {h})
  {
    var h := sfxs[0];
    var kids := [h + [L], h + [R], h + [U], h + [D]];
    var sfxs' := sfxs[1..] + kids;
    var processed' := processed + {h};
    var n := |sfxs| - 1;
    assert forall j :: 0 <= j < 4 ==> kids[j] != [] && DropLast(kids[j]) == h;
    assert forall i :: 0 <= i < n ==> sfxs'[i] == sfxs[i + 1];
    assert forall j :: 0 <= j < 4 ==> sfxs'[n + j] == kids[j];
    forall i, j | 0 <= i < j < |sfxs'|
      ensures sfxs'[i] != sfxs'[j]
    {
      if i < n && j >= n {
        assert DropLast(sfxs'[j]) == h;
      }
    }
    forall i | 0 <= i < |sfxs'|
      ensures sfxs'[i] !in processed'
    {
      if i >= n {
        assert DropLast(sfxs'[i]) == h;
        assert |sfxs'[i]| == |h| + 1;
      }
    }
    forall s | s in processed' && s != []
      ensures DropLast(s) in processed'
    {
      if s == h {
        assert h != [] ==> DropLast(sfxs[0]) in processed;
      }
    }
  }

  lemma NamedExpand(root: Node, bound: nat, frontier: seq<Node>, sfxs: seq<seq<Action>>)
    requires Valid(root.state) && |frontier| > 0 && Named(root, bound, frontier, sfxs)
    requires Expandable(frontier[0], bound)
    ensures var h := sfxs[0];
      Named(root, bound, frontier[1..] + Children(frontier[0]),
            sfxs[1..] + [h + [L], h + [R], h + [U], h + [D]])
  {
    var h := sfxs[0];
    var kids := [h + [L], h + [R], h + [U], h + [D]];
    var frontier' := frontier[1..] + Children(frontier[0]);
    var sfxs' := sfxs[1..] + kids;
    var n := |sfxs| - 1;
    forall i | 0 <= i < |sfxs'|
      ensures frontier'[i] == Extend(root, sfxs'[i]) && Reached(root, bound, sfxs'[i])
    {
      if i < n {
        assert frontier'[i] == frontier[i + 1] && sfxs'[i] == sfxs[i + 1];
      } else {
        var j := i - n;
        assert frontier'[i] == Children(frontier[0])[j];
        assert sfxs'[i] == kids[j] == h + [Actions[j]];
        ExtendChild(root, h, j);
        ReachedChild(root, bound, h, Actions[j]);
      }
    }
  }

  /** Dequeuing a node whose four children are appended to the frontier. */
  lemma InvExpand(root: Node, bound: nat, frontier: seq<Node>, sfxs: seq<seq<Action>>,
                  processed: set<seq<Action>>, expanded: set<seq<Action>>,
                  result: Outcome, count: nat)
    requires Valid(root.state)
    requires Inv(root, bound, frontier, sfxs, processed, expanded, result, count)
    requires |frontier| > 0 && Expandable(frontier[0], bound)
    ensures var h := sfxs[0];
      Inv(root, bound, frontier[1..] + Children(frontier[0]),
          sfxs[1..] + [h + [L], h + [R], h + [U], h + [D]],
          processed + {h}, expanded + {h}, result, count + 4)
  {
    var h := sfxs[0];
    NamedExpand(root, bound, frontier, sfxs);
    ProcessedAdd(root, bound, processed, h);
    CutoffAdd(root, bound, processed, result, h);
    CoveredExpand(root, bound, sfxs, processed);
    FreshExpand(sfxs, processed);
    CountedExpand(root, bound, processed, expanded, count, h);
  }

  /** With the frontier exhausted, every reached node was dequeued. */
  lemma InvExhausted(root: Node, bound: nat, processed: set<seq<Action>>, expanded: set<seq<Action>>,
                     result: Outcome, count: nat)
    requires Valid(root.state)
    requires Inv(root, bound, [], [], processed, expanded, result, count)
    ensures Characterises(root, bound, result)
    ensures result == Cutoff || result == Failure
    ensures forall s :: s in expanded ==> Reached(root, bound, s) && Expandable(Extend(root, s), bound)
    ensures !IsGoal(root.state.tiles)
  {
  }

  // ---------------------------------------------------------------------------
  // The search.

  /**
   Runs depth-limited search from `root` with the given bound. `expanded`
   names the nodes whose children were generated, so a solved search reports
   four generated children per expanded node.
   */
  method DepthLimitedSearch(root: Node, bound: nat) returns (r: Outcome, ghost expanded: set<seq<Action>>)
    requires Valid(root.state)
    ensures Characterises(root, bound, r)
    ensures r.Solved? ==> r.expanded == 4 * |expanded|
    ensures forall s :: s in expanded ==> Reached(root, bound, s) && Expandable(Extend(root, s), bound)
    ensures IsGoal(root.state.tiles) ==> r == Solved(PathTo(root), 0)
  {
    var frontier := [root];
    var result := Failure;
    var nodesExpanded: nat := 0;
    ghost var sfxs: seq<seq<Action>> := [[]];
    ghost var processed: set<seq<Action>> := {};
    expanded := {};
    InvInit(root, bound);

    while |frontier| > 0
      invariant Inv(root, bound, frontier, sfxs, processed, expanded, result, nodesExpanded)
      decreases Weight(frontier, bound)
    {
      var cur := frontier[0];
      ghost var h := sfxs[0];

      if IsGoal(cur.state.tiles) {
        var path := FindPath(cur);
        GoalDequeued(root, bound, frontier, sfxs, processed, expanded, result, nodesExpanded);
        return Solved(path, nodesExpanded), expanded;
      }

      var d := ComputeDepth(cur);
      if d >= bound {
        InvSkip(root, bound, frontier, sfxs, processed, expanded, result, nodesExpanded);
        result := Cutoff;
        frontier := frontier[1..];
        sfxs := sfxs[1..];
        processed := processed + {h};
      } else {
        var cycle := IsCycle(cur);
        if !cycle {
          var children := Children(cur);
          InvExpand(root, bound, frontier, sfxs, processed, expanded, result, nodesExpanded);
          ExpansionWeighsLess(frontier, bound);
          nodesExpanded := nodesExpanded + |children|;
          frontier := frontier[1..] + children;
          sfxs := sfxs[1..] + [h + [L], h + [R], h + [U], h + [D]];
          processed := processed + {h};
          expanded := expanded + {h};
        } else {
          InvSkip(root, bound, frontier, sfxs, processed, expanded, result, nodesExpanded);
          frontier := frontier[1..];
          sfxs := sfxs[1..];
          processed := processed + {h};
        }
      }
    }
    InvExhausted(root, bound, processed, expanded, result, nodesExpanded);
    return result, expanded;
  }

  /** A dequeued goal ends the search with everything the search promises. */
  lemma GoalDequeued(root: Node, bound: nat, frontier: seq<Node>, sfxs: seq<seq<Action>>,
                     processed: set<seq<Action>>, expanded: set<seq<Action>>,
                     result: Outcome, count: nat)
    requires Valid(root.state)
    requires Inv(root, bound, frontier, sfxs, processed, expanded, result, count)
    requires |frontier| > 0 && IsGoal(frontier[0].state.tiles)
    ensures Characterises(root, bound, Solved(PathTo(frontier[0]), count))
    ensures count == 4 * |expanded|
    ensures forall s :: s in expanded ==> Reached(root, bound, s) && Expandable(Extend(root, s), bound)
    ensures IsGoal(root.state.tiles) ==> PathTo(frontier[0]) == PathTo(root) && count == 0
  {
    var h := sfxs[0];
    assert frontier[0] == Extend(root, h);
    SolvedHere(root, bound, h);
    if IsGoal(root.state.tiles) {
      assert h == [];
    }
  }

  /** A reached goal yields the root's path followed by a solution within the bound. */
  lemma SolvedHere(root: Node, bound: nat, h: seq<Action>)
    requires Valid(root.state) && Reached(root, bound, h) && IsGoal(Extend(root, h).state.tiles)
    ensures GoalWithin(root, bound)
    ensures SolutionBelow(root, bound, PathTo(Extend(root, h)))
  {
    var path := PathTo(Extend(root, h));
    ExtendPath(root, h);
    PathListsAncestorActions(root);
    assert path == PathTo(root) + h;
    assert path[..Depth(root)] == PathTo(root);
    assert path[Depth(root)..] == h;
    ExtendReplays(root, h);
    if h != [] {
      ReachedBounded(root, bound, h);
    }
  }
}
