/**
 The five boards listed with their solving move strings at the end of
 search.py: each listed move string, replayed from its board, ends on the
 goal arrangement.

 A board is written as the goal's tile numbers: cell `i` of `Arranged(p)`
 holds the goal's tile `p[i]`, so the blank is wherever `p` holds 15. Each
 move is checked on its own by `Advance`, and a case chains its moves.
 */
module DocumentedCases {
  import opened Puzzle
  import opened DepthLimited

  /** A board of sixteen tiles whose first blank is at `e` is a valid 4-by-4 board. */
  lemma FourByFour(b: Board, e: nat)
    requires |b.tiles| == 16 && e < 16 && b.tiles[e] == Blank
    requires forall i :: 0 <= i < e ==> b.tiles[i] != Blank
    ensures Valid(b) && Side(b) == 4 && BlankIndex(b.tiles) == e
  {
    FirstBlankAt(b.tiles, e);
    ISqrtOfSquare(4);
  }

  /**
   On a 4-by-4 board with its first blank at `e`, a move that stays on the
   grid swaps the blank with the tile one cell away in that direction.
   */
  lemma Slide(b: Board, a: Action, e: nat)
    requires |b.tiles| == 16 && e < 16 && b.tiles[e] == Blank
    requires forall i :: 0 <= i < e ==> b.tiles[i] != Blank
    requires 0 <= e / 4 + DRow(a) < 4 && 0 <= e % 4 + DCol(a) < 4
    ensures var t := e + 4 * DRow(a) + DCol(a);
      && Valid(b) && 0 <= t < 16
      && Execute(b, a) == Board(b.tiles[t := Blank][e := b.tiles[t]])
  {
    FourByFour(b, e);
    GuardIsOnGrid(b, a);
    MoveLaw(b, a);
    var t := e + 4 * DRow(a) + DCol(a);
    assert Neighbour(b, a) == t;
    var r := Execute(b, a);
    assert r.tiles == b.tiles[t := Blank][e := b.tiles[t]];
  }

  /** The board whose cell `i` holds the goal's tile number `p[i]` (taken modulo 16). */
  function Arranged(p: seq<nat>): (b: Board)
    ensures |b.tiles| == |p|
    ensures forall i :: 0 <= i < |p| ==> b.tiles[i] == GoalTiles[p[i] % 16]
  {
    Board(seq(|p|, i requires 0 <= i < |p| => GoalTiles[p[i] % 16]))
  }

  /** The goal's own numbering arranges the goal. */
  lemma GoalArranged(p: seq<nat>)
    requires p == [0, 1, 2, 3, 4, 5, 6, 7, 8, 9, 10, 11, 12, 13, 14, 15]
    ensures Arranged(p) == Board(GoalTiles)
  {
  }

  /**
   Moving the blank of `Arranged(p)`, found first at `e`, by `path[k]` gives
   `Arranged(q)`, where `q` swaps the numbers at the blank and its neighbour;
   so replaying the rest of the path from either board ends in the same place.
   */
  lemma Advance(p: seq<nat>, path: seq<Action>, k: nat, e: nat, q: seq<nat>)
    requires |p| == 16 && k < |path| && e < 16 && p[e] == 15
    requires forall i :: 0 <= i < e ==> p[i] % 16 != 15
    requires 0 <= e / 4 + DRow(path[k]) < 4 && 0 <= e % 4 + DCol(path[k]) < 4
    requires var t := e + 4 * DRow(path[k]) + DCol(path[k]); q == p[t := 15][e := p[t]]
    ensures Valid(Arranged(p))
    ensures Replay(Arranged(p), path[k..]) == Replay(Arranged(q), path[k + 1..])
  {
    GoalHasOneBlank();
    var b, a := Arranged(p), path[k];
    Slide(b, a, e);
    ArrangedSwap(p, e, e + 4 * DRow(a) + DCol(a), q);
    ReplayFrom(b, path, k);
  }

  /** Swapping two numbers of `p`, one of them the blank's, swaps the two tiles. */
  lemma ArrangedSwap(p: seq<nat>, e: nat, t: nat, q: seq<nat>)
    requires |p| == 16 && e < 16 && t < 16 && p[e] == 15 && q == p[t := 15][e := p[t]]
    ensures Arranged(p).tiles[t := Blank][e := Arranged(p).tiles[t]] == Arranged(q).tiles
  {
    GoalHasOneBlank();
  }

  /** Replaying from position `k` is taking move `k`, then replaying from `k + 1`. */
  lemma ReplayFrom(b: Board, path: seq<Action>, k: nat)
    requires Valid(b) && k < |path|
    ensures Replay(b, path[k..]) == Replay(Execute(b, path[k]), path[k + 1..])
  {
    ReplayAppend(b, [path[k]], path[k + 1..]);
    assert [path[k]] + path[k + 1..] == path[k..];
  }

  const Path1: seq<Action> := [D, R, D, R, D]

  /** Case 1 as goal tile numbers: the board before each move, then the goal. */
  const Cells1: seq<seq<nat>> := [
    [0, 15, 2, 3, 4, 1, 5, 7, 8, 9, 6, 10, 12, 13, 14, 11],
    [0, 1, 2, 3, 4, 15, 5, 7, 8, 9, 6, 10, 12, 13, 14, 11],
    [0, 1, 2, 3, 4, 5, 15, 7, 8, 9, 6, 10, 12, 13, 14, 11],
    [0, 1, 2, 3, 4, 5, 6, 7, 8, 9, 15, 10, 12, 13, 14, 11],
    [0, 1, 2, 3, 4, 5, 6, 7, 8, 9, 10, 15, 12, 13, 14, 11],
    [0, 1, 2, 3, 4, 5, 6, 7, 8, 9, 10, 11, 12, 13, 14, 15]
  ]

  /** The board of case 1, written as tile numbers of the goal arrangement. */
  lemma Start1()
    ensures Arranged(Cells1[0]) == Board(["1", "0", "3", "4", "5", "2", "6", "8", "9", "10", "7", "11", "13", "14", "15", "12"])
  {
  }

  lemma Case1Move0()
    ensures Valid(Arranged(Cells1[0]))
    ensures Replay(Arranged(Cells1[0]), Path1[0..]) == Replay(Arranged(Cells1[1]), Path1[1..])
  {
    Advance(Cells1[0], Path1, 0, 1, Cells1[1]);
  }

  lemma Case1Move1()
    ensures Valid(Arranged(Cells1[1]))
    ensures Replay(Arranged(Cells1[1]), Path1[1..]) == Replay(Arranged(Cells1[2]), Path1[2..])
  {
    Advance(Cells1[1], Path1, 1, 5, Cells1[2]);
  }

  lemma Case1Move2()
    ensures Valid(Arranged(Cells1[2]))
    ensures Replay(Arranged(Cells1[2]), Path1[2..]) == Replay(Arranged(Cells1[3]), Path1[3..])
  {
    Advance(Cells1[2], Path1, 2, 6, Cells1[3]);
  }

  lemma Case1Move3()
    ensures Valid(Arranged(Cells1[3]))
    ensures Replay(Arranged(Cells1[3]), Path1[3..]) == Replay(Arranged(Cells1[4]), Path1[4..])
  {
    Advance(Cells1[3], Path1, 3, 10, Cells1[4]);
  }

  lemma Case1Move4()
    ensures Valid(Arranged(Cells1[4]))
    ensures Replay(Arranged(Cells1[4]), Path1[4..]) == Replay(Arranged(Cells1[5]), Path1[5..])
  {
    Advance(Cells1[4], Path1, 4, 11, Cells1[5]);
  }

  /** `1 0 3 4 5 2 6 8 9 10 7 11 13 14 15 12 | D R D R D`: the listed moves solve the listed board. */
  lemma Case1()
    ensures Valid(Board(["1", "0", "3", "4", "5", "2", "6", "8", "9", "10", "7", "11", "13", "14", "15", "12"]))
    ensures Solves(Board(["1", "0", "3", "4", "5", "2", "6", "8", "9", "10", "7", "11", "13", "14", "15", "12"]), [D, R, D, R, D])
  {
    Start1();
    Case1Move0();
    Case1Move1();
    Case1Move2();
    Case1Move3();
    Case1Move4();
    assert Path1[0..] == Path1;
    assert Path1[5..] == [];
    GoalArranged(Cells1[5]);
  }

  const Path2: seq<Action> := [L, D, L, D, R, R]

  /** Case 2 as goal tile numbers: the board before each move, then the goal. */
  const Cells2: seq<seq<nat>> := [
    [0, 1, 2, 3, 4, 5, 7, 15, 8, 10, 6, 11, 12, 9, 13, 14],
    [0, 1, 2, 3, 4, 5, 15, 7, 8, 10, 6, 11, 12, 9, 13, 14],
    [0, 1, 2, 3, 4, 5, 6, 7, 8, 10, 15, 11, 12, 9, 13, 14],
    [0, 1, 2, 3, 4, 5, 6, 7, 8, 15, 10, 11, 12, 9, 13, 14],
    [0, 1, 2, 3, 4, 5, 6, 7, 8, 9, 10, 11, 12, 15, 13, 14],
    [0, 1, 2, 3, 4, 5, 6, 7, 8, 9, 10, 11, 12, 13, 15, 14],
    [0, 1, 2, 3, 4, 5, 6, 7, 8, 9, 10, 11, 12, 13, 14, 15]
  ]

  /** The board of case 2, written as tile numbers of the goal arrangement. */
  lemma Start2()
    ensures Arranged(Cells2[0]) == Board(["1", "2", "3", "4", "5", "6", "8", "0", "9", "11", "7", "12", "13", "10", "14", "15"])
  {
  }

  lemma Case2Move0()
    ensures Valid(Arranged(Cells2[0]))
    ensures Replay(Arranged(Cells2[0]), Path2[0..]) == Replay(Arranged(Cells2[1]), Path2[1..])
  {
    Advance(Cells2[0], Path2, 0, 7, Cells2[1]);
  }

  lemma Case2Move1()
    ensures Valid(Arranged(Cells2[1]))
    ensures Replay(Arranged(Cells2[1]), Path2[1..]) == Replay(Arranged(Cells2[2]), Path2[2..])
  {
    Advance(Cells2[1], Path2, 1, 6, Cells2[2]);
  }

  lemma Case2Move2()
    ensures Valid(Arranged(Cells2[2]))
    ensures Replay(Arranged(Cells2[2]), Path2[2..]) == Replay(Arranged(Cells2[3]), Path2[3..])
  {
    Advance(Cells2[2], Path2, 2, 10, Cells2[3]);
  }

  lemma Case2Move3()
    ensures Valid(Arranged(Cells2[3]))
    ensures Replay(Arranged(Cells2[3]), Path2[3..]) == Replay(Arranged(Cells2[4]), Path2[4..])
  {
    Advance(Cells2[3], Path2, 3, 9, Cells2[4]);
  }

  lemma Case2Move4()
    ensures Valid(Arranged(Cells2[4]))
    ensures Replay(Arranged(Cells2[4]), Path2[4..]) == Replay(Arranged(Cells2[5]), Path2[5..])
  {
    Advance(Cells2[4], Path2, 4, 13, Cells2[5]);
  }

  lemma Case2Move5()
    ensures Valid(Arranged(Cells2[5]))
    ensures Replay(Arranged(Cells2[5]), Path2[5..]) == Replay(Arranged(Cells2[6]), Path2[6..])
  {
    Advance(Cells2[5], Path2, 5, 14, Cells2[6]);
  }

  /** `1 2 3 4 5 6 8 0 9 11 7 12 13 10 14 15 | L D L D R R`: the listed moves solve the listed board. */
  lemma Case2()
    ensures Valid(Board(["1", "2", "3", "4", "5", "6", "8", "0", "9", "11", "7", "12", "13", "10", "14", "15"]))
    ensures Solves(Board(["1", "2", "3", "4", "5", "6", "8", "0", "9", "11", "7", "12", "13", "10", "14", "15"]), [L, D, L, D, R, R])
  {
    Start2();
    Case2Move0();
    Case2Move1();
    Case2Move2();
    Case2Move3();
    Case2Move4();
    Case2Move5();
    assert Path2[0..] == Path2;
    assert Path2[6..] == [];
    GoalArranged(Cells2[6]);
  }

  const Path3: seq<Action> := [R, D, L, D, D, R, R]

  /** Case 3 as goal tile numbers: the board before each move, then the goal. */
  const Cells3: seq<seq<nat>> := [
    [0, 15, 1, 3, 4, 6, 2, 7, 8, 5, 10, 11, 12, 9, 13, 14],
    [0, 1, 15, 3, 4, 6, 2, 7, 8, 5, 10, 11, 12, 9, 13, 14],
    [0, 1, 2, 3, 4, 6, 15, 7, 8, 5, 10, 11, 12, 9, 13, 14],
    [0, 1, 2, 3, 4, 15, 6, 7, 8, 5, 10, 11, 12, 9, 13, 14],
    [0, 1, 2, 3, 4, 5, 6, 7, 8, 15, 10, 11, 12, 9, 13, 14],
    [0, 1, 2, 3, 4, 5, 6, 7, 8, 9, 10, 11, 12, 15, 13, 14],
    [0, 1, 2, 3, 4, 5, 6, 7, 8, 9, 10, 11, 12, 13, 15, 14],
    [0, 1, 2, 3, 4, 5, 6, 7, 8, 9, 10, 11, 12, 13, 14, 15]
  ]

  /** The board of case 3, written as tile numbers of the goal arrangement. */
  lemma Start3()
    ensures Arranged(Cells3[0]) == Board(["1", "0", "2", "4", "5", "7", "3", "8", "9", "6", "11", "12", "13", "10", "14", "15"])
  {
  }

  lemma Case3Move0()
    ensures Valid(Arranged(Cells3[0]))
    ensures Replay(Arranged(Cells3[0]), Path3[0..]) == Replay(Arranged(Cells3[1]), Path3[1..])
  {
    Advance(Cells3[0], Path3, 0, 1, Cells3[1]);
  }

  lemma Case3Move1()
    ensures Valid(Arranged(Cells3[1]))
    ensures Replay(Arranged(Cells3[1]), Path3[1..]) == Replay(Arranged(Cells3[2]), Path3[2..])
  {
    Advance(Cells3[1], Path3, 1, 2, Cells3[2]);
  }

  lemma Case3Move2()
    ensures Valid(Arranged(Cells3[2]))
    ensures Replay(Arranged(Cells3[2]), Path3[2..]) == Replay(Arranged(Cells3[3]), Path3[3..])
  {
    Advance(Cells3[2], Path3, 2, 6, Cells3[3]);
  }

  lemma Case3Move3()
    ensures Valid(Arranged(Cells3[3]))
    ensures Replay(Arranged(Cells3[3]), Path3[3..]) == Replay(Arranged(Cells3[4]), Path3[4..])
  {
    Advance(Cells3[3], Path3, 3, 5, Cells3[4]);
  }

  lemma Case3Move4()
    ensures Valid(Arranged(Cells3[4]))
    ensures Replay(Arranged(Cells3[4]), Path3[4..]) == Replay(Arranged(Cells3[5]), Path3[5..])
  {
    Advance(Cells3[4], Path3, 4, 9, Cells3[5]);
  }

  lemma Case3Move5()
    ensures Valid(Arranged(Cells3[5]))
    ensures Replay(Arranged(Cells3[5]), Path3[5..]) == Replay(Arranged(Cells3[6]), Path3[6..])
  {
    Advance(Cells3[5], Path3, 5, 13, Cells3[6]);
  }

  lemma Case3Move6()
    ensures Valid(Arranged(Cells3[6]))
    ensures Replay(Arranged(Cells3[6]), Path3[6..]) == Replay(Arranged(Cells3[7]), Path3[7..])
  {
    Advance(Cells3[6], Path3, 6, 14, Cells3[7]);
  }

  /** `1 0 2 4 5 7 3 8 9 6 11 12 13 10 14 15 | R D L D D R R`: the listed moves solve the listed board. */
  lemma Case3()
    ensures Valid(Board(["1", "0", "2", "4", "5", "7", "3", "8", "9", "6", "11", "12", "13", "10", "14", "15"]))
    ensures Solves(Board(["1", "0", "2", "4", "5", "7", "3", "8", "9", "6", "11", "12", "13", "10", "14", "15"]), [R, D, L, D, D, R, R])
  {
    Start3();
    Case3Move0();
    Case3Move1();
    Case3Move2();
    Case3Move3();
    Case3Move4();
    Case3Move5();
    Case3Move6();
    assert Path3[0..] == Path3;
    assert Path3[7..] == [];
    GoalArranged(Cells3[7]);
  }

  const Path4: seq<Action> := [D, L, L, D, R, R, D, R]

  /** Case 4 as goal tile numbers: the board before each move, then the goal. */
  const Cells4: seq<seq<nat>> := [
    [0, 1, 15, 3, 5, 6, 2, 7, 4, 8, 9, 11, 12, 13, 10, 14],
    [0, 1, 2, 3, 5, 6, 15, 7, 4, 8, 9, 11, 12, 13, 10, 14],
    [0, 1, 2, 3, 5, 15, 6, 7, 4, 8, 9, 11, 12, 13, 10, 14],
    [0, 1, 2, 3, 15, 5, 6, 7, 4, 8, 9, 11, 12, 13, 10, 14],
    [0, 1, 2, 3, 4, 5, 6, 7, 15, 8, 9, 11, 12, 13, 10, 14],
    [0, 1, 2, 3, 4, 5, 6, 7, 8, 15, 9, 11, 12, 13, 10, 14],
    [0, 1, 2, 3, 4, 5, 6, 7, 8, 9, 15, 11, 12, 13, 10, 14],
    [0, 1, 2, 3, 4, 5, 6, 7, 8, 9, 10, 11, 12, 13, 15, 14],
    [0, 1, 2, 3, 4, 5, 6, 7, 8, 9, 10, 11, 12, 13, 14, 15]
  ]

  /** The board of case 4, written as tile numbers of the goal arrangement. */
  lemma Start4()
    ensures Arranged(Cells4[0]) == Board(["1", "2", "0", "4", "6", "7", "3", "8", "5", "9", "10", "12", "13", "14", "11", "15"])
  {
  }

  lemma Case4Move0()
    ensures Valid(Arranged(Cells4[0]))
    ensures Replay(Arranged(Cells4[0]), Path4[0..]) == Replay(Arranged(Cells4[1]), Path4[1..])
  {
    Advance(Cells4[0], Path4, 0, 2, Cells4[1]);
  }

  lemma Case4Move1()
    ensures Valid(Arranged(Cells4[1]))
    ensures Replay(Arranged(Cells4[1]), Path4[1..]) == Replay(Arranged(Cells4[2]), Path4[2..])
  {
    Advance(Cells4[1], Path4, 1, 6, Cells4[2]);
  }

  lemma Case4Move2()
    ensures Valid(Arranged(Cells4[2]))
    ensures Replay(Arranged(Cells4[2]), Path4[2..]) == Replay(Arranged(Cells4[3]), Path4[3..])
  {
    Advance(Cells4[2], Path4, 2, 5, Cells4[3]);
  }

  lemma Case4Move3()
    ensures Valid(Arranged(Cells4[3]))
    ensures Replay(Arranged(Cells4[3]), Path4[3..]) == Replay(Arranged(Cells4[4]), Path4[4..])
  {
    Advance(Cells4[3], Path4, 3, 4, Cells4[4]);
  }

  lemma Case4Move4()
    ensures Valid(Arranged(Cells4[4]))
    ensures Replay(Arranged(Cells4[4]), Path4[4..]) == Replay(Arranged(Cells4[5]), Path4[5..])
  {
    Advance(Cells4[4], Path4, 4, 8, Cells4[5]);
  }

  lemma Case4Move5()
    ensures Valid(Arranged(Cells4[5]))
    ensures Replay(Arranged(Cells4[5]), Path4[5..]) == Replay(Arranged(Cells4[6]), Path4[6..])
  {
    Advance(Cells4[5], Path4, 5, 9, Cells4[6]);
  }

  lemma Case4Move6()
    ensures Valid(Arranged(Cells4[6]))
    ensures Replay(Arranged(Cells4[6]), Path4[6..]) == Replay(Arranged(Cells4[7]), Path4[7..])
  {
    Advance(Cells4[6], Path4, 6, 10, Cells4[7]);
  }

  lemma Case4Move7()
    ensures Valid(Arranged(Cells4[7]))
    ensures Replay(Arranged(Cells4[7]), Path4[7..]) == Replay(Arranged(Cells4[8]), Path4[8..])
  {
    Advance(Cells4[7], Path4, 7, 14, Cells4[8]);
  }

  /** `1 2 0 4 6 7 3 8 5 9 10 12 13 14 11 15 | D L L D R R D R`: the listed moves solve the listed board. */
  lemma Case4()
    ensures Valid(Board(["1", "2", "0", "4", "6", "7", "3", "8", "5", "9", "10", "12", "13", "14", "11", "15"]))
    ensures Solves(Board(["1", "2", "0", "4", "6", "7", "3", "8", "5", "9", "10", "12", "13", "14", "11", "15"]), [D, L, L, D, R, R, D, R])
  {
    Start4();
    Case4Move0();
    Case4Move1();
    Case4Move2();
    Case4Move3();
    Case4Move4();
    Case4Move5();
    Case4Move6();
    Case4Move7();
    assert Path4[0..] == Path4;
    assert Path4[8..] == [];
    GoalArranged(Cells4[8]);
  }

  const Path5: seq<Action> := [R, U, L, L, D, R, D, R, D]

  /** Case 5 as goal tile numbers: the board before each move, then the goal. */
  const Cells5: seq<seq<nat>> := [
    [0, 2, 3, 7, 4, 1, 15, 5, 8, 9, 6, 10, 12, 13, 14, 11],
    [0, 2, 3, 7, 4, 1, 5, 15, 8, 9, 6, 10, 12, 13, 14, 11],
    [0, 2, 3, 15, 4, 1, 5, 7, 8, 9, 6, 10, 12, 13, 14, 11],
    [0, 2, 15, 3, 4, 1, 5, 7, 8, 9, 6, 10, 12, 13, 14, 11],
    [0, 15, 2, 3, 4, 1, 5, 7, 8, 9, 6, 10, 12, 13, 14, 11],
    [0, 1, 2, 3, 4, 15, 5, 7, 8, 9, 6, 10, 12, 13, 14, 11],
    [0, 1, 2, 3, 4, 5, 15, 7, 8, 9, 6, 10, 12, 13, 14, 11],
    [0, 1, 2, 3, 4, 5, 6, 7, 8, 9, 15, 10, 12, 13, 14, 11],
    [0, 1, 2, 3, 4, 5, 6, 7, 8, 9, 10, 15, 12, 13, 14, 11],
    [0, 1, 2, 3, 4, 5, 6, 7, 8, 9, 10, 11, 12, 13, 14, 15]
  ]

  /** The board of case 5, written as tile numbers of the goal arrangement. */
  lemma Start5()
    ensures Arranged(Cells5[0]) == Board(["1", "3", "4", "8", "5", "2", "0", "6", "9", "10", "7", "11", "13", "14", "15", "12"])
  {
  }

  lemma Case5Move0()
    ensures Valid(Arranged(Cells5[0]))
    ensures Replay(Arranged(Cells5[0]), Path5[0..]) == Replay(Arranged(Cells5[1]), Path5[1..])
  {
    Advance(Cells5[0], Path5, 0, 6, Cells5[1]);
  }

  lemma Case5Move1()
    ensures Valid(Arranged(Cells5[1]))
    ensures Replay(Arranged(Cells5[1]), Path5[1..]) == Replay(Arranged(Cells5[2]), Path5[2..])
  {
    Advance(Cells5[1], Path5, 1, 7, Cells5[2]);
  }

  lemma Case5Move2()
    ensures Valid(Arranged(Cells5[2]))
    ensures Replay(Arranged(Cells5[2]), Path5[2..]) == Replay(Arranged(Cells5[3]), Path5[3..])
  {
    Advance(Cells5[2], Path5, 2, 3, Cells5[3]);
  }

  lemma Case5Move3()
    ensures Valid(Arranged(Cells5[3]))
    ensures Replay(Arranged(Cells5[3]), Path5[3..]) == Replay(Arranged(Cells5[4]), Path5[4..])
  {
    Advance(Cells5[3], Path5, 3, 2, Cells5[4]);
  }

  lemma Case5Move4()
    ensures Valid(Arranged(Cells5[4]))
    ensures Replay(Arranged(Cells5[4]), Path5[4..]) == Replay(Arranged(Cells5[5]), Path5[5..])
  {
    Advance(Cells5[4], Path5, 4, 1, Cells5[5]);
  }

  lemma Case5Move5()
    ensures Valid(Arranged(Cells5[5]))
    ensures Replay(Arranged(Cells5[5]), Path5[5..]) == Replay(Arranged(Cells5[6]), Path5[6..])
  {
    Advance(Cells5[5], Path5, 5, 5, Cells5[6]);
  }

  lemma Case5Move6()
    ensures Valid(Arranged(Cells5[6]))
    ensures Replay(Arranged(Cells5[6]), Path5[6..]) == Replay(Arranged(Cells5[7]), Path5[7..])
  {
    Advance(Cells5[6], Path5, 6, 6, Cells5[7]);
  }

  lemma Case5Move7()
    ensures Valid(Arranged(Cells5[7]))
    ensures Replay(Arranged(Cells5[7]), Path5[7..]) == Replay(Arranged(Cells5[8]), Path5[8..])
  {
    Advance(Cells5[7], Path5, 7, 10, Cells5[8]);
  }

  lemma Case5Move8()
    ensures Valid(Arranged(Cells5[8]))
    ensures Replay(Arranged(Cells5[8]), Path5[8..]) == Replay(Arranged(Cells5[9]), Path5[9..])
  {
    Advance(Cells5[8], Path5, 8, 11, Cells5[9]);
  }

  /** `1 3 4 8 5 2 0 6 9 10 7 11 13 14 15 12 | R U L L D R D R D`: the listed moves solve the listed board. */
  lemma Case5()
    ensures Valid(Board(["1", "3", "4", "8", "5", "2", "0", "6", "9", "10", "7", "11", "13", "14", "15", "12"]))
    ensures Solves(Board(["1", "3", "4", "8", "5", "2", "0", "6", "9", "10", "7", "11", "13", "14", "15", "12"]), [R, U, L, L, D, R, D, R, D])
  {
    Start5();
    Case5Move0();
    Case5Move1();
    Case5Move2();
    Case5Move3();
    Case5Move4();
    Case5Move5();
    Case5Move6();
    Case5Move7();
    Case5Move8();
    assert Path5[0..] == Path5;
    assert Path5[9..] == [];
    GoalArranged(Cells5[9]);
  }
}
