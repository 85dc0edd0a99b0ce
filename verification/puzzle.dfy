/**
 The sliding-tile board and its transition function.

 A board is the row-major list of tile symbols as read from the input line;
 the symbol "0" marks the blank. The side length is the floor of the square
 root of the number of tiles, and a move slides the blank one cell left,
 right, up or down. A move that would leave the grid is absorbed: the board
 comes back unchanged.
 */
module Puzzle {

  /** A tile symbol, kept as the text it was read as. */
  type Tile = string

  /** The symbol of the empty cell. */
  const Blank: Tile := "0"

  /** The direction in which the blank moves. */
  datatype Action = L | R | U | D

  /** The four actions, in the order in which a node's children are generated. */
  const Actions: seq<Action> := [L, R, U, D]

  datatype Board = Board(tiles: seq<Tile>)

  /** The board's side length: the floor of the square root of `n`. */
  function ISqrt(n: nat): (s: nat)
  {
    RootFrom(n, 0, 0)
  }

  /** Counts up from `s`, whose square is `sq`, while the next square still fits in `n`. */
  function RootFrom(n: nat, s: nat, sq: nat): nat
    requires sq <= n
    decreases n - sq
  {
    if sq + 2 * s + 1 <= n then RootFrom(n, s + 1, sq + 2 * s + 1) else s
  }

  /** `ISqrt` is the floor of the square root. */
  lemma ISqrtIsFloorRoot(n: nat)
    ensures ISqrt(n) * ISqrt(n) <= n < (ISqrt(n) + 1) * (ISqrt(n) + 1)
  {
    RootFromIsFloor(n, 0, 0);
  }

  lemma {:induction false} RootFromIsFloor(n: nat, s: nat, sq: nat)
    requires sq == s * s <= n
    ensures var r := RootFrom(n, s, sq); r * r <= n < (r + 1) * (r + 1)
    decreases n - sq
  {
    if sq + 2 * s + 1 <= n {
      RootFromIsFloor(n, s + 1, sq + 2 * s + 1);
    }
  }

  lemma SquareMonotone(a: nat, b: nat)
    requires a <= b
    ensures a * a <= b * b
  {
    assert a * a <= a * b <= b * b;
  }

  /** On a perfect square the floor square root is exact. */
  lemma ISqrtOfSquare(k: nat)
    ensures ISqrt(k * k) == k
  {
    ISqrtIsFloorRoot(k * k);
    SquareBetween(ISqrt(k * k), k);
  }

  /** Squares of naturals are strictly increasing, so `k * k` pins down `s`. */
  lemma SquareBetween(s: nat, k: nat)
    requires s * s <= k * k < (s + 1) * (s + 1)
    ensures s == k
  {
    if s < k {
      SquareMonotone(s + 1, k);
    } else if s > k {
      SquareMonotone(k + 1, s);
      SquareMonotone(k, s);
    }
  }

  function Side(b: Board): nat
  {
    ISqrt(|b.tiles|)
  }

  /** A square arrangement holding a blank. */
  predicate Valid(b: Board)
  {
    |b.tiles| == Side(b) * Side(b) && Blank in b.tiles
  }

  /** The blank appears exactly once. */
  predicate UniqueBlank(b: Board)
  {
    multiset(b.tiles)[Blank] == 1
  }

  /** Index of the first blank, as a list lookup by value finds it. */
  function BlankIndex(tiles: seq<Tile>): (e: nat)
    requires Blank in tiles
    ensures e < |tiles| && tiles[e] == Blank
    ensures forall i :: 0 <= i < e ==> tiles[i] != Blank
  {
    if tiles[0] == Blank then 0 else 1 + BlankIndex(tiles[1..])
  }

  /**
   `BlankIndex` finds exactly the first blank: a blank at `e` with none
   before it is the one it returns.
   */
  lemma FirstBlankAt(tiles: seq<Tile>, e: nat)
    requires e < |tiles| && tiles[e] == Blank
    requires forall i :: 0 <= i < e ==> tiles[i] != Blank
    ensures Blank in tiles && BlankIndex(tiles) == e
  {
  }

  /** The guard under which moving the blank in direction `a` is legal. */
  predicate CanMove(b: Board, a: Action)
    requires Valid(b)
  {
    var e: int, n: int := BlankIndex(b.tiles), Side(b);
    match a
    case L => e % n > 0
    case R => e % n < n - 1
    case U => e - n >= 0
    case D => e + n < n * n
  }

  /** The linear index of the cell the blank would move to. */
  function Neighbour(b: Board, a: Action): int
    requires Valid(b)
  {
    var e: int, n: int := BlankIndex(b.tiles), Side(b);
    match a
    case L => e - 1
    case R => e + 1
    case U => e - n
    case D => e + n
  }

  lemma RightInRange(e: nat, n: nat)
    requires 0 < n && e < n * n && e % n < n - 1
    ensures e + 1 < n * n
  {
    var q, m := e / n, e % n;
    assert e == q * n + m;
    RowInRange(e, n);
    MulMonotone(q, n - 1, n);
  }

  /** A legal move targets a cell of the board other than the blank's. */
  lemma NeighbourInRange(b: Board, a: Action)
    requires Valid(b) && CanMove(b, a)
    ensures 0 <= Neighbour(b, a) < |b.tiles|
    ensures Neighbour(b, a) != BlankIndex(b.tiles)
  {
    var e, n := BlankIndex(b.tiles), Side(b);
    assert n > 0;
    if a == R {
      RightInRange(e, n);
    }
  }

  /**
   The board after moving the blank in direction `a`: a fresh tile list, so
   the receiver is never altered. Its laws are stated by MoveLaw.
   */
  function Execute(b: Board, a: Action): (r: Board)
    requires Valid(b)
    ensures Valid(r)
  {
    if CanMove(b, a) then
      NeighbourInRange(b, a);
      var e, t := BlankIndex(b.tiles), Neighbour(b, a);
      var swapped := b.tiles[t := b.tiles[e]][e := b.tiles[t]];
      assert swapped[t] == Blank;
      Board(swapped)
    else
      b
  }

  /**
   A legal move swaps the blank with the neighbour in its direction and leaves
   every other cell alone; an illegal move gives back the same tiles. Either
   way the tiles are a permutation of the original ones.
   */
  lemma MoveLaw(b: Board, a: Action)
    requires Valid(b)
    ensures var r := Execute(b, a);
      && |r.tiles| == |b.tiles| && Side(r) == Side(b)
      && multiset(r.tiles) == multiset(b.tiles)
      && (!CanMove(b, a) ==> r.tiles == b.tiles)
      && (CanMove(b, a) ==>
        var e, t := BlankIndex(b.tiles), Neighbour(b, a);
        && 0 <= t < |b.tiles| && t != e
        && r.tiles[t] == Blank
        && r.tiles[e] == b.tiles[t]
        && forall i :: 0 <= i < |b.tiles| && i != e && i != t ==> r.tiles[i] == b.tiles[i])
  {
    MoveKeepsTiles(b, a);
    if CanMove(b, a) {
      MoveSwaps(b, a);
    }
  }

  lemma MoveKeepsTiles(b: Board, a: Action)
    requires Valid(b)
    ensures var r := Execute(b, a);
      && |r.tiles| == |b.tiles| && Side(r) == Side(b)
      && multiset(r.tiles) == multiset(b.tiles)
      && (!CanMove(b, a) ==> r.tiles == b.tiles)
  {
    if CanMove(b, a) {
      NeighbourInRange(b, a);
    }
  }

  lemma MoveSwaps(b: Board, a: Action)
    requires Valid(b) && CanMove(b, a)
    ensures var r, e, t := Execute(b, a), BlankIndex(b.tiles), Neighbour(b, a);
      && 0 <= t < |b.tiles| && t != e
      && r.tiles[t] == Blank
      && r.tiles[e] == b.tiles[t]
      && forall i :: 0 <= i < |b.tiles| && i != e && i != t ==> r.tiles[i] == b.tiles[i]
  {
    NeighbourInRange(b, a);
  }

  /**
   The board reached by applying `path` from `b`, first action first. Moves
   are only defined on valid boards, so a board that is not valid is left as
   it is; ReplayValid shows that from a valid board this never happens.
   */
  function Replay(b: Board, path: seq<Action>): (r: Board)
    decreases |path|
  {
    if path == [] then b
    else
      var c := Replay(b, path[..|path| - 1]);
      if Valid(c) then Execute(c, path[|path| - 1]) else c
  }

  /** Every board reached from a valid board is valid. */
  lemma {:induction false} ReplayValid(b: Board, path: seq<Action>)
    requires Valid(b)
    ensures Valid(Replay(b, path))
    decreases |path|
  {
    if path != [] {
      ReplayValid(b, path[..|path| - 1]);
    }
  }

  /** Any sequence of moves only rearranges the tiles. */
  lemma {:induction false} ReplayPermutes(b: Board, path: seq<Action>)
    requires Valid(b)
    ensures multiset(Replay(b, path).tiles) == multiset(b.tiles)
    decreases |path|
  {
    if path != [] {
      ReplayPermutes(b, path[..|path| - 1]);
      ReplayValid(b, path[..|path| - 1]);
      MoveLaw(Replay(b, path[..|path| - 1]), path[|path| - 1]);
    }
  }

  /** Replaying a concatenation is replaying its two halves in turn. */
  lemma {:induction false} ReplayAppend(b: Board, p: seq<Action>, q: seq<Action>)
    requires Valid(b)
    ensures Replay(b, p + q) == Replay(Replay(b, p), q)
    decreases |q|
  {
    if q == [] {
      assert p + q == p;
    } else {
      var q' := q[..|q| - 1];
      assert (p + q)[..|p + q| - 1] == p + q';
      ReplayAppend(b, p, q');
    }
  }

  // ---------------------------------------------------------------------------
  // Geometry: the guards and the swap read as moves on an N-by-N grid.

  function Row(i: int, n: nat): int
    requires n > 0
  {
    i / n
  }

  function Col(i: int, n: nat): int
    requires n > 0
  {
    i % n
  }

  /** Row and column offsets of each direction. */
  function DRow(a: Action): int
  {
    match a
    case U => -1
    case D => 1
    case _ => 0
  }

  function DCol(a: Action): int
  {
    match a
    case L => -1
    case R => 1
    case _ => 0
  }

  lemma MulMonotone(a: int, b: int, n: int)
    requires a <= b && 0 <= n
    ensures a * n <= b * n
  {
    assert b * n - a * n == (b - a) * n;
  }

  lemma DivModUnique(x: int, n: nat, q: int, m: int)
    requires n > 0 && 0 <= m < n && x == q * n + m
    ensures x / n == q && x % n == m
  {
    var q', m' := x / n, x % n;
    assert x == q' * n + m';
    if q' > q {
      MulMonotone(q + 1, q', n);
      assert false;
    } else if q' < q {
      MulMonotone(q' + 1, q, n);
      assert false;
    }
  }

  lemma RowInRange(e: nat, n: nat)
    requires n > 0 && e < n * n
    ensures 0 <= Row(e, n) < n
  {
    var q := e / n;
    assert e == q * n + e % n;
    if q >= n {
      MulMonotone(n, q, n);
      assert false;
    }
  }

  lemma UpGuard(e: int, n: int)
    requires n > 0 && 0 <= e
    ensures e - n >= 0 <==> e / n >= 1
  {
    var q, m := e / n, e % n;
    assert e == q * n + m;
    if e - n >= 0 {
      DivModUnique(e - n, n, q - 1, m);
    } else if q >= 1 {
      MulMonotone(1, q, n);
    }
  }

  lemma DownGuard(e: int, n: int)
    requires n > 0 && 0 <= e < n * n
    ensures e + n < n * n <==> e / n + 1 < n
  {
    var q, m := e / n, e % n;
    assert e == q * n + m;
    if q + 1 < n {
      MulMonotone(q + 1, n - 1, n);
      assert e + n <= (n - 1) * n + m;
    }
    if e + n < n * n {
      DivModUnique(e + n, n, q + 1, m);
      RowInRange(e + n, n);
    }
  }

  /** Moving by one cell within a row keeps the row and shifts the column. */
  lemma StepInRow(e: int, n: int, dc: int)
    requires n > 0 && 0 <= e % n + dc < n
    ensures (e + dc) / n == e / n && (e + dc) % n == e % n + dc
  {
    DivModUnique(e + dc, n, e / n, e % n + dc);
  }

  /** Moving by one row keeps the column and shifts the row. */
  lemma StepInColumn(e: int, n: int, dr: int)
    requires n > 0
    ensures (e + dr * n) / n == e / n + dr && (e + dr * n) % n == e % n
  {
    var q, m := e / n, e % n;
    assert e + dr * n == (q + dr) * n + m;
    DivModUnique(e + dr * n, n, q + dr, m);
  }

  /**
   The guard of each direction holds exactly when the blank's row and column,
   shifted by that direction's offsets, still lie on the grid.
   */
  lemma {:induction false} GuardIsOnGrid(b: Board, a: Action)
    requires Valid(b)
    ensures var e, n := BlankIndex(b.tiles), Side(b);
      CanMove(b, a) <==>
        (0 <= Row(e, n) + DRow(a) < n && 0 <= Col(e, n) + DCol(a) < n)
  {
    var e: int, n: int := BlankIndex(b.tiles), Side(b);
    assert n > 0;
    RowInRange(e, n);
    match a
    case L =>
    case R =>
    case U => UpGuard(e, n);
    case D => DownGuard(e, n);
  }

  /** A legal move puts the blank one cell away in the intended direction. */
  lemma {:induction false} MoveIsOneCell(b: Board, a: Action)
    requires Valid(b) && CanMove(b, a)
    ensures var e, t, n := BlankIndex(b.tiles), Neighbour(b, a), Side(b);
      Row(t, n) == Row(e, n) + DRow(a) && Col(t, n) == Col(e, n) + DCol(a)
  {
    var e: int, n: int := BlankIndex(b.tiles), Side(b);
    assert n > 0;
    match a
    case L => StepInRow(e, n, -1);
    case R => StepInRow(e, n, 1);
    case U => StepInColumn(e, n, -1);
    case D => StepInColumn(e, n, 1);
  }

  // ---------------------------------------------------------------------------
  // Reversibility on boards with a single blank.

  function Opposite(a: Action): Action
  {
    match a
    case L => R
    case R => L
    case U => D
    case D => U
  }

  lemma CountBlank(tiles: seq<Tile>, e: nat)
    requires e < |tiles| && tiles[e] == Blank
    ensures multiset(tiles)[Blank] == multiset(tiles[..e])[Blank] + 1 + multiset(tiles[e + 1..])[Blank]
  {
    assert tiles == tiles[..e] + [Blank] + tiles[e + 1..];
  }

  /** A blank at `e` and nowhere else is the first and only blank. */
  lemma UniqueBlankAt(tiles: seq<Tile>, e: nat)
    requires e < |tiles| && tiles[e] == Blank
    requires forall i :: 0 <= i < |tiles| && i != e ==> tiles[i] != Blank
    ensures Blank in tiles && BlankIndex(tiles) == e
    ensures multiset(tiles)[Blank] == 1
  {
    CountBlank(tiles, e);
    assert Blank !in tiles[..e];
    assert Blank !in tiles[e + 1..] by {
      forall j | e + 1 <= j < |tiles|
        ensures tiles[j] != Blank
      {
      }
    }
  }

  /** On a board with a single blank, no cell but the first blank holds one. */
  lemma OnlyBlankAt(b: Board)
    requires Valid(b) && UniqueBlank(b)
    ensures forall i :: 0 <= i < |b.tiles| && i != BlankIndex(b.tiles) ==> b.tiles[i] != Blank
  {
    var e := BlankIndex(b.tiles);
    CountBlank(b.tiles, e);
    forall i | 0 <= i < |b.tiles| && i != e
      ensures b.tiles[i] != Blank
    {
      if i > e {
        assert b.tiles[i] in b.tiles[e + 1..] by {
          assert b.tiles[e + 1..][i - e - 1] == b.tiles[i];
        }
      }
    }
  }

  /** With a single blank, a legal move leaves a single blank at the target cell. */
  lemma BlankFollowsMove(b: Board, a: Action)
    requires Valid(b) && UniqueBlank(b) && CanMove(b, a)
    ensures UniqueBlank(Execute(b, a))
    ensures BlankIndex(Execute(b, a).tiles) == Neighbour(b, a)
  {
    MoveLaw(b, a);
    OnlyBlankAt(b);
    UniqueBlankAt(Execute(b, a).tiles, Neighbour(b, a));
  }

  lemma OppositeIsLegal(b: Board, a: Action)
    requires Valid(b) && UniqueBlank(b) && CanMove(b, a)
    ensures CanMove(Execute(b, a), Opposite(a))
    ensures Neighbour(Execute(b, a), Opposite(a)) == BlankIndex(b.tiles)
  {
    var r := Execute(b, a);
    MoveLaw(b, a);
    BlankFollowsMove(b, a);
    var e: int, n: int := BlankIndex(b.tiles), Side(b);
    assert Side(r) == n > 0;
    match a
    case L => StepInRow(e, n, -1);
    case R => StepInRow(e, n, 1);
    case U =>
    case D =>
  }

  /**
   With a single blank, the opposite move undoes a legal move: the original
   board comes back.
   */
  lemma {:induction false} MoveInverse(b: Board, a: Action)
    requires Valid(b) && UniqueBlank(b) && CanMove(b, a)
    ensures var r := Execute(b, a);
      && UniqueBlank(r)
      && CanMove(r, Opposite(a))
      && Execute(r, Opposite(a)) == b
  {
    BlankFollowsMove(b, a);
    OppositeIsLegal(b, a);
    var r := Execute(b, a);
    MoveLaw(b, a);
    MoveLaw(r, Opposite(a));
    var back := Execute(r, Opposite(a));
    assert back.tiles == b.tiles;
  }
}
