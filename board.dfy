/**
 * Value-level view of the 8x8 board: which cells a piece covers, when it
 * fits, what placing it and clearing full lines produce, and the facts
 * that hold about those operations. The session object in module Game
 * keeps an array and is proved against these definitions.
 */
module Board {
  import opened Pieces

  /** Side of the square board. */
  const N: nat := 8

  /** Board occupancy by rows: 0 is empty, 1 is occupied. */
  type Grid = seq<seq<int>>

  /** An N x N grid whose every cell is 0 or 1. */
  predicate IsBoard(g: Grid)
  {
    |g| == N && forall r :: 0 <= r < N ==> |g[r]| == N && forall c :: 0 <= c < N ==> g[r][c] == 0 || g[r][c] == 1
  }

  /** The freshly reset board: every cell empty. */
  function EmptyGrid(): (g: Grid)
    ensures IsBoard(g)
    ensures forall r, c :: 0 <= r < N && 0 <= c < N ==> g[r][c] == 0
  {
    seq(N, r => seq(N, c => 0))
  }

  /** Every filled cell of mask s, moved to origin (row, col), lies on the board. */
  ghost predicate InBounds(s: Shape, row: nat, col: nat)
  {
    forall i, j :: Filled(s, i, j) ==> row + i < N && col + j < N
  }

  /** Board cell (r, c) is under a filled cell of mask s placed at (row, col). */
  predicate Covers(s: Shape, row: nat, col: nat, r: int, c: int)
  {
    row <= r && col <= c && Filled(s, r - row, c - col)
  }

  /** The piece fits: every filled mask cell lands on the board on an empty cell. */
  ghost predicate Fits(g: Grid, s: Shape, row: nat, col: nat)
    requires IsBoard(g)
  {
    InBounds(s, row, col) && forall i, j :: Filled(s, i, j) ==> g[row + i][col + j] == 0
  }

  /** The board after writing 1 into every cell the piece covers. */
  function Place(g: Grid, s: Shape, row: nat, col: nat): (res: Grid)
    requires IsBoard(g) && InBounds(s, row, col)
    ensures IsBoard(res)
    ensures forall i, j :: Filled(s, i, j) ==> res[row + i][col + j] == 1
    ensures forall r, c :: 0 <= r < N && 0 <= c < N && !Covers(s, row, col, r, c) ==> res[r][c] == g[r][c]
  {
    seq(N, r requires 0 <= r < N => seq(N, c requires 0 <= c < N => if Covers(s, row, col, r, c) then 1 else g[r][c]))
  }

  /** Row r holds only the value 1. */
  predicate RowFull(g: Grid, r: nat)
    requires IsBoard(g) && r < N
  {
    forall c :: 0 <= c < N ==> g[r][c] == 1
  }

  /** Column c holds no 0 (the column test compares against 0, the row test against 1). */
  predicate ColFull(g: Grid, c: nat)
    requires IsBoard(g) && c < N
  {
    forall r :: 0 <= r < N ==> g[r][c] != 0
  }

  /** No row and no column of g is full. */
  predicate NoFullLine(g: Grid)
    requires IsBoard(g)
  {
    (forall r: nat :: r < N ==> !RowFull(g, r)) && (forall c: nat :: c < N ==> !ColFull(g, c))
  }

  /**
   * One clearing pass: the full rows and columns are all chosen on g as
   * it is, then each chosen row and each chosen column is emptied.
   */
  function ClearLines(g: Grid): (res: Grid)
    requires IsBoard(g)
    ensures IsBoard(res)
    ensures forall r: nat :: r < N && RowFull(g, r) ==> forall c :: 0 <= c < N ==> res[r][c] == 0
    ensures forall c: nat :: c < N && ColFull(g, c) ==> forall r :: 0 <= r < N ==> res[r][c] == 0
    ensures forall r: nat, c: nat :: r < N && c < N && !RowFull(g, r) && !ColFull(g, c) ==> res[r][c] == g[r][c]
  {
    seq(N, r requires 0 <= r < N => seq(N, c requires 0 <= c < N => if RowFull(g, r) || ColFull(g, c) then 0 else g[r][c]))
  }

  /** Two N x N grids that agree cell by cell are equal. */
  lemma SameGrid(a: Grid, b: Grid)
    requires |a| == N && |b| == N
    requires forall r :: 0 <= r < N ==> |a[r]| == N && |b[r]| == N
    requires forall r, c :: 0 <= r < N && 0 <= c < N ==> a[r][c] == b[r][c]
    ensures a == b
  {
    forall r | 0 <= r < N
      ensures a[r] == b[r]
    {
      assert forall c :: 0 <= c < N ==> a[r][c] == b[r][c];
    }
  }

  /** A clearing pass leaves no full row and no full column behind. */
  lemma ClearLeavesNoFullLine(g: Grid)
    requires IsBoard(g)
    ensures NoFullLine(ClearLines(g))
  {
    var h := ClearLines(g);
    forall r: nat | r < N
      ensures !RowFull(h, r)
    {
      if RowFull(g, r) {
        assert h[r][0] == 0;
      } else {
        var c :| 0 <= c < N && g[r][c] != 1;
        assert h[r][c] == 0;
      }
    }
    forall c: nat | c < N
      ensures !ColFull(h, c)
    {
      if ColFull(g, c) {
        assert h[0][c] == 0;
      } else {
        var r :| 0 <= r < N && g[r][c] == 0;
        assert h[r][c] == 0;
      }
    }
  }

  /** With no full line, a clearing pass changes nothing. */
  lemma ClearWithoutFullLineIsIdentity(g: Grid)
    requires IsBoard(g) && NoFullLine(g)
    ensures ClearLines(g) == g
  {
    SameGrid(ClearLines(g), g);
  }

  /** A second clearing pass straight after the first changes nothing. */
  lemma ClearIdempotent(g: Grid)
    requires IsBoard(g)
    ensures ClearLines(ClearLines(g)) == ClearLines(g)
  {
    ClearLeavesNoFullLine(g);
    ClearWithoutFullLineIsIdentity(ClearLines(g));
  }

  /**
   * A full row and a full column that cross are both emptied by the same
   * pass, the shared cell included, because both are chosen before any
   * cell is written.
   */
  lemma RowAndColumnClearedTogether(g: Grid, r: nat, c: nat)
    requires IsBoard(g) && r < N && c < N && RowFull(g, r) && ColFull(g, c)
    ensures forall k :: 0 <= k < N ==> ClearLines(g)[r][k] == 0 && ClearLines(g)[k][c] == 0
    ensures ClearLines(g)[r][c] == 0
  {
  }

  /** Occupied cells of a board, as (row, column) pairs. */
  ghost function OccupiedCells(g: Grid): set<(int, int)>
    requires IsBoard(g)
  {
    set r, c | 0 <= r < N && 0 <= c < N && g[r][c] == 1 :: (r, c)
  }

  /** Number of occupied cells. */
  ghost function Occupancy(g: Grid): nat
    requires IsBoard(g)
  {
    |OccupiedCells(g)|
  }

  /** The pairs of S, each moved by (dr, dc). */
  ghost function Shift(S: set<(int, int)>, dr: int, dc: int): set<(int, int)>
  {
    set p | p in S :: (p.0 + dr, p.1 + dc)
  }

  /** Moving a set of cells does not change how many there are. */
  lemma {:induction false} ShiftSize(S: set<(int, int)>, dr: int, dc: int)
    ensures |Shift(S, dr, dc)| == |S|
  {
    if S != {} {
      var p :| p in S;
      var q := (p.0 + dr, p.1 + dc);
      ShiftSize(S - {p}, dr, dc);
      assert Shift(S, dr, dc) == Shift(S - {p}, dr, dc) + {q};
      assert q !in Shift(S - {p}, dr, dc);
    }
  }

  /** The cells a placed piece covers are its filled offsets moved to the origin. */
  lemma CoveredCells(s: Shape, row: nat, col: nat, r: int, c: int)
    ensures Covers(s, row, col, r, c) <==> (r, c) in Shift(FilledCells(s), row, col)
  {
  }

  /**
   * Placing a piece that fits turns exactly its footprint of empty cells
   * into occupied ones, so the occupancy grows by the footprint.
   */
  lemma PlaceAddsFootprint(g: Grid, s: Shape, row: nat, col: nat)
    requires IsBoard(g) && Fits(g, s, row, col)
    ensures Occupancy(Place(g, s, row, col)) == Occupancy(g) + Footprint(s)
  {
    var h := Place(g, s, row, col);
    var moved := Shift(FilledCells(s), row, col);
    forall r, c ensures Covers(s, row, col, r, c) <==> (r, c) in moved {
      CoveredCells(s, row, col, r, c);
    }
    assert OccupiedCells(h) == OccupiedCells(g) + moved by {
      forall p | p in moved ensures p in OccupiedCells(h) {
        assert Covers(s, row, col, p.0, p.1);
      }
    }
    assert OccupiedCells(g) * moved == {} by {
      forall p | p in moved ensures p !in OccupiedCells(g) {
        assert Covers(s, row, col, p.0, p.1);
      }
    }
    ShiftSize(FilledCells(s), row, col);
  }

  /** Once a well-formed piece is placed, it no longer fits at the same origin. */
  lemma PlacedPieceNoLongerFits(g: Grid, s: Shape, row: nat, col: nat)
    requires IsBoard(g) && WellFormed(s) && Fits(g, s, row, col)
    ensures !Fits(Place(g, s, row, col), s, row, col)
  {
  }
}
