/**
 * The game session: the live board (an N x N array of 0/1), the hand of
 * pieces still to play and the index of the selected piece, with the
 * operations the page runs on them. Random draws are passed in as
 * catalog indices.
 */
module Game {
  import opened Pieces
  import opened Board

  datatype Option<T> = None | Some(value: T)

  /** What a click on a board cell did. */
  datatype ClickOutcome =
    | Ignored      // no piece selected, or the selected index is not in the hand
    | Placed       // the piece fitted and was placed
    | DoesNotFit   // the piece did not fit; nothing changed

  /** Number of pieces drawn into a fresh hand. */
  const HandSize: nat := 3

  /** Draws usable to fill a hand: HandSize catalog indices. */
  predicate ValidDraws(draws: seq<nat>)
  {
    |draws| == HandSize && forall k :: 0 <= k < |draws| ==> draws[k] < |Catalog|
  }

  /** Hand h holds, in order, the catalog pieces the draws name. */
  predicate IsDrawnHand(h: seq<Piece>, draws: seq<nat>)
    requires ValidDraws(draws)
  {
    |h| == |draws| && forall k :: 0 <= k < |h| ==> h[k] == Catalog[draws[k]]
  }

  /** A drawn hand has HandSize pieces, each a well-formed catalog piece. */
  lemma DrawnHandFromCatalog(h: seq<Piece>, draws: seq<nat>)
    requires ValidDraws(draws) && IsDrawnHand(h, draws)
    ensures |h| == HandSize
    ensures forall k :: 0 <= k < |h| ==> h[k] in Catalog && WellFormed(h[k].shape)
  {
    CatalogWellFormed();
    forall k | 0 <= k < |h|
      ensures h[k] in Catalog && WellFormed(h[k].shape)
    {
      assert h[k] == Catalog[draws[k]];
    }
  }

  /** A click on piece `index`: selecting the selected piece again deselects it. */
  function ToggleSelection(selected: Option<nat>, index: nat): (r: Option<nat>)
    ensures r == None <==> selected == Some(index)
    ensures r != None ==> r == Some(index)
  {
    if selected == Some(index) then None else Some(index)
  }

  /** Toggling the same index twice restores no selection, or that selection. */
  lemma ToggleTwice(selected: Option<nat>, index: nat)
    requires selected == None || selected == Some(index)
    ensures ToggleSelection(ToggleSelection(selected, index), index) == selected
  {
  }

  /** The hand with the piece at position k taken out, the others in order. */
  function RemoveAt<T>(s: seq<T>, k: nat): (r: seq<T>)
    requires k < |s|
    ensures |r| == |s| - 1
    ensures forall j :: 0 <= j < k ==> r[j] == s[j]
    ensures forall j :: k <= j < |r| ==> r[j] == s[j + 1]
    ensures multiset(r) + multiset{s[k]} == multiset(s)
  {
    assert s == s[..k] + [s[k]] + s[k + 1..];
    s[..k] + s[k + 1..]
  }

  class Session {
    var board: array2<int>
    var currentPieces: seq<Piece>
    var selectedPieceIndex: Option<nat>

    /** The board is N x N and every cell holds 0 or 1. */
    ghost predicate ValidBoard()
      reads this`board, board
    {
      && board.Length0 == N && board.Length1 == N
      && forall r, c :: 0 <= r < N && 0 <= c < N ==> board[r, c] == 0 || board[r, c] == 1
    }

    /** Board invariant, and the hand holds one to HandSize catalog pieces. */
    ghost predicate Valid()
      reads this, board
    {
      && ValidBoard()
      && 0 < |currentPieces| <= HandSize
      && forall k :: 0 <= k < |currentPieces| ==> currentPieces[k] in Catalog
    }

    /** The board contents as a value. */
    ghost function Cells(): (g: Grid)
      reads this`board, board
      requires board.Length0 == N && board.Length1 == N
      ensures |g| == N
      ensures forall r :: 0 <= r < N ==> |g[r]| == N && forall c :: 0 <= c < N ==> g[r][c] == board[r, c]
    {
      var a := board;
      seq(N, r requires 0 <= r < N reads a => seq(N, c requires 0 <= c < N reads a => a[r, c]))
    }

    /** A piece is selected and its index is a position of the hand. */
    ghost predicate HasSelection()
      reads this
    {
      selectedPieceIndex.Some? && selectedPieceIndex.value < |currentPieces|
    }

    /** Initial state: an empty board, no selection, a hand drawn from `draws`. */
    constructor (draws: seq<nat>)
      requires ValidDraws(draws)
      ensures Valid() && fresh(board)
      ensures Cells() == EmptyGrid()
      ensures selectedPieceIndex == None
      ensures IsDrawnHand(currentPieces, draws)
    {
      board := new int[N, N]((r, c) => 0);
      selectedPieceIndex := None;
      currentPieces := [];
      new;
      GeneratePieces(draws);
      SameGrid(Cells(), EmptyGrid());
      DrawnHandFromCatalog(currentPieces, draws);
    }

    /** Replace the hand by the HandSize catalog pieces the draws name. */
    method GeneratePieces(draws: seq<nat>)
      requires ValidDraws(draws)
      modifies this`currentPieces
      ensures IsDrawnHand(currentPieces, draws)
    {
      currentPieces := [];
      var k := 0;
      while k < HandSize
        invariant 0 <= k <= HandSize
        invariant |currentPieces| == k
        invariant forall m :: 0 <= m < k ==> currentPieces[m] == Catalog[draws[m]]
      {
        currentPieces := currentPieces + [Catalog[draws[k]]];
        k := k + 1;
      }
    }

    /**
     * Does the piece fit with its mask's top-left corner at (row, col)?
     * Scans the mask row by row and answers false at the first filled cell
     * that is off the board or on an occupied cell.
     */
    method CanPlacePiece(piece: Piece, row: nat, col: nat) returns (ok: bool)
      requires ValidBoard()
      ensures ok <==> Fits(Cells(), piece.shape, row, col)
    {
      var shape := piece.shape;
      var i := 0;
      while i < |shape|
        invariant 0 <= i <= |shape|
        invariant forall i', j :: i' < i && Filled(shape, i', j) ==> row + i' < N && col + j < N && board[row + i', col + j] == 0
      {
        var j := 0;
        while j < |shape[0]|
          invariant 0 <= j <= |shape[0]|
          invariant forall i', j' :: (i' < i || (i' == i && j' < j)) && Filled(shape, i', j') ==> row + i' < N && col + j' < N && board[row + i', col + j'] == 0
        {
          if j < |shape[i]| && shape[i][j] == 1 {
            var r, c := row + i, col + j;
            if r >= N || c >= N || board[r, c] == 1 {
              assert Filled(shape, i, j);
              return false;
            }
          }
          j := j + 1;
        }
        i := i + 1;
      }
      return true;
    }

    /** Write 1 into every board cell under a filled cell of the mask. */
    method PlacePieceAt(piece: Piece, row: nat, col: nat)
      requires ValidBoard() && InBounds(piece.shape, row, col)
      modifies board
      ensures ValidBoard()
      ensures Cells() == Place(old(Cells()), piece.shape, row, col)
    {
      ghost var g := Cells();
      var shape := piece.shape;
      var i := 0;
      while i < |shape|
        invariant 0 <= i <= |shape|
        invariant ValidBoard()
        invariant forall r, c :: 0 <= r < N && 0 <= c < N ==>
          board[r, c] == if Covers(shape, row, col, r, c) && r - row < i then 1 else g[r][c]
      {
        var j := 0;
        while j < |shape[0]|
          invariant 0 <= j <= |shape[0]|
          invariant ValidBoard()
          invariant forall r, c :: 0 <= r < N && 0 <= c < N ==>
            board[r, c] == if Covers(shape, row, col, r, c) && (r - row < i || (r - row == i && c - col < j)) then 1 else g[r][c]
        {
          if j < |shape[i]| && shape[i][j] == 1 {
            assert Filled(shape, i, j);
            board[row + i, col + j] := 1;
          }
          j := j + 1;
        }
        i := i + 1;
      }
      SameGrid(Cells(), Place(g, shape, row, col));
    }

    /** The full rows, in increasing order (a row is full when every cell is 1). */
    method FindFullRows() returns (rows: seq<nat>)
      requires ValidBoard()
      ensures forall k :: 0 <= k < |rows| ==> rows[k] < N && RowFull(Cells(), rows[k])
      ensures forall r: nat :: r < N && RowFull(Cells(), r) ==> r in rows
      ensures forall k, l :: 0 <= k < l < |rows| ==> rows[k] < rows[l]
    {
      rows := [];
      var i := 0;
      while i < N
        invariant 0 <= i <= N
        invariant forall k :: 0 <= k < |rows| ==> rows[k] < i && RowFull(Cells(), rows[k])
        invariant forall r: nat :: r < i && RowFull(Cells(), r) ==> r in rows
        invariant forall k, l :: 0 <= k < l < |rows| ==> rows[k] < rows[l]
      {
        var j := 0;
        while j < N && board[i, j] == 1
          invariant 0 <= j <= N
          invariant forall c :: 0 <= c < j ==> board[i, c] == 1
        {
          j := j + 1;
        }
        if j == N {
          rows := rows + [i];
        } else {
          assert Cells()[i][j] != 1;
        }
        i := i + 1;
      }
    }

    /** The full columns, in increasing order (a column is full when no cell is 0). */
    method FindFullCols() returns (cols: seq<nat>)
      requires ValidBoard()
      ensures forall k :: 0 <= k < |cols| ==> cols[k] < N && ColFull(Cells(), cols[k])
      ensures forall c: nat :: c < N && ColFull(Cells(), c) ==> c in cols
      ensures forall k, l :: 0 <= k < l < |cols| ==> cols[k] < cols[l]
    {
      cols := [];
      var j := 0;
      while j < N
        invariant 0 <= j <= N
        invariant forall k :: 0 <= k < |cols| ==> cols[k] < j && ColFull(Cells(), cols[k])
        invariant forall c: nat :: c < j && ColFull(Cells(), c) ==> c in cols
        invariant forall k, l :: 0 <= k < l < |cols| ==> cols[k] < cols[l]
      {
        var colFull := true;
        var i := 0;
        while i < N
          invariant 0 <= i <= N
          invariant colFull <==> forall r :: 0 <= r < i ==> board[r, j] != 0
        {
          if board[i, j] == 0 {
            colFull := false;
          }
          i := i + 1;
        }
        if colFull {
          cols := cols + [j];
        } else {
          var r :| 0 <= r < N && board[r, j] == 0;
          assert Cells()[r][j] == 0;
        }
        j := j + 1;
      }
    }

    /**
     * Find every full row and column of the board as it is, then empty
     * them; returns the indices found. With nothing full, no cell is written.
     */
    method CheckAndClearLines() returns (rows: seq<nat>, cols: seq<nat>)
      requires ValidBoard()
      modifies board
      ensures ValidBoard()
      ensures forall r: nat :: r in rows <==> r < N && RowFull(old(Cells()), r)
      ensures forall c: nat :: c in cols <==> c < N && ColFull(old(Cells()), c)
      ensures Cells() == ClearLines(old(Cells()))
      ensures |rows| == 0 && |cols| == 0 ==> Cells() == old(Cells())
    {
      ghost var g := Cells();
      rows := FindFullRows();
      cols := FindFullCols();
      if |rows| == 0 && |cols| == 0 {
        assert Cells() == g;
        forall r: nat | r < N ensures !RowFull(g, r) {
          assert RowFull(g, r) ==> r in rows;
        }
        forall c: nat | c < N ensures !ColFull(g, c) {
          assert ColFull(g, c) ==> c in cols;
        }
        ClearWithoutFullLineIsIdentity(g);
        return;
      }
      var k := 0;
      while k < |rows|
        invariant 0 <= k <= |rows|
        invariant ValidBoard()
        invariant forall r, c :: 0 <= r < N && 0 <= c < N ==>
          board[r, c] == if r in rows[..k] then 0 else g[r][c]
      {
        var c := 0;
        while c < N
          invariant 0 <= c <= N
          invariant ValidBoard()
          invariant forall r, c' :: 0 <= r < N && 0 <= c' < N ==>
            board[r, c'] == if r in rows[..k] || (r == rows[k] && c' < c) then 0 else g[r][c']
        {
          board[rows[k], c] := 0;
          c := c + 1;
        }
        assert rows[..k + 1] == rows[..k] + [rows[k]];
        k := k + 1;
      }
      assert rows[..|rows|] == rows;
      k := 0;
      while k < |cols|
        invariant 0 <= k <= |cols|
        invariant ValidBoard()
        invariant forall r, c :: 0 <= r < N && 0 <= c < N ==>
          board[r, c] == if r in rows || c in cols[..k] then 0 else g[r][c]
      {
        var r := 0;
        while r < N
          invariant 0 <= r <= N
          invariant ValidBoard()
          invariant forall r', c :: 0 <= r' < N && 0 <= c < N ==>
            board[r', c] == if r' in rows || c in cols[..k] || (c == cols[k] && r' < r) then 0 else g[r'][c]
        {
          board[r, cols[k]] := 0;
          r := r + 1;
        }
        assert cols[..k + 1] == cols[..k] + [cols[k]];
        k := k + 1;
      }
      assert cols[..|cols|] == cols;
      SameGrid(Cells(), ClearLines(g));
    }

    /** A click on a hand piece toggles its selection. */
    method SelectPiece(index: nat)
      modifies this`selectedPieceIndex
      ensures selectedPieceIndex == ToggleSelection(old(selectedPieceIndex), index)
    {
      selectedPieceIndex := ToggleSelection(selectedPieceIndex, index);
    }

    /** A click outside the hand and the board drops the selection. */
    method Deselect()
      modifies this`selectedPieceIndex
      ensures selectedPieceIndex == None
    {
      selectedPieceIndex := None;
    }

    /**
     * A click on board cell (row, col). With a selected piece that fits
     * there: place it, take it out of the hand, drop the selection, clear
     * full lines, and draw a new hand from `draws` once the hand is empty.
     */
    method HandleCellClick(row: nat, col: nat, draws: seq<nat>) returns (outcome: ClickOutcome)
      requires Valid() && ValidDraws(draws)
      modifies this, board
      ensures Valid() && board == old(board)
      ensures outcome == Ignored <==> !old(HasSelection())
      ensures outcome != Placed ==>
        Cells() == old(Cells()) && currentPieces == old(currentPieces) && selectedPieceIndex == old(selectedPieceIndex)
      ensures old(HasSelection()) ==>
        (outcome == Placed <==> Fits(old(Cells()), old(currentPieces[selectedPieceIndex.value]).shape, row, col))
      ensures outcome == Placed ==>
        && old(HasSelection())
        && Cells() == ClearLines(Place(old(Cells()), old(currentPieces[selectedPieceIndex.value]).shape, row, col))
        && selectedPieceIndex == None
        && (if |old(currentPieces)| == 1 then IsDrawnHand(currentPieces, draws)
            else currentPieces == RemoveAt(old(currentPieces), old(selectedPieceIndex.value)))
    {
      if selectedPieceIndex.None? {
        return Ignored;
      }
      var index := selectedPieceIndex.value;
      if index >= |currentPieces| {
        return Ignored;
      }
      var piece := currentPieces[index];
      var fits := CanPlacePiece(piece, row, col);
      if !fits {
        return DoesNotFit;
      }
      ghost var g := Cells();
      PlacePieceAt(piece, row, col);
      currentPieces := RemoveAt(currentPieces, index);
      selectedPieceIndex := None;
      var _, _ := CheckAndClearLines();
      if |currentPieces| == 0 {
        GeneratePieces(draws);
        DrawnHandFromCatalog(currentPieces, draws);
      }
      outcome := Placed;
    }

    /**
     * The reset button's own handler: a fresh empty board and a newly drawn
     * hand. The handler itself leaves the selection alone.
     */
    method Reset(draws: seq<nat>)
      requires ValidDraws(draws)
      modifies this
      ensures Valid() && fresh(board)
      ensures Cells() == EmptyGrid()
      ensures IsDrawnHand(currentPieces, draws)
      ensures selectedPieceIndex == old(selectedPieceIndex)
    {
      board := new int[N, N]((r, c) => 0);
      GeneratePieces(draws);
      SameGrid(Cells(), EmptyGrid());
      DrawnHandFromCatalog(currentPieces, draws);
    }

    /**
     * A click on the reset button as the page processes it: the button's
     * handler runs, then the click bubbles to the document, whose listener
     * drops the selection because the button is neither a piece nor a cell.
     */
    method ClickResetButton(draws: seq<nat>)
      requires ValidDraws(draws)
      modifies this
      ensures Valid() && fresh(board)
      ensures Cells() == EmptyGrid()
      ensures IsDrawnHand(currentPieces, draws)
      ensures selectedPieceIndex == None
    {
      Reset(draws);
      Deselect();
    }
  }
}
