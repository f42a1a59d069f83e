/**
 * The piece catalog of the block-placement puzzle: each piece is a
 * rectangular 0/1 mask plus an opaque display colour.
 */
module Pieces {

  /** A mask: a sequence of rows, each a sequence of 0/1 entries. */
  type Shape = seq<seq<int>>

  datatype Piece = Piece(shape: Shape, color: string)

  /**
   * Mask cell (i, j) is filled. The mask is scanned over rows
   * `0 <= i < |s|` and columns `0 <= j < |s[0]|`; an entry past the end of
   * a shorter row reads as absent, and only the value 1 counts as filled.
   */
  predicate Filled(s: Shape, i: int, j: int)
  {
    0 <= i < |s| && 0 <= j < |s[0]| && j < |s[i]| && s[i][j] == 1
  }

  /** Rectangular, non-empty, entries in {0,1}, at least one filled cell. */
  predicate WellFormed(s: Shape)
  {
    && |s| > 0
    && |s[0]| > 0
    && (forall i :: 0 <= i < |s| ==> |s[i]| == |s[0]|)
    && (forall i, j :: 0 <= i < |s| && 0 <= j < |s[i]| ==> s[i][j] == 0 || s[i][j] == 1)
    && (exists i, j :: 0 <= i < |s| && 0 <= j < |s[i]| && Filled(s, i, j))
  }

  /** The set of filled offsets of a mask. */
  ghost function FilledCells(s: Shape): set<(int, int)>
  {
    set i, j | 0 <= i < |s| && 0 <= j < |s[i]| && Filled(s, i, j) :: (i, j)
  }

  /** The number of filled cells of a mask. */
  ghost function Footprint(s: Shape): nat
  {
    |FilledCells(s)|
  }

  /** A well-formed mask covers at least one cell. */
  lemma WellFormedFootprint(s: Shape)
    requires WellFormed(s)
    ensures Footprint(s) >= 1
  {
    var i, j :| 0 <= i < |s| && 0 <= j < |s[i]| && Filled(s, i, j);
    assert (i, j) in FilledCells(s);
  }

  /** The fixed catalog, in source order. */
  const Catalog: seq<Piece> := [
    Piece([[1]], "#FFD700"),                           // 1x1
    Piece([[1, 1]], "#FFD700"),                        // 1x2 horizontal
    Piece([[1], [1]], "#FFD700"),                      // 1x2 vertical
    Piece([[1, 1, 1]], "#ff4444"),                     // 1x3 horizontal
    Piece([[1], [1], [1]], "#ff4444"),                 // 1x3 vertical
    Piece([[1, 0], [1, 1]], "#4444ff"),                // L 2x2
    Piece([[1, 1, 1, 1]], "#32CD32"),                  // 1x4 horizontal
    Piece([[1], [1], [1], [1]], "#32CD32"),            // 1x4 vertical
    Piece([[1, 1], [1, 1]], "#44ff44"),                // 2x2
    Piece([[1, 1, 1], [0, 1, 0]], "#9370DB"),          // T
    Piece([[1, 1, 1], [1, 1, 1], [1, 1, 1]], "#8B0000"), // 3x3
    Piece([[1, 1, 0], [0, 1, 1]], "#FF6347")           // Z
  ]

  /** Every catalog entry has a well-formed mask. */
  lemma CatalogWellFormed()
    ensures |Catalog| == 12
    ensures forall k :: 0 <= k < |Catalog| ==> WellFormed(Catalog[k].shape)
  {
    forall k | 0 <= k < |Catalog|
      ensures WellFormed(Catalog[k].shape)
    {
      assert Filled(Catalog[k].shape, 0, 0);
    }
  }
}
