/** The field of roses: a grid of `fieldHeight` rows and `fieldWidth`
    columns with sparse per-cell data, and a garden shape of `gardenHeight`
    rows by `gardenWidth` columns. The class stores what it is given and
    enumerates, in row-major order, the top-left corners at which a garden
    of the current shape fits inside the field. */
module Roses {

  /** A cell coordinate, (row, col). */
  type Cell = (int, int)

  /** The number of values Python's `range(n)` yields: none when `n` is not positive. */
  function RangeLength(n: int): nat
  {
    if n > 0 then n else 0
  }

  /** The corners `(r, 0), ..., (r, cols - 1)` that one pass of the inner
      loop appends for row `r`. */
  function RowCorners(r: int, cols: int): seq<Cell>
    decreases cols
  {
    if cols <= 0 then [] else RowCorners(r, cols - 1) + [(r, cols - 1)]
  }

  /** The corners that the nested loops append over the rows `0 .. rows - 1`,
      each row from column `0` to column `cols - 1`. */
  function Corners(rows: int, cols: int): seq<Cell>
    decreases rows
  {
    if rows <= 0 then [] else Corners(rows - 1, cols) + RowCorners(rows - 1, cols)
  }

  /** Lexicographic order on cells: by row, then by column. */
  predicate LexLess(a: Cell, b: Cell)
  {
    a.0 < b.0 || (a.0 == b.0 && a.1 < b.1)
  }

  /** Every element comes strictly before every later one in row-major order. */
  predicate StrictlyRowMajor(s: seq<Cell>)
  {
    forall i, j :: 0 <= i < j < |s| ==> LexLess(s[i], s[j])
  }

  /** `cell` lies in the garden whose top-left corner is `corner`. */
  predicate InGarden(corner: Cell, gardenHeight: int, gardenWidth: int, cell: Cell)
  {
    corner.0 <= cell.0 < corner.0 + gardenHeight && corner.1 <= cell.1 < corner.1 + gardenWidth
  }

  /** `cell` lies in the field. */
  predicate InField(fieldHeight: int, fieldWidth: int, cell: Cell)
  {
    0 <= cell.0 < fieldHeight && 0 <= cell.1 < fieldWidth
  }

  /** Row `r` contributes `cols` corners, the k-th being `(r, k)`. */
  lemma {:induction false} RowCornersAt(r: int, cols: int)
    ensures |RowCorners(r, cols)| == RangeLength(cols)
    ensures forall k :: 0 <= k < |RowCorners(r, cols)| ==> RowCorners(r, cols)[k] == (r, k)
  {
    if cols > 0 {
      RowCornersAt(r, cols - 1);
    }
  }

  /** Row `r` holds exactly the cells `(r, 0), ..., (r, cols - 1)`. */
  lemma {:induction false} RowCornersMembership(r: int, cols: int, p: Cell)
    ensures p in RowCorners(r, cols) <==> p.0 == r && 0 <= p.1 < cols
  {
    if cols > 0 {
      var front := RowCorners(r, cols - 1);
      assert RowCorners(r, cols) == front + [(r, cols - 1)];
      assert p in front + [(r, cols - 1)] <==> p in front || p == (r, cols - 1);
      RowCornersMembership(r, cols - 1, p);
    }
  }

  /** The enumeration holds exactly the cells of `[0, rows) x [0, cols)`:
      bounds in one direction, completeness in the other. */
  lemma {:induction false} CornersMembership(rows: int, cols: int, p: Cell)
    ensures p in Corners(rows, cols) <==> 0 <= p.0 < rows && 0 <= p.1 < cols
  {
    if rows > 0 {
      var front, last := Corners(rows - 1, cols), RowCorners(rows - 1, cols);
      assert Corners(rows, cols) == front + last;
      assert p in front + last <==> p in front || p in last;
      CornersMembership(rows - 1, cols, p);
      RowCornersMembership(rows - 1, cols, p);
    }
  }

  /** The enumeration has `rows * cols` corners when both counts are
      positive, and none otherwise. */
  lemma {:induction false} CornersLength(rows: int, cols: int)
    ensures |Corners(rows, cols)| == RangeLength(rows) * RangeLength(cols)
  {
    if rows > 0 {
      CornersLength(rows - 1, cols);
      RowCornersAt(rows - 1, cols);
      assert RangeLength(rows) * RangeLength(cols)
          == RangeLength(rows - 1) * RangeLength(cols) + RangeLength(cols);
    }
  }

  /** The enumeration is in strictly increasing row-major order. */
  lemma {:induction false} CornersRowMajor(rows: int, cols: int)
    ensures StrictlyRowMajor(Corners(rows, cols))
  {
    if rows > 0 {
      var front := Corners(rows - 1, cols);
      var last := RowCorners(rows - 1, cols);
      CornersRowMajor(rows - 1, cols);
      RowCornersAt(rows - 1, cols);
      forall i | 0 <= i < |front|
        ensures front[i].0 < rows - 1
      {
        CornersMembership(rows - 1, cols, front[i]);
      }
      var s := front + last;
      forall i, j | 0 <= i < j < |s|
        ensures LexLess(s[i], s[j])
      {
        if j < |front| {
          assert s[i] == front[i] && s[j] == front[j];
        } else if i < |front| {
          assert s[i] == front[i] && s[j] == last[j - |front|];
        } else {
          assert s[i] == last[i - |front|] && s[j] == last[j - |front|];
        }
      }
    }
  }

  /** No cell occurs twice in `s`. */
  predicate NoRepeats(s: seq<Cell>)
  {
    forall i, j :: 0 <= i < j < |s| ==> s[i] != s[j]
  }

  /** A strictly row-major sequence holds no cell twice. */
  lemma RowMajorDistinct(s: seq<Cell>)
    requires StrictlyRowMajor(s)
    ensures NoRepeats(s)
  {
  }

  /** Each enumerated corner places the whole garden inside the field. */
  lemma CornersGardenInField(fieldHeight: int, fieldWidth: int, gardenHeight: int, gardenWidth: int)
    ensures forall p, cell ::
      (p in Corners(fieldHeight - gardenHeight + 1, fieldWidth - gardenWidth + 1) &&
       InGarden(p, gardenHeight, gardenWidth, cell)) ==> InField(fieldHeight, fieldWidth, cell)
  {
    forall p, cell |
      p in Corners(fieldHeight - gardenHeight + 1, fieldWidth - gardenWidth + 1) &&
      InGarden(p, gardenHeight, gardenWidth, cell)
      ensures InField(fieldHeight, fieldWidth, cell)
    {
      CornersMembership(fieldHeight - gardenHeight + 1, fieldWidth - gardenWidth + 1, p);
    }
  }

  /** What `RosesField.FindAllPotentialGardens` returns for a field and a
      garden shape: exactly the corners with `0 <= row <= fieldHeight -
      gardenHeight` and `0 <= col <= fieldWidth - gardenWidth`, as many as the
      two ranges multiply to (none when the garden is taller or wider than
      the field), in strictly increasing row-major order and so without
      repetition, and each placing the whole garden inside the field. */
  lemma PotentialGardens(fieldHeight: int, fieldWidth: int, gardenHeight: int, gardenWidth: int)
    ensures forall p :: p in Corners(fieldHeight - gardenHeight + 1, fieldWidth - gardenWidth + 1) <==>
      0 <= p.0 <= fieldHeight - gardenHeight && 0 <= p.1 <= fieldWidth - gardenWidth
    ensures |Corners(fieldHeight - gardenHeight + 1, fieldWidth - gardenWidth + 1)|
      == RangeLength(fieldHeight - gardenHeight + 1) * RangeLength(fieldWidth - gardenWidth + 1)
    ensures gardenHeight > fieldHeight || gardenWidth > fieldWidth ==>
      Corners(fieldHeight - gardenHeight + 1, fieldWidth - gardenWidth + 1) == []
    ensures StrictlyRowMajor(Corners(fieldHeight - gardenHeight + 1, fieldWidth - gardenWidth + 1))
    ensures NoRepeats(Corners(fieldHeight - gardenHeight + 1, fieldWidth - gardenWidth + 1))
    ensures forall p, cell ::
      (p in Corners(fieldHeight - gardenHeight + 1, fieldWidth - gardenWidth + 1) &&
       InGarden(p, gardenHeight, gardenWidth, cell)) ==> InField(fieldHeight, fieldWidth, cell)
  {
    var rows, cols := fieldHeight - gardenHeight + 1, fieldWidth - gardenWidth + 1;
    forall p
      ensures p in Corners(rows, cols) <==> 0 <= p.0 < rows && 0 <= p.1 < cols
    {
      CornersMembership(rows, cols, p);
    }
    CornersLength(rows, cols);
    CornersRowMajor(rows, cols);
    RowMajorDistinct(Corners(rows, cols));
    CornersGardenInField(fieldHeight, fieldWidth, gardenHeight, gardenWidth);
  }

  class RosesField {
    var fieldWidth: int
    var fieldHeight: int
    var purchasedSquares: seq<Cell>
    var locationRoses: map<Cell, int>
    var locationCosts: map<Cell, int>
    var gardenWidth: int
    var gardenHeight: int

    /** Stores every argument, unchanged, in the field of the same name. */
    constructor (fieldWidth: int, fieldHeight: int, purchasedSquares: seq<Cell>,
                 locationRoses: map<Cell, int>, locationCosts: map<Cell, int>,
                 gardenWidth: int, gardenHeight: int)
      ensures this.fieldWidth == fieldWidth && this.fieldHeight == fieldHeight
      ensures this.purchasedSquares == purchasedSquares
      ensures this.locationRoses == locationRoses && this.locationCosts == locationCosts
      ensures this.gardenWidth == gardenWidth && this.gardenHeight == gardenHeight
    {
      this.fieldWidth := fieldWidth;
      this.fieldHeight := fieldHeight;
      this.purchasedSquares := purchasedSquares;
      this.locationRoses := locationRoses;
      this.locationCosts := locationCosts;
      this.gardenWidth := gardenWidth;
      this.gardenHeight := gardenHeight;
    }

    /** The top-left corners at which a `gardenHeight x gardenWidth` garden
        fits inside the field, in the order the nested loops append them;
        `PotentialGardens` states what that enumeration holds. The method
        has no `modifies` clause, so every field keeps its value. */
    method FindAllPotentialGardens() returns (potentialGardens: seq<Cell>)
      ensures potentialGardens == Corners(fieldHeight - gardenHeight + 1, fieldWidth - gardenWidth + 1)
    {
      potentialGardens := [];
      var rows := fieldHeight - gardenHeight + 1;
      var cols := fieldWidth - gardenWidth + 1;
      var row := 0;
      while row < rows
        invariant 0 <= row <= RangeLength(rows)
        invariant potentialGardens == Corners(row, cols)
      {
        var col := 0;
        while col < cols
          invariant 0 <= col <= RangeLength(cols)
          invariant potentialGardens == Corners(row, cols) + RowCorners(row, col)
        {
          potentialGardens := potentialGardens + [(row, col)];
          col := col + 1;
        }
        row := row + 1;
      }
    }
  }
}
