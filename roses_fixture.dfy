/** The example in the field module: the fixture field and garden, run through
    the enumeration. */
module RosesFixture {
  import opened Roses

  /** A 4-row by 2-column enumeration, unfolded row by row. */
  lemma FixtureCorners()
    ensures Corners(4, 2) == [(0, 0), (0, 1), (1, 0), (1, 1), (2, 0), (2, 1), (3, 0), (3, 1)]
  {
    assert RowCorners(0, 2) == [(0, 0), (0, 1)];
    assert RowCorners(1, 2) == [(1, 0), (1, 1)];
    assert RowCorners(2, 2) == [(2, 0), (2, 1)];
    assert RowCorners(3, 2) == [(3, 0), (3, 1)];
    assert Corners(1, 2) == [(0, 0), (0, 1)];
    assert Corners(2, 2) == [(0, 0), (0, 1), (1, 0), (1, 1)];
    assert Corners(3, 2) == [(0, 0), (0, 1), (1, 0), (1, 1), (2, 0), (2, 1)];
  }

  /** The module's own example: a field of 6 rows by 4 columns with a
      3 x 3 garden has eight corners, rows 0 to 3 by columns 0 to 1. */
  method FixtureGardens() returns (gardens: seq<Cell>)
    ensures gardens == [(0, 0), (0, 1), (1, 0), (1, 1), (2, 0), (2, 1), (3, 0), (3, 1)]
  {
    var roses := map[(0, 0) := 1, (0, 2) := 10, (1, 0) := 4, (1, 3) := 2, (2, 1) := 4,
                     (2, 2) := 5, (2, 3) := 1, (3, 0) := 2, (3, 2) := 9, (4, 0) := 3,
                     (4, 2) := 14, (5, 0) := 5, (5, 2) := 1, (5, 3) := 100];
    var costs := map[(0, 2) := 1, (1, 0) := 1, (1, 3) := 5, (2, 1) := 2, (2, 2) := 3,
                     (2, 3) := 1, (3, 0) := 1, (3, 2) := 2, (4, 0) := 2, (4, 2) := 20,
                     (5, 0) := 1, (5, 2) := 10, (5, 3) := 1];
    var field := new RosesField(4, 6, [(0, 2), (1, 0)], roses, costs, 3, 3);
    gardens := field.FindAllPotentialGardens();
    FixtureCorners();
  }
}
