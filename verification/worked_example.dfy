/**
  The worked 3 by 3 example: one mine in the bottom-right corner, row 2,
  column 2. Revealing the top-left 0 floods the whole safe area and wins;
  revealing the mine loses and shows the field with an X.
 */
module WorkedExample {
  import opened Outcomes
  import opened Cells
  import opened Grids
  import opened Neighbours
  import opened Reveal
  import opened Session

  const ExampleField: Grid := [[Count(0), Count(0), Count(0)], [Count(0), Count(1), Count(1)], [Count(0), Count(1), Mine]]

  /** Stepping on the mine first ends the game, every digit shown and an X on the mine. */
  lemma ExampleLoss()
    ensures var g := Game(3, 3, 1, false, ExampleField, Fill(3, 3, Blank));
      var shown := [[Count(0), Count(0), Count(0)], [Count(0), Count(1), Count(1)], [Count(0), Count(1), XMark]];
      Turn(g, 2, 2) == Success(g.(completed := true, field := shown, scouted := shown))
  {
    var shown := [[Count(0), Count(0), Count(0)], [Count(0), Count(1), Count(1)], [Count(0), Count(1), XMark]];
    var m := MarkMines(ExampleField);
    assert m[0] == shown[0] && m[1] == shown[1] && m[2] == shown[2];
    assert m == shown;
    var g := Game(3, 3, 1, false, ExampleField, Fill(3, 3, Blank));
    assert g.scouted[2][2] == Blank;
  }

  /** The example field is correctly counted. */
  lemma ExampleCounted()
    ensures Counted(ExampleField, 3, 3)
  {
    forall i, j | InBounds(3, 3, i, j)
      ensures ExampleField[i][j] == Mine || (ExampleField[i][j].Count? && ExampleField[i][j].n == |MineNeighbours(ExampleField, 3, 3, i, j)|)
    {
      ExampleMineNeighbours(i, j);
    }
  }

  /** The only mine of the example sits at row 2, column 2. */
  lemma ExampleOnlyMine(a: int, b: int)
    requires InBounds(3, 3, a, b)
    ensures ExampleField[a][b] == Mine <==> a == 2 && b == 2
  {
    assert ExampleField[0] == [Count(0), Count(0), Count(0)];
    assert ExampleField[1] == [Count(0), Count(1), Count(1)];
  }

  /** So the mines around any cell are the corner mine if it is adjacent, and none otherwise. */
  lemma ExampleMineNeighbours(i: int, j: int)
    ensures MineNeighbours(ExampleField, 3, 3, i, j) == if Adjacent(i, j, 2, 2) then {(2, 2)} else {}
  {
    var s := MineNeighbours(ExampleField, 3, 3, i, j);
    forall p | p in s
      ensures p == (2, 2)
    {
      ExampleOnlyMine(p.0, p.1);
    }
    if Adjacent(i, j, 2, 2) {
      assert (2, 2) in s;
    }
  }

  /** Revealing the top-left 0 uncovers all eight safe cells, which wins at once. */
  lemma ExampleFloodWins()
    ensures var g := Game(3, 3, 1, false, ExampleField, Fill(3, 3, Blank));
      Turn(g, 0, 0) == Success(g.(completed := true, scouted := ExampleField))
  {
    var g := Game(3, 3, 1, false, ExampleField, Fill(3, 3, Blank));
    ExampleCounted();
    assert CountOf(ExampleField, Mine) == 1;
    assert Valid(g);
    var r := RevealCell(g.scouted, g.field, 3, 3, 0, 0);
    TurnOnSafeCell(g, 0, 0);
    FloodLeavesNoBlankNeighbour(g.scouted, g.field, 3, 3, 0, 0);
    assert NoBlankAround(r, 3, 3, 0, 0);
    assert r[0][1] == Count(0) && r[1][0] == Count(0);
    assert NoBlankAround(r, 3, 3, 0, 1);
    assert NoBlankAround(r, 3, 3, 1, 0);
    assert Adjacent(0, 1, 0, 2) && Adjacent(0, 1, 1, 2) && Adjacent(1, 0, 2, 0) && Adjacent(1, 0, 2, 1);
  }

  /** A move one column past the right edge is refused. */
  lemma ExampleOutOfBounds()
    ensures Turn(Game(3, 3, 1, false, ExampleField, Fill(3, 3, Blank)), 3, 0) == Failure(OutOfBounds)
  {
  }
}
