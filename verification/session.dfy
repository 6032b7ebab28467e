/**
  One game session: creation (new_game) and the move state machine (turn).
  Both grids are kept as the source keeps them: `field` is the hidden field,
  `scouted` the overlay the player sees.
 */
module Session {
  import opened Outcomes
  import opened Cells
  import opened Grids
  import opened Neighbours
  import opened Board
  import opened Reveal

  datatype Game = Game(width: int, height: int, minesCount: int, completed: bool, field: Grid, scouted: Grid)

  datatype TurnError =
    | GameNotFound    // no game under the requested id
    | GameEnded       // the game is already won or lost
    | OutOfBounds     // the coordinates are off the field
    | AlreadyCleared  // the cell is already scouted

  /** Both grids are `height` rows of `width` cells. */
  predicate Shaped(g: Game) {
    IsGrid(g.field, g.width, g.height) && IsGrid(g.scouted, g.width, g.height)
  }

  /**
    A game still in play: its field is counted and holds `minesCount` mines,
    and each cell of the overlay is blank or shows the safe cell below it.
   */
  ghost predicate Playable(g: Game)
    requires Shaped(g)
  {
    && Counted(g.field, g.width, g.height)
    && CountOf(g.field, Mine) == g.minesCount
    && forall i, j :: InBounds(g.width, g.height, i, j) ==>
         g.scouted[i][j] == Blank || (g.scouted[i][j] == g.field[i][j] && g.field[i][j] != Mine)
  }

  /** The states a session can reach: a finished game shows one grid in both places. */
  ghost predicate Valid(g: Game) {
    && ValidRequest(g.width, g.height, g.minesCount)
    && Shaped(g)
    && (g.completed ==> g.scouted == g.field)
    && (!g.completed ==> Playable(g))
  }

  /**
    new_game: the request checks in order, then a blank field and a blank
    overlay, the mines placed with the supplied draws, and the counting pass.
   */
  method NewGame(width: int, height: int, minesCount: int, draws: seq<Draw>) returns (r: Result<Game, NewGameError>)
    requires DrawsInRange(draws, width, height)
    ensures Validate(width, height, minesCount).Some? ==> r == Failure(Validate(width, height, minesCount).value)
    ensures r.Failure? && ValidRequest(width, height, minesCount) ==> r.error == DrawsExhausted
    ensures ValidRequest(width, height, minesCount) && |HitBlanks(Fill(width, height, Blank), width, height, draws)| >= minesCount
      ==> r.Success?
    ensures r.Success? ==> Valid(r.value) && !r.value.completed
    ensures r.Success? ==> r.value.width == width && r.value.height == height && r.value.minesCount == minesCount
    ensures r.Success? ==> forall i, j :: InBounds(width, height, i, j) ==> r.value.scouted[i][j] == Blank
    ensures r.Success? ==> CountOf(r.value.scouted, Blank) == width * height
  {
    var err := Validate(width, height, minesCount);
    if err.Some? {
      return Failure(err.value);
    }
    var field := Fill(width, height, Blank);
    var scouted := Fill(width, height, Blank);
    if |HitBlanks(field, width, height, draws)| >= minesCount {
      PlaceMinesFinishes(field, width, height, draws, minesCount);
    }
    var placed := PlaceMines(field, width, height, draws, minesCount);
    if placed.None? {
      return Failure(DrawsExhausted);
    }
    CountOfFill(width, height, Blank, Mine);
    CountOfFill(width, height, Blank, Blank);
    field := CountNeighbourMines(placed.value, width, height);
    CountsAgree(field, placed.value, width, height, Mine, Mine);
    forall i, j | InBounds(width, height, i, j) && field[i][j] != Mine
      ensures field[i][j].Count? && field[i][j].n == |MineNeighbours(field, width, height, i, j)|
    {
      SameMinesSameCounts(field, placed.value, width, height, i, j);
    }
    r := Success(Game(width, height, minesCount, false, field, scouted));
  }

  /** A move `turn` accepts: the game is open and the in-field target is not yet scouted. */
  predicate Movable(g: Game, col: int, row: int)
    requires Shaped(g)
  {
    !g.completed && InBounds(g.width, g.height, row, col) && g.scouted[row][col] == Blank
  }

  /**
    turn, once the game has been found: the checks in the source's order
    (finished game, coordinates, already scouted cell), then a mine loses, a
    0 floods, any other value shows that one cell; after a safe reveal the
    game is won when the blank cells left are as many as the mines.
   */
  function Turn(g: Game, col: int, row: int): (r: Result<Game, TurnError>)
    requires Shaped(g)
    ensures g.completed ==> r == Failure(GameEnded)
    ensures !g.completed && !InBounds(g.width, g.height, row, col) ==> r == Failure(OutOfBounds)
    ensures !g.completed && InBounds(g.width, g.height, row, col) && g.scouted[row][col] != Blank ==> r == Failure(AlreadyCleared)
    ensures r.Success? <==> Movable(g, col, row)
    ensures r.Success? ==> Shaped(r.value) && r.value.width == g.width && r.value.height == g.height
    ensures r.Success? ==> r.value.minesCount == g.minesCount
  {
    if g.completed then Failure(GameEnded)
    else if !(0 <= row < g.height && 0 <= col < g.width) then Failure(OutOfBounds)
    else if g.scouted[row][col] != Blank then Failure(AlreadyCleared)
    else if g.field[row][col] == Mine then
      var shown := MarkMines(g.field);
      Success(g.(completed := true, field := shown, scouted := shown))
    else
      var scouted := RevealCell(g.scouted, g.field, g.width, g.height, col, row);
      if g.minesCount == CountOf(scouted, Blank) then Success(g.(completed := true, scouted := g.field))
      else Success(g.(scouted := scouted))
  }

  /**
    Stepping on a mine ends the game and shows the converted field in both
    places: an X exactly where each mine is, every safe cell with its count,
    and every cell scouted before unchanged.
   */
  lemma TurnOnMine(g: Game, col: int, row: int)
    requires Valid(g) && Movable(g, col, row)
    requires g.field[row][col] == Mine
    ensures var g' := Turn(g, col, row).value;
      && g'.completed && g'.field == g'.scouted && g'.field == MarkMines(g.field)
      && (forall i, j :: InBounds(g.width, g.height, i, j) ==> (g'.scouted[i][j] == XMark <==> g.field[i][j] == Mine))
      && (forall i, j :: InBounds(g.width, g.height, i, j) && g.field[i][j] != Mine ==> g'.scouted[i][j] == g.field[i][j])
      && (forall i, j :: InBounds(g.width, g.height, i, j) && g.scouted[i][j] != Blank ==> g'.scouted[i][j] == g.scouted[i][j])
      && CountOf(g'.scouted, XMark) == g.minesCount
  {
    CountOfAbsent(g.field, g.width, g.height, XMark);
    MarkMinesShowsMines(g.field, g.width, g.height);
  }

  /**
    A safe reveal keeps the hidden field and scouts only blank safe cells.
    The game is then won exactly when every safe cell is scouted, and a won
    game shows the whole hidden field; otherwise the overlay is the revealed one.
   */
  lemma TurnOnSafeCell(g: Game, col: int, row: int)
    requires Valid(g) && Movable(g, col, row)
    requires g.field[row][col] != Mine
    ensures var g' := Turn(g, col, row).value;
      var revealed := RevealCell(g.scouted, g.field, g.width, g.height, col, row);
      && g'.field == g.field
      && Reveals(g.field, g.scouted, revealed, g.width, g.height)
      && (g'.completed <==> forall i, j :: InBounds(g.width, g.height, i, j) && g.field[i][j] != Mine ==> revealed[i][j] != Blank)
      && (g'.completed ==> g'.scouted == g.field)
      && (!g'.completed ==> g'.scouted == revealed)
  {
    var revealed := RevealCell(g.scouted, g.field, g.width, g.height, col, row);
    CountDominance(revealed, g.field, g.width, g.height, Blank, Mine);
  }

  /** Every move a valid game accepts leads to a valid game. */
  lemma TurnKeepsValid(g: Game, col: int, row: int)
    requires Valid(g) && Movable(g, col, row)
    ensures Valid(Turn(g, col, row).value)
  {
    if g.field[row][col] != Mine {
      TurnOnSafeCell(g, col, row);
    }
  }

  /**
    A move that was accepted cannot be made again: the cell is scouted now,
    or the game has ended.
   */
  lemma TurnNotRepeatable(g: Game, col: int, row: int)
    requires Valid(g) && Movable(g, col, row)
    ensures var g' := Turn(g, col, row).value;
      Turn(g', col, row) == Failure(if g'.completed then GameEnded else AlreadyCleared)
  {
    if g.field[row][col] != Mine {
      TurnOnSafeCell(g, col, row);
    }
  }

  /** Revealing a counted cell other than 0 scouts that one cell and nothing else. */
  lemma TurnOnDigit(g: Game, col: int, row: int)
    requires Valid(g) && Movable(g, col, row)
    requires g.field[row][col] != Mine && g.field[row][col] != Count(0)
    ensures var g' := Turn(g, col, row).value;
      !g'.completed ==>
        && g'.scouted[row][col] == g.field[row][col]
        && forall i, j :: InBounds(g.width, g.height, i, j) && (i != row || j != col) ==> g'.scouted[i][j] == g.scouted[i][j]
  {
    TurnOnSafeCell(g, col, row);
  }

  /**
    Revealing a 0 leaves no blank cell next to any 0 the move uncovered,
    the target included.
   */
  lemma TurnOnZero(g: Game, col: int, row: int)
    requires Valid(g) && Movable(g, col, row)
    requires g.field[row][col] == Count(0)
    ensures var g' := Turn(g, col, row).value;
      forall i, j :: InBounds(g.width, g.height, i, j) && g.scouted[i][j] == Blank && g'.scouted[i][j] == Count(0) ==>
        NoBlankAround(g'.scouted, g.width, g.height, i, j)
  {
    var g' := Turn(g, col, row).value;
    TurnOnSafeCell(g, col, row);
    FloodLeavesNoBlankNeighbour(g.scouted, g.field, g.width, g.height, col, row);
    if g'.completed {
      forall i, j | InBounds(g.width, g.height, i, j)
        ensures g'.scouted[i][j] != Blank
      {
      }
    }
  }

  /**
    Every accepted move that leaves the game open scouts at least one cell, so
    a game ends after at most `width * height` moves.
   */
  lemma TurnScoutsSomething(g: Game, col: int, row: int)
    requires Valid(g) && Movable(g, col, row)
    ensures var g' := Turn(g, col, row).value;
      !g'.completed ==> CountOf(g'.scouted, Blank) < CountOf(g.scouted, Blank)
  {
    if g.field[row][col] != Mine {
      TurnOnSafeCell(g, col, row);
    }
  }
}
