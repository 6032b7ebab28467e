/**
  The registry of running games, keyed by game id, and the two requests
  that reach the engine through it. Responses carry the overlay the player
  sees, as the source's GameInfoResponse does.
 */
module Store {
  import opened Outcomes
  import opened Cells
  import opened Grids
  import opened Board
  import opened Session

  type Games = map<string, Game>

  datatype GameInfo = GameInfo(gameId: string, width: int, height: int, minesCount: int, completed: bool, field: Grid)

  datatype Reply<E> = Info(info: GameInfo) | Rejected(error: E)

  /** The response body for a game: its overlay, which after a win or a loss is the shown field. */
  function InfoOf(id: string, g: Game): GameInfo {
    GameInfo(id, g.width, g.height, g.minesCount, g.completed, g.scouted)
  }

  ghost predicate AllValid(games: Games) {
    forall id :: id in games ==> Valid(games[id])
  }

  /**
    The /api/new request: `id` is the fresh identifier the caller drew. A
    refused request leaves the registry alone; an accepted one files the new
    game under `id` and answers with its all-blank overlay.
   */
  method HandleNew(games: Games, id: string, width: int, height: int, minesCount: int, draws: seq<Draw>)
    returns (games': Games, reply: Reply<NewGameError>)
    requires DrawsInRange(draws, width, height)
    ensures Validate(width, height, minesCount).Some? ==> reply == Rejected(Validate(width, height, minesCount).value)
    ensures ValidRequest(width, height, minesCount) && |HitBlanks(Fill(width, height, Blank), width, height, draws)| >= minesCount ==> reply.Info?
    ensures reply.Rejected? && ValidRequest(width, height, minesCount) ==> reply.error == DrawsExhausted
    ensures reply.Rejected? ==> games' == games
    ensures reply.Info? ==> id in games' && games' == games[id := games'[id]] && Valid(games'[id])
    ensures reply.Info? ==> reply.info == InfoOf(id, games'[id]) && !reply.info.completed
    ensures reply.Info? ==> reply.info.width == width && reply.info.height == height && reply.info.minesCount == minesCount
    ensures reply.Info? ==> forall i, j :: InBounds(width, height, i, j) ==> reply.info.field[i][j] == Blank
    ensures AllValid(games) ==> AllValid(games')
  {
    var created := NewGame(width, height, minesCount, draws);
    if created.Failure? {
      return games, Rejected(created.error);
    }
    games' := games[id := created.value];
    reply := Info(InfoOf(id, created.value));
  }

  /**
    The /api/turn request: an unknown id is refused first, then the game's
    own checks apply. A refused move leaves every game as it was; an accepted
    one replaces only the game under `id`.
   */
  function HandleTurn(games: Games, id: string, col: int, row: int): (r: (Games, Reply<TurnError>))
    requires forall k :: k in games ==> Shaped(games[k])
    ensures id !in games ==> r.1 == Rejected(GameNotFound)
    ensures id in games ==> (r.1.Rejected? <==> Turn(games[id], col, row).Failure?)
    ensures id in games && Turn(games[id], col, row).Failure? ==> r.1 == Rejected(Turn(games[id], col, row).error)
    ensures r.1.Info? ==> id in games && Turn(games[id], col, row).Success? && r.0 == games[id := Turn(games[id], col, row).value]
    ensures r.1.Rejected? ==> r.0 == games
    ensures r.1.Info? ==> id in games && r.0.Keys == games.Keys
    ensures r.1.Info? ==> forall k :: k in games && k != id ==> r.0[k] == games[k]
    ensures r.1.Info? ==> r.1.info == InfoOf(id, r.0[id])
  {
    if id !in games then (games, Rejected(GameNotFound))
    else
      match Turn(games[id], col, row)
      case Failure(e) => (games, Rejected(e))
      case Success(g') => (games[id := g'], Info(InfoOf(id, g')))
  }

  /** Every game in the registry stays valid whatever move is made. */
  lemma HandleTurnKeepsValid(games: Games, id: string, col: int, row: int)
    requires AllValid(games)
    ensures AllValid(HandleTurn(games, id, col, row).0)
  {
    if id in games && Movable(games[id], col, row) {
      TurnKeepsValid(games[id], col, row);
    }
  }

  /**
    Sending an accepted move a second time is refused: with "already
    cleared" while the game is open, with "game ended" once it is over.
   */
  lemma HandleTurnTwice(games: Games, id: string, col: int, row: int)
    requires AllValid(games)
    requires id in games && Movable(games[id], col, row)
    ensures var (games', reply) := HandleTurn(games, id, col, row);
      HandleTurn(games', id, col, row).1 == Rejected(if reply.info.completed then GameEnded else AlreadyCleared)
  {
    TurnNotRepeatable(games[id], col, row);
  }
}
