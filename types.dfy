/** The entities of the game: players, cards, the lifecycle status and the mode. */
module GameTypes {

  datatype Option<+T> = None | Some(value: T)

  datatype PlayerStatus = Alive | Eliminated | Winner

  /** A participant. `id` is the join timestamp for local players and "ai-bot" for
      the automatic opponent. */
  datatype Player = Player(id: string, name: string, status: PlayerStatus, avatar: string, isHost: bool)

  /** A card of the deck. `placedBy` is absent until a trap is placed on the card. */
  datatype Card = Card(id: string, text: string, isNuke: bool, isRevealed: bool, placedBy: Option<string>)

  datatype Status = Lobby | ManualEntry | LoadingRound | SetupTraps | Playing | GameOver

  datatype GameMode = Classic | Party | Timed | Custom

  /** 1 for true, 0 for false: what one entry adds to a count. */
  function Ind(b: bool): nat { if b then 1 else 0 }

  /** Seconds per turn in TIMED mode; also the value every turn change resets the clock to. */
  const TurnTimeLimit: int := 10

  const AiBotId: string := "ai-bot"

  /** The opponent added when a single local player starts a game. */
  const AiPlayer: Player := Player(AiBotId, "SYSTEM_AI", Alive, "\U{1F916}", false)
}
