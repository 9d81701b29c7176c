/** Players and games: the records the rules engine keeps, the turn pointer
    (`current_player`, `next_turn`) and the per-player projection of a game. */
module GameModel {
  import opened Tiles
  import opened Combinations

  /** Player and game identifiers are opaque values; the source draws them from uuid4. */
  type PlayerId = nat
  type GameId = nat

  datatype PlayerStatus = PlayerWaiting | PlayerPlaying | PlayerFinished
  datatype GameStatus = GameWaiting | InProgress | GameFinished

  datatype Player = Player(
    id: PlayerId,
    name: string,
    tiles: seq<Tile>,
    status: PlayerStatus,
    hasInitialMeld: bool)

  /** A snapshot of every field of a game that the engine reads or writes. */
  datatype GameRecord = GameRecord(
    status: GameStatus,
    players: seq<Player>,
    board: seq<Combination>,
    pool: seq<Tile>,
    currentIndex: nat,
    maxPlayers: int)

  /** The player whose turn it is: none when there are no players or the
      index has run past the end of the player list. */
  function CurrentPlayerOf(g: GameRecord): (r: Option<Player>)
    ensures r.Some? <==> g.currentIndex < |g.players|
    ensures r.Some? ==> r.value == g.players[g.currentIndex]
  {
    if |g.players| == 0 || g.currentIndex >= |g.players| then None
    else Some(g.players[g.currentIndex])
  }

  /** The index `next_turn` moves to: one further round the table, wrapping
      at the number of players; nothing moves when there are no players. */
  function NextIndex(g: GameRecord): (i: nat)
    ensures |g.players| == 0 ==> i == g.currentIndex
    ensures |g.players| > 0 ==> i < |g.players|
    ensures |g.players| > 0 && g.currentIndex + 1 < |g.players| ==> i == g.currentIndex + 1
    ensures |g.players| > 0 && g.currentIndex + 1 == |g.players| ==> i == 0
  {
    if |g.players| > 0 then (g.currentIndex + 1) % |g.players| else g.currentIndex
  }

  /** A new game: waiting, no players, empty board, the given pool, turn 0. */
  function NewGame(pool: seq<Tile>, maxPlayers: int): GameRecord
  {
    GameRecord(GameWaiting, [], [], pool, 0, maxPlayers)
  }

  // ---------------------------------------------------------------------
  // The per-player projection

  /** What every player may see about another player: no tiles, only their count. */
  datatype PlayerInfo = PlayerInfo(name: string, status: PlayerStatus, tileCount: nat, hasInitialMeld: bool)

  datatype GameView = GameView(
    status: GameStatus,
    players: seq<PlayerInfo>,
    yourTiles: seq<Tile>,
    board: seq<Combination>,
    currentPlayer: Option<string>,
    canPlay: bool)

  function InfoOf(p: Player): PlayerInfo
  {
    PlayerInfo(p.name, p.status, |p.tiles|, p.hasInitialMeld)
  }

  /** The projection of `g` for the player at index `i`. */
  function ViewFor(g: GameRecord, i: nat): (v: GameView)
    requires i < |g.players|
    ensures |v.players| == |g.players|
    ensures forall k | 0 <= k < |g.players| ::
      v.players[k].name == g.players[k].name && v.players[k].tileCount == |g.players[k].tiles|
    ensures v.yourTiles == g.players[i].tiles && v.board == g.board
    ensures v.canPlay <==> g.currentIndex < |g.players| && g.players[g.currentIndex].id == g.players[i].id
  {
    var cur := CurrentPlayerOf(g);
    GameView(
      g.status,
      seq(|g.players|, k requires 0 <= k < |g.players| => InfoOf(g.players[k])),
      g.players[i].tiles,
      g.board,
      if cur.Some? then Some(cur.value.name) else None,
      cur.Some? && cur.value.id == g.players[i].id)
  }

  // ---------------------------------------------------------------------
  // The mutable game object

  class Game {
    var status: GameStatus
    var players: seq<Player>
    var board: seq<Combination>
    var pool: seq<Tile>
    var currentIndex: nat
    var maxPlayers: int

    function Record(): GameRecord
      reads this
    {
      GameRecord(status, players, board, pool, currentIndex, maxPlayers)
    }

    constructor (pool: seq<Tile>, maxPlayers: int)
      ensures Record() == NewGame(pool, maxPlayers)
    {
      this.status := GameWaiting;
      this.players := [];
      this.board := [];
      this.pool := pool;
      this.currentIndex := 0;
      this.maxPlayers := maxPlayers;
    }

    /** Move the turn to the next player. */
    method NextTurn()
      modifies this`currentIndex
      ensures currentIndex == NextIndex(old(Record()))
    {
      if |players| > 0 {
        currentIndex := (currentIndex + 1) % |players|;
      }
    }
  }
}
