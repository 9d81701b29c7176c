/** The older game service of the repository root (`game_service.py`): the
    same engine without locks, action counters or re-join; only a waiting game
    accepts players. */
module LockFreeService {
  import opened Tiles
  import opened Combinations
  import opened GameModel
  import opened Rules
  import opened Handlers
  import TilePool

  class GameService {
    var games: map<GameId, Game>

    /** Distinct ids name distinct game objects. */
    ghost predicate Valid()
      reads this
    {
      forall a, b | a in games && b in games && a != b :: games[a] != games[b]
    }

    constructor ()
      ensures games == map[] && Valid()
    {
      games := map[];
    }

    /** `create_game`: a fresh waiting game with a freshly shuffled 106-tile pool. */
    method CreateGame(gid: GameId, ids: seq<TileId>, picks: seq<nat>, maxPlayers: int) returns (game: Game)
      requires |ids| == TilePool.PoolSize
      requires |picks| == TilePool.PoolSize && forall i | 0 <= i < |picks| :: picks[i] <= i
      modifies this
      ensures fresh(game)
      ensures games == old(games)[gid := game]
      ensures game.status == GameWaiting && game.players == [] && game.board == []
      ensures game.currentIndex == 0 && game.maxPlayers == maxPlayers
      ensures multiset(game.pool) == multiset(TilePool.Unshuffled(ids))
      ensures old(Valid()) ==> Valid()
    {
      var pool := TilePool.CreateTilePool(ids, picks);
      game := new Game(pool, maxPlayers);
      games := games[gid := game];
    }

    /** `join_game_by_id`: refuse any game that is not waiting, then the
        waiting-game rules. */
    method JoinGameById(gid: GameId, name: string, pid: PlayerId) returns (r: JoinResult)
      modifies if gid in games then {games[gid]} else {}
      ensures gid !in games ==> r == JoinFailed(GameNotFound)
      ensures gid in games ==> (r, games[gid].Record()) == JoinLockFree(old(games[gid].Record()), name, pid)
    {
      if gid !in games {
        return JoinFailed(GameNotFound);
      }
      var g := games[gid];
      if g.status != GameWaiting {
        return JoinFailed(NotAcceptingPlayers);
      }
      if |g.players| >= g.maxPlayers {
        return JoinFailed(GameFull);
      }
      var existing := FindPlayerByName(g.players, name);
      r := JoinWaitingGame(g, name, pid, existing.Some?);
    }

    /** `get_game_state_by_player`. */
    method GetGameStateByPlayer(gid: GameId, pid: PlayerId) returns (r: Option<GameView>)
      ensures r.None? <==> gid !in games || PlayerIndex(games[gid].players, ById(pid)).None?
      ensures r.Some? ==> r.value == ViewFor(games[gid].Record(), PlayerIndex(games[gid].players, ById(pid)).value)
    {
      if gid !in games {
        return None;
      }
      var g := games[gid];
      var found := GetPlayerById(g.players, pid);
      if found.None? {
        return None;
      }
      var view := BuildView(g, found.value);
      return Some(view);
    }

    /** `perform_action_by_player`: check player, status and turn, then dispatch. */
    method PerformActionByPlayer(gid: GameId, pid: PlayerId, action: Action) returns (r: ActionResult)
      requires WellFormedAction(action)
      modifies if gid in games then {games[gid]} else {}
      ensures gid !in games ==> r == ActionFailed(GameNotFound)
      ensures gid in games ==> (r, games[gid].Record()) == Act(old(games[gid].Record()), pid, action, BoardAndNew)
    {
      if gid !in games {
        return ActionFailed(GameNotFound);
      }
      var g := games[gid];
      var refusal, i := CheckTurn(g, pid);
      if refusal.Some? {
        return ActionFailed(refusal.value);
      }
      r := HandleAction(g, i, action, BoardAndNew);
    }
  }
}
