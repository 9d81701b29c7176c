/** The copy of the game service inside the integration test: action counters
    as in `src/`, but no re-join branch, and the initial meld scored from the
    new combination alone. */
module TestCopyService {
  import opened Tiles
  import opened Combinations
  import opened GameModel
  import opened Rules
  import opened Handlers
  import TilePool

  class GameService {
    var games: map<GameId, Game>
    /** Counts the actions that passed their checks; a game id is present here
        exactly when the game's lock was registered. */
    var actionCounters: map<GameId, nat>

    /** Distinct ids name distinct game objects. */
    ghost predicate Valid()
      reads this
    {
      forall a, b | a in games && b in games && a != b :: games[a] != games[b]
    }

    constructor ()
      ensures games == map[] && actionCounters == map[] && Valid()
    {
      games := map[];
      actionCounters := map[];
    }

    /** `create_game`: a fresh waiting game and an action counter of 0. */
    method CreateGame(gid: GameId, ids: seq<TileId>, picks: seq<nat>, maxPlayers: int) returns (game: Game)
      requires |ids| == TilePool.PoolSize
      requires |picks| == TilePool.PoolSize && forall i | 0 <= i < |picks| :: picks[i] <= i
      modifies this
      ensures fresh(game)
      ensures games == old(games)[gid := game]
      ensures actionCounters == old(actionCounters)[gid := 0]
      ensures game.status == GameWaiting && game.players == [] && game.board == []
      ensures game.currentIndex == 0 && game.maxPlayers == maxPlayers
      ensures multiset(game.pool) == multiset(TilePool.Unshuffled(ids))
      ensures old(Valid()) ==> Valid()
    {
      var pool := TilePool.CreateTilePool(ids, picks);
      game := new Game(pool, maxPlayers);
      games := games[gid := game];
      actionCounters := actionCounters[gid := 0];
    }

    /** `join_game_by_id` of the copy: a finished game refuses, a waiting game
        takes the waiting-game rules, anything else is refused. */
    method JoinGameById(gid: GameId, name: string, pid: PlayerId) returns (r: JoinResult)
      modifies if gid in games then {games[gid]} else {}
      ensures gid !in games ==> r == JoinFailed(GameNotFound)
      ensures gid in games ==> (r, games[gid].Record()) == JoinTestCopy(old(games[gid].Record()), name, pid)
    {
      if gid !in games {
        return JoinFailed(GameNotFound);
      }
      var g := games[gid];
      var existing := FindPlayerByName(g.players, name);
      if g.status == GameFinished {
        r := JoinFailed(GameHasFinished);
      } else if g.status == GameWaiting {
        r := JoinWaitingGame(g, name, pid, existing.Some?);
      } else {
        r := JoinFailed(UnableToJoin);
      }
    }

    /** `get_game_state_by_player`. */
    method GetGameStateByPlayer(gid: GameId, pid: PlayerId) returns (r: Option<GameView>)
      ensures r.None? <==> gid !in games || PlayerIndex(games[gid].players, ById(pid)).None?
      ensures r.Some? ==> r.value == ViewFor(games[gid].Record(), PlayerIndex(games[gid].players, ById(pid)).value)
    {
      if gid !in games {
        return None;
      }
      var g := games[gid];
      var found := GetPlayerById(g.players, pid);
      if found.None? {
        return None;
      }
      var view := BuildView(g, found.value);
      return Some(view);
    }

    /** `perform_action_by_player` of the copy: as in `src/`, with the new-only
        meld rule. */
    method PerformActionByPlayer(gid: GameId, pid: PlayerId, action: Action) returns (r: ActionResult)
      requires WellFormedAction(action)
      modifies this, if gid in games then {games[gid]} else {}
      ensures games == old(games)
      ensures gid !in games ==> r == ActionFailed(GameNotFound) && actionCounters == old(actionCounters)
      ensures gid in games && gid !in old(actionCounters) ==>
        r == ActionFailed(LockNotFound) && unchanged(games[gid]) && actionCounters == old(actionCounters)
      ensures gid in games && gid in old(actionCounters) ==>
        && (r, games[gid].Record()) == Act(old(games[gid].Record()), pid, action, NewOnly)
        && actionCounters == if Admitted(old(games[gid].Record()), pid)
                             then old(actionCounters)[gid := old(actionCounters)[gid] + 1]
                             else old(actionCounters)
    {
      if gid !in games {
        return ActionFailed(GameNotFound);
      }
      if gid !in actionCounters {
        return ActionFailed(LockNotFound);
      }
      var g := games[gid];
      var refusal, i := CheckTurn(g, pid);
      if refusal.Some? {
        return ActionFailed(refusal.value);
      }
      actionCounters := actionCounters[gid := actionCounters[gid] + 1];
      r := HandleAction(g, i, action, NewOnly);
    }
  }
}
