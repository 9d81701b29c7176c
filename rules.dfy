/** What the game service does to a game, as functions from the game's
    record before a call to the result and the record after it. The
    imperative services are proved against these functions; the properties
    of the engine (tile conservation, at most two players, the turn pointer,
    the 30-point initial meld, win detection) are proved about them. */
module Rules {
  import opened Tiles
  import opened Combinations
  import opened GameModel

  /** Every way a join or an action can be refused. */
  datatype Failure =
    | GameNotFound | GameHasFinished | GameFull | NameTaken | NotEnoughTiles
    | NotAcceptingPlayers | UnableToJoin
    | LockNotFound | PlayerNotFound | NotInProgress | NoCurrentPlayer | NotYourTurn
    | NoTilesSpecified | TileNotInHand(id: TileId) | InvalidCombination | InitialMeldTooLow
    | NoTilesInPool | RearrangeNotImplemented | InvalidActionType

  datatype JoinResult = Joined(player: Player) | Rejoined(player: Player) | JoinFailed(failure: Failure)

  /** A requested action; a place request without tiles carries the empty list. */
  datatype Action = PlaceTiles(tileIds: seq<TileId>) | DrawTile | Rearrange | OtherAction(actionType: string)

  datatype ActionResult = ActionOk(state: GameView) | ActionFailed(failure: Failure)

  /** How the initial meld is scored: the service also counts board
      combinations that share a tile id with the placed tiles; the copy in the
      integration test counts the new combination only. */
  datatype MeldRule = BoardAndNew | NewOnly

  const InitialMeldMinimum: int := 30
  const TilesDealt: nat := 14

  // ---------------------------------------------------------------------
  // Lookups (first match, as the source's loops return)

  /** What a player lookup searches by. */
  datatype PlayerKey = ByName(name: string) | ById(id: PlayerId)

  predicate Matches(p: Player, key: PlayerKey)
  {
    match key
    case ByName(name) => p.name == name
    case ById(id) => p.id == id
  }

  /** The position of the first player matching `key`, if any. */
  function PlayerIndex(ps: seq<Player>, key: PlayerKey): (r: Option<nat>)
    ensures r.Some? ==> r.value < |ps| && Matches(ps[r.value], key)
    ensures r.Some? ==> forall k | 0 <= k < r.value :: !Matches(ps[k], key)
    ensures r.None? <==> forall k | 0 <= k < |ps| :: !Matches(ps[k], key)
  {
    if ps == [] then None
    else if Matches(ps[0], key) then Some(0)
    else match PlayerIndex(ps[1..], key)
      case None => None
      case Some(k) => Some(k + 1)
  }

  function TileWithId(ts: seq<Tile>, id: TileId): (r: Option<Tile>)
    ensures r.Some? ==> r.value in ts && r.value.id == id
    ensures r.None? <==> forall k | 0 <= k < |ts| :: ts[k].id != id
  {
    if ts == [] then None
    else if ts[0].id == id then Some(ts[0])
    else TileWithId(ts[1..], id)
  }

  datatype Lookup = Found(tiles: seq<Tile>) | Missing(id: TileId)

  /** The hand tiles for the requested ids, in request order, or the first id
      that is not in the hand. */
  function TilesForIds(hand: seq<Tile>, ids: seq<TileId>): (r: Lookup)
    ensures r.Found? ==> |r.tiles| == |ids| && forall k | 0 <= k < |ids| :: r.tiles[k] in hand && r.tiles[k].id == ids[k]
    ensures r.Missing? ==> r.id in ids && forall k | 0 <= k < |hand| :: hand[k].id != r.id
  {
    if ids == [] then Found([])
    else match TileWithId(hand, ids[0])
      case None => Missing(ids[0])
      case Some(t) =>
        match TilesForIds(hand, ids[1..])
        case Missing(x) => Missing(x)
        case Found(ts) => Found([t] + ts)
  }

  /** `list.remove`: drop the first occurrence of `x`. */
  function RemoveFirst(s: seq<Tile>, x: Tile): (r: seq<Tile>)
    ensures multiset(r) == multiset(s) - multiset{x}
  {
    if s == [] then []
    else if s[0] == x then (assert s == [s[0]] + s[1..]; s[1..])
    else (assert s == [s[0]] + s[1..]; [s[0]] + RemoveFirst(s[1..], x))
  }

  /** Remove each tile of `ts` in turn. */
  function RemoveEach(s: seq<Tile>, ts: seq<Tile>): (r: seq<Tile>)
    ensures multiset(r) == multiset(s) - multiset(ts)
    decreases |ts|
  {
    if ts == [] then s
    else
      assert ts == [ts[0]] + ts[1..];
      RemoveEach(RemoveFirst(s, ts[0]), ts[1..])
  }

  // ---------------------------------------------------------------------
  // Tiles of a game

  function HandTiles(ps: seq<Player>): seq<Tile>
  {
    if ps == [] then [] else HandTiles(ps[..|ps| - 1]) + ps[|ps| - 1].tiles
  }

  function BoardTiles(b: seq<Combination>): seq<Tile>
  {
    if b == [] then [] else BoardTiles(b[..|b| - 1]) + b[|b| - 1].tiles
  }

  /** Every tile of the game: pool, then every hand, then every combination. */
  function AllTiles(g: GameRecord): seq<Tile>
  {
    g.pool + HandTiles(g.players) + BoardTiles(g.board)
  }

  lemma MultisetCancel(a: multiset<Tile>, b: multiset<Tile>, c: multiset<Tile>)
    requires a + c == b + c
    ensures a == b
  {
    assert forall x :: a[x] == (a + c)[x] - c[x];
    assert forall x :: b[x] == (b + c)[x] - c[x];
  }

  lemma AllTilesParts(g: GameRecord)
    ensures multiset(AllTiles(g))
         == multiset(g.pool) + multiset(HandTiles(g.players)) + multiset(BoardTiles(g.board))
  {
  }

  // ---------------------------------------------------------------------
  // Joining

  function AllPlaying(ps: seq<Player>): (r: seq<Player>)
    ensures |r| == |ps| && forall k | 0 <= k < |ps| :: r[k] == ps[k].(status := PlayerPlaying)
  {
    seq(|ps|, k requires 0 <= k < |ps| => ps[k].(status := PlayerPlaying))
  }

  /** The waiting-game branch shared by every variant: refuse a full game and
      a taken name, deal the first 14 pool tiles to a new player, and start
      the game once two players are in. */
  function JoinWaiting(g: GameRecord, name: string, pid: PlayerId): (JoinResult, GameRecord)
  {
    if |g.players| >= g.maxPlayers then (JoinFailed(GameFull), g)
    else if PlayerIndex(g.players, ByName(name)).Some? then (JoinFailed(NameTaken), g)
    else if |g.pool| < TilesDealt then (JoinFailed(NotEnoughTiles), g)
    else
      var p := Player(pid, name, g.pool[..TilesDealt], PlayerWaiting, false);
      var ps := g.players + [p];
      if |ps| >= 2 then
        (Joined(p.(status := PlayerPlaying)),
         g.(status := InProgress, players := AllPlaying(ps), pool := g.pool[TilesDealt..]))
      else
        (Joined(p), g.(players := ps, pool := g.pool[TilesDealt..]))
  }

  /** The service with multi-screen re-join: a known name in a running game
      gets its player back; a finished game refuses; a waiting game takes the
      shared branch; a new name in a running game is refused. */
  function JoinLocked(g: GameRecord, name: string, pid: PlayerId): (JoinResult, GameRecord)
  {
    var existing := PlayerIndex(g.players, ByName(name));
    if g.status == InProgress && existing.Some? then (Rejoined(g.players[existing.value]), g)
    else if g.status == GameFinished then (JoinFailed(GameHasFinished), g)
    else if g.status == GameWaiting then JoinWaiting(g, name, pid)
    else (JoinFailed(UnableToJoin), g)
  }

  /** The lock-free service: only a waiting game accepts joins. */
  function JoinLockFree(g: GameRecord, name: string, pid: PlayerId): (JoinResult, GameRecord)
  {
    if g.status != GameWaiting then (JoinFailed(NotAcceptingPlayers), g)
    else JoinWaiting(g, name, pid)
  }

  /** The integration test's copy: no re-join branch. */
  function JoinTestCopy(g: GameRecord, name: string, pid: PlayerId): (JoinResult, GameRecord)
  {
    if g.status == GameFinished then (JoinFailed(GameHasFinished), g)
    else if g.status == GameWaiting then JoinWaiting(g, name, pid)
    else (JoinFailed(UnableToJoin), g)
  }

  // ---------------------------------------------------------------------
  // Actions

  /** Sum of the values of the board combinations that share a tile id with `ts`. */
  function TouchedValue(board: seq<Combination>, ts: seq<Tile>): int
  {
    if board == [] then 0
    else
      var c := board[|board| - 1];
      TouchedValue(board[..|board| - 1], ts)
      + (if exists t, u | t in ts && u in c.tiles :: t.id == u.id then GetValue(c) else 0)
  }

  function MeldTotal(rule: MeldRule, board: seq<Combination>, ts: seq<Tile>): int
  {
    (if rule == BoardAndNew then TouchedValue(board, ts) else 0) + GetValue(Combination(ts))
  }

  /** The meld flag of player `i` set. */
  function WithMeld(g: GameRecord, i: nat): GameRecord
    requires i < |g.players|
  {
    g.(players := g.players[i := g.players[i].(hasInitialMeld := true)])
  }

  /** The tiles `ts` leave hand `i` and join the board as one combination; the
      game is won if the hand is now empty, otherwise the turn passes. */
  function Committed(g: GameRecord, i: nat, ts: seq<Tile>): (g': GameRecord)
    requires i < |g.players|
    ensures |g'.players| == |g.players| && g'.pool == g.pool && g'.board == g.board + [Combination(ts)]
  {
    var p' := g.players[i].(tiles := RemoveEach(g.players[i].tiles, ts));
    var board' := g.board + [Combination(ts)];
    if |p'.tiles| == 0 then
      g.(players := g.players[i := p'.(status := PlayerFinished)], board := board', status := GameFinished)
    else
      var g1 := g.(players := g.players[i := p'], board := board');
      g1.(currentIndex := NextIndex(g1))
  }

  /** The game after a placement has been accepted. */
  function Placed(g: GameRecord, i: nat, ts: seq<Tile>): (g': GameRecord)
    requires i < |g.players|
    ensures |g'.players| == |g.players| && g'.pool == g.pool && g'.board == g.board + [Combination(ts)]
  {
    Committed(WithMeld(g, i), i, ts)
  }

  /** Place the hand tiles with the given ids as one new combination. */
  function Place(g: GameRecord, i: nat, ids: seq<TileId>, rule: MeldRule): (ActionResult, GameRecord)
    requires i < |g.players|
    requires NoDuplicates(ids)
  {
    var p := g.players[i];
    if ids == [] then (ActionFailed(NoTilesSpecified), g)
    else match TilesForIds(p.tiles, ids)
      case Missing(id) => (ActionFailed(TileNotInHand(id)), g)
      case Found(ts) =>
        if !IsValid(ts) then (ActionFailed(InvalidCombination), g)
        else if !p.hasInitialMeld && MeldTotal(rule, g.board, ts) < InitialMeldMinimum then
          (ActionFailed(InitialMeldTooLow), g)
        else
          var g' := Placed(g, i, ts);
          (ActionOk(ViewFor(g', i)), g')
  }

  /** The game after a draw: the front pool tile joins the end of the hand and
      the turn passes. */
  function Drawn(g: GameRecord, i: nat): GameRecord
    requires i < |g.players| && |g.pool| > 0
  {
    var p := g.players[i];
    var g1 := g.(players := g.players[i := p.(tiles := p.tiles + [g.pool[0]])], pool := g.pool[1..]);
    g1.(currentIndex := NextIndex(g1))
  }

  /** Draw the front tile of the pool, refused when the pool is empty. */
  function Draw(g: GameRecord, i: nat): (ActionResult, GameRecord)
    requires i < |g.players|
  {
    if |g.pool| == 0 then (ActionFailed(NoTilesInPool), g)
    else
      var g' := Drawn(g, i);
      (ActionOk(ViewFor(g', i)), g')
  }

  /** The checks an action must pass before it is dispatched (and before the
      action counter moves), in order: a known player, a running game, a
      current player, their turn. None when every check passes. */
  function Refusal(g: GameRecord, pid: PlayerId): (f: Option<Failure>)
    ensures f.None? ==> PlayerIndex(g.players, ById(pid)).Some? && g.status == InProgress
                        && CurrentPlayerOf(g).Some? && CurrentPlayerOf(g).value.id == pid
  {
    if PlayerIndex(g.players, ById(pid)).None? then Some(PlayerNotFound)
    else if g.status != InProgress then Some(NotInProgress)
    else if CurrentPlayerOf(g).None? then Some(NoCurrentPlayer)
    else if CurrentPlayerOf(g).value.id != pid then Some(NotYourTurn)
    else None
  }

  predicate Admitted(g: GameRecord, pid: PlayerId)
  {
    Refusal(g, pid).None?
  }

  ghost predicate WellFormedAction(a: Action)
  {
    a.PlaceTiles? ==> NoDuplicates(a.tileIds)
  }

  /** Carry out an admitted action for the player at index `i`. */
  function Dispatch(g: GameRecord, i: nat, a: Action, rule: MeldRule): (ActionResult, GameRecord)
    requires i < |g.players| && WellFormedAction(a)
  {
    match a
    case PlaceTiles(ids) => Place(g, i, ids, rule)
    case DrawTile => Draw(g, i)
    case Rearrange => (ActionFailed(RearrangeNotImplemented), g)
    case OtherAction(_) => (ActionFailed(InvalidActionType), g)
  }

  /** An action by a player on a game that exists. */
  function Act(g: GameRecord, pid: PlayerId, a: Action, rule: MeldRule): (ActionResult, GameRecord)
    requires WellFormedAction(a)
  {
    match Refusal(g, pid)
    case Some(f) => (ActionFailed(f), g)
    case None => Dispatch(g, PlayerIndex(g.players, ById(pid)).value, a, rule)
  }

  // ---------------------------------------------------------------------
  // The game invariant

  ghost predicate DistinctPlayerIds(ps: seq<Player>)
  {
    forall j, k | 0 <= j < k < |ps| :: ps[j].id != ps[k].id
  }

  /** At most two players ever; the game waits exactly while it has fewer than
      two; the turn pointer is 0 while waiting and on a player otherwise;
      player ids are distinct. */
  ghost predicate Inv(g: GameRecord)
  {
    && |g.players| <= 2
    && (g.status == GameWaiting <==> |g.players| <= 1)
    && (g.status == GameWaiting ==> g.currentIndex == 0)
    && (|g.players| > 0 ==> g.currentIndex < |g.players|)
    && DistinctPlayerIds(g.players)
  }

  ghost predicate FreshPlayerId(g: GameRecord, pid: PlayerId)
  {
    forall k | 0 <= k < |g.players| :: g.players[k].id != pid
  }

  /** A new game satisfies the invariant and holds exactly its pool. */
  lemma NewGameInv(pool: seq<Tile>, maxPlayers: int)
    ensures Inv(NewGame(pool, maxPlayers))
    ensures AllTiles(NewGame(pool, maxPlayers)) == pool
  {
    assert HandTiles([]) == [] && BoardTiles([]) == [];
  }

  // ---------------------------------------------------------------------
  // Helper facts about hands and boards

  lemma {:induction false} HandTilesAppend(a: seq<Player>, b: seq<Player>)
    ensures HandTiles(a + b) == HandTiles(a) + HandTiles(b)
    decreases |b|
  {
    if b == [] {
      assert a + b == a;
    } else {
      assert (a + b)[..|a + b| - 1] == a + b[..|b| - 1];
      HandTilesAppend(a, b[..|b| - 1]);
    }
  }

  lemma {:induction false} HandTilesAllPlaying(ps: seq<Player>)
    ensures HandTiles(AllPlaying(ps)) == HandTiles(ps)
    decreases |ps|
  {
    if ps != [] {
      assert AllPlaying(ps)[..|ps| - 1] == AllPlaying(ps[..|ps| - 1]);
      HandTilesAllPlaying(ps[..|ps| - 1]);
    }
  }

  /** Replacing one hand swaps that hand's tiles in the multiset of all hands. */
  lemma HandTilesUpdate(ps: seq<Player>, i: nat, p: Player)
    requires i < |ps|
    ensures multiset(HandTiles(ps[i := p])) + multiset(ps[i].tiles)
         == multiset(HandTiles(ps)) + multiset(p.tiles)
  {
    assert ps == ps[..i] + [ps[i]] + ps[i + 1..];
    assert ps[i := p] == ps[..i] + [p] + ps[i + 1..];
    HandTilesAppend(ps[..i] + [ps[i]], ps[i + 1..]);
    HandTilesAppend(ps[..i], [ps[i]]);
    HandTilesAppend(ps[..i] + [p], ps[i + 1..]);
    HandTilesAppend(ps[..i], [p]);
    assert HandTiles([ps[i]]) == ps[i].tiles by { assert [ps[i]][..0] == []; }
    assert HandTiles([p]) == p.tiles by { assert [p][..0] == []; }
  }

  lemma BoardTilesAppend(b: seq<Combination>, c: Combination)
    ensures BoardTiles(b + [c]) == BoardTiles(b) + c.tiles
  {
    assert (b + [c])[..|b + [c]| - 1] == b;
  }

  /** With distinct requested ids, the tiles found are a sub-multiset of the hand. */
  lemma FoundTilesInHand(hand: seq<Tile>, ids: seq<TileId>)
    requires NoDuplicates(ids)
    requires TilesForIds(hand, ids).Found?
    ensures multiset(TilesForIds(hand, ids).tiles) <= multiset(hand)
    ensures DistinctIds(TilesForIds(hand, ids).tiles)
  {
    var ts := TilesForIds(hand, ids).tiles;
    assert DistinctIds(ts);
    DistinctIdsUnique(ts);
    forall x | x in multiset(ts) ensures multiset(ts)[x] <= multiset(hand)[x] {
      assert x in ts;
      assert x in hand;
    }
  }

  // ---------------------------------------------------------------------
  // Joins

  /** All three join variants leave the game in the same state; they differ
      only in what they answer for a game that is not waiting, and agree
      outright on a waiting game. */
  lemma JoinVariantsAgree(g: GameRecord, name: string, pid: PlayerId)
    ensures JoinLocked(g, name, pid).1 == JoinLockFree(g, name, pid).1 == JoinTestCopy(g, name, pid).1
    ensures g.status == GameWaiting ==>
      JoinLocked(g, name, pid) == JoinLockFree(g, name, pid) == JoinTestCopy(g, name, pid)
    ensures g.status != GameWaiting ==>
      JoinLockFree(g, name, pid) == (JoinFailed(NotAcceptingPlayers), g)
      && JoinLocked(g, name, pid).1 == g && !JoinLocked(g, name, pid).0.Joined?
  {
  }

  /** A join that fails, or a re-join, leaves the game unchanged. A successful
      join adds exactly one player, the new last one, whose hand is the first
      14 tiles of the old pool; the pool keeps the rest; the other players keep
      their ids, names and tiles; the game is running with everybody playing
      exactly when it now has two or more players. */
  lemma JoinWaitingEffect(g: GameRecord, name: string, pid: PlayerId)
    requires g.status == GameWaiting
    ensures var (r, g') := JoinWaiting(g, name, pid);
      && (!r.Joined? ==> g' == g)
      && (r.Joined? <==> |g.players| < g.maxPlayers && PlayerIndex(g.players, ByName(name)).None? && |g.pool| >= TilesDealt)
      && (r.Joined? ==>
            && |g'.players| == |g.players| + 1
            && g'.players[|g.players|] == r.player
            && r.player.id == pid && r.player.name == name && !r.player.hasInitialMeld
            && r.player.tiles + g'.pool == g.pool && |r.player.tiles| == TilesDealt
            && (forall k | 0 <= k < |g.players| ::
                  g'.players[k].id == g.players[k].id && g'.players[k].name == g.players[k].name
                  && g'.players[k].tiles == g.players[k].tiles)
            && g'.board == g.board && g'.currentIndex == g.currentIndex
            && (g'.status == InProgress <==> |g'.players| >= 2)
            && (g'.status != InProgress ==> g'.status == g.status)
            && (|g'.players| >= 2 ==> forall k | 0 <= k < |g'.players| :: g'.players[k].status == PlayerPlaying))
  {
    if |g.players| < g.maxPlayers && PlayerIndex(g.players, ByName(name)).None? && |g.pool| >= TilesDealt {
      assert g.pool[..TilesDealt] + g.pool[TilesDealt..] == g.pool;
    }
  }

  /** The outcomes of the re-join service that the waiting branch does not cover. */
  lemma JoinLockedOutcomes(g: GameRecord, name: string, pid: PlayerId)
    ensures var (r, g') := JoinLocked(g, name, pid);
      && (g.status == GameFinished ==> r == JoinFailed(GameHasFinished) && g' == g)
      && (g.status == InProgress && PlayerIndex(g.players, ByName(name)).Some? ==>
            r.Rejoined? && r.player in g.players && r.player.name == name && g' == g)
      && (g.status == InProgress && PlayerIndex(g.players, ByName(name)).None? ==>
            r == JoinFailed(UnableToJoin) && g' == g)
      && (r.Joined? ==> g.status == GameWaiting)
  {
  }

  /** Joining moves tiles from the pool to the new hand and creates or
      destroys none. */
  lemma JoinConserves(g: GameRecord, name: string, pid: PlayerId)
    ensures multiset(AllTiles(JoinLocked(g, name, pid).1)) == multiset(AllTiles(g))
    ensures multiset(AllTiles(JoinLockFree(g, name, pid).1)) == multiset(AllTiles(g))
    ensures multiset(AllTiles(JoinTestCopy(g, name, pid).1)) == multiset(AllTiles(g))
  {
    JoinVariantsAgree(g, name, pid);
    var g' := JoinWaiting(g, name, pid).1;
    if g.status == GameWaiting && g' != g {
      var p := Player(pid, name, g.pool[..TilesDealt], PlayerWaiting, false);
      var ps := g.players + [p];
      HandTilesAppend(g.players, [p]);
      assert HandTiles([p]) == p.tiles by { assert [p][..0] == []; }
      HandTilesAllPlaying(ps);
      assert g.pool == g.pool[..TilesDealt] + g.pool[TilesDealt..];
      assert HandTiles(g'.players) == HandTiles(ps);
    }
  }

  /** Joining keeps the invariant: in particular no game ever has more than two players. */
  lemma JoinPreservesInv(g: GameRecord, name: string, pid: PlayerId)
    requires Inv(g) && FreshPlayerId(g, pid)
    ensures Inv(JoinLocked(g, name, pid).1)
    ensures Inv(JoinLockFree(g, name, pid).1)
    ensures Inv(JoinTestCopy(g, name, pid).1)
  {
    JoinVariantsAgree(g, name, pid);
    var g' := JoinWaiting(g, name, pid).1;
    if g.status == GameWaiting && g' != g {
      JoinWaitingEffect(g, name, pid);
      assert |g'.players| == |g.players| + 1;
      assert forall k | 0 <= k < |g.players| :: g'.players[k].id == g.players[k].id;
      assert g'.players[|g.players|].id == pid;
    }
  }

  // ---------------------------------------------------------------------
  // Actions

  /** Every refused action leaves the game exactly as it was; an action is
      carried out only for the current player of a running game. */
  lemma ActFailureUnchanged(g: GameRecord, pid: PlayerId, a: Action, rule: MeldRule)
    requires WellFormedAction(a)
    ensures Act(g, pid, a, rule).0.ActionFailed? ==> Act(g, pid, a, rule).1 == g
    ensures Act(g, pid, a, rule).0.ActionOk? ==> Admitted(g, pid)
    ensures !Admitted(g, pid) ==> Act(g, pid, a, rule).0.ActionFailed?
    ensures a.Rearrange? ==> Act(g, pid, a, rule).0.ActionFailed? && Act(g, pid, a, rule).1 == g
  {
  }

  /** Under the invariant a running game always has a current player, so the
      refusal for a missing current player never happens. */
  lemma InvHasCurrentPlayer(g: GameRecord)
    requires Inv(g) && g.status == InProgress
    ensures CurrentPlayerOf(g).Some?
    ensures |g.players| == 2
  {
  }

  /** A draw moves the front tile of the pool to the end of the hand, passes
      the turn, and touches nothing else. */
  lemma DrawnEffect(g: GameRecord, i: nat)
    requires i < |g.players| && |g.pool| > 0
    ensures Drawn(g, i).players[i].tiles == g.players[i].tiles + [g.pool[0]]
    ensures [g.pool[0]] + Drawn(g, i).pool == g.pool
    ensures Drawn(g, i).currentIndex == NextIndex(g)
    ensures Drawn(g, i).board == g.board && Drawn(g, i).status == g.status
    ensures |Drawn(g, i).players| == |g.players|
    ensures forall k | 0 <= k < |g.players| && k != i :: Drawn(g, i).players[k] == g.players[k]
    ensures forall k | 0 <= k < |g.players| ::
      Drawn(g, i).players[k].id == g.players[k].id && Drawn(g, i).players[k].status == g.players[k].status
  {
    assert g.pool == [g.pool[0]] + g.pool[1..];
  }

  lemma DrawnConserves(g: GameRecord, i: nat)
    requires i < |g.players| && |g.pool| > 0
    ensures multiset(AllTiles(Drawn(g, i))) == multiset(AllTiles(g))
  {
    var g' := Drawn(g, i);
    var x := g.pool[0];
    assert multiset(HandTiles(g'.players)) == multiset(HandTiles(g.players)) + multiset{x} by {
      var p := g.players[i];
      var p' := p.(tiles := p.tiles + [x]);
      assert g'.players == g.players[i := p'];
      HandTilesUpdate(g.players, i, p');
      assert multiset(p'.tiles) == multiset(p.tiles) + multiset{x};
      MultisetCancel(multiset(HandTiles(g'.players)), multiset(HandTiles(g.players)) + multiset{x}, multiset(p.tiles));
    }
    assert multiset(g.pool) == multiset{x} + multiset(g'.pool) by {
      assert g.pool == [x] + g'.pool;
    }
    assert g'.board == g.board;
    PartsConserved(g, g');
  }

  /** Two games whose pool, hands and board together hold the same tiles. */
  lemma PartsConserved(g: GameRecord, g': GameRecord)
    requires multiset(g'.pool) + multiset(HandTiles(g'.players)) + multiset(BoardTiles(g'.board))
          == multiset(g.pool) + multiset(HandTiles(g.players)) + multiset(BoardTiles(g.board))
    ensures multiset(AllTiles(g')) == multiset(AllTiles(g))
  {
    AllTilesParts(g);
    AllTilesParts(g');
  }

  /** Drawing is refused exactly when the pool is empty. */
  lemma DrawOutcome(g: GameRecord, i: nat)
    requires i < |g.players|
    ensures Draw(g, i).0.ActionOk? <==> |g.pool| > 0
    ensures Draw(g, i).0.ActionFailed? ==> Draw(g, i) == (ActionFailed(NoTilesInPool), g)
    ensures Draw(g, i).0.ActionOk? ==> Draw(g, i).1 == Drawn(g, i) && Draw(g, i).0.state == ViewFor(Drawn(g, i), i)
  {
  }

  /** An accepted placement puts exactly the placed tiles on the board as one
      new combination and takes them out of the hand; it sets the meld flag;
      an emptied hand finishes the player and the game without passing the
      turn, otherwise the turn passes; nothing else changes. */
  lemma PlacedHands(g: GameRecord, i: nat, ts: seq<Tile>)
    requires i < |g.players|
    ensures var g' := Placed(g, i, ts);
      && |g'.players| == |g.players|
      && g'.players[i].tiles == RemoveEach(g.players[i].tiles, ts)
      && g'.players[i].hasInitialMeld
      && (forall k | 0 <= k < |g.players| && k != i :: g'.players[k] == g.players[k])
      && (forall k | 0 <= k < |g.players| :: g'.players[k].id == g.players[k].id)
  {
    var gm := WithMeld(g, i);
    assert gm.players[i].tiles == g.players[i].tiles;
  }

  lemma PlacedTurn(g: GameRecord, i: nat, ts: seq<Tile>)
    requires i < |g.players|
    ensures var g' := Placed(g, i, ts);
      && (|g'.players[i].tiles| == 0 ==>
            g'.status == GameFinished && g'.players[i].status == PlayerFinished
            && g'.currentIndex == g.currentIndex)
      && (|g'.players[i].tiles| > 0 ==>
            g'.status == g.status && g'.players[i].status == g.players[i].status
            && g'.currentIndex == NextIndex(g))
  {
    var gm := WithMeld(g, i);
    var p' := gm.players[i].(tiles := RemoveEach(g.players[i].tiles, ts));
    assert gm.players[i].tiles == g.players[i].tiles;
    if |p'.tiles| > 0 {
      var g1 := gm.(players := gm.players[i := p'], board := g.board + [Combination(ts)]);
      assert |g1.players| == |g.players| && g1.currentIndex == g.currentIndex;
      assert NextIndex(g1) == NextIndex(g);
    }
  }

  lemma PlacedEffect(g: GameRecord, i: nat, ts: seq<Tile>)
    requires i < |g.players|
    ensures var g' := Placed(g, i, ts);
      && g'.board == g.board + [Combination(ts)]
      && g'.players[i].tiles == RemoveEach(g.players[i].tiles, ts)
      && g'.players[i].hasInitialMeld
      && g'.pool == g.pool
      && |g'.players| == |g.players|
      && (forall k | 0 <= k < |g.players| && k != i :: g'.players[k] == g.players[k])
      && (forall k | 0 <= k < |g.players| :: g'.players[k].id == g.players[k].id)
      && (|g'.players[i].tiles| == 0 ==>
            g'.status == GameFinished && g'.players[i].status == PlayerFinished
            && g'.currentIndex == g.currentIndex)
      && (|g'.players[i].tiles| > 0 ==>
            g'.status == g.status && g'.players[i].status == g.players[i].status
            && g'.currentIndex == NextIndex(g))
  {
    PlacedHands(g, i, ts);
    PlacedTurn(g, i, ts);
  }

  /** Moving `ts` from one hand to the board keeps the total. */
  lemma MoveToBoard(pool: multiset<Tile>, hands: multiset<Tile>, hands': multiset<Tile>,
                    hand: multiset<Tile>, hand': multiset<Tile>, ts: multiset<Tile>,
                    board: multiset<Tile>, board': multiset<Tile>)
    requires hands' + hand == hands + hand'
    requires hand' + ts == hand
    requires board' == board + ts
    ensures pool + hands' + board' == pool + hands + board
  {
    MultisetCancel(hands' + ts, hands, hand');
  }

  lemma PlacedConserves(g: GameRecord, i: nat, ts: seq<Tile>)
    requires i < |g.players|
    requires multiset(ts) <= multiset(g.players[i].tiles)
    ensures multiset(AllTiles(Placed(g, i, ts))) == multiset(AllTiles(g))
  {
    var g' := Placed(g, i, ts);
    var p := g.players[i];
    var p' := g'.players[i];
    assert g'.players == g.players[i := p'] && g'.pool == g.pool && g'.board == g.board + [Combination(ts)];
    assert p'.tiles == RemoveEach(p.tiles, ts);
    assert multiset(p'.tiles) + multiset(ts) == multiset(p.tiles) by {
      assert multiset(p'.tiles) == multiset(p.tiles) - multiset(ts);
      forall x ensures (multiset(p'.tiles) + multiset(ts))[x] == multiset(p.tiles)[x] {
        assert multiset(ts)[x] <= multiset(p.tiles)[x];
      }
    }
    HandTilesUpdate(g.players, i, p');
    BoardTilesAppend(g.board, Combination(ts));
    MoveToBoard(multiset(g.pool), multiset(HandTiles(g.players)), multiset(HandTiles(g'.players)),
                multiset(p.tiles), multiset(p'.tiles), multiset(ts),
                multiset(BoardTiles(g.board)), multiset(BoardTiles(g'.board)));
    PartsConserved(g, g');
  }

  /** A placement is accepted exactly when tiles were named, all of them are in
      the hand, they form a valid combination, and the player already has an
      initial meld or this one is worth at least 30; a refusal changes nothing. */
  lemma PlaceOutcome(g: GameRecord, i: nat, ids: seq<TileId>, rule: MeldRule)
    requires i < |g.players| && NoDuplicates(ids)
    ensures var lookup := TilesForIds(g.players[i].tiles, ids);
      Place(g, i, ids, rule).0.ActionOk? <==>
        && ids != []
        && lookup.Found?
        && IsValid(lookup.tiles)
        && (g.players[i].hasInitialMeld || MeldTotal(rule, g.board, lookup.tiles) >= InitialMeldMinimum)
    ensures Place(g, i, ids, rule).0.ActionFailed? ==> Place(g, i, ids, rule).1 == g
    ensures ids == [] ==> Place(g, i, ids, rule).0 == ActionFailed(NoTilesSpecified)
    ensures Place(g, i, ids, rule).0.ActionOk? ==>
      Place(g, i, ids, rule).1 == Placed(g, i, TilesForIds(g.players[i].tiles, ids).tiles)
      && Place(g, i, ids, rule).0.state == ViewFor(Place(g, i, ids, rule).1, i)
  {
  }

  /** Every action moves tiles between pool, hands and board without creating
      or destroying any. */
  lemma ActConserves(g: GameRecord, pid: PlayerId, a: Action, rule: MeldRule)
    requires WellFormedAction(a)
    ensures multiset(AllTiles(Act(g, pid, a, rule).1)) == multiset(AllTiles(g))
  {
    ActFailureUnchanged(g, pid, a, rule);
    if Act(g, pid, a, rule).0.ActionOk? {
      var i := PlayerIndex(g.players, ById(pid)).value;
      if a.PlaceTiles? {
        PlaceOutcome(g, i, a.tileIds, rule);
        FoundTilesInHand(g.players[i].tiles, a.tileIds);
        PlacedConserves(g, i, TilesForIds(g.players[i].tiles, a.tileIds).tiles);
      } else {
        DrawOutcome(g, i);
        DrawnConserves(g, i);
      }
    }
  }

  lemma DrawnPreservesInv(g: GameRecord, i: nat)
    requires Inv(g) && g.status == InProgress && i < |g.players| && |g.pool| > 0
    ensures Inv(Drawn(g, i))
  {
    DrawnEffect(g, i);
  }

  lemma PlacedPreservesInv(g: GameRecord, i: nat, ts: seq<Tile>)
    requires Inv(g) && g.status == InProgress && i < |g.players|
    ensures Inv(Placed(g, i, ts))
  {
    PlacedEffect(g, i, ts);
  }

  /** Every action keeps the invariant. */
  lemma ActPreservesInv(g: GameRecord, pid: PlayerId, a: Action, rule: MeldRule)
    requires Inv(g) && WellFormedAction(a)
    ensures Inv(Act(g, pid, a, rule).1)
  {
    ActFailureUnchanged(g, pid, a, rule);
    if Act(g, pid, a, rule).0.ActionOk? {
      var i := PlayerIndex(g.players, ById(pid)).value;
      if a.PlaceTiles? {
        PlaceOutcome(g, i, a.tileIds, rule);
        PlacedPreservesInv(g, i, TilesForIds(g.players[i].tiles, a.tileIds).tiles);
      } else {
        DrawOutcome(g, i);
        DrawnPreservesInv(g, i);
      }
    }
  }

  /** A finished game is final: every action is refused and no join changes it. */
  lemma FinishedIsFinal(g: GameRecord, pid: PlayerId, a: Action, rule: MeldRule, name: string, newId: PlayerId)
    requires g.status == GameFinished && WellFormedAction(a)
    ensures Act(g, pid, a, rule).0.ActionFailed? && Act(g, pid, a, rule).1 == g
    ensures JoinLocked(g, name, newId) == (JoinFailed(GameHasFinished), g)
  {
  }

  // ---------------------------------------------------------------------
  // What every game of a service keeps

  /** The game invariant together with "every tile id of the game occurs once". */
  ghost predicate Consistent(g: GameRecord)
  {
    Inv(g) && UniqueIds(multiset(AllTiles(g)))
  }

  /** A new game over a pool with unique ids is consistent. */
  lemma NewGameConsistent(pool: seq<Tile>, maxPlayers: int)
    requires UniqueIds(multiset(pool))
    ensures Consistent(NewGame(pool, maxPlayers))
  {
    NewGameInv(pool, maxPlayers);
  }

  /** Every join variant keeps a game consistent when the new player id is fresh. */
  lemma JoinKeepsConsistent(g: GameRecord, name: string, pid: PlayerId)
    requires Consistent(g) && FreshPlayerId(g, pid)
    ensures Consistent(JoinLocked(g, name, pid).1)
    ensures Consistent(JoinLockFree(g, name, pid).1)
    ensures Consistent(JoinTestCopy(g, name, pid).1)
  {
    JoinPreservesInv(g, name, pid);
    JoinConserves(g, name, pid);
  }

  /** Every action keeps a game consistent, under either meld rule. */
  lemma ActKeepsConsistent(g: GameRecord, pid: PlayerId, a: Action, rule: MeldRule)
    requires Consistent(g) && WellFormedAction(a)
    ensures Consistent(Act(g, pid, a, rule).1)
  {
    ActPreservesInv(g, pid, a, rule);
    ActConserves(g, pid, a, rule);
  }

  // ---------------------------------------------------------------------
  // The two meld rules agree on every game whose tile ids are unique

  lemma {:induction false} TouchedValueZero(board: seq<Combination>, ts: seq<Tile>)
    requires forall t, u | t in ts && u in BoardTiles(board) :: t.id != u.id
    ensures TouchedValue(board, ts) == 0
    decreases |board|
  {
    if board != [] {
      var b' := board[..|board| - 1];
      var c := board[|board| - 1];
      assert BoardTiles(board) == BoardTiles(b') + c.tiles;
      TouchedValueZero(b', ts);
    }
  }

  /** The tiles of a game, cut at the hand of player `i`. */
  lemma AllTilesAtHand(g: GameRecord, i: nat)
    requires i < |g.players|
    ensures AllTiles(g) == (g.pool + HandTiles(g.players[..i]) + g.players[i].tiles)
                         + (HandTiles(g.players[i + 1..]) + BoardTiles(g.board))
  {
    var ps := g.players;
    assert ps == ps[..i] + [ps[i]] + ps[i + 1..];
    HandTilesAppend(ps[..i] + [ps[i]], ps[i + 1..]);
    HandTilesAppend(ps[..i], [ps[i]]);
    assert HandTiles([ps[i]]) == ps[i].tiles by { assert [ps[i]][..0] == []; }
  }

  /** When every tile id of the game is unique, no tile in a hand shares an id
      with a tile on the board. */
  lemma HandApartFromBoard(g: GameRecord, i: nat)
    requires i < |g.players|
    requires UniqueIds(multiset(AllTiles(g)))
    ensures forall t, u | t in g.players[i].tiles && u in BoardTiles(g.board) :: t.id != u.id
  {
    var left := g.pool + HandTiles(g.players[..i]) + g.players[i].tiles;
    var right := HandTiles(g.players[i + 1..]) + BoardTiles(g.board);
    AllTilesAtHand(g, i);
    forall t, u | t in g.players[i].tiles && u in BoardTiles(g.board) ensures t.id != u.id {
      assert t in left && u in right;
      UniqueIdsSplit(left, right, t, u);
    }
  }

  /** When every tile id of the game is unique, the tiles a player places come
      from the hand and so share no id with the board: the service's meld score
      (touched board combinations plus the new one) equals the test copy's
      (the new one alone), and the two place operations coincide. */
  lemma MeldRulesAgree(g: GameRecord, i: nat, ids: seq<TileId>)
    requires i < |g.players| && NoDuplicates(ids)
    requires UniqueIds(multiset(AllTiles(g)))
    ensures Place(g, i, ids, BoardAndNew) == Place(g, i, ids, NewOnly)
  {
    var lookup := TilesForIds(g.players[i].tiles, ids);
    if lookup.Found? {
      HandApartFromBoard(g, i);
      TouchedValueZero(g.board, lookup.tiles);
      assert MeldTotal(BoardAndNew, g.board, lookup.tiles) == MeldTotal(NewOnly, g.board, lookup.tiles);
    }
  }

  // ---------------------------------------------------------------------
  // Repeated ids, as the service is written

  /** How a call of the place handler ends: with a response, or with the
      `ValueError` that `list.remove` raises for a tile no longer in the hand. */
  datatype Outcome = Returned(result: ActionResult) | ValueErrorRaised

  /** `list.remove` of each tile in turn: the first tile no longer in the hand
      raises, and the removals made before it stay made. */
  function RemoveEachRaising(s: seq<Tile>, ts: seq<Tile>): (r: (bool, seq<Tile>))
    ensures r.0 <==> multiset(ts) <= multiset(s)
    ensures r.0 ==> r.1 == RemoveEach(s, ts)
    ensures multiset(r.1) <= multiset(s)
    decreases |ts|
  {
    if ts == [] then (true, s)
    else if ts[0] !in s then
      assert ts[0] in multiset(ts) && ts[0] !in multiset(s);
      (false, s)
    else
      assert ts == [ts[0]] + ts[1..];
      var r := RemoveEachRaising(RemoveFirst(s, ts[0]), ts[1..]);
      assert multiset(ts) == multiset{ts[0]} + multiset(ts[1..]);
      assert multiset(s) == multiset{ts[0]} + multiset(RemoveFirst(s, ts[0]));
      r
  }

  /** The place handler without the distinct-ids assumption: the meld flag is
      set before the tiles leave the hand, so a repeated id raises after the
      flag and the first removal have already happened. */
  function PlaceAsWritten(g: GameRecord, i: nat, ids: seq<TileId>, rule: MeldRule): (r: (Outcome, GameRecord))
    requires i < |g.players|
  {
    var p := g.players[i];
    if ids == [] then (Returned(ActionFailed(NoTilesSpecified)), g)
    else match TilesForIds(p.tiles, ids)
      case Missing(id) => (Returned(ActionFailed(TileNotInHand(id))), g)
      case Found(ts) =>
        if !IsValid(ts) then (Returned(ActionFailed(InvalidCombination)), g)
        else if !p.hasInitialMeld && MeldTotal(rule, g.board, ts) < InitialMeldMinimum then
          (Returned(ActionFailed(InitialMeldTooLow)), g)
        else
          var removal := RemoveEachRaising(p.tiles, ts);
          if !removal.0 then
            (ValueErrorRaised, MeldedThenRaised(g, i, removal.1))
          else
            var g' := Placed(g, i, ts);
            (Returned(ActionOk(ViewFor(g', i))), g')
  }

  /** The game left behind by the `ValueError`: the meld flag set and the hand
      as far as the removals got. */
  function MeldedThenRaised(g: GameRecord, i: nat, hand: seq<Tile>): (g': GameRecord)
    requires i < |g.players|
    ensures |g'.players| == |g.players| && g'.players[i].hasInitialMeld && g'.players[i].tiles == hand
    ensures g'.board == g.board && g'.pool == g.pool && g'.status == g.status
  {
    g.(players := g.players[i := g.players[i].(hasInitialMeld := true, tiles := hand)])
  }

  /** Distinct tiles that all come from the hand can all be removed. */
  lemma RaisesOnlyOnRepeats(hand: seq<Tile>, ts: seq<Tile>)
    requires forall k | 0 <= k < |ts| :: ts[k] in hand
    requires !(multiset(ts) <= multiset(hand))
    ensures !NoDuplicates(ts)
  {
    if NoDuplicates(ts) {
      forall x | x in multiset(ts) ensures multiset(ts)[x] <= multiset(hand)[x] {
        var k :| 0 <= k < |ts| && ts[k] == x;
        NoDuplicatesCountOne(ts, k);
      }
    }
  }

  lemma {:induction false} NoDuplicatesCountOne(ts: seq<Tile>, k: nat)
    requires k < |ts| && NoDuplicates(ts)
    ensures multiset(ts)[ts[k]] == 1
    decreases |ts|
  {
    var last := ts[|ts| - 1];
    var ts' := ts[..|ts| - 1];
    assert ts == ts' + [last];
    if k == |ts| - 1 {
      assert last !in ts';
    } else {
      assert NoDuplicates(ts');
      NoDuplicatesCountOne(ts', k);
      assert ts[k] != last;
    }
  }

  /** The handler as written raises only for a repeated tile, and only after
      the meld flag is set; the board is then as it was. */
  lemma PlaceAsWrittenRaises(g: GameRecord, i: nat, ids: seq<TileId>, rule: MeldRule)
    requires i < |g.players|
    ensures var r := PlaceAsWritten(g, i, ids, rule);
      r.0 == ValueErrorRaised ==>
        && TilesForIds(g.players[i].tiles, ids).Found?
        && !NoDuplicates(TilesForIds(g.players[i].tiles, ids).tiles)
        && |r.1.players| == |g.players| && r.1.players[i].hasInitialMeld && r.1.board == g.board
  {
    var p := g.players[i];
    var lookup := TilesForIds(p.tiles, ids);
    var r := PlaceAsWritten(g, i, ids, rule);
    if ids == [] || lookup.Missing? {
      assert r.0.Returned?;
    } else if !IsValid(lookup.tiles) || (!p.hasInitialMeld && MeldTotal(rule, g.board, lookup.tiles) < InitialMeldMinimum) {
      assert r.0.Returned?;
    } else if RemoveEachRaising(p.tiles, lookup.tiles).0 {
      assert r.0.Returned?;
    } else {
      RaisesOnlyOnRepeats(p.tiles, lookup.tiles);
      assert r.1 == MeldedThenRaised(g, i, RemoveEachRaising(p.tiles, lookup.tiles).1);
    }
  }

  /** When every check passes and a removal fails, the call raises, leaving
      the meld flag set and the hand as far as the removals got. */
  lemma PlaceAsWrittenRaisesWhen(g: GameRecord, i: nat, ids: seq<TileId>, rule: MeldRule, ts: seq<Tile>)
    requires i < |g.players| && ids != []
    requires TilesForIds(g.players[i].tiles, ids) == Found(ts) && IsValid(ts)
    requires g.players[i].hasInitialMeld || MeldTotal(rule, g.board, ts) >= InitialMeldMinimum
    requires !RemoveEachRaising(g.players[i].tiles, ts).0
    ensures PlaceAsWritten(g, i, ids, rule)
         == (ValueErrorRaised, MeldedThenRaised(g, i, RemoveEachRaising(g.players[i].tiles, ts).1))
  {
  }

  /** With distinct ids the handler as written is exactly `Place`. */
  lemma PlaceAsWrittenAgrees(g: GameRecord, i: nat, ids: seq<TileId>, rule: MeldRule)
    requires i < |g.players| && NoDuplicates(ids)
    ensures PlaceAsWritten(g, i, ids, rule) == (Returned(Place(g, i, ids, rule).0), Place(g, i, ids, rule).1)
  {
    var lookup := TilesForIds(g.players[i].tiles, ids);
    if ids != [] && lookup.Found? {
      FoundTilesInHand(g.players[i].tiles, ids);
    }
  }

  // A hand of 7, 8 and 9 red and 5 blue, with ids 1 to 4, and a game in
  // progress whose only player holds it and has no initial meld yet.

  ghost predicate ExampleHand(hand: seq<Tile>)
  {
    hand == [Numbered(1, 7, Red), Numbered(2, 8, Red), Numbered(3, 9, Red), Numbered(4, 5, Blue)]
  }

  function ExampleGame(hand: seq<Tile>): GameRecord
  {
    GameRecord(InProgress, [Player(10, "ann", hand, PlayerPlaying, false)], [], [], 0, 2)
  }

  lemma ExampleTileLookups(hand: seq<Tile>)
    requires ExampleHand(hand)
    ensures TileWithId(hand, 1) == Some(hand[0])
    ensures TileWithId(hand, 2) == Some(hand[1])
    ensures TileWithId(hand, 3) == Some(hand[2])
  {
    assert hand[1..][1..] == [hand[2], hand[3]];
    assert TileWithId(hand[1..][1..], 3) == Some(hand[2]);
  }

  /** One more id at the front of the request adds its tile at the front. */
  lemma TilesForIdsCons(hand: seq<Tile>, id: TileId, rest: seq<TileId>, t: Tile, ts: seq<Tile>)
    requires TileWithId(hand, id) == Some(t) && TilesForIds(hand, rest) == Found(ts)
    ensures TilesForIds(hand, [id] + rest) == Found([t] + ts)
  {
    assert ([id] + rest)[0] == id && ([id] + rest)[1..] == rest;
  }

  /** Ids 1, 2, 3 (and 1, 1, 2, 3) read the first three tiles of a hand
      (and the first of them twice) once each id finds its tile. The id lists
      are parameters so that the solver unfolds the lookups one step at a time. */
  lemma LookupsFor(hand: seq<Tile>, ids3: seq<TileId>, ids4: seq<TileId>)
    requires |hand| >= 3
    requires TileWithId(hand, 1) == Some(hand[0]) && TileWithId(hand, 2) == Some(hand[1])
    requires TileWithId(hand, 3) == Some(hand[2])
    requires ids3 == [1, 2, 3] && ids4 == [1] + ids3
    ensures TilesForIds(hand, ids3) == Found(hand[..3])
    ensures TilesForIds(hand, ids4) == Found([hand[0]] + hand[..3])
  {
    var ids1 := ids3[2..];
    var ids2 := ids3[1..];
    assert ids1 == [3] + [] && ids2 == [2] + ids1 && ids3 == [1] + ids2;
    assert TilesForIds(hand, []) == Found([]);
    TilesForIdsCons(hand, 3, [], hand[2], []);
    TilesForIdsCons(hand, 2, ids1, hand[1], [hand[2]] + []);
    TilesForIdsCons(hand, 1, ids2, hand[0], [hand[1]] + ([hand[2]] + []));
    assert [hand[0]] + ([hand[1]] + ([hand[2]] + [])) == hand[..3];
    TilesForIdsCons(hand, 1, ids3, hand[0], hand[..3]);
  }

  lemma ExampleLookups(hand: seq<Tile>)
    requires |hand| >= 3
    requires TileWithId(hand, 1) == Some(hand[0]) && TileWithId(hand, 2) == Some(hand[1])
    requires TileWithId(hand, 3) == Some(hand[2])
    ensures TilesForIds(hand, [1, 2, 3]) == Found(hand[..3])
    ensures TilesForIds(hand, [1, 1, 2, 3]) == Found([hand[0]] + hand[..3])
  {
    LookupsFor(hand, [1, 2, 3], [1, 1, 2, 3]);
  }

  lemma ExampleValues(hand: seq<Tile>)
    requires ExampleHand(hand)
    ensures SumValues(hand[..3]) == 24
    ensures SumValues([hand[0]] + hand[..3]) == 31
  {
    var t7, t8, t9 := hand[0], hand[1], hand[2];
    assert hand[..3] == [t7, t8, t9];
    assert [hand[0]] + hand[..3] == [t7, t7, t8, t9];
    assert SumValues([t7]) == 7 by { assert [t7][..0] == []; }
    assert SumValues([t7, t8]) == 15 by { assert [t7, t8][..1] == [t7]; }
    assert SumValues([t7, t8, t9]) == 24 by { assert [t7, t8, t9][..2] == [t7, t8]; }
    assert SumValues([t7, t7]) == 14 by { assert [t7, t7][..1] == [t7]; }
    assert SumValues([t7, t7, t8]) == 22 by { assert [t7, t7, t8][..2] == [t7, t7]; }
    assert SumValues([t7, t7, t8, t9]) == 31 by { assert [t7, t7, t8, t9][..3] == [t7, t7, t8]; }
  }

  lemma ExampleRemoval(hand: seq<Tile>)
    requires |hand| >= 3 && hand[0] !in hand[1..]
    ensures RemoveEachRaising(hand, [hand[0]] + hand[..3]) == (false, hand[1..])
  {
    var t7 := hand[0];
    var bad := [t7] + hand[..3];
    assert bad[0] == t7 && bad[0] in hand && bad[1..] == hand[..3];
    assert RemoveFirst(hand, t7) == hand[1..];
    assert hand[..3][0] == t7;
  }

  /** The tiles for ids 1, 2, 3 are worth 24 and are refused as an initial meld. */
  lemma ExampleMeldRefused(hand: seq<Tile>)
    requires ExampleHand(hand)
    ensures Place(ExampleGame(hand), 0, [1, 2, 3], BoardAndNew).0 == ActionFailed(InitialMeldTooLow)
  {
    var g := ExampleGame(hand);
    assert TilesForIds(g.players[0].tiles, [1, 2, 3]) == Found(hand[..3]) by {
      ExampleTileLookups(hand);
      ExampleLookups(hand);
    }
    assert IsValid(hand[..3]) by {
      assert hand[..3] == [Numbered(1, 7, Red), Numbered(2, 8, Red), Numbered(3, 9, Red)];
      RunJokerFree();
    }
    assert MeldTotal(BoardAndNew, g.board, hand[..3]) == 24 by {
      ExampleValues(hand);
      assert TouchedValue([], hand[..3]) == 0;
    }
  }

  /** Ids 1, 1, 2, 3 read 7, 7, 8, 9, which the span test accepts as a run
      worth 31: the meld flag is set, the first 7 leaves the hand, and the
      second removal raises. */
  lemma ExampleRepeatRaises(hand: seq<Tile>)
    requires ExampleHand(hand)
    ensures PlaceAsWritten(ExampleGame(hand), 0, [1, 1, 2, 3], BoardAndNew)
         == (ValueErrorRaised, MeldedThenRaised(ExampleGame(hand), 0, hand[1..]))
  {
    var g := ExampleGame(hand);
    var bad := [hand[0]] + hand[..3];
    assert TilesForIds(g.players[0].tiles, [1, 1, 2, 3]) == Found(bad) by {
      ExampleTileLookups(hand);
      ExampleLookups(hand);
    }
    assert IsValid(bad) by {
      assert bad == [Numbered(1, 7, Red), Numbered(1, 7, Red), Numbered(2, 8, Red), Numbered(3, 9, Red)];
      RunRepeatRed();
    }
    assert MeldTotal(BoardAndNew, g.board, bad) >= InitialMeldMinimum by {
      ExampleValues(hand);
      assert TouchedValue([], bad) == 0;
    }
    assert !RemoveEachRaising(g.players[0].tiles, bad).0 && RemoveEachRaising(g.players[0].tiles, bad).1 == hand[1..] by {
      ExampleRemoval(hand);
    }
    PlaceAsWrittenRaisesWhen(g, 0, [1, 1, 2, 3], BoardAndNew, bad);
  }

  /** In that call the red 7 ends up in neither the hand nor the board: the
      game has one tile fewer than before. */
  lemma RepeatedIdLosesTile(hand: seq<Tile>)
    requires ExampleHand(hand)
    ensures var r := PlaceAsWritten(ExampleGame(hand), 0, [1, 1, 2, 3], BoardAndNew);
      && r.0 == ValueErrorRaised
      && |r.1.players| == 1 && r.1.players[0].hasInitialMeld
      && multiset(AllTiles(r.1)) == multiset(AllTiles(ExampleGame(hand))) - multiset{hand[0]}
  {
    ExampleRepeatRaises(hand);
    ExampleLoss(hand);
  }

  lemma ExampleLoss(hand: seq<Tile>)
    requires ExampleHand(hand)
    ensures var g := ExampleGame(hand);
      multiset(AllTiles(MeldedThenRaised(g, 0, hand[1..])))
      == multiset(AllTiles(g)) - multiset{hand[0]}
  {
    var g := ExampleGame(hand);
    var g' := MeldedThenRaised(g, 0, hand[1..]);
    assert AllTiles(g') == hand[1..] by {
      assert g'.players[..0] == [];
      assert HandTiles(g'.players) == hand[1..];
    }
    assert AllTiles(g) == hand by {
      assert g.players[..0] == [];
      assert HandTiles(g.players) == hand;
    }
    assert hand == [hand[0]] + hand[1..];
  }

  lemma RunJokerFree()
    ensures IsValid([Numbered(1, 7, Red), Numbered(2, 8, Red), Numbered(3, 9, Red)])
  {
    var r := [Numbered(1, 7, Red), Numbered(2, 8, Red), Numbered(3, 9, Red)];
    assert r[0].number == 7 && r[2].number == 9;
    assert NumberBounds(r, 7, 9);
    assert SameColor(r);
    RunCharacterization(r, 7, 9);
  }

  lemma RunRepeatRed()
    ensures IsValid([Numbered(1, 7, Red), Numbered(1, 7, Red), Numbered(2, 8, Red), Numbered(3, 9, Red)])
  {
    var r := [Numbered(1, 7, Red), Numbered(1, 7, Red), Numbered(2, 8, Red), Numbered(3, 9, Red)];
    assert r[0].number == 7 && r[3].number == 9;
    assert NumberBounds(r, 7, 9);
    assert SameColor(r);
    RunCharacterization(r, 7, 9);
  }
}
