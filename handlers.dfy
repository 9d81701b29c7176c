/** The request handlers every game service variant shares: the search loops,
    the dealing of a waiting game, placing, drawing and the per-player view.
    Each one updates a `Game` in place and is proved to do exactly what the
    corresponding function of `Rules` says. */
module Handlers {
  import opened Tiles
  import opened Combinations
  import opened GameModel
  import opened Rules

  // ---------------------------------------------------------------------
  // Search loops

  /** `_find_tile_by_id`: the first tile of `tiles` with the given id. */
  method FindTileById(tiles: seq<Tile>, id: TileId) returns (r: Option<Tile>)
    ensures r == TileWithId(tiles, id)
  {
    var k := 0;
    while k < |tiles|
      invariant 0 <= k <= |tiles|
      invariant TileWithId(tiles[k..], id) == TileWithId(tiles, id)
    {
      if tiles[k].id == id {
        return Some(tiles[k]);
      }
      assert tiles[k..][1..] == tiles[k + 1..];
      k := k + 1;
    }
    return None;
  }

  /** `_get_player_by_id`: the position of the first player with the given id. */
  method GetPlayerById(players: seq<Player>, id: PlayerId) returns (r: Option<nat>)
    ensures r == PlayerIndex(players, ById(id))
  {
    var k := 0;
    while k < |players|
      invariant 0 <= k <= |players|
      invariant forall j | 0 <= j < k :: players[j].id != id
    {
      if players[k].id == id {
        return Some(k);
      }
      k := k + 1;
    }
    return None;
  }

  /** The loop that looks for a player already using a name. */
  method FindPlayerByName(players: seq<Player>, name: string) returns (r: Option<nat>)
    ensures r == PlayerIndex(players, ByName(name))
  {
    var k := 0;
    while k < |players|
      invariant 0 <= k <= |players|
      invariant forall j | 0 <= j < k :: players[j].name != name
    {
      if players[k].name == name {
        return Some(k);
      }
      k := k + 1;
    }
    return None;
  }

  function Prepend(acc: seq<Tile>, r: Lookup): Lookup
  {
    match r
    case Found(ts) => Found(acc + ts)
    case Missing(id) => Missing(id)
  }

  lemma TilesForIdsStep(hand: seq<Tile>, ids: seq<TileId>, acc: seq<Tile>)
    requires ids != []
    ensures TileWithId(hand, ids[0]).None? ==> Prepend(acc, TilesForIds(hand, ids)) == Missing(ids[0])
    ensures TileWithId(hand, ids[0]).Some? ==>
      Prepend(acc, TilesForIds(hand, ids))
      == Prepend(acc + [TileWithId(hand, ids[0]).value], TilesForIds(hand, ids[1..]))
  {
    if TileWithId(hand, ids[0]).Some? {
      match TilesForIds(hand, ids[1..])
      case Missing(_) =>
      case Found(ts) =>
        assert acc + ([TileWithId(hand, ids[0]).value] + ts) == (acc + [TileWithId(hand, ids[0]).value]) + ts;
    }
  }

  /** The loop that gathers the requested tiles from the hand, stopping at the
      first id the hand does not hold. */
  method CollectTiles(hand: seq<Tile>, ids: seq<TileId>) returns (r: Lookup)
    ensures r == TilesForIds(hand, ids)
  {
    var acc := [];
    var k := 0;
    while k < |ids|
      invariant 0 <= k <= |ids|
      invariant TilesForIds(hand, ids) == Prepend(acc, TilesForIds(hand, ids[k..]))
    {
      var t := FindTileById(hand, ids[k]);
      TilesForIdsStep(hand, ids[k..], acc);
      if t.None? {
        return Missing(ids[k]);
      }
      assert ids[k..][1..] == ids[k + 1..];
      acc := acc + [t.value];
      k := k + 1;
    }
    assert ids[k..] == [];
    assert acc + [] == acc;
    return Found(acc);
  }

  /** Removing the first occurrence of `x`, found at index `k`, cuts `s` there. */
  lemma {:induction false} RemoveFirstAt(s: seq<Tile>, x: Tile, k: nat)
    requires k < |s| && s[k] == x
    requires forall j | 0 <= j < k :: s[j] != x
    ensures RemoveFirst(s, x) == s[..k] + s[k + 1..]
    decreases k
  {
    if k == 0 {
      assert s[..0] + s[1..] == s[1..];
    } else {
      var t := s[1..];
      assert forall j | 0 <= j < k - 1 :: t[j] != x by {
        forall j | 0 <= j < k - 1 ensures t[j] != x { assert t[j] == s[j + 1]; }
      }
      calc {
        RemoveFirst(s, x);
        { assert s[0] != x; }
        [s[0]] + RemoveFirst(t, x);
        { RemoveFirstAt(t, x, k - 1); }
        [s[0]] + (t[..k - 1] + t[k..]);
        { assert s[..k] == [s[0]] + t[..k - 1]; assert s[k + 1..] == t[k..]; }
        s[..k] + s[k + 1..];
      }
    }
  }

  /** `list.remove`: drop the first occurrence of a tile the list holds. */
  method RemoveTile(s: seq<Tile>, x: Tile) returns (r: seq<Tile>)
    requires x in s
    ensures r == RemoveFirst(s, x)
  {
    ghost var at :| 0 <= at < |s| && s[at] == x;
    var k := 0;
    while s[k] != x
      invariant k <= at
      invariant forall j | 0 <= j < k :: s[j] != x
      decreases at - k
    {
      k := k + 1;
    }
    RemoveFirstAt(s, x, k);
    r := s[..k] + s[k + 1..];
  }

  lemma RemoveEachStep(h: seq<Tile>, ts: seq<Tile>, k: nat)
    requires k < |ts| && multiset(ts[k..]) <= multiset(h)
    ensures ts[k] in h
    ensures RemoveEach(h, ts[k..]) == RemoveEach(RemoveFirst(h, ts[k]), ts[k + 1..])
    ensures multiset(ts[k + 1..]) <= multiset(RemoveFirst(h, ts[k]))
  {
    assert ts[k..] == [ts[k]] + ts[k + 1..];
    assert ts[k] in multiset(ts[k..]);
    assert ts[k..][0] == ts[k] && ts[k..][1..] == ts[k + 1..];
    var m := multiset(ts[k + 1..]);
    assert multiset(ts[k..]) == multiset{ts[k]} + m;
    forall x ensures m[x] <= multiset(RemoveFirst(h, ts[k]))[x] {
      assert m[x] + multiset{ts[k]}[x] <= multiset(h)[x];
    }
  }

  /** The loop that removes each placed tile from the hand in turn. */
  method RemoveTiles(hand: seq<Tile>, ts: seq<Tile>) returns (h: seq<Tile>)
    requires multiset(ts) <= multiset(hand)
    ensures h == RemoveEach(hand, ts)
  {
    h := hand;
    var k := 0;
    while k < |ts|
      invariant 0 <= k <= |ts|
      invariant multiset(ts[k..]) <= multiset(h)
      invariant RemoveEach(hand, ts) == RemoveEach(h, ts[k..])
    {
      RemoveEachStep(h, ts, k);
      h := RemoveTile(h, ts[k]);
      k := k + 1;
    }
  }

  // ---------------------------------------------------------------------
  // The per-player view

  /** `get_game_state_by_player` once the player is found: the player list
      without tiles, the player's own tiles, the board and the turn. */
  method BuildView(g: Game, i: nat) returns (v: GameView)
    requires i < |g.players|
    ensures v == ViewFor(g.Record(), i)
  {
    var infos := [];
    var k := 0;
    while k < |g.players|
      invariant 0 <= k <= |g.players|
      invariant |infos| == k && forall j | 0 <= j < k :: infos[j] == InfoOf(g.players[j])
    {
      infos := infos + [InfoOf(g.players[k])];
      k := k + 1;
    }
    var current := CurrentPlayerOf(g.Record());
    v := GameView(
      g.status, infos, g.players[i].tiles, g.board,
      if current.Some? then Some(current.value.name) else None,
      current.Some? && current.value.id == g.players[i].id);
  }

  // ---------------------------------------------------------------------
  // Joining a waiting game

  /** The branch every variant runs on a waiting game; `nameTaken` is the
      result of the name search the caller already made. */
  method JoinWaitingGame(g: Game, name: string, pid: PlayerId, nameTaken: bool) returns (r: JoinResult)
    requires nameTaken == PlayerIndex(g.players, ByName(name)).Some?
    modifies g
    ensures (r, g.Record()) == JoinWaiting(old(g.Record()), name, pid)
  {
    if |g.players| >= g.maxPlayers {
      return JoinFailed(GameFull);
    }
    if nameTaken {
      return JoinFailed(NameTaken);
    }
    var player := Player(pid, name, [], PlayerWaiting, false);
    if |g.pool| >= TilesDealt {
      player := player.(tiles := g.pool[..TilesDealt]);
      g.pool := g.pool[TilesDealt..];
    } else {
      return JoinFailed(NotEnoughTiles);
    }
    g.players := g.players + [player];
    if |g.players| >= 2 {
      g.status := InProgress;
      ghost var ps := g.players;
      var k := 0;
      while k < |g.players|
        invariant 0 <= k <= |g.players| == |ps|
        invariant forall j | 0 <= j < k :: g.players[j] == ps[j].(status := PlayerPlaying)
        invariant forall j | k <= j < |ps| :: g.players[j] == ps[j]
        invariant g.pool == old(g.pool)[TilesDealt..] && g.status == InProgress
        invariant g.board == old(g.board) && g.currentIndex == old(g.currentIndex)
        invariant g.maxPlayers == old(g.maxPlayers)
      {
        g.players := g.players[k := g.players[k].(status := PlayerPlaying)];
        k := k + 1;
      }
      assert g.players == AllPlaying(ps);
      player := player.(status := PlayerPlaying);
    }
    r := Joined(player);
  }

  // ---------------------------------------------------------------------
  // Actions

  /** The tail of `_handle_place_tiles` once the placement is accepted and the
      meld flag is set: remove the tiles, append the combination, then either
      finish the game or pass the turn. */
  method ApplyPlacement(g: Game, i: nat, ts: seq<Tile>)
    requires i < |g.players|
    requires multiset(ts) <= multiset(g.players[i].tiles)
    modifies g
    ensures g.Record() == Committed(old(g.Record()), i, ts)
  {
    ghost var g0 := g.Record();
    var hand := RemoveTiles(g.players[i].tiles, ts);
    var p := g.players[i].(tiles := hand);
    g.players := g.players[i := p];
    g.board := g.board + [Combination(ts)];
    ghost var g1 := g0.(players := g0.players[i := p], board := g0.board + [Combination(ts)]);
    assert g.Record() == g1;
    if |hand| == 0 {
      g.players := g.players[i := p.(status := PlayerFinished)];
      g.status := GameFinished;
    } else {
      g.NextTurn();
    }
  }

  /** `_handle_place_tiles` on the player at index `i`. */
  method HandlePlaceTiles(g: Game, i: nat, ids: seq<TileId>, rule: MeldRule) returns (r: ActionResult)
    requires i < |g.players| && NoDuplicates(ids)
    modifies g
    ensures (r, g.Record()) == Place(old(g.Record()), i, ids, rule)
  {
    ghost var g0 := g.Record();
    if ids == [] {
      return ActionFailed(NoTilesSpecified);
    }
    var lookup := CollectTiles(g.players[i].tiles, ids);
    if lookup.Missing? {
      return ActionFailed(TileNotInHand(lookup.id));
    }
    var ts := lookup.tiles;
    if !IsValid(ts) {
      return ActionFailed(InvalidCombination);
    }
    if !g.players[i].hasInitialMeld {
      var total := MeldTotal(rule, g.board, ts);
      if total < InitialMeldMinimum {
        return ActionFailed(InitialMeldTooLow);
      }
      g.players := g.players[i := g.players[i].(hasInitialMeld := true)];
    }
    assert g.Record() == WithMeld(g0, i) by {
      if g0.players[i].hasInitialMeld {
        assert g0.players[i := g0.players[i].(hasInitialMeld := true)] == g0.players;
      }
    }
    FoundTilesInHand(g0.players[i].tiles, ids);
    ApplyPlacement(g, i, ts);
    var view := BuildView(g, i);
    r := ActionOk(view);
    PlaceOutcome(g0, i, ids, rule);
  }

  /** `_handle_draw_tile` on the player at index `i`. */
  method HandleDrawTile(g: Game, i: nat) returns (r: ActionResult)
    requires i < |g.players|
    modifies g
    ensures (r, g.Record()) == Draw(old(g.Record()), i)
  {
    if |g.pool| == 0 {
      return ActionFailed(NoTilesInPool);
    }
    var drawn := g.pool[0];
    g.pool := g.pool[1..];
    g.players := g.players[i := g.players[i].(tiles := g.players[i].tiles + [drawn])];
    g.NextTurn();
    var view := BuildView(g, i);
    r := ActionOk(view);
  }

  /** The checks `perform_action_by_player` makes before it dispatches; on
      success `i` is the acting player's position. */
  method CheckTurn(g: Game, pid: PlayerId) returns (refusal: Option<Failure>, i: nat)
    ensures refusal == Refusal(g.Record(), pid)
    ensures refusal.None? ==> PlayerIndex(g.players, ById(pid)) == Some(i)
  {
    var found := GetPlayerById(g.players, pid);
    i := 0;
    if found.None? {
      refusal := Some(PlayerNotFound);
    } else if g.status != InProgress {
      refusal := Some(NotInProgress);
    } else if g.currentIndex >= |g.players| {
      refusal := Some(NoCurrentPlayer);
    } else if g.players[g.currentIndex].id != pid {
      refusal := Some(NotYourTurn);
    } else {
      refusal := None;
      i := found.value;
    }
  }

  /** The dispatch on the action type. */
  method HandleAction(g: Game, i: nat, a: Action, rule: MeldRule) returns (r: ActionResult)
    requires i < |g.players| && WellFormedAction(a)
    modifies g
    ensures (r, g.Record()) == Dispatch(old(g.Record()), i, a, rule)
  {
    match a
    case PlaceTiles(ids) =>
      r := HandlePlaceTiles(g, i, ids, rule);
    case DrawTile =>
      r := HandleDrawTile(g, i);
    case Rearrange =>
      r := ActionFailed(RearrangeNotImplemented);
    case OtherAction(_) =>
      r := ActionFailed(InvalidActionType);
  }
}
