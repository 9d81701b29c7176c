# Rummikub rules engine in Dafny

This project models the core of a Rummikub game backend. It covers the following parts:

- **The 106-tile pool.** It holds two copies of 1..13 in each of black, red, blue and orange, plus two jokers. The tiles are created in a fixed order and then shuffled with Fisher-Yates.
- **Combination legality.** A group has at most four tiles, one number and distinct colours. A run has one colour and a number span between 3 and the tile count; jokers fill gaps. The value of a combination is the sum of its tile values.
- **The game record.** This is the player list, the board, the pool, the turn pointer and the status (waiting, in progress, finished).
- **The three service variants in the repository:**
  - `src/game_service.py` has a lock and an action counter per game, lets a known name re-join a running game, and scores the initial meld with the board combinations the new tiles touch.
  - The root `game_service.py` is lock-free and accepts joins only while a game is waiting.
  - The integration test keeps its own copy, without the re-join branch, which scores the initial meld with the new combination alone.
- **The computer player of the integration test (`NPCPlayer`).** It analyses a hand into potential groups and runs and turns them into candidate combinations. It picks the one with the best priority (tiles × 100 + value) that meets the 20/30-point minimum, tries to go out in the endgame, and otherwise draws.

Layout:

- `tiles.dfy`: tiles, values and counting facts.
- `combinations.dfy`: legality and value.
- `pool.dfy`: creating and shuffling the pool.
- `game.dfy`: the player and game records, the turn pointer, the per-player view and the mutable `Game` class.
- `rules.dfy`: every service operation as a function on a game record, with the game invariant, tile conservation and the repeated-id finding.
- `handlers.dfy`: the request handlers' loops as methods proved equal to those functions.
- `locked_service.dfy`, `lockfree_service.dfy` and `test_copy_service.dfy`: the three service classes, holding maps of games and action counters.
- `runs.dfy`: properties of any sequence of service calls.
- `npc.dfy` and `npc_moves.dfy`: the computer player.

Four behaviours of the code are easy to miss; the model follows the code:

- **Players per game.** A join is accepted only while the game waits, and the game starts at the second player. So no game ever has more than two players, whatever `max_players` says.
- **Placing tiles.** Placement appends one new combination built from hand tiles. Rearranging the board is not implemented and is always refused.
- **Run check.** It compares the span of the numbers with the tile count (`<=`), not for equality. So 7, 7, 8, 9 in one colour passes.
- **Refused actions.** A placement with a repeated tile id does not leave the game unchanged (see Findings).

## Model

| member | source | states |
|---|---|---|
| Tiles.Value | models.py:21-26 | a joker is worth 0, a numbered tile its number |
| Combinations.ValiditySize | models.py:38-44 | fewer than three tiles is never valid; three or more jokers alone always are |
| Combinations.GroupCharacterization | models.py:46-60 | the group check holds iff at most four tiles, every non-joker tile has one number and no two share a colour |
| Combinations.RunCharacterization | models.py:62-92 | with numbers bounded by lo..hi, the run check holds iff one colour and 3 <= hi-lo+1 <= tile count |
| Combinations.RunAllJokers | models.py:76-77 | a list of jokers alone passes the run check |
| Combinations.ValidityIgnoresOrder | models.py:38-92 | group, run and overall validity depend only on the multiset of tiles |
| Combinations.ValueProperties | models.py:94-96 | the value is additive over concatenation, blind to order, and 0 for jokers only |
| Combinations.JokersWorthNothing | models.py:21-26 | jokers only sum to 0 |
| Combinations.GroupExample | models.py:46-60 | 5R 5B 5K is a valid group |
| Combinations.GroupRepeatedColorExample | models.py:46-60 | 5R 5B 5R is invalid (repeated colour) |
| Combinations.GroupTooLargeExample | models.py:46-60 | four fives in distinct colours plus a joker are invalid: five tiles are too many for a group, and they are not a run |
| Combinations.RunJokerExample | models.py:62-92 | 7R, joker, 9R is valid |
| Combinations.RunRepeatExample | models.py:83-92 | 7R 7R 8R 9R passes the span test |
| Combinations.RunGapExample | models.py:83-92 | 7R 8R 10R is invalid |
| GameModel.CurrentPlayerOf | models.py:131-135 | a current player exists iff the index is inside the player list, and it is the player at that index |
| GameModel.NextIndex | models.py:137-140 | the next index is one further, wrapping to 0 after the last player; it is unchanged with no players |
| GameModel.Game.NextTurn | models.py:137-140 | the turn pointer moves to `NextIndex` of the old game |
| GameModel.Game.constructor | models.py:120-129 | a new game is waiting, with no players, an empty board, the given pool and turn 0 |
| GameModel.ViewFor | src/game_service.py:123-151 | the view lists every player's name and tile count, the caller's own tiles and the board; `canPlay` holds iff the caller is the current player |
| TilePool.CreateTilePool | src/game_service.py:18-33 | 106 tiles, a permutation of the creation order |
| TilePool.CreateInOrder | src/game_service.py:18-33 | the creation loops produce two sets of 1..13 per colour in colour order, then two jokers |
| TilePool.Shuffle | src/game_service.py:32 | the shuffle keeps the multiset of tiles |
| TilePool.PoolComposition | src/game_service.py:18-33 | any created pool holds exactly two tiles of every colour and number 1..13, none of any other number, and two jokers |
| TilePool.PoolIdsUnique | src/game_service.py:18-33 | with distinct uuids, every tile of the pool has its own id |
| Rules.PlayerIndex | src/game_service.py:153-158 | the first player matching a key (an id here, a name in the join loop at lines 71-75); none iff no player matches |
| Rules.TileWithId | src/game_service.py:279-284 | a found tile is in the list and has the id; none iff no tile has it |
| Rules.TilesForIds | src/game_service.py:207-214 | found: one hand tile per id, in request order; missing: an id that no hand tile has |
| Rules.RemoveFirst | src/game_service.py:230-231 | `list.remove` takes exactly one copy of the tile away |
| Rules.RemoveEach | src/game_service.py:230-231 | removing each placed tile takes exactly their multiset away |
| Rules.Refusal | src/game_service.py:176-186 | no refusal means a known player, a running game and the caller being the current player |
| Rules.JoinVariantsAgree | src/game_service.py:60-114 | the three join variants leave the game in the same state and answer alike for a waiting game |
| Rules.JoinWaitingEffect | src/game_service.py:86-112 | a refused join changes nothing; success iff not full, name free and 14 pool tiles left; the new last player gets the first 14 pool tiles; the game starts at two players with everyone playing |
| Rules.JoinLockedOutcomes | src/game_service.py:70-114 | a finished game refuses; a known name in a running game re-joins its player unchanged; a new name there is refused |
| Rules.JoinConserves | src/game_service.py:97-102 | joining moves tiles from pool to hand without creating or losing any |
| Rules.JoinPreservesInv | src/game_service.py:86-112 | joining keeps the invariant: at most two players, waiting iff fewer than two, a valid turn pointer, distinct ids |
| Rules.ActFailureUnchanged | src/game_service.py:160-199 | every refused action leaves the game as it was; only the current player of a running game acts; rearrange is always refused |
| Rules.DrawOutcome | src/game_service.py:250-267 | a draw succeeds iff the pool is not empty; it then moves the front pool tile to the hand and passes the turn |
| Rules.PlaceOutcome | src/game_service.py:201-248 | a placement is accepted iff ids were given, all are in the hand, they form a valid combination and the meld is met or is worth at least 30; a refusal changes nothing |
| Rules.PlacedConserves | src/game_service.py:230-233 | an accepted placement moves exactly the placed tiles from hand to board |
| Rules.ActConserves | src/game_service.py:160-277 | no action creates or destroys a tile |
| Rules.ActPreservesInv | src/game_service.py:160-277 | every action keeps the game invariant |
| Rules.FinishedIsFinal | src/game_service.py:82-83 | a finished game refuses every action and every join |
| Rules.NewGameConsistent | src/game_service.py:39-51 | a new game over a pool with unique ids satisfies the invariant and has every tile id once |
| Rules.JoinKeepsConsistent | src/game_service.py:60-114 | every join variant keeps a game consistent when the new player id is fresh |
| Rules.ActKeepsConsistent | src/game_service.py:160-277 | every action keeps the invariant and unique tile ids, under either meld rule |
| Rules.MeldRulesAgree | src/game_service.py:219-228 | with unique tile ids, scoring the touched board combinations plus the new one equals scoring the new one alone (tests/test_integration.py:369-375) |
| Rules.RemoveEachRaising | src/game_service.py:230-231 | the removals raise iff the placed tiles are not a sub-multiset of the hand; otherwise they equal `RemoveEach` |
| Rules.PlaceAsWrittenRaises | src/game_service.py:208-232 | the handler as written raises only for a repeated tile, after the meld flag is set, with the board unchanged |
| Rules.PlaceAsWrittenAgrees | src/game_service.py:201-248 | with distinct ids the handler as written is exactly `Place` |
| Rules.ExampleMeldRefused | src/game_service.py:219-226 | ids 1, 2, 3 (7R 8R 9R, worth 24) are refused as an initial meld |
| Rules.RepeatedIdLosesTile | src/game_service.py:208-232 | ids 1, 1, 2, 3 raise with the meld flag set, and the game has lost the red 7 |
| Handlers.FindTileById | src/game_service.py:279-284 | the search loop returns `TileWithId` |
| Handlers.GetPlayerById | src/game_service.py:153-158 | the search loop returns `PlayerIndex` by id |
| Handlers.FindPlayerByName | src/game_service.py:71-75 | the search loop returns `PlayerIndex` by name |
| Handlers.CollectTiles | src/game_service.py:207-214 | the gathering loop returns `TilesForIds` |
| Handlers.RemoveTiles | src/game_service.py:230-231 | the removal loop returns `RemoveEach` |
| Handlers.BuildView | src/game_service.py:123-151 | the built view is `ViewFor` |
| Handlers.JoinWaitingGame | src/game_service.py:86-112 | the waiting branch changes the game as `JoinWaiting` says |
| Handlers.HandlePlaceTiles | src/game_service.py:201-248 | the handler's answer and new game are `Place` |
| Handlers.HandleDrawTile | src/game_service.py:250-267 | the handler's answer and new game are `Draw` |
| Handlers.CheckTurn | src/game_service.py:176-186 | the refusal is `Refusal`, and when there is none the index is the player's |
| Handlers.HandleAction | src/game_service.py:191-199 | the dispatch's answer and new game are `Dispatch` |
| LockedService.GameService.constructor | src/game_service.py:12-16 | no games and no counters |
| LockedService.GameService.CreateGame | src/game_service.py:39-51 | registers a fresh waiting game with a shuffled full pool (unique ids for distinct uuids) and a counter of 0; other games unchanged |
| LockedService.GameService.JoinGameById | src/game_service.py:60-114 | an unknown game is refused; otherwise the game changes as `JoinLocked` says |
| LockedService.GameService.GetGameStateByPlayer | src/game_service.py:123-151 | nothing iff the game or player is unknown; otherwise that player's view |
| LockedService.GameService.PerformActionByPlayer | src/game_service.py:160-199 | unknown game or missing lock refused with no change; otherwise the game changes as `Act` says and the counter moves iff the action passed its checks |
| LockFreeService.GameService.constructor | game_service.py:11-13 | no games |
| LockFreeService.GameService.CreateGame | game_service.py:36-45 | registers a fresh waiting game with a shuffled full pool |
| LockFreeService.GameService.JoinGameById | game_service.py:54-91 | an unknown game is refused; otherwise the game changes as `JoinLockFree` says |
| LockFreeService.GameService.GetGameStateByPlayer | game_service.py:100-128 | nothing iff the game or player is unknown; otherwise that player's view |
| LockFreeService.GameService.PerformActionByPlayer | game_service.py:137-161 | an unknown game is refused; otherwise the game changes as `Act` says |
| TestCopyService.GameService.constructor | tests/test_integration.py:183-187 | no games and no counters |
| TestCopyService.GameService.CreateGame | tests/test_integration.py:210-223 | registers a fresh waiting game with a shuffled full pool and a counter of 0 |
| TestCopyService.GameService.JoinGameById | tests/test_integration.py:225-270 | an unknown game is refused; otherwise the game changes as `JoinTestCopy` says |
| TestCopyService.GameService.GetGameStateByPlayer | tests/test_integration.py:272-300 | nothing iff the game or player is unknown; otherwise that player's view |
| TestCopyService.GameService.PerformActionByPlayer | tests/test_integration.py:309-348 | as in `src/`, with the meld scored on the new combination alone |
| Runs.RuleOf | tests/test_integration.py:369-375 | only the test copy scores the meld on the new combination alone |
| Runs.RunConserves | src/game_service.py:60-277 | any sequence of joins and actions keeps the game's multiset of tiles |
| Runs.RunKeepsConsistent | src/game_service.py:60-277 | any sequence whose joins bring fresh ids keeps a game consistent, with at most two players |
| Runs.ServedGame | src/game_service.py:18-277 | a created game served by any calls keeps at most two players and exactly its 106 pool tiles, each id once |
| Runs.LockedLockFreeAgree | game_service.py:54-161 | one call leaves a game in the same state under the locked and lock-free services |
| Runs.RunVariantsAgree | game_service.py:54-161 | the locked and lock-free services agree on every run; with unique ids so does the test copy |
| Npc.FindSequences | tests/test_integration.py:488-507 | the result is exactly the maximal consecutive stretches of two or more tiles, in order |
| Npc.CanMakeSingleCombination | tests/test_integration.py:635-641 | holds iff the whole hand is one valid combination |
| Npc.FindValidTriple | tests/test_integration.py:653-670 | the first valid triple in nested-loop order, or none exists |
| Npc.Pop | tests/test_integration.py:663-664 | `list.pop` removes exactly the tile at the index and keeps the earlier ones |
| Npc.FindMultiCombinationSolution | tests/test_integration.py:643-675 | the result is exactly `GreedyTriples` of the hand: a sub-multiset of the hand, cut into valid triples, leaving tiles with no valid triple |
| Npc.FirstValidUnique | tests/test_integration.py:654-665 | the first valid triple in loop order is unique |
| Npc.GreedyStep | tests/test_integration.py:650-669 | the greedy result is the first valid triple followed by the greedy result on the popped rest |
| Npc.GreedyNone | tests/test_integration.py:650-672 | fewer than three tiles, or no valid triple, give nothing |
| NpcMoves.SplitHand | tests/test_integration.py:451-460 | jokers apart, numbered tiles grouped by number and by colour; the keys are listed in order of first appearance (`FirstNumbers`, `FirstColors`) |
| NpcMoves.SortByNumber | tests/test_integration.py:474 | sorted by number and a permutation |
| NpcMoves.SortSortedUnchanged | tests/test_integration.py:588 | sorting a run already sorted by number changes nothing |
| NpcMoves.GroupPotentials | tests/test_integration.py:462-470 | a potential group for every number held at least twice, with exactly that number's tiles, in the order the numbers are listed |
| NpcMoves.HeldTwiceMembers | tests/test_integration.py:462-464 | every listed number held at least twice is kept by the filter |
| NpcMoves.NumbersOfMembers | tests/test_integration.py:464-470 | every number listed for the groups has a potential group |
| NpcMoves.RunPotentials | tests/test_integration.py:472-483 | for every colour, the potential runs are the maximal consecutive stretches of its sorted tiles |
| NpcMoves.AnalyzeTiles | tests/test_integration.py:442-486 | the jokers of the hand, a group for every number held twice, and each colour's maximal stretches as runs |
| NpcMoves.FindTileFor | tests/test_integration.py:555-561 | the first hand tile not yet used with the number and colour, or none exists |
| NpcMoves.ExtendGroup | tests/test_integration.py:552-561 | the extension adds one unused hand tile of the number per missing colour, and adds nothing when the group already holds every such tile |
| NpcMoves.FillRunGaps | tests/test_integration.py:590-608 | the filled run takes tiles from the run and the jokers only, spans at most max-min+1, and is the run itself when it is consecutive |
| NpcMoves.MinValue | tests/test_integration.py:569 | 20 with fifteen tiles or more, 30 otherwise |
| NpcMoves.PickBest | tests/test_integration.py:572-578 | the chosen candidate is acceptable and maximal by priority then length, and every acceptable candidate before it scores strictly less (the first of equal candidates wins); none iff no acceptable candidate has a non-negative priority |
| NpcMoves.GroupCandidate | tests/test_integration.py:544-550 | a group candidate is its tiles plus the jokers needed to reach three |
| NpcMoves.GroupCandidates | tests/test_integration.py:541-563 | the candidates are the group potentials with enough jokers, each completed with jokers, in order (`GroupCandsOf`); tiles come from the hand |
| NpcMoves.GroupCandsOfMembers | tests/test_integration.py:541-563 | a completed group is listed iff it comes from a group potential with enough jokers |
| NpcMoves.RunCandidate | tests/test_integration.py:583-610 | a run candidate is exactly the potential run |
| NpcMoves.RunCandidates | tests/test_integration.py:580-610 | the candidates are the potential runs' tiles, in order (`RunCandsOf`): every potential run gives one and every candidate is one, of hand tiles |
| NpcMoves.RunCandsOfMembers | tests/test_integration.py:580-583 | a tile list is listed iff it is the tiles of a potential run |
| NpcMoves.RunsOfMembers | tests/test_integration.py:472-483 | the runs listed for a colour are exactly the tiles of its potential runs |
| NpcMoves.BlockListed | tests/test_integration.py:488-507 | any maximal consecutive stretch of a sorted colour is one of the stretches the cut produces |
| NpcMoves.ListedIsCandidate | tests/test_integration.py:541-610 | every compared group or run candidate is a candidate of the hand: all tiles of a number held twice plus jokers, or a maximal stretch of one colour |
| NpcMoves.GroupIsCandidate | tests/test_integration.py:462-470 | the group candidate of every number held at least twice, whose jokers suffice, is among those compared |
| NpcMoves.CandidateListed | tests/test_integration.py:541-610 | every candidate of the hand is among those compared, a group candidate among the groups |
| NpcMoves.PickedIsBest | tests/test_integration.py:565-627 | what is kept over the groups then the runs beats or equals every acceptable candidate on priority then length, and beats every acceptable group strictly when it is a run |
| NpcMoves.SuggestBestMove | tests/test_integration.py:509-633 | a placement or a draw, branch by branch (`Justified`): in the endgame the whole hand when it is valid, else exactly the greedy triples (`GreedyTriples`) when they leave at most two tiles; otherwise the best acceptable candidate (`BestCandidate`); it draws exactly when neither endgame placement applies and no candidate is acceptable (the converse given non-negative tile values) |

## Left out

- Locks, threads and the lock registry. A game id present in the action counters stands for its registered lock. Each call is one atomic step, and the re-lookup inside the lock is the same lookup.
- Redis storage, sessions, invite codes, HTTP endpoints, pydantic validation, the demo scripts and the test driver (`GameIntegrationTest`, `make_move`, the display and logging helpers) are not part of this model.
- Uuids and the shuffle's random draws are parameters: the uuids are `ids` and `pid`, and the random indices are `picks`.
- Player objects are values inside the game record. The aliasing of a returned `Player` with the game's list is not modelled.
- A game in progress with no current player raises `AttributeError` in the source. It is modelled as a refusal, and under the invariant it cannot happen (`Rules.InvHasCurrentPlayer`).
- Rules.Place: requires distinct tile ids. The source's handling of a repeated id is modelled separately by `Rules.PlaceAsWritten`.
- Tile numbers are unbounded integers. A numbered tile with no number, on which the run check would raise, cannot be built.
- NpcMoves.ExtendGroup: the source visits the missing colours in set order, which is unspecified; the model visits them in enumeration order. Nothing is ever added to a group potential, which already holds every tile of its number, so the order cannot matter.
- NpcMoves.SortByNumber: stability of the sort is not proved.
- NpcMoves.SuggestBestMove: the `board` parameter is unused by the source and omitted. Among equally scored candidates of one kind, which is placed (the group of the number seen first, the run of the colour seen first) is not stated; `BestCandidate` states only that a group wins a tie with a run. The two selection loops are modelled as collecting all candidates, groups then runs, and then choosing, which keeps the same order of comparison.
- NpcMoves.RunPotentials: each colour's runs are stated in order; that the colours come in order of first appearance is not stated.

## Findings

| source | as written | input that shows it | evidently intended | confidence | as-written member | corrected member |
|---|---|---|---|---|---|---|
| src/game_service.py:208-232 | the ids are looked up one by one, so a repeated id yields the same tile twice; the span-only run check accepts it; the meld flag is set before the tiles leave the hand; the second `remove` of that tile raises `ValueError` | a first placement with hand 7R(1) 8R(2) 9R(3) 5B(4) and ids [1, 1, 2, 3]: worth 31, the flag is set, one 7R is removed, then the call raises; the red 7 is in neither hand nor board | a placement names each tile once; a refused placement changes nothing and no tile is lost | high (proved on the model; not executed) | Rules.RepeatedIdLosesTile | Rules.PlaceOutcome |
