/** Sequences of service calls on one game. Each service method is proved to
    act on its game exactly as `JoinLocked`/`JoinLockFree`/`JoinTestCopy` and
    `Act` say, so what is proved here about a run of those functions holds for
    every sequence of calls a service receives for that game. */
module Runs {
  import opened Tiles
  import opened Combinations
  import opened GameModel
  import opened Rules

  /** The three services of the repository: `src/game_service.py` (locks and
      re-join), the root `game_service.py` (lock-free) and the integration
      test's copy. */
  datatype Variant = Locked | LockFree | TestCopy

  /** One call on a game: a join with the uuid drawn for the new player, or an
      action by a player. */
  datatype Step = JoinStep(name: string, pid: PlayerId) | ActStep(actor: PlayerId, action: Action)

  function RuleOf(v: Variant): (rule: MeldRule)
    ensures rule == NewOnly <==> v == TestCopy
  {
    if v == TestCopy then NewOnly else BoardAndNew
  }

  function JoinBy(v: Variant, g: GameRecord, name: string, pid: PlayerId): (JoinResult, GameRecord)
  {
    match v
    case Locked => JoinLocked(g, name, pid)
    case LockFree => JoinLockFree(g, name, pid)
    case TestCopy => JoinTestCopy(g, name, pid)
  }

  ghost predicate WellFormedStep(s: Step)
  {
    s.ActStep? ==> WellFormedAction(s.action)
  }

  ghost predicate WellFormedSteps(steps: seq<Step>)
  {
    forall k | 0 <= k < |steps| :: WellFormedStep(steps[k])
  }

  /** The game after one call of service `v`. */
  function Apply(v: Variant, g: GameRecord, s: Step): GameRecord
    requires WellFormedStep(s)
  {
    match s
    case JoinStep(name, pid) => JoinBy(v, g, name, pid).1
    case ActStep(pid, a) => Act(g, pid, a, RuleOf(v)).1
  }

  /** The game after the calls `steps`, in order. */
  function Run(v: Variant, g: GameRecord, steps: seq<Step>): GameRecord
    requires WellFormedSteps(steps)
    decreases |steps|
  {
    if steps == [] then g else Run(v, Apply(v, g, steps[0]), steps[1..])
  }

  /** Every join of the run brings a player id that is new to the game at that
      point, as the uuids the service draws are. */
  ghost predicate FreshJoins(v: Variant, g: GameRecord, steps: seq<Step>)
    requires WellFormedSteps(steps)
    decreases |steps|
  {
    steps == []
    || ((steps[0].JoinStep? ==> FreshPlayerId(g, steps[0].pid))
        && FreshJoins(v, Apply(v, g, steps[0]), steps[1..]))
  }

  // ---------------------------------------------------------------------
  // Conservation and the invariant over a run

  lemma ApplyConserves(v: Variant, g: GameRecord, s: Step)
    requires WellFormedStep(s)
    ensures multiset(AllTiles(Apply(v, g, s))) == multiset(AllTiles(g))
  {
    match s
    case JoinStep(name, pid) => JoinConserves(g, name, pid);
    case ActStep(pid, a) => ActConserves(g, pid, a, RuleOf(v));
  }

  lemma ApplyKeepsConsistent(v: Variant, g: GameRecord, s: Step)
    requires WellFormedStep(s)
    requires Consistent(g) && (s.JoinStep? ==> FreshPlayerId(g, s.pid))
    ensures Consistent(Apply(v, g, s))
  {
    match s
    case JoinStep(name, pid) => JoinKeepsConsistent(g, name, pid);
    case ActStep(pid, a) => ActKeepsConsistent(g, pid, a, RuleOf(v));
  }

  /** No run creates or destroys a tile: the game holds the same multiset of
      tiles, split between pool, hands and board, after any calls. */
  lemma {:induction false} RunConserves(v: Variant, g: GameRecord, steps: seq<Step>)
    requires WellFormedSteps(steps)
    ensures multiset(AllTiles(Run(v, g, steps))) == multiset(AllTiles(g))
    decreases |steps|
  {
    if steps != [] {
      ApplyConserves(v, g, steps[0]);
      RunConserves(v, Apply(v, g, steps[0]), steps[1..]);
    }
  }

  /** A consistent game stays consistent through any run whose joins bring
      fresh ids: never more than two players, distinct player ids, a valid
      turn pointer, and every tile id once. */
  lemma {:induction false} RunKeepsConsistent(v: Variant, g: GameRecord, steps: seq<Step>)
    requires WellFormedSteps(steps)
    requires Consistent(g) && FreshJoins(v, g, steps)
    ensures Consistent(Run(v, g, steps))
    ensures |Run(v, g, steps).players| <= 2
    decreases |steps|
  {
    if steps != [] {
      ApplyKeepsConsistent(v, g, steps[0]);
      RunKeepsConsistent(v, Apply(v, g, steps[0]), steps[1..]);
    }
  }

  /** Any game a service creates and then serves: a fresh shuffled pool with
      unique ids, followed by calls whose joins bring fresh ids, ends with at
      most two players, every pool tile still in the game exactly once, and
      nothing else. */
  lemma ServedGame(v: Variant, pool: seq<Tile>, maxPlayers: int, steps: seq<Step>)
    requires UniqueIds(multiset(pool))
    requires WellFormedSteps(steps) && FreshJoins(v, NewGame(pool, maxPlayers), steps)
    ensures Consistent(Run(v, NewGame(pool, maxPlayers), steps))
    ensures |Run(v, NewGame(pool, maxPlayers), steps).players| <= 2
    ensures multiset(AllTiles(Run(v, NewGame(pool, maxPlayers), steps))) == multiset(pool)
  {
    NewGameConsistent(pool, maxPlayers);
    NewGameInv(pool, maxPlayers);
    RunKeepsConsistent(v, NewGame(pool, maxPlayers), steps);
    RunConserves(v, NewGame(pool, maxPlayers), steps);
  }

  // ---------------------------------------------------------------------
  // The three services agree on what they do to a game

  /** The two meld rules give the same action on a game whose tile ids are unique. */
  lemma ActRulesAgree(g: GameRecord, pid: PlayerId, a: Action)
    requires WellFormedAction(a)
    requires UniqueIds(multiset(AllTiles(g)))
    ensures Act(g, pid, a, BoardAndNew) == Act(g, pid, a, NewOnly)
  {
    if Refusal(g, pid).None? && a.PlaceTiles? {
      MeldRulesAgree(g, PlayerIndex(g.players, ById(pid)).value, a.tileIds);
    }
  }

  lemma ApplyVariantsAgree(g: GameRecord, s: Step)
    requires WellFormedStep(s)
    requires UniqueIds(multiset(AllTiles(g)))
    ensures Apply(Locked, g, s) == Apply(LockFree, g, s) == Apply(TestCopy, g, s)
  {
    match s
    case JoinStep(name, pid) => JoinVariantsAgree(g, name, pid);
    case ActStep(pid, a) => ActRulesAgree(g, pid, a);
  }

  lemma LockedLockFreeAgree(g: GameRecord, s: Step)
    requires WellFormedStep(s)
    ensures Apply(Locked, g, s) == Apply(LockFree, g, s)
  {
    if s.JoinStep? {
      JoinVariantsAgree(g, s.name, s.pid);
    }
  }

  /** The lock-free service and the locked one leave every game in the same
      state after the same calls; they differ only in the answers a game that
      is not waiting gives to a join. When the game's tile ids are unique, the
      integration test's copy, with its other meld rule, leaves it in that
      state too. */
  lemma {:induction false} RunVariantsAgree(g: GameRecord, steps: seq<Step>)
    requires WellFormedSteps(steps)
    ensures Run(Locked, g, steps) == Run(LockFree, g, steps)
    ensures UniqueIds(multiset(AllTiles(g))) ==> Run(LockFree, g, steps) == Run(TestCopy, g, steps)
    decreases |steps|
  {
    if steps != [] {
      var s := steps[0];
      LockedLockFreeAgree(g, s);
      var g' := Apply(Locked, g, s);
      RunVariantsAgree(g', steps[1..]);
      if UniqueIds(multiset(AllTiles(g))) {
        ApplyVariantsAgree(g, s);
        ApplyConserves(Locked, g, s);
      }
    }
  }
}
