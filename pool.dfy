/** The tile pool: 104 numbered tiles (two sets of 1..13 in each of the four
    colors) and two jokers, created in a fixed order and then shuffled. */
module TilePool {
  import opened Tiles

  const PoolSize: nat := 106

  /** The colors in enumeration order. */
  function ColorAt(k: nat): (c: Color)
    requires k < 4
  {
    [Black, Red, Blue, Orange][k]
  }

  function ColorIndex(c: Color): (k: nat)
    ensures k < 4 && ColorAt(k) == c
  {
    match c
    case Black => 0
    case Red => 1
    case Blue => 2
    case Orange => 3
  }

  lemma ColorAtIndex(k: nat)
    requires k < 4
    ensures ColorIndex(ColorAt(k)) == k
  {
  }

  /** Tiles 1..len of color `c`, taking their ids from `ids[base..]` in turn. */
  function NumberRun(ids: seq<TileId>, base: nat, c: Color, len: nat): (r: seq<Tile>)
    requires base + len <= |ids|
    ensures |r| == len
  {
    if len == 0 then []
    else NumberRun(ids, base, c, len - 1) + [Numbered(ids[base + len - 1], len, c)]
  }

  /** The first `k` colors, thirteen numbers each, ids from `ids[base..]`. */
  function ColorRuns(ids: seq<TileId>, base: nat, k: nat): (r: seq<Tile>)
    requires k <= 4 && base + 13 * k <= |ids|
    ensures |r| == 13 * k
  {
    if k == 0 then []
    else ColorRuns(ids, base, k - 1) + NumberRun(ids, base + 13 * (k - 1), ColorAt(k - 1), 13)
  }

  /** The first `m` complete sets of 52 numbered tiles. */
  function Sets(ids: seq<TileId>, m: nat): (r: seq<Tile>)
    requires 52 * m <= |ids|
    ensures |r| == 52 * m
  {
    if m == 0 then [] else Sets(ids, m - 1) + ColorRuns(ids, 52 * (m - 1), 4)
  }

  /** The pool in creation order, before shuffling: two sets, then two jokers. */
  function Unshuffled(ids: seq<TileId>): (r: seq<Tile>)
    requires |ids| == PoolSize
    ensures |r| == PoolSize
  {
    Sets(ids, 2) + [Joker(ids[104]), Joker(ids[105])]
  }

  /** Build the 106 tiles and shuffle them. `ids[k]` is the id given to the
      k-th tile created; `picks[i]` is the random index in 0..i that the
      shuffle draws at step i. */
  method CreateTilePool(ids: seq<TileId>, picks: seq<nat>) returns (pool: seq<Tile>)
    requires |ids| == PoolSize
    requires |picks| == PoolSize && forall i | 0 <= i < |picks| :: picks[i] <= i
    ensures |pool| == PoolSize
    ensures multiset(pool) == multiset(Unshuffled(ids))
  {
    var tiles := CreateInOrder(ids);
    var a := new Tile[|tiles|](k requires 0 <= k < |tiles| => tiles[k]);
    assert a[..] == tiles;
    Shuffle(a, picks);
    pool := a[..];
  }

  /** The creation loops: two copies, each color in enumeration order, numbers
      1..13, then the two jokers. */
  method CreateInOrder(ids: seq<TileId>) returns (tiles: seq<Tile>)
    requires |ids| == PoolSize
    ensures tiles == Unshuffled(ids)
  {
    tiles := [];
    var copy := 0;
    while copy < 2
      invariant 0 <= copy <= 2
      invariant tiles == Sets(ids, copy)
    {
      var ci := 0;
      while ci < 4
        invariant 0 <= ci <= 4
        invariant tiles == Sets(ids, copy) + ColorRuns(ids, 52 * copy, ci)
      {
        var number := 1;
        ghost var before := tiles;
        while number <= 13
          invariant 1 <= number <= 14
          invariant |tiles| == 52 * copy + 13 * ci + number - 1
          invariant tiles == before + NumberRun(ids, 52 * copy + 13 * ci, ColorAt(ci), number - 1)
        {
          tiles := tiles + [Numbered(ids[|tiles|], number, ColorAt(ci))];
          number := number + 1;
        }
        assert ColorRuns(ids, 52 * copy, ci + 1)
            == ColorRuns(ids, 52 * copy, ci) + NumberRun(ids, 52 * copy + 13 * ci, ColorAt(ci), 13);
        ci := ci + 1;
      }
      copy := copy + 1;
    }
    tiles := tiles + [Joker(ids[|tiles|]), Joker(ids[|tiles| + 1])];
  }

  /** Fisher-Yates shuffle in place: for i from the last index down to 1,
      swap a[i] with a[picks[i]]. */
  method Shuffle(a: array<Tile>, picks: seq<nat>)
    requires |picks| == a.Length && forall i | 0 <= i < |picks| :: picks[i] <= i
    modifies a
    ensures multiset(a[..]) == old(multiset(a[..]))
  {
    var i := a.Length - 1;
    while i > 0
      invariant -1 <= i < a.Length || a.Length == 0
      invariant multiset(a[..]) == old(multiset(a[..]))
    {
      var j := picks[i];
      a[i], a[j] := a[j], a[i];
      i := i - 1;
    }
  }

  // ---------------------------------------------------------------------
  // What the pool holds

  /** Numbered tiles of color `c` and number `n`, and jokers. */
  function KindCount(s: seq<Tile>, c: Color, n: int): nat
  {
    CountWhere(s, (t: Tile) => t.Numbered? && t.color == c && t.number == n)
  }

  function JokerCount(s: seq<Tile>): nat
  {
    CountWhere(s, (t: Tile) => t.Joker?)
  }

  lemma {:induction false} NumberRunCounts(ids: seq<TileId>, base: nat, c: Color, len: nat, c': Color, n: int)
    requires base + len <= |ids|
    ensures KindCount(NumberRun(ids, base, c, len), c', n) == if c == c' && 1 <= n <= len then 1 else 0
    ensures JokerCount(NumberRun(ids, base, c, len)) == 0
    decreases len
  {
    if len > 0 {
      var p := (t: Tile) => t.Numbered? && t.color == c' && t.number == n;
      NumberRunCounts(ids, base, c, len - 1, c', n);
      CountWhereAppend(NumberRun(ids, base, c, len - 1), [Numbered(ids[base + len - 1], len, c)], p);
      CountWhereAppend(NumberRun(ids, base, c, len - 1), [Numbered(ids[base + len - 1], len, c)], (t: Tile) => t.Joker?);
    }
  }

  lemma {:induction false} ColorRunsCounts(ids: seq<TileId>, base: nat, k: nat, c: Color, n: int)
    requires k <= 4 && base + 13 * k <= |ids|
    ensures KindCount(ColorRuns(ids, base, k), c, n) == if ColorIndex(c) < k && 1 <= n <= 13 then 1 else 0
    ensures JokerCount(ColorRuns(ids, base, k)) == 0
    decreases k
  {
    if k > 0 {
      ColorRunsCounts(ids, base, k - 1, c, n);
      var prev := ColorRuns(ids, base, k - 1);
      var run := NumberRun(ids, base + 13 * (k - 1), ColorAt(k - 1), 13);
      NumberRunCounts(ids, base + 13 * (k - 1), ColorAt(k - 1), 13, c, n);
      CountWhereAppend(prev, run, (t: Tile) => t.Numbered? && t.color == c && t.number == n);
      CountWhereAppend(prev, run, (t: Tile) => t.Joker?);
      assert ColorAt(k - 1) == c <==> ColorIndex(c) == k - 1;
    }
  }

  lemma {:induction false} SetsCounts(ids: seq<TileId>, m: nat, c: Color, n: int)
    requires 52 * m <= |ids|
    ensures KindCount(Sets(ids, m), c, n) == if 1 <= n <= 13 then m else 0
    ensures JokerCount(Sets(ids, m)) == 0
    decreases m
  {
    if m > 0 {
      SetsCounts(ids, m - 1, c, n);
      ColorRunsCounts(ids, 52 * (m - 1), 4, c, n);
      CountWhereAppend(Sets(ids, m - 1), ColorRuns(ids, 52 * (m - 1), 4),
                       (t: Tile) => t.Numbered? && t.color == c && t.number == n);
      CountWhereAppend(Sets(ids, m - 1), ColorRuns(ids, 52 * (m - 1), 4), (t: Tile) => t.Joker?);
    }
  }

  /** Any shuffle of the created tiles holds 106 tiles: exactly two numbered
      tiles of every color and number 1..13, none of any other number, and
      exactly two jokers. */
  lemma PoolComposition(ids: seq<TileId>, pool: seq<Tile>, c: Color, n: int)
    requires |ids| == PoolSize
    requires multiset(pool) == multiset(Unshuffled(ids))
    ensures |pool| == PoolSize
    ensures KindCount(pool, c, n) == if 1 <= n <= 13 then 2 else 0
    ensures JokerCount(pool) == 2
  {
    assert |pool| == |multiset(pool)| == |multiset(Unshuffled(ids))| == PoolSize;
    var jokers := [Joker(ids[104]), Joker(ids[105])];
    SetsCounts(ids, 2, c, n);
    CountWhereAppend(Sets(ids, 2), jokers, (t: Tile) => t.Numbered? && t.color == c && t.number == n);
    CountWhereAppend(Sets(ids, 2), jokers, (t: Tile) => t.Joker?);
    assert jokers[..1] == [Joker(ids[104])];
    CountWherePermutation(pool, Unshuffled(ids), (t: Tile) => t.Numbered? && t.color == c && t.number == n);
    CountWherePermutation(pool, Unshuffled(ids), (t: Tile) => t.Joker?);
  }

  // ---------------------------------------------------------------------
  // Ids

  function IdsOf(s: seq<Tile>): (r: seq<TileId>)
    ensures |r| == |s| && forall k | 0 <= k < |s| :: r[k] == s[k].id
  {
    seq(|s|, k requires 0 <= k < |s| => s[k].id)
  }

  lemma {:induction false} NumberRunIds(ids: seq<TileId>, base: nat, c: Color, len: nat)
    requires base + len <= |ids|
    ensures IdsOf(NumberRun(ids, base, c, len)) == ids[base..base + len]
    decreases len
  {
    if len > 0 { NumberRunIds(ids, base, c, len - 1); }
  }

  lemma {:induction false} ColorRunsIds(ids: seq<TileId>, base: nat, k: nat)
    requires k <= 4 && base + 13 * k <= |ids|
    ensures IdsOf(ColorRuns(ids, base, k)) == ids[base..base + 13 * k]
    decreases k
  {
    if k > 0 {
      ColorRunsIds(ids, base, k - 1);
      NumberRunIds(ids, base + 13 * (k - 1), ColorAt(k - 1), 13);
      assert ids[base..base + 13 * k] == ids[base..base + 13 * (k - 1)] + ids[base + 13 * (k - 1)..base + 13 * k];
    }
  }

  lemma {:induction false} SetsIds(ids: seq<TileId>, m: nat)
    requires 52 * m <= |ids|
    ensures IdsOf(Sets(ids, m)) == ids[..52 * m]
    decreases m
  {
    if m > 0 {
      SetsIds(ids, m - 1);
      ColorRunsIds(ids, 52 * (m - 1), 4);
      assert ids[..52 * m] == ids[..52 * (m - 1)] + ids[52 * (m - 1)..52 * m];
    }
  }

  /** Tile k of the unshuffled pool carries `ids[k]`: with distinct uuids, every
      tile of any shuffle of the pool has its own id. */
  lemma PoolIdsUnique(ids: seq<TileId>, pool: seq<Tile>)
    requires |ids| == PoolSize
    requires forall i, j | 0 <= i < j < |ids| :: ids[i] != ids[j]
    requires multiset(pool) == multiset(Unshuffled(ids))
    ensures IdsOf(Unshuffled(ids)) == ids
    ensures UniqueIds(multiset(pool))
  {
    SetsIds(ids, 2);
    var u := Unshuffled(ids);
    assert IdsOf(u) == ids by {
      forall k | 0 <= k < PoolSize ensures u[k].id == ids[k] {
        if k < 104 { assert u[k] == Sets(ids, 2)[k]; assert IdsOf(Sets(ids, 2))[k] == ids[k]; }
      }
    }
    DistinctIdsUnique(u);
  }
}
