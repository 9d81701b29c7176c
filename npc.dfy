/** The computer player of the integration test (`NPCPlayer`): consecutive
    blocks in a sorted hand, the single-combination and greedy-triples checks,
    and the choice of a move. */
module Npc {
  import opened Tiles
  import opened Combinations
  import Rules

  // ---------------------------------------------------------------------
  // Consecutive blocks (`_find_sequences`)

  /** `b` directly follows `a`: both numbered, `b` one higher. */
  predicate Follows(a: Tile, b: Tile)
  {
    a.Numbered? && b.Numbered? && b.number == a.number + 1
  }

  ghost predicate Consecutive(b: seq<Tile>)
  {
    forall j | 0 < j < |b| :: Follows(b[j - 1], b[j])
  }

  /** A slice `lo..hi` of the hand. */
  datatype Span = Span(lo: nat, hi: nat)

  /** Position `j` lies strictly inside one of the spans: the pair
      `j - 1`, `j` belongs to that block. */
  ghost predicate Covered(cuts: seq<Span>, j: nat)
  {
    exists k | 0 <= k < |cuts| :: cuts[k].lo < j < cuts[k].hi
  }

  /** `b` is the slice `sp` of `tiles`: at least two tiles, consecutive, and
      not extendable on either side. */
  ghost predicate BlockAt(tiles: seq<Tile>, b: seq<Tile>, sp: Span)
  {
    && sp.lo + 2 <= sp.hi <= |tiles|
    && b == tiles[sp.lo..sp.hi]
    && Consecutive(b)
    && (sp.lo == 0 || !Follows(tiles[sp.lo - 1], tiles[sp.lo]))
    && (sp.hi == |tiles| || !Follows(tiles[sp.hi - 1], tiles[sp.hi]))
  }

  /** `blocks` are maximal consecutive slices of `tiles` ending by `bound`, in
      input order and disjoint, and every consecutive pair before `bound` lies
      inside one of them. */
  ghost predicate BlocksUpTo(tiles: seq<Tile>, blocks: seq<seq<Tile>>, cuts: seq<Span>, bound: nat)
  {
    && bound <= |tiles|
    && |cuts| == |blocks|
    && (forall k | 0 <= k < |cuts| :: BlockAt(tiles, blocks[k], cuts[k]) && cuts[k].hi <= bound)
    && (forall k | 0 < k < |cuts| :: cuts[k - 1].hi <= cuts[k].lo)
    && (forall j | 0 < j < bound && Follows(tiles[j - 1], tiles[j]) :: Covered(cuts, j))
  }

  /** The maximal consecutive stretches of length two or more, in order. */
  ghost predicate MaximalBlocks(tiles: seq<Tile>, blocks: seq<seq<Tile>>)
  {
    exists cuts :: BlocksUpTo(tiles, blocks, cuts, |tiles|)
  }

  /** Split a hand (sorted by number in the source's only caller) into its
      maximal stretches of consecutive numbers, keeping those of two or more
      tiles. Jokers have no number; the source is only ever given numbered tiles. */
  method FindSequences(tiles: seq<Tile>) returns (sequences: seq<seq<Tile>>)
    requires forall k | 0 <= k < |tiles| :: tiles[k].Numbered?
    ensures tiles == [] ==> sequences == []
    ensures forall k | 0 <= k < |sequences| :: |sequences[k]| >= 2 && Consecutive(sequences[k])
    ensures forall k, t | 0 <= k < |sequences| && t in sequences[k] :: t in tiles
    ensures MaximalBlocks(tiles, sequences)
  {
    if tiles == [] {
      ghost var cuts: seq<Span> := [];
      assert BlocksUpTo(tiles, [], cuts, 0);
      return [];
    }
    sequences := [];
    ghost var cuts: seq<Span> := [];
    ghost var start := 0;
    var current := [tiles[0]];
    var i := 1;
    while i < |tiles|
      invariant 1 <= i <= |tiles|
      invariant start < i && current == tiles[start..i]
      invariant start == 0 || !Follows(tiles[start - 1], tiles[start])
      invariant forall j | start < j < i :: Follows(tiles[j - 1], tiles[j])
      invariant BlocksUpTo(tiles, sequences, cuts, start)
      invariant |cuts| > 0 ==> cuts[|cuts| - 1].hi <= start
    {
      if tiles[i].number == tiles[i - 1].number + 1 {
        current := current + [tiles[i]];
      } else {
        CloseOrSkip(tiles, sequences, cuts, start, i);
        if |current| >= 2 {
          sequences, cuts := sequences + [current], cuts + [Span(start, i)];
        }
        current := [tiles[i]];
        start := i;
      }
      i := i + 1;
    }
    CloseOrSkip(tiles, sequences, cuts, start, |tiles|);
    if |current| >= 2 {
      sequences, cuts := sequences + [current], cuts + [Span(start, |tiles|)];
    }
    BlocksOfHand(tiles, sequences, cuts);
  }

  /** Blocks covering the whole hand are consecutive stretches of hand tiles. */
  lemma BlocksOfHand(tiles: seq<Tile>, blocks: seq<seq<Tile>>, cuts: seq<Span>)
    requires BlocksUpTo(tiles, blocks, cuts, |tiles|)
    ensures forall k | 0 <= k < |blocks| :: |blocks[k]| >= 2 && Consecutive(blocks[k])
    ensures forall k, t | 0 <= k < |blocks| && t in blocks[k] :: t in tiles
    ensures MaximalBlocks(tiles, blocks)
  {
    forall k | 0 <= k < |blocks| ensures |blocks[k]| >= 2 && Consecutive(blocks[k]) {
      assert BlockAt(tiles, blocks[k], cuts[k]);
    }
    forall k, t | 0 <= k < |blocks| && t in blocks[k] ensures t in tiles {
      assert BlockAt(tiles, blocks[k], cuts[k]);
      assert blocks[k] == tiles[cuts[k].lo..cuts[k].hi];
    }
  }

  /** A stretch of consecutive tiles bounded by breaks is a block. */
  lemma StretchIsBlock(tiles: seq<Tile>, start: nat, end: nat)
    requires start + 2 <= end <= |tiles|
    requires start == 0 || !Follows(tiles[start - 1], tiles[start])
    requires end == |tiles| || !Follows(tiles[end - 1], tiles[end])
    requires forall j | start < j < end :: Follows(tiles[j - 1], tiles[j])
    ensures BlockAt(tiles, tiles[start..end], Span(start, end))
  {
    var b := tiles[start..end];
    forall j | 0 < j < |b| ensures Follows(b[j - 1], b[j]) {
      assert b[j - 1] == tiles[start + j - 1] && b[j] == tiles[start + j];
    }
  }

  /** Every consecutive pair before `end` is covered once the stretch
      `start..end` joins the spans. */
  lemma CoveredAfterClose(tiles: seq<Tile>, cuts: seq<Span>, start: nat, end: nat)
    requires start < end <= |tiles|
    requires start == 0 || !Follows(tiles[start - 1], tiles[start])
    requires forall j | 0 < j < start && Follows(tiles[j - 1], tiles[j]) :: Covered(cuts, j)
    ensures forall j | 0 < j < end && Follows(tiles[j - 1], tiles[j]) :: Covered(cuts + [Span(start, end)], j)
  {
    var cuts' := cuts + [Span(start, end)];
    forall j | 0 < j < end && Follows(tiles[j - 1], tiles[j])
      ensures Covered(cuts', j)
    {
      if j < start {
        var k :| 0 <= k < |cuts| && cuts[k].lo < j < cuts[k].hi;
        assert cuts'[k] == cuts[k];
      } else {
        assert cuts'[|cuts|].lo < j < cuts'[|cuts|].hi;
      }
    }
  }

  /** Record the finished stretch `tiles[start..end]` as the next block. */
  lemma CloseBlock(tiles: seq<Tile>, blocks: seq<seq<Tile>>, cuts: seq<Span>, start: nat, end: nat)
    requires start + 2 <= end <= |tiles|
    requires start == 0 || !Follows(tiles[start - 1], tiles[start])
    requires end == |tiles| || !Follows(tiles[end - 1], tiles[end])
    requires forall j | start < j < end :: Follows(tiles[j - 1], tiles[j])
    requires BlocksUpTo(tiles, blocks, cuts, start)
    requires |cuts| > 0 ==> cuts[|cuts| - 1].hi <= start
    ensures BlocksUpTo(tiles, blocks + [tiles[start..end]], cuts + [Span(start, end)], end)
  {
    StretchIsBlock(tiles, start, end);
    CoveredAfterClose(tiles, cuts, start, end);
    var blocks', cuts' := blocks + [tiles[start..end]], cuts + [Span(start, end)];
    forall k | 0 <= k < |cuts'| ensures BlockAt(tiles, blocks'[k], cuts'[k]) && cuts'[k].hi <= end {
      if k < |cuts| {
        assert blocks'[k] == blocks[k] && cuts'[k] == cuts[k];
      }
    }
  }

  /** At a break, the finished stretch `start..end` becomes the next block
      when it holds two tiles or more, and is skipped otherwise. */
  lemma CloseOrSkip(tiles: seq<Tile>, blocks: seq<seq<Tile>>, cuts: seq<Span>, start: nat, end: nat)
    requires start < end <= |tiles|
    requires start == 0 || !Follows(tiles[start - 1], tiles[start])
    requires end == |tiles| || !Follows(tiles[end - 1], tiles[end])
    requires forall j | start < j < end :: Follows(tiles[j - 1], tiles[j])
    requires BlocksUpTo(tiles, blocks, cuts, start)
    requires |cuts| > 0 ==> cuts[|cuts| - 1].hi <= start
    ensures end - start >= 2 ==> BlocksUpTo(tiles, blocks + [tiles[start..end]], cuts + [Span(start, end)], end)
    ensures end - start < 2 ==> BlocksUpTo(tiles, blocks, cuts, end)
  {
    if end - start >= 2 {
      CloseBlock(tiles, blocks, cuts, start, end);
    } else {
      SkipSingle(tiles, blocks, cuts, start);
    }
  }

  /** A stretch of one tile starts no block: the bound moves past it. */
  lemma SkipSingle(tiles: seq<Tile>, blocks: seq<seq<Tile>>, cuts: seq<Span>, start: nat)
    requires start < |tiles|
    requires start == 0 || !Follows(tiles[start - 1], tiles[start])
    requires BlocksUpTo(tiles, blocks, cuts, start)
    ensures BlocksUpTo(tiles, blocks, cuts, start + 1)
  {
  }

  // ---------------------------------------------------------------------
  // One combination of the whole hand (`_can_make_single_combination`)

  /** All the tiles make one valid combination. */
  function CanMakeSingleCombination(tiles: seq<Tile>): (r: bool)
    ensures r <==> IsValid(tiles)
    ensures |tiles| < 3 ==> !r
  {
    ValiditySize(tiles);
    if |tiles| < 3 then false else IsValid(tiles)
  }

  // ---------------------------------------------------------------------
  // Greedy valid triples (`_find_multi_combination_solution`)

  function Triple(s: seq<Tile>, i: nat, j: nat, k: nat): seq<Tile>
    requires i < |s| && j < |s| && k < |s|
  {
    [s[i], s[j], s[k]]
  }

  /** No three tiles of `s`, taken in their order in `s`, form a valid combination. */
  ghost predicate NoValidTriple(s: seq<Tile>)
  {
    forall i, j, k | 0 <= i < j < k < |s| :: !IsValid(Triple(s, i, j, k))
  }

  /** `a`'s triple comes before (i, j, k) in the order the nested loops try them. */
  ghost predicate TriedBefore(a: nat, b: nat, c: nat, i: nat, j: nat, k: nat)
  {
    a < i || (a == i && (b < j || (b == j && c < k)))
  }

  /** (i, j, k) is the first valid triple of `s` in the order the nested loops try them. */
  ghost predicate FirstValid(s: seq<Tile>, i: nat, j: nat, k: nat)
  {
    && i < j < k < |s| && IsValid(Triple(s, i, j, k))
    && forall a, b, c | 0 <= a < b < c < |s| && TriedBefore(a, b, c, i, j, k) :: !IsValid(Triple(s, a, b, c))
  }

  /** There is only one first valid triple. */
  lemma FirstValidUnique(s: seq<Tile>, i: nat, j: nat, k: nat, a: nat, b: nat, c: nat)
    requires FirstValid(s, i, j, k) && FirstValid(s, a, b, c)
    ensures i == a && j == b && k == c
  {
    assert !TriedBefore(a, b, c, i, j, k);
    assert !TriedBefore(i, j, k, a, b, c);
  }

  /** What the greedy search places: the first valid triple in loop order,
      then the same search over the tiles left once it is popped; nothing
      when fewer than three tiles remain or none of their triples is valid. */
  ghost function GreedyTriples(s: seq<Tile>): seq<Tile>
    decreases |s|
  {
    if |s| >= 3 && exists i, j, k :: FirstValid(s, i, j, k) then
      var i, j, k :| FirstValid(s, i, j, k);
      Triple(s, i, j, k) + GreedyTriples(Pop(Pop(Pop(s, k), j), i))
    else []
  }

  /** One step of the greedy search, at the triple the loops find. */
  lemma GreedyStep(s: seq<Tile>, i: nat, j: nat, k: nat)
    requires |s| >= 3 && FirstValid(s, i, j, k)
    ensures GreedyTriples(s) == Triple(s, i, j, k) + GreedyTriples(Pop(Pop(Pop(s, k), j), i))
  {
    var a, b, c :| FirstValid(s, a, b, c) && GreedyTriples(s) == Triple(s, a, b, c) + GreedyTriples(Pop(Pop(Pop(s, c), b), a));
    FirstValidUnique(s, i, j, k, a, b, c);
  }

  lemma AppendAssoc<T>(a: seq<T>, b: seq<T>, c: seq<T>)
    ensures (a + b) + c == a + (b + c)
  {
  }

  /** Taking the first valid triple keeps the greedy search's result ahead. */
  lemma GreedyTake(tiles: seq<Tile>, used: seq<Tile>, remaining: seq<Tile>, i: nat, j: nat, k: nat)
    requires |remaining| >= 3 && FirstValid(remaining, i, j, k)
    requires used + GreedyTriples(remaining) == GreedyTriples(tiles)
    ensures (used + Triple(remaining, i, j, k)) + GreedyTriples(Pop(Pop(Pop(remaining, k), j), i)) == GreedyTriples(tiles)
  {
    var triple, rest := Triple(remaining, i, j, k), GreedyTriples(Pop(Pop(Pop(remaining, k), j), i));
    GreedyStep(remaining, i, j, k);
    assert GreedyTriples(remaining) == triple + rest;
    AppendAssoc(used, triple, rest);
  }

  /** The search places nothing when it has no valid triple to start from. */
  lemma GreedyNone(s: seq<Tile>)
    requires |s| < 3 || NoValidTriple(s)
    ensures GreedyTriples(s) == []
  {
    if |s| >= 3 {
      forall i: nat, j: nat, k: nat ensures !FirstValid(s, i, j, k) {
        if i < j < k < |s| {
          assert !IsValid(Triple(s, i, j, k));
        }
      }
    }
  }

  /** The first valid triple in loop order, if any. */
  method FindValidTriple(s: seq<Tile>) returns (found: bool, i: nat, j: nat, k: nat)
    ensures found ==> i < j < k < |s| && IsValid(Triple(s, i, j, k))
    ensures found ==> forall a, b, c | 0 <= a < b < c < |s| && TriedBefore(a, b, c, i, j, k) :: !IsValid(Triple(s, a, b, c))
    ensures !found ==> NoValidTriple(s)
  {
    i := 0;
    while i < |s|
      invariant i <= |s|
      invariant forall a, b, c | 0 <= a < b < c < |s| && a < i :: !IsValid(Triple(s, a, b, c))
    {
      j := i + 1;
      while j < |s|
        invariant i + 1 <= j <= |s|
        invariant forall a, b, c | 0 <= a < b < c < |s| && (a < i || (a == i && b < j)) :: !IsValid(Triple(s, a, b, c))
      {
        k := j + 1;
        while k < |s|
          invariant j + 1 <= k <= |s|
          invariant forall a, b, c | 0 <= a < b < c < |s| && TriedBefore(a, b, c, i, j, k) :: !IsValid(Triple(s, a, b, c))
        {
          if IsValid(Triple(s, i, j, k)) {
            return true, i, j, k;
          }
          k := k + 1;
        }
        j := j + 1;
      }
      i := i + 1;
    }
    return false, 0, 0, 0;
  }

  /** `list.pop(idx)`. */
  function Pop(s: seq<Tile>, idx: nat): (r: seq<Tile>)
    requires idx < |s|
    ensures |r| == |s| - 1 && multiset(r) == multiset(s) - multiset{s[idx]}
    ensures forall m | 0 <= m < idx :: r[m] == s[m]
  {
    assert s == s[..idx] + [s[idx]] + s[idx + 1..];
    s[..idx] + s[idx + 1..]
  }

  /** The tiles of `used`, cut into consecutive triples, are valid combinations. */
  ghost predicate ValidTriples(used: seq<Tile>)
  {
    |used| % 3 == 0 && forall t | 0 <= t < |used| / 3 :: IsValid(used[3 * t..3 * t + 3])
  }

  lemma AppendTriple(used: seq<Tile>, triple: seq<Tile>)
    requires ValidTriples(used) && |triple| == 3 && IsValid(triple)
    ensures ValidTriples(used + triple)
  {
    var u := used + triple;
    forall t | 0 <= t < |u| / 3 ensures IsValid(u[3 * t..3 * t + 3]) {
      if t < |used| / 3 {
        assert u[3 * t..3 * t + 3] == used[3 * t..3 * t + 3];
      } else {
        assert u[3 * t..3 * t + 3] == triple;
      }
    }
  }

  /** Popping k, then j, then i (i < j < k) removes exactly the triple. */
  lemma PopTriple(r: seq<Tile>, i: nat, j: nat, k: nat)
    requires i < j < k < |r|
    ensures multiset(Pop(Pop(Pop(r, k), j), i)) + multiset(Triple(r, i, j, k)) == multiset(r)
  {
    var r1 := Pop(r, k);
    var r2 := Pop(r1, j);
    PopRestores(r, k);
    PopRestores(r1, j);
    PopRestores(r2, i);
    assert r1[j] == r[j] && r2[i] == r[i];
    assert multiset(Triple(r, i, j, k)) == multiset{r[i]} + multiset{r[j]} + multiset{r[k]};
  }

  lemma PopRestores(s: seq<Tile>, idx: nat)
    requires idx < |s|
    ensures multiset(Pop(s, idx)) + multiset{s[idx]} == multiset(s)
  {
    assert s[idx] in multiset(s);
  }

  /** Moving a valid triple from the remaining tiles to the used ones keeps
      the used tiles cut into valid triples and loses no tile. */
  lemma TakeTriple(tiles: seq<Tile>, used: seq<Tile>, remaining: seq<Tile>, i: nat, j: nat, k: nat)
    requires ValidTriples(used) && multiset(remaining) + multiset(used) == multiset(tiles)
    requires i < j < k < |remaining| && IsValid(Triple(remaining, i, j, k))
    ensures ValidTriples(used + Triple(remaining, i, j, k))
    ensures multiset(Pop(Pop(Pop(remaining, k), j), i)) + multiset(used + Triple(remaining, i, j, k))
         == multiset(tiles)
  {
    var triple := Triple(remaining, i, j, k);
    AppendTriple(used, triple);
    PopTriple(remaining, i, j, k);
    assert multiset(used + triple) == multiset(used) + multiset(triple);
  }

  /** Repeatedly take the first valid triple of the remaining tiles until
      fewer than three remain or none is valid. The tiles returned come from
      the hand, each at most as often as it is there, cut into valid triples;
      the tiles left over hold no valid triple or are fewer than three. */
  method FindMultiCombinationSolution(tiles: seq<Tile>) returns (used: seq<Tile>)
    ensures used == GreedyTriples(tiles)
    ensures ValidTriples(used)
    ensures multiset(used) <= multiset(tiles)
    ensures exists rest :: multiset(rest) + multiset(used) == multiset(tiles)
                           && (|rest| < 3 || NoValidTriple(rest))
  {
    used := [];
    var remaining := tiles;
    var searching := true;
    while |remaining| >= 3 && searching
      invariant ValidTriples(used)
      invariant multiset(remaining) + multiset(used) == multiset(tiles)
      invariant !searching ==> NoValidTriple(remaining)
      invariant used + GreedyTriples(remaining) == GreedyTriples(tiles)
      decreases |remaining|, searching
    {
      var found, i, j, k := FindValidTriple(remaining);
      if found {
        GreedyTake(tiles, used, remaining, i, j, k);
        TakeTriple(tiles, used, remaining, i, j, k);
        used := used + Triple(remaining, i, j, k);
        remaining := Pop(Pop(Pop(remaining, k), j), i);
      } else {
        searching := false;
      }
    }
    assert multiset(remaining) + multiset(used) == multiset(tiles);
    GreedyNone(remaining);
  }
}
