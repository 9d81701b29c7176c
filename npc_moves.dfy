/** How the computer player of the integration test chooses a move
    (`NPCPlayer.analyze_tiles` and `suggest_best_move`). */
module NpcMoves {
  import opened Tiles
  import opened Combinations
  import opened Npc
  import TilePool
  import Rules

  // ---------------------------------------------------------------------
  // The hand split by number, by color, and its jokers

  /** The numbered tiles of number `n`, in hand order. */
  function OfNumber(s: seq<Tile>, n: int): (r: seq<Tile>)
    ensures forall t | t in r :: t in s && t.Numbered? && t.number == n
    ensures forall t | t in s && t.Numbered? && t.number == n :: t in r
  {
    if s == [] then []
    else OfNumber(s[..|s| - 1], n) + (if s[|s| - 1].Numbered? && s[|s| - 1].number == n then [s[|s| - 1]] else [])
  }

  /** The numbered tiles of color `c`, in hand order. */
  function OfColor(s: seq<Tile>, c: Color): (r: seq<Tile>)
    ensures forall t | t in r :: t in s && t.Numbered? && t.color == c
    ensures forall t | t in s && t.Numbered? && t.color == c :: t in r
  {
    if s == [] then []
    else OfColor(s[..|s| - 1], c) + (if s[|s| - 1].Numbered? && s[|s| - 1].color == c then [s[|s| - 1]] else [])
  }

  /** The jokers, in hand order. */
  function JokersOf(s: seq<Tile>): (r: seq<Tile>)
    ensures forall t | t in r :: t in s && t.Joker?
  {
    if s == [] then [] else JokersOf(s[..|s| - 1]) + (if s[|s| - 1].Joker? then [s[|s| - 1]] else [])
  }

  // ---------------------------------------------------------------------
  // `list.sort(key=lambda t: t.number)`

  function NumberOf(t: Tile): int
  {
    if t.Numbered? then t.number else 0
  }

  ghost predicate SortedByNumber(s: seq<Tile>)
  {
    forall i, j | 0 <= i < j < |s| :: NumberOf(s[i]) <= NumberOf(s[j])
  }

  /** Insert `t` after every tile whose number is not larger (so equal numbers
      keep their order). */
  function InsertByNumber(s: seq<Tile>, t: Tile): (r: seq<Tile>)
    ensures multiset(r) == multiset(s) + multiset{t} && |r| == |s| + 1
  {
    if s == [] then [t]
    else if NumberOf(t) < NumberOf(s[|s| - 1]) then
      assert s == s[..|s| - 1] + [s[|s| - 1]];
      InsertByNumber(s[..|s| - 1], t) + [s[|s| - 1]]
    else s + [t]
  }

  lemma {:induction false} InsertKeepsSorted(s: seq<Tile>, t: Tile)
    requires SortedByNumber(s)
    ensures SortedByNumber(InsertByNumber(s, t))
    decreases |s|
  {
    if s != [] && NumberOf(t) < NumberOf(s[|s| - 1]) {
      var last := s[|s| - 1];
      var s' := s[..|s| - 1];
      var r' := InsertByNumber(s', t);
      InsertKeepsSorted(s', t);
      assert forall k | 0 <= k < |s'| :: NumberOf(s'[k]) <= NumberOf(last) by {
        forall k | 0 <= k < |s'| ensures NumberOf(s'[k]) <= NumberOf(last) {
          assert s'[k] == s[k];
        }
      }
      forall x | x in r' ensures NumberOf(x) <= NumberOf(last) {
        assert x in multiset(r');
      }
      SortedSnoc(r', last);
    }
  }

  lemma SortedSnoc(s: seq<Tile>, x: Tile)
    requires SortedByNumber(s) && forall y | y in s :: NumberOf(y) <= NumberOf(x)
    ensures SortedByNumber(s + [x])
  {
    forall i, j | 0 <= i < j < |s| + 1 ensures NumberOf((s + [x])[i]) <= NumberOf((s + [x])[j]) {
      assert (s + [x])[i] == s[i];
      if j < |s| {
        assert (s + [x])[j] == s[j];
      } else {
        assert s[i] in s;
      }
    }
  }

  /** A stable sort of the hand by number. */
  function SortByNumber(s: seq<Tile>): (r: seq<Tile>)
    ensures SortedByNumber(r) && multiset(r) == multiset(s) && |r| == |s|
  {
    if s == [] then []
    else
      assert s == s[..|s| - 1] + [s[|s| - 1]];
      InsertKeepsSorted(SortByNumber(s[..|s| - 1]), s[|s| - 1]);
      InsertByNumber(SortByNumber(s[..|s| - 1]), s[|s| - 1])
  }

  lemma InsertAfterLast(s: seq<Tile>, t: Tile)
    requires s == [] || NumberOf(s[|s| - 1]) <= NumberOf(t)
    ensures InsertByNumber(s, t) == s + [t]
  {
  }

  lemma SortSnoc(s: seq<Tile>, t: Tile)
    ensures SortByNumber(s + [t]) == InsertByNumber(SortByNumber(s), t)
  {
    assert (s + [t])[..|s|] == s;
  }

  /** Sorting a hand already sorted by number leaves it as it is. */
  lemma {:induction false} SortSortedUnchanged(s: seq<Tile>)
    requires SortedByNumber(s)
    ensures SortByNumber(s) == s
    decreases |s|
  {
    if s != [] {
      var s', last := s[..|s| - 1], s[|s| - 1];
      assert s == s' + [last];
      assert SortedByNumber(s') by {
        forall i, j | 0 <= i < j < |s'| ensures NumberOf(s'[i]) <= NumberOf(s'[j]) {
          assert s'[i] == s[i] && s'[j] == s[j];
        }
      }
      SortSortedUnchanged(s');
      if s' != [] {
        assert s'[|s'| - 1] == s[|s| - 2];
      }
      InsertAfterLast(s', last);
      SortSnoc(s', last);
    }
  }

  // ---------------------------------------------------------------------
  // The analysis of a hand (`analyze_tiles`)

  datatype Potential =
    | PotentialGroup(number: int, tiles: seq<Tile>, canUseJokers: bool)
    | PotentialRun(color: Color, tiles: seq<Tile>, canUseJokers: bool)

  /** The runs listed for color `c`, in order. */
  function RunsOf(ps: seq<Potential>, c: Color): seq<seq<Tile>>
  {
    if ps == [] then []
    else
      var p := ps[|ps| - 1];
      RunsOf(ps[..|ps| - 1], c) + (if p.PotentialRun? && p.color == c then [p.tiles] else [])
  }

  lemma RunsOfAppend(ps: seq<Potential>, p: Potential, c: Color)
    ensures RunsOf(ps + [p], c) == RunsOf(ps, c) + (if p.PotentialRun? && p.color == c then [p.tiles] else [])
  {
    assert (ps + [p])[..|ps|] == ps;
  }

  lemma NoBlocksOfNothing()
    ensures MaximalBlocks([], [])
  {
    var cuts: seq<Span> := [];
    assert BlocksUpTo([], [], cuts, 0);
  }

  ghost predicate ColorsOnce(cs: seq<Color>)
  {
    forall a, b | 0 <= a < b < |cs| :: cs[a] != cs[b]
  }

  /** `m` maps every number of the hand `p` to its tiles; `order` lists the keys. */
  ghost predicate ByNumber(p: seq<Tile>, m: map<int, seq<Tile>>, order: seq<int>)
  {
    && (forall n | n in m :: m[n] == OfNumber(p, n))
    && (forall n | n !in m :: OfNumber(p, n) == [])
    && (forall n :: n in order <==> n in m)
  }

  /** `m` maps every color of the hand `p` to its tiles; `order` lists each key once. */
  ghost predicate ByColor(p: seq<Tile>, m: map<Color, seq<Tile>>, order: seq<Color>)
  {
    && (forall c | c in m :: m[c] == OfColor(p, c))
    && (forall c | c !in m :: OfColor(p, c) == [])
    && (forall c :: c in order <==> c in m)
    && ColorsOnce(order)
  }


  lemma TakeOneMore<T>(s: seq<T>, i: nat)
    requires i < |s|
    ensures s[..i + 1] == s[..i] + [s[i]]
  {
  }

  lemma OfNumberSnoc(p: seq<Tile>, t: Tile, n: int)
    ensures OfNumber(p + [t], n) == OfNumber(p, n) + (if t.Numbered? && t.number == n then [t] else [])
  {
    assert (p + [t])[..|p|] == p;
  }

  lemma OfColorSnoc(p: seq<Tile>, t: Tile, c: Color)
    ensures OfColor(p + [t], c) == OfColor(p, c) + (if t.Numbered? && t.color == c then [t] else [])
  {
    assert (p + [t])[..|p|] == p;
  }

  lemma JokersOfSnoc(p: seq<Tile>, t: Tile)
    ensures JokersOf(p + [t]) == JokersOf(p) + (if t.Joker? then [t] else [])
  {
    assert (p + [t])[..|p|] == p;
  }

  /** Adding one tile to the hand updates the index by number as the loop does. */
  lemma ByNumberStep(p: seq<Tile>, t: Tile, m: map<int, seq<Tile>>, order: seq<int>,
                     m': map<int, seq<Tile>>, order': seq<int>)
    requires ByNumber(p, m, order)
    requires t.Joker? ==> m' == m && order' == order
    requires t.Numbered? ==> && m' == m[t.number := (if t.number in m then m[t.number] else []) + [t]]
                             && order' == if t.number in m then order else order + [t.number]
    ensures ByNumber(p + [t], m', order')
    ensures order == FirstNumbers(p) ==> order' == FirstNumbers(p + [t])
  {
    FirstSnoc(p, t);
    forall n | n in m' ensures m'[n] == OfNumber(p + [t], n) { OfNumberSnoc(p, t, n); }
    forall n | n !in m' ensures OfNumber(p + [t], n) == [] { OfNumberSnoc(p, t, n); }
  }

  /** Adding one tile to the hand updates the index by color as the loop does. */
  lemma ByColorStep(p: seq<Tile>, t: Tile, m: map<Color, seq<Tile>>, order: seq<Color>,
                    m': map<Color, seq<Tile>>, order': seq<Color>)
    requires ByColor(p, m, order)
    requires t.Joker? ==> m' == m && order' == order
    requires t.Numbered? ==> && m' == m[t.color := (if t.color in m then m[t.color] else []) + [t]]
                             && order' == if t.color in m then order else order + [t.color]
    ensures ByColor(p + [t], m', order')
    ensures order == FirstColors(p) ==> order' == FirstColors(p + [t])
  {
    FirstSnoc(p, t);
    forall c | c in m' ensures m'[c] == OfColor(p + [t], c) { OfColorSnoc(p, t, c); }
    forall c | c !in m' ensures OfColor(p + [t], c) == [] { OfColorSnoc(p, t, c); }
    assert ColorsOnce(order') by {
      if t.Numbered? && t.color !in m {
        assert t.color !in order;
        assert forall a | 0 <= a < |order| :: order'[a] == order[a];
      }
    }
  }


  /** The numbers of the hand, each once, in order of first appearance. */
  function FirstNumbers(p: seq<Tile>): seq<int>
    decreases |p|
  {
    if p == [] then []
    else
      var q := FirstNumbers(p[..|p| - 1]);
      var t := p[|p| - 1];
      if t.Numbered? && t.number !in q then q + [t.number] else q
  }

  /** The colors of the hand, each once, in order of first appearance. */
  function FirstColors(p: seq<Tile>): seq<Color>
    decreases |p|
  {
    if p == [] then []
    else
      var q := FirstColors(p[..|p| - 1]);
      var t := p[|p| - 1];
      if t.Numbered? && t.color !in q then q + [t.color] else q
  }

  lemma FirstSnoc(p: seq<Tile>, t: Tile)
    ensures FirstNumbers(p + [t]) == if t.Numbered? && t.number !in FirstNumbers(p) then FirstNumbers(p) + [t.number] else FirstNumbers(p)
    ensures FirstColors(p + [t]) == if t.Numbered? && t.color !in FirstColors(p) then FirstColors(p) + [t.color] else FirstColors(p)
  {
    assert (p + [t])[..|p|] == p;
  }

  /** One pass over the hand: jokers apart, the numbered tiles grouped by
      number and by color, each in order of first appearance. */
  method SplitHand(tiles: seq<Tile>)
    returns (jokers: seq<Tile>, byNumber: map<int, seq<Tile>>, numberOrder: seq<int>,
             byColor: map<Color, seq<Tile>>, colorOrder: seq<Color>)
    ensures jokers == JokersOf(tiles)
    ensures ByNumber(tiles, byNumber, numberOrder)
    ensures ByColor(tiles, byColor, colorOrder)
    ensures numberOrder == FirstNumbers(tiles) && colorOrder == FirstColors(tiles)
  {
    jokers, byNumber, numberOrder, byColor, colorOrder := [], map[], [], map[], [];
    for i := 0 to |tiles|
      invariant jokers == JokersOf(tiles[..i])
      invariant ByNumber(tiles[..i], byNumber, numberOrder)
      invariant ByColor(tiles[..i], byColor, colorOrder)
      invariant numberOrder == FirstNumbers(tiles[..i]) && colorOrder == FirstColors(tiles[..i])
    {
      var t := tiles[i];
      TakeOneMore(tiles, i);
      JokersOfSnoc(tiles[..i], t);
      ghost var byNumber0, numberOrder0, byColor0, colorOrder0 := byNumber, numberOrder, byColor, colorOrder;
      if t.Joker? {
        jokers := jokers + [t];
      } else {
        var numberTiles := if t.number in byNumber then byNumber[t.number] else [];
        if t.number !in byNumber {
          numberOrder := numberOrder + [t.number];
        }
        byNumber := byNumber[t.number := numberTiles + [t]];
        var colorTiles := if t.color in byColor then byColor[t.color] else [];
        if t.color !in byColor {
          colorOrder := colorOrder + [t.color];
        }
        byColor := byColor[t.color := colorTiles + [t]];
      }
      ByNumberStep(tiles[..i], t, byNumber0, numberOrder0, byNumber, numberOrder);
      ByColorStep(tiles[..i], t, byColor0, colorOrder0, byColor, colorOrder);
    }
    assert tiles[..|tiles|] == tiles;
  }

  ghost predicate GroupOk(tiles: seq<Tile>, jokers: seq<Tile>, p: Potential)
  {
    p.PotentialGroup? && |p.tiles| >= 2 && p.tiles == OfNumber(tiles, p.number)
    && p.canUseJokers == (|p.tiles| + |jokers| >= 3)
  }

  ghost predicate RunOk(tiles: seq<Tile>, jokers: seq<Tile>, p: Potential)
  {
    p.PotentialRun? && |p.tiles| >= 2 && p.canUseJokers == (|p.tiles| + |jokers| >= 3)
    && Consecutive(p.tiles) && forall t | t in p.tiles :: t in tiles && t.Numbered? && t.color == p.color
  }

  ghost predicate HasGroupFor(groups: seq<Potential>, n: int)
  {
    exists j | 0 <= j < |groups| :: groups[j].PotentialGroup? && groups[j].number == n
  }

  lemma HasGroupAppend(groups: seq<Potential>, x: Potential, n: int)
    requires HasGroupFor(groups, n)
    ensures HasGroupFor(groups + [x], n)
  {
    var j :| 0 <= j < |groups| && groups[j].PotentialGroup? && groups[j].number == n;
    assert (groups + [x])[j] == groups[j];
  }

  /** The numbers of `ns` that the hand holds at least twice, in the order of `ns`. */
  ghost function HeldTwice(tiles: seq<Tile>, ns: seq<int>): seq<int>
    decreases |ns|
  {
    if ns == [] then []
    else
      var n := ns[|ns| - 1];
      HeldTwice(tiles, ns[..|ns| - 1]) + (if |OfNumber(tiles, n)| >= 2 then [n] else [])
  }

  /** The numbers of the potential groups in `ps`, in order. */
  ghost function NumbersOf(ps: seq<Potential>): seq<int>
    decreases |ps|
  {
    if ps == [] then []
    else
      var p := ps[|ps| - 1];
      NumbersOf(ps[..|ps| - 1]) + (if p.PotentialGroup? then [p.number] else [])
  }

  lemma HeldTwiceStep(tiles: seq<Tile>, ns: seq<int>, k: nat)
    requires k < |ns|
    ensures HeldTwice(tiles, ns[..k + 1]) == HeldTwice(tiles, ns[..k]) + (if |OfNumber(tiles, ns[k])| >= 2 then [ns[k]] else [])
  {
    assert ns[..k + 1][..k] == ns[..k];
  }

  lemma {:induction false} HeldTwiceMembers(tiles: seq<Tile>, ns: seq<int>)
    ensures forall n | n in ns && |OfNumber(tiles, n)| >= 2 :: n in HeldTwice(tiles, ns)
    decreases |ns|
  {
    if ns != [] {
      HeldTwiceMembers(tiles, ns[..|ns| - 1]);
      assert ns == ns[..|ns| - 1] + [ns[|ns| - 1]];
    }
  }

  lemma {:induction false} NumbersOfMembers(ps: seq<Potential>)
    ensures forall n | n in NumbersOf(ps) :: HasGroupFor(ps, n)
    decreases |ps|
  {
    if ps != [] {
      var ps' := ps[..|ps| - 1];
      NumbersOfMembers(ps');
      forall n | n in NumbersOf(ps) ensures HasGroupFor(ps, n) {
        if n in NumbersOf(ps') {
          var j :| 0 <= j < |ps'| && ps'[j].PotentialGroup? && ps'[j].number == n;
          assert ps[j] == ps'[j];
        } else {
          assert ps[|ps| - 1].PotentialGroup? && ps[|ps| - 1].number == n;
        }
      }
    }
  }

  lemma NumbersOfSnoc(ps: seq<Potential>, p: Potential)
    ensures NumbersOf(ps + [p]) == NumbersOf(ps) + (if p.PotentialGroup? then [p.number] else [])
  {
    assert (ps + [p])[..|ps|] == ps;
  }

  /** The group branch of `analyze_tiles`: every number held at least twice,
      in order of first appearance. */
  method GroupPotentials(tiles: seq<Tile>, jokers: seq<Tile>, byNumber: map<int, seq<Tile>>, numberOrder: seq<int>)
    returns (groups: seq<Potential>)
    requires ByNumber(tiles, byNumber, numberOrder)
    ensures forall p | p in groups :: GroupOk(tiles, jokers, p)
    ensures forall n | n in numberOrder && |OfNumber(tiles, n)| >= 2 :: HasGroupFor(groups, n)
    ensures NumbersOf(groups) == HeldTwice(tiles, numberOrder)
  {
    groups := [];
    for k := 0 to |numberOrder|
      invariant forall p | p in groups :: GroupOk(tiles, jokers, p)
      invariant NumbersOf(groups) == HeldTwice(tiles, numberOrder[..k])
    {
      var n := numberOrder[k];
      HeldTwiceStep(tiles, numberOrder, k);
      assert n in numberOrder;
      var numberTiles := byNumber[n];
      if |numberTiles| >= 2 {
        var p := PotentialGroup(n, numberTiles, |numberTiles| + |jokers| >= 3);
        NumbersOfSnoc(groups, p);
        groups := groups + [p];
      }
    }
    assert numberOrder[..|numberOrder|] == numberOrder;
    HeldTwiceMembers(tiles, numberOrder);
    NumbersOfMembers(groups);
  }

  lemma {:induction false} RunsOfConcat(a: seq<Potential>, b: seq<Potential>, c: Color)
    ensures RunsOf(a + b, c) == RunsOf(a, c) + RunsOf(b, c)
    decreases |b|
  {
    if b == [] {
      assert a + b == a;
    } else {
      var b' := b[..|b| - 1];
      assert (a + b)[..|a + b| - 1] == a + b';
      RunsOfConcat(a, b', c);
    }
  }

  /** One run per stretch of two or more tiles. */
  method RunsFromSequences(tiles: seq<Tile>, jokers: seq<Tile>, c: Color, sequences: seq<seq<Tile>>)
    returns (runs: seq<Potential>)
    requires forall k | 0 <= k < |sequences| :: |sequences[k]| >= 2 && Consecutive(sequences[k])
    requires forall k, t | 0 <= k < |sequences| && t in sequences[k] :: t in tiles && t.Numbered? && t.color == c
    ensures forall p | p in runs :: RunOk(tiles, jokers, p)
    ensures RunsOf(runs, c) == sequences
    ensures forall c' | c' != c :: RunsOf(runs, c') == []
  {
    runs := [];
    for m := 0 to |sequences|
      invariant forall p | p in runs :: RunOk(tiles, jokers, p)
      invariant RunsOf(runs, c) == sequences[..m]
      invariant forall c' | c' != c :: RunsOf(runs, c') == []
    {
      var s := sequences[m];
      TakeOneMore(sequences, m);
      if |s| >= 2 {
        var p := PotentialRun(c, s, |s| + |jokers| >= 3);
        RunsOfAppend(runs, p, c);
        forall c' | c' != c ensures RunsOf(runs + [p], c') == [] {
          RunsOfAppend(runs, p, c');
        }
        runs := runs + [p];
      }
    }
    assert sequences[..|sequences|] == sequences;
  }

  /** The runs of one color: its tiles sorted by number, cut into maximal
      consecutive stretches. */
  method RunsForColor(tiles: seq<Tile>, jokers: seq<Tile>, c: Color, colorTiles: seq<Tile>)
    returns (runs: seq<Potential>)
    requires colorTiles == OfColor(tiles, c)
    ensures forall p | p in runs :: RunOk(tiles, jokers, p)
    ensures MaximalBlocks(SortByNumber(OfColor(tiles, c)), RunsOf(runs, c))
    ensures forall c' | c' != c :: RunsOf(runs, c') == []
  {
    var sorted := SortByNumber(colorTiles);
    assert forall t | t in sorted :: t in colorTiles by {
      forall t | t in sorted ensures t in colorTiles { assert t in multiset(sorted); }
    }
    var sequences := FindSequences(sorted);
    runs := RunsFromSequences(tiles, jokers, c, sequences);
  }

  /** The run branch of `analyze_tiles`, color by color in order of first appearance. */
  method RunPotentials(tiles: seq<Tile>, jokers: seq<Tile>, byColor: map<Color, seq<Tile>>, colorOrder: seq<Color>)
    returns (runs: seq<Potential>)
    requires ByColor(tiles, byColor, colorOrder)
    ensures forall p | p in runs :: RunOk(tiles, jokers, p)
    ensures forall c :: MaximalBlocks(SortByNumber(OfColor(tiles, c)), RunsOf(runs, c))
  {
    runs := [];
    for k := 0 to |colorOrder|
      invariant forall p | p in runs :: RunOk(tiles, jokers, p)
      invariant forall c | c in colorOrder[..k] :: MaximalBlocks(SortByNumber(OfColor(tiles, c)), RunsOf(runs, c))
      invariant forall c | c !in colorOrder[..k] :: RunsOf(runs, c) == []
    {
      var c := colorOrder[k];
      TakeOneMore(colorOrder, k);
      assert c !in colorOrder[..k];
      var more := RunsForColor(tiles, jokers, c, byColor[c]);
      forall c' | c' in colorOrder[..k + 1]
        ensures MaximalBlocks(SortByNumber(OfColor(tiles, c')), RunsOf(runs + more, c'))
      {
        RunsOfConcat(runs, more, c');
        if c' == c {
          assert RunsOf(runs + more, c') == RunsOf(more, c');
        } else {
          assert RunsOf(runs + more, c') == RunsOf(runs, c');
        }
      }
      forall c' | c' !in colorOrder[..k + 1] ensures RunsOf(runs + more, c') == [] {
        RunsOfConcat(runs, more, c');
      }
      runs := runs + more;
    }
    assert colorOrder[..|colorOrder|] == colorOrder;
    forall c | c !in colorOrder ensures MaximalBlocks(SortByNumber(OfColor(tiles, c)), RunsOf(runs, c)) {
      NoBlocksOfNothing();
    }
  }

  /** `analyze_tiles`: a group for every number held at least twice, then,
      color by color, a run for every maximal stretch (two or more tiles) of
      consecutive numbers in the color's tiles sorted by number. */
  method AnalyzeTiles(tiles: seq<Tile>) returns (potential: seq<Potential>, jokers: seq<Tile>)
    ensures jokers == JokersOf(tiles)
    ensures forall p | p in potential :: GroupOk(tiles, jokers, p) || RunOk(tiles, jokers, p)
    ensures forall t | t in tiles && t.Numbered? && |OfNumber(tiles, t.number)| >= 2 ::
      HasGroupFor(potential, t.number)
    ensures forall c :: MaximalBlocks(SortByNumber(OfColor(tiles, c)), RunsOf(potential, c))
  {
    var byNumber, numberOrder, byColor, colorOrder;
    jokers, byNumber, numberOrder, byColor, colorOrder := SplitHand(tiles);
    var groups := GroupPotentials(tiles, jokers, byNumber, numberOrder);
    var runs := RunPotentials(tiles, jokers, byColor, colorOrder);
    potential := groups + runs;
    forall t | t in tiles && t.Numbered? && |OfNumber(tiles, t.number)| >= 2
      ensures HasGroupFor(potential, t.number)
    {
      var j :| 0 <= j < |groups| && groups[j].PotentialGroup? && groups[j].number == t.number;
      assert potential[j] == groups[j];
    }
    forall c ensures MaximalBlocks(SortByNumber(OfColor(tiles, c)), RunsOf(potential, c)) {
      RunsOfGroups(groups, runs, c);
    }
  }

  /** Groups add nothing to the runs of a color. */
  lemma {:induction false} RunsOfGroups(groups: seq<Potential>, runs: seq<Potential>, c: Color)
    requires forall p | p in groups :: p.PotentialGroup?
    ensures RunsOf(groups + runs, c) == RunsOf(runs, c)
    decreases |runs|
  {
    if runs == [] {
      assert groups + runs == groups;
      GroupsHaveNoRuns(groups, c);
    } else {
      var r' := runs[..|runs| - 1];
      assert (groups + runs)[..|groups + runs| - 1] == groups + r';
      RunsOfGroups(groups, r', c);
    }
  }

  lemma {:induction false} GroupsHaveNoRuns(groups: seq<Potential>, c: Color)
    requires forall p | p in groups :: p.PotentialGroup?
    ensures RunsOf(groups, c) == []
    decreases |groups|
  {
    if groups != [] {
      assert groups[|groups| - 1] in groups;
      GroupsHaveNoRuns(groups[..|groups| - 1], c);
    }
  }

  // ---------------------------------------------------------------------
  // Building candidates (`suggest_best_move`)

  predicate Fits(t: Tile, n: int, c: Color)
  {
    t.Numbered? && t.number == n && t.color == c
  }

  /** The first tile of `hand` that is not in `avoid` and has number `n` and
      color `c`. */
  method FindTileFor(hand: seq<Tile>, avoid: seq<Tile>, n: int, c: Color) returns (found: Option<Tile>)
    ensures found.Some? ==>
              exists k | 0 <= k < |hand| ::
                && hand[k] == found.value && hand[k] !in avoid && Fits(hand[k], n, c)
                && forall m | 0 <= m < k :: hand[m] in avoid || !Fits(hand[m], n, c)
    ensures found.None? ==> forall t | t in hand && t !in avoid :: !Fits(t, n, c)
  {
    for k := 0 to |hand|
      invariant forall m | 0 <= m < k :: hand[m] in avoid || !Fits(hand[m], n, c)
    {
      if hand[k] !in avoid && Fits(hand[k], n, c) {
        return Some(hand[k]);
      }
    }
    return None;
  }

  /** The colors of the numbered tiles of `s`. */
  function ColorsIn(s: seq<Tile>): set<Color>
  {
    set t | t in s && t.Numbered? :: t.color
  }

  ghost predicate HasColor(s: seq<Tile>, c: Color)
  {
    exists a | 0 <= a < |s| :: s[a].Numbered? && s[a].color == c
  }

  lemma HasColorAppend(s: seq<Tile>, x: Tile, c: Color)
    requires HasColor(s, c)
    ensures HasColor(s + [x], c)
  {
    var a :| 0 <= a < |s| && s[a].Numbered? && s[a].color == c;
    assert (s + [x])[a] == s[a];
  }

  /** What the group extension has built after looking at the first `ci`
      colors: `combo` followed by hand tiles of number `n` outside `combo`, in
      increasing color order, one for each color below `ci` that `combo`
      lacks and the hand can supply. */
  ghost predicate Extending(hand: seq<Tile>, combo: seq<Tile>, n: int, ext: seq<Tile>, ci: nat)
  {
    && |ext| >= |combo| && ext[..|combo|] == combo
    && (forall a | |combo| <= a < |ext| ::
          && ext[a] in hand && ext[a] !in combo
          && ext[a].Numbered? && ext[a].number == n && ext[a].color !in ColorsIn(combo)
          && TilePool.ColorIndex(ext[a].color) < ci)
    && (forall a, b | |combo| <= a < b < |ext| ::
          TilePool.ColorIndex(ext[a].color) < TilePool.ColorIndex(ext[b].color))
    && (forall t | t in hand && t !in combo && t.Numbered? && t.number == n && t.color !in ColorsIn(combo)
                   && TilePool.ColorIndex(t.color) < ci ::
          HasColor(ext[|combo|..], t.color))
  }

  /** One color of the extension that adds the hand tile `x` of color `ci`. */
  lemma ExtendingAdd(hand: seq<Tile>, combo: seq<Tile>, n: int, ext: seq<Tile>, ci: nat, x: Tile)
    requires ci < 4 && Extending(hand, combo, n, ext, ci)
    requires TilePool.ColorAt(ci) !in ColorsIn(combo)
    requires x in hand && x !in ext && Fits(x, n, TilePool.ColorAt(ci))
    ensures Extending(hand, combo, n, ext + [x], ci + 1)
  {
    TilePool.ColorAtIndex(ci);
    var ext' := ext + [x];
    assert ext'[..|combo|] == combo;
    assert x !in combo by {
      assert forall t | t in combo :: t in ext;
    }
    assert ext'[|combo|..] == ext[|combo|..] + [x];
    assert ext'[|ext|] == x;
    forall t | t in hand && t !in combo && t.Numbered? && t.number == n && t.color !in ColorsIn(combo)
               && TilePool.ColorIndex(t.color) < ci
      ensures HasColor(ext'[|combo|..], t.color)
    {
      HasColorAppend(ext[|combo|..], x, t.color);
    }
    assert HasColor(ext'[|combo|..], x.color) by {
      assert ext'[|combo|..][|ext| - |combo|] == x;
    }
  }

  /** One color of the extension that adds nothing: `combo` has the color,
      or the hand has no tile of it outside what was built so far. */
  lemma ExtendingSkip(hand: seq<Tile>, combo: seq<Tile>, n: int, ext: seq<Tile>, ci: nat)
    requires ci < 4 && Extending(hand, combo, n, ext, ci)
    requires TilePool.ColorAt(ci) in ColorsIn(combo)
          || forall t | t in hand && t !in ext :: !Fits(t, n, TilePool.ColorAt(ci))
    ensures Extending(hand, combo, n, ext, ci + 1)
  {
    TilePool.ColorAtIndex(ci);
    forall t | t in hand && t !in combo && t.Numbered? && t.number == n && t.color !in ColorsIn(combo)
               && TilePool.ColorIndex(t.color) < ci + 1
      ensures HasColor(ext[|combo|..], t.color)
    {
      if TilePool.ColorIndex(t.color) == ci {
        assert false;
      }
    }
  }

  /** After all four colors the extension has the promised shape. */
  lemma ExtendingDone(hand: seq<Tile>, combo: seq<Tile>, n: int, ext: seq<Tile>)
    requires Extending(hand, combo, n, ext, 4)
    ensures forall a, b | |combo| <= a < b < |ext| :: ext[a].color != ext[b].color
    ensures forall t | t in hand && t !in combo && t.Numbered? && t.number == n && t.color !in ColorsIn(combo) ::
      HasColor(ext[|combo|..], t.color)
    ensures (forall t | t in hand && t.Numbered? && t.number == n :: t in combo) ==> ext == combo
  {
    forall t | t in hand && t !in combo && t.Numbered? && t.number == n && t.color !in ColorsIn(combo)
      ensures HasColor(ext[|combo|..], t.color)
    {
      assert TilePool.ColorIndex(t.color) < 4;
    }
    assert |ext| > |combo| ==> ext[|combo|] in hand && ext[|combo|] !in combo && ext[|combo|].Numbered?;
    if forall t | t in hand && t.Numbered? && t.number == n :: t in combo {
      assert ext == ext[..|combo|];
    }
  }

  /** The group extension: for each color the combination lacks, in
      enumeration order, the first hand tile of number `n` in that color that
      is not yet in the combination is added. Every added tile is a hand tile
      of number `n` outside `combo`, at most one per color and only in colors
      `combo` lacks; a lacking color gets a tile whenever the hand has one.
      So when `combo` already holds every hand tile of number `n`, nothing is
      added. */
  method ExtendGroup(hand: seq<Tile>, combo: seq<Tile>, n: int) returns (extended: seq<Tile>)
    ensures |extended| >= |combo| && extended[..|combo|] == combo
    ensures forall a | |combo| <= a < |extended| ::
      && extended[a] in hand && extended[a] !in combo
      && extended[a].Numbered? && extended[a].number == n && extended[a].color !in ColorsIn(combo)
    ensures forall a, b | |combo| <= a < b < |extended| :: extended[a].color != extended[b].color
    ensures forall t | t in hand && t !in combo && t.Numbered? && t.number == n && t.color !in ColorsIn(combo) ::
      HasColor(extended[|combo|..], t.color)
    ensures (forall t | t in hand && t.Numbered? && t.number == n :: t in combo) ==> extended == combo
  {
    var present := ColorsIn(combo);
    extended := combo;
    for ci := 0 to 4
      invariant Extending(hand, combo, n, extended, ci)
    {
      var c := TilePool.ColorAt(ci);
      if c !in present {
        var found := FindTileFor(hand, extended, n, c);
        if found.Some? {
          ExtendingAdd(hand, combo, n, extended, ci, found.value);
          extended := extended + [found.value];
        } else {
          ExtendingSkip(hand, combo, n, extended, ci);
        }
      } else {
        ExtendingSkip(hand, combo, n, extended, ci);
      }
    }
    ExtendingDone(hand, combo, n, extended);
  }

  /** The first tile of `run` with number `num`. */
  method FirstWithNumber(run: seq<Tile>, num: int) returns (found: Option<Tile>)
    ensures found.Some? ==>
              exists k | 0 <= k < |run| ::
                && run[k] == found.value && run[k].Numbered? && run[k].number == num
                && forall m | 0 <= m < k :: !(run[m].Numbered? && run[m].number == num)
    ensures found.None? ==> forall t | t in run :: !(t.Numbered? && t.number == num)
  {
    for k := 0 to |run|
      invariant forall m | 0 <= m < k :: !(run[m].Numbered? && run[m].number == num)
    {
      if run[k].Numbered? && run[k].number == num {
        return Some(run[k]);
      }
    }
    return None;
  }

  lemma {:induction false} ConsecutiveNumbers(run: seq<Tile>, k: nat)
    requires Consecutive(run) && k < |run| && run[0].Numbered?
    ensures run[k].Numbered? && run[k].number == run[0].number + k
    decreases k
  {
    if k > 0 {
      ConsecutiveNumbers(run, k - 1);
      assert Follows(run[k - 1], run[k]);
    }
  }

  lemma ConsecutiveSorted(run: seq<Tile>)
    requires Consecutive(run) && run != [] && run[0].Numbered?
    ensures SortedByNumber(run)
  {
    forall i, j | 0 <= i < j < |run| ensures NumberOf(run[i]) <= NumberOf(run[j]) {
      ConsecutiveNumbers(run, i);
      ConsecutiveNumbers(run, j);
    }
  }

  /** The gap filling of a run sorted by number: for every number from the
      first tile's to the last tile's, the first tile of that number, or else
      the last joker not yet used. The result holds only run tiles and jokers
      and at most one tile per number of that range; a run of consecutive
      numbers comes back unchanged, with no joker used. */
  method FillRunGaps(run: seq<Tile>, jokers: seq<Tile>) returns (extended: seq<Tile>)
    requires run != [] && run[0].Numbered? && run[|run| - 1].Numbered?
    ensures forall t | t in extended :: t in run || t in jokers
    ensures |extended| <= if run[|run| - 1].number >= run[0].number then run[|run| - 1].number - run[0].number + 1 else 0
    ensures Consecutive(run) ==> extended == run
  {
    var lo := run[0].number;
    var hi := run[|run| - 1].number;
    if Consecutive(run) {
      ConsecutiveNumbers(run, |run| - 1);
    }
    extended := [];
    var available := jokers;
    var num := lo;
    while num <= hi
      invariant lo <= num && (num <= hi + 1 || num == lo)
      invariant |extended| <= num - lo
      invariant forall t | t in extended :: t in run || t in jokers
      invariant |available| <= |jokers| && available == jokers[..|available|]
      invariant Consecutive(run) ==> num - lo <= |run| && extended == run[..num - lo]
      decreases hi - num
    {
      if Consecutive(run) {
        ConsecutiveNumbers(run, num - lo);
        assert run[num - lo] in run;
      }
      var found := FirstWithNumber(run, num);
      if found.Some? {
        if Consecutive(run) {
          var k :| 0 <= k < |run| && run[k] == found.value && run[k].Numbered? && run[k].number == num;
          ConsecutiveNumbers(run, k);
          TakeOneMore(run, num - lo);
        }
        extended := extended + [found.value];
      } else {
        if |available| > 0 {
          assert available[|available| - 1] == jokers[|available| - 1];
          extended := extended + [available[|available| - 1]];
          available := available[..|available| - 1];
        }
      }
      num := num + 1;
    }
    if Consecutive(run) {
      assert run[..|run|] == run;
    }
  }

  // ---------------------------------------------------------------------
  // Choosing among the candidates

  /** The lowest value the meld must reach: 20 with fifteen tiles or more, 30 otherwise. */
  function MinValue(tileCount: nat): (m: int)
    ensures tileCount >= 15 ==> m == 20
    ensures tileCount < 15 ==> m == 30
  {
    if tileCount >= 15 then 20 else 30
  }

  /** A candidate worth playing: three tiles or more, a valid combination,
      and, before the initial meld, a value of at least `minValue`. */
  predicate Acceptable(c: seq<Tile>, hasInitialMeld: bool, minValue: int)
  {
    |c| >= 3 && IsValid(c) && (hasInitialMeld || GetValue(Combination(c)) >= minValue)
  }

  /** More tiles first, then more points. */
  function Priority(c: seq<Tile>): int
  {
    |c| * 100 + GetValue(Combination(c))
  }

  lemma {:induction false} SumValuesNonNegative(s: seq<Tile>)
    requires forall t | t in s :: Value(t) >= 0
    ensures SumValues(s) >= 0
    decreases |s|
  {
    if s != [] {
      assert s[|s| - 1] in s;
      SumValuesNonNegative(s[..|s| - 1]);
    }
  }

  /** `c` does not beat a kept score `v` over `n` tiles. */
  predicate KeptOver(c: seq<Tile>, v: int, n: int)
  {
    Priority(c) < v || (Priority(c) == v && |c| <= n)
  }

  /** One step of the selection loop: when the kept score and count only grow
      and candidate `k` does not beat the new ones, no acceptable candidate up
      to `k` does. */
  lemma KeptOverStep(cands: seq<seq<Tile>>, k: nat, hasInitialMeld: bool, minValue: int,
                     v: int, n: int, v': int, n': int)
    requires k < |cands|
    requires forall j | 0 <= j < k && Acceptable(cands[j], hasInitialMeld, minValue) :: KeptOver(cands[j], v, n)
    requires v < v' || (v == v' && n <= n')
    requires Acceptable(cands[k], hasInitialMeld, minValue) ==> KeptOver(cands[k], v', n')
    ensures forall j | 0 <= j < k + 1 && Acceptable(cands[j], hasInitialMeld, minValue) :: KeptOver(cands[j], v', n')
  {
  }

  /** `c` is beaten by a kept score `v` over `n` tiles. */
  predicate StrictlyBelow(c: seq<Tile>, v: int, n: int)
  {
    Priority(c) < v || (Priority(c) == v && |c| < n)
  }

  /** A replacement beats the kept score and count strictly, so no earlier
      acceptable candidate reaches it. */
  lemma ReplacedStep(cands: seq<seq<Tile>>, k: nat, hasInitialMeld: bool, minValue: int,
                     v: int, n: int, v': int, n': int)
    requires k <= |cands|
    requires forall j | 0 <= j < k && Acceptable(cands[j], hasInitialMeld, minValue) :: KeptOver(cands[j], v, n)
    requires v < v' || (v == v' && n < n')
    ensures forall j | 0 <= j < k && Acceptable(cands[j], hasInitialMeld, minValue) :: StrictlyBelow(cands[j], v', n')
  {
  }

  /** The best candidate as the two selection loops keep it: starting from a
      score of 0 and a count of 0, a candidate replaces the kept one when it is
      acceptable and scores higher, or scores the same with more tiles. */
  method PickBest(cands: seq<seq<Tile>>, hasInitialMeld: bool, minValue: int) returns (best: Option<seq<Tile>>)
    ensures best.Some? ==> best.value in cands && Acceptable(best.value, hasInitialMeld, minValue)
    ensures best.Some? ==> forall c | c in cands && Acceptable(c, hasInitialMeld, minValue) ::
      Priority(c) < Priority(best.value) || (Priority(c) == Priority(best.value) && |c| <= |best.value|)
    ensures best.None? <==> forall c | c in cands && Acceptable(c, hasInitialMeld, minValue) :: Priority(c) < 0
    ensures (forall c, t | c in cands && t in c :: Value(t) >= 0) ==>
      (best.None? <==> forall c | c in cands :: !Acceptable(c, hasInitialMeld, minValue))
    ensures best.Some? ==> exists k | 0 <= k < |cands| ::
      && cands[k] == best.value
      && forall j | 0 <= j < k && Acceptable(cands[j], hasInitialMeld, minValue) ::
           StrictlyBelow(cands[j], Priority(best.value), |best.value|)
  {
    best := None;
    var bestValue := 0;
    var bestCount := 0;
    ghost var at := 0;
    for k := 0 to |cands|
      invariant best.None? ==> bestValue == 0 && bestCount == 0
      invariant best.Some? ==> && best.value in cands && Acceptable(best.value, hasInitialMeld, minValue)
                               && bestValue == Priority(best.value) && bestCount == |best.value| && bestValue >= 0
      invariant forall j | 0 <= j < k && Acceptable(cands[j], hasInitialMeld, minValue) ::
        KeptOver(cands[j], bestValue, bestCount)
      invariant best.Some? ==> && at < k && cands[at] == best.value
                               && forall j | 0 <= j < at && Acceptable(cands[j], hasInitialMeld, minValue) ::
                                    StrictlyBelow(cands[j], bestValue, bestCount)
    {
      ghost var v, n := bestValue, bestCount;
      var c := cands[k];
      if Acceptable(c, hasInitialMeld, minValue) {
        var score := Priority(c);
        if score > bestValue || (score == bestValue && |c| > bestCount) {
          ReplacedStep(cands, k, hasInitialMeld, minValue, bestValue, bestCount, score, |c|);
          best := Some(c);
          bestValue := score;
          bestCount := |c|;
          at := k;
        }
      }
      KeptOverStep(cands, k, hasInitialMeld, minValue, v, n, bestValue, bestCount);
    }
    if forall c, t | c in cands && t in c :: Value(t) >= 0 {
      forall c | c in cands && Acceptable(c, hasInitialMeld, minValue) ensures Priority(c) >= 0 {
        SumValuesNonNegative(c);
      }
    }
  }

  // ---------------------------------------------------------------------
  // The move

  /** `max(0, 3 - len(tiles))`: the jokers a group of these tiles needs. */
  function JokersNeeded(ts: seq<Tile>): (k: nat)
    ensures |ts| + k >= 3 && (k == 0 || |ts| + k == 3)
  {
    if 3 - |ts| > 0 then 3 - |ts| else 0
  }

  /** One group candidate: the group's tiles, the jokers it needs, and the
      group extension. A potential group already holds every hand tile of its
      number, so the extension adds nothing. */
  method GroupCandidate(tiles: seq<Tile>, jokers: seq<Tile>, p: Potential) returns (extended: seq<Tile>)
    requires GroupOk(tiles, jokers, p) && JokersNeeded(p.tiles) <= |jokers|
    ensures extended == p.tiles + jokers[..JokersNeeded(p.tiles)]
  {
    var combo := p.tiles + jokers[..JokersNeeded(p.tiles)];
    assert forall t | t in p.tiles :: t in combo;
    extended := ExtendGroup(tiles, combo, p.number);
  }

  /** The group candidates of the potentials `ps`, in their order. */
  function GroupCandsOf(ps: seq<Potential>, jokers: seq<Tile>): seq<seq<Tile>>
  {
    if ps == [] then []
    else
      var p := ps[|ps| - 1];
      GroupCandsOf(ps[..|ps| - 1], jokers)
        + (if p.PotentialGroup? && JokersNeeded(p.tiles) <= |jokers| then [p.tiles + jokers[..JokersNeeded(p.tiles)]] else [])
  }

  /** The run candidates of the potentials `ps`, in their order. */
  function RunCandsOf(ps: seq<Potential>): seq<seq<Tile>>
  {
    if ps == [] then []
    else
      var p := ps[|ps| - 1];
      RunCandsOf(ps[..|ps| - 1]) + (if p.PotentialRun? then [p.tiles] else [])
  }

  lemma CandsOfStep(ps: seq<Potential>, k: nat, jokers: seq<Tile>)
    requires k < |ps|
    ensures GroupCandsOf(ps[..k + 1], jokers) == GroupCandsOf(ps[..k], jokers)
      + (if ps[k].PotentialGroup? && JokersNeeded(ps[k].tiles) <= |jokers|
         then [ps[k].tiles + jokers[..JokersNeeded(ps[k].tiles)]] else [])
    ensures RunCandsOf(ps[..k + 1]) == RunCandsOf(ps[..k]) + (if ps[k].PotentialRun? then [ps[k].tiles] else [])
  {
    assert ps[..k + 1][..k] == ps[..k];
  }

  lemma {:induction false} GroupCandsOfMembers(ps: seq<Potential>, jokers: seq<Tile>)
    ensures forall c | c in GroupCandsOf(ps, jokers) ::
      exists p | p in ps :: p.PotentialGroup? && JokersNeeded(p.tiles) <= |jokers|
                            && c == p.tiles + jokers[..JokersNeeded(p.tiles)]
    ensures forall p | p in ps && p.PotentialGroup? && JokersNeeded(p.tiles) <= |jokers| ::
      p.tiles + jokers[..JokersNeeded(p.tiles)] in GroupCandsOf(ps, jokers)
    decreases |ps|
  {
    if ps != [] {
      var ps' := ps[..|ps| - 1];
      GroupCandsOfMembers(ps', jokers);
      assert ps == ps' + [ps[|ps| - 1]];
    }
  }

  lemma {:induction false} RunCandsOfMembers(ps: seq<Potential>)
    ensures forall c | c in RunCandsOf(ps) :: exists p | p in ps :: p.PotentialRun? && p.tiles == c
    ensures forall p | p in ps && p.PotentialRun? :: p.tiles in RunCandsOf(ps)
    decreases |ps|
  {
    if ps != [] {
      var ps' := ps[..|ps| - 1];
      RunCandsOfMembers(ps');
      assert ps == ps' + [ps[|ps| - 1]];
    }
  }

  /** The group candidates, in order: for every potential group that the
      jokers can bring to three tiles, its tiles followed by the jokers it needs. */
  method GroupCandidates(tiles: seq<Tile>, potential: seq<Potential>, jokers: seq<Tile>)
    returns (cands: seq<seq<Tile>>)
    requires jokers == JokersOf(tiles)
    requires forall p | p in potential :: GroupOk(tiles, jokers, p) || RunOk(tiles, jokers, p)
    ensures cands == GroupCandsOf(potential, jokers)
    ensures forall c, t | c in cands && t in c :: t in tiles
    ensures forall c | c in cands ::
      exists p | p in potential :: p.PotentialGroup? && JokersNeeded(p.tiles) <= |jokers|
                                    && c == p.tiles + jokers[..JokersNeeded(p.tiles)]
    ensures forall p | p in potential && p.PotentialGroup? && JokersNeeded(p.tiles) <= |jokers| ::
      p.tiles + jokers[..JokersNeeded(p.tiles)] in cands
  {
    cands := [];
    for k := 0 to |potential|
      invariant cands == GroupCandsOf(potential[..k], jokers)
    {
      var p := potential[k];
      CandsOfStep(potential, k, jokers);
      if p.PotentialGroup? && JokersNeeded(p.tiles) <= |jokers| {
        assert p in potential;
        var extended := GroupCandidate(tiles, jokers, p);
        cands := cands + [extended];
      }
    }
    assert potential[..|potential|] == potential;
    GroupCandsOfMembers(potential, jokers);
    forall c, t | c in cands && t in c ensures t in tiles {
      var p :| p in potential && p.PotentialGroup? && JokersNeeded(p.tiles) <= |jokers|
               && c == p.tiles + jokers[..JokersNeeded(p.tiles)];
      assert GroupOk(tiles, jokers, p);
      assert t in p.tiles || t in jokers;
    }
  }

  /** One run candidate: the run sorted by number, its gaps filled from the
      jokers. A potential run is already sorted and has no gap, so it comes
      back as it is and no joker joins it. */
  method RunCandidate(tiles: seq<Tile>, jokers: seq<Tile>, p: Potential) returns (extended: seq<Tile>)
    requires RunOk(tiles, jokers, p)
    ensures extended == p.tiles
  {
    ConsecutiveSorted(p.tiles);
    SortSortedUnchanged(p.tiles);
    var sorted := SortByNumber(p.tiles);
    assert sorted[0] in p.tiles && sorted[|sorted| - 1] in p.tiles;
    extended := FillRunGaps(sorted, jokers);
  }

  /** The run candidates, in order: every potential run, sorted by number,
      with its gaps filled from the jokers. Every candidate is a potential
      run, and every potential run is a candidate. */
  method RunCandidates(tiles: seq<Tile>, potential: seq<Potential>, jokers: seq<Tile>)
    returns (cands: seq<seq<Tile>>)
    requires jokers == JokersOf(tiles)
    requires forall p | p in potential :: GroupOk(tiles, jokers, p) || RunOk(tiles, jokers, p)
    ensures cands == RunCandsOf(potential)
    ensures forall c, t | c in cands && t in c :: t in tiles
    ensures forall c | c in cands :: exists p | p in potential :: p.PotentialRun? && p.tiles == c
    ensures forall p | p in potential && p.PotentialRun? :: p.tiles in cands
  {
    cands := [];
    for k := 0 to |potential|
      invariant cands == RunCandsOf(potential[..k])
    {
      var p := potential[k];
      CandsOfStep(potential, k, jokers);
      assert p in potential;
      if p.PotentialRun? && |p.tiles| >= 2 {
        var extended := RunCandidate(tiles, jokers, p);
        cands := cands + [extended];
      }
    }
    assert potential[..|potential|] == potential;
    RunCandsOfMembers(potential);
    forall c, t | c in cands && t in c ensures t in tiles {
      var p :| p in potential && p.PotentialRun? && p.tiles == c;
      assert RunOk(tiles, jokers, p);
    }
  }

  /** Seven tiles or fewer after the initial meld: the player tries to go out. */
  predicate Endgame(tiles: seq<Tile>, hasInitialMeld: bool)
  {
    |tiles| <= 7 && hasInitialMeld
  }

  /** A group candidate of the hand: every hand tile of a number held at
      least twice, followed by the jokers that bring them to three. */
  ghost predicate IsGroupCandidate(tiles: seq<Tile>, c: seq<Tile>)
  {
    exists n :: && |OfNumber(tiles, n)| >= 2
                && JokersNeeded(OfNumber(tiles, n)) <= |JokersOf(tiles)|
                && c == OfNumber(tiles, n) + JokersOf(tiles)[..JokersNeeded(OfNumber(tiles, n))]
  }

  /** A run candidate of the hand: a maximal stretch of two or more
      consecutive numbers in one color's tiles sorted by number. */
  ghost predicate IsRunCandidate(tiles: seq<Tile>, c: seq<Tile>)
  {
    exists col, sp :: BlockAt(SortByNumber(OfColor(tiles, col)), c, sp)
  }

  ghost predicate IsCandidate(tiles: seq<Tile>, c: seq<Tile>)
  {
    IsGroupCandidate(tiles, c) || IsRunCandidate(tiles, c)
  }

  /** `chosen` is what the two selection loops keep: an acceptable candidate
      that no acceptable candidate beats on priority then length, and that
      every acceptable group candidate falls strictly short of when `chosen`
      is not itself a group candidate (the groups are compared first). */
  ghost predicate BestCandidate(tiles: seq<Tile>, hasInitialMeld: bool, chosen: seq<Tile>)
  {
    && IsCandidate(tiles, chosen) && Acceptable(chosen, hasInitialMeld, MinValue(|tiles|))
    && (forall c | IsCandidate(tiles, c) && Acceptable(c, hasInitialMeld, MinValue(|tiles|)) ::
          KeptOver(c, Priority(chosen), |chosen|))
    && (!IsGroupCandidate(tiles, chosen) ==>
          forall c | IsGroupCandidate(tiles, c) && Acceptable(c, hasInitialMeld, MinValue(|tiles|)) ::
            StrictlyBelow(c, Priority(chosen), |chosen|))
  }

  /** The greedy triples leave at most two tiles of the hand over. */
  ghost predicate GreedyPlaces(tiles: seq<Tile>)
  {
    0 < |GreedyTriples(tiles)| && |tiles| - 2 <= |GreedyTriples(tiles)|
  }

  /** In the endgame, one of the two endgame placements applies. */
  ghost predicate EndgamePlaces(tiles: seq<Tile>, hasInitialMeld: bool)
  {
    Endgame(tiles, hasInitialMeld) && (IsValid(tiles) || GreedyPlaces(tiles))
  }

  /** Why a set of tiles may be placed, branch by branch: in the endgame the
      whole hand when it is one valid combination, else the greedy triples
      when they leave at most two tiles; otherwise the best candidate. */
  ghost predicate Justified(tiles: seq<Tile>, hasInitialMeld: bool, chosen: seq<Tile>)
  {
    && (forall t | t in chosen :: t in tiles)
    && (|| (Endgame(tiles, hasInitialMeld) && IsValid(tiles) && chosen == tiles)
        || (Endgame(tiles, hasInitialMeld) && !IsValid(tiles) && GreedyPlaces(tiles) && chosen == GreedyTriples(tiles))
        || (!EndgamePlaces(tiles, hasInitialMeld) && BestCandidate(tiles, hasInitialMeld, chosen)))
  }


  /** The tiles of every potential run of color `col` are listed for it, and
      only those. */
  lemma {:induction false} RunsOfMembers(ps: seq<Potential>, col: Color)
    ensures forall p | p in ps && p.PotentialRun? && p.color == col :: p.tiles in RunsOf(ps, col)
    ensures forall c | c in RunsOf(ps, col) :: exists p | p in ps :: p.PotentialRun? && p.tiles == c
    decreases |ps|
  {
    if ps != [] {
      var ps' := ps[..|ps| - 1];
      RunsOfMembers(ps', col);
      assert ps == ps' + [ps[|ps| - 1]];
    }
  }

  /** Inside a block, each tile follows the one before it. */
  lemma BlockInner(s: seq<Tile>, b: seq<Tile>, sp: Span)
    requires BlockAt(s, b, sp)
    ensures forall a | sp.lo < a < sp.hi :: Follows(s[a - 1], s[a])
  {
    forall a | sp.lo < a < sp.hi ensures Follows(s[a - 1], s[a]) {
      assert b[a - sp.lo - 1] == s[a - 1] && b[a - sp.lo] == s[a];
    }
  }

  /** Maximal stretches do not overlap without coinciding: every block of `s`
      is one of the blocks that cover `s`. */
  lemma BlockListed(s: seq<Tile>, blocks: seq<seq<Tile>>, cuts: seq<Span>, c: seq<Tile>, sp: Span)
    requires BlocksUpTo(s, blocks, cuts, |s|) && BlockAt(s, c, sp)
    ensures c in blocks
  {
    BlockInner(s, c, sp);
    assert Follows(s[sp.lo], s[sp.lo + 1]);
    assert Covered(cuts, sp.lo + 1);
    var k :| 0 <= k < |cuts| && cuts[k].lo < sp.lo + 1 < cuts[k].hi;
    assert BlockAt(s, blocks[k], cuts[k]);
    BlockInner(s, blocks[k], cuts[k]);
    assert cuts[k].lo == sp.lo;
    assert cuts[k].hi == sp.hi;
    assert blocks[k] == c;
  }

  /** Every group and run candidate the selection compares is a candidate of the hand. */
  lemma ListedIsCandidate(tiles: seq<Tile>, potential: seq<Potential>, jokers: seq<Tile>,
                          groups: seq<seq<Tile>>, runs: seq<seq<Tile>>, c: seq<Tile>)
    requires jokers == JokersOf(tiles)
    requires forall p | p in potential :: GroupOk(tiles, jokers, p) || RunOk(tiles, jokers, p)
    requires forall col :: MaximalBlocks(SortByNumber(OfColor(tiles, col)), RunsOf(potential, col))
    requires forall c | c in groups ::
      exists p | p in potential :: p.PotentialGroup? && JokersNeeded(p.tiles) <= |jokers|
                                    && c == p.tiles + jokers[..JokersNeeded(p.tiles)]
    requires forall c | c in runs :: exists p | p in potential :: p.PotentialRun? && p.tiles == c
    requires c in groups + runs
    ensures c in groups ==> IsGroupCandidate(tiles, c)
    ensures IsCandidate(tiles, c)
  {
    if c in groups {
      var p :| p in potential && p.PotentialGroup? && JokersNeeded(p.tiles) <= |jokers|
               && c == p.tiles + jokers[..JokersNeeded(p.tiles)];
      assert GroupOk(tiles, jokers, p);
      assert p.tiles == OfNumber(tiles, p.number);
    } else {
      var p :| p in potential && p.PotentialRun? && p.tiles == c;
      RunsOfMembers(potential, p.color);
      var sorted := SortByNumber(OfColor(tiles, p.color));
      var blocks := RunsOf(potential, p.color);
      var cuts :| BlocksUpTo(sorted, blocks, cuts, |sorted|);
      var k :| 0 <= k < |blocks| && blocks[k] == c;
      assert BlockAt(sorted, c, cuts[k]);
    }
  }

  /** Every candidate of the hand is among the group and run candidates the
      selection compares. */
  lemma CandidateListed(tiles: seq<Tile>, potential: seq<Potential>, jokers: seq<Tile>,
                        groups: seq<seq<Tile>>, runs: seq<seq<Tile>>, c: seq<Tile>)
    requires jokers == JokersOf(tiles)
    requires forall p | p in potential :: GroupOk(tiles, jokers, p) || RunOk(tiles, jokers, p)
    requires forall t | t in tiles && t.Numbered? && |OfNumber(tiles, t.number)| >= 2 ::
      HasGroupFor(potential, t.number)
    requires forall col :: MaximalBlocks(SortByNumber(OfColor(tiles, col)), RunsOf(potential, col))
    requires forall p | p in potential && p.PotentialGroup? && JokersNeeded(p.tiles) <= |jokers| ::
      p.tiles + jokers[..JokersNeeded(p.tiles)] in groups
    requires forall p | p in potential && p.PotentialRun? :: p.tiles in runs
    requires IsCandidate(tiles, c)
    ensures IsGroupCandidate(tiles, c) ==> c in groups
    ensures c in groups + runs
  {
    if IsGroupCandidate(tiles, c) {
      var n :| && |OfNumber(tiles, n)| >= 2 && JokersNeeded(OfNumber(tiles, n)) <= |JokersOf(tiles)|
               && c == OfNumber(tiles, n) + JokersOf(tiles)[..JokersNeeded(OfNumber(tiles, n))];
      GroupIsCandidate(tiles, potential, jokers, groups, n);
    } else {
      var col, sp :| BlockAt(SortByNumber(OfColor(tiles, col)), c, sp);
      var sorted := SortByNumber(OfColor(tiles, col));
      var cuts :| BlocksUpTo(sorted, RunsOf(potential, col), cuts, |sorted|);
      BlockListed(sorted, RunsOf(potential, col), cuts, c, sp);
      RunsOfMembers(potential, col);
    }
  }

  /** Every number held at least twice, whose jokers suffice, yields a group candidate. */
  lemma GroupIsCandidate(tiles: seq<Tile>, potential: seq<Potential>, jokers: seq<Tile>,
                         groups: seq<seq<Tile>>, n: int)
    requires jokers == JokersOf(tiles)
    requires forall p | p in potential :: GroupOk(tiles, jokers, p) || RunOk(tiles, jokers, p)
    requires forall t | t in tiles && t.Numbered? && |OfNumber(tiles, t.number)| >= 2 ::
      HasGroupFor(potential, t.number)
    requires forall p | p in potential && p.PotentialGroup? && JokersNeeded(p.tiles) <= |jokers| ::
      p.tiles + jokers[..JokersNeeded(p.tiles)] in groups
    requires |OfNumber(tiles, n)| >= 2 && JokersNeeded(OfNumber(tiles, n)) <= |jokers|
    ensures OfNumber(tiles, n) + jokers[..JokersNeeded(OfNumber(tiles, n))] in groups
  {
    var t := OfNumber(tiles, n)[0];
    assert t in OfNumber(tiles, n);
    var j :| 0 <= j < |potential| && potential[j].PotentialGroup? && potential[j].number == n;
    assert potential[j] in potential;
    assert GroupOk(tiles, jokers, potential[j]);
  }

  /** What `PickBest` keeps over the groups followed by the runs is the best candidate of the hand. */
  lemma PickedIsBest(tiles: seq<Tile>, hasInitialMeld: bool, potential: seq<Potential>, jokers: seq<Tile>,
                     groups: seq<seq<Tile>>, runs: seq<seq<Tile>>, best: seq<Tile>)
    requires jokers == JokersOf(tiles)
    requires forall p | p in potential :: GroupOk(tiles, jokers, p) || RunOk(tiles, jokers, p)
    requires forall t | t in tiles && t.Numbered? && |OfNumber(tiles, t.number)| >= 2 ::
      HasGroupFor(potential, t.number)
    requires forall col :: MaximalBlocks(SortByNumber(OfColor(tiles, col)), RunsOf(potential, col))
    requires forall c | c in groups ::
      exists p | p in potential :: p.PotentialGroup? && JokersNeeded(p.tiles) <= |jokers|
                                    && c == p.tiles + jokers[..JokersNeeded(p.tiles)]
    requires forall p | p in potential && p.PotentialGroup? && JokersNeeded(p.tiles) <= |jokers| ::
      p.tiles + jokers[..JokersNeeded(p.tiles)] in groups
    requires forall c | c in runs :: exists p | p in potential :: p.PotentialRun? && p.tiles == c
    requires forall p | p in potential && p.PotentialRun? :: p.tiles in runs
    requires best in groups + runs && Acceptable(best, hasInitialMeld, MinValue(|tiles|))
    requires forall c | c in groups + runs && Acceptable(c, hasInitialMeld, MinValue(|tiles|)) ::
      Priority(c) < Priority(best) || (Priority(c) == Priority(best) && |c| <= |best|)
    requires exists k | 0 <= k < |groups + runs| ::
      && (groups + runs)[k] == best
      && forall j | 0 <= j < k && Acceptable((groups + runs)[j], hasInitialMeld, MinValue(|tiles|)) ::
           StrictlyBelow((groups + runs)[j], Priority(best), |best|)
    ensures BestCandidate(tiles, hasInitialMeld, best)
  {
    var cands := groups + runs;
    ListedIsCandidate(tiles, potential, jokers, groups, runs, best);
    forall c | IsCandidate(tiles, c) && Acceptable(c, hasInitialMeld, MinValue(|tiles|))
      ensures KeptOver(c, Priority(best), |best|)
    {
      CandidateListed(tiles, potential, jokers, groups, runs, c);
    }
    if !IsGroupCandidate(tiles, best) {
      var k :| && 0 <= k < |cands| && cands[k] == best
               && forall j | 0 <= j < k && Acceptable(cands[j], hasInitialMeld, MinValue(|tiles|)) ::
                    StrictlyBelow(cands[j], Priority(best), |best|);
      forall j | 0 <= j < |groups| ensures IsGroupCandidate(tiles, cands[j]) {
        assert cands[j] == groups[j];
        ListedIsCandidate(tiles, potential, jokers, groups, runs, cands[j]);
      }
      assert |groups| <= k;
      forall c | IsGroupCandidate(tiles, c) && Acceptable(c, hasInitialMeld, MinValue(|tiles|))
        ensures StrictlyBelow(c, Priority(best), |best|)
      {
        CandidateListed(tiles, potential, jokers, groups, runs, c);
        var j :| 0 <= j < |groups| && groups[j] == c;
        assert cands[j] == c;
      }
    }
  }

  /** `suggest_best_move`: in the endgame, the whole hand if it is one valid
      combination, else the greedy triples if they leave at most two tiles;
      otherwise the best acceptable group or run candidate, or a draw when
      there is none. */
  method SuggestBestMove(tiles: seq<Tile>, hasInitialMeld: bool) returns (move: Rules.Action)
    ensures move.PlaceTiles? || move == Rules.DrawTile
    ensures move.PlaceTiles? ==>
              exists chosen :: move.tileIds == TilePool.IdsOf(chosen) && Justified(tiles, hasInitialMeld, chosen)
    ensures Endgame(tiles, hasInitialMeld) && IsValid(tiles) ==> move == Rules.PlaceTiles(TilePool.IdsOf(tiles))
    ensures Endgame(tiles, hasInitialMeld) && !IsValid(tiles) && GreedyPlaces(tiles) ==>
              move == Rules.PlaceTiles(TilePool.IdsOf(GreedyTriples(tiles)))
    ensures !EndgamePlaces(tiles, hasInitialMeld)
            && (forall c | IsCandidate(tiles, c) :: !Acceptable(c, hasInitialMeld, MinValue(|tiles|)))
            ==> move == Rules.DrawTile
    ensures move == Rules.DrawTile ==> !EndgamePlaces(tiles, hasInitialMeld)
    ensures move == Rules.DrawTile && (forall t | t in tiles :: Value(t) >= 0) ==>
      forall c | IsCandidate(tiles, c) :: !Acceptable(c, hasInitialMeld, MinValue(|tiles|))
  {
    var potential, jokers := AnalyzeTiles(tiles);
    if Endgame(tiles, hasInitialMeld) {
      ValiditySize(tiles);
      if CanMakeSingleCombination(tiles) {
        assert Justified(tiles, hasInitialMeld, tiles);
        return Rules.PlaceTiles(TilePool.IdsOf(tiles));
      }
      var multi := FindMultiCombinationSolution(tiles);
      if |multi| > 0 && |multi| >= |tiles| - 2 {
        assert forall t | t in multi :: t in tiles by {
          forall t | t in multi ensures t in tiles { assert t in multiset(multi); }
        }
        assert Justified(tiles, hasInitialMeld, multi);
        return Rules.PlaceTiles(TilePool.IdsOf(multi));
      }
    }
    assert !EndgamePlaces(tiles, hasInitialMeld);
    var groups := GroupCandidates(tiles, potential, jokers);
    var runs := RunCandidates(tiles, potential, jokers);
    var best := PickBest(groups + runs, hasInitialMeld, MinValue(|tiles|));
    if best.Some? {
      PickedIsBest(tiles, hasInitialMeld, potential, jokers, groups, runs, best.value);
      assert forall t | t in best.value :: t in tiles;
      assert Justified(tiles, hasInitialMeld, best.value);
      return Rules.PlaceTiles(TilePool.IdsOf(best.value));
    }
    forall c | IsCandidate(tiles, c) ensures c in groups + runs {
      CandidateListed(tiles, potential, jokers, groups, runs, c);
    }
    return Rules.DrawTile;
  }
}
