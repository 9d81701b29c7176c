/** Combinations of tiles and the group/run legality predicate, reproduced
    as the rules engine writes it, including its looseness: the run check
    compares only the span of the numbers with the tile count, so it lets
    repeated numbers and surplus jokers through. */
module Combinations {
  import opened Tiles

  /** A combination on the board: an ordered list of tiles. */
  datatype Combination = Combination(tiles: seq<Tile>)

  // ---------------------------------------------------------------------
  // Projections of the non-joker tiles, in order

  function Numbers(s: seq<Tile>): (ns: seq<int>)
    ensures |ns| <= |s|
  {
    if s == [] then []
    else Numbers(s[..|s| - 1]) + (if s[|s| - 1].Numbered? then [s[|s| - 1].number] else [])
  }

  function Colors(s: seq<Tile>): (cs: seq<Color>)
    ensures |cs| == |Numbers(s)|
  {
    if s == [] then []
    else Colors(s[..|s| - 1]) + (if s[|s| - 1].Numbered? then [s[|s| - 1].color] else [])
  }

  function Elements<T>(xs: seq<T>): set<T>
  {
    set x | x in xs
  }

  /** The set of numbers and the set of colors of the non-joker tiles. */
  function NumberSet(s: seq<Tile>): set<int> { Elements(Numbers(s)) }
  function ColorSet(s: seq<Tile>): set<Color> { Elements(Colors(s)) }

  /** Smallest and largest element of a non-empty list of numbers. */
  function MinOf(xs: seq<int>): (m: int)
    requires xs != []
    ensures m in xs && forall x | x in xs :: m <= x
  {
    if |xs| == 1 then xs[0]
    else
      var m' := MinOf(xs[1..]);
      assert forall x | x in xs :: x == xs[0] || x in xs[1..];
      if xs[0] < m' then xs[0] else m'
  }

  function MaxOf(xs: seq<int>): (m: int)
    requires xs != []
    ensures m in xs && forall x | x in xs :: x <= m
  {
    if |xs| == 1 then xs[0]
    else
      var m' := MaxOf(xs[1..]);
      assert forall x | x in xs :: x == xs[0] || x in xs[1..];
      if xs[0] > m' then xs[0] else m'
  }

  // ---------------------------------------------------------------------
  // The legality predicate

  /** Group: at most four tiles; the non-joker tiles carry at most one number,
      and there are as many distinct colors among them as there are of them. */
  predicate IsValidGroup(s: seq<Tile>)
  {
    && |s| <= 4
    && |NumberSet(s)| <= 1
    && |ColorSet(s)| == |Colors(s)|
  }

  /** The span test applied to the (sorted) numbers of a run. Sorting does not
      change the minimum and the maximum, so the numbers are taken as they come. */
  predicate CanFormSequence(numbers: seq<int>, totalTiles: int)
  {
    if numbers == [] then true
    else
      var expected := MaxOf(numbers) - MinOf(numbers) + 1;
      expected <= totalTiles && expected >= 3
  }

  /** Run: the non-joker tiles have at most one color; a list of jokers only
      passes; otherwise the span of the numbers is between 3 and the tile count. */
  predicate IsValidRun(s: seq<Tile>)
  {
    if |ColorSet(s)| > 1 then false
    else if Numbers(s) == [] then true
    else CanFormSequence(Numbers(s), |s|)
  }

  /** A combination is valid when it has at least three tiles and is a group or a run. */
  predicate IsValid(s: seq<Tile>)
  {
    if |s| < 3 then false else IsValidGroup(s) || IsValidRun(s)
  }

  /** Total point value of a combination (a joker counts 0). */
  function GetValue(c: Combination): int
  {
    SumValues(c.tiles)
  }

  // ---------------------------------------------------------------------
  // Independent, tile-level statements of the same rules

  /** Every non-joker tile carries the same number. */
  ghost predicate SameNumber(s: seq<Tile>)
  {
    forall i, j | 0 <= i < |s| && 0 <= j < |s| && s[i].Numbered? && s[j].Numbered? ::
      s[i].number == s[j].number
  }

  /** Every non-joker tile carries the same color. */
  ghost predicate SameColor(s: seq<Tile>)
  {
    forall i, j | 0 <= i < |s| && 0 <= j < |s| && s[i].Numbered? && s[j].Numbered? ::
      s[i].color == s[j].color
  }

  /** No two non-joker tiles share a color. */
  ghost predicate DistinctColors(s: seq<Tile>)
  {
    forall i, j | 0 <= i < j < |s| && s[i].Numbered? && s[j].Numbered? ::
      s[i].color != s[j].color
  }

  /** `lo` and `hi` are the smallest and the largest number on a non-joker tile of `s`. */
  ghost predicate NumberBounds(s: seq<Tile>, lo: int, hi: int)
  {
    && (exists i | 0 <= i < |s| :: s[i].Numbered? && s[i].number == lo)
    && (exists i | 0 <= i < |s| :: s[i].Numbered? && s[i].number == hi)
    && (forall i | 0 <= i < |s| && s[i].Numbered? :: lo <= s[i].number <= hi)
  }

  ghost predicate NoDuplicates<T>(xs: seq<T>)
  {
    forall i, j | 0 <= i < j < |xs| :: xs[i] != xs[j]
  }

  ghost predicate AllEqual<T>(xs: seq<T>)
  {
    forall i, j | 0 <= i < |xs| && 0 <= j < |xs| :: xs[i] == xs[j]
  }

  // ---------------------------------------------------------------------
  // Helper facts about the projections

  lemma {:induction false} NumbersMembership(s: seq<Tile>, n: int)
    ensures n in Numbers(s) <==> exists i | 0 <= i < |s| :: s[i].Numbered? && s[i].number == n
    decreases |s|
  {
    if s != [] {
      var s' := s[..|s| - 1];
      NumbersMembership(s', n);
      if exists i | 0 <= i < |s'| :: s'[i].Numbered? && s'[i].number == n {
        var i :| 0 <= i < |s'| && s'[i].Numbered? && s'[i].number == n;
        assert s[i] == s'[i];
      }
      if exists i | 0 <= i < |s| :: s[i].Numbered? && s[i].number == n {
        var i :| 0 <= i < |s| && s[i].Numbered? && s[i].number == n;
        if i < |s'| { assert s'[i] == s[i]; }
      }
    }
  }

  lemma {:induction false} ColorsMembership(s: seq<Tile>, c: Color)
    ensures c in Colors(s) <==> exists i | 0 <= i < |s| :: s[i].Numbered? && s[i].color == c
    decreases |s|
  {
    if s != [] {
      var s' := s[..|s| - 1];
      var last := s[|s| - 1];
      assert Colors(s) == Colors(s') + (if last.Numbered? then [last.color] else []);
      ColorsMembership(s', c);
      if exists i | 0 <= i < |s'| :: s'[i].Numbered? && s'[i].color == c {
        var i :| 0 <= i < |s'| && s'[i].Numbered? && s'[i].color == c;
        assert s[i] == s'[i];
      }
      if exists i | 0 <= i < |s| :: s[i].Numbered? && s[i].color == c {
        var i :| 0 <= i < |s| && s[i].Numbered? && s[i].color == c;
        if i < |s'| { assert s'[i] == s[i]; }
      }
    }
  }

  /** The number of distinct elements never exceeds the length, and reaches
      it exactly when there are no duplicates. */
  lemma {:induction false} ElementsSize<T>(xs: seq<T>)
    ensures |Elements(xs)| <= |xs|
    ensures |Elements(xs)| == |xs| <==> NoDuplicates(xs)
    decreases |xs|
  {
    if xs != [] {
      var xs' := xs[..|xs| - 1];
      var x := xs[|xs| - 1];
      assert xs == xs' + [x];
      ElementsSize(xs');
      assert Elements(xs) == Elements(xs') + {x};
      if x in xs' {
        assert Elements(xs) == Elements(xs');
        var i :| 0 <= i < |xs'| && xs'[i] == x;
        assert xs[i] == xs[|xs| - 1];
        assert !NoDuplicates(xs);
      } else {
        assert |Elements(xs)| == |Elements(xs')| + 1;
        if NoDuplicates(xs') {
          forall i, j | 0 <= i < j < |xs| ensures xs[i] != xs[j] {
            if j == |xs| - 1 { assert xs[i] == xs'[i]; } else { assert xs[i] == xs'[i] && xs[j] == xs'[j]; }
          }
        } else {
          var i, j :| 0 <= i < j < |xs'| && xs'[i] == xs'[j];
          assert xs[i] == xs[j];
        }
      }
    }
  }

  /** At most one distinct element exactly when all elements are equal. */
  lemma ElementsAtMostOne<T>(xs: seq<T>)
    ensures |Elements(xs)| <= 1 <==> AllEqual(xs)
  {
    if xs == [] {
      assert Elements(xs) == {};
    } else {
      if AllEqual(xs) {
        assert forall x | x in Elements(xs) :: x == xs[0];
        assert Elements(xs) == {xs[0]};
      } else {
        var i, j :| 0 <= i < |xs| && 0 <= j < |xs| && xs[i] != xs[j];
        assert {xs[i], xs[j]} <= Elements(xs);
        assert |{xs[i], xs[j]}| == 2;
        SubsetSize({xs[i], xs[j]}, Elements(xs));
      }
    }
  }

  lemma {:induction false} SubsetSize<T>(a: set<T>, b: set<T>)
    requires a <= b
    ensures |a| <= |b|
    decreases |b|
  {
    if a != {} {
      var x :| x in a;
      SubsetSize(a - {x}, b - {x});
    }
  }

  /** Appending one element keeps a list free of duplicates exactly when the
      element is new. */
  lemma NoDuplicatesSnoc<T>(xs: seq<T>, y: T)
    ensures NoDuplicates(xs + [y]) <==> NoDuplicates(xs) && y !in xs
  {
    var ys := xs + [y];
    if NoDuplicates(ys) {
      forall i, j | 0 <= i < j < |xs| ensures xs[i] != xs[j] { assert ys[i] == xs[i] && ys[j] == xs[j]; }
      forall i | 0 <= i < |xs| ensures xs[i] != y { assert ys[i] == xs[i] && ys[|xs|] == y; }
    }
    if NoDuplicates(xs) && y !in xs {
      forall i, j | 0 <= i < j < |ys| ensures ys[i] != ys[j] {
        if j < |xs| { assert ys[i] == xs[i] && ys[j] == xs[j]; } else { assert ys[i] == xs[i]; }
      }
    }
  }

  /** Appending one tile keeps the non-joker colors distinct exactly when a
      numbered new tile brings a color no earlier non-joker tile has. */
  lemma DistinctColorsSnoc(s: seq<Tile>, x: Tile)
    ensures DistinctColors(s + [x]) <==>
      DistinctColors(s) && (x.Numbered? ==> forall i | 0 <= i < |s| && s[i].Numbered? :: s[i].color != x.color)
  {
    var t := s + [x];
    if DistinctColors(t) {
      forall i, j | 0 <= i < j < |s| && s[i].Numbered? && s[j].Numbered? ensures s[i].color != s[j].color {
        assert t[i] == s[i] && t[j] == s[j];
      }
      if x.Numbered? {
        forall i | 0 <= i < |s| && s[i].Numbered? ensures s[i].color != x.color {
          assert t[i] == s[i] && t[|s|] == x;
        }
      }
    }
  }

  /** The colors of the non-joker tiles are pairwise distinct exactly when
      the projected color list has no duplicates. */
  lemma {:induction false} ColorsNoDuplicates(s: seq<Tile>)
    ensures NoDuplicates(Colors(s)) <==> DistinctColors(s)
    decreases |s|
  {
    if s != [] {
      var s' := s[..|s| - 1];
      var x := s[|s| - 1];
      assert s == s' + [x];
      ColorsNoDuplicates(s');
      DistinctColorsSnoc(s', x);
      if x.Numbered? {
        assert Colors(s) == Colors(s') + [x.color];
        NoDuplicatesSnoc(Colors(s'), x.color);
        ColorsMembership(s', x.color);
      } else {
        assert Colors(s) == Colors(s');
      }
    }
  }

  lemma SameNumberProjection(s: seq<Tile>)
    ensures AllEqual(Numbers(s)) <==> SameNumber(s)
  {
    var ns := Numbers(s);
    if AllEqual(ns) {
      forall i, j | 0 <= i < |s| && 0 <= j < |s| && s[i].Numbered? && s[j].Numbered?
        ensures s[i].number == s[j].number
      {
        NumbersMembership(s, s[i].number);
        NumbersMembership(s, s[j].number);
        var a :| 0 <= a < |ns| && ns[a] == s[i].number;
        var b :| 0 <= b < |ns| && ns[b] == s[j].number;
      }
    }
    if SameNumber(s) {
      forall a, b | 0 <= a < |ns| && 0 <= b < |ns| ensures ns[a] == ns[b] {
        NumbersMembership(s, ns[a]);
        NumbersMembership(s, ns[b]);
      }
    }
  }

  lemma SameColorProjection(s: seq<Tile>)
    ensures AllEqual(Colors(s)) <==> SameColor(s)
  {
    var cs := Colors(s);
    if AllEqual(cs) {
      forall i, j | 0 <= i < |s| && 0 <= j < |s| && s[i].Numbered? && s[j].Numbered?
        ensures s[i].color == s[j].color
      {
        ColorsMembership(s, s[i].color);
        ColorsMembership(s, s[j].color);
        var a :| 0 <= a < |cs| && cs[a] == s[i].color;
        var b :| 0 <= b < |cs| && cs[b] == s[j].color;
      }
    }
    if SameColor(s) {
      forall a, b | 0 <= a < |cs| && 0 <= b < |cs| ensures cs[a] == cs[b] {
        ColorsMembership(s, cs[a]);
        ColorsMembership(s, cs[b]);
      }
    }
  }

  // ---------------------------------------------------------------------
  // Properties of the legality predicate

  /** Fewer than three tiles is never a valid combination; any three or more
      jokers alone always are. */
  lemma ValiditySize(s: seq<Tile>)
    ensures |s| < 3 ==> !IsValid(s)
    ensures |s| >= 3 && (forall t | t in s :: t.Joker?) ==> IsValid(s)
  {
    if forall t | t in s :: t.Joker? {
      NoNumbersWhenAllJokers(s);
    }
  }

  lemma {:induction false} NoNumbersWhenAllJokers(s: seq<Tile>)
    requires forall t | t in s :: t.Joker?
    ensures Numbers(s) == [] && Colors(s) == []
    decreases |s|
  {
    if s != [] {
      assert s[|s| - 1] in s;
      NoNumbersWhenAllJokers(s[..|s| - 1]);
    }
  }

  /** The group check holds exactly when there are at most four tiles, every
      non-joker tile carries the same number, and no two of them share a color. */
  lemma GroupCharacterization(s: seq<Tile>)
    ensures IsValidGroup(s) <==> |s| <= 4 && SameNumber(s) && DistinctColors(s)
  {
    ElementsAtMostOne(Numbers(s));
    SameNumberProjection(s);
    ElementsSize(Colors(s));
    ColorsNoDuplicates(s);
  }

  /** The run check with at least one non-joker tile: one color, and the span
      from the smallest to the largest number is at least 3 and at most the
      number of tiles. Repeated numbers are not looked at. */
  lemma RunCharacterization(s: seq<Tile>, lo: int, hi: int)
    requires NumberBounds(s, lo, hi)
    ensures IsValidRun(s) <==> SameColor(s) && 3 <= hi - lo + 1 <= |s|
  {
    var ns := Numbers(s);
    var i :| 0 <= i < |s| && s[i].Numbered? && s[i].number == lo;
    NumbersMembership(s, lo);
    assert ns != [];
    assert MinOf(ns) == lo by {
      NumbersMembership(s, MinOf(ns));
    }
    assert MaxOf(ns) == hi by {
      NumbersMembership(s, MaxOf(ns));
      NumbersMembership(s, hi);
    }
    ElementsAtMostOne(Colors(s));
    SameColorProjection(s);
  }

  /** A run with no jokers-only shortcut: a list of jokers alone passes the run check. */
  lemma RunAllJokers(s: seq<Tile>)
    requires forall t | t in s :: t.Joker?
    ensures IsValidRun(s)
  {
    NoNumbersWhenAllJokers(s);
  }

  /** The count of non-joker tiles equals the length of the projections. */
  lemma {:induction false} NumbersCount(s: seq<Tile>)
    ensures |Numbers(s)| == CountWhere(s, (t: Tile) => t.Numbered?)
    decreases |s|
  {
    if s != [] { NumbersCount(s[..|s| - 1]); }
  }

  /** Validity does not depend on the order of the tiles. */
  lemma ValidityIgnoresOrder(s: seq<Tile>, t: seq<Tile>)
    requires multiset(s) == multiset(t)
    ensures IsValidGroup(s) == IsValidGroup(t)
    ensures IsValidRun(s) == IsValidRun(t)
    ensures IsValid(s) == IsValid(t)
  {
    assert |s| == |multiset(s)| == |multiset(t)| == |t|;
    forall n ensures n in Numbers(s) <==> n in Numbers(t) {
      NumbersMembership(s, n);
      NumbersMembership(t, n);
      if exists i | 0 <= i < |s| :: s[i].Numbered? && s[i].number == n {
        var i :| 0 <= i < |s| && s[i].Numbered? && s[i].number == n;
        assert s[i] in multiset(t);
        var j :| 0 <= j < |t| && t[j] == s[i];
      }
      if exists j | 0 <= j < |t| :: t[j].Numbered? && t[j].number == n {
        var j :| 0 <= j < |t| && t[j].Numbered? && t[j].number == n;
        assert t[j] in multiset(s);
        var i :| 0 <= i < |s| && s[i] == t[j];
      }
    }
    forall c ensures c in Colors(s) <==> c in Colors(t) {
      ColorsMembership(s, c);
      ColorsMembership(t, c);
      if exists i | 0 <= i < |s| :: s[i].Numbered? && s[i].color == c {
        var i :| 0 <= i < |s| && s[i].Numbered? && s[i].color == c;
        assert s[i] in multiset(t);
        var j :| 0 <= j < |t| && t[j] == s[i];
      }
      if exists j | 0 <= j < |t| :: t[j].Numbered? && t[j].color == c {
        var j :| 0 <= j < |t| && t[j].Numbered? && t[j].color == c;
        assert t[j] in multiset(s);
        var i :| 0 <= i < |s| && s[i] == t[j];
      }
    }
    assert NumberSet(s) == NumberSet(t);
    assert ColorSet(s) == ColorSet(t);
    NumbersCount(s);
    NumbersCount(t);
    CountWherePermutation(s, t, (x: Tile) => x.Numbered?);
    var ns, nt := Numbers(s), Numbers(t);
    if ns != [] {
      assert nt != [] by { assert ns[0] in nt; }
      assert MinOf(ns) == MinOf(nt) by {
        assert MinOf(ns) in nt && MinOf(nt) in ns;
      }
      assert MaxOf(ns) == MaxOf(nt) by {
        assert MaxOf(ns) in nt && MaxOf(nt) in ns;
      }
    } else {
      assert nt == [];
    }
  }

  /** The value of a combination is the sum of its tile values: numbered tiles
      count their number and jokers nothing; the order of the tiles does not
      matter, and putting two lists side by side adds their values. */
  lemma ValueProperties(a: seq<Tile>, b: seq<Tile>)
    ensures GetValue(Combination(a + b)) == GetValue(Combination(a)) + GetValue(Combination(b))
    ensures multiset(a) == multiset(b) ==> GetValue(Combination(a)) == GetValue(Combination(b))
    ensures (forall t | t in a :: t.Joker?) ==> GetValue(Combination(a)) == 0
  {
    SumValuesAppend(a, b);
    if multiset(a) == multiset(b) { SumValuesPermutation(a, b); }
    if forall t | t in a :: t.Joker? { JokersWorthNothing(a); }
  }

  lemma {:induction false} JokersWorthNothing(s: seq<Tile>)
    requires forall t | t in s :: t.Joker?
    ensures SumValues(s) == 0
    decreases |s|
  {
    if s != [] { JokersWorthNothing(s[..|s| - 1]); }
  }

  /** Groups on concrete tiles: three numbers five in distinct colors pass. */
  lemma GroupExample()
    ensures IsValid([Numbered(1, 5, Red), Numbered(2, 5, Blue), Numbered(3, 5, Black)])
  {
    var g := [Numbered(1, 5, Red), Numbered(2, 5, Blue), Numbered(3, 5, Black)];
    GroupCharacterization(g);
  }

  /** A repeated color fails, both as a group and as a run. */
  lemma GroupRepeatedColorExample()
    ensures !IsValid([Numbered(1, 5, Red), Numbered(2, 5, Blue), Numbered(3, 5, Red)])
  {
    var d := [Numbered(1, 5, Red), Numbered(2, 5, Blue), Numbered(3, 5, Red)];
    GroupCharacterization(d);
    assert d[0].number == 5;
    RunCharacterization(d, 5, 5);
  }

  /** Four fives in distinct colours plus a joker: five tiles are too many
      for a group, and tiles of one number are no run. */
  lemma GroupTooLargeExample()
    ensures !IsValid([Numbered(1, 5, Red), Numbered(2, 5, Blue), Numbered(3, 5, Black),
                      Numbered(4, 5, Orange), Joker(5)])
  {
    var five := [Numbered(1, 5, Red), Numbered(2, 5, Blue), Numbered(3, 5, Black), Numbered(4, 5, Orange), Joker(5)];
    assert five[0].number == 5;
    RunCharacterization(five, 5, 5);
  }

  /** Runs on concrete tiles: a joker bridges the gap in 7, _, 9. */
  lemma RunJokerExample()
    ensures IsValid([Numbered(1, 7, Red), Joker(2), Numbered(3, 9, Red)])
  {
    var j := [Numbered(1, 7, Red), Joker(2), Numbered(3, 9, Red)];
    assert j[0].number == 7 && j[2].number == 9;
    RunCharacterization(j, 7, 9);
  }

  /** The span test lets a repeated number through: 7, 7, 8, 9 in one color passes. */
  lemma RunRepeatExample()
    ensures IsValid([Numbered(1, 7, Red), Numbered(2, 7, Red), Numbered(3, 8, Red), Numbered(4, 9, Red)])
  {
    var r := [Numbered(1, 7, Red), Numbered(2, 7, Red), Numbered(3, 8, Red), Numbered(4, 9, Red)];
    assert r[0].number == 7 && r[3].number == 9;
    assert NumberBounds(r, 7, 9);
    assert SameColor(r);
    RunCharacterization(r, 7, 9);
  }

  /** A gap with no joker to fill it fails: 7, 8, 10 spans four numbers with three tiles. */
  lemma RunGapExample()
    ensures !IsValid([Numbered(1, 7, Red), Numbered(2, 8, Red), Numbered(3, 10, Red)])
  {
    var gap := [Numbered(1, 7, Red), Numbered(2, 8, Red), Numbered(3, 10, Red)];
    assert gap[0].number == 7 && gap[2].number == 10;
    RunCharacterization(gap, 7, 10);
    GroupCharacterization(gap);
    assert gap[0].number != gap[1].number;
  }
}
