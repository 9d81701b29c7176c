/** Tiles, their point values, and counting facts about sequences of tiles
    that do not depend on the order of the tiles. */
module Tiles {

  datatype Option<T> = None | Some(value: T)

  /** The four tile colors, in the order the enumeration declares them. */
  datatype Color = Black | Red | Blue | Orange

  /** Tile identifiers are opaque values; the source draws them from uuid4. */
  type TileId = nat

  /** A physical tile: either a numbered tile of some color or a joker.
      Identity is by `id`; two numbered tiles may share number and color. */
  datatype Tile = Numbered(id: TileId, number: int, color: Color) | Joker(id: TileId)

  /** The point value of a tile: a joker is worth 0, a numbered tile its number. */
  function Value(t: Tile): (v: int)
    ensures t.Joker? ==> v == 0
    ensures t.Numbered? ==> v == t.number
  {
    match t
    case Joker(_) => 0
    case Numbered(_, n, _) => n
  }

  /** Sum of the point values of a sequence of tiles. */
  function SumValues(s: seq<Tile>): int
  {
    if s == [] then 0 else SumValues(s[..|s| - 1]) + Value(s[|s| - 1])
  }

  lemma {:induction false} SumValuesAppend(a: seq<Tile>, b: seq<Tile>)
    ensures SumValues(a + b) == SumValues(a) + SumValues(b)
    decreases |b|
  {
    if b == [] {
      assert a + b == a;
    } else {
      var b' := b[..|b| - 1];
      assert (a + b)[..|a + b| - 1] == a + b';
      SumValuesAppend(a, b');
    }
  }

  /** Number of tiles of `s` that satisfy `p`. */
  function CountWhere(s: seq<Tile>, p: Tile -> bool): (n: nat)
    ensures n <= |s|
  {
    if s == [] then 0 else CountWhere(s[..|s| - 1], p) + (if p(s[|s| - 1]) then 1 else 0)
  }

  lemma {:induction false} CountWhereAppend(a: seq<Tile>, b: seq<Tile>, p: Tile -> bool)
    ensures CountWhere(a + b, p) == CountWhere(a, p) + CountWhere(b, p)
    decreases |b|
  {
    if b == [] {
      assert a + b == a;
    } else {
      var b' := b[..|b| - 1];
      assert (a + b)[..|a + b| - 1] == a + b';
      CountWhereAppend(a, b', p);
    }
  }

  /** Counting is blind to order: two sequences holding the same multiset of
      tiles have the same number of tiles satisfying any predicate. */
  lemma {:induction false} CountWherePermutation(s: seq<Tile>, t: seq<Tile>, p: Tile -> bool)
    requires multiset(s) == multiset(t)
    ensures CountWhere(s, p) == CountWhere(t, p)
    decreases |s|
  {
    if s == [] {
      assert |t| == |multiset(t)| == 0;
    } else {
      var x := s[|s| - 1];
      var s' := s[..|s| - 1];
      assert s == s' + [x];
      assert x in multiset(t);
      var k :| 0 <= k < |t| && t[k] == x;
      var t' := t[..k] + t[k + 1..];
      assert t == t[..k] + [x] + t[k + 1..];
      assert multiset(t) == multiset(t[..k]) + multiset{x} + multiset(t[k + 1..]);
      assert multiset(s) == multiset(s') + multiset{x};
      assert multiset(t') == multiset(t[..k]) + multiset(t[k + 1..]);
      assert multiset(t') == multiset(t) - multiset{x};
      assert multiset(s') == multiset(s) - multiset{x};
      CountWherePermutation(s', t', p);
      CountWhereAppend(t[..k], [x], p);
      CountWhereAppend(t[..k] + [x], t[k + 1..], p);
      CountWhereAppend(t[..k], t[k + 1..], p);
      assert [x][..0] == [];
    }
  }

  /** Summing values is blind to order, too. */
  lemma {:induction false} SumValuesPermutation(s: seq<Tile>, t: seq<Tile>)
    requires multiset(s) == multiset(t)
    ensures SumValues(s) == SumValues(t)
    decreases |s|
  {
    if s == [] {
      assert |t| == |multiset(t)| == 0;
    } else {
      var x := s[|s| - 1];
      var s' := s[..|s| - 1];
      assert s == s' + [x];
      assert x in multiset(t);
      var k :| 0 <= k < |t| && t[k] == x;
      var t' := t[..k] + t[k + 1..];
      assert t == t[..k] + [x] + t[k + 1..];
      assert multiset(t) == multiset(t[..k]) + multiset{x} + multiset(t[k + 1..]);
      assert multiset(s) == multiset(s') + multiset{x};
      assert multiset(t') == multiset(t[..k]) + multiset(t[k + 1..]);
      assert multiset(t') == multiset(t) - multiset{x};
      assert multiset(s') == multiset(s) - multiset{x};
      SumValuesPermutation(s', t');
      SumValuesAppend(t[..k], [x]);
      SumValuesAppend(t[..k] + [x], t[k + 1..]);
      SumValuesAppend(t[..k], t[k + 1..]);
      assert [x][..0] == [];
    }
  }

  /** Every tile of a multiset occurs once and no two of its tiles share an id:
      the "each id appears exactly once" half of tile conservation. Stated on
      the multiset so that any reordering of the tiles preserves it. */
  ghost predicate UniqueIds(m: multiset<Tile>)
  {
    && (forall x | x in m :: m[x] == 1)
    && (forall x, y | x in m && y in m && x.id == y.id :: x == y)
  }

  /** The ids of a sequence of tiles are pairwise distinct. */
  ghost predicate DistinctIds(s: seq<Tile>)
  {
    forall i, j | 0 <= i < j < |s| :: s[i].id != s[j].id
  }

  /** Pairwise-distinct ids in a sequence mean a multiset with unique ids. */
  lemma {:induction false} DistinctIdsUnique(s: seq<Tile>)
    requires DistinctIds(s)
    ensures UniqueIds(multiset(s))
    decreases |s|
  {
    if s != [] {
      var s' := s[..|s| - 1];
      var x := s[|s| - 1];
      assert s == s' + [x];
      assert DistinctIds(s');
      DistinctIdsUnique(s');
      assert forall y | y in s' :: y.id != x.id by {
        forall y | y in s' ensures y.id != x.id {
          var i :| 0 <= i < |s'| && s'[i] == y;
          assert s[i] == y;
        }
      }
      assert x !in multiset(s');
    }
  }

  /** Tiles that occur in two disjoint parts of a unique-id collection have
      different ids: no id is in both parts. */
  lemma UniqueIdsSplit(a: seq<Tile>, b: seq<Tile>, x: Tile, y: Tile)
    requires UniqueIds(multiset(a + b))
    requires x in a && y in b
    ensures x.id != y.id
  {
    var m := multiset(a + b);
    assert m == multiset(a) + multiset(b);
    assert x in m && y in m;
    assert m[x] == multiset(a)[x] + multiset(b)[x];
    assert multiset(b)[x] == 0;
    assert x != y;
  }

  /** A part of a unique-id collection is a unique-id collection. */
  lemma UniqueIdsPart(a: seq<Tile>, b: seq<Tile>)
    requires UniqueIds(multiset(a + b))
    ensures UniqueIds(multiset(a)) && UniqueIds(multiset(b))
  {
    var m := multiset(a + b);
    assert m == multiset(a) + multiset(b);
    forall x | x in multiset(a) ensures multiset(a)[x] == 1 {
      assert x in m && m[x] == multiset(a)[x] + multiset(b)[x];
    }
    forall x | x in multiset(b) ensures multiset(b)[x] == 1 {
      assert x in m && m[x] == multiset(a)[x] + multiset(b)[x];
    }
  }
}
