/** Axis-aligned rectangles of the atlas canvas and the coverage arithmetic used to
    state that the free divisions and the placed textures tile the canvas. */
module Geometry {

  /** A free rectangle of the ledger (`_division`): top-left corner and extent. */
  datatype Division = Division(x: nat, y: nat, w: nat, h: nat)

  predicate Positive(d: Division) { d.w >= 1 && d.h >= 1 }

  predicate AllPositive(ds: seq<Division>) {
    forall k :: 0 <= k < |ds| ==> Positive(ds[k])
  }

  function Area(d: Division): nat { d.w * d.h }

  /** 1 when the cell (px, py) lies in d (half-open extents), 0 otherwise. */
  function Covers(d: Division, px: int, py: int): nat {
    if d.x <= px < d.x + d.w && d.y <= py < d.y + d.h then 1 else 0
  }

  /** How many rectangles of ds contain the cell (px, py). */
  function Count(ds: seq<Division>, px: int, py: int): nat
    decreases |ds|
  {
    if ds == [] then 0 else Count(ds[..|ds| - 1], px, py) + Covers(ds[|ds| - 1], px, py)
  }

  /** The whole canvas of edge s. */
  function Square(s: nat): Division { Division(0, 0, s, s) }

  /** The free rectangles and the used rectangles together cover every cell of the
      canvas exactly once and nothing outside it. */
  ghost predicate Tiles(free: seq<Division>, used: seq<Division>, s: nat) {
    forall px, py :: Count(free, px, py) + Count(used, px, py) == Covers(Square(s), px, py)
  }

  /** a and b cover every cell the same number of times. */
  ghost predicate SameCover(a: seq<Division>, b: seq<Division>) {
    forall px, py :: Count(a, px, py) == Count(b, px, py)
  }

  /** Free rectangles with the same coverage as a tiling's free part tile as well. */
  lemma SameCoverTiles(a: seq<Division>, b: seq<Division>, used: seq<Division>, s: nat)
    requires SameCover(a, b) && Tiles(b, used, s)
    ensures Tiles(a, used, s)
  {
  }

  /** Removal by moving the last element into slot i and shrinking by one. */
  function SwapRemove<T>(ds: seq<T>, i: nat): (r: seq<T>)
    requires i < |ds|
    ensures |r| == |ds| - 1
    ensures forall k :: 0 <= k < |r| && k != i ==> r[k] == ds[k]
    ensures i < |r| ==> r[i] == ds[|ds| - 1]
  {
    ds[i := ds[|ds| - 1]][..|ds| - 1]
  }

  /** Swap-removal takes exactly one copy of the removed element out of the multiset. */
  lemma SwapRemoveMultiset<T>(ds: seq<T>, i: nat)
    requires i < |ds|
    ensures multiset(SwapRemove(ds, i)) == multiset(ds) - multiset{ds[i]}
  {
    var n := |ds|;
    if i == n - 1 {
      assert ds == SwapRemove(ds, i) + [ds[i]];
    } else {
      var pre, mid := ds[..i], ds[i + 1..n - 1];
      SwapRemoveShape(ds, i, pre, mid);
      MultisetSwap(pre, ds[i], mid, ds[n - 1]);
    }
  }

  lemma SwapRemoveShape<T>(ds: seq<T>, i: nat, pre: seq<T>, mid: seq<T>)
    requires i < |ds| - 1 && pre == ds[..i] && mid == ds[i + 1..|ds| - 1]
    ensures SwapRemove(ds, i) == pre + [ds[|ds| - 1]] + mid
    ensures ds == pre + [ds[i]] + mid + [ds[|ds| - 1]]
  {
  }

  lemma MultisetSwap<T>(pre: seq<T>, x: T, mid: seq<T>, last: T)
    ensures multiset(pre + [last] + mid) == multiset(pre + [x] + mid + [last]) - multiset{x}
  {
  }

  lemma CountSingle(d: Division, px: int, py: int)
    ensures Count([d], px, py) == Covers(d, px, py)
  {
    assert [d][..0] == [];
  }

  lemma CountSnoc(ds: seq<Division>, d: Division, px: int, py: int)
    ensures Count(ds + [d], px, py) == Count(ds, px, py) + Covers(d, px, py)
  {
    assert (ds + [d])[..|ds|] == ds;
  }

  /** Coverage of a concatenation is the sum of the coverages. */
  lemma {:induction false} CountAppend(a: seq<Division>, b: seq<Division>, px: int, py: int)
    ensures Count(a + b, px, py) == Count(a, px, py) + Count(b, px, py)
    decreases |b|
  {
    if b == [] {
      assert a + b == a;
    } else {
      var b' := b[..|b| - 1];
      assert a + b == (a + b') + [b[|b| - 1]];
      assert b == b' + [b[|b| - 1]];
      CountSnoc(a + b', b[|b| - 1], px, py);
      CountSnoc(b', b[|b| - 1], px, py);
      CountAppend(a, b', px, py);
    }
  }

  /** Overwriting one slot trades that slot's coverage for the new value's. */
  lemma {:induction false} CountUpdate(ds: seq<Division>, i: nat, v: Division, px: int, py: int)
    requires i < |ds|
    ensures Count(ds[i := v], px, py) == Count(ds, px, py) - Covers(ds[i], px, py) + Covers(v, px, py)
    decreases |ds|
  {
    var n := |ds|;
    if i == n - 1 {
      assert ds[i := v][..n - 1] == ds[..n - 1];
    } else {
      assert ds[i := v][..n - 1] == ds[..n - 1][i := v];
      CountUpdate(ds[..n - 1], i, v, px, py);
    }
  }

  /** Swap-removal subtracts exactly the removed rectangle's coverage. */
  lemma CountSwapRemove(ds: seq<Division>, i: nat)
    requires i < |ds|
    ensures forall px, py :: Count(SwapRemove(ds, i), px, py) == Count(ds, px, py) - Covers(ds[i], px, py)
  {
    forall px, py
      ensures Count(SwapRemove(ds, i), px, py) == Count(ds, px, py) - Covers(ds[i], px, py)
    {
      CountSwapRemoveAt(ds, i, px, py);
    }
  }

  lemma CountSwapRemoveAt(ds: seq<Division>, i: nat, px: int, py: int)
    requires i < |ds|
    ensures Count(SwapRemove(ds, i), px, py) == Count(ds, px, py) - Covers(ds[i], px, py)
  {
    var n := |ds|;
    var u := ds[i := ds[n - 1]];
    CountUpdate(ds, i, ds[n - 1], px, py);
    assert u == u[..n - 1] + [ds[n - 1]];
    CountSnoc(u[..n - 1], ds[n - 1], px, py);
  }

  /** Two distinct slots of a sequence are both counted at every cell. */
  lemma {:induction false} CountAtLeastPair(ds: seq<Division>, i: nat, j: nat, px: int, py: int)
    requires i < |ds| && j < |ds| && i != j
    ensures Count(ds, px, py) >= Covers(ds[i], px, py) + Covers(ds[j], px, py)
    decreases |ds|
  {
    var n := |ds|;
    var front := ds[..n - 1];
    if i == n - 1 || j == n - 1 {
      var other := if i == n - 1 then j else i;
      CountAtLeastOne(front, other, px, py);
    } else {
      CountAtLeastPair(front, i, j, px, py);
    }
  }

  lemma {:induction false} CountAtLeastOne(ds: seq<Division>, i: nat, px: int, py: int)
    requires i < |ds|
    ensures Count(ds, px, py) >= Covers(ds[i], px, py)
    decreases |ds|
  {
    if i < |ds| - 1 {
      CountAtLeastOne(ds[..|ds| - 1], i, px, py);
    }
  }

  /** Any two pieces of a tiling, free or used, are disjoint and inside the canvas. */
  lemma TilesDisjoint(free: seq<Division>, used: seq<Division>, s: nat, i: nat, j: nat)
    requires Tiles(free, used, s)
    requires i < |free + used| && j < |free + used| && i != j
    ensures forall px, py ::
      Covers((free + used)[i], px, py) + Covers((free + used)[j], px, py) <= Covers(Square(s), px, py)
  {
    forall px, py
      ensures Covers((free + used)[i], px, py) + Covers((free + used)[j], px, py) <= Covers(Square(s), px, py)
    {
      CountAppend(free, used, px, py);
      CountAtLeastPair(free + used, i, j, px, py);
    }
  }

  /** The canvas with nothing placed is tiled by one full-canvas division. */
  lemma InitialTiling(s: nat)
    ensures Tiles([Square(s)], [], s)
  {
    forall px, py ensures Count([Square(s)], px, py) + Count([], px, py) == Covers(Square(s), px, py) {
      CountSingle(Square(s), px, py);
    }
  }
}
