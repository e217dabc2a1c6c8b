/** The texture-atlas rectangle packer: a ledger of free divisions that is split on
    placement, defragmented by merging neighbours, and grown by doubling the canvas. */
module Atlas {
  import opened Geometry

  /** Divisions at most this tall are split so that the right strip keeps the full height. */
  const SWAP_SPLIT_MAX_HEIGHT: nat := 256

  /** Bits of `_texture.flags`. */
  const HAS_ALPHA: bv8 := 1
  const IS_ROTATED: bv8 := 2

  type Byte = b: int | 0 <= b < 256

  /** One source image awaiting placement (`_entry`): its size, the caller's index and
      its RGBA8 pixels, row-major. */
  datatype Entry = Entry(w: nat, h: nat, index: nat, pixels: seq<Byte>)

  /** A placement record (`_texture`): post-rotation size and position in the canvas. */
  datatype Texture = Texture(index: nat, x: nat, y: nat, w: nat, h: nat, flags: bv8)

  function RectOf(t: Texture): Division { Division(t.x, t.y, t.w, t.h) }

  predicate EntryPositive(e: Entry) { e.w >= 1 && e.h >= 1 }

  predicate EntriesPositive(es: seq<Entry>) {
    forall i :: 0 <= i < |es| ==> EntryPositive(es[i])
  }

  predicate FitsUpright(w: nat, h: nat, d: Division) { w <= d.w && h <= d.h }

  predicate FitsRotated(w: nat, h: nat, d: Division) { h <= d.w && w <= d.h }

  predicate Fits(e: Entry, d: Division) { FitsUpright(e.w, e.h, d) || FitsRotated(e.w, e.h, d) }

  /** The record place_texture writes for entry e in division d: at d's corner, unrotated
      when that fits, else with width and height swapped and IS_ROTATED set. */
  function Placement(e: Entry, d: Division): (t: Texture)
    requires Fits(e, d)
    ensures t.x == d.x && t.y == d.y && t.index == 0
    ensures t.w <= d.w && t.h <= d.h
    ensures t.flags == 0 <==> FitsUpright(e.w, e.h, d)
    ensures PlacedAs(t, e)
  {
    if FitsUpright(e.w, e.h, d) then Texture(0, d.x, d.y, e.w, e.h, 0)
    else Texture(0, d.x, d.y, e.h, e.w, IS_ROTATED)
  }

  /** t records e either as is or rotated, and the flag says which. */
  predicate PlacedAs(t: Texture, e: Entry) {
    t.index == 0 &&
    ((t.flags == 0 && t.w == e.w && t.h == e.h) ||
     (t.flags == IS_ROTATED && t.w == e.h && t.h == e.w))
  }

  /** The 0, 1 or 2 divisions split_division appends for the leftover of d after a
      tw x th placement at its corner: bottom strip first, then right strip. */
  function Split(d: Division, tw: nat, th: nat): (r: seq<Division>)
    ensures |r| == (if d.h > th then 1 else 0) + (if d.w > tw then 1 else 0)
    ensures d.h > th ==> r[0] == Division(d.x, d.y + th, if d.h <= SWAP_SPLIT_MAX_HEIGHT then tw else d.w, d.h - th)
    ensures d.w > tw ==> r[|r| - 1] == Division(d.x + tw, d.y, d.w - tw, if d.h <= SWAP_SPLIT_MAX_HEIGHT then d.h else th)
  {
    var swapSplit := d.h <= SWAP_SPLIT_MAX_HEIGHT;
    (if d.h > th then [Division(d.x, d.y + th, if swapSplit then tw else d.w, d.h - th)] else []) +
    (if d.w > tw then [Division(d.x + tw, d.y, d.w - tw, if swapSplit then d.h else th)] else [])
  }

  /** The placed rectangle and the split pieces partition the consumed division. */
  lemma SplitCovers(d: Division, tw: nat, th: nat)
    requires tw <= d.w && th <= d.h
    ensures forall px, py ::
      Covers(d, px, py) == Covers(Division(d.x, d.y, tw, th), px, py) + Count(Split(d, tw, th), px, py)
  {
    var pieces := Split(d, tw, th);
    forall px, py
      ensures Covers(d, px, py) == Covers(Division(d.x, d.y, tw, th), px, py) + Count(pieces, px, py)
    {
      if |pieces| == 1 {
        CountSingle(pieces[0], px, py);
      } else if |pieces| == 2 {
        assert pieces == [pieces[0]] + [pieces[1]];
        CountSingle(pieces[0], px, py);
        CountSnoc([pieces[0]], pieces[1], px, py);
      }
    }
  }

  /** The areas of the placed rectangle and the pieces add up to the division's area. */
  lemma SplitAreas(d: Division, tw: nat, th: nat)
    requires tw <= d.w && th <= d.h
    ensures Area(d) == tw * th + Sum(Split(d, tw, th))
  {
    var pieces := Split(d, tw, th);
    var a, b := d.w - tw, d.h - th;
    var swap := d.h <= SWAP_SPLIT_MAX_HEIGHT;
    var bottom := if swap then tw * b else d.w * b;
    var right := if swap then a * d.h else a * th;
    SumPieces(pieces, d, tw, th, bottom, right);
    if swap {
      Distribute(tw, a, th, b);
    } else {
      Distribute2(tw, a, th, b);
    }
  }

  /** The pieces' areas: the bottom piece's and the right piece's, 0 for a missing one. */
  lemma SumPieces(pieces: seq<Division>, d: Division, tw: nat, th: nat, bottom: nat, right: nat)
    requires tw <= d.w && th <= d.h && pieces == Split(d, tw, th)
    requires bottom == if d.h <= SWAP_SPLIT_MAX_HEIGHT then tw * (d.h - th) else d.w * (d.h - th)
    requires right == if d.h <= SWAP_SPLIT_MAX_HEIGHT then (d.w - tw) * d.h else (d.w - tw) * th
    ensures Sum(pieces) == bottom + right
  {
    if d.h == th {
      assert bottom == 0;
    }
    if d.w == tw {
      assert right == 0;
    }
    if |pieces| == 2 {
      assert Area(pieces[0]) == bottom && Area(pieces[1]) == right;
      assert pieces[1..] == [pieces[1]];
      assert Sum([pieces[1]]) == Area(pieces[1]) + Sum([]);
    } else if |pieces| == 1 {
      assert Area(pieces[0]) == bottom + right;
      assert pieces[1..] == [];
    }
  }

  lemma Distribute(tw: nat, a: nat, th: nat, b: nat)
    ensures (tw + a) * (th + b) == tw * th + tw * b + a * (th + b)
  {
  }

  lemma Distribute2(tw: nat, a: nat, th: nat, b: nat)
    ensures (tw + a) * (th + b) == tw * th + (tw + a) * b + a * th
  {
  }

  function Sum(ds: seq<Division>): nat {
    if ds == [] then 0 else Area(ds[0]) + Sum(ds[1..])
  }

  /** Pieces of a positive division split by a positive placement are positive. */
  lemma SplitPositive(d: Division, tw: nat, th: nat)
    requires Positive(d) && tw >= 1 && th >= 1 && tw <= d.w && th <= d.h
    ensures AllPositive(Split(d, tw, th))
  {
  }

  /** can_merge: the two share a full edge, side by side or one above the other. */
  predicate CanMerge(a: Division, b: Division) {
    (a.y == b.y && a.h == b.h && (a.x + a.w == b.x || b.x + b.w == a.x)) ||
    (a.x == b.x && a.w == b.w && (a.y + a.h == b.y || b.y + b.h == a.y))
  }

  /** The rectangle merge_divisions writes: the minimum corner, and the summed extent
      along every axis where the two corners differ. */
  function Merged(a: Division, b: Division): Division {
    Division(if a.x < b.x then a.x else b.x,
             if a.y < b.y then a.y else b.y,
             if a.x == b.x then a.w else a.w + b.w,
             if a.y == b.y then a.h else a.h + b.h)
  }

  lemma CanMergeSymmetric(a: Division, b: Division)
    ensures CanMerge(a, b) == CanMerge(b, a)
  {
  }

  /** For positive neighbours the merged rectangle covers exactly the two of them. */
  lemma MergeCovers(a: Division, b: Division)
    requires CanMerge(a, b) && Positive(a) && Positive(b)
    ensures Positive(Merged(a, b))
    ensures forall px, py :: Covers(Merged(a, b), px, py) == Covers(a, px, py) + Covers(b, px, py)
    ensures Area(Merged(a, b)) == Area(a) + Area(b)
  {
    var m := Merged(a, b);
    if a.y == b.y && a.h == b.h && (a.x + a.w == b.x || b.x + b.w == a.x) {
      assert m.w == a.w + b.w && m.h == a.h;
      assert Area(m) == a.w * a.h + b.w * a.h;
    } else {
      assert m.w == a.w && m.h == a.h + b.h;
      assert Area(m) == a.w * a.h + a.w * b.h;
    }
  }

  /** Merging slot s into slot f of a positive ledger keeps it positive and keeps the
      coverage of every cell. */
  lemma MergeKeepsCover(ds: seq<Division>, f: nat, s: nat)
    requires f < s < |ds| && CanMerge(ds[f], ds[s]) && AllPositive(ds)
    ensures AllPositive(MergeAt(ds, f, s)) && SameCover(MergeAt(ds, f, s), ds)
  {
    var u := ds[f := Merged(ds[f], ds[s])];
    MergeCovers(ds[f], ds[s]);
    CountSwapRemove(u, s);
    forall px, py ensures Count(SwapRemove(u, s), px, py) == Count(ds, px, py) {
      CountUpdate(ds, f, Merged(ds[f], ds[s]), px, py);
    }
  }

  predicate NoMergeable(ds: seq<Division>) {
    forall a, b :: 0 <= a < b < |ds| ==> !CanMerge(ds[a], ds[b])
  }

  /** The ledger after merge_divisions(f, s): the union goes to slot f and the last
      division moves into slot s. */
  function MergeAt(ds: seq<Division>, f: nat, s: nat): (r: seq<Division>)
    requires f < s < |ds|
    ensures |r| == |ds| - 1
  {
    SwapRemove(ds[f := Merged(ds[f], ds[s])], s)
  }

  /** (f, s) is the first mergeable pair in the order of the nested first/second scan. */
  predicate FirstMergeable(ds: seq<Division>, f: nat, s: nat) {
    f < s < |ds| && CanMerge(ds[f], ds[s]) &&
    forall a, b :: 0 <= a < b < |ds| && (a < f || (a == f && b < s)) ==> !CanMerge(ds[a], ds[b])
  }

  lemma FirstMergeableUnique(ds: seq<Division>)
    ensures forall f, s, f', s' :: FirstMergeable(ds, f, s) && FirstMergeable(ds, f', s') ==> f == f' && s == s'
  {
  }

  /** No division after slot x can merge with slot x. */
  predicate RowFree(ds: seq<Division>, x: nat) {
    forall y :: x < y < |ds| ==> !CanMerge(ds[x], ds[y])
  }

  /** A ledger with some mergeable pair has a first one. */
  lemma FirstMergeableExists(ds: seq<Division>)
    requires !NoMergeable(ds)
    ensures exists f, s :: FirstMergeable(ds, f, s)
  {
    var a, b :| 0 <= a < b < |ds| && CanMerge(ds[a], ds[b]);
    var f := 0;
    while RowFree(ds, f)
      invariant f <= a
      invariant forall x :: 0 <= x < f ==> RowFree(ds, x)
      decreases a - f
    {
      f := f + 1;
    }
    var t :| f < t < |ds| && CanMerge(ds[f], ds[t]);
    var s := f + 1;
    while !CanMerge(ds[f], ds[s])
      invariant f < s <= t
      invariant forall y :: f < y < s ==> !CanMerge(ds[f], ds[y])
      decreases t - s
    {
      s := s + 1;
    }
    forall x, y | 0 <= x < y < |ds| && (x < f || (x == f && y < s))
      ensures !CanMerge(ds[x], ds[y])
    {
      if x < f {
        assert RowFree(ds, x);
      }
    }
    assert FirstMergeable(ds, f, s);
  }

  /** No division of ds takes e, upright or rotated. */
  predicate NoFit(e: Entry, ds: seq<Division>) {
    forall j :: 0 <= j < |ds| ==> !Fits(e, ds[j])
  }

  /** The ledger the last scan of place_texture sees for entry e: while nothing takes e
      and some pair can merge, the first mergeable pair is merged and the scan restarts. */
  ghost function Retry(ds: seq<Division>, e: Entry): (r: seq<Division>)
    ensures |r| <= |ds|
    decreases |ds|
  {
    if !NoFit(e, ds) || NoMergeable(ds) then ds
    else
      FirstMergeableExists(ds);
      var f, s :| FirstMergeable(ds, f, s);
      Retry(MergeAt(ds, f, s), e)
  }

  /** One round of the retry: with nothing fitting, the first mergeable pair is merged. */
  lemma RetryStep(ds: seq<Division>, e: Entry, f: nat, s: nat)
    requires NoFit(e, ds) && FirstMergeable(ds, f, s)
    ensures Retry(ds, e) == Retry(MergeAt(ds, f, s), e)
  {
    FirstMergeableUnique(ds);
  }

  /** The retry ends either with a ledger where e fits, or with one where nothing fits
      and nothing can merge; a ledger where e already fits is left as it is. */
  lemma {:induction false} RetryStops(ds: seq<Division>, e: Entry)
    ensures !NoFit(e, ds) ==> Retry(ds, e) == ds
    ensures NoFit(e, Retry(ds, e)) ==> NoMergeable(Retry(ds, e))
    decreases |ds|
  {
    if NoFit(e, ds) && !NoMergeable(ds) {
      FirstMergeableExists(ds);
      var f, s :| FirstMergeable(ds, f, s);
      RetryStep(ds, e, f, s);
      RetryStops(MergeAt(ds, f, s), e);
    }
  }

  /** Merging during the retry keeps a positive ledger positive and covering the same cells. */
  lemma {:induction false} RetryKeepsCover(ds: seq<Division>, e: Entry)
    requires AllPositive(ds)
    ensures AllPositive(Retry(ds, e)) && SameCover(Retry(ds, e), ds)
    decreases |ds|
  {
    if NoFit(e, ds) && !NoMergeable(ds) {
      FirstMergeableExists(ds);
      var f, s :| FirstMergeable(ds, f, s);
      RetryStep(ds, e, f, s);
      MergeKeepsCover(ds, f, s);
      RetryKeepsCover(MergeAt(ds, f, s), e);
    }
  }

  /** The single merge pass of resize_packer, resumed at (first, second): pairs are visited
      in nested order, a mergeable pair is merged at once (its slot `second` then holds the
      former last division), and the scan goes on with the next `second` without
      restarting. */
  function MergePass(ds: seq<Division>, first: nat, second: nat): (r: seq<Division>)
    requires first < second
    ensures |r| <= |ds|
    decreases |ds| - first, |ds| + 1 - second
  {
    if first + 1 >= |ds| then ds
    else if second >= |ds| then MergePass(ds, first + 1, first + 2)
    else if CanMerge(ds[first], ds[second]) then MergePass(MergeAt(ds, first, second), first, second + 1)
    else MergePass(ds, first, second + 1)
  }

  /** The merge pass keeps a positive ledger positive and covering the same cells. */
  lemma {:induction false} MergePassKeepsCover(ds: seq<Division>, first: nat, second: nat)
    requires first < second && AllPositive(ds)
    ensures AllPositive(MergePass(ds, first, second)) && SameCover(MergePass(ds, first, second), ds)
    decreases |ds| - first, |ds| + 1 - second
  {
    if first + 1 < |ds| {
      if second >= |ds| {
        MergePassKeepsCover(ds, first + 1, first + 2);
      } else if CanMerge(ds[first], ds[second]) {
        MergeKeepsCover(ds, first, second);
        MergePassKeepsCover(MergeAt(ds, first, second), first, second + 1);
      } else {
        MergePassKeepsCover(ds, first, second + 1);
      }
    }
  }

  /** A ledger without mergeable pairs goes through the pass unchanged. */
  lemma {:induction false} MergePassNoMerge(ds: seq<Division>, first: nat, second: nat)
    requires first < second && NoMergeable(ds)
    ensures MergePass(ds, first, second) == ds
    decreases |ds| - first, |ds| + 1 - second
  {
    if first + 1 < |ds| {
      if second >= |ds| {
        MergePassNoMerge(ds, first + 1, first + 2);
      } else {
        MergePassNoMerge(ds, first, second + 1);
      }
    }
  }

  /** The canvas edge after resize_packer, on unbounded integers. */
  function GrownScale(s: nat): (r: nat)
    ensures s >= 1 ==> r > s
    ensures r == s + s
  {
    2 * s
  }

  /** resize_packer as written: the u16 `old_scale * 2` wraps modulo 2^16. */
  function ScaleU16(s: nat): (r: nat)
    requires s < 0x1_0000
    ensures r < 0x1_0000
    ensures s < 0x8000 ==> r == GrownScale(s)
  {
    (s * 2) % 0x1_0000
  }

  /** Doubling 32768 wraps to 0, and 0 doubles to itself: from there the resize-and-retry
      loop of pack_atlas makes no progress. */
  lemma ScaleU16Wraps()
    ensures ScaleU16(0x8000) == 0 && ScaleU16(0) == 0
  {
  }

  /** The two divisions resize_packer appends: the strip below the old square (full new
      width) and the square to its right. */
  function Growth(s: nat): seq<Division> {
    [Division(0, s, GrownScale(s), s), Division(s, 0, s, s)]
  }

  /** The canvas edge after n resizes. */
  function Doubled(s: nat, n: nat): (r: nat)
    ensures s >= 1 ==> r >= s
    ensures n >= 1 && s >= 1 ==> r > s
  {
    if n == 0 then s else GrownScale(Doubled(s, n - 1))
  }

  /** a resizes followed by b more are a + b resizes. */
  lemma {:induction false} DoubledAdd(s: nat, a: nat, b: nat)
    ensures Doubled(Doubled(s, a), b) == Doubled(s, a + b)
    decreases b
  {
    if b > 0 {
      DoubledAdd(s, a, b - 1);
    }
  }

  /** The ledger pack_atlas's retry loop holds for entry e after n resizes, from ledger
      ds at edge s: every round is a failed place_texture, which leaves the ledger as the
      retry left it, followed by resize_packer. */
  ghost function Attempts(ds: seq<Division>, s: nat, e: Entry, n: nat): seq<Division> {
    if n == 0 then ds
    else MergePass(Retry(Attempts(ds, s, e, n - 1), e) + Growth(Doubled(s, n - 1)), 0, 1)
  }

  /** The old square and the two growth strips partition the new square. */
  lemma GrowthCovers(s: nat)
    ensures forall px, py ::
      Covers(Square(GrownScale(s)), px, py) == Covers(Square(s), px, py) + Count(Growth(s), px, py)
  {
    var g := Growth(s);
    forall px, py
      ensures Covers(Square(GrownScale(s)), px, py) == Covers(Square(s), px, py) + Count(g, px, py)
    {
      assert g == [g[0]] + [g[1]];
      CountSingle(g[0], px, py);
      CountSnoc([g[0]], g[1], px, py);
    }
  }

  /** Placing e into slot at of a tiled positive ledger keeps the tiling: the ledger
      loses the division and gains the split pieces, the used list gains the placement. */
  lemma PlaceKeepsTiling(ds: seq<Division>, used: seq<Division>, scale: nat, at: nat, e: Entry)
    requires at < |ds| && Fits(e, ds[at]) && EntryPositive(e)
    requires AllPositive(ds) && Tiles(ds, used, scale)
    ensures var t := Placement(e, ds[at]);
      AllPositive(SwapRemove(ds + Split(ds[at], t.w, t.h), at)) &&
      Tiles(SwapRemove(ds + Split(ds[at], t.w, t.h), at), used + [RectOf(t)], scale)
  {
    var t := Placement(e, ds[at]);
    var pieces := Split(ds[at], t.w, t.h);
    var grown := ds + pieces;
    SplitPositive(ds[at], t.w, t.h);
    SplitCovers(ds[at], t.w, t.h);
    CountSwapRemove(grown, at);
    assert grown[at] == ds[at];
    forall px, py
      ensures Count(SwapRemove(grown, at), px, py) + Count(used + [RectOf(t)], px, py) == Covers(Square(scale), px, py)
    {
      CountAppend(ds, pieces, px, py);
      CountSnoc(used, RectOf(t), px, py);
    }
  }

  /** Appending the growth strips to a tiling of the old canvas tiles the doubled one. */
  lemma GrowKeepsTiling(ds: seq<Division>, used: seq<Division>, s: nat)
    requires s >= 1 && AllPositive(ds) && Tiles(ds, used, s)
    ensures AllPositive(ds + Growth(s)) && Tiles(ds + Growth(s), used, GrownScale(s))
  {
    GrowthCovers(s);
    forall px, py
      ensures Count(ds + Growth(s), px, py) + Count(used, px, py) == Covers(Square(GrownScale(s)), px, py)
    {
      CountAppend(ds, Growth(s), px, py);
    }
  }

  // ---------------------------------------------------------------- ordering

  /** compare_entries: wider first, then taller first. */
  function CompareEntries(a: Entry, b: Entry): int {
    if a.w > b.w then -1
    else if a.w < b.w then 1
    else if a.h > b.h then -1
    else if a.h < b.h then 1
    else 0
  }

  predicate SortedByCompare(s: seq<Entry>) {
    forall i, j :: 0 <= i < j < |s| ==> CompareEntries(s[i], s[j]) <= 0
  }

  /** A sequence in compare_entries order is non-increasing by width, and among equal
      widths non-increasing by height. */
  lemma SortedMeansLargestFirst(s: seq<Entry>)
    requires SortedByCompare(s)
    ensures forall i, j :: 0 <= i < j < |s| ==> s[i].w >= s[j].w && (s[i].w == s[j].w ==> s[i].h >= s[j].h)
  {
  }

  lemma CompareAntisymmetric(a: Entry, b: Entry)
    ensures CompareEntries(a, b) == -CompareEntries(b, a)
    ensures CompareEntries(a, b) == 0 <==> a.w == b.w && a.h == b.h
  {
  }

  /** Whether a may precede b in compare_entries order. */
  predicate Precedes(a: Entry, b: Entry) { CompareEntries(a, b) <= 0 }

  function Insert(e: Entry, s: seq<Entry>): (r: seq<Entry>)
    ensures multiset(r) == multiset(s) + multiset{e}
  {
    if s == [] then [e]
    else if Precedes(e, s[0]) then [e] + s
    else
      assert s == [s[0]] + s[1..];
      [s[0]] + Insert(e, s[1..])
  }

  /** Inserting into a sorted sequence keeps it sorted. */
  lemma {:induction false} InsertSorted(e: Entry, s: seq<Entry>)
    requires SortedByCompare(s)
    ensures SortedByCompare(Insert(e, s))
    decreases |s|
  {
    if s != [] && !Precedes(e, s[0]) {
      var rest := Insert(e, s[1..]);
      InsertSorted(e, s[1..]);
      forall j | 0 <= j < |rest| ensures Precedes(s[0], rest[j]) {
        assert rest[j] in multiset(rest);
        if rest[j] != e {
          assert rest[j] in multiset(s[1..]);
          assert rest[j] in s[1..];
        }
      }
    }
  }

  /** One sorted order of the entries; qsort may return any sorted permutation, and
      this function shows that one always exists. */
  function SortEntries(s: seq<Entry>): (r: seq<Entry>)
    ensures SortedByCompare(r) && multiset(r) == multiset(s)
  {
    if s == [] then []
    else
      assert s == [s[0]] + s[1..];
      InsertSorted(s[0], SortEntries(s[1..]));
      Insert(s[0], SortEntries(s[1..]))
  }

  /** The original indices are 0 .. n-1, each once (object.c numbers entries so). */
  predicate IndexPermutation(es: seq<Entry>) {
    (forall i :: 0 <= i < |es| ==> es[i].index < |es|) &&
    (forall i, j :: 0 <= i < j < |es| ==> es[i].index != es[j].index)
  }

  /** Every element of a reordering comes from the original. */
  lemma PermutationMember(a: seq<Entry>, b: seq<Entry>, i: nat)
    requires multiset(a) == multiset(b) && i < |b|
    ensures exists p :: 0 <= p < |a| && a[p] == b[i]
  {
    assert b[i] in multiset(b);
    assert b[i] in a;
  }

  /** Reordering keeps the index property and entry positivity. */
  lemma PermutationKeeps(a: seq<Entry>, b: seq<Entry>)
    requires multiset(a) == multiset(b)
    ensures |a| == |b|
    ensures IndexPermutation(a) ==> IndexPermutation(b)
    ensures EntriesPositive(a) ==> EntriesPositive(b)
  {
    assert |a| == |multiset(a)| == |multiset(b)| == |b|;
    forall i | 0 <= i < |b| ensures exists p :: 0 <= p < |a| && a[p] == b[i] {
      PermutationMember(a, b, i);
    }
    if IndexPermutation(a) {
      forall i, j | 0 <= i < j < |b| ensures b[i].index != b[j].index {
        PermutationNoDuplicate(a, b, i, j);
      }
    }
  }

  /** Two slots of a reordering of an index-distinct sequence never share an index. */
  lemma PermutationNoDuplicate(a: seq<Entry>, b: seq<Entry>, i: nat, j: nat)
    requires multiset(a) == multiset(b) && IndexPermutation(a)
    requires i < j < |b|
    ensures b[i].index != b[j].index
  {
    if b[i].index == b[j].index {
      PermutationMember(a, b, i);
      PermutationMember(a, b, j);
      var p :| 0 <= p < |a| && a[p] == b[i];
      var q :| 0 <= q < |a| && a[q] == b[j];
      assert p == q;
      OccursTwice(b, i, j);
      OccursOnce(a, p);
      assert false;
    }
  }

  lemma OccursTwice(b: seq<Entry>, i: nat, j: nat)
    requires i < j < |b| && b[i] == b[j]
    ensures multiset(b)[b[i]] >= 2
  {
    var e := b[i];
    assert b == b[..j] + [e] + b[j + 1..];
    assert b[..j][i] == e;
    assert e in multiset(b[..j]);
  }

  lemma OccursOnce(a: seq<Entry>, p: nat)
    requires IndexPermutation(a) && p < |a|
    ensures multiset(a)[a[p]] == 1
  {
    var e := a[p];
    assert a == a[..p] + [e] + a[p + 1..];
    assert e !in a[..p];
    assert e !in a[p + 1..];
  }

  // ---------------------------------------------------------------- scans

  /** The first division, in ledger order, that takes the w x h entry upright or rotated;
      i == |ds| when none does. */
  method FindDivision(ds: seq<Division>, w: nat, h: nat) returns (i: nat, rotated: bool)
    ensures i <= |ds|
    ensures forall j :: 0 <= j < i ==> !FitsUpright(w, h, ds[j]) && !FitsRotated(w, h, ds[j])
    ensures i < |ds| ==> (FitsUpright(w, h, ds[i]) || FitsRotated(w, h, ds[i]))
    ensures i < |ds| ==> (rotated <==> !FitsUpright(w, h, ds[i]))
  {
    i := 0;
    while i < |ds|
      invariant i <= |ds|
      invariant forall j :: 0 <= j < i ==> !FitsUpright(w, h, ds[j]) && !FitsRotated(w, h, ds[j])
    {
      if w <= ds[i].w && h <= ds[i].h {
        return i, false;
      } else if h <= ds[i].w && w <= ds[i].h {
        return i, true;
      }
      i := i + 1;
    }
    rotated := false;
  }

  /** The first mergeable pair (f, s), f < s, in the order of the nested scan. */
  method FindMergeable(ds: seq<Division>) returns (found: bool, f: nat, s: nat)
    ensures found ==> FirstMergeable(ds, f, s)
    ensures !found <==> NoMergeable(ds)
  {
    if |ds| > 1 {
      f := 0;
      while f < |ds| - 1
        invariant f <= |ds| - 1
        invariant forall a, b :: 0 <= a < f && a < b < |ds| ==> !CanMerge(ds[a], ds[b])
      {
        s := f + 1;
        while s < |ds|
          invariant f + 1 <= s <= |ds|
          invariant forall b :: f < b < s ==> !CanMerge(ds[f], ds[b])
        {
          if CanMerge(ds[f], ds[s]) {
            return true, f, s;
          }
          s := s + 1;
        }
        f := f + 1;
      }
    }
    return false, 0, 0;
  }

  // ---------------------------------------------------------------- the packer

  /** Packer state (`_packer`): the canvas edge, its ceiling, the behaviour flags and the
      ledger of free divisions. The ghost field records the rectangles handed out. */
  class Packer {
    var scale: nat
    var maxScale: nat
    var flags: bv8
    var divisions: seq<Division>
    ghost var placed: seq<Division>

    /** The ledger and the placements tile the canvas, and no division is degenerate. */
    ghost predicate Sound()
      reads this
    {
      scale >= 1 && AllPositive(divisions) && Tiles(divisions, placed, scale)
    }

    /** The configuration the caller copies in before init_atlas. */
    constructor (scale: nat, maxScale: nat, flags: bv8)
      ensures this.scale == scale && this.maxScale == maxScale && this.flags == flags
      ensures divisions == [] && placed == []
    {
      this.scale := scale;
      this.maxScale := maxScale;
      this.flags := flags;
      divisions := [];
      placed := [];
    }

    /** split_division: append the leftover pieces of d after a tw x th placement. */
    method SplitDivision(tw: nat, th: nat, d: Division)
      modifies this
      ensures divisions == old(divisions) + Split(d, tw, th)
      ensures scale == old(scale) && maxScale == old(maxScale) && flags == old(flags) && placed == old(placed)
    {
      var swapSplit := d.h <= SWAP_SPLIT_MAX_HEIGHT;
      var added: seq<Division> := [];
      if d.h > th {
        added := added + [Division(d.x, d.y + th, if swapSplit then tw else d.w, d.h - th)];
      }
      if d.w > tw {
        added := added + [Division(d.x + tw, d.y, d.w - tw, if swapSplit then d.h else th)];
      }
      divisions := divisions + added;
    }

    /** merge_divisions: the union goes to slot f, the last division moves into slot s. */
    method MergeDivisions(f: nat, s: nat)
      requires f < s < |divisions|
      modifies this
      ensures divisions == MergeAt(old(divisions), f, s)
      ensures scale == old(scale) && maxScale == old(maxScale) && flags == old(flags) && placed == old(placed)
    {
      var merged := Merged(divisions[f], divisions[s]);
      divisions := divisions[f := merged];
      divisions := divisions[s := divisions[|divisions| - 1]][..|divisions| - 1];
    }

    /** place_texture: first fit over the ledger, rotated as a fallback; when nothing fits,
        merge the first mergeable pair and rescan. `merged` is the ledger as the last scan
        saw it and `at` the slot that was consumed. */
    method PlaceTexture(entries: seq<Entry>, textures: array<Texture>, k: nat)
      returns (ok: bool, ghost merged: seq<Division>, ghost at: nat)
      requires k < |entries| && entries[k].index < textures.Length
      modifies this, textures
      ensures scale == old(scale) && maxScale == old(maxScale) && flags == old(flags)
      ensures merged == Retry(old(divisions), entries[k])
      ensures old(AllPositive(divisions)) ==>
        AllPositive(merged) && SameCover(merged, old(divisions))
      ensures ok ==> at < |merged| && Fits(entries[k], merged[at])
      ensures ok ==> forall j :: 0 <= j < at ==> !Fits(entries[k], merged[j])
      ensures ok ==> textures[..] == old(textures[..])[entries[k].index := Placement(entries[k], merged[at])]
      ensures ok ==> var t := Placement(entries[k], merged[at]);
        divisions == SwapRemove(merged + Split(merged[at], t.w, t.h), at) &&
        placed == old(placed) + [RectOf(t)]
      ensures !ok ==> divisions == merged && placed == old(placed) && textures[..] == old(textures[..])
      ensures !ok ==> NoFit(entries[k], merged) && NoMergeable(merged)
      ensures old(Sound()) && EntryPositive(entries[k]) ==> Sound()
    {
      ghost var e := entries[k];
      ghost var target := Retry(divisions, e);
      ghost var positive0 := AllPositive(divisions);
      ghost var sound0 := Sound() && EntryPositive(e);
      if positive0 {
        RetryKeepsCover(divisions, e);
        if sound0 {
          SameCoverTiles(target, divisions, placed, scale);
        }
      }
      while true
        invariant scale == old(scale) && maxScale == old(maxScale) && flags == old(flags)
        invariant placed == old(placed) && textures[..] == old(textures[..])
        invariant Retry(divisions, e) == target
        decreases |divisions|
      {
        var i, rotated := FindDivision(divisions, entries[k].w, entries[k].h);
        if i < |divisions| {
          RetryStops(divisions, e);
          merged, at := divisions, i;
          Commit(entries[k], textures, i, rotated);
          return true, merged, at;
        }
        var found, f, s := FindMergeable(divisions);
        if !found {
          return false, divisions, 0;
        }
        RetryStep(divisions, e, f, s);
        MergeDivisions(f, s);
      }
    }

    /** The fit branch of place_texture for entry e and slot i: write the record at the
        slot's corner (rotated when only that fits), append the leftover pieces, and
        swap-remove the consumed slot. */
    method Commit(e: Entry, textures: array<Texture>, i: nat, rotated: bool)
      requires i < |divisions| && e.index < textures.Length && Fits(e, divisions[i])
      requires rotated <==> !FitsUpright(e.w, e.h, divisions[i])
      modifies this, textures
      ensures scale == old(scale) && maxScale == old(maxScale) && flags == old(flags)
      ensures var t := Placement(e, old(divisions)[i]);
        textures[..] == old(textures[..])[e.index := t] &&
        divisions == SwapRemove(old(divisions) + Split(old(divisions)[i], t.w, t.h), i) &&
        placed == old(placed) + [RectOf(t)]
      ensures old(Sound()) && EntryPositive(e) ==> Sound()
    {
      var texW, texH := e.w, e.h;
      var d := divisions[i];
      if rotated {
        texW, texH := texH, texW;
      }
      textures[e.index] := Texture(0, d.x, d.y, texW, texH, if rotated then IS_ROTATED else 0);
      assert textures[e.index] == Placement(e, d);
      SplitDivision(texW, texH, d);
      divisions := divisions[i := divisions[|divisions| - 1]][..|divisions| - 1];
      assert divisions == SwapRemove(old(divisions) + Split(d, texW, texH), i);
      placed := placed + [RectOf(textures[e.index])];
      if old(Sound()) && EntryPositive(e) {
        PlaceKeepsTiling(old(divisions), old(placed), scale, i, e);
      }
    }

    /** resize_packer: double the canvas, append the two strips of new area, then make one
        merge pass over all pairs that does not restart. */
    method ResizePacker()
      modifies this
      ensures scale == GrownScale(old(scale))
      ensures maxScale == old(maxScale) && flags == old(flags) && placed == old(placed)
      ensures divisions == MergePass(old(divisions) + Growth(old(scale)), 0, 1)
      ensures old(AllPositive(divisions)) && old(scale) >= 1 ==>
        AllPositive(divisions) &&
        SameCover(divisions, old(divisions) + Growth(old(scale)))
      ensures old(Sound()) ==> Sound()
    {
      var oldScale := scale;
      var newScale := GrownScale(oldScale);
      var bottomDiv := Division(0, oldScale, newScale, oldScale);
      var rightDiv := Division(oldScale, 0, oldScale, oldScale);
      divisions := divisions + [bottomDiv];
      divisions := divisions + [rightDiv];
      scale := newScale;
      assert divisions == old(divisions) + Growth(oldScale);
      ghost var grown := divisions;
      if |divisions| > 1 {
        var first := 0;
        while first < |divisions| - 1
          invariant first <= |divisions|
          invariant scale == newScale && maxScale == old(maxScale) && flags == old(flags) && placed == old(placed)
          invariant MergePass(divisions, first, first + 1) == MergePass(grown, 0, 1)
          decreases |divisions| - first
        {
          var second := first + 1;
          ghost var countBefore := |divisions|;
          while second < |divisions|
            invariant |divisions| <= countBefore
            invariant first < second <= |divisions| + 1
            invariant first < |divisions|
            invariant scale == newScale && maxScale == old(maxScale) && flags == old(flags) && placed == old(placed)
            invariant MergePass(divisions, first, second) == MergePass(grown, 0, 1)
            decreases |divisions| + 1 - second
          {
            if CanMerge(divisions[first], divisions[second]) {
              MergeDivisions(first, second);
            }
            second := second + 1;
          }
          first := first + 1;
        }
      }
      if old(AllPositive(divisions)) && oldScale >= 1 {
        assert AllPositive(grown);
        MergePassKeepsCover(grown, 0, 1);
        if old(Sound()) {
          GrowKeepsTiling(old(divisions), placed, oldScale);
          SameCoverTiles(divisions, grown, placed, scale);
        }
      }
    }
  }

  /** init_atlas: seed the ledger with the whole canvas and allocate a zeroed remap table. */
  method InitAtlas(packer: Packer, count: nat) returns (remap: array<nat>)
    modifies packer
    ensures packer.divisions == [Square(packer.scale)] && packer.placed == []
    ensures packer.scale == old(packer.scale) && packer.maxScale == old(packer.maxScale)
    ensures packer.flags == old(packer.flags)
    ensures fresh(remap) && remap.Length == count
    ensures forall i :: 0 <= i < count ==> remap[i] == 0
    ensures packer.scale >= 1 ==> packer.Sound()
  {
    packer.divisions := [Division(0, 0, packer.scale, packer.scale)];
    packer.placed := [];
    InitialTiling(packer.scale);
    remap := new nat[count];
    var i := 0;
    while i < count
      modifies remap
      invariant i <= count
      invariant forall j :: 0 <= j < i ==> remap[j] == 0
    {
      remap[i] := 0;
      i := i + 1;
    }
  }

  /** The qsort call of pack_atlas. The C library may leave entries that compare equal
      in any order, so its outcome `sorted` is a parameter: some permutation of the
      entries in compare_entries order (SortEntries shows that one exists). */
  method Qsort(entries: array<Entry>, sorted: seq<Entry>)
    requires SortedByCompare(sorted) && multiset(sorted) == multiset(entries[..])
    modifies entries
    ensures entries[..] == sorted
  {
    PermutationKeeps(entries[..], sorted);
    forall i | 0 <= i < entries.Length {
      entries[i] := sorted[i];
    }
  }

  /** The parts of the packer and of the record array that the retry touches, with
      whether the packer is Sound. */
  datatype Snapshot = Snapshot(scale: nat, maxScale: nat, divisions: seq<Division>,
                               placed: seq<Division>, textures: seq<Texture>, sound: bool)

  ghost function Snap(packer: Packer, textures: array<Texture>): Snapshot
    reads packer, textures
  {
    Snapshot(packer.scale, packer.maxScale, packer.divisions, packer.placed, textures[..], packer.Sound())
  }

  /** Where pack_atlas's retry for entry e stands after `grows` resizes, starting from
      `start`: the edge doubled `grows` times, each earlier round found no fit, and `m` is
      the ledger the latest scan saw. When that scan succeeded, the record, the ledger
      and the placements are updated as place_texture does; otherwise nothing fits and
      nothing else changed. */
  ghost predicate RetryState(e: Entry, start: Snapshot, now: Snapshot,
                             ok: bool, m: seq<Division>, at: nat, grows: nat)
  {
    now.maxScale == start.maxScale &&
    now.scale == Doubled(start.scale, grows) &&
    (grows >= 2 ==> Doubled(start.scale, grows - 1) <= now.maxScale) &&
    (forall n :: 0 <= n < grows ==> NoFit(e, Retry(Attempts(start.divisions, start.scale, e, n), e))) &&
    m == Retry(Attempts(start.divisions, start.scale, e, grows), e) &&
    (ok ==>
      at < |m| && Fits(e, m[at]) && (forall j :: 0 <= j < at ==> !Fits(e, m[j])) &&
      e.index < |start.textures| && now.textures == start.textures[e.index := Placement(e, m[at])] &&
      var t := Placement(e, m[at]);
      now.divisions == SwapRemove(m + Split(m[at], t.w, t.h), at) &&
      now.placed == start.placed + [RectOf(t)]) &&
    (!ok ==>
      now.divisions == m && NoFit(e, m) && now.placed == start.placed && now.textures == start.textures) &&
    (start.sound && EntryPositive(e) ==> now.sound)
  }

  /** One step of pack_atlas's placement loop: place entry k; when that fails, grow the
      canvas and retry, and give up once a retry fails with the canvas above max_scale.
      `grows` counts the resizes; `m` and `at` are the ledger the successful scan saw and
      the slot it consumed. */
  method PlaceOrGrow(packer: Packer, entries: seq<Entry>, textures: array<Texture>, k: nat)
    returns (ok: bool, ghost m: seq<Division>, ghost at: nat, ghost grows: nat)
    requires k < |entries| && entries[k].index < textures.Length && packer.scale >= 1
    modifies packer, textures
    ensures RetryState(entries[k], old(Snap(packer, textures)), Snap(packer, textures), ok, m, at, grows)
    ensures !ok ==> grows >= 1 && packer.scale > packer.maxScale
  {
    ghost var start := Snap(packer, textures);
    ok, m, at := FirstPlace(packer, entries, textures, k);
    grows := 0;
    if !ok {
      ok, m, at := GrowAndPlace(packer, entries, textures, k, start, 0, m);
      grows := 1;
      while !ok && packer.scale <= packer.maxScale
        invariant grows >= 1
        invariant RetryState(entries[k], start, Snap(packer, textures), ok, m, at, grows)
        decreases packer.maxScale - packer.scale
      {
        ok, m, at := GrowAndPlace(packer, entries, textures, k, start, grows, m);
        grows := grows + 1;
      }
    }
  }

  /** The first place_texture of pack_atlas's retry, before any resize. */
  method FirstPlace(packer: Packer, entries: seq<Entry>, textures: array<Texture>, k: nat)
    returns (ok: bool, ghost m: seq<Division>, ghost at: nat)
    requires k < |entries| && entries[k].index < textures.Length
    modifies packer, textures
    ensures RetryState(entries[k], old(Snap(packer, textures)), Snap(packer, textures), ok, m, at, 0)
  {
    ok, m, at := packer.PlaceTexture(entries, textures, k);
  }

  /** One round of the retry after a failed placement: resize_packer, then place_texture. */
  method GrowAndPlace(packer: Packer, entries: seq<Entry>, textures: array<Texture>, k: nat,
                      ghost start: Snapshot, ghost grows: nat, ghost m0: seq<Division>)
    returns (ok: bool, ghost m: seq<Division>, ghost at: nat)
    requires k < |entries| && entries[k].index < textures.Length
    requires RetryState(entries[k], start, Snap(packer, textures), false, m0, 0, grows)
    requires packer.scale >= 1 && (grows >= 1 ==> packer.scale <= packer.maxScale)
    modifies packer, textures
    ensures packer.scale > old(packer.scale)
    ensures RetryState(entries[k], start, Snap(packer, textures), ok, m, at, grows + 1)
  {
    packer.ResizePacker();
    ok, m, at := packer.PlaceTexture(entries, textures, k);
  }

  /** The remap loop of pack_atlas: remap[original index] = sorted position. */
  method FillRemap(entries: array<Entry>, remap: array<nat>)
    requires entries.Length == remap.Length && IndexPermutation(entries[..])
    modifies remap
    ensures forall s :: 0 <= s < entries.Length ==> remap[entries[s].index] == s
    ensures forall o :: 0 <= o < remap.Length ==> remap[o] < entries.Length && entries[remap[o]].index == o
  {
    var n := entries.Length;
    var sortedIndex := 0;
    while sortedIndex < n
      invariant sortedIndex <= n
      invariant forall j :: 0 <= j < sortedIndex ==> remap[entries[j].index] == j
    {
      remap[entries[sortedIndex].index] := sortedIndex;
      sortedIndex := sortedIndex + 1;
    }
    forall o | 0 <= o < n ensures remap[o] < n && entries[remap[o]].index == o {
      IndexCovered(entries[..], o);
    }
  }

  /** The placement loop of pack_atlas over the sorted entries: place each in turn,
      growing the canvas when one does not fit, and stop at the first entry that still
      does not fit above max_scale. `placedCount` entries (a prefix) were placed. */
  method PlaceAll(packer: Packer, sorted: seq<Entry>, textures: array<Texture>)
    returns (ghost placedCount: nat)
    requires IndexPermutation(sorted) && |sorted| == textures.Length && packer.scale >= 1
    modifies packer, textures
    ensures packer.scale >= old(packer.scale) && packer.maxScale == old(packer.maxScale)
    ensures exists g: nat :: packer.scale == Doubled(old(packer.scale), g)
    ensures placedCount <= |sorted|
    ensures placedCount < |sorted| ==> packer.scale > packer.maxScale
    ensures PlacedPrefix(sorted, placedCount, textures[..], old(packer.placed), packer.placed)
    ensures Untouched(sorted, placedCount, textures[..], old(textures[..]))
    ensures old(packer.Sound()) && EntriesPositive(sorted) ==> packer.Sound()
  {
    var n := |sorted|;
    ghost var sound0 := packer.Sound() && EntriesPositive(sorted);
    ghost var placed0 := packer.placed;
    ghost var textures0 := textures[..];
    ghost var grown: nat := 0;
    var sortedIndex := 0;
    while sortedIndex < n
      invariant sortedIndex <= n
      invariant packer.scale >= old(packer.scale) >= 1 && packer.maxScale == old(packer.maxScale)
      invariant packer.scale == Doubled(old(packer.scale), grown)
      invariant PlacedPrefix(sorted, sortedIndex, textures[..], placed0, packer.placed)
      invariant Untouched(sorted, sortedIndex, textures[..], textures0)
      invariant sound0 ==> packer.Sound()
    {
      ghost var tex0 := textures[..];
      ghost var placedBefore := packer.placed;
      var ok, m, a, grows := PlaceOrGrow(packer, sorted, textures, sortedIndex);
      DoubledAdd(old(packer.scale), grown, grows);
      grown := grown + grows;
      if !ok {
        return sortedIndex;
      }
      PlacedStep(sorted, sortedIndex, tex0, textures[..], textures0, placed0, placedBefore, packer.placed, m, a);
      sortedIndex := sortedIndex + 1;
    }
    placedCount := n;
  }

  /** pack_atlas. `sorted` is the order qsort leaves the entries in: some permutation of
      them sorted by compare_entries. Builds the remap table, then places entries in
      sorted order, growing the canvas when one does not fit, and gives up on all
      remaining entries when a retry after growth fails above max_scale.
      `placedCount` entries (a prefix of the sorted order) were placed. */
  method PackAtlas(packer: Packer, entries: array<Entry>, sorted: seq<Entry>,
                   textures: array<Texture>, remap: array<nat>)
    returns (ghost placedCount: nat)
    requires entries.Length == remap.Length == textures.Length
    requires IndexPermutation(entries[..])
    requires SortedByCompare(sorted) && multiset(sorted) == multiset(entries[..])
    requires packer.scale >= 1
    modifies packer, entries, textures, remap
    ensures entries[..] == sorted && IndexPermutation(sorted)
    ensures forall s :: 0 <= s < entries.Length ==> remap[entries[s].index] == s
    ensures forall o :: 0 <= o < remap.Length ==> remap[o] < entries.Length && entries[remap[o]].index == o
    ensures packer.scale >= old(packer.scale) && packer.maxScale == old(packer.maxScale)
    ensures exists g: nat :: packer.scale == Doubled(old(packer.scale), g)
    ensures placedCount <= entries.Length
    ensures placedCount < entries.Length ==> packer.scale > packer.maxScale
    ensures PlacedPrefix(sorted, placedCount, textures[..], old(packer.placed), packer.placed)
    ensures Untouched(sorted, placedCount, textures[..], old(textures[..]))
    ensures old(packer.Sound()) && EntriesPositive(old(entries[..])) ==> packer.Sound()
  {
    PermutationKeeps(entries[..], sorted);
    Qsort(entries, sorted);
    FillRemap(entries, remap);
    placedCount := PlaceAll(packer, entries[..], textures);
  }

  /** The first k sorted entries are placed: each record describes its entry, and the
      placement list grew from `placed0` by their rectangles in sorted order. */
  ghost predicate PlacedPrefix(sorted: seq<Entry>, k: nat, tex: seq<Texture>,
                               placed0: seq<Division>, placed: seq<Division>) {
    k <= |sorted| &&
    |placed| == |placed0| + k && placed[..|placed0|] == placed0 &&
    forall j :: 0 <= j < k ==>
      sorted[j].index < |tex| &&
      PlacedAs(tex[sorted[j].index], sorted[j]) && placed[|placed0| + j] == RectOf(tex[sorted[j].index])
  }

  /** The records of sorted entries k.. still hold what they held at the start. */
  ghost predicate Untouched(sorted: seq<Entry>, k: nat, tex: seq<Texture>, tex0: seq<Texture>) {
    |tex| == |tex0| &&
    forall j :: k <= j < |sorted| && sorted[j].index < |tex| ==> tex[sorted[j].index] == tex0[sorted[j].index]
  }

  /** Bookkeeping for one successful step of the placement loop: the entry just placed
      joins the placed prefix, and every other record is left as it was. */
  lemma PlacedStep(sorted: seq<Entry>, k: nat, tex0: seq<Texture>, tex1: seq<Texture>, start: seq<Texture>,
                   placed0: seq<Division>, before: seq<Division>, after: seq<Division>,
                   m: seq<Division>, a: nat)
    requires IndexPermutation(sorted) && k < |sorted| && |tex0| == |sorted|
    requires a < |m| && Fits(sorted[k], m[a])
    requires tex1 == tex0[sorted[k].index := Placement(sorted[k], m[a])]
    requires after == before + [RectOf(Placement(sorted[k], m[a]))]
    requires PlacedPrefix(sorted, k, tex0, placed0, before) && Untouched(sorted, k, tex0, start)
    ensures PlacedPrefix(sorted, k + 1, tex1, placed0, after) && Untouched(sorted, k + 1, tex1, start)
  {
    assert after[..|placed0|] == before[..|placed0|];
  }

  /** Every original index 0 .. n-1 is the index of some sorted entry. */
  lemma IndexCovered(es: seq<Entry>, o: nat)
    requires IndexPermutation(es) && o < |es|
    ensures exists s :: 0 <= s < |es| && es[s].index == o
  {
    var seen := set s | 0 <= s < |es| :: es[s].index;
    var range := Below(|es|);
    assert seen <= range;
    assert |seen| == |es| by { InjectiveImage(es); }
    SubsetSameSize(seen, range);
    assert o in seen;
  }

  /** The set {0, .., n-1}. */
  function Below(n: nat): (r: set<nat>)
    ensures |r| == n
    ensures forall v: nat :: v in r <==> v < n
  {
    if n == 0 then {} else Below(n - 1) + {n - 1}
  }

  lemma {:induction false} InjectiveImage(es: seq<Entry>)
    requires forall i, j :: 0 <= i < j < |es| ==> es[i].index != es[j].index
    ensures |set s | 0 <= s < |es| :: es[s].index| == |es|
    decreases |es|
  {
    if |es| > 0 {
      var front := es[..|es| - 1];
      var last := es[|es| - 1].index;
      assert (set s | 0 <= s < |es| :: es[s].index) ==
             (set s | 0 <= s < |front| :: front[s].index) + {last};
      assert last !in (set s | 0 <= s < |front| :: front[s].index);
      InjectiveImage(front);
    }
  }

  lemma SubsetSameSize(a: set<nat>, b: set<nat>)
    requires a <= b && |a| == |b|
    ensures a == b
  {
    assert a * (b - a) == {};
    assert b == a + (b - a);
    assert |b - a| == 0;
  }
}
