/** The pixel compositor of generate_atlas: every texture's block of RGBA8 pixels is copied
    from its entry into a zero-filled scale x scale canvas, and HAS_ALPHA is set on each
    texture that has a translucent pixel. */
module Compositor {
  import opened Geometry
  import opened Atlas

  /** Bytes per pixel (`channels`). */
  const CHANNELS: nat := 4

  /** Byte offset of channel c of canvas cell (px, py) in a canvas of edge s. */
  function CanvasIndex(s: nat, px: nat, py: nat, c: nat): (r: nat)
    ensures px < s && py < s && c < CHANNELS ==> r < s * s * CHANNELS
  {
    CanvasIndexBound(s, px, py, c);
    SourceIndex(s, px, py, c)
  }

  /** A cell of the canvas addresses a byte of the canvas buffer. */
  lemma CanvasIndexBound(s: nat, px: nat, py: nat, c: nat)
    ensures px < s && py < s && c < CHANNELS ==> SourceIndex(s, px, py, c) < s * s * CHANNELS
  {
    if px < s && py < s && c < CHANNELS {
      BlockBound(s, s, px, py, c);
    }
  }

  /** Byte offset of channel c of pixel (x, y) in a source image read with stride w. */
  function SourceIndex(w: nat, x: nat, y: nat, c: nat): nat { (y * w + x) * CHANNELS + c }

  predicate InBlock(t: Texture, px: nat, py: nat) {
    t.x <= px < t.x + t.w && t.y <= py < t.y + t.h
  }

  /** The texture's block lies inside the canvas of edge s. */
  predicate Inside(t: Texture, s: nat) { t.x + t.w <= s && t.y + t.h <= s }

  /** The byte the copy loop puts at channel c of canvas cell (px, py) of t's block: the
      source is read with the post-rotation width t.w as its stride. */
  function SourceByte(t: Texture, src: seq<Byte>, px: nat, py: nat, c: nat): Byte
    requires InBlock(t, px, py)
  {
    var i := SourceIndex(t.w, px - t.x, py - t.y, c);
    if i < |src| then src[i] else 0
  }

  /** The alpha byte of pixel (x, y) of src read with stride w (opaque when out of range). */
  function AlphaAt(src: seq<Byte>, w: nat, x: nat, y: nat): Byte {
    var i := SourceIndex(w, x, y, 3);
    if i < |src| then src[i] else 255
  }

  /** Some pixel of t's block, among the rows before y and the first x pixels of row y,
      has alpha below 255. */
  ghost predicate TranslucentBefore(t: Texture, src: seq<Byte>, y: nat, x: nat) {
    exists yy: nat, xx: nat :: xx < t.w && (yy < y || (yy == y && xx < x)) && AlphaAt(src, t.w, xx, yy) < 255
  }

  /** Some copied pixel of t's block has alpha below 255. */
  ghost predicate Translucent(t: Texture, src: seq<Byte>) { TranslucentBefore(t, src, t.h, 0) }

  /** The flags byte with HAS_ALPHA ored in when `alpha` holds. */
  function WithAlpha(f: bv8, alpha: bool): (r: bv8)
    ensures r & IS_ROTATED == f & IS_ROTATED
    ensures (r & HAS_ALPHA != 0) <==> (f & HAS_ALPHA != 0 || alpha)
    ensures alpha ==> r | HAS_ALPHA == r
  {
    if alpha then f | HAS_ALPHA else f
  }

  /** Oring HAS_ALPHA in twice is oring it in once, when either condition holds. */
  lemma WithAlphaTwice(f: bv8, a: bool, b: bool)
    ensures WithAlpha(WithAlpha(f, a), b) == WithAlpha(f, a || b)
  {
    if a && b {
      assert (f | HAS_ALPHA) | HAS_ALPHA == f | HAS_ALPHA;
    }
  }

  /** The record generate_atlas leaves behind for t: only HAS_ALPHA may change. */
  ghost function Flagged(t: Texture, src: seq<Byte>): (r: Texture)
    ensures r.x == t.x && r.y == t.y && r.w == t.w && r.h == t.h && r.index == t.index
    ensures (r.flags & IS_ROTATED) == (t.flags & IS_ROTATED)
    ensures (r.flags & HAS_ALPHA != 0) <==> (t.flags & HAS_ALPHA != 0 || Translucent(t, src))
  {
    t.(flags := WithAlpha(t.flags, Translucent(t, src)))
  }

  /** The canvas byte at channel c of cell (px, py) once the first k textures are copied:
      the last of them whose block holds the cell wins; untouched cells stay 0. */
  function Pixel(ts: seq<Texture>, srcs: seq<seq<Byte>>, k: nat, px: nat, py: nat, c: nat): Byte
    requires k <= |ts| && k <= |srcs|
  {
    if k == 0 then 0
    else if InBlock(ts[k - 1], px, py) then SourceByte(ts[k - 1], srcs[k - 1], px, py, c)
    else Pixel(ts, srcs, k - 1, px, py, c)
  }

  /** The pixels generate_atlas reads for texture o: those of entry remap[o]. */
  function Sources(es: seq<Entry>, remap: seq<nat>): (r: seq<seq<Byte>>)
    ensures |r| == |remap|
    ensures forall o :: 0 <= o < |remap| && remap[o] < |es| ==> r[o] == es[remap[o]].pixels
  {
    seq(|remap|, o requires 0 <= o < |remap| => if remap[o] < |es| then es[remap[o]].pixels else [])
  }

  // ---------------------------------------------------------------- index arithmetic

  lemma DivModUnique(i: int, d: int, q: int, r: int)
    requires d > 0 && 0 <= r < d && i == q * d + r
    ensures i / d == q && i % d == r
  {
    var q0, r0 := i / d, i % d;
    assert i == q0 * d + r0;
    if q0 < q {
      MulAtLeast(q - q0, d);
    } else if q0 > q {
      MulAtLeast(q0 - q, d);
    }
  }

  lemma MulAtLeast(k: int, d: int)
    requires k >= 1 && d >= 0
    ensures k * d >= d
  {
  }

  /** Cell numbers py * s + px with px < s are distinct for distinct cells. */
  lemma CellNumberInjective(s: nat, px: nat, py: nat, qx: nat, qy: nat)
    requires px < s && qx < s && py * s + px == qy * s + qx
    ensures px == qx && py == qy
  {
    DivModUnique(py * s + px, s, py, px);
    DivModUnique(qy * s + qx, s, qy, qx);
  }

  /** Distinct cells own disjoint runs of four bytes. */
  lemma CanvasCellsApart(s: nat, px: nat, py: nat, qx: nat, qy: nat, c: nat)
    requires px < s && qx < s && c < CHANNELS && (px != qx || py != qy)
    ensures CanvasIndex(s, px, py, c) < CanvasIndex(s, qx, qy, 0) ||
            CanvasIndex(s, px, py, c) >= CanvasIndex(s, qx, qy, 0) + CHANNELS
  {
    if py * s + px == qy * s + qx {
      CellNumberInjective(s, px, py, qx, qy);
    }
  }

  /** Every byte offset of the canvas belongs to exactly one (cell, channel). */
  lemma CanvasIndexOnto(s: nat, i: nat)
    requires i < s * s * CHANNELS
    ensures var cell := i / CHANNELS;
      cell % s < s && cell / s < s && CanvasIndex(s, cell % s, cell / s, i % CHANNELS) == i
  {
    var cell := i / CHANNELS;
    assert s > 0;
    var px, py := cell % s, cell / s;
    assert cell == py * s + px;
    if py >= s {
      MulMonotone(s, py, s);
    }
  }

  lemma MulMonotone(a: nat, b: nat, c: nat)
    requires a <= b
    ensures a * c <= b * c
  {
  }

  /** Channel c of pixel (x, y) of a w x h block stored row by row lies in its bytes. */
  lemma BlockBound(w: nat, h: nat, x: nat, y: nat, c: nat)
    requires x < w && y < h && c < CHANNELS
    ensures (y * w + x) * CHANNELS + c < w * h * CHANNELS
  {
    assert y * w + x < (y + 1) * w;
    assert (y + 1) * w <= h * w by { MulMonotone(y + 1, h, w); }
  }

  // ---------------------------------------------------------------- the copy loop

  /** `after` is `before` with the CHANNELS bytes from dst taken from src[from..]. */
  ghost predicate Overwritten(before: seq<Byte>, after: seq<Byte>, dst: nat, src: seq<Byte>, from: nat) {
    |after| == |before| &&
    forall i :: 0 <= i < |after| ==>
      after[i] == if dst <= i < dst + CHANNELS && from + i - dst < |src| then src[from + i - dst] else before[i]
  }

  /** memcpy of one pixel: CHANNELS bytes from src[from..] to canvas[dst..]. */
  method CopyPixel(canvas: array<Byte>, dst: nat, src: seq<Byte>, from: nat)
    requires dst + CHANNELS <= canvas.Length && from + CHANNELS <= |src|
    modifies canvas
    ensures Overwritten(old(canvas[..]), canvas[..], dst, src, from)
  {
    var c := 0;
    while c < CHANNELS
      invariant c <= CHANNELS
      invariant forall i :: 0 <= i < canvas.Length ==>
        canvas[i] == if dst <= i < dst + c then src[from + i - dst] else old(canvas[i])
    {
      canvas[dst + c] := src[from + c];
      c := c + 1;
    }
  }

  /** Cells of t's block already copied when the loops stand at row y, column x. */
  predicate Written(t: Texture, y: nat, x: nat, px: nat, py: nat) {
    InBlock(t, px, py) && (py - t.y < y || (py - t.y == y && px - t.x < x))
  }

  /** Advancing the column adds exactly the current pixel to the alpha scan. */
  lemma TranslucentStep(t: Texture, src: seq<Byte>, y: nat, x: nat)
    requires x < t.w
    ensures TranslucentBefore(t, src, y, x + 1) <==>
      TranslucentBefore(t, src, y, x) || AlphaAt(src, t.w, x, y) < 255
  {
    if TranslucentBefore(t, src, y, x + 1) && AlphaAt(src, t.w, x, y) >= 255 {
      var yy: nat, xx: nat :| xx < t.w && (yy < y || (yy == y && xx < x + 1)) && AlphaAt(src, t.w, xx, yy) < 255;
      assert TranslucentBefore(t, src, y, x);
    }
    if TranslucentBefore(t, src, y, x) {
      var yy: nat, xx: nat :| xx < t.w && (yy < y || (yy == y && xx < x)) && AlphaAt(src, t.w, xx, yy) < 255;
      assert TranslucentBefore(t, src, y, x + 1);
    }
    if AlphaAt(src, t.w, x, y) < 255 {
      assert TranslucentBefore(t, src, y, x + 1);
    }
  }

  /** A finished row is the same as the start of the next one. */
  lemma TranslucentNextRow(t: Texture, src: seq<Byte>, y: nat)
    ensures TranslucentBefore(t, src, y, t.w) <==> TranslucentBefore(t, src, y + 1, 0)
  {
    if TranslucentBefore(t, src, y + 1, 0) {
      var yy: nat, xx: nat :| xx < t.w && yy < y + 1 && AlphaAt(src, t.w, xx, yy) < 255;
      assert TranslucentBefore(t, src, y, t.w);
    }
  }

  /** The canvas `cv` is `base` with the cells of t's block that the loops have passed
      (rows before y, and the first x pixels of row y) copied from src. */
  ghost predicate CopiedUpTo(cv: seq<Byte>, base: seq<Byte>, scale: nat, t: Texture, src: seq<Byte>, y: nat, x: nat) {
    |cv| == |base| == scale * scale * CHANNELS &&
    forall px: nat, py: nat, c: nat :: px < scale && py < scale && c < CHANNELS ==>
      cv[CanvasIndex(scale, px, py, c)] ==
        if Written(t, y, x, px, py) then SourceByte(t, src, px, py, c) else base[CanvasIndex(scale, px, py, c)]
  }

  /** memcpy of pixel (x, y) of t's block to its canvas cell: `after` is `before` with the
      four bytes of that cell taken from src. */
  ghost predicate PixelCopied(before: seq<Byte>, after: seq<Byte>, scale: nat, t: Texture, src: seq<Byte>, y: nat, x: nat) {
    Overwritten(before, after, CanvasIndex(scale, t.x + x, t.y + y, 0), src, SourceIndex(t.w, x, y, 0))
  }

  /** Copying pixel (x, y) of the block extends the copied region by that pixel. */
  lemma CopiedStep(before: seq<Byte>, after: seq<Byte>, base: seq<Byte>, scale: nat, t: Texture,
                   src: seq<Byte>, y: nat, x: nat)
    requires x < t.w && y < t.h && Inside(t, scale) && |src| >= t.w * t.h * CHANNELS
    requires CopiedUpTo(before, base, scale, t, src, y, x) && PixelCopied(before, after, scale, t, src, y, x)
    ensures CopiedUpTo(after, base, scale, t, src, y, x + 1)
  {
    forall px: nat, py: nat, c: nat | px < scale && py < scale && c < CHANNELS
      ensures after[CanvasIndex(scale, px, py, c)] ==
        if Written(t, y, x + 1, px, py) then SourceByte(t, src, px, py, c)
        else base[CanvasIndex(scale, px, py, c)]
    {
      CellStep(before, after, base, scale, t, src, y, x, px, py, c);
    }
  }

  lemma CellStep(before: seq<Byte>, after: seq<Byte>, base: seq<Byte>, scale: nat, t: Texture,
                 src: seq<Byte>, y: nat, x: nat, px: nat, py: nat, c: nat)
    requires x < t.w && y < t.h && Inside(t, scale) && |src| >= t.w * t.h * CHANNELS
    requires px < scale && py < scale && c < CHANNELS
    requires |before| == |base| == scale * scale * CHANNELS
    requires before[CanvasIndex(scale, px, py, c)] ==
      if Written(t, y, x, px, py) then SourceByte(t, src, px, py, c) else base[CanvasIndex(scale, px, py, c)]
    requires PixelCopied(before, after, scale, t, src, y, x)
    ensures after[CanvasIndex(scale, px, py, c)] ==
      if Written(t, y, x + 1, px, py) then SourceByte(t, src, px, py, c) else base[CanvasIndex(scale, px, py, c)]
  {
    var dstX, dstY := t.x + x, t.y + y;
    var i := CanvasIndex(scale, px, py, c);
    var dst := CanvasIndex(scale, dstX, dstY, 0);
    if px != dstX || py != dstY {
      CanvasCellsApart(scale, px, py, dstX, dstY, c);
      assert after[i] == before[i];
    } else {
      BlockBound(t.w, t.h, x, y, c);
      assert i == dst + c;
    }
  }

  /** Pixel (x, y) of a block inside the canvas has its four bytes inside both the canvas
      and the source. */
  lemma PixelBounds(scale: nat, t: Texture, x: nat, y: nat)
    requires x < t.w && y < t.h && Inside(t, scale)
    ensures CanvasIndex(scale, t.x + x, t.y + y, 0) + CHANNELS <= scale * scale * CHANNELS
    ensures SourceIndex(t.w, x, y, 0) + CHANNELS <= t.w * t.h * CHANNELS
    ensures SourceIndex(t.w, x, y, 3) == SourceIndex(t.w, x, y, 0) + 3
  {
    BlockBound(t.w, t.h, x, y, 3);
    BlockBound(scale, scale, t.x + x, t.y + y, 3);
  }

  /** `texture->flags |= HAS_ALPHA` when the pixel is translucent. */
  method MarkAlpha(textures: array<Texture>, o: nat, alpha: bool)
    requires o < textures.Length
    modifies textures
    ensures textures[..] == old(textures[..])[o := old(textures[o]).(flags := WithAlpha(old(textures[o]).flags, alpha))]
  {
    if alpha {
      textures[o] := textures[o].(flags := textures[o].flags | HAS_ALPHA);
    }
  }

  /** The body of the inner loop of generate_atlas for pixel (x, y) of texture o: set
      HAS_ALPHA when its alpha byte is below 255, then memcpy it to its canvas cell. */
  method CopyOnePixel(canvas: array<Byte>, scale: nat, textures: array<Texture>, o: nat, src: seq<Byte>,
                      t: Texture, y: nat, x: nat)
    requires o < textures.Length && x < t.w && y < t.h && Inside(t, scale)
    requires canvas.Length == scale * scale * CHANNELS && |src| >= t.w * t.h * CHANNELS
    modifies canvas, textures
    ensures textures[..] == old(textures[..])[o := old(textures[o]).(flags := WithAlpha(old(textures[o]).flags, AlphaAt(src, t.w, x, y) < 255))]
    ensures PixelCopied(old(canvas[..]), canvas[..], scale, t, src, y, x)
  {
    var dst := CanvasIndex(scale, t.x + x, t.y + y, 0);
    var from := SourceIndex(t.w, x, y, 0);
    PixelBounds(scale, t, x, y);
    MarkAlpha(textures, o, src[from + 3] < 255);
    CopyPixel(canvas, dst, src, from);
  }

  /** The inner x loop of generate_atlas for row y of texture o. */
  method CopyRow(canvas: array<Byte>, scale: nat, textures: array<Texture>, o: nat, src: seq<Byte>,
                 t: Texture, y: nat, ghost base: seq<Byte>)
    requires o < textures.Length && textures[o] == t.(flags := WithAlpha(t.flags, TranslucentBefore(t, src, y, 0)))
    requires y < t.h && Inside(t, scale) && canvas.Length == scale * scale * CHANNELS
    requires |src| >= t.w * t.h * CHANNELS
    requires CopiedUpTo(canvas[..], base, scale, t, src, y, 0)
    modifies canvas, textures
    ensures textures[..] == old(textures[..])[o := t.(flags := WithAlpha(t.flags, TranslucentBefore(t, src, y + 1, 0)))]
    ensures CopiedUpTo(canvas[..], base, scale, t, src, y + 1, 0)
  {
    var x := 0;
    while x < t.w
      invariant x <= t.w
      invariant textures[..] == old(textures[..])[o := t.(flags := WithAlpha(t.flags, TranslucentBefore(t, src, y, x)))]
      invariant CopiedUpTo(canvas[..], base, scale, t, src, y, x)
    {
      ghost var before := canvas[..];
      CopyOnePixel(canvas, scale, textures, o, src, t, y, x);
      TranslucentStep(t, src, y, x);
      WithAlphaTwice(t.flags, TranslucentBefore(t, src, y, x), AlphaAt(src, t.w, x, y) < 255);
      CopiedStep(before, canvas[..], base, scale, t, src, y, x);
      x := x + 1;
    }
    TranslucentNextRow(t, src, y);
    CopiedNextRow(canvas[..], base, scale, t, src, y);
  }

  /** A finished row of copied pixels is the start of the next row. */
  lemma CopiedNextRow(cv: seq<Byte>, base: seq<Byte>, scale: nat, t: Texture, src: seq<Byte>, y: nat)
    requires CopiedUpTo(cv, base, scale, t, src, y, t.w)
    ensures CopiedUpTo(cv, base, scale, t, src, y + 1, 0)
  {
    assert forall px: nat, py: nat :: Written(t, y, t.w, px, py) == Written(t, y + 1, 0, px, py);
  }

  /** The nested y/x loops of generate_atlas for texture o: copy its block from src and
      set HAS_ALPHA when a copied alpha byte is below 255. */
  method CopyTexture(canvas: array<Byte>, scale: nat, textures: array<Texture>, o: nat, src: seq<Byte>)
    requires o < textures.Length && canvas.Length == scale * scale * CHANNELS
    requires Inside(textures[o], scale)
    requires |src| >= textures[o].w * textures[o].h * CHANNELS
    modifies canvas, textures
    ensures textures[..] == old(textures[..])[o := Flagged(old(textures[o]), src)]
    ensures forall px: nat, py: nat, c: nat :: px < scale && py < scale && c < CHANNELS ==>
      canvas[CanvasIndex(scale, px, py, c)] ==
        if InBlock(old(textures[o]), px, py) then SourceByte(old(textures[o]), src, px, py, c)
        else old(canvas[CanvasIndex(scale, px, py, c)])
  {
    var t := textures[o];
    ghost var base := canvas[..];
    assert textures[..] == old(textures[..])[o := t.(flags := WithAlpha(t.flags, TranslucentBefore(t, src, 0, 0)))];
    var y := 0;
    while y < t.h
      invariant y <= t.h
      invariant textures[..] == old(textures[..])[o := t.(flags := WithAlpha(t.flags, TranslucentBefore(t, src, y, 0)))]
      invariant CopiedUpTo(canvas[..], base, scale, t, src, y, 0)
    {
      CopyRow(canvas, scale, textures, o, src, t, y, base);
      y := y + 1;
    }
    assert forall px: nat, py: nat :: Written(t, t.h, 0, px, py) == InBlock(t, px, py);
  }

  /** generate_atlas, without the PNG write: a zero-filled scale x scale RGBA canvas into
      which every texture's block is copied in original-index order, each read from the
      pixels of entry remap[orig_index]. The skip-if-exists branch only prints, so it has
      no counterpart here. */
  method GenerateAtlas(scale: nat, entries: array<Entry>, textures: array<Texture>, remap: array<nat>)
    returns (canvas: array<Byte>)
    requires textures.Length == remap.Length
    requires forall o :: 0 <= o < remap.Length ==> remap[o] < entries.Length
    requires forall o :: 0 <= o < textures.Length ==> Inside(textures[o], scale)
    requires forall o :: 0 <= o < textures.Length ==>
      |entries[remap[o]].pixels| >= textures[o].w * textures[o].h * CHANNELS
    modifies textures
    ensures fresh(canvas) && canvas.Length == scale * scale * CHANNELS
    ensures forall px: nat, py: nat, c: nat :: px < scale && py < scale && c < CHANNELS ==>
      canvas[CanvasIndex(scale, px, py, c)] ==
        Pixel(old(textures[..]), Sources(entries[..], remap[..]), textures.Length, px, py, c)
    ensures forall o :: 0 <= o < textures.Length ==>
      textures[o] == Flagged(old(textures[o]), entries[remap[o]].pixels)
  {
    ghost var ts := textures[..];
    ghost var srcs := Sources(entries[..], remap[..]);
    canvas := new Byte[scale * scale * CHANNELS](_ => 0);
    var origIndex := 0;
    while origIndex < textures.Length
      invariant origIndex <= textures.Length
      invariant forall o :: origIndex <= o < textures.Length ==> textures[o] == ts[o]
      invariant forall o :: 0 <= o < origIndex ==> textures[o] == Flagged(ts[o], srcs[o])
      invariant forall px: nat, py: nat, c: nat :: px < scale && py < scale && c < CHANNELS ==>
        canvas[CanvasIndex(scale, px, py, c)] == Pixel(ts, srcs, origIndex, px, py, c)
    {
      var sortedIndex := remap[origIndex];
      CopyTexture(canvas, scale, textures, origIndex, entries[sortedIndex].pixels);
      origIndex := origIndex + 1;
    }
  }

  // ---------------------------------------------------------------- meaning of the canvas

  /** After a pack that placed every (non-empty) entry with the packer sound, every
      record lies inside the canvas and no two records' blocks share a cell: what
      GenerateAtlas requires and what PixelInBlock needs. */
  lemma PackedBlocks(sorted: seq<Entry>, tex: seq<Texture>, placed0: seq<Division>,
                     placed: seq<Division>, free: seq<Division>, scale: nat)
    requires IndexPermutation(sorted) && EntriesPositive(sorted) && |tex| == |sorted|
    requires PlacedPrefix(sorted, |sorted|, tex, placed0, placed) && Tiles(free, placed, scale)
    ensures forall o :: 0 <= o < |tex| ==> Inside(tex[o], scale)
    ensures forall o, q, px: nat, py: nat :: 0 <= o < q < |tex| && InBlock(tex[o], px, py) ==>
      !InBlock(tex[q], px, py)
  {
    forall o | 0 <= o < |tex| ensures Inside(tex[o], scale) {
      var j := SlotOf(sorted, o);
      var t := tex[o];
      var px, py := t.x + t.w - 1, t.y + t.h - 1;
      CountAtLeastOne(placed, |placed0| + j, px, py);
      assert Covers(RectOf(t), px, py) == 1;
      assert Count(free, px, py) + Count(placed, px, py) == Covers(Square(scale), px, py);
    }
    forall o, q, px: nat, py: nat | 0 <= o < q < |tex| && InBlock(tex[o], px, py)
      ensures !InBlock(tex[q], px, py)
    {
      var jo := SlotOf(sorted, o);
      var jq := SlotOf(sorted, q);
      var co, cq := |free| + |placed0| + jo, |free| + |placed0| + jq;
      assert (free + placed)[co] == RectOf(tex[o]) && (free + placed)[cq] == RectOf(tex[q]);
      TilesDisjoint(free, placed, scale, co, cq);
      assert Covers(RectOf(tex[o]), px, py) == 1;
    }
  }

  /** The sorted slot that holds original index o. */
  lemma SlotOf(sorted: seq<Entry>, o: nat) returns (j: nat)
    requires IndexPermutation(sorted) && o < |sorted|
    ensures j < |sorted| && sorted[j].index == o
  {
    IndexCovered(sorted, o);
    j :| 0 <= j < |sorted| && sorted[j].index == o;
  }

  /** With pairwise disjoint blocks the copy order does not matter: a cell inside texture
      o's block holds o's source byte. */
  lemma {:induction false} PixelInBlock(ts: seq<Texture>, srcs: seq<seq<Byte>>, k: nat, o: nat,
                                        px: nat, py: nat, c: nat)
    requires k <= |ts| && k <= |srcs| && o < k && InBlock(ts[o], px, py)
    requires forall i, j :: 0 <= i < j < k && InBlock(ts[i], px, py) ==> !InBlock(ts[j], px, py)
    ensures Pixel(ts, srcs, k, px, py, c) == SourceByte(ts[o], srcs[o], px, py, c)
    decreases k
  {
    if o < k - 1 {
      PixelInBlock(ts, srcs, k - 1, o, px, py, c);
    }
  }

  /** A cell outside every block stays at the calloc'd zero. */
  lemma {:induction false} PixelOutsideBlocks(ts: seq<Texture>, srcs: seq<seq<Byte>>, k: nat,
                                              px: nat, py: nat, c: nat)
    requires k <= |ts| && k <= |srcs|
    requires forall o :: 0 <= o < k ==> !InBlock(ts[o], px, py)
    ensures Pixel(ts, srcs, k, px, py, c) == 0
    decreases k
  {
    if k > 0 {
      PixelOutsideBlocks(ts, srcs, k - 1, px, py, c);
    }
  }
}
