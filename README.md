# Texture-atlas packer and OBJ front end, modelled in Dafny

This project models the computational core of a small Vulkan renderer.

- **Atlas packer** (`src/atlas.c`). It keeps a ledger of free rectangles ("divisions") inside a square canvas of side `scale`. It sorts the source images largest-first and places each one first-fit, rotating it when only the rotated form fits. When nothing fits it merges adjacent free rectangles, and when that fails too it doubles the canvas. It then builds the table from original index to sort position and copies every image into an RGBA canvas, setting the `HAS_ALPHA` flag of each texture that has a translucent pixel.
- **OBJ front end** (`src/obj.c`). `preprocess` cleans the raw text: it removes line continuations and comments and collapses whitespace. `preparse` counts records so that buffers can be sized. The face branch of `parse` resolves 1-based and negative references and emits triangle fans. `flatten` deduplicates the built vertices into a vertex buffer and an index buffer.
- **Two small helpers**: `clamp` (`src/main.c`) and the "every required extension is available" check (`src/validation.c`).

The files follow the source structure:

| file | module | models |
|---|---|---|
| `geometry.dfy` | `Geometry` | divisions, the cell-coverage count `Count`, the tiling invariant `Tiles`, swap-with-last removal |
| `atlas.dfy` | `Atlas` | `split_division`, `can_merge`, `merge_divisions`, `place_texture`, `compare_entries`, `resize_packer`, `init_atlas`, `pack_atlas` |
| `compositor.dfy` | `Compositor` | the copy and alpha loops of `generate_atlas` |
| `obj_text.dfy` | `ObjText` | `preprocess`, `preparse` |
| `obj_faces.dfy` | `ObjFaces` | the face branch of `parse`, `flatten` |
| `clamp.dfy` | `Clamp` | `clamp` |
| `validation.dfy` | `Validation` | `verify_extensions_support` |

Several loops are proved against a reference function that replays them on values:
- `Retry` is the ledger the last scan of `place_texture` sees after its merge-and-rescan rounds;
- `MergePass` is the single, non-restarting merge pass of `resize_packer`;
- `Attempts` and `RetryState` describe `pack_atlas`'s resize-and-retry loop for one entry;
- `Clean` is the text `preprocess` writes.
- `Stripped` is the input with only continuations and comments removed. `LayoutOf` reads a text as its visible characters, each tagged with what separates it from the one before: nothing, blanks only, or a newline. `CleanKeepsSeparators` proves that `Clean` and `Stripped` have the same layout.

The properties the source promises are proved as lemmas about these functions.

The packer's central invariant is `Packer.Sound`. It says that the free divisions plus the rectangles placed so far cover every cell of the `scale × scale` canvas exactly once and nothing outside it. This holds from `InitAtlas` on, and each placement, merge and resize keeps it.

`pack_atlas` sorts with `qsort`, which is not stable. The model therefore accepts any order that is sorted by `compare_entries` and is a permutation of the input (`PackAtlas` takes that order as the parameter `sorted`).

Three behaviours of the code are kept exactly as written:
- The "atlas already exists" branch of `generate_atlas` only prints. It never skips.
- Pixels are read with the post-rotation width as the source stride.
- `max_scale` is checked only after a resize followed by a failed retry, so the final `scale` can exceed `max_scale`.

## Model

| member | source | states |
|---|---|---|
| Geometry.SwapRemove | src/atlas.c:176-177 | removing slot i by moving the last element into it keeps every other slot, puts the old last element at i and shrinks the length by one |
| Geometry.SwapRemoveMultiset | src/atlas.c:176-177 | swap-removal takes exactly one copy of the removed division out of the collection and adds nothing |
| Geometry.InitialTiling | src/atlas.c:310-312 | the single full-canvas division tiles the canvas when nothing is placed |
| Geometry.TilesDisjoint | src/atlas.c:125-163 | in a tiling, any two distinct rectangles (free or placed) overlap in no cell and stay inside the canvas |
| Geometry.SameCoverTiles | src/atlas.c:165-179 | replacing the free list by one that covers the same cells keeps the tiling |
| Geometry.CountAppend | src/atlas.c:149-161 | the coverage count of a concatenation is the sum of the counts, so appended divisions add their cells |
| Geometry.CountSwapRemove | src/atlas.c:219 | swap-removing a division subtracts exactly its cells from the coverage count |
| Atlas.Split | src/atlas.c:125-163 | a bottom piece exists exactly when h > tex_h and a right piece exactly when w > tex_w; their widths and heights follow the h ≤ 256 rule; an exact fit yields nothing |
| Atlas.SplitCovers | src/atlas.c:134-161 | the placed rectangle and the split pieces cover every cell of the consumed division exactly once and nothing else |
| Atlas.SplitAreas | src/atlas.c:134-161 | the areas of the placed rectangle and the pieces add up to w·h |
| Atlas.SplitPositive | src/atlas.c:142-160 | the pieces of a non-empty division split around a non-empty texture are non-empty |
| Atlas.Packer.SplitDivision | src/atlas.c:125-163 | the ledger becomes the old ledger followed by exactly the pieces of the split; earlier entries are untouched |
| Atlas.CanMergeSymmetric | src/atlas.c:181-189 | `can_merge(a, b)` equals `can_merge(b, a)` |
| Atlas.MergeCovers | src/atlas.c:165-189 | the union of a mergeable pair covers exactly the cells of the two and its area is the sum of their areas |
| Atlas.MergeKeepsCover | src/atlas.c:165-179 | writing the union into slot f and swap-removing slot s leaves a ledger that covers the same cells |
| Atlas.Packer.MergeDivisions | src/atlas.c:165-179 | slot f gets the union, slot s gets the last division, and the count drops by exactly one (`MergeAt`) |
| Atlas.MergeAt | src/atlas.c:175-177 | the ledger after a merge is one division shorter |
| Atlas.FirstMergeableExists | src/atlas.c:224-233 | a ledger with some mergeable pair has a first one in the nested first/second order |
| Atlas.Retry | src/atlas.c:192-233 | the merge-and-rescan rounds never lengthen the ledger |
| Atlas.RetryStep | src/atlas.c:224-230 | when nothing fits, one round merges the first mergeable pair and restarts the scan |
| Atlas.RetryStops | src/atlas.c:192-234 | a ledger where the entry already fits is scanned without merging; the rounds end with a ledger where the entry fits, or where nothing fits and no pair can merge |
| Atlas.RetryKeepsCover | src/atlas.c:224-230 | the merges of the retry keep a positive ledger positive and covering the same cells |
| Atlas.MergePass | src/atlas.c:297-305 | the merge pass never lengthens the ledger |
| Atlas.MergePassKeepsCover | src/atlas.c:297-305 | the merge pass keeps a positive ledger positive and covering the same cells |
| Atlas.MergePassNoMerge | src/atlas.c:297-305 | a ledger without mergeable pairs goes through the pass unchanged |
| Atlas.Doubled | src/atlas.c:284-295 | repeated doubling never shrinks a positive scale, and at least one doubling grows it |
| Atlas.DoubledAdd | src/atlas.c:284-295 | a resizes followed by b more equal a + b resizes, so the rounds of successive entries compose |
| Atlas.Placement | src/atlas.c:200-216 | the texture record sits at the division's corner and lies inside it; it is unrotated exactly when the upright form fits, and otherwise has swapped sizes and IS_ROTATED set |
| Atlas.FindDivision | src/atlas.c:193-208 | returns the first division in index order that fits the entry either way, and rotated exactly when the upright form does not fit there |
| Atlas.FindMergeable | src/atlas.c:224-233 | returns the lexicographically first mergeable pair, or reports that no pair can merge |
| Atlas.Packer.PlaceTexture | src/atlas.c:191-235 | the ledger the last scan sees is `Retry` of the old ledger, which keeps its cells; on success the first fitting division of it is consumed: record written, division split and swap-removed, rectangle added to the placements; on failure the ledger is that `Retry` result, nothing fits and no pair can merge; keeps the tiling |
| Atlas.Packer.Commit | src/atlas.c:200-221 | the record is the entry's placement at the division's corner, the ledger is the old one plus the split pieces with the slot swap-removed, the rectangle joins the placements, and the tiling is kept |
| Atlas.PlaceKeepsTiling | src/atlas.c:210-219 | placing an entry in a fitting division, splitting it and removing it keeps the tiling, with the new rectangle counted as placed |
| Atlas.GrowthCovers | src/atlas.c:284-295 | the two added rectangles cover exactly the cells of the doubled square outside the old square |
| Atlas.GrowKeepsTiling | src/atlas.c:284-295 | appending the two new rectangles and doubling the scale keeps the tiling |
| Atlas.Packer.ResizePacker | src/atlas.c:284-307 | scale doubles; the ledger is `MergePass` of the old ledger followed by the two growth strips, so it covers the same cells as they do; the tiling of the doubled canvas is kept |
| Atlas.CompareAntisymmetric | src/atlas.c:237-245 | comparing a with b is the negation of comparing b with a, and is 0 exactly for equal width and height |
| Atlas.SortedMeansLargestFirst | src/atlas.c:237-245 | an order sorted by `compare_entries` is non-increasing in width, and in height among equal widths |
| Atlas.Insert | src/atlas.c:344 | inserting adds exactly one element to the multiset |
| Atlas.InsertSorted | src/atlas.c:344 | inserting into a sorted list keeps it sorted |
| Atlas.SortEntries | src/atlas.c:344 | every entry list has a sorted permutation, so the `qsort` outcome that `PackAtlas` takes as a parameter always exists |
| Atlas.PermutationKeeps | src/atlas.c:344-349 | a permutation keeps the length, distinct in-range original indices and positive sizes |
| Atlas.PermutationNoDuplicate | src/atlas.c:346-349 | after the sort no two slots carry the same original index |
| Atlas.Qsort | src/atlas.c:344 | the entry array ends up holding the chosen sorted permutation |
| Atlas.InitAtlas | src/atlas.c:309-320 | the ledger is the single full-canvas division, the remap table is all zeros, and the tiling holds |
| Atlas.FillRemap | src/atlas.c:346-349 | `remap[entries[s].index] == s` for every s, and remap is the inverse permutation: every original index maps to the slot that carries it |
| Atlas.IndexCovered | src/atlas.c:346-349 | every original index occurs in some sorted slot, so the remap loop writes every slot |
| Atlas.InjectiveImage | src/atlas.c:346-349 | distinct original indices form a set as large as the list |
| Atlas.PlaceOrGrow | src/atlas.c:351-358 | `RetryState` after `grows` resizes: scale is the old scale doubled `grows` times; no earlier round found a fit; a resize beyond the first happened only with the scale within max_scale; the ledger the last scan saw is `Retry` of `Attempts`; success places the entry there as `place_texture` does; giving up leaves scale above max_scale with nothing else changed; the tiling is kept |
| Atlas.FirstPlace | src/atlas.c:352 | the first `place_texture` call is the retry state with no resize |
| Atlas.GrowAndPlace | src/atlas.c:354-356 | a resize followed by a retry advances the retry state by one round and grows the scale |
| Atlas.PlacedStep | src/atlas.c:351-359 | placing sorted slot k extends the placed prefix by one and leaves the later slots' textures alone |
| Atlas.PlaceAll | src/atlas.c:351-362 | the placement loop places a prefix of the sorted entries, each as itself or rotated and appended to the placement list in order, leaves the rest untouched, stops early only with scale above max_scale, leaves the scale a repeated doubling of the old one, and keeps the tiling |
| Atlas.PackAtlas | src/atlas.c:343-363 | entries end up sorted, remap is the inverse permutation, scale never decreases and is the old scale doubled some number of times, a prefix of the sorted entries is placed as themselves or rotated, the rest are untouched, and stopping early happens only with scale above max_scale; the tiling is kept |
| Atlas.ScaleU16Wraps | src/atlas.c:285-286 | the u16 doubling of 0x8000 yields 0, the same as doubling 0 |
| Atlas.GrownScale | src/atlas.c:286 | the doubled scale is larger than a positive scale |
| Compositor.CanvasIndex | src/atlas.c:265-267 | the destination index of an in-canvas cell and channel lies inside the `scale·scale·4` buffer |
| Compositor.CanvasIndexBound | src/atlas.c:265-267 | the row-major offset of an in-canvas cell and channel is below `scale·scale·4` |
| Compositor.PackedBlocks | src/atlas.c:343-363 | after a sound pack that placed every non-empty entry, every record lies inside the canvas and no two records' blocks share a cell, which is what `GenerateAtlas` and `PixelInBlock` require |
| Compositor.SlotOf | src/atlas.c:346-349 | every original index is carried by some sorted slot |
| Compositor.CanvasCellsApart | src/atlas.c:265-274 | distinct cells get disjoint four-byte slots |
| Compositor.CanvasIndexOnto | src/atlas.c:256-267 | every canvas byte is the destination byte of exactly one cell and channel |
| Compositor.BlockBound | src/atlas.c:268 | the source index of an in-block pixel lies inside the w·h·4 pixel buffer |
| Compositor.WithAlpha | src/atlas.c:270-272 | or-ing HAS_ALPHA keeps the rotation bit and sets HAS_ALPHA exactly when it was set or alpha is translucent |
| Compositor.Flagged | src/atlas.c:263-276 | after the copy a texture keeps its rectangle, index and rotation bit, and has HAS_ALPHA exactly when it had it or some copied alpha byte is below 255 |
| Compositor.Sources | src/atlas.c:260-261 | the pixel buffer used for original index o is that of `entries[remap[o]]` |
| Compositor.CopyPixel | src/atlas.c:274 | the four channels are copied to the destination and nothing else changes |
| Compositor.TranslucentStep | src/atlas.c:270-272 | scanning one more pixel makes the texture translucent exactly when that pixel's alpha is below 255 or it already was |
| Compositor.PixelBounds | src/atlas.c:266-268 | the destination and source offsets of a pixel of a block inside the canvas leave room for all four channels, and the alpha byte is channel 3 of the source pixel |
| Compositor.MarkAlpha | src/atlas.c:270-272 | HAS_ALPHA is ored into texture o's flags exactly when the pixel is translucent, and no other record changes |
| Compositor.CopyOnePixel | src/atlas.c:265-274 | one pixel is copied and the flag is updated from its alpha byte |
| Compositor.CopyRow | src/atlas.c:264-275 | one row of the block is copied, and the flag reflects every alpha byte up to that row |
| Compositor.CopyTexture | src/atlas.c:263-276 | the texture's block holds its source bytes, every other canvas byte is unchanged, and the flag is `Flagged` |
| Compositor.GenerateAtlas | src/atlas.c:247-282 | starting from a zero canvas, every byte equals the last-writer-wins composition of all blocks by original index, and every texture becomes `Flagged` |
| Compositor.PixelInBlock | src/atlas.c:258-277 | with non-overlapping placements, a canvas byte inside a texture's block is that texture's source byte |
| Compositor.PixelOutsideBlocks | src/atlas.c:256 | a canvas byte outside every block stays 0 |
| Clamp.Clamp | src/main.c:24-28 | returns min when n < min, else max when n > max, else n; with min ≤ max the result lies in [min, max] |
| Clamp.ClampIdempotent | src/main.c:24-28 | with min ≤ max, clamping twice equals clamping once |
| Clamp.ClampNearest | src/main.c:24-28 | with min ≤ max, the result is the point of [min, max] nearest to n |
| Clamp.ClampEmptyInterval | src/main.c:24-28 | with min > max, an n below min gives min, so the lower bound wins |
| Validation.VerifyExtensionsSupport | src/validation.c:27-43 | true exactly when every required name equals some available name; true for no required names; false for some required and none available; on false, reports the first missing name |
| ObjText.SkipBlanks | src/obj.c:19 | the first non-blank position at or after k, with only blanks skipped |
| ObjText.LineEnd | src/obj.c:27 | the first newline at or after k, or the end |
| ObjText.SkipBlanksFrom | src/obj.c:18-19 | the scan after a backslash stops at `SkipBlanks` |
| ObjText.LineEndFrom | src/obj.c:26-30 | the comment scan stops at `LineEnd` |
| ObjText.VisibleStep | src/obj.c:16-52 | one input step: a continuation or a comment is dropped whole, whitespace contributes nothing visible, any other character is kept |
| ObjText.NonBlankSnoc | src/obj.c:32-52 | appending a character adds it to the visible text exactly when it is not whitespace, and adds one to the line count exactly when it is a newline |
| ObjText.CleanedSnoc | src/obj.c:32-52 | appending a non-'#' character that is not a second newline or a second space keeps the output clean |
| ObjText.ProgressContinuation | src/obj.c:17-23 | a backslash followed by blanks and a newline is dropped with that newline, and the output still accounts for everything visible before the new position |
| ObjText.ProgressComment | src/obj.c:26-30 | a comment is dropped up to its newline, the position strictly advances, and the output is clear of a trailing-space obligation |
| ObjText.ProgressPush | src/obj.c:32-51 | appending the separator or the ordinary character for position i keeps the output clean, its newline count exact and its visible text equal to the input's up to i + 1 |
| ObjText.ProgressDropSpace | src/obj.c:32-44 | a newline after nothing or after a newline, and a blank after a blank, are dropped without changing what the output accounts for |
| ObjText.CleanKeeps | src/obj.c:16-52 | resumed from any reachable loop state, the finished text is no longer than the input, is cleaned, and carries exactly the input's visible characters |
| ObjText.CleanSpec | src/obj.c:3-71 | the text of a whole file has no leading newline, no empty line, no '#', no whitespace but single spaces and newlines, is no longer than the input, carries exactly the input's visible characters in order, and separates them by blanks and by newlines exactly where the input with continuations and comments removed does (`LayoutOf` equal to that of `Stripped`) |
| ObjText.CleanLayoutFrom | src/obj.c:16-52 | resumed from any loop state whose output lays out like the stripped input consumed so far, the finished text lays out like the whole stripped input |
| ObjText.LayoutTake | src/obj.c:32-51 | the newline, blank and ordinary-character branches keep the output's layout equal to that of the stripped input consumed |
| ObjText.CleanKeepsSeparators | src/obj.c:16-52 | between any two consecutive visible characters the output has whitespace exactly when the stripped input does, and a newline exactly when the stripped input does |
| ObjText.StrippedPlain | src/obj.c:17-30 | text without backslashes or '#' has nothing stripped |
| ObjText.GluedLayoutDiffers | src/obj.c:16-52 | "v 1\nf 1" cannot clean to "v1f1" or to "v 1f 1": gluing tokens or records changes the layout |
| ObjText.CleanKeepsSpaceAcrossNewline | src/obj.c:32-50 | `in_space` is not cleared by a newline: "a \n b" becomes "a \nb" while "a\n b" stays "a\n b" |
| ObjText.TakeChar | src/obj.c:32-51 | a newline is copied unless the output is empty or ends in one, and leaves in_space alone; another blank becomes one space unless in_space is set, and sets it; any other character is copied and clears in_space; the line count follows the output |
| ObjText.Step | src/obj.c:16-51 | each loop iteration strictly advances through the input and leaves the finished text `Clean` unchanged |
| ObjText.Preprocess | src/obj.c:3-71 | NULL exactly for NULL; otherwise the output is `Clean` of the input, so it is no longer than the input, has no leading newline, no empty line, no '#', no whitespace but single spaces and newlines, exactly the input's visible characters in order with blanks and newlines between them exactly where the stripped input has them, and `lineCount` newlines |
| ObjText.StartsWithHead | src/obj.c:116-128 | a line that starts with a prefix starts with its first character, so the four record kinds exclude each other |
| ObjText.Visits | src/obj.c:112-149 | the line starts preparse visits, one per counted line, each inside the text |
| ObjText.VisitsPrefix | src/obj.c:112-149 | visiting k lines is a prefix of visiting more |
| ObjText.TallySnoc | src/obj.c:114-148 | visiting one more line applies that line's classification to the counters and the vertex maximum |
| ObjText.TallyKindsBounded | src/obj.c:116-137 | each visited line adds to at most one of positions, texcoords, normals and faces, and triangles never decrease |
| ObjText.MaxFaceVertsBound | src/obj.c:139-141 | max_verts is at least the token count of every visited face with three or more tokens |
| ObjText.MaxFaceVertsAttained | src/obj.c:139-141 | max_verts is attained: it is its start value or the token count of some visited face with three or more tokens |
| ObjText.MaxFaceVertsOnlyTriangles | src/obj.c:139-141 | faces with fewer than three tokens never raise max_verts |
| ObjText.PreparsedStep | src/obj.c:112-148 | visiting the line at the current position advances the loop state: one more line start visited, the counters classified by it |
| ObjText.PreparsedDone | src/obj.c:112-149 | once every line is visited the counters are the tally over all of them |
| ObjText.Parser.constructor | src/obj.c:500 | the parser starts with all counters and max_verts at zero |
| ObjText.Parser.CountFaceVerts | src/obj.c:131-138 | the token count of a face line is the number of whitespace-separated runs after "f " |
| ObjText.Parser.SkipSpaceFrom | src/obj.c:113 | leading whitespace of a line is skipped up to `SkipSpace` |
| ObjText.Parser.NextLineFrom | src/obj.c:146-147 | the walk stops just past the line's newline |
| ObjText.Parser.CountLine | src/obj.c:116-143 | one line adds one to its kind's counter; a face with n ≥ 3 tokens adds n − 2 triangles and raises max_verts to n |
| ObjText.Parser.Preparse | src/obj.c:110-150 | the counters and max_verts equal the tally over the `line_count` visited lines |
| ObjFaces.ResolveInRange | src/obj.c:275-285 | a reference is accepted exactly when it is in 1..count or −count..−1; −1 names the last record and 1 the first |
| ObjFaces.ResolveOptional | src/obj.c:288-327 | an absent texture or normal reference gives −1; a present one is accepted exactly when it resolves into range |
| ObjFaces.ResolveToken | src/obj.c:262-327 | a token yields a vertex exactly when its position is readable and in range and its present texture and normal references are in range; the vertex's references then lie in range |
| ObjFaces.ResolveFace | src/obj.c:256-338 | reads at most MAX_FACE_VERTS tokens; the face is valid exactly when every read token resolves, and then the buffer holds exactly the resolved vertices in order |
| ObjFaces.FaceBufferOverflow | src/obj.c:256 | when no face has three tokens, the declared face buffer has 0 entries, yet the face `f 1 1` against one position resolves two vertices that the token loop stores |
| ObjFaces.Fan | src/obj.c:353-363 | triangle t of the fan is (v0, v[t+1], v[t+2]), and there are n − 2 triangles |
| ObjFaces.Mesh.constructor | src/obj.c:510-511 | the index buffer has room for three corners per preparse triangle, and the counts start at zero |
| ObjFaces.FanWrittenStep | src/obj.c:355-361 | writing the next fan triangle into the next three slots extends the written range by one triangle and leaves the rest of the buffer alone |
| ObjFaces.Mesh.PutTriangle | src/obj.c:358-360 | the three slots from idx receive the triangle's corners and no other slot changes |
| ObjFaces.Mesh.FanTriangle | src/obj.c:355-361 | one pass of the fan loop writes fan triangle j − 2 into the next triangle slot, extending the written range by one |
| ObjFaces.Mesh.EmitFan | src/obj.c:353-365 | the fan's triangles are appended after the existing ones until the preparse triangle maximum is reached, nothing else in the buffer changes, and the face is counted |
| ObjFaces.Mesh.ParseFace | src/obj.c:254-366 | an invalid face or one with fewer than three vertices changes nothing; otherwise the fan of the resolved vertices is emitted |
| ObjFaces.Corners | src/obj.c:414-433 | corner i is the vertex built from indexed vertex i, with zeros for out-of-range references |
| ObjFaces.UniquesDistinct | src/obj.c:443-471 | the deduplicated vertices are pairwise distinct |
| ObjFaces.UniquesMembers | src/obj.c:443-471 | the deduplicated vertices are exactly the built vertices, each kept once |
| ObjFaces.UniquesSnoc | src/obj.c:455-471 | a new corner is appended exactly when it has not been seen |
| ObjFaces.Find | src/obj.c:443-455 | the lookup returns a stored vertex equal to the corner, or reports that none is stored |
| ObjFaces.AddCorner | src/obj.c:456-471 | an already stored vertex reuses its index, a new one is appended at the end, and earlier entries stay |
| ObjFaces.PointsIntoStep | src/obj.c:456-471 | storing corner i's index keeps every earlier index valid as long as the stored prefix only grows |
| ObjFaces.DedupCorner | src/obj.c:414-471 | one corner: the stored vertices become the distinct corners up to i + 1, and out[i] names corner i's vertex |
| ObjFaces.Dedup | src/obj.c:414-472 | the stored vertices are the distinct corners in first-occurrence order, and every index points at its corner's vertex |
| ObjFaces.Flatten | src/obj.c:373-488 | 3·triangles indices; none for no triangles; every index is in range and names the vertex built from its indexed vertex; the vertices are pairwise distinct and in first-occurrence order |

## Left out

- Image I/O and the other side effects are not modelled:
  - `stbi_write_png`, `stbi_load` and `stbi_image_free`;
  - the `access` and `printf` of the "atlas already exists" branch, which only prints;
  - `read_obj`;
  - every diagnostic `printf`;
  - the debug helpers `print_atlas`, `generate_debug_atlas` and `draw_digit`, and the `mainn` demo.
- Memory management: `malloc`, `realloc` and `free` become sequences and fresh arrays. Allocation failure is not modelled: the NULL return of `preprocess`, the `exit` in `flatten`, the zero count after a failed final copy. `cleanup_atlas` is left out.
- `init_atlas` allocates `infos->entries`. That allocation is not modelled; the entries arrive filled.
- The `qsort` call itself is left out. Its outcome is the parameter `sorted`, required to be sorted by `compare_entries` and a permutation of the entries. `SortEntries` shows such an order always exists.
- Integer widths are not modelled:
  - the u16 division and texture fields;
  - the u32 canvas arithmetic;
  - the `int` counters and the `long` face references.
  All are unbounded integers. The u16 doubling of `scale` is written out separately (see Findings).
- Compositor.GenerateAtlas: it requires every record to lie inside the canvas. `object.c` allocates the records without initialising them (src/object.c:37) and calls `generate_atlas` even after `pack_atlas` gave up (src/object.c:58-71). The records of unplaced entries are then undefined and the copy can leave the canvas. The model covers only packs that placed every entry; `Compositor.PackedBlocks` shows those meet the requirement.
- Compositor.GenerateAtlas: the buffer size `scale·scale·4` is unbounded here. In the source it is a u32 product, which wraps to 0 at scale 0x8000.
- The v, vt and vn branches of `parse` are not modelled. They parse floating-point coordinates with `strtod`. `Mesh.counts` stands for the records read before the face.
- The character scanning of a face line (`strtol`, the `/` separators, skipping to the next token) is not modelled. A face arrives as its `FaceToken` sequence, where `None` marks a reference that `strtol` could not read.
- The loop of `parse` over lines is not modelled; only its face branch is.
- `flatten` builds a DJB2-hashed table of node chains; the model replaces it with a linear lookup over the stored vertices. Vertex attributes are opaque values compared with `==`, so `memcmp` on floats (for example two zeros of different sign) and the double-to-float conversion are not modelled.
- ObjText.Preprocess: for NULL input it returns a line count of 0, where the source leaves `*p_line_count` unwritten.
- `preparse` computes `line_end` and `line_len` for faces and never uses them. They are omitted.
- Atlas.Packer.PlaceTexture, Atlas.Packer.ResizePacker and Atlas.PackAtlas: the tiling is promised only for non-empty entries, and only when the ledger was sound before. `merge_divisions` picks the widening axis from `first->x == second->x`, so a zero-sized division can lose area in a merge.

## Findings

| source | as written | input that shows it | evidently intended | confidence | as-written member | corrected member |
|---|---|---|---|---|---|---|
| src/atlas.c:286 | `u16 new_scale = old_scale * 2` wraps | a resize at scale 0x8000 (when `max_scale` allows it) sets scale to 0 and appends a bottom division of width 0 | the canvas grows to twice its side | not executed | Atlas.ScaleU16Wraps | Atlas.GrownScale |
| src/obj.c:256 | the face buffer has `min(max_verts, MAX_FACE_VERTS)` entries, but `max_verts` is raised only by faces with at least three tokens (src/obj.c:139-141) | `v 0 0 0` then `f 1 1`: `max_verts` stays 0, yet the token loop stores two vertices at src/obj.c:332 before the face is rejected as too short | a buffer large enough for every token the loop reads, for example MAX_FACE_VERTS entries | not executed | ObjFaces.FaceBufferOverflow | ObjFaces.ResolveFace |
