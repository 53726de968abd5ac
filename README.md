# Tiled backing store and crnet certificate, in Dafny

This project models two parts of a WebKit port.

**The tiled backing store.** `TextureMapperTiledBackingStore` keeps layer or image contents in a grid of fixed-size texture tiles. It updates that grid in place as the visible part of the contents moves. On every paint it may call `createOrDestroyTilesIfNeeded`, which does the following:

- Rounds the visible rectangle outward to the tile grid. The result is the cover rectangle.
- Rounds the overlap of the old and new visible rectangles inward. The result is the rigid rectangle.
- Keeps every tile the rigid rectangle contains.
- Lists every cell of the cover rectangle outside the rigid rectangle.
- Recycles the other tiles in place for those cells, smallest index first. Each recycled texture is reset, not dropped.
- Appends new tiles only once no tile is left to recycle.
- Erases the leftovers while more tiles than a threshold (0) remain.

Around the grid sits lazy-invalidation state:

- a scale-dirty flag and a size-dirty flag;
- a dirty rectangle that collects the placed cells and is consumed by the layer path;
- a single-use image source.

**The crnet certificate.** `CrnetCertificate` wraps a certificate handle of the crnet network library:

- its DER encoding is fetched from the library at most once;
- it has a status word, of which bit 12 flags a SHA-1 signature;
- it has two validity dates.

The project has five files.

- `wrappers.dfy`: `Option`, for the nullable pointers.
- `geometry.dfy`: integer rectangles and their operations (`Contains`, `Intersection`, IntRect's `Unite`), plus the floor and ceiling grid arithmetic.
- `tile_grid.dfy`: reference definitions of every step of the grid update, and the lemmas about them. The steps are the cover and rigid rectangles, the cells to add, the removal candidates, the recycle/append/erase walk `Regrid`, and the whole update `CreateOrDestroyTiles`. The lemmas cover alignment, containment, recycle before allocate, the recycle order, "kept tiles unchanged", "the tiles partition the cover rectangle", and the loop states of the recycle and erase loops.
- `tiled_backing_store.dfy`: the store as a class with the source's fields. Its methods run the source's loops over those fields: the nested loops over the cover rectangle, the descending loop over the tiles, the recycle loop popping the last index, and the erase loop. Each method is proved to produce the state that the reference definitions give.
- `crnet_certificate.dfy`: the certificate as a class, plus `CrnetLibrary`. `CrnetLibrary` stands in for the two foreign calls: the DER fetch, which succeeds with the bytes or fails, and the release. It logs every call so that "at most once" can be stated.

### Behaviour of the code worth knowing

- **The guard before recomputing.**
  - `createOrDestroyTilesIfNeeded` skips the update when neither flag is set and the cached visible rectangle equals `rect()`, the content rectangle (TextureMapperTiledBackingStore.cpp:100). It compares against `rect()`, not against the visible rectangle it would compute.
  - Past that guard it clears both flags first (cpp:103-104). The update can then return early, on an empty clipped rectangle (cpp:115-116) or on an unchanged visible rectangle (cpp:121-122), with the flags already cleared.
- **Non-invertible transforms.** The inverse of a non-invertible transform is replaced by the identity (cpp:118); the visible rectangle is still mapped through it.
- **The erase threshold.** The erase loop stops as soon as the tile count is at most the threshold (cpp:181). So, when there are leftovers to erase, the threshold is a floor: the update never leaves fewer than min(tile count before, threshold) tiles (`TileGrid.EraseStopsAtThreshold`). The threshold in the code is 0 (cpp:138), so every leftover is erased.
- **Flags of the content setters.**
  - `updateContents` sets the size-dirty flag to "the size changed", so it also clears the flag (cpp:190).
  - `setContentsToImage` changes the size without setting the flag (TextureMapperTiledBackingStore.h:46).
  - Neither setter clears the other content source (cpp:189-193, h:46).

## Model

| member | source | states |
|---|---|---|
| `Geometry.Intersection` | webkit/Source/WebCore/platform/graphics/texmap/TextureMapperTiledBackingStore.cpp:128 | A non-empty rectangle lies in the intersection iff it lies in both operands; the intersection of non-negative rectangles is non-negative |
| `Geometry.Unite` | webkit/Source/WebCore/platform/graphics/texmap/TextureMapperTiledBackingStore.cpp:161 | An empty operand is ignored; otherwise the result contains both operands and lies inside every rectangle that contains both |
| `TileGrid.TileSizeFor` | webkit/Source/WebCore/platform/graphics/texmap/TextureMapperTiledBackingStore.cpp:97-98 | Each tile edge is 512 clamped to the largest texture edge: at most both, equal to one of them, and positive when the largest texture is |
| `TileGrid.CoverRect` | webkit/Source/WebCore/platform/graphics/texmap/TextureMapperTiledBackingStore.cpp:124-126 | The cover rectangle is non-negative and grid-aligned, contains the visible rectangle, and overshoots each of its edges by less than one tile |
| `TileGrid.RigidCoverRect` | webkit/Source/WebCore/platform/graphics/texmap/TextureMapperTiledBackingStore.cpp:128-131 | The rigid rectangle is grid-aligned, lies within the overlap of the old and new visible rectangles (every non-empty rectangle it contains lies in both), and falls short of each edge of the overlap by less than one tile |
| `TileGrid.RigidInsideCovers` | webkit/Source/WebCore/platform/graphics/texmap/TextureMapperTiledBackingStore.cpp:124-131 | A tile inside the rigid rectangle lies inside both the old and the new cover rectangle |
| `TileGrid.TileRectsToAddExactly` | webkit/Source/WebCore/platform/graphics/texmap/TextureMapperTiledBackingStore.cpp:142-148 | The nested loops list each cell of the cover rectangle that the rigid rectangle does not contain exactly once, and nothing else |
| `TileGrid.TileRectsToAdd` | webkit/Source/WebCore/platform/graphics/texmap/TextureMapperTiledBackingStore.cpp:142-148 | Every listed cell has the tile size and is not contained in the rigid rectangle |
| `TileGrid.CandidatesDesc` | webkit/Source/WebCore/platform/graphics/texmap/TextureMapperTiledBackingStore.cpp:151-156 | The scan of an index range yields no more candidates than there are indices in the range |
| `TileGrid.UniteAll` | webkit/Source/WebCore/platform/graphics/texmap/TextureMapperTiledBackingStore.cpp:159-161 | The result contains the starting dirty rectangle whenever that is non-empty |
| `TileGrid.PartitionedTilesDoNotOverlap` | webkit/Source/WebCore/platform/graphics/texmap/TextureMapperTiledBackingStore.cpp:142-148 | Tiles that are exactly the cells of the cover rectangle each lie in it and never overlap one another |
| `TileGrid.PartitionedTilesCoverEveryPixel` | webkit/Source/WebCore/platform/graphics/texmap/TextureMapperTiledBackingStore.cpp:142-148 | Tiles that are exactly the cells of a grid-aligned cover rectangle leave none of its pixels uncovered |
| `TileGrid.CandidatesDescFacts` | webkit/Source/WebCore/platform/graphics/texmap/TextureMapperTiledBackingStore.cpp:151-156 | The removal candidates are exactly the removable tiles, one per removable tile, in strictly descending index order; the one at position i has as many removable tiles below it as candidates after it, so the last one is the smallest |
| `TileGrid.Recycle` | webkit/Source/WebCore/platform/graphics/texmap/TextureMapperTiledBackingStore.cpp:165-171 | A recycled tile takes the cell's origin with the tile size, and the cell as its visible rectangle; a texture it has is kept (same id) and reset to the tile size and the requested alpha mode, never dropped, and none is created |
| `TileGrid.KeptTiles` | webkit/Source/WebCore/platform/graphics/texmap/TextureMapperTiledBackingStore.cpp:151-156 | The tiles inside the rigid rectangle number the tiles minus the removable ones, and none of them is removable |
| `TileGrid.RegridKeepsRigidTiles` | webkit/Source/WebCore/platform/graphics/texmap/TextureMapperTiledBackingStore.cpp:151-184 | The tiles inside the rigid rectangle come out unchanged, in order, none erased, and no recycled or new tile joins them |
| `TileGrid.RegridAppendsOnlyWhenPoolIsEmpty` | webkit/Source/WebCore/platform/graphics/texmap/TextureMapperTiledBackingStore.cpp:159-176 | Recycle before allocate: with k removable tiles and at least k cells, no tile is erased and exactly (cells - k) texture-less tiles are appended after the old ones, for the last (cells - k) cells (which removable tile takes which of the first k cells is `RegridRecyclesInIndexOrder`) |
| `TileGrid.RegridLengthWithLeftovers` | webkit/Source/WebCore/platform/graphics/texmap/TextureMapperTiledBackingStore.cpp:159-184 | With fewer cells than removable tiles, the tile count becomes the old count minus the leftovers that are not kept, so it never grows |
| `TileGrid.RegridShrinks` | webkit/Source/WebCore/platform/graphics/texmap/TextureMapperTiledBackingStore.cpp:180-184 | With no cells left, the erase keeps every tile inside the rigid rectangle, in order, plus the first `keep` removable tiles (min(keep, removable) of them), in order, and drops the rest; with `keep` 0 exactly the kept tiles remain |
| `TileGrid.EraseStopsAtThreshold` | webkit/Source/WebCore/platform/graphics/texmap/TextureMapperTiledBackingStore.cpp:180-184 | When the walk keeps the survivors the threshold allows, at least min(tile count before, threshold) tiles remain |
| `TileGrid.Survivors` | webkit/Source/WebCore/platform/graphics/texmap/TextureMapperTiledBackingStore.cpp:180-184 | With at least as many cells as removable tiles no leftover survives; otherwise at most the leftovers survive, all of them when the tile count is already at most the threshold, and when any survives the erase stopped at exactly min(tile count, threshold) |
| `TileGrid.RegridRecyclesInIndexOrder` | webkit/Source/WebCore/platform/graphics/texmap/TextureMapperTiledBackingStore.cpp:163-166 | The removable tile with j removable tiles before it takes the j-th cell in place, and every earlier tile keeps its index |
| `TileGrid.RegridRects` | webkit/Source/WebCore/platform/graphics/texmap/TextureMapperTiledBackingStore.cpp:159-184 | With threshold 0, the rectangles after the update are those of the kept tiles plus the cells to add, as a multiset |
| `TileGrid.KeptTileRects` | webkit/Source/WebCore/platform/graphics/texmap/TextureMapperTiledBackingStore.cpp:151-156 | The kept tiles' rectangles are exactly the tiles' rectangles that the rigid rectangle contains, with multiplicity |
| `TileGrid.RegridPartitionsCover` | webkit/Source/WebCore/platform/graphics/texmap/TextureMapperTiledBackingStore.cpp:121-184 | If the tiles were exactly the cells of the old cover rectangle, then after the update with threshold 0 they are exactly the cells of the new one |
| `TileGrid.RegridPlacesEveryOtherTile` | webkit/Source/WebCore/platform/graphics/texmap/TextureMapperTiledBackingStore.cpp:159-176 | Every tile outside the rigid rectangle after the update holds a listed cell, with its visible rectangle equal to its rectangle and any texture reset to the tile size and alpha mode |
| `TileGrid.UniteAllCovers` | webkit/Source/WebCore/platform/graphics/texmap/TextureMapperTiledBackingStore.cpp:159-161 | The accumulated dirty rectangle covers the old dirty rectangle and every non-empty cell united into it |
| `TileGrid.RecyclingStateRecycle` | webkit/Source/WebCore/platform/graphics/texmap/TextureMapperTiledBackingStore.cpp:163-172 | Popping the last candidate gives a valid index, and recycling that tile for the next cell keeps the recycle loop in step with the reference walk |
| `TileGrid.RecyclingStateAppend` | webkit/Source/WebCore/platform/graphics/texmap/TextureMapperTiledBackingStore.cpp:175 | Once the candidates are exhausted, appending a new tile for the next cell keeps the loop in step with the reference walk |
| `TileGrid.ErasingStateStep` | webkit/Source/WebCore/platform/graphics/texmap/TextureMapperTiledBackingStore.cpp:180-184 | Every leftover index, taken largest first, is still a valid index when it is erased, and erasing it keeps the loop in step with the reference walk |
| `TileGrid.ErasingStateFinish` | webkit/Source/WebCore/platform/graphics/texmap/TextureMapperTiledBackingStore.cpp:180-184 | When the erase loop ends, by exhausting the leftovers or by reaching the threshold, the tiles are the reference result with the survivors the threshold allows |
| `TileGrid.CreateOrDestroyTiles` | webkit/Source/WebCore/platform/graphics/texmap/TextureMapperTiledBackingStore.cpp:95-185 | With both flags clear and the cached visible rectangle equal to the content rectangle, nothing changes; otherwise both flags end clear; tiles or visible rectangle change only to the given visible rectangle |
| `TileGrid.CreateOrDestroyTilesIdleView` | webkit/Source/WebCore/platform/graphics/texmap/TextureMapperTiledBackingStore.cpp:103-122 | Past the guard, with no visible rectangle (empty clip) or with the cached one, the update only clears both dirty flags |
| `TileGrid.CreateOrDestroyTilesKeepsPartition` | webkit/Source/WebCore/platform/graphics/texmap/TextureMapperTiledBackingStore.cpp:95-185 | With the threshold of 0, an update keeps the tiles exactly the cells of the cover rectangle of the visible rectangle |
| `TileGrid.CreateOrDestroyTilesMarksDirty` | webkit/Source/WebCore/platform/graphics/texmap/TextureMapperTiledBackingStore.cpp:133-176 | After a real update the dirty rectangle covers the old one and every recycled or new tile, which shows its whole cell; the tiles inside the rigid rectangle come through unchanged |
| `TileGrid.Uploaded` | webkit/Source/WebCore/platform/graphics/texmap/TextureMapperTiledBackingStore.cpp:38-39 | One tile's upload keeps its rectangle and visible rectangle; it ends with a texture iff it had one or was handed one, and a texture handed to it is the one it keeps |
| `TileGrid.Upload` | webkit/Source/WebCore/platform/graphics/texmap/TextureMapperTiledBackingStore.cpp:38-39 | The upload loop keeps the tile count and every tile's rectangle, in order |
| `TileGrid.UploadAt` | webkit/Source/WebCore/platform/graphics/texmap/TextureMapperTiledBackingStore.cpp:38-39 | Tile i comes out of the loop as tile i uploaded with the i-th texture handed over, each tile on its own |
| `TileGrid.UploadNothing` | webkit/Source/WebCore/platform/graphics/texmap/TextureMapperTiledBackingStore.cpp:38-39 | A loop that hands no tile a texture leaves the tiles exactly as they were |
| `TileGrid.UploadGrid` | webkit/Source/WebCore/platform/graphics/texmap/TextureMapperTiledBackingStore.cpp:52-53 | After the upload loop the grid has the same tile rectangles, cached rectangles, dirty rectangle and flags |
| `TileGrid.UploadKeepsPartition` | webkit/Source/WebCore/platform/graphics/texmap/TextureMapperTiledBackingStore.cpp:38-39 | A grid whose tiles are exactly the cells of its cover rectangle still is after the upload loop |
| `TiledBackingStore.TextureMapperTiledBackingStore.constructor` | webkit/Source/WebCore/platform/graphics/texmap/TextureMapperTiledBackingStore.h:62-72 | A fresh store has no tiles, size, image or source layer, scale 1, both flags clear, the flag UpdateCannotModifyOriginalImageData, and empty dirty, visible and cover rectangles |
| `TiledBackingStore.TextureMapperTiledBackingStore.ContentsRect` | webkit/Source/WebCore/platform/graphics/texmap/TextureMapperTiledBackingStore.h:55-60 | `rect()` sits at the origin; with scale 1 it has the contents size; non-negative size and scale give a non-negative rectangle |
| `TiledBackingStore.TextureMapperTiledBackingStore.UpdateContentsScale` | webkit/Source/WebCore/platform/graphics/texmap/TextureMapperTiledBackingStore.cpp:86-93 | The same scale changes nothing; a new scale is stored and sets the scale-dirty flag, and nothing else changes |
| `TiledBackingStore.TextureMapperTiledBackingStore.UpdateContents` | webkit/Source/WebCore/platform/graphics/texmap/TextureMapperTiledBackingStore.cpp:187-194 | Layer, size, flag and dirty rectangle are replaced, not united; size-dirty holds iff the size changed; tiles, image, scale, scale-dirty and the cached rectangles are untouched |
| `TiledBackingStore.TextureMapperTiledBackingStore.SetContentsToImage` | webkit/Source/WebCore/platform/graphics/texmap/TextureMapperTiledBackingStore.h:46 | The image is stored and the size becomes its size, or zero for none; tiles, dirty rectangle, both flags, scale and layer are untouched |
| `TiledBackingStore.TextureMapperTiledBackingStore.CreateOrDestroyTilesIfNeeded` | webkit/Source/WebCore/platform/graphics/texmap/TextureMapperTiledBackingStore.cpp:95-185 | The new grid state (tiles, cached rectangles, dirty rectangle, flags) is exactly the reference update with the threshold of 0; the contents fields are untouched |
| `TiledBackingStore.TextureMapperTiledBackingStore.RecycleOrCreateTiles` | webkit/Source/WebCore/platform/graphics/texmap/TextureMapperTiledBackingStore.cpp:136-184 | The tiles become the reference walk over the listed cells and candidates, and the dirty rectangle the union of the old one with every cell; nothing else changes |
| `TiledBackingStore.TextureMapperTiledBackingStore.CollectTileRectsToAdd` | webkit/Source/WebCore/platform/graphics/texmap/TextureMapperTiledBackingStore.cpp:142-148 | The nested loops produce the cells to add in row-major order |
| `TiledBackingStore.TextureMapperTiledBackingStore.AppendRowCells` | webkit/Source/WebCore/platform/graphics/texmap/TextureMapperTiledBackingStore.cpp:143-147 | The inner loop appends the cells of one row outside the rigid rectangle, left to right |
| `TiledBackingStore.TextureMapperTiledBackingStore.CollectTileIndicesToRemove` | webkit/Source/WebCore/platform/graphics/texmap/TextureMapperTiledBackingStore.cpp:151-156 | The descending loop produces the removal candidates, largest index first |
| `TiledBackingStore.TextureMapperTiledBackingStore.RecycleTiles` | webkit/Source/WebCore/platform/graphics/texmap/TextureMapperTiledBackingStore.cpp:159-176 | After the recycle loop the tiles and leftover indices are in the reference walk's state for all cells, and the dirty rectangle is the union with every cell |
| `TiledBackingStore.TextureMapperTiledBackingStore.PlaceTile` | webkit/Source/WebCore/platform/graphics/texmap/TextureMapperTiledBackingStore.cpp:160-175 | One round unites the cell into the dirty rectangle and recycles the last candidate, or appends a new tile once none is left, advancing the loop state by one cell |
| `TiledBackingStore.TextureMapperTiledBackingStore.RecycleTileAt` | webkit/Source/WebCore/platform/graphics/texmap/TextureMapperTiledBackingStore.cpp:165-171 | Only the tile at the index changes, and it becomes the recycled tile |
| `TiledBackingStore.TextureMapperTiledBackingStore.EraseTiles` | webkit/Source/WebCore/platform/graphics/texmap/TextureMapperTiledBackingStore.cpp:180-184 | The erase loop leaves the reference walk's result for the threshold given |
| `TiledBackingStore.TextureMapperTiledBackingStore.UpdateContentsFromImageIfNeeded` | webkit/Source/WebCore/platform/graphics/texmap/TextureMapperTiledBackingStore.cpp:32-44 | Without an image nothing changes; with one the grid takes the reference update, with alpha unless the image is known opaque, then every tile takes the texture its upload leaves it, and the image is released; the other contents fields are untouched |
| `TiledBackingStore.TextureMapperTiledBackingStore.UpdateContentsFromLayerIfNeeded` | webkit/Source/WebCore/platform/graphics/texmap/TextureMapperTiledBackingStore.cpp:46-56 | Without a source layer nothing changes; with one the grid takes the reference update with alpha, then every tile takes the texture its upload leaves it, and the dirty rectangle is emptied; the contents fields are untouched |
| `TiledBackingStore.TextureMapperTiledBackingStore.UploadTiles` | webkit/Source/WebCore/platform/graphics/texmap/TextureMapperTiledBackingStore.cpp:52-53 | The per-tile loop leaves exactly the reference upload of the old tiles, and no other field changes |
| `TiledBackingStore.TextureMapperTiledBackingStore.PaintToTextureMapper` | webkit/Source/WebCore/platform/graphics/texmap/TextureMapperTiledBackingStore.cpp:63-70 | The grid state becomes the image path (when an image is set: the update with alpha unless it is known opaque, then the uploads) followed by the layer path (when a layer is set: the update with alpha, the uploads, an emptied dirty rectangle); the image is consumed and every other contents field is untouched; one paint per tile, at its rectangle, in order |
| `TiledBackingStore.TextureMapperTiledBackingStore.DrawBorder` | webkit/Source/WebCore/platform/graphics/texmap/TextureMapperTiledBackingStore.cpp:72-77 | Without changing any state, one border per tile, around its rectangle, in order |
| `TiledBackingStore.TextureMapperTiledBackingStore.TileRectsInOrder` | webkit/Source/WebCore/platform/graphics/texmap/TextureMapperTiledBackingStore.cpp:68-69 | The per-tile loop visits each tile's rectangle once, in index order |
| `TiledBackingStore.TextureMapperTiledBackingStore.DrawRepaintCounter` | webkit/Source/WebCore/platform/graphics/texmap/TextureMapperTiledBackingStore.cpp:79-84 | Without changing any state, one counter per tile, at its top-left corner, in order |
| `TiledBackingStore.TextureMapperTiledBackingStore.Texture` | webkit/Source/WebCore/platform/graphics/texmap/TextureMapperTiledBackingStore.cpp:196-204 | None iff no tile has a texture; otherwise the texture of the first tile that has one |
| `Crnet.CrnetLibrary.GetDerEncodedCertificate` | webkit/WebKitLibraries/win/include/crnet.h:331-337 | A fetch returns 0 with the certificate's bytes, or -1 with none when the library cannot produce them; each fetch is logged |
| `Crnet.CrnetLibrary.FreeCertificate` | webkit/WebKitLibraries/win/include/crnet.h:339-341 | A release of the handle is logged and nothing else changes |
| `Crnet.ContainsNonRootSha1SignedCertificate` | webkit/Source/WebCore/platform/network/crnet/CrnetCertificate.cpp:67-70 | True iff bit 12 of the status is set, whatever the other bits are |
| `Crnet.CrnetCertificate.ContainsNonRootSha1Signed` | webkit/Source/WebCore/platform/network/crnet/CrnetCertificate.cpp:67-70 | The certificate's query is true iff bit 12 of its status is set |
| `Crnet.CrnetCertificate.constructor` | webkit/Source/WebCore/platform/network/crnet/CrnetCertificate.cpp:33-38 | A new certificate holds the given handle, an empty buffer, nothing retrieved and status 0; the validity dates are left unconstrained |
| `Crnet.CrnetCertificate.DerEncoded` | webkit/Source/WebCore/platform/network/crnet/CrnetCertificate.cpp:48-59 | With a handle and nothing retrieved it fetches exactly once, appends the bytes only on success, and marks them retrieved even on failure; otherwise it fetches nothing, changes nothing and returns the current buffer |
| `Crnet.CrnetCertificate.SetDerEncoded` | webkit/Source/WebCore/platform/network/crnet/CrnetCertificate.cpp:61-65 | The buffer becomes exactly the given bytes and is marked retrieved, so a later DerEncoded returns them without fetching |
| `Crnet.CrnetCertificate.SetStatus` | webkit/Source/WebCore/platform/network/crnet/CrnetCertificate.h:45-46 | status() afterwards returns the value set; nothing else changes |
| `Crnet.CrnetCertificate.Status` | webkit/Source/WebCore/platform/network/crnet/CrnetCertificate.h:46 | Returns the stored status word, the one whose bit 12 the SHA-1 query tests |
| `Crnet.CrnetCertificate.ValidStart` | webkit/Source/WebCore/platform/network/crnet/CrnetCertificate.h:50 | Returns the stored validity start date, the one SetValidStart writes |
| `Crnet.CrnetCertificate.ValidExpiry` | webkit/Source/WebCore/platform/network/crnet/CrnetCertificate.h:51 | Returns the stored expiry date, the one SetValidExpiry writes |
| `Crnet.CrnetCertificate.SetValidStart` | webkit/Source/WebCore/platform/network/crnet/CrnetCertificate.h:50-52 | validStart() afterwards returns the value set; nothing else changes |
| `Crnet.CrnetCertificate.SetValidExpiry` | webkit/Source/WebCore/platform/network/crnet/CrnetCertificate.h:51-53 | validExpiry() afterwards returns the value set; nothing else changes |
| `Crnet.CrnetCertificate.Destroy` | webkit/Source/WebCore/platform/network/crnet/CrnetCertificate.cpp:40-46 | The handle, if any, is released once and set to null; without one nothing is released; the other fields are untouched |

## Left out

- **The transform and clip math.** This covers the content rectangle's scaling, `mapRect`, the clip bounds inflated by one tile, the intersection and the inverse with its identity fallback (TextureMapperTiledBackingStore.cpp:106-119). It is floating-point matrix work. Its result, the visible rectangle, is a parameter (`view`, None when the clipped rectangle is empty).
- **Float coordinates.** Tile-space coordinates are non-negative integers. On those, the source's float-to-int truncation of `v / t` is the floor and that of `(v + t - 1) / t` is the ceiling. Negative coordinates are out of scope. The source's visible rectangle is a float rectangle and, after the inverse mapping (cpp:119), usually has fractional edges. On those the integer model's guarantees do not carry over: the cover rectangle can miss a strip of less than one pixel at its right and bottom edges (a right edge of 512.5 with tiles of 512 gives `tilesEnd` 1 at cpp:125, so the cover ends at 512), and the rigid rectangle can reach past the overlap on its left and top edges by less than one pixel (an overlap starting at 0.5 gives a rigid origin of 0 at cpp:129). `TileGrid.CoverRect` and `TileGrid.RigidCoverRect` are stated for integer rectangles only.
- **The content rectangle and the contents scale.** Both are reals. They enter only the guard comparison with the cached visible rectangle.
- **The tile size.** It is a function-local static fixed on the first call (cpp:97-98). Here it is a parameter of each call. `TileGrid.TileSizeFor` only documents the value that first call computes; no method is tied to it.
- **Non-positive texture sizes.** Every grid operation requires `ValidTileSize`, both tile edges positive. A largest texture edge of 0 or less would make a tile edge of 0 or less. With an edge of 0, cpp:124-125 divide by zero, and converting the resulting infinite or undefined quotient to an integer is undefined behaviour; cpp:126 then multiplies by 0, so the cover rectangle has zero extent on that axis and the loops at cpp:142-143 add no cell. With a negative edge, `x += width` or `y += height` can move away from the end and those loops can run forever. That input is not modelled.
- TileGrid.Regrid: the reference walk has no contract of its own. Its properties are the lemmas about it (`RegridKeepsRigidTiles`, `RegridAppendsOnlyWhenPoolIsEmpty`, `RegridLengthWithLeftovers`, `RegridShrinks`, `RegridRecyclesInIndexOrder`, `RegridRects`, `RegridPartitionsCover`, `RegridPlacesEveryOtherTile`).
- **Unseen collaborators.**
  - `TextureMapperTile::updateContents` and `paint` are not part of this model. The upload loops (cpp:38-39, 52-53) are modelled as an opaque step: the texture each tile's upload leaves it with is a parameter (`textures`), and a tile handed none keeps its own. The pixels uploaded, the image rectangle and the dirty rectangle handed to each tile are not modelled.
  - `calculateExposedTileEdges`, `adjustedTransformForRect` and the image observer's `didDraw` notification are not modelled either.
  - Painting, drawBorder and drawRepaintCounter return the per-tile rectangles or corners they would draw at.
- **Reference counting and aliasing.**
  - `RefPtr`/`PassRefPtr` ownership of the store, the image, the textures and the certificate is not modelled.
  - A texture is a value with an id, so sharing a texture object between tiles is not modelled.
  - `create()` of both classes is the constructor.
- **The crnet library.** Only the DER fetch and the release are modelled, as a stand-in class with a table of encodings and call logs.
  - The model does not capture that the returned array is only valid until the next call into the library. The certificate copies it, and the stand-in hands over a value.
  - The network bridge around the library is not part of this model.
- Crnet.CrnetCertificate.DerEncoded: the buffer is modelled as the bytes, not as a `Vector<char>` with a capacity.
- **Integer widths.** The `int` status is its 32 bits (`bv32`), and the validity dates are `int64`.
