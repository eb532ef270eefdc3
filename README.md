# Vertex painting on a procedural texture atlas

This project is a Dafny model of the core of a small Unity project. The
project paints meshes: each vertex has a colour, and a texture is laid out as
an atlas with one square cell per triangle. Two painting components share
this layout:

- `ProceduralPlane` gives each triangle's three vertices fixed corners of its
  cell. It writes their colours, plus one mean colour, into a flat colour
  buffer. Its brush paints an unclamped `penSize` by `penSize` block.
- `MeshColorTexture` picks the corners by the parity of the triangle's first
  index slot. It pads the texture in place by copying pixels one to the left.
  Its brush is clamped at the right and top edges of the texture, and is
  applied at five ray hits around the mouse.

Both components pick the vertex nearest to the hit point and recolour it,
together with every vertex coinciding with it. Two mesh builders
(`GeneratePlane`, `DuplicateVerticesOfMesh`) produce meshes with one vertex
per index slot, which is what the bake needs.

Modules:

- `Values`: Unity value types (`Color`, `Vector2`, `Vector2Int`, `Vector3`) as datatypes.
- `Packing`: integer layout of the atlas. Covers the size computed in `Start`, the cursor `ud`, cell origins, flat indices and the normalisation of texture coordinates.
- `Cells`: the texture coordinates the half-grid walk over a cell gives a triangle's vertices, under both corner mappings.
- `Padding`: the left-copy padding pass.
- `Brush`: the brush block. Covers the anchor, the C# truncating cast, clamping and `SetPixels`.
- `Picking`: the hit scan, the nearest-vertex scan, the coincident vertices and the recolouring.
- `PlanePainter`: class `ProceduralPlane` and its pixel bake.
- `MeshPainter`: class `MeshColorTexture`.
- `MeshGenerator`: `DuplicateVerticesOfMesh` and `GeneratePlane`. Both copies of `GeneratePlane` are identical and share one model.
- `AssetNames`: the trim of the mesh name in `SaveModelUV`.

The components' in-place work is imperative Dafny:

- the bake loops over `uv` arrays, the colour buffer and the texture;
- the fill loops of the brush;
- the scans of `HandleInput` and the recolouring loop;
- the loops of the mesh builders.

Each method is proved against a function of the inputs or the old state. The
properties are lemmas about those functions:

- where the corners of each triangle land;
- disjointness of cells;
- in-bounds writes;
- what the padding leaves alone;
- the shape of the brush block;
- the picking rule;
- the index structure of the plane.

Where the code and the design description differ, the model follows the
code. With zero ray hits, `HandleInput` still recolours the vertices nearest
to the world origin, because `hitWorldPosition` stays `Vector3.zero`.

## Model

| member | source | states |
|---|---|---|
| Values.Mean | Assets/ProceduralPlane.cs:214 | The mean of two equal colours is that colour (component-wise `(c1 + c2) / 2`). |
| Packing.AtlasSize | Assets/ProceduralPlane.cs:43-54 | No atlas exactly when there are triangles but `textureWidth` is 0 (integer division by zero). Otherwise width is cells-per-row times `resolution` and at most `textureWidth * resolution`, and height is the row count (`N / textureWidth + 1` beyond one row) times `resolution`. |
| Packing.CellsPerRowIsMinimum | Assets/ProceduralPlane.cs:45-52 | A row of the atlas holds the smaller of the triangle count and `textureWidth` cells. The count is at most each of them and equals one of them. |
| Packing.RowCount | Assets/ProceduralPlane.cs:45-53 | There is at least one row of cells, and exactly one when the triangles fit in one row. Beyond one row, the count `r` satisfies `(r - 1) * textureWidth <= N < r * textureWidth`, so the `N` triangles fit in `r` rows. |
| Packing.AtlasColumns | Assets/Script/MeshColorTexture.cs:38-49 | The atlas `MeshColorTexture.Start` sizes for a nonempty mesh is a whole number of cells wide. |
| Packing.ExactMultipleLeavesEmptyRow | Assets/ProceduralPlane.cs:53 | When the triangle count is an exact multiple of `textureWidth` (beyond one row), the floor+1 rule leaves the last row of cells empty. |
| Packing.AdvanceToNextCell | Assets/ProceduralPlane.cs:235-240 | One step of the cursor (right by `resolution`, wrapping to the next row at `width`) moves from the cell of triangle `t` to the cell of triangle `t + 1`. |
| Packing.Advance | Assets/ProceduralPlane.cs:235-240 | A step moves the cursor `resolution` to the right on its row, or to column 0 of the row `resolution` higher. With a positive `width` the new column is left of `width`. |
| Packing.CursorIsCellOrigin | Assets/Script/MeshColorTexture.cs:257-262 | After `t` triangles the cursor stands at `((t mod C) * res, (t div C) * res)` in closed form. |
| Packing.CursorAfter | Assets/Script/MeshColorTexture.cs:257-262 | With a non-negative `resolution` and a positive `width`, the cursor's column stays in `[0, width)` and its row is never negative. |
| Packing.CellInside | Assets/ProceduralPlane.cs:43-54 | Every triangle's cell lies inside the atlas `Start` computes. |
| Packing.CursorInside | Assets/ProceduralPlane.cs:195 | Wherever the cursor stands for one of the triangles, the whole cell lies on the atlas. |
| Packing.CursorStill | Assets/ProceduralPlane.cs:235-240 | With resolution 0 the cursor never leaves the origin. |
| Packing.CellsDisjoint | Assets/ProceduralPlane.cs:195 | The cells of distinct triangles share no pixel. |
| Packing.FlatInRange | Assets/ProceduralPlane.cs:345-348 | `x + y * width` of a pixel on the atlas is an index of the `width * height` buffer. |
| Packing.FlatInjective | Assets/ProceduralPlane.cs:345-348 | Distinct pixels of rows `width` long have distinct flat indices. |
| Packing.Normalized | Assets/ProceduralPlane.cs:248-249 | With `width != 1` and `height != 1`, multiplying the result back by `width - 1` and `height - 1` gives the original coordinate: the division is exact. |
| Packing.NormalizedAll | Assets/ProceduralPlane.cs:246-250 | Normalisation keeps the number of texture coordinates. |
| Packing.NormalizedInUnitSquare | Assets/ProceduralPlane.cs:246-250 | With `width > 1` and `height > 1`, every coordinate on the atlas lands in `[0, 1]` squared. |
| Packing.NormalizedInjective | Assets/Script/MeshColorTexture.cs:267-271 | Distinct pixel coordinates stay distinct after division by `width - 1` and `height - 1`. |
| Packing.NormalizeUvs | Assets/Script/MeshColorTexture.cs:267-271 | The loop divides every coordinate in place, giving `NormalizedAll` of the old array. |
| Packing.TwoTrianglesScenario | Assets/ProceduralPlane.cs:43-54 | Two triangles at resolution 4 with `textureWidth` 100: an 8 by 4 atlas, second cell at `(4, 0)`. |
| Cells.CellUvComplete | Assets/ProceduralPlane.cs:197-234 | All the corner steps of the half-grid walk make up the whole cell's effect on `uv`. |
| Cells.CellUv | Assets/ProceduralPlane.cs:197-234 | The walk over one cell keeps the number of texture coordinates. What it writes is stated by `CellUvAvoids`, `CellUvInAtlas` and `BakeUvLastCorners`. |
| Cells.BakeUv | Assets/Script/MeshColorTexture.cs:170-263 | The walk over the first `n` triangles, under either corner mapping, keeps the number of texture coordinates. Where the corners land is stated by `BakeUvCorners` and `BakeUvCursorCorners`. |
| Cells.Roles | Assets/Script/MeshColorTexture.cs:172-238 | The corner roles are three distinct vertices. The fixed mapping is `(0, 1, 2)`. The parity mapping always puts the bottom-left corner on slot `k + 1`. |
| Cells.CellUvAvoids | Assets/ProceduralPlane.cs:204-224 | The walk over a cell writes no coordinate but those of its triangle's three corner vertices. |
| Cells.CornerVerticesFrom | Assets/Script/MeshGenerator.cs:99 | With unshared vertices in range, each triangle's three corner vertices are distinct vertices of the mesh. |
| Cells.CornersLast | Assets/ProceduralPlane.cs:204-224 | For `resolution >= 2`, the cell gives its three vertices the bottom-left `(ox, oy)`, top-left `(ox, oy + res - 1)` and top-right `(ox + res - 1, oy + res - 1)` corners. |
| Cells.CornersKept | Assets/ProceduralPlane.cs:195-241 | A later cell leaves the corners of an earlier triangle alone when vertices are unshared. |
| Cells.BakeUvStep | Assets/ProceduralPlane.cs:195-241 | Baking `t + 1` triangles is baking `t` and then the cell of triangle `t` at the cursor. |
| Cells.BakeUvLastCorners | Assets/ProceduralPlane.cs:201-223 | The last baked triangle holds its corners. |
| Cells.BakeUvKeepsCorners | Assets/Script/MeshColorTexture.cs:170-263 | Baking one more triangle keeps the corners of an earlier one. |
| Cells.BakeUvCursorCorners | Assets/ProceduralPlane.cs:201-223 | After the whole bake, every triangle's vertices hold the corners of the cell where the cursor stood for it, under either mapping. |
| Cells.BakeUvLaterCorners | Assets/Script/MeshColorTexture.cs:170-263 | The inductive step: an earlier triangle keeps its corners to the end. |
| Cells.BakeUvCorners | Assets/Script/MeshColorTexture.cs:172-238 | Triangle `t` holds its corners at the closed-form cell origin `((t mod C) * res, (t div C) * res)`. |
| Cells.BakeUvUnwritten | Assets/ProceduralPlane.cs:204-209 | At resolution 1, a vertex of a later triangle is never written. |
| Cells.SingleCell | Assets/ProceduralPlane.cs:204-209 | At resolution 1, the else-if chain catches `(0, 0)` first: only the bottom-left vertex gets the cell origin, and the other two keep their coordinates. |
| Cells.SingleKept | Assets/ProceduralPlane.cs:195-241 | At resolution 1, a later cell leaves an earlier triangle alone. |
| Cells.BakeUvSinglePixel | Assets/ProceduralPlane.cs:204-224 | At resolution 1, after the whole bake only each triangle's bottom-left vertex holds its cell origin, and the other two keep their original coordinates. |
| Cells.CellUvInAtlas | Assets/ProceduralPlane.cs:201-202 | A cell on the atlas writes only coordinates of pixels on the atlas. |
| Cells.BakeUvInAtlas | Assets/Script/MeshColorTexture.cs:170-263 | Every coordinate after the bake is either one it had before or a pixel of the atlas. |
| Padding.Copied | Assets/Script/MeshColorTexture.cs:198 | A pixel copy keeps the buffer's length. |
| Padding.PadCopies | Assets/Script/MeshColorTexture.cs:196-207 | A step of the walk (`j <= i`) that copies is never on the cell's bottom row (`i >= 1`). A `j == 0` step copies only when the column left of the cell is past 0. |
| Padding.PadStep | Assets/Script/MeshColorTexture.cs:198 | One step keeps the texture's length. The pixel it writes is stated by `PadTarget`, and what it keeps by `PadStepKeeps`. |
| Padding.PadRow | Assets/Script/MeshColorTexture.cs:176-208 | One row of the walk keeps the texture's length. `PadRowKeeps` and `PadRowColors` state what it keeps. |
| Padding.PadCell | Assets/Script/MeshColorTexture.cs:174-209 | The walk over one cell keeps the texture's length. `PadCellKeeps` and `PadCellColors` state what it keeps. |
| Padding.PadAll | Assets/Script/MeshColorTexture.cs:170-263 | The padding pass over every cell keeps the texture's length. `PadAllKeeps` and `PadAllColors` state what it keeps. |
| Padding.PadTarget | Assets/Script/MeshColorTexture.cs:196-207 | Every padding copy of a cell on the atlas reads and writes atlas pixels, never on the cell's bottom row. A `j == 0` copy writes into the column left of the cell, and only when that column is past 0. Other copies write inside the cell. |
| Padding.CopiedColors | Assets/Script/MeshColorTexture.cs:198 | A copy introduces no new colour. |
| Padding.PadRowColors | Assets/Script/MeshColorTexture.cs:215-252 | A row of the walk introduces no new colour. |
| Padding.PadCellColors | Assets/Script/MeshColorTexture.cs:174-209 | The walk over a cell introduces no new colour. |
| Padding.PadAllColors | Assets/Script/MeshColorTexture.cs:170-263 | The whole padding pass only copies: every colour of the padded texture was already on it. |
| Padding.PadStepKeeps | Assets/Script/MeshColorTexture.cs:240-251 | A copy never writes the last column of the atlas or the bottom row of a row of cells. |
| Padding.PadRowKeeps | Assets/Script/MeshColorTexture.cs:196-207 | The same for a whole row of the walk. |
| Padding.PadCellKeeps | Assets/Script/MeshColorTexture.cs:174-209 | The same for the whole walk over a cell. |
| Padding.PadAllKeeps | Assets/Script/MeshColorTexture.cs:170-263 | The padding pass never changes a pixel in the last column of the atlas or on the bottom row of any row of cells. These include the bottom-left corner pixel of every cell. |
| Brush.Truncate | Assets/ProceduralPlane.cs:265-266 | The C# `(int)` cast truncates toward zero, for negative and non-negative values. |
| Brush.BrushAnchor | Assets/Script/MeshColorTexture.cs:281-282 | A coordinate in `[0, 1]` scales to an anchor in `[0, width]` by `[0, height]`. |
| Brush.ScaledOnSide | Assets/ProceduralPlane.cs:265-266 | A coordinate in `[0, 1]` scaled to a side and truncated lands in `[0, size]`. |
| Brush.ClampedSpan | Assets/Script/MeshColorTexture.cs:284-285 | `penSize` when `x + penSize < size`, else `size - x`. For `0 <= x <= size` the span fits: `0 <= w <= penSize` and `x + w <= size`. |
| Brush.FillColors | Assets/ProceduralPlane.cs:268-272 | A fresh buffer of `n` colours, every one the given colour. |
| Brush.SetPixels | Assets/Script/MeshColorTexture.cs:293 | `Texture2D.SetPixels(x, y, w, h, block)` puts block pixel `i + j * w` at `(x + i, y + j)` and changes nothing else. |
| Brush.UniformBlock | Assets/ProceduralPlane.cs:268-273 | Setting a block from a one-colour buffer paints exactly that block in that colour. |
| Brush.PaintBlock | Assets/ProceduralPlane.cs:273 | Painting a block keeps the texture's size. |
| Brush.BlockPaintedIsPaintBlock | Assets/Script/MeshColorTexture.cs:287-293 | The pixel-wise description of a painted block holds if and only if the buffer equals `PaintBlock` of the old buffer. |
| Brush.ClampedBlockIsPenSquare | Assets/Script/MeshColorTexture.cs:284-293 | For an anchor on the texture, the clamped `w` by `h` block paints exactly what the full pen square would, cut at the texture's edge. |
| Brush.PaintBlockIdempotent | Assets/ProceduralPlane.cs:263-276 | Painting the same block twice is painting it once. |
| Brush.PaintBlocksCommute | Assets/Script/MeshColorTexture.cs:82-86 | Two blocks of one colour can be painted in either order. |
| Picking.FirstMin | Assets/ProceduralPlane.cs:114-123 | The index a strict `<` scan keeps is the lowest index at which the distances are smallest. |
| Picking.ChosenHit | Assets/ProceduralPlane.cs:95-106 | A hit is chosen exactly when there is at least one. |
| Picking.HitPoint | Assets/ProceduralPlane.cs:87-106 | With no hits the point is `Vector3.zero`. Otherwise it is the point of one of the hits. |
| Picking.HitUv | Assets/ProceduralPlane.cs:93-106 | With no hits the coordinate is `Vector2.left`. Otherwise it is the texture coordinate of one of the hits. |
| Picking.NearestHit | Assets/ProceduralPlane.cs:87-106 | The scan over the hits gives the point and texture coordinate of the first nearest hit. With no hits they are `Vector3.zero` and `Vector2.left`. |
| Picking.CoincidentUpTo | Assets/ProceduralPlane.cs:129-136 | A vertex is listed if and only if it is among the first `n` and within `float.Epsilon` of the winner. The list is strictly increasing. |
| Picking.PickedIds | Assets/ProceduralPlane.cs:110-136 | Some vertex is picked if and only if some vertex is at most 1 from the target. Every picked id is a vertex of the mesh. |
| Picking.PickedIdsMembers | Assets/ProceduralPlane.cs:110-136 | A vertex is picked if and only if two things hold. First, the nearest vertex (lowest index on ties) is at most 1 from the target. Second, the vertex is that nearest vertex or coincides with it. |
| Picking.PickedIdsInRange | Assets/Script/MeshColorTexture.cs:122-130 | Every picked id is a vertex of the mesh. |
| Picking.NearestVertex | Assets/ProceduralPlane.cs:110-123 | The scan from vertex 0 returns the first minimum and its distance. |
| Picking.PickVertices | Assets/Script/MeshColorTexture.cs:104-130 | `minIds` is empty when the nearest vertex is more than 1 away. Otherwise it is the winner followed by every coincident vertex. |
| Picking.Recoloured | Assets/ProceduralPlane.cs:140-143 | Recolouring keeps the number of vertex colours. |
| Picking.RecolouredRepeat | Assets/ProceduralPlane.cs:128-136 | The winner listed twice (it also coincides with itself) recolours nothing extra. |
| Picking.RecolouredIdempotent | Assets/Script/MeshColorTexture.cs:134-137 | Recolouring the same ids with the same colour twice is recolouring once. |
| Picking.Recolour | Assets/Script/MeshColorTexture.cs:134-137 | The loop sets exactly the listed colours, in place. |
| PlanePainter.CellPixelsComplete | Assets/ProceduralPlane.cs:197-234 | All corner steps of the walk make up the cell's whole effect on the colour buffer. |
| PlanePainter.CellPixels | Assets/ProceduralPlane.cs:197-234 | The walk over one cell keeps the colour buffer's length. `CellPixelsAvoids` and `CellPixelsLast` state what it writes. |
| PlanePainter.BakePixels | Assets/ProceduralPlane.cs:195-241 | Painting the cells of the first `n` triangles keeps the colour buffer's length. `BakePixelsPainted` and `BakePixelsUntouched` state what it writes. |
| PlanePainter.CellPixelsAvoids | Assets/ProceduralPlane.cs:204-224 | The walk over a cell writes no buffer index but its four corner slots. |
| PlanePainter.CellPixelsLast | Assets/ProceduralPlane.cs:204-224 | For a cell of at least 2 by 2 pixels on the atlas, three corners get their vertices' colours. Pixel `(ox + res - 1, oy)` gets the mean of the first and third vertex colours. |
| PlanePainter.CellPixelsDistinct | Assets/ProceduralPlane.cs:195 | Pixels of the cells of two triangles have distinct flat indices. |
| PlanePainter.PixelApart | Assets/ProceduralPlane.cs:204-224 | A pixel of one triangle's cell is no corner slot of another's. |
| PlanePainter.CornersApart | Assets/ProceduralPlane.cs:204-224 | No corner of one cell is written by the walk over another. |
| PlanePainter.PixelsKept | Assets/ProceduralPlane.cs:195-241 | A walk that writes none of a cell's corners keeps that cell's colours. |
| PlanePainter.BakePixelsStep | Assets/ProceduralPlane.cs:195-241 | Painting `t + 1` triangles is painting `t` and then the cell of triangle `t`. |
| PlanePainter.CellKept | Assets/ProceduralPlane.cs:195-241 | The walk over another triangle's cell keeps a triangle's corner colours. |
| PlanePainter.PaintStep | Assets/ProceduralPlane.cs:195-241 | Painting one more triangle gives it its colours and keeps those of every earlier one. |
| PlanePainter.ChainPainted | Assets/ProceduralPlane.cs:195-241 | Along the buffers of the bake, after `m` cells the first `m` triangles hold their colours. |
| PlanePainter.BakeStatesChain | Assets/ProceduralPlane.cs:195-241 | Consecutive buffers of the bake differ by one cell's walk. |
| PlanePainter.BakePixelsPainted | Assets/ProceduralPlane.cs:204-225 | With `resolution >= 2`, after the bake every triangle holds its vertex colours, and the mean, at the corners of its cell. |
| PlanePainter.BakePixelsCells | Assets/ProceduralPlane.cs:204-225 | The same at the closed-form origin `((t mod C) * res, (t div C) * res)`. |
| PlanePainter.ChainUntouched | Assets/ProceduralPlane.cs:195-241 | Along the buffers of the bake, a pixel that is no corner slot of the first `m` cells is unchanged. |
| PlanePainter.BakePixelsUntouched | Assets/ProceduralPlane.cs:204-225 | Only the four corner slots of painted cells are written. Every other pixel keeps its value. |
| PlanePainter.SlotsInCell | Assets/ProceduralPlane.cs:204-224 | Every slot the walk writes is a pixel of that triangle's cell. |
| PlanePainter.CornersOnBuffer | Assets/ProceduralPlane.cs:345-348 | The four corner pixels of a cell on the atlas have indices inside the buffer. |
| PlanePainter.ProceduralPlane.constructor | Assets/ProceduralPlane.cs:21-68 | `Start`: every vertex colour is white and the active colour black. The atlas is sized by `AtlasSize`. `GenerateTexture` has run, leaving the normalised fixed-mapping bake in `meshUvs`. |
| PlanePainter.ProceduralPlane.SetPixel | Assets/ProceduralPlane.cs:345-348 | Slot `x + y * width` gets the colour; nothing else changes. |
| PlanePainter.ProceduralPlane.WalkCell | Assets/ProceduralPlane.cs:197-234 | The nested `i`/`j` loops give the cell's `uv` and colour-buffer effect. |
| PlanePainter.ProceduralPlane.BakeTriangle | Assets/ProceduralPlane.cs:195-241 | One round of the triangle loop extends both bakes by one triangle and advances the cursor. |
| PlanePainter.ProceduralPlane.GenerateTexture | Assets/ProceduralPlane.cs:186-280 | Returns the colour buffer `BakePixels` of a blank buffer. Sets `meshUvs` to the normalised fixed-mapping bake of the mesh's coordinates. The mesh's coordinates `meshUv` then become `meshUvs`, which is the effect of `SaveModelUV`'s `SetUVs`. |
| PlanePainter.ProceduralPlane.BakeAll | Assets/ProceduralPlane.cs:195-241 | The loop over the triangles, with the cursor starting at the origin, leaves the coordinates as `BakeUv` and the colour buffer as `BakePixels` of all the triangles under the fixed mapping. |
| PlanePainter.ProceduralPlane.PaintTexture | Assets/ProceduralPlane.cs:263-276 | Paints exactly the `penSize` by `penSize` block anchored at the truncated scaled coordinate in the active colour. Every other pixel is unchanged. |
| PlanePainter.ProceduralPlane.HandleInput | Assets/ProceduralPlane.cs:78-148 | The texture is painted only when the chosen hit's `uv.x >= 0`. Colours become `Recoloured` with the picked ids; other colours are unchanged. |
| PlanePainter.ProceduralPlane.SetActiveColor | Assets/ProceduralPlane.cs:150-161 | The active colour changes to the parsed colour on success and stays put on failure. |
| MeshPainter.UnitSquareAnchor | Assets/Script/MeshColorTexture.cs:281-282 | Every texture coordinate in the unit square anchors the brush on the texture or its right and top edges. |
| MeshPainter.Stroke | Assets/Script/MeshColorTexture.cs:142-150 | A missed ray leaves the texture unchanged. |
| MeshPainter.Strokes | Assets/Script/MeshColorTexture.cs:82-86 | The strokes keep the texture's size. |
| MeshPainter.StrokeIsPenSquare | Assets/Script/MeshColorTexture.cs:279-294 | A stroke anchored on the texture paints the whole pen square, cut only at the texture's edge. |
| MeshPainter.StrokesCommute | Assets/Script/MeshColorTexture.cs:82-86 | Two strokes in the same colour can be made in either order. |
| MeshPainter.StrokeIdempotent | Assets/Script/MeshColorTexture.cs:82-86 | A repeated hit paints nothing new. |
| MeshPainter.MeshColorTexture.constructor | Assets/Script/MeshColorTexture.cs:21-63 | `Start`: every vertex colour is white and the active colour black. The atlas is sized by `AtlasSize`. The given texture is padded by `PadAll`, and `meshUvs` holds the normalised parity-mapping bake. |
| MeshPainter.MeshColorTexture.PadPixel | Assets/Script/MeshColorTexture.cs:198 | `SetPixel(x - 1, y, GetPixel(x, y))` on the texture. |
| MeshPainter.MeshColorTexture.WalkRow | Assets/Script/MeshColorTexture.cs:176-208 | One row of the walk: the else-if chain's corner writes to `uv` and its padding copies to the texture. |
| MeshPainter.MeshColorTexture.WalkCell | Assets/Script/MeshColorTexture.cs:174-209 | The whole walk over a cell gives `CellUv` and `PadCell`. |
| MeshPainter.MeshColorTexture.BakeTriangle | Assets/Script/MeshColorTexture.cs:172-262 | One round of the triangle loop picks the roles by parity, extends the `uv` bake and the padding by one triangle, and advances the cursor. |
| MeshPainter.MeshColorTexture.GenerateTexture | Assets/Script/MeshColorTexture.cs:161-298 | The texture becomes `PadAll` of the old texture. `meshUvs` is the normalised parity-mapping bake of the mesh's coordinates. The mesh's coordinates `meshUv` then become `meshUvs`, which is the effect of `SaveModelUV`'s `SetUVs`. |
| MeshPainter.MeshColorTexture.PaintTexture | Assets/Script/MeshColorTexture.cs:279-294 | The texture becomes `Stroke` of the old one: the clamped block in the active colour. |
| MeshPainter.MeshColorTexture.CastRayToPosition | Assets/Script/MeshColorTexture.cs:142-150 | Paints only when the ray hit a collider. |
| MeshPainter.MeshColorTexture.PaintFan | Assets/Script/MeshColorTexture.cs:82-86 | The five casts apply their strokes in order. |
| MeshPainter.MeshColorTexture.HandleInput | Assets/Script/MeshColorTexture.cs:73-140 | The texture gets the five strokes. Colours become `Recoloured` with the picked ids of the nearest hit's point, or of the origin when nothing was hit. |
| MeshPainter.MeshColorTexture.SetActiveColor | Assets/Script/MeshColorTexture.cs:315-326 | The active colour changes on a successful parse only. |
| MeshGenerator.IdentityUnshared | Assets/Script/MeshGenerator.cs:99 | The identity index list names every vertex once and stays in range. |
| MeshGenerator.Duplicated | Assets/Script/MeshGenerator.cs:92-107 | Has as many vertices, normals, indices and coordinates as the input has index slots. |
| MeshGenerator.DuplicateVerticesOfMesh | Assets/Script/MeshGenerator.cs:85-109 | The loop appends vertex and normal `triangles[i]` and sets `triangles[i] = i`, giving `Duplicated(mesh)`. |
| MeshGenerator.DuplicatedKeepsShape | Assets/Script/MeshGenerator.cs:92-107 | The output indices are unshared and in range. Each slot names a vertex at the position, and with the normal, it named before. |
| MeshGenerator.DuplicatedIdempotent | Assets/Script/MeshGenerator.cs:85-109 | Duplicating a duplicated mesh changes nothing. |
| MeshGenerator.InitFitsIff | Assets/Script/MeshGenerator.cs:37-46 | The first loop's writes `j + i * width` stay in the array if and only if `width <= height` or `height == 0`. With `width == 1` the writes always fit. |
| MeshGenerator.InitSlotInRange | Assets/MeshGenerator.cs:23-32 | Under that condition every write of the first loop is in range. |
| MeshGenerator.InitRow | Assets/Script/MeshGenerator.cs:42-45 | One round of the first loop keeps the array's length. `InitRowWrites` and `InitRowKeeps` state what it writes. |
| MeshGenerator.GridInit | Assets/Script/MeshGenerator.cs:37-46 | `vertices_init` after the first loop has `width * height` slots. |
| MeshGenerator.InitRowKeeps | Assets/Script/MeshGenerator.cs:42-45 | One round of the first loop leaves the slots outside its run alone. |
| MeshGenerator.InitRowWrites | Assets/Script/MeshGenerator.cs:42-45 | One round of the first loop writes its run of slots with the grid points `(j, i)`. |
| MeshGenerator.SquareInitGrid | Assets/MeshGenerator.cs:26-32 | On a square grid, after `r` rounds the first `r * width` slots hold their grid points and the rest are zero. |
| MeshGenerator.SquareGridPoints | Assets/Script/MeshGenerator.cs:37-46 | On a square grid slot `j + i * width` holds `(j, i)`. |
| MeshGenerator.GridCollision | Assets/Script/MeshGenerator.cs:44 | On a grid with `2 <= width < height`, slot `width` is first written with `(width, 0)` and then overwritten with `(0, 1)`. |
| MeshGenerator.Quad | Assets/Script/MeshGenerator.cs:55-66 | Each grid square adds six indices. |
| MeshGenerator.RowQuads | Assets/Script/MeshGenerator.cs:50-67 | The squares `1` to `j - 1` of a row add six indices each, `6 * (j - 1)` in all. |
| MeshGenerator.GridQuadsLength | Assets/MeshGenerator.cs:34-54 | Rows `1` to `i - 1` of the second loop add `(i - 1) * 6 * (height - 1)` indices, none when `i <= 1` or `height <= 1`. This is the length of `GridQuads`, and of `PlaneIndices` at `i == width`. |
| MeshGenerator.PlaneIndexCount | Assets/Script/MeshGenerator.cs:48-68 | The plane has `6 * (width - 1) * (height - 1)` index slots. |
| MeshGenerator.QuadSlotClosedForm | Assets/MeshGenerator.cs:34-54 | Square `(j, i)` starts at slot `6 * ((i - 1) * (height - 1) + (j - 1))`. |
| MeshGenerator.GridQuadsSlot | Assets/MeshGenerator.cs:41-52 | The six indices at that slot are `v0, v1, v2, v2, v1, v3`, with `v0 = (j-1) + (i-1) * width`, `v1 = (j-1) + i * width`, `v2 = j + (i-1) * width` and `v3 = j + i * width`. |
| MeshGenerator.PlaneIndicesInRange | Assets/Script/MeshGenerator.cs:55-72 | When the first loop is in range, every index of the plane names a slot of `vertices_init`. |
| MeshGenerator.PlaneMesh | Assets/MeshGenerator.cs:56-66 | One vertex, one index and one zero coordinate per index slot of the plane. |
| MeshGenerator.GeneratePlane | Assets/Script/MeshGenerator.cs:31-83 | The three loops give `PlaneMesh`: `vertices_init` gathered through the plane's indices, the identity index list, and zero coordinates. |
| MeshGenerator.FillGrid | Assets/MeshGenerator.cs:23-32 | The first loop gives `GridInit`. |
| MeshGenerator.FillRow | Assets/Script/MeshGenerator.cs:42-45 | Round `i` of the first loop gives `InitRow`. |
| MeshGenerator.GridTriangles | Assets/MeshGenerator.cs:34-54 | The second loop gives `PlaneIndices`. |
| MeshGenerator.SquareQuadCorner | Assets/Script/MeshGenerator.cs:70-74 | On a square grid the flattened vertex at a square's slot is the grid point its index names. |
| MeshGenerator.Gather | Assets/Script/MeshGenerator.cs:70-74 | The flattening loop gives one vertex per index slot. |
| MeshGenerator.SquarePlaneQuad | Assets/MeshGenerator.cs:41-63 | On a square grid, the two triangles of square `(j, i)` join `(j-1, i-1), (j-1, i), (j, i-1)` and `(j, i-1), (j-1, i), (j, i)`. Each corner has a vertex of its own. |
| AssetNames.TrimmedName | Assets/ProceduralPlane.cs:282-287 | A name longer than 9 characters loses its last 9 characters. A shorter one is unchanged. The result is always a prefix. |
| AssetNames.TrimmedInstance | Assets/Script/MeshColorTexture.cs:300-305 | The trim undoes Unity's `" Instance"` suffix on every nonempty name. |
| AssetNames.TrimmedBareSuffix | Assets/Script/MeshColorTexture.cs:301 | A bare `" Instance"` (exactly 9 characters) is not trimmed. |
| AssetNames.TrimmedAnyTail | Assets/ProceduralPlane.cs:283-285 | Whatever the last 9 characters are, a longer name loses exactly them. |

## Left out

- Unity lifecycle and wiring are not modelled:
  - `Update`'s mouse polling;
  - `GetComponent`, `AddComponent(MeshCollider)`;
  - `Debug.Log`, `Debug.DrawLine`.
- Persistence is I/O and is not modelled:
  - `AssetDatabase` loading, creating and saving;
  - `File.WriteAllBytes`, `EncodeToPNG`;
  - `texture.Apply`, `filterMode`/`wrapMode`.
- `SaveModelUV`: only its name trim and the effect of `SetUVs` are modelled. `SetUVs` is modelled as the assignment `meshUv := meshUvs` at the end of `GenerateTexture`.
- Loading or creating the texture in `Start` is I/O. Its pixels are a constructor parameter.
- Ray casting is not modelled. `ScreenPointToRay`, `Physics.RaycastAll` and `Physics.Raycast` are foreign calls. Their results are inputs: the hit list of `HandleInput`, and the optional texture coordinate of each of the five fan rays.
- World transforms are not modelled: `UpdateWorldVerticesPosition`, `RotateModelVertically` and `RotateModelHorizontally`. World positions are a constructor parameter.
- `Vector3.Distance` is a function parameter.
- `ColorUtility.TryParseHtmlString` is a parser parameter. Only the state rule around it is modelled.
- Floating point is not modelled:
  - colours, coordinates and distances are exact reals;
  - `Mean` is exact, with no float rounding;
  - `float.PositiveInfinity` in the hit scan is replaced by "no candidate yet".
- Values.Mean: its contract states only that the mean of equal colours is that colour; its body is the exact component-wise mean.
- Normalisation requires `width != 1` and `height != 1`. C# would divide by zero and get infinity or NaN.
- The constructors require that `textureWidth` is not 0 when there are triangles, because C# raises on integer division by zero.
- `ProceduralPlane` discards its colour buffer in the source: the `SetPixels` call is commented out at `Assets/ProceduralPlane.cs:243`. The model returns the buffer from `GenerateTexture` so that its contents can be stated.
- `MeshColorTexture` allocates `textureColors` but never uses it. It is not modelled.
- `PaintTexture` ignores its `color` parameter in both components. The model keeps the parameter and paints `activeColor`, as the source does.
- PlanePainter.ProceduralPlane.PaintTexture: requires the unclamped block to lie on the texture (`BrushFits`). What Unity's `SetPixels` does with a block outside the texture is not modelled.
- MeshPainter.MeshColorTexture.PaintTexture: requires the anchor to lie on the texture or on its right or top edge. Coordinates outside the unit square, and the negative `w` or `h` those would give, are not modelled.
- `OnVertexColorUpdate` in `Assets/ProceduralPlane.cs` is dead code: its call is commented out. It is not modelled.
- `GenerateMesh` in both mesh generator files only chooses a builder and saves the asset. It is not modelled.
- MeshGenerator.GeneratePlane: requires `InitFits`. When the first loop's index leaves `vertices_init`, C# raises; that case is excluded rather than modelled as an error. `InitFitsIff` states the exact condition. Negative `width` or `height` are excluded by `nat`.
- MeshGenerator.Duplicated: vertex colours are not part of the modelled mesh; the source does not copy them either.
- Picking.PickVertices: the list is kept as the source builds it, with the winner listed twice.
- Integer width: C# `int` is 32 bits and wraps on overflow, but the model's `int` and `nat` are unbounded. Overflow is not modelled in these products:
  - `resolution * trianglesCount` and `textureWidth * resolution` (`Assets/ProceduralPlane.cs:47-53`, `Assets/Script/MeshColorTexture.cs:42-48`);
  - `width * height` (`Assets/ProceduralPlane.cs:193`, `Assets/Script/MeshColorTexture.cs:168`);
  - `x + y * width` in `SetPixel` (`Assets/ProceduralPlane.cs:347`);
  - `j + i * width` and `width * height` in `GeneratePlane` (`Assets/MeshGenerator.cs:23,30`, `Assets/Script/MeshGenerator.cs:37,44`).
- Negative fields: `resolution`, `textureWidth` and `penSize` are public C# `int` fields that could be set negative. The constructors take them as `nat`, so negative values are not modelled.
- PlanePainter.ProceduralPlane.HandleInput: requires a mesh with at least one vertex. On an empty mesh the source throws at `worldVertices[0]`; that exception is not modelled.
- PlanePainter.ProceduralPlane.HandleInput: inherits the precondition of `PaintTexture`. When a hit is chosen, the brush block at its texture coordinate has to fit on the texture (`BrushFits`).
- MeshPainter.MeshColorTexture.HandleInput: requires a mesh with at least one vertex. For the same reason, the exception the source throws on an empty mesh is not modelled.
- MeshPainter.MeshColorTexture.HandleInput: inherits the precondition of `PaintTexture`. Every fan ray that hits has to give an anchor on the texture (`AnchorOnTexture`).
- MeshPainter.MeshColorTexture.CastRayToPosition: inherits the same precondition of `PaintTexture` for its one hit.
- MeshPainter.MeshColorTexture.PaintFan: inherits the same precondition of `PaintTexture` for every hit of the fan.
- Picking.NearestVertex: requires a nonempty vertex list, since the scan starts at `worldVertices[0]`.
- Picking.PickVertices: requires a nonempty vertex list, for the same reason.
- PlanePainter.ProceduralPlane.constructor: requires one texture coordinate per vertex. A mesh without a UV channel has `mesh.uv` empty, so `uv[triangles[k]]` throws; that exception is not modelled.
- MeshPainter.MeshColorTexture.constructor: requires one texture coordinate per vertex, for the same reason.
- MeshGenerator.DuplicateVerticesOfMesh: requires every index to name a normal as well as a vertex. A mesh without normals makes `mesh.normals[index]` throw; that exception is not modelled.
- AssetNames.TrimmedName: C# `string.Length` counts UTF-16 code units, while Dafny `string` counts Unicode scalar values. A name with a character outside the Basic Multilingual Plane is trimmed by a different count in the source.
