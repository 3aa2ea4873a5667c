# Hotspot studio: a Dafny model of the raster-to-polygon pipeline

The hotspot studio turns the flat-colour frames of an image series into clickable
polygons ("hotspots"). It marks the background, grows one region per colour by flood
fill, traces the outline of each region, simplifies the outline and exports the
polygons with ids built from a colour map and the frame number. Several small utilities
sit around this pipeline: a colour quantiser, a frame navigator, the pure helpers of
the wire studio (label centroid, area, export ids, naming, legend, zoom) and the
semantic-version arithmetic of the release script.

This project models that logic in Dafny 4.11 and proves properties of it. It has one
module per component:

| module | what it models |
|---|---|
| `Wrappers` | `Option` and `Result` |
| `Colors` | Chebyshev RGB distance, exact RGB equality, `#RRGGBB` formatting, `packRGB`, the FNV-1a colour hash |
| `Grouper` | `ColorGrouper`, the insertion-order colour clusterer, with its ΔE metric as a parameter |
| `Ids` | decimal numbers, `colorMap[color] \|\| color`, the export id `name;frame` |
| `Grid` | `w x h` buffers as rows, cell counts, the row-major flattening |
| `Geometry` | shoelace area (signed and absolute), bounding boxes, the two centroids, `pointSegDist` |
| `Measures` | `perimeter` and `resample` |
| `Rdp` | the iterative RDP, the two recursive RDPs, `rdpClosed` |
| `Simplify` | `simplifyClosedPolygon` and `finishManual` |
| `Flood` | the 8-connected floods (by tolerance, with and without the iteration cap, and by group) |
| `WireFlood` | the 4-connected exact-colour flood of the wire studio |
| `Morph` | `morphClose1` |
| `Marching` | marching squares with segment chaining, in doubled coordinates |
| `Moore` | the two pixel-boundary tracers, `traceBoundary` and `mooreContours` |
| `Scan` | the per-frame scans of the studios: the colour path and the group path |
| `WireScan` | the per-frame scan and the export of `processWireBatch` |
| `Quantize` | `quantizeImageData` |
| `Navigator` | `useFrameNavigator` |
| `Studio` | the pure helpers of `WireHotspotStudio` |
| `Release` | `parseSemver`, `cmp`, `bump`, `computeNextVersion` and `getFlag` |

Representation choices:
- Geometry is over `real`. `Math.hypot` is only ever compared against thresholds, so
  every such comparison is made on squared lengths. Where an actual length is summed
  (`perimeter`, `resample`), `hypot` is a function parameter that never returns a
  negative value.
- `Math.acos` (inside `angleBetween`) is a parameter, and so is the ΔE76 distance of
  the grouper together with its RGB-to-Lab conversion.
- Images are grids `seq<seq<Rgb>>`. `visited` buffers are grids of 0/1/2 values that
  the methods thread through as values.
- Marching squares works on doubled integer coordinates, the key `round(2x)_round(2y)`
  the source uses. `Halve` maps a loop back to pixel units.
- The tracers read a flat `seq<int>` mask, as the source does. `Grid.Flatten` connects it
  to the box-local masks the floods build.
- The wire studio's zoom is kept in integer hundredths. `toFixed(2)` of a value
  that is already an exact number of hundredths leaves it unchanged.

Behaviours the model reproduces as the source writes them:
- The marching-squares corner grid is padded only at the top and left. A full 2 x 2 mask
  traces to the single open chain (0.5, 1), (1, 0.5), (2, 0.5) (`Marching.FullTwoByTwo`).
- Lookup case 11 emits the case-13 segment (`Marching.Case11IsCase13`).
- Saddle cases 5 and 10 always resolve the same way.
- `morphClose1` never erodes: it is exactly a 3 x 3 dilation (`Morph.MorphClose1IsDilation`).
- The iteration cap of `floodRegion` reports a region covering the whole image as no
  region (`Flood.FloodRegion`).
- The wire flood marks non-matching neighbours 2, which removes them from every later
  region (`WireFlood.WireFloodRegion`).
- Regions of the group path get pixel area 0 (`Scan.GroupRegion`, used by `Scan.EmitGroups`).

## Model

| member | source | states |
|---|---|---|
| Colors.ColorDist | src/tools/HotspotStudioAdvanced.tsx:28-31 | the distance is at most 255, bounds every channel difference, equals one of them, and is 0 exactly for equal colours |
| Colors.SameRgbIsZeroDistance | src/lib/wireHotspot.ts:88 | the exact-equality test of the wire flood is the same test as Chebyshev distance 0, that is, tolerance 0 |
| Colors.ColorDistSymmetric | src/tools/HotspotStudioAdvanced.tsx:28-31 | the distance does not depend on argument order |
| Colors.RgbToHex | src/lib/wireHotspot.ts:14-15 | seven characters: `#` then six upper-case hex digits, two per channel, whose values are the channel values |
| Colors.ParseHexRoundTrip | src/lib/wireHotspot.ts:14-15 | reading a formatted colour back gives the colour |
| Colors.RgbToHexInjective | src/lib/wireHotspot.ts:14-15 | two colours get the same hex string exactly when they are equal |
| Colors.PackRgb | src/tools/HotspotStudioAdvanced.tsx:163 | the packed key fits in 24 bits |
| Colors.PackRgbInjective | src/tools/HotspotStudioAdvanced.tsx:163 | distinct colours never share a cache key |
| Colors.FnvStreaming | src/lib/geometry.ts:98-100 | the FNV-1a hash of `s + t` continues the hash of `s` over `t` |
| Colors.HashColor | src/lib/geometry.ts:98-103 | the three channels, read as bits 16-23, 8-15 and 0-7, are the low 24 bits of the 32-bit FNV-1a hash (offset 2166136261, prime 16777619) |
| Grouper.NewGrouper | src/tools/HotspotStudioAdvanced.tsx:166-173 | a new grouper has no centres and satisfies the grouper invariant |
| Grouper.FirstWithin | src/tools/HotspotStudioAdvanced.tsx:178-181 | the result is the first centre from `i` on within `tol`, or none when no centre is within `tol` |
| Grouper.IdForRgb | src/tools/HotspotStudioAdvanced.tsx:174-188 | a cached colour returns its cached id and changes nothing; otherwise the first centre within `tol` wins, or a new centre is appended with id = old length and the colour as its representative; centres are never modified, the cache only grows, and every id is below the number of centres |
| Grouper.HexFor | src/tools/HotspotStudioAdvanced.tsx:190 | the hex of a cluster reads back as its representative colour |
| Grouper.TwoColours | src/tools/HotspotStudioAdvanced.tsx:174-188 | in a new grouper the first colour gets id 0, and a second colour gets id 0 exactly when it is equal or within `tol` of the first |
| Ids.ParseNatToString | src/lib/wireHotspot.ts:196 | the decimal text of a frame number reads back as that number |
| Ids.NatToStringInjective | src/lib/wireHotspot.ts:196 | distinct frame numbers are written differently |
| Ids.MappedUpdate | src/lib/wireHotspot.ts:196 | naming one colour changes the export name of that colour alone; an empty name falls back to the colour key |
| Ids.MappedDefault | src/lib/wireHotspot.ts:196 | with no colour map every colour is its own name, and a non-empty colour never gets an empty name |
| Ids.FrameIdRoundTrip | src/lib/wireHotspot.ts:196 | for a name without `;`, the text before the first `;` of the id is the name and the digits after it read back as the frame |
| Ids.FrameIdInjective | src/lib/wireHotspot.ts:196 | for names without `;`, two ids are equal exactly when both names and frames are equal |
| Grid.CountUpdate | src/tools/HotspotStudioAdvanced.tsx:254 | overwriting one cell changes each value count by at most that cell |
| Grid.CountAll | src/tools/HotspotStudioAdvanced.tsx:257 | a `w x h` buffer holds at most `w * h` cells of a value, and exactly `w * h` only when every cell holds it |
| Grid.FlattenIndex | src/lib/wireHotspot.ts:16 | cell (x, y) of a grid is entry `y * w + x` of its flat buffer |
| Geometry.PrevPairSumIsClosed | src/tools/HotspotStudioAdvanced.tsx:108-112 | the loop pairing each vertex with the previous one sums every closed edge once |
| Geometry.NextPairSumIsClosed | src/lib/geometry.ts:3-11 | the loop pairing each vertex with the next one sums every closed edge once |
| Geometry.SignedArea | src/tools/HotspotStudioAdvanced.tsx:108-112 | the signed area is half the closed shoelace sum |
| Geometry.SignedAreaReverse | ins/hotspot_studio_standalone_react_v_2.jsx:176-179 | reversing a loop negates its signed area, so the winding normalisation makes the area non-negative |
| Geometry.SignedAreaRotate | ins/hotspot_studio_standalone_react_v_3.jsx:107-111 | the signed area does not depend on the start vertex |
| Geometry.ShoelaceTranslate | ins/hotspot_studio_standalone_react_v_2.jsx:390 | moving a loop by the box offset does not change its shoelace sum |
| Geometry.AbsArea | src/lib/geometry.ts:3-11 | the area is never negative and is the absolute value of the signed area |
| Geometry.CalculatePolygonArea | src/tools/WireHotspotStudio.tsx:247-258 | zero below three points, otherwise the absolute shoelace area, never negative |
| Geometry.BoxOf | src/tools/HotspotStudioAdvanced.tsx:113-122 | the box encloses every vertex and each of its four sides is attained by a vertex |
| Geometry.Centroid | src/tools/HotspotStudioAdvanced.tsx:113-122 | the bounding-box centre when the signed area is below 1e-9 in size, else the area-weighted shoelace centroid |
| Geometry.CentroidTranslate | ins/hotspot_studio_standalone_react_v_3.jsx:112-121 | moving a polygon moves its centroid by the same offset, in both branches |
| Geometry.RectangleCentroid | ins/hotspot_studio_standalone_react_v_2.jsx:61-85 | a rectangle of positive size has area width times height and its centroid at its centre |
| Geometry.Clamp | src/tools/HotspotStudioAdvanced.tsx:19 | the result lies in [a, b] when a <= b, and a value already inside is kept |
| Geometry.LabelCentroid | src/tools/WireHotspotStudio.tsx:203-244 | (0, 0) for no points; otherwise always inside the bounding box, and the box centre when the area is below 1e-10 in size |
| Geometry.LabelCentroidIsClampedCentroid | src/tools/WireHotspotStudio.tsx:203-244 | for clearly non-degenerate polygons the label position is the shoelace centroid clamped into the box |
| Geometry.PointSegDist | ins/hotspot_studio_standalone_react_v_2.jsx:88-93 | the parameter is clamped to [0, 1], so the foot lies on segment AB, and the result is the squared distance to that foot |
| Geometry.PointSegDistAtStart | ins/hotspot_studio_standalone_react_v_2.jsx:88-93 | a point at the segment's start is at distance 0 with parameter 0 |
| Measures.Perimeter | src/lib/geometry.ts:54-61 | the perimeter is the sum of the n closed-edge lengths and is never negative |
| Measures.PerimeterRotate | src/lib/geometry.ts:54-61 | the perimeter does not depend on the start vertex |
| Measures.EdgePoint | src/lib/geometry.ts:91-93 | with `u` clamped to [0, 1] the emitted point lies on the current polygon edge |
| Measures.Advance | src/lib/geometry.ts:85-90 | the walker stays on a valid edge and does not move for the first target |
| Measures.Resample | src/lib/geometry.ts:63-96 | no points for K <= 0 or an empty polygon; [poly[0]] for K = 1; K copies of poly[0] for a single point or a perimeter of at most 1e-9; otherwise K points, the first poly[0], each on some polygon edge |
| Rdp.Farthest | src/tools/HotspotStudioAdvanced.tsx:44-51 | the scan returns a distance no interior point exceeds, attained by the first point reaching it |
| Rdp.NoSplits | src/tools/HotspotStudioAdvanced.tsx:42-52 | when no interior point is more than eps from the chord, the recursion finds no split point |
| Rdp.StackDone | src/tools/HotspotStudioAdvanced.tsx:39-53 | once the stack is empty under the loop invariant, the flags are exactly the two ends and the split points of the recursion |
| Rdp.PopRange | src/tools/HotspotStudioAdvanced.tsx:41-52 | popping one range keeps the invariant (every flag set is an end or a split point, every split point is set or pending on the stack) and lowers the termination measure |
| Rdp.MarkKept | src/tools/HotspotStudioAdvanced.tsx:37-53 | the flags of the stack-driven splitting phase equal those of the recursive definition, whatever order the stack visits the ranges in; both ends are kept, and only they when no interior point is more than eps from the chord |
| Rdp.SelectSubseq | src/tools/HotspotStudioAdvanced.tsx:54-56 | the selected points form an order-preserving subsequence, starting at the first point when its flag is set and ending at the last when that flag is |
| Rdp.EmitKept | src/tools/HotspotStudioAdvanced.tsx:54-56 | the output is the selection of the flagged points, a subsequence with both ends, and exactly the two ends when only they are flagged |
| Rdp.IterativeRdp | src/tools/HotspotStudioAdvanced.tsx:34-57 | equals the recursive definition `RdpKept` (ends plus the split points of the recursion, in order); an exact copy for no points, eps <= 0 or at most two points; otherwise an order-preserving subsequence with the first and last point, just those two when every point is within eps (same in both standalone studios) |
| Rdp.WireRdp | src/lib/wireHotspot.ts:18-41 | fewer than three points come back unchanged; the last point is always kept |
| Rdp.WireRdpKeepsEnds | src/lib/wireHotspot.ts:18-41 | with eps >= 0 the result is an order-preserving subsequence that starts with the first and ends with the last point |
| Rdp.WireRdpAllNear | src/lib/wireHotspot.ts:30-40 | when no interior point is farther than eps from the clamped chord the result is exactly [first, last] |
| Rdp.WireRdpNegativeCollinear | src/lib/wireHotspot.ts:30-40 | with eps < 0 on a straight run the split index stays -1 and only the last point is returned |
| Rdp.LineRdp | src/lib/geometry.ts:13-35 | at most three points are copied; the first and last point are always kept |
| Rdp.LineRdpSplit | src/lib/geometry.ts:19-34 | with tol >= 0 a split index lies strictly inside, so both recursive halves are shorter |
| Rdp.LineRdpKeepsEnds | src/lib/geometry.ts:13-35 | with tol >= 0 the result is an order-preserving subsequence keeping both ends |
| Rdp.LineRdpUnsplit | src/lib/geometry.ts:27-31 | without a split, polylines of four to eight points come back whole and longer ones shrink to [first, last] |
| Rdp.LineRdpAllNear | src/lib/geometry.ts:27-31 | more than eight points all within tol of the chord shrink to [first, last] |
| Rdp.LineRdpNegativeRepeats | src/lib/geometry.ts:19-34 | with tol < 0 on a straight run the split index stays 0 and the right half is the whole input again, so the recursion never ends |
| Rdp.RdpClosed | src/lib/geometry.ts:37-50 | fewer than three points are copied; otherwise three or more points come back, or the input minus its closing copy when only two remain; an RDP result of fewer than three points is replaced by the first three points of the open ring |
| Rdp.RdpClosedClampsTol | src/lib/geometry.ts:39 | a negative tolerance gives the same ring as tolerance 0 |
| Rdp.RdpClosedOpen | src/lib/geometry.ts:41-49 | the result is an order-preserving subsequence of the ring without its closing copy, starting at its first vertex |
| Rdp.RdpClosedDropsClosing | src/lib/geometry.ts:41-42 | when the last vertex lies within 1e-6 of the first, the result is a subsequence of the input without that last vertex |
| Rdp.RdpClosedFallback | src/lib/geometry.ts:44-49 | an open ring of more than eight points all within tol of its chord comes back as its first three points |
| Rdp.RdpClosedSubseq | src/lib/geometry.ts:37-50 | the ring returned is an order-preserving subsequence starting at the first vertex |
| Simplify.Sharpest | src/tools/HotspotStudioAdvanced.tsx:74-79 | the chosen vertex deviates at least as much as every vertex that beats the running best, and strictly more than every vertex scanned before it, so the first one wins on ties |
| Simplify.SharpestFirst | src/tools/HotspotStudioAdvanced.tsx:73-79 | from (-1, 0), no vertex deviating more than -1 beats the chosen one, and every vertex before it deviates strictly less |
| Simplify.Rotation | src/tools/HotspotStudioAdvanced.tsx:80 | the rotated ring starts at the vertex the sharpest-corner scan chose, and has the same points |
| Simplify.Spacing | src/tools/HotspotStudioAdvanced.tsx:96-100 | the output is exactly `SpacingOf`, the left fold that appends a vertex when nothing is emitted yet, when it lies at least `minEdge` from the last emitted vertex, or when it is flagged; it emits every flagged vertex, is a subsequence starting at the first vertex, and drops nothing when `minEdge <= 0` |
| Simplify.SpacingKeeps | src/tools/HotspotStudioAdvanced.tsx:96-100 | the fold keeps the first vertex and every flagged vertex, in order, and each unflagged vertex it keeps lies at least `minEdge` from the vertex emitted before it |
| Simplify.ClosingPop | src/tools/HotspotStudioAdvanced.tsx:101 | the last emitted vertex is dropped exactly when there are at least two and it lies closer than `minEdge` to the first; otherwise the output is unchanged |
| Simplify.AnglePass | src/tools/HotspotStudioAdvanced.tsx:86-102 | the result is `AngleStage`: the closing pop of the spacing fold over the corner flags; it emits every flagged corner, only the closing check removes a vertex (the last), and it starts with the first vertex |
| Simplify.StageEps | src/tools/HotspotStudioAdvanced.tsx:83-86 | the rdp stage uses epsilon in mode "rdp" and otherwise the larger of 0.25 and 0.6 times epsilon |
| Simplify.ClosedRdp | src/tools/HotspotStudioAdvanced.tsx:83-86 | the rdp stage (rdp of the closed ring, minus its closing copy) is a subsequence of the rotation starting at its first vertex |
| Simplify.SimplifyClosedPolygon | src/tools/HotspotStudioAdvanced.tsx:66-106 | fewer than four points or mode "none" give a copy; in mode "rdp" the result is the rdp stage of the rotation, or the rotation when that stage has fewer than three points; in mode "angle" it is exactly `AngleStage` (corner flags, spacing fold, closing pop) of the rdp stage with eps max(0.25, 0.6 epsilon), or the rotation under the same fallback; always a subsequence of the rotation starting with its first vertex (same in version 3) |
| Simplify.SimplifyRing | src/tools/HotspotStudioAdvanced.tsx:83-105 | for a non-empty rotation and a mode other than "none": the rdp stage (mode "rdp") or `AngleStage` of it (mode "angle"), with the rotation as the fallback below three points |
| Simplify.FinishManual | ins/hotspot_studio_standalone_react_v_2.jsx:593-602 | without an image or with fewer than three points the drawing is discarded; otherwise one manual region is appended whose points are `rdp` (RdpKept) of the drawing, minus a last point within 6 px of the first, keeping both of its ends |
| Morph.ErodeNeverClears | src/tools/HotspotStudioAdvanced.tsx:341-349 | every pixel set after dilation is set by the erosion pass, since it counts itself as a neighbour |
| Morph.MorphClose1IsDilation | src/tools/HotspotStudioAdvanced.tsx:330-350 | the result equals the 3 x 3 dilation of the input |
| Morph.MorphClose1Grows | src/tools/HotspotStudioAdvanced.tsx:330-350 | every set pixel and every pixel next to one is set afterwards |
| Marching.Corner | src/tools/HotspotStudioAdvanced.tsx:198-199 | corners are 0 or 1 |
| Marching.Code | src/tools/HotspotStudioAdvanced.tsx:203-204 | the case code lies in 0..15 |
| Marching.CellSegCount | src/tools/HotspotStudioAdvanced.tsx:204-212 | codes 0 and 15 emit nothing, 5 and 10 two segments, every other code one |
| Marching.Case11IsCase13 | src/tools/HotspotStudioAdvanced.tsx:210 | case 11 emits the right-bottom segment of case 13 |
| Marching.CellSegsGood | src/tools/HotspotStudioAdvanced.tsx:205-211 | every emitted segment joins two edge midpoints of the grid |
| Marching.BuildAdjValid | src/tools/HotspotStudioAdvanced.tsx:214-215 | the adjacency map lists each key once, every neighbour is a key, and every key has a neighbour |
| Marching.Walk | src/tools/HotspotStudioAdvanced.tsx:221-225 | the walk visits fresh keys only, each a neighbour of the one before |
| Marching.Orient | ins/hotspot_studio_standalone_react_v_2.jsx:176-179 | a loop with negative area is reversed, so every returned loop has non-negative signed area |
| Marching.TracePolygons | src/tools/HotspotStudioAdvanced.tsx:197-229 | every loop has at least three vertices, non-negative signed area, half-pixel coordinates inside [0, bw] x [0, bh], no repeated vertex, and no vertex shared with another loop; consecutive vertices of a loop are the two ends of one segment of the case table (same in both standalone studios) |
| Marching.BuildAdjLinks | src/tools/HotspotStudioAdvanced.tsx:214-215 | a key lists another as a neighbour exactly when some segment joins the two, in either direction |
| Marching.FullTwoByTwo | src/tools/HotspotStudioAdvanced.tsx:198-199 | a full 2 x 2 mask traces to the one open chain (0.5, 1), (1, 0.5), (2, 0.5) |
| Flood.PushNeighbours8 | src/tools/HotspotStudioAdvanced.tsx:265-276 | exactly the in-bounds free matching 8-neighbours are marked 1 and pushed, once each |
| Flood.BuildMask | src/tools/HotspotStudioAdvanced.tsx:289-290 | the box-local mask is 1 exactly at the listed pixels and its popcount is their number |
| Flood.Flood8 | src/tools/HotspotStudioAdvanced.tsx:249-291 | a visited or non-matching seed gives nothing and writes nothing; otherwise only free matching cells are taken, they are 8-connected to the seed, every free matching neighbour is taken, and `pixelCount` is the number taken |
| Flood.FloodRegion | src/tools/HotspotStudioAdvanced.tsx:237-292 | null for a visited or too-distant seed; otherwise a connected, closed, within-tol region marked 1, and no region exactly when it covers the whole image |
| Flood.FloodRegionUncapped | ins/hotspot_studio_standalone_react_v_3.jsx:172-198 | null exactly for a visited or too-distant seed; otherwise a connected, closed, within-tol region whose `pixelCount` is the number of cells marked 1 (same in version 2) |
| Flood.FloodRegionByGroup | src/tools/HotspotStudioAdvanced.tsx:294-328 | null exactly for a visited seed or one outside the seed group; otherwise a connected, closed region of that group |
| WireFlood.PushNeighbours4 | src/lib/wireHotspot.ts:93-98 | each in-bounds free 4-neighbour is marked 1 and pushed when it has the target colour, and marked 2 otherwise |
| WireFlood.WidenBox | src/lib/wireHotspot.ts:89 | the box grows to enclose the marked pixels, and each side moves only to a marked pixel |
| WireFlood.WireFloodRegion | src/lib/wireHotspot.ts:77-107 | the seed is taken without a colour test; every other taken cell matches, all are 4-connected to the seed; every free 4-neighbour ends up taken or rejected; each rejected cell fails the test and borders the region; `pixelCount` is the popcount |
| Moore.StepAdj | src/lib/wireHotspot.ts:55 | each direction of the table reaches an 8-neighbour, and the opposite direction comes back |
| Moore.CentreInjective | src/lib/wireHotspot.ts:57 | distinct pixels have distinct centres |
| Moore.Search | src/lib/wireHotspot.ts:60-67 | the search returns the first direction, clockwise from the start, that leads to a set pixel, or none when there is no such direction |
| Moore.SearchNone | src/lib/wireHotspot.ts:68 | a full search fails only at an isolated pixel |
| Moore.FindStart4 | src/lib/wireHotspot.ts:46-53 | the start is the first pixel in raster order that is set with an off or out-of-bounds 4-neighbour, or there is none |
| Moore.TraceBoundary | src/lib/wireHotspot.ts:43-75 | no points exactly when there is no 4-border pixel; otherwise the trace starts at the first one, every point is the centre of a set pixel and 8-adjacent to the previous one, and it is a lone pixel, returns to the start after more than three points, or stops after `w * h * 8 + 1` moves |
| Moore.TraceContour | src/lib/contours.ts:27-64 | one trace starts at its border pixel, walks over set pixels each 8-adjacent to the previous, marks exactly its pixels visited, and pushes at most `floor(max(1000, W*H/10)) + 1` points |
| Moore.MooreContours | src/lib/contours.ts:3-72 | no contours for W <= 0, H <= 0 or a mask of the wrong length; otherwise every border pixel is traced, traces start at fresh pixels in raster order, and exactly the traces of three or more points are returned, as pixel centres |
| Scan.MarkBackground | src/tools/HotspotStudioAdvanced.tsx:547-557 | exactly the pixels of the background colour are marked 2, the rest 0 |
| Scan.FloodKeepsClasses | src/tools/HotspotStudioAdvanced.tsx:570 | a flood keeps the background marks and frees nothing already scanned |
| Scan.UniformFromFlood | ins/hotspot_studio_standalone_react_v_2.jsx:384 | a tolerance-0 flood against the seed's colour gives a region of exactly that colour |
| Scan.EmitLoops | ins/hotspot_studio_standalone_react_v_2.jsx:389-394 | each loop is moved by (minX, minY), and its region's points are exactly `rdp` (RdpKept) of the moved loop, tagged with the seed's hex and the pixel count |
| Scan.ColourSeed | ins/hotspot_studio_standalone_react_v_2.jsx:382-394 | a fragment below `minArea` is dropped with its pixels still marked; otherwise each loop gives a region whose points are exactly `rdp` (RdpKept) of the moved loop, with the seed's hex and pixel count |
| Scan.ColourScan | ins/hotspot_studio_standalone_react_v_2.jsx:367-398 | afterwards a pixel is 2 exactly when it has the colour of pixel (0, 0) and 1 otherwise; every region comes from a non-background uniform fragment of at least `minArea` pixels and its points are exactly `rdp` (RdpKept) of one placed outline loop, tagged with the fragment's hex (same in the version 3 worker) |
| Scan.OrInto | src/tools/HotspotStudioAdvanced.tsx:576-580 | the fragment's mask is ORed into the group mask at its box offset and nothing else changes |
| Scan.MasksStep | src/tools/HotspotStudioAdvanced.tsx:574-580 | after the OR, each group mask is the union of that group's kept fragments |
| Scan.GroupSeed | src/tools/HotspotStudioAdvanced.tsx:567-580 | a fragment below `minArea` is dropped with its pixels still marked; otherwise it is ORed into its group's mask, which is created on first use |
| Scan.GroupMaskSound | src/tools/HotspotStudioAdvanced.tsx:574-580 | every set pixel of a group mask is off the background and in that group |
| Scan.Outlines | src/tools/HotspotStudioAdvanced.tsx:593-595 | each outline loop of a closed group mask has at least three vertices |
| Scan.EmitGroup | src/tools/HotspotStudioAdvanced.tsx:593-599 | one region per outline loop, in loop order, each with the group's hex, pixel area 0 and the simplified loop: in every mode exactly what `SimplifyClosedPolygon` returns for the loop (a copy, the rdp stage, or `AngleStage` of it, with the rotation as fallback) |
| Scan.EmitGroups | src/tools/HotspotStudioAdvanced.tsx:589-600 | every outline loop of every group with a mask gets a region, in increasing group order; each region has pixel area 0 and the hex of a group below `ngroups` that has a mask |
| Scan.GroupScan | src/tools/HotspotStudioAdvanced.tsx:536-600 | background pixels are marked 2 and the rest 1; the group masks are the unions of the kept fragments of each group; the regions are the simplified outlines of each group, in group order, with pixel area 0, each simplified exactly as `SimplifyClosedPolygon` does in the chosen mode |
| WireScan.WireItemPixels | src/lib/wireHotspot.ts:177-181 | every point of an item is the centre of an image pixel of the item's colour, moved by the box offset |
| WireScan.WireFloodKeepsVis | src/lib/wireHotspot.ts:97 | a flood never frees a cell and never takes a background pixel, so neighbours it marks 2 stay out of every later region |
| WireScan.WireSeed | src/lib/wireHotspot.ts:170-182 | a transparent or background pixel is marked 2; a fragment below `minArea` or with an empty contour is dropped; otherwise one item carries the offset contour, and for eps > 0 exactly the wire rdp of it |
| WireScan.WireFrame | src/lib/wireHotspot.ts:164-184 | afterwards no pixel is free, every background pixel is 2, and every item carries the offset contour of a flood fragment of at least `minArea` pixels, for eps > 0 exactly its wire rdp |
| WireScan.Collect | src/lib/wireHotspot.ts:186 | the collected frames are exactly the frames of the files |
| WireScan.CollectLast | src/lib/wireHotspot.ts:186 | a frame maps to the items of the last file with that frame number |
| WireScan.SortedFrames | src/lib/wireHotspot.ts:191 | the frames are the keys, in strictly ascending order |
| WireScan.ExportOne | src/lib/wireHotspot.ts:196-197 | the export keeps frame, points and colour and has the id `mapped;frame` |
| WireScan.ExportItemsMembers | src/lib/wireHotspot.ts:193-199 | an item is exported exactly when it is the export of an item of a listed frame |
| WireScan.ExportItemsOrdered | src/lib/wireHotspot.ts:191-199 | with ascending frames the export is in non-decreasing frame order |
| WireScan.WireExport | src/lib/wireHotspot.ts:186-199 | last file wins per frame, frames ascend, the export is frame-ordered and holds exactly the exports of the collected items |
| Quantize.Step | src/lib/quantize.ts:7 | the step is at least 1, and `256 / levels` for 0 < levels <= 256 |
| Quantize.Level | src/lib/quantize.ts:17-19 | the level of a channel is at most the channel; an infinite step gives 0 |
| Quantize.LevelIsFloor | src/lib/quantize.ts:17-19 | for a finite step, the level is a multiple of the step and less than one step below the channel |
| Quantize.LevelIdempotent | src/lib/quantize.ts:17-19 | quantising a quantised channel changes nothing |
| Quantize.Keys | src/lib/quantize.ts:28 | one `r-g-b` key per pixel, in pixel order |
| Quantize.QuantizeImageData | src/lib/quantize.ts:1-35 | empty or partial-pixel data is left alone with an empty map; otherwise channels are levelled in place, alpha kept, and the map is the histogram of the quantised keys, so its counts add up to the pixel count |
| Quantize.QuantizedIdempotent | src/lib/quantize.ts:17-24 | quantising twice with the same levels equals quantising once |
| Quantize.QuantizedKeepsAlpha | src/lib/quantize.ts:25-26 | every alpha byte is unchanged and no byte grows |
| Navigator.Filter | src/hooks/useFrameNavigator.ts:7 | a frame is kept, with its multiplicity, exactly when it lies in the range |
| Navigator.FilterOrdered | src/hooks/useFrameNavigator.ts:7 | the kept frames keep their order |
| Navigator.Allowed | src/hooks/useFrameNavigator.ts:4-8 | every frame without a range; with one, exactly the frames inside it |
| Navigator.FrameAt | src/hooks/useFrameNavigator.ts:11 | a frame exactly when the index is inside the list, and then one of the allowed frames |
| Navigator.Step | src/hooks/useFrameNavigator.ts:13-16 | a list of a new length resets the index to 0; moves keep the list |
| Navigator.StepValid | src/hooks/useFrameNavigator.ts:13-16 | every action keeps the index in [0, max(0, count - 1)] |
| Navigator.RunValid | src/hooks/useFrameNavigator.ts:10-16 | from a valid state every action sequence keeps the index in range, so a non-empty list always shows a frame |
| Navigator.ValidFrame | src/hooks/useFrameNavigator.ts:11 | in a valid state there is a current frame exactly when the list is non-empty |
| Navigator.NextPrev | src/hooks/useFrameNavigator.ts:13-14 | `prev` undoes a `next` that moved |
| Navigator.PrevNext | src/hooks/useFrameNavigator.ts:13-14 | `next` undoes a `prev` that moved |
| Studio.StudioIdFrames | src/tools/WireHotspotStudio.tsx:167-168 | global ids are the same for every frame; per-frame ids of a colour whose name has no `;` differ for different frames |
| Studio.ExportJson | src/tools/WireHotspotStudio.tsx:162-176 | nothing when the base width or height is 0; otherwise exactly the exports of the items of the listed frames, one entry per listed item, item j of listed frame i at its position |
| Studio.StudioItemsLength | src/tools/WireHotspotStudio.tsx:165-171 | the export has one entry per item of the listed frames |
| Studio.StudioItemsAt | src/tools/WireHotspotStudio.tsx:165-171 | item j of listed frame i is exported at the position after all items of the frames before it and the items before it |
| Studio.PositionsOrdered | src/tools/WireHotspotStudio.tsx:165-171 | the items are exported in frame-list order, and in item order within a frame |
| Studio.StudioMatchesWireExport | src/tools/WireHotspotStudio.tsx:162-171 | with per-frame ids and tagged items, the studio's export equals the batch export |
| Studio.ApplyName | src/tools/WireHotspotStudio.tsx:178-183 | no change without a selection or number; otherwise the selected colour is named `prefix + number` and every other entry is kept |
| Studio.ApplyNameLabels | src/tools/WireHotspotStudio.tsx:178-183 | after naming, the selected colour's label is the new name and every other label is unchanged |
| Studio.Legend | src/tools/WireHotspotStudio.tsx:191-196 | one row per distinct item colour, each with its non-empty mapped name or "" |
| Studio.PreviewLegend | src/tools/WireHotspotStudio.tsx:185-196 | empty without a current frame or image; else the legend of that frame's items |
| Studio.LegendToShow | src/tools/WireHotspotStudio.tsx:198 | all rows, or exactly the rows with an empty name |
| Studio.UnmappedRows | src/tools/WireHotspotStudio.tsx:198 | with "only unmapped", the rows shown are the legend at strictly increasing positions, and a position is used exactly when its row has an empty name |
| Studio.LegendToShowOrdered | src/tools/WireHotspotStudio.tsx:198 | in both modes the rows shown are the legend's rows at strictly increasing positions, all of them or exactly those with an empty name |
| Studio.LegendShowsUnmapped | src/tools/WireHotspotStudio.tsx:191-198 | with "only unmapped", a colour is listed exactly when an item has it and the map gives it no non-empty name |
| Studio.ZoomIn | src/tools/WireHotspotStudio.tsx:482 | zooming in adds 0.1 up to the 3 maximum |
| Studio.ZoomOut | src/tools/WireHotspotStudio.tsx:480 | zooming out subtracts 0.1 down to the 0.25 minimum |
| Studio.Wheel | src/tools/WireHotspotStudio.tsx:260-266 | the wheel result always lies in [0.25, 3] and steps out for a positive deltaY, in otherwise |
| Studio.ZoomStepOk | src/tools/WireHotspotStudio.tsx:143-145 | every key, button and wheel step keeps a zoom inside [0.25, 3] |
| Studio.ZoomRunOk | src/tools/WireHotspotStudio.tsx:143-145 | any sequence of zoom steps stays inside [0.25, 3] |
| Release.Trim | scripts/release.js:42 | the trimmed text neither starts nor ends with white space |
| Release.TrimSlice | scripts/release.js:42 | the trim is the slice `s[i..j]` of the text, and everything before `i` and from `j` on is white space |
| Release.TrimNoSpace | scripts/release.js:42 | text without white space at its ends is its own trim |
| Release.SemverToString | scripts/release.js:46 | the written version is non-empty and has no white space at its ends |
| Release.ParseSemverExact | scripts/release.js:41-45 | a version is read exactly from text that trims to three digit runs joined by dots, with their values |
| Release.ParseToString | scripts/release.js:41-46 | reading a written version gives it back |
| Release.SemverToStringInjective | scripts/release.js:46 | distinct versions are written differently |
| Release.CmpOrder | scripts/release.js:47 | `cmp` is positive exactly for the lexicographically later version, 0 exactly for equal ones, and antisymmetric |
| Release.CmpTransitive | scripts/release.js:47 | a strict `cmp` step followed by a non-negative one stays strict |
| Release.BumpNewer | scripts/release.js:48-54 | every bump is strictly later |
| Release.TagVersionOfTag | scripts/release.js:78-81 | the tag `v` + version names that version; a tag without the leading `v` is not listed and names none |
| Release.LatestTagIsMax | scripts/release.js:76-84 | there is a latest tag exactly when some `v` tag names a version; it is one of them and no tag's version is later |
| Release.NextFree | scripts/release.js:88-92 | the result is the first untagged patch from the start version up |
| Release.Target | scripts/release.js:7 | the target is the third argument when present, non-empty and not a flag |
| Release.SetVersion | scripts/release.js:63-71 | the result is untagged; a free target is returned as is; a taken one is patch-bumped until free, from 0.0.0 when it does not parse |
| Release.BaseIsLatest | scripts/release.js:86 | the base is no earlier than the package version or any tag version |
| Release.NextVersion | scripts/release.js:73-93 | the result is the first untagged patch of the bumped base, and later than the package version and every tag version |
| Release.ComputeNextVersion | scripts/release.js:62-94 | the result is never an existing tag; in set mode a free target is kept; otherwise it parses and is later than every tag |
| Release.FindFlag | scripts/release.js:12 | the first argument equal to the name or starting with `name=`, or none |
| Release.GetFlag | scripts/release.js:11-18 | undefined exactly when no argument names the flag |
| Release.GetFlagInline | scripts/release.js:15 | `--name=value` gives value back |
| Release.GetFlagSeparate | scripts/release.js:16-17 | `--name value` gives value back when value is non-empty and not a flag |
| Release.GetFlagEmpty | scripts/release.js:16-17 | `--name` that is last, or followed by "" or by a `--` argument, gives "" |

## Left out

- Rendering, event handlers, pan and drag, resizers, keyboard listeners and localStorage persistence (including the saved zoom of WireHotspotStudio) are user-interface state, not pipeline logic.
- Image decoding, canvas access, downloads and the JSON import are browser input and output.
- The worker pools and their source strings are concurrency around functions that are modelled directly.
- `requestAnimationFrame` yields and console logging have no effect on results.
- The RGB-to-Lab conversion and `deltaE76` are floating-point colour science, so the grouper takes them as parameters. `Math.acos` in `angleBetween` is a parameter of the simplifier.
- `pointInPolygon`, `nearestSegment` and the click and drag editing are interactive editing, not the pipeline.
- `snapToGridRGB` is omitted: it depends on `Uint8ClampedArray` clamping 256, and the group scan's image `px` is the already snapped image.
- `parseFrame` / `parseFrameFromName` and `localeCompare` sorting depend on RegExp and Intl behaviour. Frame numbers arrive as naturals.
- The git, npm, fs and readline calls of the release script are external. The tag set is a list of tag names, and `tagExists` is membership in it.
- `JSON.parse` of the colour-map text is not modelled. The colour map is a `map<string, string>`.
- `setIdx` of the navigator lets callers set any index. It is not modelled, so the range invariant covers `prev`, `next` and list changes only.
- Geometry.PointSegDist: proves the clamp and that the foot lies on the segment, not that the foot is the closest point of the segment. The solver does not discharge the needed nonlinear real inequalities.
- Measures.Perimeter and Measures.Resample: `Math.hypot` is a parameter returning non-negative lengths. Its exact value is not modelled.
- Colors.HashColor: models the three channel bytes only. The `rgba(r,g,b,alpha)` string it formats and the alpha default 0.35 (geometry.ts:98-102) are string formatting of those bytes and are not modelled.
- Geometry.Centroid: requires at least one point. On an empty array the area is 0 and the source throws a TypeError reading `points[0]` (HotspotStudioAdvanced.tsx:115); that exception is not modelled.
- Rdp.WireRdpKeepsEnds: requires eps >= 0. With a negative eps the wire rdp still terminates, but the first point can be lost: `Rdp.WireRdpNegativeCollinear` shows a straight run coming back as only its last point.
- Rdp.LineRdp: requires tol >= 0. With a negative tol the `rdp` of geometry.ts does not terminate, which `Rdp.LineRdpNegativeRepeats` exhibits; its only caller, `rdpClosed`, clamps tol to 0 first.
- Scan.ColourSeed: the source's `if (!res) continue` after a flood from a free seed with tolerance 0 against its own colour is never taken; the model proves a region is always returned there.
- Release.ParseSemverExact: version numbers are unbounded naturals. JavaScript's `Number` loses precision above 2^53, which is not modelled.
- Quantize.Level: `levels` is an integer. A level count of 0 gives the infinite step, modelled as the stored byte 0 with key `NaN-NaN-NaN`. Fractional level counts are not modelled.
- Studio.ZoomIn, Studio.ZoomOut and Studio.Wheel: zoom is kept in integer hundredths. `toFixed(2)` is the identity on those values, so binary floating-point rounding is not modelled.
- Scan.GroupScan: the colour grouper is not threaded through the scan. `groupOf` stands for the grouper's `idForRgb`, whose cache fixes each colour's id at its first query, and `hexOf` stands for `hexFor` of the final grouper. `Grouper.IdForRgb` and `Grouper.HexFor` model those two operations on their own; the link between them and the scan's parameters is not proved.
- Marching.TracePolygons: coverage is not proved, that is, that every key of the adjacency map lies on a returned loop or on a dropped walk of fewer than three keys.
