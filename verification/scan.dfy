/**
 * The per-frame raster scans of the marching-squares tools: the colour
 * scan of the standalone studios (`processAll` of version 2 and the
 * worker scan of version 3) and the colour-group scan of
 * HotspotStudioAdvanced.tsx.
 *
 * Both start by marking every pixel whose colour is exactly that of pixel
 * (0, 0) with 2 in `visited`, so the background is never seeded and never
 * absorbed. The scan then visits pixels in raster order and floods from
 * every pixel still free.
 */
module Scan {
  import opened Wrappers
  import opened Colors
  import opened Grid
  import opened Geometry
  import opened Seqs
  import opened Regions
  import opened Flood
  import opened Marching
  import opened Rdp
  import opened Morph
  import opened Simplify

  // ---------------------------------------------------------------------
  // The background pass
  // ---------------------------------------------------------------------

  /** `visited` holds 2 exactly on the background and 0 or 1 elsewhere. */
  predicate VisClass(px: seq<seq<Rgb>>, w: int, h: int, bg: Rgb, vis: seq<seq<int>>)
    requires IsGrid(px, w, h) && IsGrid(vis, w, h)
  {
    forall y, x :: 0 <= y < h && 0 <= x < w ==> (vis[y][x] == 2 <==> px[y][x] == bg) && 0 <= vis[y][x] <= 2
  }

  /** Every pixel before (x, y) in raster order is no longer free. */
  predicate ScannedTo(vis: seq<seq<int>>, w: int, h: int, x: int, y: int)
    requires IsGrid(vis, w, h)
  {
    forall yy, xx :: 0 <= yy < h && 0 <= xx < w && (yy < y || (yy == y && xx < x)) ==> vis[yy][xx] != 0
  }

  /**
   * The background pass: a fresh buffer with 2 on every pixel at Chebyshev
   * distance 0 from bg, that is, of exactly the colour bg.
   */
  method MarkBackground(px: seq<seq<Rgb>>, w: nat, h: nat, bg: Rgb) returns (vis: seq<seq<int>>)
    requires IsGrid(px, w, h)
    ensures IsGrid(vis, w, h) && VisClass(px, w, h, bg, vis)
    ensures forall y, x :: 0 <= y < h && 0 <= x < w ==> vis[y][x] == 0 || vis[y][x] == 2
  {
    vis := Fill(w, h, 0);
    for y := 0 to h
      invariant IsGrid(vis, w, h)
      invariant forall yy, xx :: 0 <= yy < h && 0 <= xx < w ==>
        vis[yy][xx] == (if yy < y && px[yy][xx] == bg then 2 else 0)
    {
      for x := 0 to w
        invariant IsGrid(vis, w, h)
        invariant forall yy, xx :: 0 <= yy < h && 0 <= xx < w ==>
          vis[yy][xx] == (if (yy < y || (yy == y && xx < x)) && px[yy][xx] == bg then 2 else 0)
      {
        if ColorDist(px[y][x], bg) == 0 {
          vis := Set(vis, (x, y), 2);
        }
      }
    }
  }

  /** A flood writes only free cells, so the background classes survive it and nothing scanned is freed. */
  lemma FloodKeepsClasses(px: seq<seq<Rgb>>, w: nat, h: nat, bg: Rgb, vis: seq<seq<int>>, vis': seq<seq<int>>, x: int, y: int)
    requires IsGrid(px, w, h) && IsGrid(vis, w, h) && IsGrid(vis', w, h)
    requires VisClass(px, w, h, bg, vis) && OnlyFreeWritten(vis, vis', w, h, false)
    requires ScannedTo(vis, w, h, x, y)
    ensures VisClass(px, w, h, bg, vis') && ScannedTo(vis', w, h, x, y)
    ensures forall yy, xx :: 0 <= yy < h && 0 <= xx < w && vis[yy][xx] != 0 ==> vis'[yy][xx] == vis[yy][xx]
  {
  }

  /** A flood that returned a region has taken its seed. */
  lemma SeedTaken(vis0: seq<seq<int>>, vis: seq<seq<int>>, s: Cell, w: nat, h: nat, four: bool)
    requires IsGrid(vis0, w, h) && IsGrid(vis, w, h)
    requires ConnectedFrom(vis0, vis, s, w, h, four)
    ensures Taken(vis0, vis, s, w, h)
  {
    var order, parent :| |order| > 0 && order[0] == s && Chain(order, parent, four)
      && (forall k :: 0 <= k < |order| ==> Taken(vis0, vis, order[k], w, h))
      && (forall y, x :: 0 <= y < h && 0 <= x < w && Taken(vis0, vis, (x, y), w, h) ==> (x, y) in order);
    assert Taken(vis0, vis, order[0], w, h);
  }

  // ---------------------------------------------------------------------
  // The colour scan of the standalone studios
  // ---------------------------------------------------------------------

  /** Every pixel of fragment f lies in the image and has exactly the colour of its seed s. */
  ghost predicate Uniform(px: seq<seq<Rgb>>, w: int, h: int, f: FloodResult, s: Cell) {
    IsGrid(px, w, h) && InBounds(s, w, h)
    && 0 <= f.minX && 0 <= f.bw && f.minX + f.bw <= w && 0 <= f.minY && 0 <= f.bh && f.minY + f.bh <= h
    && IsGrid(f.mask, f.bw, f.bh)
    && forall yy, xx :: 0 <= yy < f.bh && 0 <= xx < f.bw && f.mask[yy][xx] == 1 ==>
         px[yy + f.minY][xx + f.minX] == px[s.1][s.0]
  }

  /** loop is one marching-squares loop of fragment f, halved to pixel units and moved to the fragment's box. */
  ghost predicate OutlineOf(f: FloodResult, loop: seq<Pt>) {
    0 <= f.bw && 0 <= f.bh && IsMask(f.mask, f.bw, f.bh)
    && exists pl :: pl in TracePolygons(f.mask, f.bw, f.bh) && loop == Placed(pl, f)
  }

  /**
   * What the colour scan promises about one emitted region: it was grown
   * from a non-background seed s, all of its pixels have the seed's colour,
   * it has at least minArea pixels, it carries the seed's hex colour and
   * pixel count, and its points are `rdp` of one outline loop: the
   * recursive definition RdpKept, which keeps both ends of the loop in order
   * and is the loop itself when epsilon <= 0.
   */
  ghost predicate ColourRegion(px: seq<seq<Rgb>>, w: int, h: int, bg: Rgb, minArea: int, eps: real,
                               r: Region, f: FloodResult, s: Cell, loop: seq<Pt>)
  {
    Uniform(px, w, h, f, s) && px[s.1][s.0] != bg
    && r.color == RgbToHex(px[s.1][s.0]) && r.pixelArea == f.pixelCount && f.pixelCount >= minArea && !r.manual
    && OutlineOf(f, loop) && |loop| >= 3
    && r.points == RdpKept(loop, eps)
    && KeepsEnds(r.points, loop) && (eps <= 0.0 ==> r.points == loop)
  }

  ghost predicate ColourRegions(px: seq<seq<Rgb>>, w: int, h: int, bg: Rgb, minArea: int, eps: real,
                                rs: seq<Region>, fs: seq<FloodResult>, ss: seq<Cell>, ls: seq<seq<Pt>>)
  {
    |fs| == |rs| && |ss| == |rs| && |ls| == |rs|
    && forall i :: 0 <= i < |rs| ==> ColourRegion(px, w, h, bg, minArea, eps, rs[i], fs[i], ss[i], ls[i])
  }

  lemma ColourRegionsAppend(px: seq<seq<Rgb>>, w: int, h: int, bg: Rgb, minArea: int, eps: real,
                            rs: seq<Region>, fs: seq<FloodResult>, ss: seq<Cell>, ls: seq<seq<Pt>>,
                            rs': seq<Region>, fs': seq<FloodResult>, ss': seq<Cell>, ls': seq<seq<Pt>>)
    requires ColourRegions(px, w, h, bg, minArea, eps, rs, fs, ss, ls)
    requires ColourRegions(px, w, h, bg, minArea, eps, rs', fs', ss', ls')
    ensures ColourRegions(px, w, h, bg, minArea, eps, rs + rs', fs + fs', ss + ss', ls + ls')
  {
    var R, F, S, L := rs + rs', fs + fs', ss + ss', ls + ls';
    forall i | 0 <= i < |R|
      ensures ColourRegion(px, w, h, bg, minArea, eps, R[i], F[i], S[i], L[i])
    {
      if i >= |rs| {
        var j := i - |rs|;
        assert R[i] == rs'[j] && F[i] == fs'[j] && S[i] == ss'[j] && L[i] == ls'[j];
      } else {
        assert R[i] == rs[i] && F[i] == fs[i] && S[i] == ss[i] && L[i] == ls[i];
      }
    }
  }

  /** A box-local marching-squares loop in pixel units, moved to the box corner (minX, minY) of fragment f. */
  function Placed(pl: seq<DPt>, f: FloodResult): (loop: seq<Pt>)
    ensures |loop| == |pl|
  {
    Translate(Halve(pl), Pt(f.minX as real, f.minY as real))
  }

  /** Region r is loop simplified by `rdp`, tagged with hex and area. */
  ghost predicate Emitted(r: Region, loop: seq<Pt>, hex: string, area: int, eps: real) {
    r.color == hex && r.pixelArea == area && !r.manual
    && r.points == RdpKept(loop, eps)
    && KeepsEnds(r.points, loop) && (eps <= 0.0 ==> r.points == loop)
  }

  /** The `rdp` call of the scan: the recursive definition, with the two facts the scan relies on. */
  method RdpOf(poly: seq<Pt>, eps: real) returns (simp: seq<Pt>)
    requires |poly| > 0
    ensures simp == RdpKept(poly, eps)
    ensures KeepsEnds(simp, poly) && (eps <= 0.0 ==> simp == poly)
  {
    simp := IterativeRdp(poly, eps);
  }

  /** One loop of a fragment, placed, simplified and tagged. */
  method EmitOne(pl: seq<DPt>, f: FloodResult, hex: string, eps: real) returns (r: Region, ghost loop: seq<Pt>)
    requires |pl| >= 3
    ensures loop == Placed(pl, f) && Emitted(r, loop, hex, f.pixelCount, eps)
  {
    var poly := Placed(pl, f);
    var simp := RdpOf(poly, eps);
    loop := poly;
    r := Region(hex, simp, f.pixelCount, false);
  }

  /**
   * The loop over the traced polygons of one fragment: each loop is
   * shifted by the box corner (minX, minY), simplified with `rdp`, and
   * pushed with the colour hex and the fragment's pixel count.
   */
  method EmitLoops(polys: seq<seq<DPt>>, f: FloodResult, hex: string, eps: real)
    returns (rs: seq<Region>, ghost ls: seq<seq<Pt>>)
    requires forall i :: 0 <= i < |polys| ==> |polys[i]| >= 3
    ensures |rs| == |polys| && |ls| == |polys|
    ensures forall i :: 0 <= i < |polys| ==> ls[i] == Placed(polys[i], f)
    ensures forall i :: 0 <= i < |polys| ==> Emitted(rs[i], ls[i], hex, f.pixelCount, eps)
  {
    rs, ls := [], [];
    for i := 0 to |polys|
      invariant |rs| == i && |ls| == i
      invariant forall k :: 0 <= k < i ==> ls[k] == Placed(polys[k], f)
      invariant forall k :: 0 <= k < i ==> Emitted(rs[k], ls[k], hex, f.pixelCount, eps)
    {
      var r;
      ghost var loop;
      r, loop := EmitOne(polys[i], f, hex, eps);
      LoopsSnoc(rs, ls, r, loop, polys, f, hex, eps);
      rs, ls := rs + [r], ls + [loop];
    }
  }

  lemma LoopsSnoc(rs: seq<Region>, ls: seq<seq<Pt>>, r: Region, loop: seq<Pt>, polys: seq<seq<DPt>>, f: FloodResult, hex: string, eps: real)
    requires |rs| == |ls| < |polys|
    requires forall k :: 0 <= k < |ls| ==> ls[k] == Placed(polys[k], f)
    requires forall k :: 0 <= k < |ls| ==> Emitted(rs[k], ls[k], hex, f.pixelCount, eps)
    requires loop == Placed(polys[|ls|], f) && Emitted(r, loop, hex, f.pixelCount, eps)
    ensures forall k :: 0 <= k < |ls| + 1 ==> (ls + [loop])[k] == Placed(polys[k], f)
    ensures forall k :: 0 <= k < |ls| + 1 ==> Emitted((rs + [r])[k], (ls + [loop])[k], hex, f.pixelCount, eps)
  {
    forall k | 0 <= k < |ls| + 1
      ensures (ls + [loop])[k] == Placed(polys[k], f)
      ensures Emitted((rs + [r])[k], (ls + [loop])[k], hex, f.pixelCount, eps)
    {
      if k < |ls| {
        assert (ls + [loop])[k] == ls[k] && (rs + [r])[k] == rs[k];
      } else {
        assert (ls + [loop])[k] == loop && (rs + [r])[k] == r;
      }
    }
  }

  /** A region grown with tolerance 0 against its seed's colour is uniform in that colour. */
  lemma UniformFromFlood(px: seq<seq<Rgb>>, w: nat, h: nat, vis0: seq<seq<int>>, vis: seq<seq<int>>, f: FloodResult, s: Cell)
    requires IsGrid(px, w, h) && IsGrid(vis0, w, h) && IsGrid(vis, w, h) && InBounds(s, w, h)
    requires RegionOf(f, vis0, vis, s, w, h)
    requires forall c :: Taken(vis0, vis, c, w, h) ==> ColorDist(At(px, c), px[s.1][s.0]) <= 0
    ensures Uniform(px, w, h, f, s)
  {
    forall yy, xx | 0 <= yy < f.bh && 0 <= xx < f.bw && f.mask[yy][xx] == 1
      ensures px[yy + f.minY][xx + f.minX] == px[s.1][s.0]
    {
      assert Taken(vis0, vis, (xx + f.minX, yy + f.minY), w, h);
    }
  }

  /**
   * One seed of the colour scan: flood with tolerance 0 against the seed's
   * own colour, drop the fragment below minArea (its pixels stay marked),
   * otherwise trace it and emit one region per loop.
   */
  method ColourSeed(px: seq<seq<Rgb>>, w: nat, h: nat, bg: Rgb, minArea: int, eps: real, vis: seq<seq<int>>, x: nat, y: nat)
    returns (vis': seq<seq<int>>, rs: seq<Region>, ghost fs: seq<FloodResult>, ghost ss: seq<Cell>, ghost ls: seq<seq<Pt>>)
    requires IsGrid(px, w, h) && IsGrid(vis, w, h) && x < w && y < h
    requires VisClass(px, w, h, bg, vis) && ScannedTo(vis, w, h, x, y) && vis[y][x] == 0
    ensures IsGrid(vis', w, h) && VisClass(px, w, h, bg, vis') && ScannedTo(vis', w, h, x + 1, y)
    ensures ColourRegions(px, w, h, bg, minArea, eps, rs, fs, ss, ls)
  {
    var c := px[y][x];
    var res;
    res, vis' := FloodRegionUncapped(px, w, h, (x, y), c, 0, vis);
    assert res.Some?;
    var f := res.value;
    FloodKeepsClasses(px, w, h, bg, vis, vis', x, y);
    SeedTaken(vis, vis', (x, y), w, h, false);
    if f.pixelCount < minArea {
      return vis', [], [], [], [];
    }
    UniformFromFlood(px, w, h, vis, vis', f, (x, y));
    var polys := TracePolygons(f.mask, f.bw, f.bh);
    rs, ls := EmitLoops(polys, f, RgbToHex(c), eps);
    fs, ss := seq(|rs|, _ => f), seq(|rs|, _ => (x, y));
    SeedRegions(px, w, h, bg, minArea, eps, f, (x, y), polys, rs, ls);
  }

  /** Every loop traced from one kept fragment, placed and simplified, is a ColourRegion of its seed. */
  lemma SeedRegions(px: seq<seq<Rgb>>, w: nat, h: nat, bg: Rgb, minArea: int, eps: real,
                    f: FloodResult, s: Cell, polys: seq<seq<DPt>>, rs: seq<Region>, ls: seq<seq<Pt>>)
    requires Uniform(px, w, h, f, s) && px[s.1][s.0] != bg && f.pixelCount >= minArea
    requires IsMask(f.mask, f.bw, f.bh) && polys == TracePolygons(f.mask, f.bw, f.bh)
    requires |rs| == |polys| && |ls| == |polys|
    requires forall i :: 0 <= i < |polys| ==> ls[i] == Placed(polys[i], f)
    requires forall i :: 0 <= i < |polys| ==> Emitted(rs[i], ls[i], RgbToHex(px[s.1][s.0]), f.pixelCount, eps)
    ensures ColourRegions(px, w, h, bg, minArea, eps, rs, seq(|rs|, _ => f), seq(|rs|, _ => s), ls)
  {
    forall i | 0 <= i < |rs|
      ensures ColourRegion(px, w, h, bg, minArea, eps, rs[i], f, s, ls[i])
    {
      assert polys[i] in polys;
    }
  }

  /**
   * The colour scan of `processAll` (version 2) and of the version 3
   * worker. An empty image has no pixel (0, 0) and gives no region.
   * Afterwards every pixel is 2 (background) or 1 (taken by some
   * fragment, kept or dropped), and each region satisfies ColourRegion.
   */
  method ColourScan(px: seq<seq<Rgb>>, w: nat, h: nat, minArea: int, eps: real)
    returns (regions: seq<Region>, vis: seq<seq<int>>, ghost frags: seq<FloodResult>, ghost seeds: seq<Cell>, ghost loops: seq<seq<Pt>>)
    requires IsGrid(px, w, h)
    ensures w == 0 || h == 0 ==> regions == []
    ensures IsGrid(vis, w, h)
    ensures w > 0 && h > 0 ==> forall y, x :: 0 <= y < h && 0 <= x < w ==>
      (vis[y][x] == 2 <==> px[y][x] == px[0][0]) && (vis[y][x] == 1 || vis[y][x] == 2)
    ensures w > 0 && h > 0 ==> ColourRegions(px, w, h, px[0][0], minArea, eps, regions, frags, seeds, loops)
  {
    regions, frags, seeds, loops := [], [], [], [];
    if w == 0 || h == 0 {
      return [], Fill(w, h, 0), [], [], [];
    }
    var bg := px[0][0];
    vis := MarkBackground(px, w, h, bg);
    for y := 0 to h
      invariant IsGrid(vis, w, h) && VisClass(px, w, h, bg, vis) && ScannedTo(vis, w, h, 0, y)
      invariant ColourRegions(px, w, h, bg, minArea, eps, regions, frags, seeds, loops)
    {
      for x := 0 to w
        invariant IsGrid(vis, w, h) && VisClass(px, w, h, bg, vis) && ScannedTo(vis, w, h, x, y)
        invariant ColourRegions(px, w, h, bg, minArea, eps, regions, frags, seeds, loops)
      {
        if vis[y][x] != 0 {
          continue;
        }
        var rs;
        ghost var fs, ss, ls;
        vis, rs, fs, ss, ls := ColourSeed(px, w, h, bg, minArea, eps, vis, x, y);
        ColourRegionsAppend(px, w, h, bg, minArea, eps, regions, frags, seeds, loops, rs, fs, ss, ls);
        regions, frags, seeds, loops := regions + rs, frags + fs, seeds + ss, loops + ls;
      }
    }
  }

  // ---------------------------------------------------------------------
  // The colour-group scan of HotspotStudioAdvanced.tsx
  // ---------------------------------------------------------------------

  /** Pixel (x, y) is set in the box-local mask of fragment f. */
  ghost predicate InFrag(f: FloodResult, x: int, y: int) {
    f.minX <= x < f.minX + f.bw && f.minY <= y < f.minY + f.bh && IsGrid(f.mask, f.bw, f.bh)
    && f.mask[y - f.minY][x - f.minX] != 0
  }

  /**
   * A kept fragment of the group scan: its box lies in the image, it has at
   * least minArea pixels, and every pixel of it is off the background and
   * in the colour group of its seed s.
   */
  ghost predicate GroupFrag(px: seq<seq<Rgb>>, w: int, h: int, bg: Rgb, groupOf: Rgb -> nat, minArea: int, f: FloodResult, s: Cell) {
    IsGrid(px, w, h) && InBounds(s, w, h)
    && 0 <= f.minX && 0 <= f.bw && f.minX + f.bw <= w && 0 <= f.minY && 0 <= f.bh && f.minY + f.bh <= h
    && IsGrid(f.mask, f.bw, f.bh) && f.pixelCount >= minArea
    && forall y, x :: 0 <= y < h && 0 <= x < w && InFrag(f, x, y) ==> px[y][x] != bg && groupOf(px[y][x]) == groupOf(ColorAt(px, s))
  }

  /** Some kept fragment whose seed is in group g covers pixel (x, y). */
  ghost predicate Covered(px: seq<seq<Rgb>>, groupOf: Rgb -> nat, frags: seq<FloodResult>, seeds: seq<Cell>, g: nat, x: int, y: int) {
    exists i :: 0 <= i < |frags| && i < |seeds| && InFrag(frags[i], x, y) && groupOf(ColorAt(px, seeds[i])) == g
  }

  /** m is the w x h 0/1 mask of group g: set exactly where a kept fragment of g lies. */
  ghost predicate GroupMask(px: seq<seq<Rgb>>, w: int, h: int, groupOf: Rgb -> nat, frags: seq<FloodResult>, seeds: seq<Cell>, g: nat, m: seq<seq<int>>) {
    IsGrid(m, w, h)
    && forall y, x :: 0 <= y < h && 0 <= x < w ==>
         (m[y][x] == 1 <==> Covered(px, groupOf, frags, seeds, g, x, y)) && (m[y][x] == 0 || m[y][x] == 1)
  }

  /**
   * The group masks so far: one mask per group that has a kept fragment,
   * each the union of that group's kept fragments, and every key below
   * ngroups (the length of the JavaScript array).
   */
  ghost predicate MasksOf(px: seq<seq<Rgb>>, w: int, h: int, bg: Rgb, groupOf: Rgb -> nat, minArea: int,
                          masks: map<nat, seq<seq<int>>>, ngroups: nat, frags: seq<FloodResult>, seeds: seq<Cell>)
  {
    |seeds| == |frags|
    && (forall i :: 0 <= i < |frags| ==> GroupFrag(px, w, h, bg, groupOf, minArea, frags[i], seeds[i]))
    && (forall i :: 0 <= i < |frags| ==> groupOf(ColorAt(px, seeds[i])) in masks)
    && (forall g :: g in masks ==> g < ngroups && GroupMask(px, w, h, groupOf, frags, seeds, g, masks[g]))
  }

  /** The OR of a fragment's box-local mask into a global mask at the box offset. */
  method OrInto(gm: seq<seq<int>>, w: nat, h: nat, f: FloodResult) returns (gm': seq<seq<int>>)
    requires IsGrid(gm, w, h) && IsGrid(f.mask, f.bw, f.bh)
    requires 0 <= f.minX && 0 <= f.bw && f.minX + f.bw <= w && 0 <= f.minY && 0 <= f.bh && f.minY + f.bh <= h
    ensures IsGrid(gm', w, h)
    ensures forall y, x :: 0 <= y < h && 0 <= x < w ==> gm'[y][x] == if InFrag(f, x, y) then 1 else gm[y][x]
  {
    gm' := gm;
    for yy := 0 to f.bh
      invariant IsGrid(gm', w, h)
      invariant forall y, x :: 0 <= y < h && 0 <= x < w ==>
        gm'[y][x] == if InFrag(f, x, y) && y - f.minY < yy then 1 else gm[y][x]
    {
      for xx := 0 to f.bw
        invariant IsGrid(gm', w, h)
        invariant forall y, x :: 0 <= y < h && 0 <= x < w ==>
          gm'[y][x] == if InFrag(f, x, y) && (y - f.minY < yy || (y - f.minY == yy && x - f.minX < xx)) then 1 else gm[y][x]
      {
        if f.mask[yy][xx] != 0 {
          gm' := Set(gm', (f.minX + xx, f.minY + yy), 1);
        }
      }
    }
  }

  /** Appending a fragment adds exactly its pixels to the cover of its group. */
  lemma CoveredAppend(px: seq<seq<Rgb>>, groupOf: Rgb -> nat, frags: seq<FloodResult>, seeds: seq<Cell>, f: FloodResult, s: Cell, g: nat, x: int, y: int)
    requires |frags| == |seeds|
    ensures Covered(px, groupOf, frags + [f], seeds + [s], g, x, y)
      <==> Covered(px, groupOf, frags, seeds, g, x, y) || (InFrag(f, x, y) && groupOf(ColorAt(px, s)) == g)
  {
    var F, S := frags + [f], seeds + [s];
    if Covered(px, groupOf, frags, seeds, g, x, y) {
      var i :| 0 <= i < |frags| && i < |seeds| && InFrag(frags[i], x, y) && groupOf(ColorAt(px, seeds[i])) == g;
      assert F[i] == frags[i] && S[i] == seeds[i];
    }
    if InFrag(f, x, y) && groupOf(ColorAt(px, s)) == g {
      assert F[|frags|] == f && S[|frags|] == s;
    }
    if Covered(px, groupOf, F, S, g, x, y) {
      var i :| 0 <= i < |F| && i < |S| && InFrag(F[i], x, y) && groupOf(ColorAt(px, S[i])) == g;
      if i < |frags| {
        assert F[i] == frags[i] && S[i] == seeds[i];
      }
    }
  }

  /** OR-ing a kept fragment into its group's mask (created empty if missing) keeps the masks the unions of their fragments. */
  lemma MasksStep(px: seq<seq<Rgb>>, w: nat, h: nat, bg: Rgb, groupOf: Rgb -> nat, minArea: int,
                  masks: map<nat, seq<seq<int>>>, ngroups: nat, frags: seq<FloodResult>, seeds: seq<Cell>,
                  f: FloodResult, s: Cell, gm: seq<seq<int>>, gm': seq<seq<int>>)
    requires MasksOf(px, w, h, bg, groupOf, minArea, masks, ngroups, frags, seeds)
    requires GroupFrag(px, w, h, bg, groupOf, minArea, f, s)
    requires gm == if groupOf(ColorAt(px, s)) in masks then masks[groupOf(ColorAt(px, s))] else Fill(w, h, 0)
    requires IsGrid(gm', w, h)
    requires forall y, x :: 0 <= y < h && 0 <= x < w ==> gm'[y][x] == if InFrag(f, x, y) then 1 else gm[y][x]
    ensures var g := groupOf(ColorAt(px, s));
      MasksOf(px, w, h, bg, groupOf, minArea, masks[g := gm'], if g < ngroups then ngroups else g + 1, frags + [f], seeds + [s])
  {
    var g := groupOf(ColorAt(px, s));
    var F, S := frags + [f], seeds + [s];
    var M, n := masks[g := gm'], if g < ngroups then ngroups else g + 1;
    forall i | 0 <= i < |F|
      ensures GroupFrag(px, w, h, bg, groupOf, minArea, F[i], S[i]) && groupOf(ColorAt(px, S[i])) in M
    {
      if i < |frags| {
        assert F[i] == frags[i] && S[i] == seeds[i];
      }
    }
    forall g' | g' in M
      ensures g' < n && GroupMask(px, w, h, groupOf, F, S, g', M[g'])
    {
      forall y, x | 0 <= y < h && 0 <= x < w
        ensures (M[g'][y][x] == 1 <==> Covered(px, groupOf, F, S, g', x, y)) && (M[g'][y][x] == 0 || M[g'][y][x] == 1)
      {
        CoveredAppend(px, groupOf, frags, seeds, f, s, g', x, y);
      }
    }
  }

  /** A region grown by group from a free seed lies off the background and in the seed's group. */
  lemma GroupFragFromFlood(px: seq<seq<Rgb>>, w: nat, h: nat, bg: Rgb, groupOf: Rgb -> nat, minArea: int,
                           vis0: seq<seq<int>>, vis: seq<seq<int>>, f: FloodResult, s: Cell)
    requires IsGrid(px, w, h) && IsGrid(vis0, w, h) && IsGrid(vis, w, h) && InBounds(s, w, h)
    requires VisClass(px, w, h, bg, vis0) && RegionOf(f, vis0, vis, s, w, h) && f.pixelCount >= minArea
    requires forall c :: Taken(vis0, vis, c, w, h) ==> groupOf(At(px, c)) == groupOf(px[s.1][s.0])
    ensures GroupFrag(px, w, h, bg, groupOf, minArea, f, s)
  {
    forall y, x | 0 <= y < h && 0 <= x < w && InFrag(f, x, y)
      ensures px[y][x] != bg && groupOf(px[y][x]) == groupOf(ColorAt(px, s))
    {
      assert f.mask[y - f.minY][x - f.minX] == 1;
      assert Taken(vis0, vis, (x - f.minX + f.minX, y - f.minY + f.minY), w, h);
    }
  }

  /**
   * One seed of the group scan: flood the seed's colour group, drop the
   * fragment below minArea (its pixels stay marked), otherwise OR it into
   * the mask of its group, creating that mask on first use.
   */
  method GroupSeed(px: seq<seq<Rgb>>, w: nat, h: nat, bg: Rgb, groupOf: Rgb -> nat, minArea: int, vis: seq<seq<int>>, x: nat, y: nat,
                   masks: map<nat, seq<seq<int>>>, ngroups: nat, ghost frags: seq<FloodResult>, ghost seeds: seq<Cell>)
    returns (vis': seq<seq<int>>, masks': map<nat, seq<seq<int>>>, ngroups': nat, ghost frags': seq<FloodResult>, ghost seeds': seq<Cell>)
    requires IsGrid(px, w, h) && IsGrid(vis, w, h) && x < w && y < h
    requires VisClass(px, w, h, bg, vis) && ScannedTo(vis, w, h, x, y) && vis[y][x] == 0
    requires MasksOf(px, w, h, bg, groupOf, minArea, masks, ngroups, frags, seeds)
    ensures IsGrid(vis', w, h) && VisClass(px, w, h, bg, vis') && ScannedTo(vis', w, h, x + 1, y)
    ensures MasksOf(px, w, h, bg, groupOf, minArea, masks', ngroups', frags', seeds')
  {
    var seedGroup := groupOf(px[y][x]);
    var res;
    res, vis' := FloodRegionByGroup(px, w, h, (x, y), seedGroup, groupOf, vis);
    assert res.Some?;
    var f := res.value;
    FloodKeepsClasses(px, w, h, bg, vis, vis', x, y);
    SeedTaken(vis, vis', (x, y), w, h, false);
    if f.pixelCount < minArea {
      return vis', masks, ngroups, frags, seeds;
    }
    GroupFragFromFlood(px, w, h, bg, groupOf, minArea, vis, vis', f, (x, y));
    var gm := if seedGroup in masks then masks[seedGroup] else Fill(w, h, 0);
    var gm' := OrInto(gm, w, h, f);
    MasksStep(px, w, h, bg, groupOf, minArea, masks, ngroups, frags, seeds, f, (x, y), gm, gm');
    masks' := masks[seedGroup := gm'];
    ngroups' := if seedGroup < ngroups then ngroups else seedGroup + 1;
    frags', seeds' := frags + [f], seeds + [(x, y)];
  }

  /** Every set pixel of a group mask is off the background and in that group. */
  lemma GroupMaskSound(px: seq<seq<Rgb>>, w: nat, h: nat, bg: Rgb, groupOf: Rgb -> nat, minArea: int,
                       masks: map<nat, seq<seq<int>>>, ngroups: nat, frags: seq<FloodResult>, seeds: seq<Cell>, g: nat, x: nat, y: nat)
    requires MasksOf(px, w, h, bg, groupOf, minArea, masks, ngroups, frags, seeds)
    requires g in masks && x < w && y < h && masks[g][y][x] == 1
    ensures px[y][x] != bg && groupOf(px[y][x]) == g
  {
    var i :| 0 <= i < |frags| && i < |seeds| && InFrag(frags[i], x, y) && groupOf(ColorAt(px, seeds[i])) == g;
    assert GroupFrag(px, w, h, bg, groupOf, minArea, frags[i], seeds[i]);
  }

  /** The outline loops of one group: marching squares over the group mask after the 1-pixel close. */
  function Outlines(m: seq<seq<int>>, w: nat, h: nat): (polys: seq<seq<DPt>>)
    requires IsGrid(m, w, h)
    ensures forall i :: 0 <= i < |polys| ==> |polys[i]| >= 3
  {
    TracePolygons(MorphClose1(m, w, h), w, h)
  }

  /** What `simplifyClosedPolygon` promises about out for the input pts. */
  ghost predicate Simplified(out: seq<Pt>, pts: seq<Pt>, opts: Options, angle: (real, real, real, real) -> real)
    requires |pts| > 0
  {
    (|pts| < 4 || opts.mode == NoneMode ==> out == pts)
    && (|pts| >= 4 && opts.mode != NoneMode ==>
          var rot := Rotation(pts, angle);
          (|out| >= 3 || out == rot) && out[0] == rot[0] && exists idx :: SubseqAt(out, rot, idx) && idx[0] == 0)
    && (|pts| >= 4 && opts.mode == RdpMode ==>
          var rot := Rotation(pts, angle);
          var simp := RdpStage(rot, StageEps(opts));
          out == if |simp| >= 3 then simp else rot)
    && (|pts| >= 4 && opts.mode == AngleMode ==>
          var rot := Rotation(pts, angle);
          var o := AngleStage(RdpStage(rot, StageEps(opts)), opts, angle);
          out == if |o| >= 3 then o else rot)
  }

  /** The `simplifyClosedPolygon` call of the group scan. */
  method SimplifyOf(pts: seq<Pt>, opts: Options, angle: (real, real, real, real) -> real) returns (out: seq<Pt>)
    requires |pts| > 0
    ensures Simplified(out, pts, opts, angle)
  {
    out := SimplifyClosedPolygon(pts, opts, angle);
  }

  /**
   * A region of the group scan: it carries the hex colour of group g and
   * pixel area 0, and its points are the angle-aware simplification of the
   * outline loop pl.
   */
  ghost predicate GroupRegion(r: Region, g: nat, pl: seq<DPt>, opts: Options, angle: (real, real, real, real) -> real, hexOf: nat -> string) {
    |pl| > 0 && r.color == hexOf(g) && r.pixelArea == 0 && !r.manual && Simplified(r.points, Halve(pl), opts, angle)
  }

  /** The region of one outline loop of group g. */
  method EmitPoly(pl: seq<DPt>, g: nat, opts: Options, angle: (real, real, real, real) -> real, hexOf: nat -> string) returns (r: Region)
    requires |pl| > 0
    ensures GroupRegion(r, g, pl, opts, angle, hexOf)
  {
    var simp := SimplifyOf(Halve(pl), opts, angle);
    r := Region(hexOf(g), simp, 0, false);
  }

  /** The regions of the outline loops polys of group g, in loop order. */
  method EmitPolys(polys: seq<seq<DPt>>, g: nat, opts: Options, angle: (real, real, real, real) -> real, hexOf: nat -> string)
    returns (rs: seq<Region>)
    requires forall k :: 0 <= k < |polys| ==> |polys[k]| >= 3
    ensures |rs| == |polys|
    ensures forall k :: 0 <= k < |rs| ==> GroupRegion(rs[k], g, polys[k], opts, angle, hexOf)
  {
    rs := [];
    for k := 0 to |polys|
      invariant |rs| == k
      invariant forall j :: 0 <= j < k ==> GroupRegion(rs[j], g, polys[j], opts, angle, hexOf)
    {
      var r := EmitPoly(polys[k], g, opts, angle, hexOf);
      GroupRegionsSnoc(rs, r, polys, g, opts, angle, hexOf);
      rs := rs + [r];
    }
  }

  lemma GroupRegionsSnoc(rs: seq<Region>, r: Region, polys: seq<seq<DPt>>, g: nat, opts: Options,
                         angle: (real, real, real, real) -> real, hexOf: nat -> string)
    requires |rs| < |polys|
    requires forall j :: 0 <= j < |rs| ==> GroupRegion(rs[j], g, polys[j], opts, angle, hexOf)
    requires GroupRegion(r, g, polys[|rs|], opts, angle, hexOf)
    ensures forall j :: 0 <= j < |rs| + 1 ==> GroupRegion((rs + [r])[j], g, polys[j], opts, angle, hexOf)
  {
    forall j | 0 <= j < |rs| + 1
      ensures GroupRegion((rs + [r])[j], g, polys[j], opts, angle, hexOf)
    {
      if j < |rs| {
        assert (rs + [r])[j] == rs[j];
      } else {
        assert (rs + [r])[j] == r;
      }
    }
  }

  /** The regions of one group, one per outline loop, in loop order. */
  method EmitGroup(m: seq<seq<int>>, w: nat, h: nat, g: nat, opts: Options, angle: (real, real, real, real) -> real, hexOf: nat -> string)
    returns (rs: seq<Region>)
    requires IsGrid(m, w, h)
    ensures |rs| == |Outlines(m, w, h)|
    ensures forall k :: 0 <= k < |rs| ==> GroupRegion(rs[k], g, Outlines(m, w, h)[k], opts, angle, hexOf)
  {
    var polys := Outlines(m, w, h);
    rs := EmitPolys(polys, g, opts, angle, hexOf);
  }

  /**
   * The regions emitted so far: in non-decreasing group order, each made
   * from one of the outline loops of its group.
   */
  ghost predicate Emissions(outlines: map<nat, seq<seq<DPt>>>, opts: Options, angle: (real, real, real, real) -> real,
                            hexOf: nat -> string, regions: seq<Region>, gids: seq<nat>, loops: seq<seq<DPt>>)
  {
    |gids| == |regions| && |loops| == |regions|
    && (forall i :: 0 <= i < |regions| ==> gids[i] in outlines && loops[i] in outlines[gids[i]])
    && (forall i :: 0 <= i < |regions| ==> GroupRegion(regions[i], gids[i], loops[i], opts, angle, hexOf))
    && (forall i, j :: 0 <= i < j < |gids| ==> gids[i] <= gids[j])
  }

  /** Every outline loop of every group below n has a region. */
  ghost predicate AllEmitted(outlines: map<nat, seq<seq<DPt>>>, n: int, gids: seq<nat>, loops: seq<seq<DPt>>) {
    forall g, pl :: g in outlines && g < n && pl in outlines[g] ==>
      exists i :: 0 <= i < |gids| && i < |loops| && gids[i] == g && loops[i] == pl
  }

  lemma AppendRight<T>(a: seq<T>, b: seq<T>, i: int)
    requires |a| <= i < |a| + |b|
    ensures (a + b)[i] == b[i - |a|]
  {
  }

  lemma EmissionsAppend(outlines: map<nat, seq<seq<DPt>>>, opts: Options, angle: (real, real, real, real) -> real,
                        hexOf: nat -> string, regions: seq<Region>, gids: seq<nat>, loops: seq<seq<DPt>>,
                        g: nat, rs: seq<Region>, ls: seq<seq<DPt>>)
    requires Emissions(outlines, opts, angle, hexOf, regions, gids, loops)
    requires forall i :: 0 <= i < |gids| ==> gids[i] <= g
    requires g in outlines && |rs| == |ls| && ls == outlines[g]
    requires forall k :: 0 <= k < |rs| ==> GroupRegion(rs[k], g, ls[k], opts, angle, hexOf)
    ensures Emissions(outlines, opts, angle, hexOf, regions + rs, gids + seq(|rs|, _ => g), loops + ls)
  {
    var R, G, L := regions + rs, gids + seq(|rs|, _ => g), loops + ls;
    forall i | 0 <= i < |R|
      ensures G[i] in outlines && L[i] in outlines[G[i]] && GroupRegion(R[i], G[i], L[i], opts, angle, hexOf)
    {
      if i >= |regions| {
        AppendRight(regions, rs, i);
        AppendRight(loops, ls, i);
        assert G[i] == g;
        assert ls[i - |regions|] in ls;
      } else {
        assert R[i] == regions[i] && G[i] == gids[i] && L[i] == loops[i];
      }
    }
    forall i, j | 0 <= i < j < |G|
      ensures G[i] <= G[j]
    {
      if j < |gids| {
        assert G[i] == gids[i] && G[j] == gids[j];
      } else if i < |gids| {
        assert G[i] == gids[i] && G[j] == g;
      }
    }
  }

  lemma AllEmittedAppend(outlines: map<nat, seq<seq<DPt>>>, gids: seq<nat>, loops: seq<seq<DPt>>, g: nat, ls: seq<seq<DPt>>)
    requires AllEmitted(outlines, g, gids, loops) && |gids| == |loops|
    requires g in outlines ==> ls == outlines[g]
    ensures AllEmitted(outlines, g + 1, gids + seq(|ls|, _ => g), loops + ls)
  {
    var G, L := gids + seq(|ls|, _ => g), loops + ls;
    forall g', pl | g' in outlines && g' < g + 1 && pl in outlines[g']
      ensures exists i :: 0 <= i < |G| && i < |L| && G[i] == g' && L[i] == pl
    {
      if g' < g {
        var i :| 0 <= i < |gids| && i < |loops| && gids[i] == g' && loops[i] == pl;
        assert G[i] == g' && L[i] == pl;
      } else {
        var k :| 0 <= k < |ls| && ls[k] == pl;
        AppendRight(loops, ls, |gids| + k);
        assert G[|gids| + k] == g';
      }
    }
  }

  /** The outline loops of every group mask. */
  ghost predicate OutlinesOf(masks: map<nat, seq<seq<int>>>, w: nat, h: nat, outlines: map<nat, seq<seq<DPt>>>) {
    (forall g :: g in masks <==> g in outlines)
    && forall g :: g in masks ==> IsGrid(masks[g], w, h) && outlines[g] == Outlines(masks[g], w, h)
  }

  /** A region the group pass emits: no pixel area, not manual, coloured by a group below n that has a mask. */
  ghost predicate GroupedRegion(r: Region, masks: map<nat, seq<seq<int>>>, n: nat, hexOf: nat -> string)
  {
    r.pixelArea == 0 && !r.manual && exists g :: g in masks && g < n && r.color == hexOf(g)
  }

  /** Each emitted region has area 0, is not manual, and carries the hex of a masked group below n. */
  lemma EmittedRegions(outlines: map<nat, seq<seq<DPt>>>, masks: map<nat, seq<seq<int>>>, n: nat, opts: Options,
                       angle: (real, real, real, real) -> real, hexOf: nat -> string,
                       regions: seq<Region>, gids: seq<nat>, loops: seq<seq<DPt>>)
    requires Emissions(outlines, opts, angle, hexOf, regions, gids, loops)
    requires forall g :: g in outlines ==> g in masks
    requires forall i :: 0 <= i < |gids| ==> gids[i] < n
    ensures forall i :: 0 <= i < |regions| ==>
      GroupedRegion(regions[i], masks, n, hexOf)
  {
    forall i | 0 <= i < |regions|
      ensures GroupedRegion(regions[i], masks, n, hexOf)
    {
      assert GroupRegion(regions[i], gids[i], loops[i], opts, angle, hexOf);
      assert gids[i] in masks && gids[i] < n;
    }
  }

  /** The state of the group loop after the groups below n: every loop of those groups is emitted, in group order. */
  ghost predicate EmittedBelow(outlines: map<nat, seq<seq<DPt>>>, opts: Options, angle: (real, real, real, real) -> real,
                               hexOf: nat -> string, n: nat, regions: seq<Region>, gids: seq<nat>, loops: seq<seq<DPt>>)
  {
    Emissions(outlines, opts, angle, hexOf, regions, gids, loops)
    && AllEmitted(outlines, n, gids, loops)
    && forall i :: 0 <= i < |gids| ==> gids[i] < n
  }

  lemma OutlineAt(masks: map<nat, seq<seq<int>>>, w: nat, h: nat, outlines: map<nat, seq<seq<DPt>>>, g: nat)
    requires OutlinesOf(masks, w, h, outlines)
    ensures g in masks <==> g in outlines
    ensures g in masks ==> IsGrid(masks[g], w, h) && outlines[g] == Outlines(masks[g], w, h)
  {
  }

  /** One turn of the group loop: the regions of group gid, if it has a mask, are appended. */
  method EmitNext(masks: map<nat, seq<seq<int>>>, w: nat, h: nat, opts: Options,
                  angle: (real, real, real, real) -> real, hexOf: nat -> string, ghost outlines: map<nat, seq<seq<DPt>>>,
                  gid: nat, regions: seq<Region>, ghost gids: seq<nat>, ghost loops: seq<seq<DPt>>)
    returns (regions': seq<Region>, ghost gids': seq<nat>, ghost loops': seq<seq<DPt>>)
    requires gid in masks <==> gid in outlines
    requires gid in masks ==> IsGrid(masks[gid], w, h) && outlines[gid] == Outlines(masks[gid], w, h)
    requires EmittedBelow(outlines, opts, angle, hexOf, gid, regions, gids, loops)
    ensures EmittedBelow(outlines, opts, angle, hexOf, gid + 1, regions', gids', loops')
  {
    if gid !in masks {
      AllEmittedAppend(outlines, gids, loops, gid, []);
      assert gids + seq(0, _ => gid) == gids && loops + [] == loops;
      return regions, gids, loops;
    }
    var rs := EmitGroup(masks[gid], w, h, gid, opts, angle, hexOf);
    ghost var ls := Outlines(masks[gid], w, h);
    EmissionsAppend(outlines, opts, angle, hexOf, regions, gids, loops, gid, rs, ls);
    AllEmittedAppend(outlines, gids, loops, gid, ls);
    regions', gids', loops' := regions + rs, gids + seq(|rs|, _ => gid), loops + ls;
  }

  /**
   * The second half of the group scan: for every group id below ngroups
   * that has a mask, in increasing order, close the mask by one pixel,
   * trace it, and emit one simplified region per loop.
   */
  method EmitGroups(masks: map<nat, seq<seq<int>>>, ngroups: nat, w: nat, h: nat, opts: Options,
                    angle: (real, real, real, real) -> real, hexOf: nat -> string)
    returns (regions: seq<Region>, ghost outlines: map<nat, seq<seq<DPt>>>, ghost gids: seq<nat>, ghost loops: seq<seq<DPt>>)
    requires forall g :: g in masks ==> IsGrid(masks[g], w, h)
    ensures OutlinesOf(masks, w, h, outlines)
    ensures Emissions(outlines, opts, angle, hexOf, regions, gids, loops)
    ensures AllEmitted(outlines, ngroups, gids, loops)
    ensures forall i :: 0 <= i < |regions| ==>
      GroupedRegion(regions[i], masks, ngroups, hexOf)
  {
    outlines := map g | g in masks :: Outlines(masks[g], w, h);
    assert OutlinesOf(masks, w, h, outlines) && forall g :: g in outlines ==> g in masks;
    regions, gids, loops := [], [], [];
    var gid := 0;
    while gid < ngroups
      invariant gid <= ngroups
      invariant EmittedBelow(outlines, opts, angle, hexOf, gid, regions, gids, loops)
    {
      OutlineAt(masks, w, h, outlines, gid);
      regions, gids, loops := EmitNext(masks, w, h, opts, angle, hexOf, outlines, gid, regions, gids, loops);
      gid := gid + 1;
    }
    assert gid == ngroups;
    EmittedRegions(outlines, masks, ngroups, opts, angle, hexOf, regions, gids, loops);
  }

  /**
   * The per-frame scan of the group path of `processAll`: background
   * pass, raster scan building one mask per colour group from the kept
   * fragments, then one pass over the groups emitting simplified outlines.
   * Afterwards every pixel is 2 (background) or 1, the masks are the
   * unions of the kept fragments of their groups, and the regions are the
   * simplified outlines of the closed masks in group order, all of them.
   * `px` is the image after `snapToGridRGB`; `groupOf` gives the colour
   * group the grouper assigns to a colour, and `hexOf` its hex.
   */
  method GroupScan(px: seq<seq<Rgb>>, w: nat, h: nat, groupOf: Rgb -> nat, minArea: int, opts: Options,
                   angle: (real, real, real, real) -> real, hexOf: nat -> string)
    returns (regions: seq<Region>, vis: seq<seq<int>>, masks: map<nat, seq<seq<int>>>, ngroups: nat,
             ghost frags: seq<FloodResult>, ghost seeds: seq<Cell>,
             ghost outlines: map<nat, seq<seq<DPt>>>, ghost gids: seq<nat>, ghost loops: seq<seq<DPt>>)
    requires IsGrid(px, w, h)
    ensures w == 0 || h == 0 ==> regions == [] && masks == map[]
    ensures IsGrid(vis, w, h)
    ensures w > 0 && h > 0 ==> forall y, x :: 0 <= y < h && 0 <= x < w ==>
      (vis[y][x] == 2 <==> px[y][x] == px[0][0]) && (vis[y][x] == 1 || vis[y][x] == 2)
    ensures w > 0 && h > 0 ==> MasksOf(px, w, h, px[0][0], groupOf, minArea, masks, ngroups, frags, seeds)
    ensures OutlinesOf(masks, w, h, outlines)
    ensures Emissions(outlines, opts, angle, hexOf, regions, gids, loops)
    ensures AllEmitted(outlines, ngroups, gids, loops)
  {
    if w == 0 || h == 0 {
      return [], Fill(w, h, 0), map[], 0, [], [], map[], [], [];
    }
    var bg := px[0][0];
    vis := MarkBackground(px, w, h, bg);
    masks, ngroups, frags, seeds := map[], 0, [], [];
    for y := 0 to h
      invariant IsGrid(vis, w, h) && VisClass(px, w, h, bg, vis) && ScannedTo(vis, w, h, 0, y)
      invariant MasksOf(px, w, h, bg, groupOf, minArea, masks, ngroups, frags, seeds)
    {
      for x := 0 to w
        invariant IsGrid(vis, w, h) && VisClass(px, w, h, bg, vis) && ScannedTo(vis, w, h, x, y)
        invariant MasksOf(px, w, h, bg, groupOf, minArea, masks, ngroups, frags, seeds)
      {
        if vis[y][x] != 0 {
          continue;
        }
        vis, masks, ngroups, frags, seeds := GroupSeed(px, w, h, bg, groupOf, minArea, vis, x, y, masks, ngroups, frags, seeds);
      }
    }
    regions, outlines, gids, loops := EmitGroups(masks, ngroups, w, h, opts, angle, hexOf);
  }
}
