/**
 * The per-frame scan and the export of `processWireBatch`
 * (wireHotspot.ts). Pixels are marked lazily: a free pixel that is fully
 * transparent or has the RGB of pixel 0 is marked 2 when the scan reaches
 * it; every other free pixel seeds a 4-connected exact-colour flood, whose
 * region is kept when it has at least minArea pixels and a non-empty
 * traced boundary.
 */
module WireScan {
  import opened Colors
  import opened Grid
  import opened Geometry
  import opened Flood
  import opened WireFlood
  import opened Moore
  import opened Rdp
  import opened Ids
  import opened Scan

  /** One detected region of one frame, before export. */
  datatype RawItem = RawItem(frame: nat, points: seq<Pt>, color: string, pixelArea: int)

  /** The matching test of the wire flood: exactly the RGB of the seed. */
  function SameAs(px: seq<seq<Rgb>>, seed: Rgb): (m: Cell -> bool)
    ensures forall c :: m(c) <==> SameRgb(ColorAt(px, c), seed)
  {
    c => SameRgb(ColorAt(px, c), seed)
  }

  /** `visited` of the wire scan: values 0 to 2, and a pixel with the background RGB is never 1. */
  predicate WireVis(px: seq<seq<Rgb>>, w: int, h: int, bg: Rgb, vis: seq<seq<int>>)
    requires IsGrid(px, w, h) && IsGrid(vis, w, h)
  {
    forall y, x :: 0 <= y < h && 0 <= x < w ==> 0 <= vis[y][x] <= 2 && (px[y][x] == bg ==> vis[y][x] != 1)
  }

  /** The boundary trace of fragment f: a non-empty 8-connected walk over set pixels of its box-local mask. */
  ghost predicate BoundaryOf(f: FloodResult, path: seq<Cell>) {
    |path| > 0 && IsGrid(f.mask, f.bw, f.bh)
    && (forall k :: 0 <= k < |path| ==> InBounds(path[k], f.bw, f.bh) && f.mask[path[k].1][path[k].0] == 1)
    && (forall k :: 0 < k < |path| ==> Adj8(path[k - 1], path[k]))
  }

  /** The traced pixel centres moved to the fragment's box corner. */
  function GlobalContour(f: FloodResult, path: seq<Cell>): (pts: seq<Pt>)
    ensures |pts| == |path|
  {
    Translate(Centres(path), Pt(f.minX as real, f.minY as real))
  }

  /**
   * What the wire scan promises about one item: its fragment was grown
   * from a visible, non-background seed s and has the seed's RGB
   * throughout, it has at least minArea pixels, the item carries the frame,
   * the seed's hex colour and the pixel count, and its points are the
   * traced boundary when epsilon <= 0 and `rdp` of it otherwise, which keeps
   * both ends in order.
   */
  ghost predicate WireItem(px: seq<seq<Rgb>>, alpha: seq<seq<Byte>>, w: int, h: int, bg: Rgb, frame: nat, minArea: int, eps: real,
                           it: RawItem, f: FloodResult, s: Cell, path: seq<Cell>)
  {
    Uniform(px, w, h, f, s) && IsGrid(alpha, w, h) && alpha[s.1][s.0] != 0 && px[s.1][s.0] != bg
    && it.frame == frame && it.color == RgbToHex(px[s.1][s.0]) && it.pixelArea == f.pixelCount && f.pixelCount >= minArea
    && BoundaryOf(f, path)
    && (eps > 0.0 ==> it.points == WireRdp(GlobalContour(f, path), eps))
    && KeepsEnds(it.points, GlobalContour(f, path)) && (eps <= 0.0 ==> it.points == GlobalContour(f, path))
  }

  /** Every point of an item's boundary is the centre of an image pixel of the item's colour. */
  lemma WireItemPixels(px: seq<seq<Rgb>>, alpha: seq<seq<Byte>>, w: int, h: int, bg: Rgb, frame: nat, minArea: int, eps: real,
                       it: RawItem, f: FloodResult, s: Cell, path: seq<Cell>, k: int)
    requires WireItem(px, alpha, w, h, bg, frame, minArea, eps, it, f, s, path) && 0 <= k < |path|
    ensures var c := (path[k].0 + f.minX, path[k].1 + f.minY);
      InBounds(c, w, h) && GlobalContour(f, path)[k] == Centre(c) && RgbToHex(px[c.1][c.0]) == it.color
  {
    BoundaryPixel(px, w, h, f, s, path, k);
    ContourAt(f, path, k);
  }

  /** A boundary pixel of a uniform fragment lies in the image and has the seed's colour. */
  lemma BoundaryPixel(px: seq<seq<Rgb>>, w: int, h: int, f: FloodResult, s: Cell, path: seq<Cell>, k: int)
    requires Uniform(px, w, h, f, s) && BoundaryOf(f, path) && 0 <= k < |path|
    ensures InBounds((path[k].0 + f.minX, path[k].1 + f.minY), w, h)
    ensures px[path[k].1 + f.minY][path[k].0 + f.minX] == px[s.1][s.0]
  {
    assert InBounds(path[k], f.bw, f.bh) && f.mask[path[k].1][path[k].0] == 1;
  }

  /** Point k of the global contour is the centre of the k-th traced pixel moved to the box corner. */
  lemma ContourAt(f: FloodResult, path: seq<Cell>, k: int)
    requires 0 <= k < |path|
    ensures GlobalContour(f, path)[k] == Centre((path[k].0 + f.minX, path[k].1 + f.minY))
  {
    assert Centres(path)[k] == Centre(path[k]);
  }

  ghost predicate WireItems(px: seq<seq<Rgb>>, alpha: seq<seq<Byte>>, w: int, h: int, bg: Rgb, frame: nat, minArea: int, eps: real,
                            items: seq<RawItem>, fs: seq<FloodResult>, ss: seq<Cell>, paths: seq<seq<Cell>>)
  {
    |fs| == |items| && |ss| == |items| && |paths| == |items|
    && forall i :: 0 <= i < |items| ==> WireItem(px, alpha, w, h, bg, frame, minArea, eps, items[i], fs[i], ss[i], paths[i])
  }

  /** The traced boundary of the box-local mask, read through the flat layout the tracer works on. */
  lemma BoundaryFromTrace(f: FloodResult, path: seq<Cell>)
    requires IsGrid(f.mask, f.bw, f.bh) && 0 <= f.bw && 0 <= f.bh && |path| > 0
    requires forall i :: 0 <= i < |path| ==> On(Flatten(f.mask), f.bw, f.bh, path[i])
    requires forall i :: 0 < i < |path| ==> Adj8(path[i - 1], path[i])
    ensures BoundaryOf(f, path)
  {
    forall k | 0 <= k < |path|
      ensures InBounds(path[k], f.bw, f.bh) && f.mask[path[k].1][path[k].0] == 1
    {
      assert On(Flatten(f.mask), f.bw, f.bh, path[k]);
      FlattenIndex(f.mask, f.bw, f.bh, path[k].0, path[k].1);
    }
  }

  /** A wire flood from a seed of colour c leaves every taken pixel with colour c. */
  lemma WireUniform(px: seq<seq<Rgb>>, w: nat, h: nat, vis0: seq<seq<int>>, vis: seq<seq<int>>, f: FloodResult, s: Cell)
    requires IsGrid(px, w, h) && IsGrid(vis0, w, h) && IsGrid(vis, w, h) && InBounds(s, w, h)
    requires RegionOf(f, vis0, vis, s, w, h)
    requires forall c :: Taken(vis0, vis, c, w, h) ==> c == s || SameRgb(ColorAt(px, c), px[s.1][s.0])
    ensures Uniform(px, w, h, f, s)
  {
    forall yy, xx | 0 <= yy < f.bh && 0 <= xx < f.bw && f.mask[yy][xx] == 1
      ensures px[yy + f.minY][xx + f.minX] == px[s.1][s.0]
    {
      assert Taken(vis0, vis, (xx + f.minX, yy + f.minY), w, h);
    }
  }

  /** The flood keeps the wire scan's marking rules and never frees a cell. */
  lemma WireFloodKeepsVis(px: seq<seq<Rgb>>, w: nat, h: nat, bg: Rgb, vis0: seq<seq<int>>, vis: seq<seq<int>>, s: Cell, x: int, y: int)
    requires IsGrid(px, w, h) && IsGrid(vis0, w, h) && IsGrid(vis, w, h) && InBounds(s, w, h) && px[s.1][s.0] != bg
    requires WireVis(px, w, h, bg, vis0) && ScannedTo(vis0, w, h, x, y) && OnlyFreeWritten(vis0, vis, w, h, true)
    requires forall c :: Taken(vis0, vis, c, w, h) ==> c == s || SameRgb(ColorAt(px, c), px[s.1][s.0])
    ensures WireVis(px, w, h, bg, vis) && ScannedTo(vis, w, h, x, y)
  {
    forall yy, xx | 0 <= yy < h && 0 <= xx < w
      ensures 0 <= vis[yy][xx] <= 2 && (px[yy][xx] == bg ==> vis[yy][xx] != 1)
    {
      if vis[yy][xx] != vis0[yy][xx] && vis[yy][xx] == 1 {
        assert Taken(vis0, vis, (xx, yy), w, h);
      }
    }
  }

  /**
   * One pixel of the scan, reached while still free: mark it 2 when it is
   * transparent or has the background RGB; otherwise flood its RGB and
   * emit an item when the region is large enough and its boundary trace
   * is not empty.
   */
  method WireSeed(px: seq<seq<Rgb>>, alpha: seq<seq<Byte>>, w: nat, h: nat, bg: Rgb, frame: nat, minArea: int, eps: real,
                  vis: seq<seq<int>>, x: nat, y: nat)
    returns (vis': seq<seq<int>>, items: seq<RawItem>, ghost fs: seq<FloodResult>, ghost ss: seq<Cell>, ghost paths: seq<seq<Cell>>)
    requires IsGrid(px, w, h) && IsGrid(alpha, w, h) && IsGrid(vis, w, h) && x < w && y < h
    requires WireVis(px, w, h, bg, vis) && ScannedTo(vis, w, h, x, y) && vis[y][x] == 0
    ensures IsGrid(vis', w, h) && WireVis(px, w, h, bg, vis') && ScannedTo(vis', w, h, x + 1, y)
    ensures WireItems(px, alpha, w, h, bg, frame, minArea, eps, items, fs, ss, paths)
  {
    fs, ss, paths := [], [], [];
    if alpha[y][x] == 0 || SameRgb(px[y][x], bg) {
      vis' := Set(vis, (x, y), 2);
      return vis', [], [], [], [];
    }
    var seed := px[y][x];
    var f;
    f, vis' := WireFloodRegion(w, h, vis, (x, y), SameAs(px, seed));
    WireFloodKeepsVis(px, w, h, bg, vis, vis', (x, y), x, y);
    WireUniform(px, w, h, vis, vis', f, (x, y));
    items, fs, ss, paths := WireEmit(px, alpha, w, h, bg, frame, minArea, eps, f, (x, y));
  }

  /** The tail of one seed: drop a small region, trace the rest and emit it as one item. */
  method WireEmit(px: seq<seq<Rgb>>, alpha: seq<seq<Byte>>, w: nat, h: nat, bg: Rgb, frame: nat, minArea: int, eps: real,
                  f: FloodResult, s: Cell)
    returns (items: seq<RawItem>, ghost fs: seq<FloodResult>, ghost ss: seq<Cell>, ghost paths: seq<seq<Cell>>)
    requires Uniform(px, w, h, f, s) && IsGrid(alpha, w, h) && alpha[s.1][s.0] != 0 && px[s.1][s.0] != bg
    ensures WireItems(px, alpha, w, h, bg, frame, minArea, eps, items, fs, ss, paths)
  {
    if f.pixelCount < minArea {
      return [], [], [], [];
    }
    var global, path := TraceFragment(f);
    if |global| == 0 {
      return [], [], [], [];
    }
    var simp := Simplified(global, eps);
    var it := RawItem(frame, simp, RgbToHex(px[s.1][s.0]), f.pixelCount);
    ItemOfTrace(px, alpha, w, h, bg, frame, minArea, eps, it, f, s, path);
    items, fs, ss, paths := [it], [f], [s], [path];
  }

  /** An item built from a traced, simplified boundary of a large enough uniform fragment. */
  lemma ItemOfTrace(px: seq<seq<Rgb>>, alpha: seq<seq<Byte>>, w: nat, h: nat, bg: Rgb, frame: nat, minArea: int, eps: real,
                    it: RawItem, f: FloodResult, s: Cell, path: seq<Cell>)
    requires Uniform(px, w, h, f, s) && IsGrid(alpha, w, h) && alpha[s.1][s.0] != 0 && px[s.1][s.0] != bg
    requires f.pixelCount >= minArea && |path| > 0 && BoundaryOf(f, path)
    requires it == RawItem(frame, it.points, RgbToHex(px[s.1][s.0]), f.pixelCount)
    requires eps > 0.0 ==> it.points == WireRdp(GlobalContour(f, path), eps)
    requires KeepsEnds(it.points, GlobalContour(f, path)) && (eps <= 0.0 ==> it.points == GlobalContour(f, path))
    ensures WireItems(px, alpha, w, h, bg, frame, minArea, eps, [it], [f], [s], [path])
  {
    assert WireItem(px, alpha, w, h, bg, frame, minArea, eps, it, f, s, path);
  }

  /** The boundary trace of a fragment's box-local mask, moved to the box corner. */
  method TraceFragment(f: FloodResult) returns (global: seq<Pt>, ghost path: seq<Cell>)
    requires IsGrid(f.mask, f.bw, f.bh) && 0 <= f.bw && 0 <= f.bh
    ensures global == GlobalContour(f, path)
    ensures |path| > 0 ==> BoundaryOf(f, path)
  {
    var contour;
    contour, path := TraceBoundary(Flatten(f.mask), f.bw, f.bh);
    if |path| > 0 {
      BoundaryFromTrace(f, path);
    }
    global := Translate(contour, Pt(f.minX as real, f.minY as real));
  }

  /** `eps > 0 ? rdp(global, eps) : global`, a subsequence keeping both ends. */
  method Simplified(global: seq<Pt>, eps: real) returns (simp: seq<Pt>)
    requires |global| > 0
    ensures eps > 0.0 ==> simp == WireRdp(global, eps)
    ensures KeepsEnds(simp, global) && (eps <= 0.0 ==> simp == global)
  {
    simp := global;
    if eps > 0.0 {
      simp := WireRdp(global, eps);
      var idx := WireRdpKeepsEnds(global, eps);
    } else {
      IdentitySubseq(global);
    }
  }

  lemma WireItemsAppend(px: seq<seq<Rgb>>, alpha: seq<seq<Byte>>, w: int, h: int, bg: Rgb, frame: nat, minArea: int, eps: real,
                        items: seq<RawItem>, fs: seq<FloodResult>, ss: seq<Cell>, paths: seq<seq<Cell>>,
                        items': seq<RawItem>, fs': seq<FloodResult>, ss': seq<Cell>, paths': seq<seq<Cell>>)
    requires WireItems(px, alpha, w, h, bg, frame, minArea, eps, items, fs, ss, paths)
    requires WireItems(px, alpha, w, h, bg, frame, minArea, eps, items', fs', ss', paths')
    ensures WireItems(px, alpha, w, h, bg, frame, minArea, eps, items + items', fs + fs', ss + ss', paths + paths')
  {
    var I, F, S, P := items + items', fs + fs', ss + ss', paths + paths';
    forall i | 0 <= i < |I|
      ensures WireItem(px, alpha, w, h, bg, frame, minArea, eps, I[i], F[i], S[i], P[i])
    {
      if i >= |items| {
        var j := i - |items|;
        assert I[i] == items'[j] && F[i] == fs'[j] && S[i] == ss'[j] && P[i] == paths'[j];
      } else {
        assert I[i] == items[i] && F[i] == fs[i] && S[i] == ss[i] && P[i] == paths[i];
      }
    }
  }

  /**
   * The scan of one frame of `processWireBatch`. An empty image gives no
   * item. Afterwards no pixel is free, every pixel with the background
   * RGB is 2, and each item satisfies WireItem.
   */
  method WireFrame(px: seq<seq<Rgb>>, alpha: seq<seq<Byte>>, w: nat, h: nat, frame: nat, minArea: int, eps: real)
    returns (items: seq<RawItem>, vis: seq<seq<int>>, ghost frags: seq<FloodResult>, ghost seeds: seq<Cell>, ghost paths: seq<seq<Cell>>)
    requires IsGrid(px, w, h) && IsGrid(alpha, w, h)
    ensures w == 0 || h == 0 ==> items == []
    ensures IsGrid(vis, w, h)
    ensures forall y, x :: 0 <= y < h && 0 <= x < w ==> vis[y][x] == 1 || vis[y][x] == 2
    ensures w > 0 && h > 0 ==> forall y, x :: 0 <= y < h && 0 <= x < w && px[y][x] == px[0][0] ==> vis[y][x] == 2
    ensures w > 0 && h > 0 ==> WireItems(px, alpha, w, h, px[0][0], frame, minArea, eps, items, frags, seeds, paths)
  {
    items, frags, seeds, paths := [], [], [], [];
    if w == 0 || h == 0 {
      return [], Fill(w, h, 0), [], [], [];
    }
    var bg := px[0][0];
    vis := Fill(w, h, 0);
    for y := 0 to h
      invariant IsGrid(vis, w, h) && WireVis(px, w, h, bg, vis) && ScannedTo(vis, w, h, 0, y)
      invariant WireItems(px, alpha, w, h, bg, frame, minArea, eps, items, frags, seeds, paths)
    {
      for x := 0 to w
        invariant IsGrid(vis, w, h) && WireVis(px, w, h, bg, vis) && ScannedTo(vis, w, h, x, y)
        invariant WireItems(px, alpha, w, h, bg, frame, minArea, eps, items, frags, seeds, paths)
      {
        if vis[y][x] != 0 {
          continue;
        }
        var its;
        ghost var fs, ss, ps;
        vis, its, fs, ss, ps := WireSeed(px, alpha, w, h, bg, frame, minArea, eps, vis, x, y);
        WireItemsAppend(px, alpha, w, h, bg, frame, minArea, eps, items, frags, seeds, paths, its, fs, ss, ps);
        items, frags, seeds, paths := items + its, frags + fs, seeds + ss, paths + ps;
      }
    }
  }

  // ---------------------------------------------------------------------
  // Export
  // ---------------------------------------------------------------------

  /** One exported item: the id `name;frame`, the frame, the outline and the colour key. */
  datatype ExportItem = ExportItem(id: string, frame: nat, points: seq<Pt>, color: string)

  /**
   * `raw[frame] = local` over the files in processing order: a later
   * file with the same frame number replaces the earlier file's items.
   */
  function Collect(results: seq<(nat, seq<RawItem>)>): (raw: map<nat, seq<RawItem>>)
    ensures forall f :: f in raw <==> exists i :: 0 <= i < |results| && results[i].0 == f
  {
    if |results| == 0 then map[] else
      var raw := Collect(results[..|results| - 1]);
      var last := results[|results| - 1];
      assert forall i :: 0 <= i < |results| - 1 ==> results[..|results| - 1][i] == results[i];
      raw[last.0 := last.1]
  }

  /** A frame maps to the items of the last file with that frame number. */
  lemma {:induction false} CollectLast(results: seq<(nat, seq<RawItem>)>, i: nat)
    requires i < |results|
    requires forall j :: i < j < |results| ==> results[j].0 != results[i].0
    ensures results[i].0 in Collect(results) && Collect(results)[results[i].0] == results[i].1
    decreases |results|
  {
    if i < |results| - 1 {
      var init := results[..|results| - 1];
      assert init[i] == results[i];
      forall j | i < j < |init|
        ensures init[j].0 != init[i].0
      {
        assert init[j] == results[j];
      }
      CollectLast(init, i);
    }
  }

  /** m is the least element of s. */
  predicate IsLeast(m: nat, s: set<nat>) {
    m in s && forall x :: x in s ==> m <= x
  }

  /** A non-empty finite set of naturals has a least element. */
  lemma HasMin(s: set<nat>)
    requires s != {}
    ensures exists m :: IsLeast(m, s)
  {
    var m := LeastOf(s);
  }

  lemma {:induction false} LeastOf(s: set<nat>) returns (m: nat)
    requires s != {}
    ensures IsLeast(m, s)
    decreases |s|
  {
    var x :| x in s;
    if s == {x} {
      m := x;
    } else {
      var rest := s - {x};
      assert rest != {} by {
        var y :| y in s && y != x;
        assert y in rest;
      }
      var m' := LeastOf(rest);
      m := if x < m' then x else m';
      LeastStep(s, x, m', m);
    }
  }

  /** Comparing the least of the rest with one more element gives the least of the whole. */
  lemma LeastStep(s: set<nat>, x: nat, m': nat, m: nat)
    requires x in s && IsLeast(m', s - {x}) && m == (if x < m' then x else m')
    ensures IsLeast(m, s)
  {
    forall y | y in s
      ensures m <= y
    {
      if y != x {
        assert y in s - {x};
      }
    }
  }

  /** The least element of a non-empty set of frame numbers. */
  function MinOf(s: set<nat>): (m: nat)
    requires s != {}
    ensures m in s && forall x :: x in s ==> m <= x
  {
    HasMin(s);
    var m :| IsLeast(m, s);
    m
  }

  /** The keys of `raw` in ascending numeric order, as `Object.keys(raw).map(parseInt).sort((a, b) => a - b)` gives them. */
  function SortedFrames(keys: set<nat>): (frames: seq<nat>)
    ensures forall f :: f in frames <==> f in keys
    ensures forall i, j :: 0 <= i < j < |frames| ==> frames[i] < frames[j]
    decreases keys
  {
    if keys == {} then [] else
      var m := MinOf(keys);
      var rest := SortedFrames(keys - {m});
      assert forall i :: 0 <= i < |rest| ==> rest[i] in keys - {m};
      [m] + rest
  }

  /** The export of one raw item, with id `(colorMap[color] || color) + ";" + frame`. */
  function ExportOne(it: RawItem, colorMap: map<string, string>): (e: ExportItem)
    ensures e.frame == it.frame && e.points == it.points && e.color == it.color
    ensures e.id == FrameId(Mapped(colorMap, it.color), it.frame)
  {
    ExportItem(FrameId(Mapped(colorMap, it.color), it.frame), it.frame, it.points, it.color)
  }

  function ExportAll(its: seq<RawItem>, colorMap: map<string, string>): (es: seq<ExportItem>)
    ensures |es| == |its| && forall j :: 0 <= j < |its| ==> es[j] == ExportOne(its[j], colorMap)
  {
    seq(|its|, j requires 0 <= j < |its| => ExportOne(its[j], colorMap))
  }

  /** The items of every listed frame, frame by frame, each frame's items in order. */
  function ExportItems(frames: seq<nat>, raw: map<nat, seq<RawItem>>, colorMap: map<string, string>): (out: seq<ExportItem>)
    requires forall i :: 0 <= i < |frames| ==> frames[i] in raw
  {
    if |frames| == 0 then [] else
      ExportItems(frames[..|frames| - 1], raw, colorMap) + ExportAll(raw[frames[|frames| - 1]], colorMap)
  }

  /** e is the export of item j of listed frame i, for some i and j. */
  ghost predicate ExportedFrom(e: ExportItem, frames: seq<nat>, raw: map<nat, seq<RawItem>>, colorMap: map<string, string>)
    requires forall i :: 0 <= i < |frames| ==> frames[i] in raw
  {
    exists i, j :: 0 <= i < |frames| && 0 <= j < |raw[frames[i]]| && e == ExportOne(raw[frames[i]][j], colorMap)
  }

  /** An item is exported exactly when it is the export of some item of some listed frame. */
  lemma {:induction false} ExportItemsMembers(frames: seq<nat>, raw: map<nat, seq<RawItem>>, colorMap: map<string, string>, e: ExportItem)
    requires forall i :: 0 <= i < |frames| ==> frames[i] in raw
    ensures e in ExportItems(frames, raw, colorMap) <==> ExportedFrom(e, frames, raw, colorMap)
    decreases |frames|
  {
    if |frames| > 0 {
      var init, last := frames[..|frames| - 1], frames[|frames| - 1];
      ExportItemsMembers(init, raw, colorMap, e);
      var tail := ExportAll(raw[last], colorMap);
      if e in tail {
        var j :| 0 <= j < |tail| && tail[j] == e;
        assert e == ExportOne(raw[frames[|frames| - 1]][j], colorMap);
      }
      if ExportedFrom(e, frames, raw, colorMap) {
        var i, j :| 0 <= i < |frames| && 0 <= j < |raw[frames[i]]| && e == ExportOne(raw[frames[i]][j], colorMap);
        if i < |frames| - 1 {
          assert frames[i] == init[i];
        } else {
          assert tail[j] == e;
        }
      }
    }
  }

  /** Every item of frame f records f. */
  ghost predicate FramesTagged(raw: map<nat, seq<RawItem>>) {
    forall f, j :: f in raw && 0 <= j < |raw[f]| ==> raw[f][j].frame == f
  }

  /** Items in non-decreasing frame order. */
  predicate FrameOrdered(out: seq<ExportItem>) {
    forall a, b :: 0 <= a < b < |out| ==> out[a].frame <= out[b].frame
  }

  /** With the frames ascending and every item tagged with its frame, the export is in non-decreasing frame order. */
  lemma {:induction false} ExportItemsOrdered(frames: seq<nat>, raw: map<nat, seq<RawItem>>, colorMap: map<string, string>)
    requires forall i :: 0 <= i < |frames| ==> frames[i] in raw
    requires forall i, j :: 0 <= i < j < |frames| ==> frames[i] < frames[j]
    requires FramesTagged(raw)
    ensures FrameOrdered(ExportItems(frames, raw, colorMap))
    ensures |frames| > 0 ==> forall a :: 0 <= a < |ExportItems(frames, raw, colorMap)| ==>
      ExportItems(frames, raw, colorMap)[a].frame <= frames[|frames| - 1]
    decreases |frames|
  {
    if |frames| > 0 {
      var init, last := frames[..|frames| - 1], frames[|frames| - 1];
      ExportItemsOrdered(init, raw, colorMap);
      var head, tail := ExportItems(init, raw, colorMap), ExportAll(raw[last], colorMap);
      var out := head + tail;
      assert out == ExportItems(frames, raw, colorMap);
      assert forall b :: 0 <= b < |tail| ==> tail[b].frame == last;
      assert |init| == 0 ==> head == [];
      assert |init| > 0 ==> init[|init| - 1] < last;
      forall a, b | 0 <= a < b < |out|
        ensures out[a].frame <= out[b].frame
      {
        if b < |head| {
          assert out[a] == head[a] && out[b] == head[b];
        } else if a < |head| {
          AppendRight(head, tail, b);
          assert out[a] == head[a];
          assert head[a].frame <= init[|init| - 1] < last;
          assert out[b].frame == last;
        } else {
          AppendRight(head, tail, a);
          AppendRight(head, tail, b);
          assert out[b].frame == last;
        }
      }
      forall a | 0 <= a < |out|
        ensures out[a].frame <= last
      {
        if a < |head| {
          assert out[a] == head[a];
        } else {
          AppendRight(head, tail, a);
        }
      }
    }
  }

  /**
   * The export of `processWireBatch`: the per-file results are collected
   * by frame (the last file wins), the frames are sorted ascending, and
   * the items are exported frame by frame.
   */
  method WireExport(results: seq<(nat, seq<RawItem>)>, colorMap: map<string, string>)
    returns (raw: map<nat, seq<RawItem>>, frames: seq<nat>, items: seq<ExportItem>)
    requires forall i, j :: 0 <= i < |results| && 0 <= j < |results[i].1| ==> results[i].1[j].frame == results[i].0
    ensures raw == Collect(results)
    ensures forall f :: f in frames <==> exists i :: 0 <= i < |results| && results[i].0 == f
    ensures forall i :: 0 <= i < |frames| ==> frames[i] in raw
    ensures forall i, j :: 0 <= i < j < |frames| ==> frames[i] < frames[j]
    ensures FrameOrdered(items)
    ensures forall e :: e in items <==> ExportedFrom(e, frames, raw, colorMap)
  {
    raw := Collect(results);
    frames := SortedFrames(raw.Keys);
    items := ExportItems(frames, raw, colorMap);
    CollectTagged(results);
    ExportItemsOrdered(frames, raw, colorMap);
    forall e
      ensures e in items <==> ExportedFrom(e, frames, raw, colorMap)
    {
      ExportItemsMembers(frames, raw, colorMap, e);
    }
  }

  lemma {:induction false} CollectTagged(results: seq<(nat, seq<RawItem>)>)
    requires forall i, j :: 0 <= i < |results| && 0 <= j < |results[i].1| ==> results[i].1[j].frame == results[i].0
    ensures FramesTagged(Collect(results))
    decreases |results|
  {
    if |results| > 0 {
      var init := results[..|results| - 1];
      forall i, j | 0 <= i < |init| && 0 <= j < |init[i].1|
        ensures init[i].1[j].frame == init[i].0
      {
        assert init[i] == results[i];
      }
      CollectTagged(init);
    }
  }
}
