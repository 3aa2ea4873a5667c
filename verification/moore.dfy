/**
 * The two pixel-boundary tracers: `traceBoundary` of the wire tool and
 * `mooreContours`. Both walk a flat 0/1 mask (`mask[y * w + x]`) from
 * pixel to pixel through the same eight-direction table and emit pixel
 * centres (x + 0.5, y + 0.5). A trace is modelled as the sequence of
 * pixels visited; `Centres` gives the emitted points.
 */
module Moore {
  import opened Wrappers
  import opened Geometry
  import opened Grid

  // ---------------------------------------------------------------------
  // The direction table and the mask
  // ---------------------------------------------------------------------

  /** Direction d of the table E, SE, S, SW, W, NW, N, NE (y grows downwards). */
  function DX(d: int): int {
    if d == 0 || d == 1 || d == 7 then 1 else if d == 3 || d == 4 || d == 5 then -1 else 0
  }

  function DY(d: int): int {
    if d == 1 || d == 2 || d == 3 then 1 else if d == 5 || d == 6 || d == 7 then -1 else 0
  }

  function Step(c: Cell, d: int): Cell {
    (c.0 + DX(d), c.1 + DY(d))
  }

  /** Each table step reaches an 8-neighbour, and the opposite direction comes back. */
  lemma StepAdj(c: Cell, d: int)
    requires 0 <= d < 8
    ensures Adj8(c, Step(c, d)) && Step(Step(c, d), (d + 4) % 8) == c
  {
  }

  /** The table lists every 8-neighbour. */
  lemma NeighbourIsStep(c: Cell, n: Cell) returns (d: int)
    requires Adj8(c, n)
    ensures 0 <= d < 8 && Step(c, d) == n
  {
    var dx, dy := n.0 - c.0, n.1 - c.1;
    d := if dx == 1 && dy == 0 then 0 else if dx == 1 && dy == 1 then 1 else if dx == 0 && dy == 1 then 2
      else if dx == -1 && dy == 1 then 3 else if dx == -1 && dy == 0 then 4 else if dx == -1 && dy == -1 then 5
      else if dx == 0 && dy == -1 then 6 else 7;
  }

  /** The emitted point of pixel c. */
  function Centre(c: Cell): Pt {
    Pt(c.0 as real + 0.5, c.1 as real + 0.5)
  }

  function Centres(path: seq<Cell>): (pts: seq<Pt>)
    ensures |pts| == |path| && forall i :: 0 <= i < |path| ==> pts[i] == Centre(path[i])
  {
    seq(|path|, i requires 0 <= i < |path| => Centre(path[i]))
  }

  /** Distinct pixels have distinct centres, so a trace can be read back from its points. */
  lemma CentreInjective(a: Cell, b: Cell)
    ensures Centre(a) == Centre(b) ==> a == b
  {
    if Centre(a) == Centre(b) {
      assert a.0 as real == b.0 as real && a.1 as real == b.1 as real;
    }
  }

  /**
   * Pixel c is inside the image, its index is inside the buffer, and the
   * mask holds exactly 1 there: the `isOn` test of the wire tracer and
   * the neighbour test of `mooreContours`.
   */
  predicate On(mask: seq<int>, w: int, h: int, c: Cell) {
    InBounds(c, w, h) && 0 <= Index(c, w) < |mask| && mask[Index(c, w)] == 1
  }

  /** The buffer index `y * w + x` of pixel c. */
  function Index(c: Cell, w: int): int {
    c.1 * w + c.0
  }

  /** Direction number j of the search starting at base. */
  function Dir(base: int, j: int): int {
    (base + j) % 8
  }

  /** The pixel j steps into the search from base is on. */
  predicate OnAt(mask: seq<int>, w: int, h: int, c: Cell, base: int, j: int) {
    On(mask, w, h, Step(c, Dir(base, j)))
  }

  /**
   * The first direction (base + j) % 8, for j from k on, leading to a pixel
   * that is on; the clockwise neighbour search of both tracers.
   */
  function Search(mask: seq<int>, w: int, h: int, c: Cell, base: int, k: nat): (r: Option<int>)
    requires 0 <= base < 8 && k <= 8
    ensures r.Some? ==> 0 <= r.value < 8 && On(mask, w, h, Step(c, r.value))
    ensures r.Some? ==> exists j :: k <= j < 8 && r.value == Dir(base, j) && forall i :: k <= i < j ==> !OnAt(mask, w, h, c, base, i)
    ensures r.None? ==> forall j :: k <= j < 8 ==> !OnAt(mask, w, h, c, base, j)
    decreases 8 - k
  {
    if k == 8 then None
    else if OnAt(mask, w, h, c, base, k) then Some(Dir(base, k))
    else Search(mask, w, h, c, base, k + 1)
  }

  /** A search over all eight directions fails only at a pixel with no neighbour on. */
  lemma {:induction false} SearchNone(mask: seq<int>, w: int, h: int, c: Cell, base: int)
    requires 0 <= base < 8 && Search(mask, w, h, c, base, 0).None?
    ensures forall n :: Adj8(c, n) ==> !On(mask, w, h, n)
  {
    forall n | Adj8(c, n)
      ensures !On(mask, w, h, n)
    {
      var d := NeighbourIsStep(c, n);
      var j := DirCovers(base, d);
      assert !OnAt(mask, w, h, c, base, j);
    }
  }

  /** Eight steps from any base reach every direction. */
  lemma DirCovers(base: int, d: int) returns (j: int)
    requires 0 <= base < 8 && 0 <= d < 8
    ensures 0 <= j < 8 && Dir(base, j) == d
  {
    j := if d >= base then d - base else d - base + 8;
  }

  // ---------------------------------------------------------------------
  // traceBoundary (wire tool)
  // ---------------------------------------------------------------------

  /** A pixel that is on with a 4-neighbour that is not. */
  predicate Border4(mask: seq<int>, w: int, h: int, x: int, y: int) {
    On(mask, w, h, (x, y))
    && (!On(mask, w, h, (x - 1, y)) || !On(mask, w, h, (x + 1, y)) || !On(mask, w, h, (x, y - 1)) || !On(mask, w, h, (x, y + 1)))
  }

  /** Pixel a comes before pixel b in raster order. */
  predicate Before(a: Cell, b: Cell) {
    a.1 < b.1 || (a.1 == b.1 && a.0 < b.0)
  }

  /** The raster scan for the first 4-border pixel. */
  method FindStart4(mask: seq<int>, w: int, h: int) returns (found: bool, s: Cell)
    ensures found ==> InBounds(s, w, h) && Border4(mask, w, h, s.0, s.1)
    ensures found ==> forall y, x :: 0 <= y < h && 0 <= x < w && Before((x, y), s) ==> !Border4(mask, w, h, x, y)
    ensures !found ==> forall y, x :: 0 <= y < h && 0 <= x < w ==> !Border4(mask, w, h, x, y)
  {
    var y := 0;
    while y < h
      invariant 0 <= y && (h >= 0 ==> y <= h)
      invariant forall y', x :: 0 <= y' < y && 0 <= x < w ==> !Border4(mask, w, h, x, y')
    {
      var x := 0;
      while x < w
        invariant 0 <= x && (w >= 0 ==> x <= w)
        invariant forall x' :: 0 <= x' < x ==> !Border4(mask, w, h, x', y)
      {
        if Border4(mask, w, h, x, y) {
          return true, (x, y);
        }
        x := x + 1;
      }
      y := y + 1;
    }
    return false, (-1, -1);
  }

  /** The wire tracer's move limit `w * h * 8`. */
  function Limit(w: int, h: int): int {
    w * h * 8
  }

  /**
   * `traceBoundary`: from the first 4-border pixel in raster order, step to
   * the first neighbour that is on, searching clockwise from two
   * directions after the one last taken, until the trace returns to the
   * start with more than three points, finds no neighbour, or exceeds
   * `w * h * 8` moves. Returns the points and the pixels they are the
   * centres of.
   */
  method TraceBoundary(mask: seq<int>, w: int, h: int) returns (contour: seq<Pt>, path: seq<Cell>)
    ensures contour == Centres(path)
    ensures |path| == 0 <==> forall y, x :: 0 <= y < h && 0 <= x < w ==> !Border4(mask, w, h, x, y)
    ensures |path| > 0 ==> Border4(mask, w, h, path[0].0, path[0].1)
    ensures |path| > 0 ==> forall y, x :: 0 <= y < h && 0 <= x < w && Before((x, y), path[0]) ==> !Border4(mask, w, h, x, y)
    ensures forall i :: 0 <= i < |path| ==> On(mask, w, h, path[i])
    ensures forall i :: 0 < i < |path| ==> Adj8(path[i - 1], path[i])
    ensures |path| > 0 ==> |path| <= Limit(w, h) + 2
    ensures |path| == 1 ==> forall n :: Adj8(path[0], n) ==> !On(mask, w, h, n)
    ensures |path| > 1 ==> (|path| > 3 && path[|path| - 1] == path[0]) || |path| == Limit(w, h) + 2
  {
    var found, s := FindStart4(mask, w, h);
    if !found {
      return [], [];
    }
    LimitNonNegative(w, h);
    path := TraceFrom(mask, w, h, s);
    contour := Centres(path);
  }

  lemma LimitNonNegative(w: int, h: int)
    requires 0 < w && 0 < h
    ensures 0 <= Limit(w, h)
  {
    assert w * h >= 1;
  }

  /** The wire tracer's walk from the start pixel s. */
  method TraceFrom(mask: seq<int>, w: int, h: int, s: Cell) returns (path: seq<Cell>)
    requires On(mask, w, h, s) && 0 <= Limit(w, h)
    ensures 1 <= |path| <= Limit(w, h) + 2 && path[0] == s
    ensures forall i :: 0 <= i < |path| ==> On(mask, w, h, path[i])
    ensures forall i :: 0 < i < |path| ==> Adj8(path[i - 1], path[i])
    ensures |path| == 1 ==> forall n :: Adj8(s, n) ==> !On(mask, w, h, n)
    ensures |path| > 1 ==> (|path| > 3 && path[|path| - 1] == s) || |path| == Limit(w, h) + 2
  {
    var c, prevDir, steps := s, 4, 0;
    path := [s];
    while true
      invariant 0 <= prevDir < 8 && 0 <= steps <= Limit(w, h) && |path| == steps + 1
      invariant path[0] == s && path[|path| - 1] == c
      invariant forall i :: 0 <= i < |path| ==> On(mask, w, h, path[i])
      invariant forall i :: 0 < i < |path| ==> Adj8(path[i - 1], path[i])
      invariant |path| > 1 ==> Adj8(c, path[|path| - 2])
      decreases Limit(w, h) - steps
    {
      var d := Search(mask, w, h, c, (prevDir + 6) % 8, 0);
      if d.None? {
        SearchNone(mask, w, h, c, (prevDir + 6) % 8);
        break;
      }
      StepAdj(c, d.value);
      c := Step(c, d.value);
      path := path + [c];
      prevDir, steps := d.value, steps + 1;
      if steps > Limit(w, h) || (c == s && |path| > 3) {
        break;
      }
    }
  }

  // ---------------------------------------------------------------------
  // mooreContours
  // ---------------------------------------------------------------------

  /** Once the buffer length is w * h, every in-bounds index is inside it. */
  lemma IndexInRange(c: Cell, w: int, h: int)
    requires InBounds(c, w, h)
    ensures 0 <= Index(c, w) < w * h
  {
    assert c.1 * w <= (h - 1) * w by {
      assert (h - 1 - c.1) * w >= 0;
    }
  }

  /** Pixel c is outside the image or holds 0. */
  predicate Off(mask: seq<int>, w: int, h: int, c: Cell) {
    !InBounds(c, w, h) || (0 <= Index(c, w) < |mask| && mask[Index(c, w)] == 0)
  }

  /** `isBorder`: a nonzero pixel with an 8-neighbour that is off. */
  predicate Border8(mask: seq<int>, w: int, h: int, x: int, y: int) {
    InBounds((x, y), w, h) && 0 <= Index((x, y), w) < |mask| && mask[Index((x, y), w)] != 0
    && exists d :: 0 <= d < 8 && Off(mask, w, h, Step((x, y), d))
  }

  /**
   * The trace guard: with an integer counter, `guard > Math.max(1000,
   * W * H / 10)` holds exactly when guard exceeds the floor computed here.
   */
  function MaxGuard(w: int, h: int): int {
    if w * h / 10 > 1000 then w * h / 10 else 1000
  }

  /** What every trace of `mooreContours` looks like. */
  predicate TraceShape(mask: seq<int>, w: int, h: int, t: seq<Cell>) {
    1 <= |t| <= MaxGuard(w, h) + 1 && Border8(mask, w, h, t[0].0, t[0].1) && Walks(mask, w, h, t)
  }

  /** Pixel c belongs to one of the traces. */
  predicate Traced(traces: seq<seq<Cell>>, c: Cell) {
    exists i :: 0 <= i < |traces| && c in traces[i]
  }

  lemma TracedAppend(traces: seq<seq<Cell>>, t: seq<Cell>, c: Cell)
    ensures Traced(traces + [t], c) <==> Traced(traces, c) || c in t
  {
    if c in t {
      assert (traces + [t])[|traces|] == t;
    }
    if Traced(traces, c) {
      var i :| 0 <= i < |traces| && c in traces[i];
      assert (traces + [t])[i] == traces[i];
    }
  }

  /** The traces of three or more points, as point lists, in order. */
  function Kept(traces: seq<seq<Cell>>): (r: seq<seq<Pt>>)
    ensures forall p :: p in r ==> |p| >= 3 && exists t :: t in traces && p == Centres(t)
    ensures forall t :: t in traces && |t| >= 3 ==> Centres(t) in r
  {
    if |traces| == 0 then []
    else
      var last := traces[|traces| - 1];
      assert traces == traces[..|traces| - 1] + [last];
      Kept(traces[..|traces| - 1]) + (if |last| >= 3 then [Centres(last)] else [])
  }

  /** Every pixel after the first is exactly 1 and touches the one before it. */
  predicate Walks(mask: seq<int>, w: int, h: int, path: seq<Cell>) {
    forall i :: 0 < i < |path| ==> On(mask, w, h, path[i]) && Adj8(path[i - 1], path[i])
  }

  lemma WalksAppend(mask: seq<int>, w: int, h: int, path: seq<Cell>, c: Cell)
    requires Walks(mask, w, h, path) && (|path| > 0 ==> On(mask, w, h, c) && Adj8(path[|path| - 1], c))
    ensures Walks(mask, w, h, path + [c])
  {
  }

  /** visited' is visited with exactly the pixels of path set to 1. */
  predicate MarkedBy(visited': seq<seq<int>>, visited: seq<seq<int>>, path: seq<Cell>, w: int, h: int) {
    IsGrid(visited', w, h) && IsGrid(visited, w, h)
    && forall y, x :: 0 <= y < h && 0 <= x < w ==> visited'[y][x] == (if (x, y) in path then 1 else visited[y][x])
  }

  lemma MarkStep(visited': seq<seq<int>>, visited: seq<seq<int>>, path: seq<Cell>, c: Cell, w: int, h: int)
    requires MarkedBy(visited', visited, path, w, h) && InBounds(c, w, h)
    ensures MarkedBy(Set(visited', c, 1), visited, path + [c], w, h)
  {
    var v := Set(visited', c, 1);
    forall y, x | 0 <= y < h && 0 <= x < w
      ensures v[y][x] == (if (x, y) in path + [c] then 1 else visited[y][x])
    {
      assert (x, y) in path + [c] <==> (x, y) in path || (x, y) == c;
    }
  }

  /**
   * One trace of `mooreContours` from border pixel s: push the pixel and
   * mark it visited, move to the first neighbour that is exactly 1
   * searching clockwise from one past the back direction, and stop when
   * the guard is exceeded, no neighbour is found, or the walk is back at
   * s after more than three points.
   */
  method TraceContour(mask: seq<int>, w: int, h: int, s: Cell, visited: seq<seq<int>>)
    returns (path: seq<Cell>, visited': seq<seq<int>>)
    requires IsGrid(visited, w, h) && InBounds(s, w, h)
    ensures 1 <= |path| <= MaxGuard(w, h) + 1 && path[0] == s
    ensures Walks(mask, w, h, path)
    ensures MarkedBy(visited', visited, path, w, h)
    ensures |path| == MaxGuard(w, h) + 1
      || (forall n :: Adj8(path[|path| - 1], n) ==> !On(mask, w, h, n))
      || (|path| > 3 && Adj8(path[|path| - 1], s))
  {
    var c, prevDir, guard := s, 6, 0;
    path, visited' := [], visited;
    while true
      invariant 0 <= prevDir < 8 && |path| == guard <= MaxGuard(w, h) + 1
      invariant InBounds(c, w, h) && (|path| == 0 ==> c == s) && (|path| > 0 ==> path[0] == s)
      invariant |path| > 0 ==> Adj8(path[|path| - 1], c) && On(mask, w, h, c)
      invariant Walks(mask, w, h, path)
      invariant MarkedBy(visited', visited, path, w, h)
      decreases MaxGuard(w, h) + 1 - guard
    {
      if guard > MaxGuard(w, h) {
        break;
      }
      MarkStep(visited', visited, path, c, w, h);
      WalksAppend(mask, w, h, path, c);
      path, visited' := path + [c], Set(visited', c, 1);
      var d := Search(mask, w, h, c, (prevDir + 1) % 8, 0);
      if d.None? {
        SearchNone(mask, w, h, c, (prevDir + 1) % 8);
        break;
      }
      StepAdj(c, d.value);
      prevDir, c := (d.value + 6) % 8, Step(c, d.value);
      guard := guard + 1;
      if c == s && |path| > 3 {
        break;
      }
    }
  }

  /** visited marks exactly the traced pixels. */
  ghost predicate VisitedIsTraced(visited: seq<seq<int>>, traces: seq<seq<Cell>>, w: int, h: int) {
    IsGrid(visited, w, h)
    && forall y, x :: 0 <= y < h && 0 <= x < w ==> (visited[y][x] != 0 <==> Traced(traces, (x, y)))
  }

  /** Every trace has the trace shape and started before pos. */
  ghost predicate TracesBefore(mask: seq<int>, w: int, h: int, traces: seq<seq<Cell>>, pos: Cell) {
    forall i :: 0 <= i < |traces| ==> TraceShape(mask, w, h, traces[i]) && Before(traces[i][0], pos)
  }

  /** Traces start in raster order, each at a pixel no earlier trace reached. */
  ghost predicate FreshStarts(traces: seq<seq<Cell>>) {
    forall i, j :: 0 <= i < j < |traces| ==>
      |traces[i]| > 0 && |traces[j]| > 0 && Before(traces[i][0], traces[j][0]) && traces[j][0] !in traces[i]
  }

  /** Every border pixel before pos is traced. */
  ghost predicate CoveredBefore(mask: seq<int>, w: int, h: int, traces: seq<seq<Cell>>, pos: Cell) {
    forall y, x :: 0 <= y < h && 0 <= x < w && Before((x, y), pos) && Border8(mask, w, h, x, y) ==> Traced(traces, (x, y))
  }

  /** The raster scan of `mooreContours` has reached pos. */
  ghost predicate ScanInv(mask: seq<int>, w: int, h: int, visited: seq<seq<int>>, traces: seq<seq<Cell>>,
                          contours: seq<seq<Pt>>, pos: Cell) {
    VisitedIsTraced(visited, traces, w, h) && TracesBefore(mask, w, h, traces, pos) && FreshStarts(traces)
    && CoveredBefore(mask, w, h, traces, pos) && contours == Kept(traces)
  }

  lemma ScanStart(mask: seq<int>, w: nat, h: nat)
    ensures ScanInv(mask, w, h, Fill(w, h, 0), [], [], (0, 0))
  {
  }

  /** Moving the scan point one pixel on keeps the traces before it. */
  lemma TracesBeforeStep(mask: seq<int>, w: int, h: int, traces: seq<seq<Cell>>, x: int, y: int)
    requires TracesBefore(mask, w, h, traces, (x, y))
    ensures TracesBefore(mask, w, h, traces, (x + 1, y))
  {
  }

  /** A visited or non-border pixel is passed over. */
  lemma ScanSkip(mask: seq<int>, w: int, h: int, visited: seq<seq<int>>, traces: seq<seq<Cell>>,
                 contours: seq<seq<Pt>>, x: int, y: int)
    requires ScanInv(mask, w, h, visited, traces, contours, (x, y)) && 0 <= x < w && 0 <= y < h
    requires visited[y][x] != 0 || !Border8(mask, w, h, x, y)
    ensures ScanInv(mask, w, h, visited, traces, contours, (x + 1, y))
  {
    TracesBeforeStep(mask, w, h, traces, x, y);
    SkipCovered(mask, w, h, visited, traces, x, y);
  }

  lemma SkipCovered(mask: seq<int>, w: int, h: int, visited: seq<seq<int>>, traces: seq<seq<Cell>>, x: int, y: int)
    requires VisitedIsTraced(visited, traces, w, h) && CoveredBefore(mask, w, h, traces, (x, y)) && 0 <= x < w && 0 <= y < h
    requires visited[y][x] != 0 || !Border8(mask, w, h, x, y)
    ensures CoveredBefore(mask, w, h, traces, (x + 1, y))
  {
    forall y', x' | 0 <= y' < h && 0 <= x' < w && Before((x', y'), (x + 1, y)) && Border8(mask, w, h, x', y')
      ensures Traced(traces, (x', y'))
    {
      if (x', y') != (x, y) {
        assert Before((x', y'), (x, y));
      }
    }
  }

  lemma TraceVisited(visited: seq<seq<int>>, traces: seq<seq<Cell>>, w: int, h: int, path: seq<Cell>, visited': seq<seq<int>>)
    requires VisitedIsTraced(visited, traces, w, h) && MarkedBy(visited', visited, path, w, h)
    ensures VisitedIsTraced(visited', traces + [path], w, h)
  {
    forall y', x' | 0 <= y' < h && 0 <= x' < w
      ensures visited'[y'][x'] != 0 <==> Traced(traces + [path], (x', y'))
    {
      TracedAppend(traces, path, (x', y'));
    }
  }

  lemma TraceFresh(traces: seq<seq<Cell>>, path: seq<Cell>, pos: Cell)
    requires FreshStarts(traces) && |path| > 0 && path[0] == pos && !Traced(traces, pos)
    requires forall i :: 0 <= i < |traces| ==> |traces[i]| > 0 && Before(traces[i][0], pos)
    ensures FreshStarts(traces + [path])
  {
    var T := traces + [path];
    forall i, j | 0 <= i < j < |T|
      ensures |T[i]| > 0 && |T[j]| > 0 && Before(T[i][0], T[j][0]) && T[j][0] !in T[i]
    {
      assert T[i] == traces[i];
      if j < |traces| {
        assert T[j] == traces[j];
      }
    }
  }

  lemma KeptAppend(traces: seq<seq<Cell>>, path: seq<Cell>)
    ensures Kept(traces + [path]) == Kept(traces) + (if |path| >= 3 then [Centres(path)] else [])
  {
    assert (traces + [path])[..|traces|] == traces;
  }

  /** An unvisited border pixel starts a new trace, which is kept when it has three or more points. */
  lemma ScanTrace(mask: seq<int>, w: int, h: int, visited: seq<seq<int>>, traces: seq<seq<Cell>>,
                  contours: seq<seq<Pt>>, x: int, y: int, path: seq<Cell>, visited': seq<seq<int>>)
    requires ScanInv(mask, w, h, visited, traces, contours, (x, y)) && 0 <= x < w && 0 <= y < h
    requires visited[y][x] == 0 && Border8(mask, w, h, x, y)
    requires TraceShape(mask, w, h, path) && path[0] == (x, y)
    requires MarkedBy(visited', visited, path, w, h)
    ensures ScanInv(mask, w, h, visited', traces + [path],
                    contours + (if |path| >= 3 then [Centres(path)] else []), (x + 1, y))
  {
    TraceVisited(visited, traces, w, h, path, visited');
    TraceFresh(traces, path, (x, y));
    KeptAppend(traces, path);
    TracesBeforeAdd(mask, w, h, traces, path, x, y);
    CoveredAdd(mask, w, h, traces, path, x, y);
  }

  lemma TracesBeforeAdd(mask: seq<int>, w: int, h: int, traces: seq<seq<Cell>>, path: seq<Cell>, x: int, y: int)
    requires TracesBefore(mask, w, h, traces, (x, y)) && TraceShape(mask, w, h, path) && path[0] == (x, y)
    ensures TracesBefore(mask, w, h, traces + [path], (x + 1, y))
  {
    var T := traces + [path];
    forall i | 0 <= i < |T|
      ensures TraceShape(mask, w, h, T[i]) && Before(T[i][0], (x + 1, y))
    {
      if i < |traces| {
        assert T[i] == traces[i];
      }
    }
  }

  lemma CoveredAdd(mask: seq<int>, w: int, h: int, traces: seq<seq<Cell>>, path: seq<Cell>, x: int, y: int)
    requires CoveredBefore(mask, w, h, traces, (x, y)) && |path| > 0 && path[0] == (x, y)
    ensures CoveredBefore(mask, w, h, traces + [path], (x + 1, y))
  {
    forall y', x' | 0 <= y' < h && 0 <= x' < w && Before((x', y'), (x + 1, y)) && Border8(mask, w, h, x', y')
      ensures Traced(traces + [path], (x', y'))
    {
      TracedAppend(traces, path, (x', y'));
      if (x', y') != (x, y) {
        assert Before((x', y'), (x, y));
      }
    }
  }

  /** The end of a row is the start of the next. */
  lemma ScanRow(mask: seq<int>, w: int, h: int, visited: seq<seq<int>>, traces: seq<seq<Cell>>,
                contours: seq<seq<Pt>>, y: int)
    requires ScanInv(mask, w, h, visited, traces, contours, (w, y))
    ensures ScanInv(mask, w, h, visited, traces, contours, (0, y + 1))
  {
    assert TracesBefore(mask, w, h, traces, (0, y + 1)) by {
      forall i | 0 <= i < |traces|
        ensures TraceShape(mask, w, h, traces[i]) && Before(traces[i][0], (0, y + 1))
      {
        assert Before(traces[i][0], (w, y));
        assert 0 <= traces[i][0].0 by {
          assert Border8(mask, w, h, traces[i][0].0, traces[i][0].1);
        }
      }
    }
    assert CoveredBefore(mask, w, h, traces, (0, y + 1)) by {
      forall y', x' | 0 <= y' < h && 0 <= x' < w && Before((x', y'), (0, y + 1)) && Border8(mask, w, h, x', y')
        ensures Traced(traces, (x', y'))
      {
        assert Before((x', y'), (w, y));
      }
    }
  }

  /**
   * `mooreContours`: invalid dimensions or a mask whose length is not
   * W * H give no contours. Otherwise the mask is scanned in raster order
   * and every unvisited border pixel starts a trace; the traces of three
   * or more points are returned as point lists. Returns also, as a ghost,
   * every trace made, kept or not.
   */
  method MooreContours(mask: seq<int>, w: int, h: int) returns (contours: seq<seq<Pt>>, ghost traces: seq<seq<Cell>>)
    ensures w <= 0 || h <= 0 || |mask| != w * h ==> contours == []
    ensures w <= 0 || h <= 0 || |mask| != w * h ==> traces == []
    ensures forall p :: p in contours ==> |p| >= 3
    ensures contours == Kept(traces)
    ensures forall i :: 0 <= i < |traces| ==> TraceShape(mask, w, h, traces[i])
    ensures FreshStarts(traces)
    ensures |mask| == w * h ==> forall y, x :: 0 <= y < h && 0 <= x < w && Border8(mask, w, h, x, y) ==> Traced(traces, (x, y))
  {
    if w <= 0 || h <= 0 || |mask| != w * h {
      return [], [];
    }
    var visited := Fill(w, h, 0);
    contours, traces := [], [];
    ScanStart(mask, w, h);
    for y := 0 to h
      invariant ScanInv(mask, w, h, visited, traces, contours, (0, y))
    {
      for x := 0 to w
        invariant ScanInv(mask, w, h, visited, traces, contours, (x, y))
      {
        if visited[y][x] != 0 || !Border8(mask, w, h, x, y) {
          ScanSkip(mask, w, h, visited, traces, contours, x, y);
          continue;
        }
        var path, visited' := TraceContour(mask, w, h, (x, y), visited);
        ScanTrace(mask, w, h, visited, traces, contours, x, y, path, visited');
        if |path| >= 3 {
          contours := contours + [Centres(path)];
        }
        traces, visited := traces + [path], visited';
      }
      ScanRow(mask, w, h, visited, traces, contours, y);
    }
  }
}
