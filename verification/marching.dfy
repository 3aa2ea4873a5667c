/**
 * `tracePolygonsMarchingSquares`, identical in the three studio files.
 *
 * The corner grid has one more row and column than the mask and is padded
 * with zeros on the top and the left only: corner (x, y) is the mask pixel
 * (x - 1, y - 1). A mask pixel in the last row or column therefore never
 * meets a zero corner below or to its right. Each cell's four corners give
 * a 4-bit code and, through a fixed table, zero, one or two segments
 * between edge midpoints. The segments are chained into loops by walking
 * an adjacency map keyed by the doubled midpoint coordinates, exactly the
 * source's `key`; a point here is that doubled pair, and `Half` gives the
 * source's coordinates.
 */
module Marching {
  import opened Wrappers
  import opened Geometry

  /** A half-pixel point with both coordinates doubled. */
  type DPt = (int, int)

  function Half(d: DPt): Pt {
    Pt(d.0 as real / 2.0, d.1 as real / 2.0)
  }

  function Halve(L: seq<DPt>): (P: seq<Pt>)
    ensures |P| == |L| && forall i :: 0 <= i < |L| ==> P[i] == Half(L[i])
  {
    seq(|L|, i requires 0 <= i < |L| => Half(L[i]))
  }

  datatype Seg = Seg(a: DPt, b: DPt)

  predicate IsMask(mask: seq<seq<int>>, bw: int, bh: int) {
    |mask| == bh && forall y :: 0 <= y < bh ==> |mask[y]| == bw
  }

  /** Corner (x, y) of the padded grid: 0 on the top row and left column, else whether mask pixel (x - 1, y - 1) is set. */
  function Corner(mask: seq<seq<int>>, bw: nat, bh: nat, x: int, y: int): (c: int)
    requires IsMask(mask, bw, bh) && 0 <= x <= bw && 0 <= y <= bh
    ensures c == 0 || c == 1
  {
    if 1 <= x && 1 <= y && mask[y - 1][x - 1] != 0 then 1 else 0
  }

  /** The case code `(tl << 3) | (tr << 2) | (br << 1) | bl` of cell (x, y). */
  function Code(mask: seq<seq<int>>, bw: nat, bh: nat, x: int, y: int): (code: int)
    requires IsMask(mask, bw, bh) && 0 <= x < bw && 0 <= y < bh
    ensures 0 <= code < 16
  {
    8 * Corner(mask, bw, bh, x, y) + 4 * Corner(mask, bw, bh, x + 1, y)
      + 2 * Corner(mask, bw, bh, x + 1, y + 1) + Corner(mask, bw, bh, x, y + 1)
  }

  /** The segments the lookup table emits for a cell, between its edge midpoints. */
  function CellSegs(code: int, x: int, y: int): seq<Seg> {
    var top, right, bottom, left := (2 * x + 1, 2 * y), (2 * x + 2, 2 * y + 1), (2 * x + 1, 2 * y + 2), (2 * x, 2 * y + 1);
    if code == 1 then [Seg(left, bottom)]
    else if code == 2 then [Seg(bottom, right)]
    else if code == 3 then [Seg(left, right)]
    else if code == 4 then [Seg(top, right)]
    else if code == 5 then [Seg(top, left), Seg(bottom, right)]
    else if code == 6 then [Seg(top, bottom)]
    else if code == 7 then [Seg(top, left)]
    else if code == 8 then [Seg(left, top)]
    else if code == 9 then [Seg(bottom, top)]
    else if code == 10 then [Seg(top, right), Seg(left, bottom)]
    else if code == 11 then [Seg(right, bottom)]
    else if code == 12 then [Seg(left, right)]
    else if code == 13 then [Seg(right, bottom)]
    else if code == 14 then [Seg(left, bottom)]
    else []
  }

  /** Codes 0 and 15 emit nothing, the saddles 5 and 10 two segments, every other code one. */
  lemma CellSegCount(code: int, x: int, y: int)
    requires 0 <= code < 16
    ensures |CellSegs(code, x, y)| == (if code == 0 || code == 15 then 0 else if code == 5 || code == 10 then 2 else 1)
  {
  }

  /**
   * The table entry for code 11 (top-left, bottom-right and bottom-left
   * set) is the one for code 13, a right-bottom segment, although the only
   * unset corner of that cell is the top-right one.
   */
  lemma Case11IsCase13(x: int, y: int)
    ensures CellSegs(11, x, y) == CellSegs(13, x, y) == [Seg((2 * x + 2, 2 * y + 1), (2 * x + 1, 2 * y + 2))]
  {
  }

  /** Point d is the midpoint of an edge of some cell of the bw x bh grid. */
  predicate IsMid(d: DPt, bw: int, bh: int) {
    0 <= d.0 <= 2 * bw && 0 <= d.1 <= 2 * bh && (d.0 + d.1) % 2 == 1
  }

  predicate GoodSeg(s: Seg, bw: int, bh: int) {
    IsMid(s.a, bw, bh) && IsMid(s.b, bw, bh) && s.a != s.b
  }

  lemma CellSegsGood(code: int, x: int, y: int, bw: int, bh: int)
    requires 0 <= x < bw && 0 <= y < bh
    ensures forall s :: s in CellSegs(code, x, y) ==> GoodSeg(s, bw, bh)
  {
  }

  /** The segments of cells 0 .. n - 1 of row y, in scan order. */
  function RowSegs(mask: seq<seq<int>>, bw: nat, bh: nat, y: int, n: nat): (segs: seq<Seg>)
    requires IsMask(mask, bw, bh) && 0 <= y < bh && n <= bw
    ensures forall s :: s in segs ==> GoodSeg(s, bw, bh)
  {
    if n == 0 then []
    else
      CellSegsGood(Code(mask, bw, bh, n - 1, y), n - 1, y, bw, bh);
      RowSegs(mask, bw, bh, y, n - 1) + CellSegs(Code(mask, bw, bh, n - 1, y), n - 1, y)
  }

  /** The segments of rows 0 .. m - 1, in scan order. */
  function Segments(mask: seq<seq<int>>, bw: nat, bh: nat, m: nat): (segs: seq<Seg>)
    requires IsMask(mask, bw, bh) && m <= bh
    ensures forall s :: s in segs ==> GoodSeg(s, bw, bh)
  {
    if m == 0 then [] else Segments(mask, bw, bh, m - 1) + RowSegs(mask, bw, bh, m - 1, bw)
  }

  // ---------------------------------------------------------------------
  // The adjacency map
  // ---------------------------------------------------------------------

  /** The map `adj` with its keys in insertion order, which is the order the chaining visits them. */
  datatype Adj = Adj(keys: seq<DPt>, nb: map<DPt, seq<DPt>>)

  predicate DistinctKeys(s: seq<DPt>) {
    forall i, j :: 0 <= i < j < |s| ==> s[i] != s[j]
  }

  /** Keys listed once each, neighbours are keys, and every key is an edge midpoint. */
  ghost predicate AdjValid(g: Adj, bw: int, bh: int) {
    DistinctKeys(g.keys)
    && (forall k :: k in g.nb <==> k in g.keys)
    && (forall k, v :: k in g.nb && v in g.nb[k] ==> v in g.nb)
    && (forall k :: k in g.nb ==> IsMid(k, bw, bh))
  }

  function AddKey(g: Adj, k: DPt): (g': Adj)
    ensures k in g'.nb
  {
    if k in g.nb then g else Adj(g.keys + [k], g.nb[k := []])
  }

  /** One segment a - b: both keys are created if missing, then b is appended to a's list and a to b's. */
  function AddSeg(g: Adj, s: Seg): (g': Adj)
    ensures g'.nb.Keys == g.nb.Keys + {s.a, s.b}
  {
    var g1 := AddKey(AddKey(g, s.a), s.b);
    var nb1 := g1.nb[s.a := g1.nb[s.a] + [s.b]];
    Adj(g1.keys, nb1[s.b := nb1[s.b] + [s.a]])
  }

  lemma AddKeyValid(g: Adj, k: DPt, bw: int, bh: int)
    requires AdjValid(g, bw, bh) && IsMid(k, bw, bh)
    ensures AdjValid(AddKey(g, k), bw, bh)
    ensures forall j :: j in g.nb ==> AddKey(g, k).nb[j] == g.nb[j]
  {
  }

  lemma AppendValid(g: Adj, a: DPt, b: DPt, bw: int, bh: int)
    requires AdjValid(g, bw, bh) && a in g.nb && b in g.nb
    ensures AdjValid(Adj(g.keys, g.nb[a := g.nb[a] + [b]]), bw, bh)
  {
    var nb := g.nb[a := g.nb[a] + [b]];
    forall k, v | k in nb && v in nb[k]
      ensures v in nb
    {
      if k == a && v !in g.nb[a] {
        assert v == b;
      }
    }
  }

  lemma AddSegValid(g: Adj, s: Seg, bw: int, bh: int)
    requires AdjValid(g, bw, bh) && GoodSeg(s, bw, bh)
    requires forall k :: k in g.nb ==> |g.nb[k]| > 0
    ensures AdjValid(AddSeg(g, s), bw, bh)
    ensures forall k :: k in AddSeg(g, s).nb ==> |AddSeg(g, s).nb[k]| > 0
  {
    var g0 := AddKey(g, s.a);
    AddKeyValid(g, s.a, bw, bh);
    var g1 := AddKey(g0, s.b);
    AddKeyValid(g0, s.b, bw, bh);
    var nb1 := g1.nb[s.a := g1.nb[s.a] + [s.b]];
    AppendValid(g1, s.a, s.b, bw, bh);
    AppendValid(Adj(g1.keys, nb1), s.b, s.a, bw, bh);
  }

  function BuildAdj(segs: seq<Seg>): Adj {
    if |segs| == 0 then Adj([], map[]) else AddSeg(BuildAdj(segs[..|segs| - 1]), segs[|segs| - 1])
  }

  /** The map built from good segments is valid, and every key has at least one neighbour. */
  lemma {:induction false} BuildAdjValid(segs: seq<Seg>, bw: int, bh: int)
    requires forall s :: s in segs ==> GoodSeg(s, bw, bh)
    ensures AdjValid(BuildAdj(segs), bw, bh)
    ensures forall k :: k in BuildAdj(segs).nb ==> |BuildAdj(segs).nb[k]| > 0
  {
    if |segs| > 0 {
      var init := segs[..|segs| - 1];
      BuildAdjValid(init, bw, bh);
      assert segs[|segs| - 1] in segs;
      AddSegValid(BuildAdj(init), segs[|segs| - 1], bw, bh);
    }
  }

  /** Key v is listed among the neighbours of key k. */
  predicate Linked(g: Adj, k: DPt, v: DPt) {
    k in g.nb && v in g.nb[k]
  }

  /** Points p and q are the two ends of one segment of segs, in either order. */
  predicate Joined(segs: seq<Seg>, p: DPt, q: DPt) {
    Seg(p, q) in segs || Seg(q, p) in segs
  }

  /** Adding segment a - b links exactly a to b and b to a, and keeps every other link. */
  lemma AddSegLinks(g: Adj, s: Seg)
    requires s.a != s.b
    ensures forall k, v :: Linked(AddSeg(g, s), k, v) <==> Linked(g, k, v) || (k == s.a && v == s.b) || (k == s.b && v == s.a)
  {
    AddSegShape(g, s);
  }

  /** In the map built from segments, k lists v exactly when k - v or v - k is a segment. */
  lemma {:induction false} BuildAdjLinks(segs: seq<Seg>)
    requires forall s :: s in segs ==> s.a != s.b
    ensures forall k, v :: Linked(BuildAdj(segs), k, v) <==> Joined(segs, k, v)
  {
    if |segs| > 0 {
      var init, s := segs[..|segs| - 1], segs[|segs| - 1];
      assert segs == init + [s];
      BuildAdjLinks(init);
      AddSegLinks(BuildAdj(init), s);
      forall k, v
        ensures Joined(segs, k, v) <==> Joined(init, k, v) || (k == s.a && v == s.b) || (k == s.b && v == s.a)
      {
      }
    }
  }

  // ---------------------------------------------------------------------
  // Chaining
  // ---------------------------------------------------------------------

  /**
   * The walk from the current key: at a key with one neighbour go there,
   * with two or more go to the first unless it is the key just left, in
   * which case go to the second; stop on returning to the start or reaching
   * a key already visited. Returns the keys pushed onto the loop, which are
   * also the keys added to the visited set.
   */
  function Walk(g: Adj, kStart: DPt, cur: DPt, prev: Option<DPt>, visited: set<DPt>): (ext: seq<DPt>)
    requires forall k, v :: k in g.nb && v in g.nb[k] ==> v in g.nb
    requires cur in g.nb && visited <= g.nb.Keys
    ensures forall k :: k in ext ==> k !in visited && k in g.nb
    ensures DistinctKeys(ext)
    ensures forall i :: 0 <= i < |ext| ==> ext[i] in g.nb[if i == 0 then cur else ext[i - 1]]
    decreases g.nb.Keys - visited
  {
    var nbrs := g.nb[cur];
    if |nbrs| == 0 then []
    else
      var next := if |nbrs| == 1 then nbrs[0] else if prev == Some(nbrs[0]) then nbrs[1] else nbrs[0];
      if next == kStart || next in visited then []
      else [next] + Walk(g, kStart, next, Some(cur), visited + {next})
  }

  function Elems(s: seq<DPt>): (e: set<DPt>)
    ensures forall k :: k in e <==> k in s
  {
    set k | k in s
  }

  function RevD(L: seq<DPt>): (R: seq<DPt>)
    ensures |R| == |L| && forall i :: 0 <= i < |L| ==> R[i] == L[|L| - 1 - i]
  {
    seq(|L|, i requires 0 <= i < |L| => L[|L| - 1 - i])
  }

  lemma RevDSameElements(L: seq<DPt>)
    ensures forall k :: k in RevD(L) <==> k in L
    ensures DistinctKeys(L) ==> DistinctKeys(RevD(L))
  {
    forall k | k in L ensures k in RevD(L) {
      var i :| 0 <= i < |L| && L[i] == k;
      assert RevD(L)[|L| - 1 - i] == k;
    }
  }

  /** A loop with negative signed area is reversed, so every returned loop has a non-negative one. */
  function Orient(L: seq<DPt>): (R: seq<DPt>)
    ensures SignedArea(Halve(R)) >= 0.0
    ensures R == L || (R == RevD(L) && SignedArea(Halve(L)) < 0.0)
  {
    if SignedArea(Halve(L)) < 0.0 then
      assert Halve(RevD(L)) == Reverse(Halve(L));
      SignedAreaReverse(Halve(L));
      RevD(L)
    else L
  }

  /** What the chaining guarantees of the loops it has returned so far. */
  ghost predicate GoodLoops(polys: seq<seq<DPt>>, visited: set<DPt>, bw: int, bh: int) {
    (forall i :: 0 <= i < |polys| ==> |polys[i]| >= 3 && SignedArea(Halve(polys[i])) >= 0.0 && DistinctKeys(polys[i]))
    && (forall i, k :: 0 <= i < |polys| && k in polys[i] ==> k in visited && IsMid(k, bw, bh))
    && (forall i, j, k :: 0 <= i < j < |polys| && k in polys[i] ==> k !in polys[j])
  }

  lemma GoodLoopsGrow(polys: seq<seq<DPt>>, visited: set<DPt>, visited': set<DPt>, bw: int, bh: int)
    requires GoodLoops(polys, visited, bw, bh) && visited <= visited'
    ensures GoodLoops(polys, visited', bw, bh)
  {
  }

  /** A new loop of fresh keys extends the good loops. */
  lemma GoodLoopsAdd(polys: seq<seq<DPt>>, visited: set<DPt>, visited': set<DPt>, o: seq<DPt>, bw: int, bh: int)
    requires GoodLoops(polys, visited, bw, bh) && visited <= visited'
    requires |o| >= 3 && SignedArea(Halve(o)) >= 0.0 && DistinctKeys(o)
    requires forall k :: k in o ==> k in visited' && k !in visited && IsMid(k, bw, bh)
    ensures GoodLoops(polys + [o], visited', bw, bh)
  {
    var P := polys + [o];
    forall i, j, k | 0 <= i < j < |P| && k in P[i]
      ensures k !in P[j]
    {
      if j == |polys| {
        assert k in polys[i];
      } else {
        assert P[i] == polys[i] && P[j] == polys[j];
      }
    }
  }

  /** The loop that starts at kStart: the start key and the walk from it, distinct and fresh. */
  lemma StartLoop(g: Adj, bw: int, bh: int, kStart: DPt, visited: set<DPt>, ext: seq<DPt>)
    requires AdjValid(g, bw, bh) && kStart in g.nb && kStart !in visited
    requires forall k :: k in ext ==> k !in visited + {kStart} && k in g.nb
    requires DistinctKeys(ext)
    ensures DistinctKeys([kStart] + ext)
    ensures forall k :: k in [kStart] + ext ==> k in visited + {kStart} + Elems(ext) && k !in visited && IsMid(k, bw, bh)
  {
  }

  /**
   * One key of the loop over the map: an unvisited key with neighbours
   * starts a walk, and the resulting loop is kept when it has three or
   * more points. Returns the new visited set and loop list.
   */
  function VisitKey(g: Adj, bw: int, bh: int, kStart: DPt, visited: set<DPt>, polys: seq<seq<DPt>>): (r: (set<DPt>, seq<seq<DPt>>))
    requires AdjValid(g, bw, bh) && kStart in g.nb && visited <= g.nb.Keys
    requires GoodLoops(polys, visited, bw, bh)
    ensures visited <= r.0 <= g.nb.Keys
    ensures GoodLoops(r.1, r.0, bw, bh)
  {
    if kStart in visited || |g.nb[kStart]| == 0 then (visited, polys)
    else
      var ext := Walk(g, kStart, kStart, None, visited + {kStart});
      var loop := [kStart] + ext;
      var visited' := visited + {kStart} + Elems(ext);
      StartLoop(g, bw, bh, kStart, visited, ext);
      if |loop| >= 3 then
        var o := Orient(loop);
        RevDSameElements(loop);
        GoodLoopsAdd(polys, visited, visited', o, bw, bh);
        (visited', polys + [o])
      else
        GoodLoopsGrow(polys, visited, visited', bw, bh);
        (visited', polys)
  }

  /** The loop over the keys from index i on, in insertion order. */
  function ChainFrom(g: Adj, bw: int, bh: int, i: nat, visited: set<DPt>, polys: seq<seq<DPt>>): (r: seq<seq<DPt>>)
    requires AdjValid(g, bw, bh) && i <= |g.keys| && visited <= g.nb.Keys
    requires GoodLoops(polys, visited, bw, bh)
    ensures GoodLoops(r, g.nb.Keys, bw, bh)
    decreases |g.keys| - i
  {
    if i == |g.keys| then
      GoodLoopsGrow(polys, visited, g.nb.Keys, bw, bh);
      polys
    else
      var v := VisitKey(g, bw, bh, g.keys[i], visited, polys);
      ChainFrom(g, bw, bh, i + 1, v.0, v.1)
  }

  /** Every link runs both ways. */
  ghost predicate Symmetric(g: Adj) {
    forall k, v :: Linked(g, k, v) ==> Linked(g, v, k)
  }

  /** Consecutive vertices of every loop are linked in g. */
  ghost predicate LinkedLoops(g: Adj, polys: seq<seq<DPt>>) {
    forall i, j :: 0 <= i < |polys| && 0 < j < |polys[i]| ==> Linked(g, polys[i][j - 1], polys[i][j])
  }

  /** A walk from kStart, possibly reversed, adds a loop whose consecutive vertices are linked. */
  lemma WalkLinked(g: Adj, kStart: DPt, ext: seq<DPt>, polys: seq<seq<DPt>>)
    requires Symmetric(g) && LinkedLoops(g, polys) && kStart in g.nb && forall k :: k in ext ==> k in g.nb
    requires |ext| > 0 ==> ext[0] in g.nb[kStart]
    requires forall i :: 0 < i < |ext| ==> ext[i] in g.nb[ext[i - 1]]
    ensures LinkedLoops(g, polys + [[kStart] + ext])
    ensures LinkedLoops(g, polys + [RevD([kStart] + ext)])
  {
    var loop := [kStart] + ext;
    forall j | 0 < j < |loop|
      ensures Linked(g, loop[j - 1], loop[j])
    {
      assert loop[j] == ext[j - 1] && loop[j - 1] == if j == 1 then kStart else ext[j - 2];
    }
    var R := RevD(loop);
    forall j | 0 < j < |R|
      ensures Linked(g, R[j - 1], R[j])
    {
      assert Linked(g, loop[|loop| - 1 - j], loop[|loop| - j]);
    }
    var P, Q := polys + [loop], polys + [R];
    forall i, j | 0 <= i < |P| && 0 < j < |P[i]|
      ensures Linked(g, P[i][j - 1], P[i][j])
    {
      if i < |polys| {
        assert P[i] == polys[i];
      }
    }
    forall i, j | 0 <= i < |Q| && 0 < j < |Q[i]|
      ensures Linked(g, Q[i][j - 1], Q[i][j])
    {
      if i < |polys| {
        assert Q[i] == polys[i];
      }
    }
  }

  /** Visiting one key keeps consecutive loop vertices linked. */
  lemma VisitKeyLinked(g: Adj, bw: int, bh: int, kStart: DPt, visited: set<DPt>, polys: seq<seq<DPt>>)
    requires AdjValid(g, bw, bh) && kStart in g.nb && visited <= g.nb.Keys
    requires GoodLoops(polys, visited, bw, bh)
    requires Symmetric(g) && LinkedLoops(g, polys)
    ensures LinkedLoops(g, VisitKey(g, bw, bh, kStart, visited, polys).1)
  {
    if kStart !in visited && |g.nb[kStart]| != 0 {
      var ext := Walk(g, kStart, kStart, None, visited + {kStart});
      forall i | 0 < i < |ext|
        ensures ext[i] in g.nb[ext[i - 1]]
      {
        assert ext[i] in g.nb[if i == 0 then kStart else ext[i - 1]];
      }
      WalkLinked(g, kStart, ext, polys);
      var loop := [kStart] + ext;
      var r := VisitKey(g, bw, bh, kStart, visited, polys).1;
      assert r == polys || r == polys + [Orient(loop)];
    }
  }

  /** The chaining keeps consecutive loop vertices linked. */
  lemma {:induction false} ChainFromLinked(g: Adj, bw: int, bh: int, i: nat, visited: set<DPt>, polys: seq<seq<DPt>>)
    requires AdjValid(g, bw, bh) && i <= |g.keys| && visited <= g.nb.Keys
    requires GoodLoops(polys, visited, bw, bh)
    requires Symmetric(g) && LinkedLoops(g, polys)
    ensures LinkedLoops(g, ChainFrom(g, bw, bh, i, visited, polys))
    decreases |g.keys| - i
  {
    if i < |g.keys| {
      VisitKeyLinked(g, bw, bh, g.keys[i], visited, polys);
      var v := VisitKey(g, bw, bh, g.keys[i], visited, polys);
      ChainFromLinked(g, bw, bh, i + 1, v.0, v.1);
    }
  }

  /** `tracePolygonsMarchingSquares` on a bw x bh mask, in doubled coordinates. */
  function TracePolygons(mask: seq<seq<int>>, bw: nat, bh: nat): (polys: seq<seq<DPt>>)
    requires IsMask(mask, bw, bh)
    ensures forall i :: 0 <= i < |polys| ==> |polys[i]| >= 3 && SignedArea(Halve(polys[i])) >= 0.0
    ensures forall i, k :: 0 <= i < |polys| && k in polys[i] ==> IsMid(k, bw, bh)
    ensures forall i :: 0 <= i < |polys| ==> DistinctKeys(polys[i])
    ensures forall i, j, k :: 0 <= i < j < |polys| && k in polys[i] ==> k !in polys[j]
    ensures forall i, k :: 0 <= i < |polys| && 0 < k < |polys[i]| ==> Joined(Segments(mask, bw, bh, bh), polys[i][k - 1], polys[i][k])
  {
    var segs := Segments(mask, bw, bh, bh);
    BuildAdjValid(segs, bw, bh);
    BuildAdjLinks(segs);
    ChainFromLinked(BuildAdj(segs), bw, bh, 0, {}, []);
    ChainFrom(BuildAdj(segs), bw, bh, 0, {}, [])
  }

  /** A 2 x 2 mask with every pixel set. */
  predicate Full2(m: seq<seq<int>>) {
    IsMask(m, 2, 2) && m[0][0] != 0 && m[0][1] != 0 && m[1][0] != 0 && m[1][1] != 0
  }

  const Full2Segs: seq<Seg> := [Seg((1, 2), (2, 1)), Seg((2, 1), (4, 1)), Seg((1, 2), (1, 4))]

  lemma Full2Code00(m: seq<seq<int>>) requires Full2(m) ensures Code(m, 2, 2, 0, 0) == 2 {}
  lemma Full2Code10(m: seq<seq<int>>) requires Full2(m) ensures Code(m, 2, 2, 1, 0) == 3 {}
  lemma Full2Code01(m: seq<seq<int>>) requires Full2(m) ensures Code(m, 2, 2, 0, 1) == 6 {}
  lemma Full2Code11(m: seq<seq<int>>) requires Full2(m) ensures Code(m, 2, 2, 1, 1) == 15 {}

  /** The three segments of a full 2 x 2 mask: cell (0, 0) has code 2, (1, 0) code 3, (0, 1) code 6 and (1, 1) code 15. */
  lemma {:induction false} Full2Segments(m: seq<seq<int>>)
    requires Full2(m)
    ensures Segments(m, 2, 2, 2) == Full2Segs
  {
    Full2Code00(m);
    Full2Code10(m);
    assert RowSegs(m, 2, 2, 0, 1) == [Seg((1, 2), (2, 1))];
    assert RowSegs(m, 2, 2, 0, 2) == [Seg((1, 2), (2, 1)), Seg((2, 1), (4, 1))];
    Full2Code01(m);
    Full2Code11(m);
    assert RowSegs(m, 2, 2, 1, 1) == [Seg((1, 2), (1, 4))];
    assert RowSegs(m, 2, 2, 1, 2) == [Seg((1, 2), (1, 4))];
    assert Segments(m, 2, 2, 1) == [Seg((1, 2), (2, 1)), Seg((2, 1), (4, 1))];
  }

  /** What one segment does to the map: new keys are listed in the order a, b, and each end gets the other appended. */
  lemma AddSegShape(g: Adj, s: Seg)
    requires s.a != s.b
    ensures AddSeg(g, s).keys == g.keys + (if s.a in g.nb then [] else [s.a]) + (if s.b in g.nb then [] else [s.b])
    ensures AddSeg(g, s).nb[s.a] == (if s.a in g.nb then g.nb[s.a] else []) + [s.b]
    ensures AddSeg(g, s).nb[s.b] == (if s.b in g.nb then g.nb[s.b] else []) + [s.a]
    ensures forall k :: k in g.nb && k != s.a && k != s.b ==> AddSeg(g, s).nb[k] == g.nb[k]
  {
  }

  predicate IsFull2Segs(segs: seq<Seg>) {
    |segs| == 3 && segs[0] == Seg((1, 2), (2, 1)) && segs[1] == Seg((2, 1), (4, 1)) && segs[2] == Seg((1, 2), (1, 4))
  }

  lemma {:induction false} Full2Adj1(segs: seq<Seg>)
    requires IsFull2Segs(segs)
    ensures BuildAdj(segs[..1]).keys == [(1, 2), (2, 1)]
    ensures BuildAdj(segs[..1]).nb.Keys == {(1, 2), (2, 1)}
    ensures BuildAdj(segs[..1]).nb[(1, 2)] == [(2, 1)] && BuildAdj(segs[..1]).nb[(2, 1)] == [(1, 2)]
  {
    assert segs[..1][..0] == [];
    AddSegShape(Adj([], map[]), segs[0]);
  }

  lemma {:induction false} Full2Adj2(segs: seq<Seg>)
    requires IsFull2Segs(segs)
    ensures BuildAdj(segs[..2]).keys == [(1, 2), (2, 1), (4, 1)]
    ensures BuildAdj(segs[..2]).nb.Keys == {(1, 2), (2, 1), (4, 1)}
    ensures BuildAdj(segs[..2]).nb[(1, 2)] == [(2, 1)] && BuildAdj(segs[..2]).nb[(2, 1)] == [(1, 2), (4, 1)]
    ensures BuildAdj(segs[..2]).nb[(4, 1)] == [(2, 1)]
  {
    Full2Adj1(segs);
    assert segs[..2][..1] == segs[..1];
    AddSegShape(BuildAdj(segs[..1]), segs[1]);
  }

  /** The map built from the three segments of a full 2 x 2 mask. */
  lemma {:induction false} Full2Adj(segs: seq<Seg>)
    requires IsFull2Segs(segs)
    ensures BuildAdj(segs).keys == [(1, 2), (2, 1), (4, 1), (1, 4)]
    ensures BuildAdj(segs).nb.Keys == {(1, 2), (2, 1), (4, 1), (1, 4)}
    ensures BuildAdj(segs).nb[(1, 2)] == [(2, 1), (1, 4)] && BuildAdj(segs).nb[(2, 1)] == [(1, 2), (4, 1)]
    ensures BuildAdj(segs).nb[(4, 1)] == [(2, 1)] && BuildAdj(segs).nb[(1, 4)] == [(1, 2)]
  {
    Full2Adj2(segs);
    assert segs[..3] == segs;
    AddSegShape(BuildAdj(segs[..2]), segs[2]);
  }

  lemma Full2Area()
    ensures SignedArea(Halve([(1, 2), (2, 1), (4, 1)])) == 0.25
  {
    var H := Halve([(1, 2), (2, 1), (4, 1)]);
    assert H == [Pt(0.5, 1.0), Pt(1.0, 0.5), Pt(2.0, 0.5)];
    assert H[1..][1..] == [Pt(2.0, 0.5)];
  }

  /** The adjacency map of a full 2 x 2 mask. */
  predicate Full2Map(g: Adj) {
    g.keys == [(1, 2), (2, 1), (4, 1), (1, 4)]
    && g.nb.Keys == {(1, 2), (2, 1), (4, 1), (1, 4)}
    && g.nb[(1, 2)] == [(2, 1), (1, 4)] && g.nb[(2, 1)] == [(1, 2), (4, 1)]
    && g.nb[(4, 1)] == [(2, 1)] && g.nb[(1, 4)] == [(1, 2)]
  }

  /** From (1, 2) the walk goes to (2, 1), then (4, 1), and stops at the visited (2, 1). */
  lemma {:induction false} Full2Walk(g: Adj)
    requires Full2Map(g)
    ensures Walk(g, (1, 2), (1, 2), None, {(1, 2)}) == [(2, 1), (4, 1)]
  {
    var v1, v2, v3 := {(1, 2)}, {(1, 2), (2, 1)}, {(1, 2), (2, 1), (4, 1)};
    assert v1 + {(2, 1)} == v2 && v2 + {(4, 1)} == v3;
    assert (2, 1) in v3;
    assert Walk(g, (1, 2), (4, 1), Some((2, 1)), v3) == [];
    assert Walk(g, (1, 2), (2, 1), Some((1, 2)), v2) == [(4, 1)] + Walk(g, (1, 2), (4, 1), Some((2, 1)), v3);
    assert Walk(g, (1, 2), (1, 2), None, v1) == [(2, 1)] + Walk(g, (1, 2), (2, 1), Some((1, 2)), v2);
  }

  /** From (1, 4) the only neighbour (1, 2) is visited, so the walk is empty. */
  lemma {:induction false} Full2WalkLast(g: Adj)
    requires Full2Map(g)
    ensures Walk(g, (1, 4), (1, 4), None, {(1, 2), (2, 1), (4, 1), (1, 4)}) == []
  {
  }

  /** Visiting (1, 2) first yields the open chain as the one loop. */
  lemma {:induction false} Full2Visit(g: Adj)
    requires Full2Map(g) && AdjValid(g, 2, 2)
    ensures VisitKey(g, 2, 2, (1, 2), {}, []) == ({(1, 2), (2, 1), (4, 1)}, [[(1, 2), (2, 1), (4, 1)]])
  {
    Full2Walk(g);
    Full2Area();
    var L := [(1, 2), (2, 1), (4, 1)];
    var none: set<DPt> := {};
    assert none + {(1, 2)} == {(1, 2)};
    assert Elems([(2, 1), (4, 1)]) == {(2, 1), (4, 1)};
    assert none + {(1, 2)} + Elems([(2, 1), (4, 1)]) == {(1, 2), (2, 1), (4, 1)};
    assert [(1, 2)] + [(2, 1), (4, 1)] == L;
    assert Orient(L) == L;
    var nopolys: seq<seq<DPt>> := [];
    assert nopolys + [L] == [L];
    assert (1, 2) !in none && |g.nb[(1, 2)]| != 0;
    assert Walk(g, (1, 2), (1, 2), None, none + {(1, 2)}) == [(2, 1), (4, 1)];
  }

  /** The remaining keys are all visited or lead only to a one-point loop. */
  lemma {:induction false} Full2Rest(g: Adj)
    requires Full2Map(g) && AdjValid(g, 2, 2)
    requires GoodLoops([[(1, 2), (2, 1), (4, 1)]], {(1, 2), (2, 1), (4, 1)}, 2, 2)
    ensures ChainFrom(g, 2, 2, 1, {(1, 2), (2, 1), (4, 1)}, [[(1, 2), (2, 1), (4, 1)]]) == [[(1, 2), (2, 1), (4, 1)]]
  {
    var V, P := {(1, 2), (2, 1), (4, 1)}, [[(1, 2), (2, 1), (4, 1)]];
    assert VisitKey(g, 2, 2, (2, 1), V, P) == (V, P);
    assert VisitKey(g, 2, 2, (4, 1), V, P) == (V, P);
    Full2WalkLast(g);
    assert V + {(1, 4)} == {(1, 2), (2, 1), (4, 1), (1, 4)};
    assert Elems([]) == {};
    assert V + {(1, 4)} + Elems([]) == V + {(1, 4)};
    assert VisitKey(g, 2, 2, (1, 4), V, P) == (V + {(1, 4)}, P);
    assert ChainFrom(g, 2, 2, 4, V + {(1, 4)}, P) == P;
    assert ChainFrom(g, 2, 2, 3, V, P) == P;
    assert ChainFrom(g, 2, 2, 2, V, P) == P;
  }

  /**
   * The top-and-left padding on a full 2 x 2 mask: no corner below or to
   * the right is zero, so the trace is the single open chain
   * (0.5, 1), (1, 0.5), (2, 0.5) rather than the outline of the square.
   */
  lemma {:induction false} FullTwoByTwo(m: seq<seq<int>>)
    requires Full2(m)
    ensures TracePolygons(m, 2, 2) == [[(1, 2), (2, 1), (4, 1)]]
  {
    Full2Segments(m);
    var segs := Segments(m, 2, 2, 2);
    assert IsFull2Segs(segs);
    Full2Adj(segs);
    var g := BuildAdj(segs);
    BuildAdjValid(segs, 2, 2);
    Full2Visit(g);
    var v := VisitKey(g, 2, 2, (1, 2), {}, []);
    Full2Rest(g);
  }
}
