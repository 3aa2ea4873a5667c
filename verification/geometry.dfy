/**
 * Plane geometry over real coordinates: edge sums over closed polygons (the
 * shoelace area and the centroid moments), bounding boxes, the three area
 * and two centroid functions of the pipeline, and the point-to-segment
 * projection.
 */
module Geometry {

  datatype Pt = Pt(x: real, y: real)

  function Abs(v: real): real {
    if v < 0.0 then -v else v
  }

  function Add(p: Pt, d: Pt): Pt {
    Pt(p.x + d.x, p.y + d.y)
  }

  /** The shoelace term `a.x * b.y - b.x * a.y` of the edge a -> b. */
  function Cross(a: Pt, b: Pt): real {
    a.x * b.y - b.x * a.y
  }

  /** The centroid moment terms of the edge a -> b. */
  function MomentX(a: Pt, b: Pt): real {
    (a.x + b.x) * Cross(a, b)
  }

  function MomentY(a: Pt, b: Pt): real {
    (a.y + b.y) * Cross(a, b)
  }

  // ---------------------------------------------------------------------
  // Edge sums
  // ---------------------------------------------------------------------

  /** Sum of `f` over the open chain P[0] -> P[1] -> ... -> P[n-1]. */
  function ChainSum(P: seq<Pt>, f: (Pt, Pt) -> real): real
    decreases |P|
  {
    if |P| < 2 then 0.0 else f(P[0], P[1]) + ChainSum(P[1..], f)
  }

  /** Sum of `f` over the closed polygon: the chain plus the edge back to P[0]. */
  function ClosedSum(P: seq<Pt>, f: (Pt, Pt) -> real): real {
    if |P| == 0 then 0.0 else ChainSum(P, f) + f(P[|P| - 1], P[0])
  }

  /** `(k + 1) % n`, the cyclic successor of an index. */
  function NextIndex(k: nat, n: nat): (j: nat)
    requires k < n
    ensures j == if k + 1 == n then 0 else k + 1
  {
    (k + 1) % n
  }

  /**
   * The source's loop `for (i = 0, j = n - 1; i < n; j = i++) a += f(P[j], P[i])`
   * after its first `i` rounds: round `k` pairs P[k] with the previous index.
   */
  function PrevPairSum(P: seq<Pt>, f: (Pt, Pt) -> real, i: nat): real
    requires i <= |P|
  {
    if i == 0 then 0.0
    else
      var k := i - 1;
      var j := if k == 0 then |P| - 1 else k - 1;
      PrevPairSum(P, f, k) + f(P[j], P[k])
  }

  /** The loop `for (i = 0; i < n; i++) s += f(P[i], P[(i + 1) % n])` after `i` rounds. */
  function NextPairSum(P: seq<Pt>, f: (Pt, Pt) -> real, i: nat): real
    requires i <= |P|
  {
    if i == 0 then 0.0
    else NextPairSum(P, f, i - 1) + f(P[i - 1], P[NextIndex(i - 1, |P|)])
  }

  lemma {:induction false} ChainSumSnoc(A: seq<Pt>, x: Pt, f: (Pt, Pt) -> real)
    requires |A| > 0
    ensures ChainSum(A + [x], f) == ChainSum(A, f) + f(A[|A| - 1], x)
    decreases |A|
  {
    if |A| == 1 {
      assert (A + [x])[1..] == [x];
    } else {
      assert (A + [x])[1..] == A[1..] + [x];
      ChainSumSnoc(A[1..], x, f);
    }
  }

  lemma {:induction false} ChainSumConcat(A: seq<Pt>, B: seq<Pt>, f: (Pt, Pt) -> real)
    requires |A| > 0 && |B| > 0
    ensures ChainSum(A + B, f) == ChainSum(A, f) + f(A[|A| - 1], B[0]) + ChainSum(B, f)
    decreases |A|
  {
    if |A| == 1 {
      assert (A + B)[1..] == B;
    } else {
      assert (A + B)[1..] == A[1..] + B;
      ChainSumConcat(A[1..], B, f);
    }
  }

  /** The previous-pair loop computes the closed edge sum. */
  lemma {:induction false} PrevPairSumIsClosed(P: seq<Pt>, f: (Pt, Pt) -> real)
    ensures PrevPairSum(P, f, |P|) == ClosedSum(P, f)
  {
    if |P| > 0 {
      PrevPairPrefix(P, f, |P|);
      assert P[..|P|] == P;
    }
  }

  lemma {:induction false} PrevPairPrefix(P: seq<Pt>, f: (Pt, Pt) -> real, i: nat)
    requires 1 <= i <= |P|
    ensures PrevPairSum(P, f, i) == f(P[|P| - 1], P[0]) + ChainSum(P[..i], f)
  {
    if i == 1 {
    } else {
      PrevPairPrefix(P, f, i - 1);
      assert P[..i] == P[..i - 1] + [P[i - 1]];
      ChainSumSnoc(P[..i - 1], P[i - 1], f);
    }
  }

  /** The next-pair loop computes the closed edge sum. */
  lemma {:induction false} NextPairSumIsClosed(P: seq<Pt>, f: (Pt, Pt) -> real)
    ensures NextPairSum(P, f, |P|) == ClosedSum(P, f)
  {
    if |P| > 0 {
      NextPairPrefix(P, f, |P| - 1);
      assert P[..|P|] == P;
    }
  }

  lemma {:induction false} NextPairPrefix(P: seq<Pt>, f: (Pt, Pt) -> real, i: nat)
    requires i < |P|
    ensures NextPairSum(P, f, i) == ChainSum(P[..i + 1], f)
  {
    if i > 0 {
      NextPairPrefix(P, f, i - 1);
      assert P[..i + 1] == P[..i] + [P[i]];
      ChainSumSnoc(P[..i], P[i], f);
    }
  }

  /** Rotating the vertex list of a closed polygon leaves every edge sum unchanged. */
  lemma RotateClosedSum(P: seq<Pt>, k: nat, f: (Pt, Pt) -> real)
    requires k <= |P|
    ensures ClosedSum(P[k..] + P[..k], f) == ClosedSum(P, f)
  {
    if 0 < k < |P| {
      var A, B := P[..k], P[k..];
      assert P == A + B;
      ChainSumConcat(A, B, f);
      ChainSumConcat(B, A, f);
      assert (B + A)[|B + A| - 1] == A[|A| - 1];
      assert (B + A)[0] == B[0];
    } else if k == |P| {
      assert P[k..] + P[..k] == P;
    } else {
      assert P[k..] + P[..k] == P;
    }
  }

  // ---------------------------------------------------------------------
  // Reversal and translation
  // ---------------------------------------------------------------------

  function Reverse(P: seq<Pt>): (R: seq<Pt>)
    ensures |R| == |P|
    ensures forall i :: 0 <= i < |P| ==> R[i] == P[|P| - 1 - i]
  {
    seq(|P|, i requires 0 <= i < |P| => P[|P| - 1 - i])
  }

  lemma {:induction false} ChainCrossReverse(P: seq<Pt>)
    ensures ChainSum(Reverse(P), Cross) == -ChainSum(P, Cross)
    decreases |P|
  {
    if |P| >= 2 {
      var R := Reverse(P[1..]);
      assert Reverse(P) == R + [P[0]];
      ChainCrossReverse(P[1..]);
      ChainSumSnoc(R, P[0], Cross);
      assert R[|R| - 1] == P[1];
    }
  }

  /** Reversing a polygon negates its shoelace sum. */
  lemma ShoelaceReverse(P: seq<Pt>)
    ensures ClosedSum(Reverse(P), Cross) == -ClosedSum(P, Cross)
  {
    ChainCrossReverse(P);
  }

  function Translate(P: seq<Pt>, d: Pt): (Q: seq<Pt>)
    ensures |Q| == |P|
    ensures forall i :: 0 <= i < |P| ==> Q[i] == Add(P[i], d)
  {
    seq(|P|, i requires 0 <= i < |P| => Add(P[i], d))
  }

  lemma {:induction false} ChainCrossTranslate(P: seq<Pt>, d: Pt)
    requires |P| > 0
    ensures ChainSum(Translate(P, d), Cross)
         == ChainSum(P, Cross) + d.y * (P[0].x - P[|P| - 1].x) + d.x * (P[|P| - 1].y - P[0].y)
    decreases |P|
  {
    if |P| >= 2 {
      assert Translate(P, d)[1..] == Translate(P[1..], d);
      ChainCrossTranslate(P[1..], d);
      CrossTranslate(P[0], P[1], d);
    }
  }

  lemma CrossTranslate(a: Pt, b: Pt, d: Pt)
    ensures Cross(Add(a, d), Add(b, d)) == Cross(a, b) + d.y * (a.x - b.x) + d.x * (b.y - a.y)
  {
  }

  /** Translating a polygon leaves its shoelace sum unchanged. */
  lemma ShoelaceTranslate(P: seq<Pt>, d: Pt)
    ensures ClosedSum(Translate(P, d), Cross) == ClosedSum(P, Cross)
  {
    if |P| > 0 {
      ChainCrossTranslate(P, d);
      CrossTranslate(P[|P| - 1], P[0], d);
    }
  }

  // ---------------------------------------------------------------------
  // Areas
  // ---------------------------------------------------------------------

  /**
   * `polygonArea` of the marching-squares tools: the signed shoelace sum over
   * the previous-pair loop, halved. Positive for clockwise loops in image
   * coordinates (y pointing down), i.e. counter-clockwise on the page.
   */
  function SignedArea(P: seq<Pt>): (a: real)
    ensures a == ClosedSum(P, Cross) / 2.0
  {
    PrevPairSumIsClosed(P, Cross);
    PrevPairSum(P, Cross, |P|) / 2.0
  }

  /** Reversing a loop negates its signed area: the winding normalisation relies on it. */
  lemma SignedAreaReverse(P: seq<Pt>)
    ensures SignedArea(Reverse(P)) == -SignedArea(P)
  {
    ShoelaceReverse(P);
  }

  /** Starting a loop at another vertex does not change its signed area. */
  lemma SignedAreaRotate(P: seq<Pt>, k: nat)
    requires k <= |P|
    ensures SignedArea(P[k..] + P[..k]) == SignedArea(P)
  {
    RotateClosedSum(P, k, Cross);
  }

  /** `polygonArea` of geometry.ts: the absolute shoelace sum times one half. */
  function AbsArea(P: seq<Pt>): (a: real)
    ensures a >= 0.0
    ensures a == Abs(SignedArea(P))
  {
    NextPairSumIsClosed(P, Cross);
    Abs(NextPairSum(P, Cross, |P|)) * 0.5
  }

  /** `calculatePolygonArea`: zero below three points, otherwise the absolute area. */
  function CalculatePolygonArea(P: seq<Pt>): (a: real)
    ensures a >= 0.0
    ensures |P| < 3 ==> a == 0.0
    ensures |P| >= 3 ==> a == AbsArea(P)
  {
    if |P| < 3 then 0.0
    else
      NextPairSumIsClosed(P, Cross);
      Abs(NextPairSum(P, Cross, |P|)) / 2.0
  }

  // ---------------------------------------------------------------------
  // Bounding box and centroids
  // ---------------------------------------------------------------------

  datatype Box = Box(minX: real, maxX: real, minY: real, maxY: real)

  predicate InBox(p: Pt, b: Box) {
    b.minX <= p.x <= b.maxX && b.minY <= p.y <= b.maxY
  }

  /** The running min/max loop over P[i..], starting from box `b`. */
  function BoxFrom(P: seq<Pt>, i: nat, b: Box): (r: Box)
    requires i <= |P|
    ensures r.minX <= b.minX && r.minY <= b.minY && b.maxX <= r.maxX && b.maxY <= r.maxY
    ensures forall k :: i <= k < |P| ==> InBox(P[k], r)
    ensures r.minX == b.minX || exists k :: i <= k < |P| && P[k].x == r.minX
    ensures r.maxX == b.maxX || exists k :: i <= k < |P| && P[k].x == r.maxX
    ensures r.minY == b.minY || exists k :: i <= k < |P| && P[k].y == r.minY
    ensures r.maxY == b.maxY || exists k :: i <= k < |P| && P[k].y == r.maxY
    decreases |P| - i
  {
    if i == |P| then b
    else
      var p := P[i];
      var b' := Box(if p.x < b.minX then p.x else b.minX, if p.x > b.maxX then p.x else b.maxX,
                    if p.y < b.minY then p.y else b.minY, if p.y > b.maxY then p.y else b.maxY);
      BoxFrom(P, i + 1, b')
  }

  /** The bounding box of a non-empty polygon: its tightest enclosing box. */
  function BoxOf(P: seq<Pt>): (b: Box)
    requires |P| > 0
    ensures forall k :: 0 <= k < |P| ==> InBox(P[k], b)
    ensures exists k :: 0 <= k < |P| && P[k].x == b.minX
    ensures exists k :: 0 <= k < |P| && P[k].x == b.maxX
    ensures exists k :: 0 <= k < |P| && P[k].y == b.minY
    ensures exists k :: 0 <= k < |P| && P[k].y == b.maxY
  {
    BoxFrom(P, 0, Box(P[0].x, P[0].x, P[0].y, P[0].y))
  }

  function BoxCenter(b: Box): Pt {
    Pt((b.minX + b.maxX) / 2.0, (b.minY + b.maxY) / 2.0)
  }

  /**
   * `centroid` of the marching-squares tools: the area-weighted shoelace
   * centroid, or the bounding-box centre when |signed area| < 1e-9. An empty
   * polygon makes the source read `points[0]` of an empty array, hence the
   * precondition.
   */
  function Centroid(P: seq<Pt>): (c: Pt)
    requires |P| > 0
    ensures Abs(SignedArea(P)) < 0.000000001 ==> c == BoxCenter(BoxOf(P))
    ensures Abs(SignedArea(P)) >= 0.000000001 ==>
              c == Pt(ClosedSum(P, MomentX) / (6.0 * SignedArea(P)), ClosedSum(P, MomentY) / (6.0 * SignedArea(P)))
  {
    var a := SignedArea(P);
    if Abs(a) < 0.000000001 then BoxCenter(BoxOf(P)) else MomentCentroid(P, a)
  }

  /** The moment sums scaled by `k = 1 / (6a)`, as the source writes them. */
  function MomentCentroid(P: seq<Pt>, a: real): (c: Pt)
    requires a != 0.0
    ensures c == Pt(ClosedSum(P, MomentX) / (6.0 * a), ClosedSum(P, MomentY) / (6.0 * a))
  {
    PrevPairSumIsClosed(P, MomentX);
    PrevPairSumIsClosed(P, MomentY);
    var k := 1.0 / (6.0 * a);
    MulRecip(PrevPairSum(P, MomentX, |P|), 6.0 * a);
    MulRecip(PrevPairSum(P, MomentY, |P|), 6.0 * a);
    Pt(PrevPairSum(P, MomentX, |P|) * k, PrevPairSum(P, MomentY, |P|) * k)
  }

  lemma MulRecip(x: real, d: real)
    requires d != 0.0
    ensures x * (1.0 / d) == x / d
  {
  }

  lemma HalfOfSixth(x: real, a: real)
    requires a != 0.0
    ensures 3.0 * x * a / (6.0 * a) == x / 2.0
  {
    assert 3.0 * x * a == (x / 2.0) * (6.0 * a);
  }

  function Min(a: real, b: real): real { if a <= b then a else b }
  function Max(a: real, b: real): real { if a >= b then a else b }

  /** The source's `clamp(n, a, b) = max(a, min(b, n))`; inside [a, b] whenever a <= b. */
  function Clamp(n: real, a: real, b: real): (r: real)
    ensures a <= b ==> a <= r <= b
    ensures a <= n <= b ==> r == n
  {
    Max(a, Min(b, n))
  }

  /**
   * `centroid` of WireHotspotStudio (label placement): (0, 0) for an empty
   * polygon; the bounding-box centre when |area| < 1e-10; otherwise the
   * shoelace centroid clamped into the bounding box. The result always lies
   * in the box.
   */
  function LabelCentroid(P: seq<Pt>): (c: Pt)
    ensures |P| == 0 ==> c == Pt(0.0, 0.0)
    ensures |P| > 0 ==> InBox(c, BoxOf(P))
    ensures |P| > 0 && Abs(SignedArea(P)) < 0.0000000001 ==> c == BoxCenter(BoxOf(P))
  {
    if |P| == 0 then Pt(0.0, 0.0)
    else
      var b := BoxOf(P);
      NextPairSumIsClosed(P, Cross);
      var area := NextPairSum(P, Cross, |P|) * 0.5;
      if Abs(area) < 0.0000000001 then BoxCenter(b)
      else
        var cx := NextPairSum(P, MomentX, |P|) / (6.0 * area);
        var cy := NextPairSum(P, MomentY, |P|) / (6.0 * area);
        Pt(Clamp(cx, b.minX, b.maxX), Clamp(cy, b.minY, b.maxY))
  }

  /**
   * The label centroid and the marching-squares centroid agree once the
   * polygon is clearly non-degenerate: the label one is the other, clamped.
   */
  lemma LabelCentroidIsClampedCentroid(P: seq<Pt>)
    requires |P| > 0 && Abs(SignedArea(P)) >= 0.000000001
    ensures var c, b := Centroid(P), BoxOf(P);
            LabelCentroid(P) == Pt(Clamp(c.x, b.minX, b.maxX), Clamp(c.y, b.minY, b.maxY))
  {
    NextPairSumIsClosed(P, Cross);
    NextPairSumIsClosed(P, MomentX);
    NextPairSumIsClosed(P, MomentY);
  }

  // ---------------------------------------------------------------------
  // Translation covariance of the centroid
  // ---------------------------------------------------------------------

  /** The per-edge telescoping term left over when a moment edge is shifted by `d`. */
  function PhiX(p: Pt, d: Pt): real {
    d.y * p.x * p.x - d.x * p.x * p.y + 2.0 * d.x * d.y * p.x - 2.0 * d.x * d.x * p.y
  }

  function PhiY(p: Pt, d: Pt): real {
    d.y * p.x * p.y - d.x * p.y * p.y + 2.0 * d.y * d.y * p.x - 2.0 * d.x * d.y * p.y
  }

  lemma MomentXTranslate(a: Pt, b: Pt, d: Pt)
    ensures MomentX(Add(a, d), Add(b, d)) == MomentX(a, b) + 3.0 * d.x * Cross(a, b) + PhiX(a, d) - PhiX(b, d)
  {
    CrossTranslate(a, b, d);
  }

  lemma MomentYTranslate(a: Pt, b: Pt, d: Pt)
    ensures MomentY(Add(a, d), Add(b, d)) == MomentY(a, b) + 3.0 * d.y * Cross(a, b) + PhiY(a, d) - PhiY(b, d)
  {
    CrossTranslate(a, b, d);
  }

  /** Shifting both ends of an edge by d changes f by 3 t times h plus a difference of end-point terms. */
  ghost predicate ShiftLaw(d: Pt, f: (Pt, Pt) -> real, h: (Pt, Pt) -> real, phi: (Pt, Pt) -> real, t: real) {
    forall a, b :: ShiftAt(d, f, h, phi, t, a, b)
  }

  /** The shift law for the one edge a -> b. */
  ghost predicate ShiftAt(d: Pt, f: (Pt, Pt) -> real, h: (Pt, Pt) -> real, phi: (Pt, Pt) -> real, t: real, a: Pt, b: Pt) {
    f(Add(a, d), Add(b, d)) == f(a, b) + 3.0 * t * h(a, b) + phi(a, d) - phi(b, d)
  }

  /**
   * Generic shift law for chain sums: if shifting both ends of an edge by `d`
   * changes `f` by `3 * t * h` plus a telescoping term, the chain sum changes by
   * `3 * t` times the chain sum of `h` plus the end-point terms.
   */
  lemma {:induction false} ChainShift(P: seq<Pt>, d: Pt, f: (Pt, Pt) -> real, h: (Pt, Pt) -> real,
                                      phi: (Pt, Pt) -> real, t: real)
    requires |P| > 0
    requires ShiftLaw(d, f, h, phi, t)
    ensures ChainSum(Translate(P, d), f) == ChainSum(P, f) + 3.0 * t * ChainSum(P, h) + phi(P[0], d) - phi(P[|P| - 1], d)
    decreases |P|
  {
    if |P| >= 2 {
      var T := Translate(P, d);
      assert T[1..] == Translate(P[1..], d);
      ChainShift(P[1..], d, f, h, phi, t);
      var c, C := h(P[0], P[1]), ChainSum(P[1..], h);
      assert T[0] == Add(P[0], d) && T[1] == Add(P[1], d);
      assert ShiftAt(d, f, h, phi, t, P[0], P[1]);
      assert f(T[0], T[1]) == f(P[0], P[1]) + 3.0 * t * c + phi(P[0], d) - phi(P[1], d);
      assert ChainSum(T, f) == f(T[0], T[1]) + ChainSum(T[1..], f);
      assert ChainSum(P, h) == c + C;
      assert 3.0 * t * (c + C) == 3.0 * t * c + 3.0 * t * C;
    }
  }

  lemma ClosedShift(P: seq<Pt>, d: Pt, f: (Pt, Pt) -> real, h: (Pt, Pt) -> real, phi: (Pt, Pt) -> real, t: real)
    requires ShiftLaw(d, f, h, phi, t)
    ensures ClosedSum(Translate(P, d), f) == ClosedSum(P, f) + 3.0 * t * ClosedSum(P, h)
  {
    if |P| > 0 {
      var n := |P|;
      ChainShift(P, d, f, h, phi, t);
      var c, C := h(P[n - 1], P[0]), ChainSum(P, h);
      assert ShiftAt(d, f, h, phi, t, P[n - 1], P[0]);
      assert 3.0 * t * (C + c) == 3.0 * t * C + 3.0 * t * c;
    }
  }

  /** Shifting a polygon by `d` shifts each closed moment by 3 * d * (shoelace sum). */
  lemma MomentsTranslate(P: seq<Pt>, d: Pt)
    ensures ClosedSum(Translate(P, d), MomentX) == ClosedSum(P, MomentX) + 3.0 * d.x * ClosedSum(P, Cross)
    ensures ClosedSum(Translate(P, d), MomentY) == ClosedSum(P, MomentY) + 3.0 * d.y * ClosedSum(P, Cross)
  {
    MomentXShift(P, d);
    MomentYShift(P, d);
  }

  lemma MomentXShift(P: seq<Pt>, d: Pt)
    ensures ClosedSum(Translate(P, d), MomentX) == ClosedSum(P, MomentX) + 3.0 * d.x * ClosedSum(P, Cross)
  {
    MomentXShiftLaw(d);
    ClosedShift(P, d, MomentX, Cross, PhiX, d.x);
  }

  lemma MomentYShift(P: seq<Pt>, d: Pt)
    ensures ClosedSum(Translate(P, d), MomentY) == ClosedSum(P, MomentY) + 3.0 * d.y * ClosedSum(P, Cross)
  {
    MomentYShiftLaw(d);
    ClosedShift(P, d, MomentY, Cross, PhiY, d.y);
  }

  lemma MomentXShiftLaw(d: Pt)
    ensures ShiftLaw(d, MomentX, Cross, PhiX, d.x)
  {
    forall a, b ensures ShiftAt(d, MomentX, Cross, PhiX, d.x, a, b) {
      MomentXTranslate(a, b, d);
    }
  }

  lemma MomentYShiftLaw(d: Pt)
    ensures ShiftLaw(d, MomentY, Cross, PhiY, d.y)
  {
    forall a, b ensures ShiftAt(d, MomentY, Cross, PhiY, d.y, a, b) {
      MomentYTranslate(a, b, d);
    }
  }

  /** A box that encloses every point and is attained on every side is the bounding box. */
  lemma BoxUnique(P: seq<Pt>, b: Box)
    requires |P| > 0
    requires forall k :: 0 <= k < |P| ==> InBox(P[k], b)
    requires exists k :: 0 <= k < |P| && P[k].x == b.minX
    requires exists k :: 0 <= k < |P| && P[k].x == b.maxX
    requires exists k :: 0 <= k < |P| && P[k].y == b.minY
    requires exists k :: 0 <= k < |P| && P[k].y == b.maxY
    ensures BoxOf(P) == b
  {
    var c := BoxOf(P);
    var i1 :| 0 <= i1 < |P| && P[i1].x == c.minX;
    var j1 :| 0 <= j1 < |P| && P[j1].x == b.minX;
    assert InBox(P[i1], b) && InBox(P[j1], c);
    var i2 :| 0 <= i2 < |P| && P[i2].x == c.maxX;
    var j2 :| 0 <= j2 < |P| && P[j2].x == b.maxX;
    assert InBox(P[i2], b) && InBox(P[j2], c);
    var i3 :| 0 <= i3 < |P| && P[i3].y == c.minY;
    var j3 :| 0 <= j3 < |P| && P[j3].y == b.minY;
    assert InBox(P[i3], b) && InBox(P[j3], c);
    var i4 :| 0 <= i4 < |P| && P[i4].y == c.maxY;
    var j4 :| 0 <= j4 < |P| && P[j4].y == b.maxY;
    assert InBox(P[i4], b) && InBox(P[j4], c);
  }

  lemma BoxTranslate(P: seq<Pt>, d: Pt)
    requires |P| > 0
    ensures var b := BoxOf(P);
            BoxOf(Translate(P, d)) == Box(b.minX + d.x, b.maxX + d.x, b.minY + d.y, b.maxY + d.y)
  {
    var b := BoxOf(P);
    var Q := Translate(P, d);
    var t := Box(b.minX + d.x, b.maxX + d.x, b.minY + d.y, b.maxY + d.y);
    assert forall k :: 0 <= k < |Q| ==> InBox(Q[k], t) by {
      forall k | 0 <= k < |Q| ensures InBox(Q[k], t) {
        assert InBox(P[k], b);
      }
    }
    var k1 :| 0 <= k1 < |P| && P[k1].x == b.minX;
    assert Q[k1].x == t.minX;
    var k2 :| 0 <= k2 < |P| && P[k2].x == b.maxX;
    assert Q[k2].x == t.maxX;
    var k3 :| 0 <= k3 < |P| && P[k3].y == b.minY;
    assert Q[k3].y == t.minY;
    var k4 :| 0 <= k4 < |P| && P[k4].y == b.maxY;
    assert Q[k4].y == t.maxY;
    BoxUnique(Q, t);
  }

  /**
   * The centroid moves with the polygon: the offset the scan adds to every
   * traced vertex moves label positions by exactly that offset, in both the
   * degenerate (box-centre) and the shoelace branch.
   */
  lemma CentroidTranslate(P: seq<Pt>, d: Pt)
    requires |P| > 0
    ensures Centroid(Translate(P, d)) == Add(Centroid(P), d)
  {
    ShoelaceTranslate(P, d);
    if Abs(SignedArea(P)) < 0.000000001 {
      BoxTranslate(P, d);
    } else {
      ShoelaceCentroidTranslate(P, d);
    }
  }

  lemma ShoelaceCentroidTranslate(P: seq<Pt>, d: Pt)
    requires |P| > 0 && Abs(SignedArea(P)) >= 0.000000001
    ensures Centroid(Translate(P, d)) == Add(Centroid(P), d)
  {
    TranslatedCentroidFormula(P, d);
    TranslatedQuotients(P, d);
  }

  /** The translated polygon keeps the area, so its centroid uses the same divisor. */
  lemma TranslatedCentroidFormula(P: seq<Pt>, d: Pt)
    requires |P| > 0 && Abs(SignedArea(P)) >= 0.000000001
    ensures Centroid(Translate(P, d)).x == ClosedSum(Translate(P, d), MomentX) / (6.0 * SignedArea(P))
    ensures Centroid(Translate(P, d)).y == ClosedSum(Translate(P, d), MomentY) / (6.0 * SignedArea(P))
  {
    ShoelaceTranslate(P, d);
  }

  lemma TranslatedQuotients(P: seq<Pt>, d: Pt)
    requires |P| > 0 && Abs(SignedArea(P)) >= 0.000000001
    ensures ClosedSum(Translate(P, d), MomentX) / (6.0 * SignedArea(P)) == ClosedSum(P, MomentX) / (6.0 * SignedArea(P)) + d.x
    ensures ClosedSum(Translate(P, d), MomentY) / (6.0 * SignedArea(P)) == ClosedSum(P, MomentY) / (6.0 * SignedArea(P)) + d.y
  {
    TranslatedQuotientX(P, d);
    TranslatedQuotientY(P, d);
  }

  lemma TranslatedQuotientX(P: seq<Pt>, d: Pt)
    requires |P| > 0 && Abs(SignedArea(P)) >= 0.000000001
    ensures ClosedSum(Translate(P, d), MomentX) / (6.0 * SignedArea(P)) == ClosedSum(P, MomentX) / (6.0 * SignedArea(P)) + d.x
  {
    MomentsTranslate(P, d);
    ShiftQuotient(ClosedSum(Translate(P, d), MomentX), ClosedSum(P, MomentX), ClosedSum(P, Cross), SignedArea(P), d.x);
  }

  lemma TranslatedQuotientY(P: seq<Pt>, d: Pt)
    requires |P| > 0 && Abs(SignedArea(P)) >= 0.000000001
    ensures ClosedSum(Translate(P, d), MomentY) / (6.0 * SignedArea(P)) == ClosedSum(P, MomentY) / (6.0 * SignedArea(P)) + d.y
  {
    MomentsTranslate(P, d);
    ShiftQuotient(ClosedSum(Translate(P, d), MomentY), ClosedSum(P, MomentY), ClosedSum(P, Cross), SignedArea(P), d.y);
  }

  lemma ShiftQuotient(q: real, m: real, s: real, a: real, t: real)
    requires a != 0.0 && s == 2.0 * a && q == m + 3.0 * t * s
    ensures q / (6.0 * a) == m / (6.0 * a) + t
  {
    assert 3.0 * t * s == t * (6.0 * a);
  }

  /** The axis-aligned rectangle with corner (ox, oy), width w and height h, traced clockwise. */
  function Rect(ox: real, oy: real, w: real, h: real): seq<Pt> {
    [Pt(ox, oy), Pt(ox + w, oy), Pt(ox + w, oy + h), Pt(ox, oy + h)]
  }

  /** A filled rectangle's label lands at its centre, whatever its size. */
  lemma RectangleCentroid(ox: real, oy: real, w: real, h: real)
    requires w > 0.0 && h > 0.0
    ensures SignedArea(Rect(ox, oy, w, h)) == w * h
    ensures Centroid(Rect(ox, oy, w, h)) == Pt(ox + w / 2.0, oy + h / 2.0)
  {
    var R := Rect(0.0, 0.0, w, h);
    var d := Pt(ox, oy);
    assert Translate(R, d) == Rect(ox, oy, w, h);
    ShoelaceTranslate(R, d);
    RectCross(w, h);
    OriginRectCentroid(w, h);
    CentroidTranslate(R, d);
  }

  lemma OriginRectCentroid(w: real, h: real)
    requires w > 0.0 && h > 0.0
    ensures Centroid(Rect(0.0, 0.0, w, h)) == Pt(w / 2.0, h / 2.0)
  {
    RectCross(w, h);
    if w * h < 0.000000001 {
      SmallRectCentroid(w, h);
    } else {
      LargeRectCentroid(w, h);
    }
  }

  /** A tiny rectangle falls back to its box centre, which is its centre. */
  lemma SmallRectCentroid(w: real, h: real)
    requires w > 0.0 && h > 0.0
    ensures BoxCenter(BoxOf(Rect(0.0, 0.0, w, h))) == Pt(w / 2.0, h / 2.0)
  {
    var R := Rect(0.0, 0.0, w, h);
    var b := Box(0.0, w, 0.0, h);
    assert InBox(R[0], b) && InBox(R[1], b) && InBox(R[2], b) && InBox(R[3], b);
    assert R[0].x == b.minX && R[2].x == b.maxX && R[0].y == b.minY && R[2].y == b.maxY;
    BoxUnique(R, b);
  }

  /** The moment formula puts a rectangle's centroid at its centre. */
  lemma LargeRectCentroid(w: real, h: real)
    requires w > 0.0 && h > 0.0
    ensures MomentCentroid(Rect(0.0, 0.0, w, h), w * h) == Pt(w / 2.0, h / 2.0)
  {
    RectMoments(w, h);
    HalfOfSixth(w, w * h);
    HalfOfSixth(h, w * h);
  }

  lemma RectCross(w: real, h: real)
    ensures ClosedSum(Rect(0.0, 0.0, w, h), Cross) == 2.0 * (w * h)
  {
    var R := Rect(0.0, 0.0, w, h);
    ClosedSum4(R, Cross);
    assert Cross(R[1], R[2]) == w * h && Cross(R[2], R[3]) == w * h;
    assert Cross(R[0], R[1]) == 0.0 && Cross(R[3], R[0]) == 0.0;
  }

  lemma RectMoments(w: real, h: real)
    ensures ClosedSum(Rect(0.0, 0.0, w, h), MomentX) == 3.0 * w * (w * h)
    ensures ClosedSum(Rect(0.0, 0.0, w, h), MomentY) == 3.0 * h * (w * h)
  {
    var R := Rect(0.0, 0.0, w, h);
    var a := w * h;
    ClosedSum4(R, MomentX);
    ClosedSum4(R, MomentY);
    assert Cross(R[1], R[2]) == a && Cross(R[2], R[3]) == a;
    assert Cross(R[0], R[1]) == 0.0 && Cross(R[3], R[0]) == 0.0;
    assert MomentX(R[1], R[2]) == 2.0 * w * a && MomentX(R[2], R[3]) == w * a;
    assert MomentY(R[1], R[2]) == h * a && MomentY(R[2], R[3]) == 2.0 * h * a;
  }

  lemma ClosedSum4(R: seq<Pt>, f: (Pt, Pt) -> real)
    requires |R| == 4
    ensures ClosedSum(R, f) == f(R[0], R[1]) + f(R[1], R[2]) + f(R[2], R[3]) + f(R[3], R[0])
  {
    assert ChainSum(R[2..], f) == f(R[2], R[3]) + ChainSum(R[3..], f);
    assert ChainSum(R[1..], f) == f(R[1], R[2]) + ChainSum(R[2..], f);
    assert ChainSum(R, f) == f(R[0], R[1]) + ChainSum(R[1..], f);
  }

  // ---------------------------------------------------------------------
  // Point to segment
  // ---------------------------------------------------------------------

  /** The point a + s * (b - a) of the line through a and b. */
  function Lerp(a: Pt, b: Pt, s: real): Pt {
    Pt(a.x + s * (b.x - a.x), a.y + s * (b.y - a.y))
  }

  /** The squared Euclidean distance; every `Math.hypot` comparison is made on it. */
  function Dist2(p: Pt, q: Pt): real {
    (p.x - q.x) * (p.x - q.x) + (p.y - q.y) * (p.y - q.y)
  }

  /** The result of `pointSegDist`; `d2` is the square of the reported distance `d`. */
  datatype SegProjection = SegProjection(d2: real, q: Pt, t: real)

  /**
   * `pointSegDist`: project p onto the line through a and b (dividing by
   * 1e-12 when a == b), clamp the parameter to [0, 1], and measure to the
   * clamped foot q.
   */
  function PointSegDist(p: Pt, a: Pt, b: Pt): (r: SegProjection)
    ensures 0.0 <= r.t <= 1.0
    ensures r.q == Lerp(a, b, r.t)
    ensures r.d2 == Dist2(p, r.q) && r.d2 >= 0.0
  {
    var t := Clamp(LineParam(p, a, b), 0.0, 1.0);
    var q := Pt(a.x + t * (b.x - a.x), a.y + t * (b.y - a.y));
    Dist2Nonneg(p, q);
    SegProjection(Dist2(p, q), q, t)
  }

  /** The unclamped parameter of the foot of p on the line a b; `l2 || 1e-12` guards a == b. */
  function LineParam(p: Pt, a: Pt, b: Pt): real {
    var vx, vy := b.x - a.x, b.y - a.y;
    var l2 := if vx * vx + vy * vy == 0.0 then 0.000000000001 else vx * vx + vy * vy;
    ((p.x - a.x) * vx + (p.y - a.y) * vy) / l2
  }

  /** A point at the start of the segment projects onto itself at distance 0. */
  lemma PointSegDistAtStart(a: Pt, b: Pt)
    ensures PointSegDist(a, a, b) == SegProjection(0.0, a, 0.0)
  {
    assert LineParam(a, a, b) == 0.0;
  }

  lemma Dist2Nonneg(p: Pt, q: Pt)
    ensures Dist2(p, q) >= 0.0
  {
  }
}
