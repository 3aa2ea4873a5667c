/**
 * Perimeter and arc-length resampling of closed polygons (geometry.ts).
 * `Math.hypot` is a parameter: the only thing the source relies on is that
 * a length is never negative.
 */
module Measures {
  import opened Geometry

  /** A stand-in for `Math.hypot`: any function that never returns a negative length. */
  ghost predicate IsLength(hypot: (real, real) -> real) {
    forall dx, dy :: hypot(dx, dy) >= 0.0
  }

  /** The length of the edge a -> b. */
  function EdgeLength(hypot: (real, real) -> real): (Pt, Pt) -> real {
    (a: Pt, b: Pt) => hypot(b.x - a.x, b.y - a.y)
  }

  lemma {:induction false} ChainSumNonneg(P: seq<Pt>, f: (Pt, Pt) -> real)
    requires forall a, b :: f(a, b) >= 0.0
    ensures ChainSum(P, f) >= 0.0
    decreases |P|
  {
    if |P| >= 2 {
      ChainSumNonneg(P[1..], f);
    }
  }

  /**
   * `perimeter`: the loop `L += hypot(b - a)` over the edges P[i] -> P[(i+1) % n].
   * It is the closed edge sum of the polygon, and never negative.
   */
  function Perimeter(P: seq<Pt>, hypot: (real, real) -> real): (L: real)
    requires IsLength(hypot)
    ensures L == ClosedSum(P, EdgeLength(hypot))
    ensures L >= 0.0
  {
    NextPairSumIsClosed(P, EdgeLength(hypot));
    ChainSumNonneg(P, EdgeLength(hypot));
    NextPairSum(P, EdgeLength(hypot), |P|)
  }

  /** The perimeter does not depend on which vertex the loop starts at. */
  lemma PerimeterRotate(P: seq<Pt>, k: nat, hypot: (real, real) -> real)
    requires IsLength(hypot) && k <= |P|
    ensures Perimeter(P[k..] + P[..k], hypot) == Perimeter(P, hypot)
  {
    RotateClosedSum(P, k, EdgeLength(hypot));
  }

  /** Point `p` lies on edge j -> j+1 (cyclically) of polygon P. */
  ghost predicate OnEdge(P: seq<Pt>, p: Pt) {
    exists j: nat, u: real :: j < |P| && 0.0 <= u <= 1.0 && p == Lerp(P[j], P[NextIndex(j, |P|)], u)
  }

  lemma VertexOnEdge(P: seq<Pt>, j: nat)
    requires j < |P|
    ensures OnEdge(P, P[j])
  {
    assert P[j] == Lerp(P[j], P[NextIndex(j, |P|)], 0.0);
  }

  function Copies(p: Pt, k: nat): (s: seq<Pt>)
    ensures |s| == k && forall i :: 0 <= i < k ==> s[i] == p
  {
    seq(k, _ => p)
  }

  /** The number of points `resample` returns. */
  function ResampleCount(n: nat, K: int): nat {
    if n == 0 || K <= 0 then 0 else K
  }

  /** The hypot length of edge `seg`, as `segLen(seg)` computes it. */
  function SegLen(poly: seq<Pt>, seg: nat, hypot: (real, real) -> real): real
    requires seg < |poly|
  {
    var a, b := poly[seg], poly[NextIndex(seg, |poly|)];
    hypot(b.x - a.x, b.y - a.y)
  }

  /**
   * The inner walk of `resample`: move to the next edge while the target t
   * lies more than 1e-9 past the end of the current one, at most 2n times.
   * Nothing moves when t is 0 (the first target).
   */
  method Advance(poly: seq<Pt>, hypot: (real, real) -> real, seg0: nat, acc0: real, t: real)
    returns (seg: nat, acc: real)
    requires IsLength(hypot) && seg0 < |poly|
    ensures seg < |poly|
    ensures t == 0.0 && acc0 == 0.0 ==> seg == seg0 && acc == acc0
  {
    var n := |poly|;
    seg, acc := seg0, acc0;
    var cur := SegLen(poly, seg, hypot);
    var guard := 0;
    while acc + cur < t - 0.000000001 && guard < n * 2
      invariant seg < n && cur == SegLen(poly, seg, hypot)
      invariant t == 0.0 && acc0 == 0.0 ==> seg == seg0 && acc == acc0
      decreases n * 2 - guard
    {
      acc := acc + cur;
      seg := NextIndex(seg, n);
      cur := SegLen(poly, seg, hypot);
      guard := guard + 1;
    }
  }

  /** The interpolated point `a + (b - a) * u` with `u` clamped into [0, 1] (0 on a near-empty edge). */
  function EdgePoint(poly: seq<Pt>, seg: nat, cur: real, acc: real, t: real): (p: Pt)
    requires seg < |poly|
    ensures OnEdge(poly, p)
    ensures t == acc ==> p == poly[seg]
  {
    var u := if cur > 0.000000001 then Clamp((t - acc) / cur, 0.0, 1.0) else 0.0;
    var p := Lerp(poly[seg], poly[NextIndex(seg, |poly|)], u);
    assert t == acc ==> u == 0.0;
    p
  }

  /** One target of `resample`: walk to its edge, then interpolate on it. */
  method Sample(poly: seq<Pt>, hypot: (real, real) -> real, seg0: nat, acc0: real, t: real)
    returns (seg: nat, acc: real, p: Pt)
    requires IsLength(hypot) && seg0 < |poly|
    ensures seg < |poly| && OnEdge(poly, p)
    ensures t == 0.0 && acc0 == 0.0 ==> p == poly[seg0]
  {
    seg, acc := Advance(poly, hypot, seg0, acc0, t);
    p := EdgePoint(poly, seg, SegLen(poly, seg, hypot), acc, t);
  }

  /**
   * `resample`: K points spaced by arc length along the closed polygon.
   * Targets are i * Ltot / K; the walker advances over edges while the
   * target lies more than 1e-9 beyond the current edge, at most 2n times
   * per target, and interpolates with u clamped into [0, 1].
   */
  method Resample(poly: seq<Pt>, K: int, hypot: (real, real) -> real) returns (out: seq<Pt>)
    requires IsLength(hypot)
    ensures |out| == ResampleCount(|poly|, K)
    ensures |out| > 0 ==> out[0] == poly[0]
    ensures K == 1 && |poly| > 0 ==> out == [poly[0]]
    ensures |poly| == 1 && K > 0 ==> out == Copies(poly[0], K)
    ensures |poly| > 0 && K > 0 && Perimeter(poly, hypot) <= 0.000000001 ==> out == Copies(poly[0], K)
    ensures forall k :: 0 <= k < |out| ==> OnEdge(poly, out[k])
  {
    var n := |poly|;
    if n == 0 || K <= 0 {
      return [];
    }
    VertexOnEdge(poly, 0);
    if K == 1 {
      assert [poly[0]] == Copies(poly[0], 1);
      return [poly[0]];
    }
    if n == 1 {
      return Copies(poly[0], K);
    }
    var Ltot := Perimeter(poly, hypot);
    if Ltot <= 0.000000001 {
      return Copies(poly[0], K);
    }
    var seg: nat, acc := 0, 0.0;
    out := [];
    var i := 0;
    while i < K
      invariant 0 <= i <= K && |out| == i
      invariant seg < n
      invariant i == 0 ==> seg == 0 && acc == 0.0
      invariant i > 0 ==> out[0] == poly[0]
      invariant forall k :: 0 <= k < i ==> OnEdge(poly, out[k])
    {
      var t := (i as real) * Ltot / (K as real);
      assert i == 0 ==> t == 0.0;
      var p;
      seg, acc, p := Sample(poly, hypot, seg, acc, t);
      out := out + [p];
      i := i + 1;
    }
  }
}
