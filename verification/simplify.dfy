/**
 * Angle-aware simplification of closed outlines (`simplifyClosedPolygon`
 * of the marching-squares tools) and the closing of a hand-drawn polygon
 * (`finishManual`).
 *
 * `angleBetween` ends in `Math.acos`; it is a parameter `angle` giving the
 * turning angle in radians between two edge vectors. Length tests against
 * `minEdge` are decided on squared lengths by `AtLeast`.
 */
module Simplify {
  import opened Geometry
  import opened Seqs
  import opened Rdp
  import opened Regions

  const Pi: real := 3.141592653589793

  datatype Mode = AngleMode | RdpMode | NoneMode

  datatype Options = Options(epsilon: real, minAngle: real, minEdge: real, mode: Mode)

  /** `sqrt(d2) >= m` for a squared length d2. */
  predicate AtLeast(d2: real, m: real) {
    m <= 0.0 || d2 >= m * m
  }

  /** The turning angle at vertex i of the closed ring P. */
  function TurnAt(P: seq<Pt>, i: nat, angle: (real, real, real, real) -> real): real
    requires i < |P|
  {
    var p0, p1, p2 := P[(i - 1 + |P|) % |P|], P[i], P[NextIndex(i, |P|)];
    angle(p1.x - p0.x, p1.y - p0.y, p2.x - p1.x, p2.y - p1.y)
  }

  /**
   * The sharpest-corner scan: the first vertex with the largest deviation
   * `Pi - angle`, from the running best (bestScore, bestI).
   */
  function Sharpest(P: seq<Pt>, i: nat, angle: (real, real, real, real) -> real, bestScore: real, bestI: nat): (r: nat)
    requires i <= |P| && bestI < |P|
    ensures r < |P|
    ensures r == bestI || (i <= r && Pi - TurnAt(P, r, angle) > bestScore)
    ensures forall k :: i <= k < |P| ==> Pi - TurnAt(P, k, angle) <= bestScore || Pi - TurnAt(P, k, angle) <= Pi - TurnAt(P, r, angle)
    ensures r != bestI ==> forall k :: i <= k < r ==> Pi - TurnAt(P, k, angle) < Pi - TurnAt(P, r, angle)
    decreases |P| - i
  {
    if i == |P| then bestI
    else if Pi - TurnAt(P, i, angle) > bestScore then Sharpest(P, i + 1, angle, Pi - TurnAt(P, i, angle), i)
    else Sharpest(P, i + 1, angle, bestScore, bestI)
  }

  /**
   * The scan of `simplifyClosedPolygon`, from (-1, 0): every vertex whose
   * deviation beats -1 deviates no more than the chosen one, and every
   * vertex before the chosen one deviates strictly less, so the first of
   * equally sharp corners wins.
   */
  lemma SharpestFirst(P: seq<Pt>, angle: (real, real, real, real) -> real)
    requires |P| > 0
    ensures var b := Sharpest(P, 0, angle, -1.0, 0);
      (forall k :: 0 <= k < |P| && Pi - TurnAt(P, k, angle) > -1.0 ==> Pi - TurnAt(P, k, angle) <= Pi - TurnAt(P, b, angle))
      && (forall k :: 0 <= k < b ==> Pi - TurnAt(P, k, angle) < Pi - TurnAt(P, b, angle))
  {
  }

  /** The ring rotated to start at its sharpest corner. */
  function Rotation(P: seq<Pt>, angle: (real, real, real, real) -> real): (rot: seq<Pt>)
    requires |P| > 0
    ensures |rot| == |P| && multiset(rot) == multiset(P)
    ensures exists b :: 0 <= b < |P| && rot == P[b..] + P[..b] && b == Sharpest(P, 0, angle, -1.0, 0)
  {
    var b := Sharpest(P, 0, angle, -1.0, 0);
    assert P == P[..b] + P[b..];
    P[b..] + P[..b]
  }

  /** The corner flags of the angle mode: a vertex is kept when it turns by at least minAngle degrees. */
  function CornerFlags(simp: seq<Pt>, minAngle: real, angle: (real, real, real, real) -> real): (keep: seq<bool>)
    ensures |keep| == |simp|
    ensures forall i :: 0 <= i < |simp| ==> (keep[i] <==> 180.0 - TurnAt(simp, i, angle) * 180.0 / Pi >= minAngle)
  {
    seq(|simp|, i requires 0 <= i < |simp| => 180.0 - TurnAt(simp, i, angle) * 180.0 / Pi >= minAngle)
  }

  /** With minEdge <= 0 the spacing fold drops nothing. */
  lemma {:induction false} SpacingNoDrop(simp: seq<Pt>, keep: seq<bool>, minEdge: real)
    requires |keep| == |simp| && minEdge <= 0.0
    ensures SpacingOf(simp, keep, minEdge) == simp
  {
    if |simp| > 0 {
      SpacingNoDrop(simp[..|simp| - 1], keep[..|simp| - 1], minEdge);
      assert simp == simp[..|simp| - 1] + [simp[|simp| - 1]];
    }
  }

  /**
   * Every flagged vertex of simp appears in out, which is an
   * order-preserving subsequence of simp starting at simp[0].
   */
  ghost predicate EmitsFlagged(out: seq<Pt>, simp: seq<Pt>, keep: seq<bool>)
    requires |keep| == |simp|
  {
    exists idx :: SubseqAt(out, simp, idx) && (|simp| > 0 ==> |idx| > 0 && idx[0] == 0)
      && forall i :: 0 <= i < |simp| && keep[i] ==> i in idx
  }

  /**
   * The spacing pass as a left fold over simp: a vertex is emitted when
   * nothing was emitted yet, when it lies at least minEdge from the last
   * emitted one, or when it is flagged as a corner; otherwise it is dropped.
   */
  function SpacingOf(simp: seq<Pt>, keep: seq<bool>, minEdge: real): seq<Pt>
    requires |keep| == |simp|
  {
    if |simp| == 0 then []
    else
      var prev := SpacingOf(simp[..|simp| - 1], keep[..|simp| - 1], minEdge);
      var p := simp[|simp| - 1];
      if |prev| == 0 || AtLeast(Dist2(p, prev[|prev| - 1]), minEdge) || keep[|simp| - 1] then prev + [p] else prev
  }

  /**
   * out sits in simp at the positions idx, starting at simp[0], holds every
   * flagged vertex, and every unflagged vertex of it after the first lies at
   * least minEdge from the vertex before it.
   */
  ghost predicate Spaced(out: seq<Pt>, simp: seq<Pt>, keep: seq<bool>, minEdge: real, idx: seq<int>)
    requires |keep| == |simp|
  {
    SubseqAt(out, simp, idx)
    && (|simp| > 0 ==> |idx| > 0 && idx[0] == 0)
    && (forall i :: 0 <= i < |simp| && keep[i] ==> i in idx)
    && forall k :: 0 < k < |idx| && !keep[idx[k]] ==> AtLeast(Dist2(simp[idx[k]], simp[idx[k - 1]]), minEdge)
  }

  /** Emitting the next vertex keeps the spacing facts. */
  lemma SpacedEmit(init: seq<Pt>, flags: seq<bool>, p: Pt, f: bool, minEdge: real, out: seq<Pt>, idx: seq<int>)
    requires |flags| == |init| && Spaced(out, init, flags, minEdge, idx)
    requires |out| == 0 || AtLeast(Dist2(p, out[|out| - 1]), minEdge) || f
    ensures Spaced(out + [p], init + [p], flags + [f], minEdge, idx + [|init|])
  {
    var simp, keep, o, x := init + [p], flags + [f], out + [p], idx + [|init|];
    forall k | 0 <= k < |x|
      ensures 0 <= x[k] < |simp| && o[k] == simp[x[k]] && keep[x[k]] == if k < |idx| then flags[idx[k]] else f
    {
      if k < |idx| {
        assert x[k] == idx[k] && o[k] == out[k];
      }
    }
    forall k | 0 < k < |x|
      ensures x[k - 1] < x[k]
    {
      if k < |idx| {
        assert x[k - 1] == idx[k - 1] && x[k] == idx[k];
      }
    }
    forall k | 0 < k < |x| && !keep[x[k]]
      ensures AtLeast(Dist2(simp[x[k]], simp[x[k - 1]]), minEdge)
    {
      if k < |idx| {
        assert x[k] == idx[k] && x[k - 1] == idx[k - 1];
      } else {
        assert x[k - 1] == idx[|idx| - 1] && out[|out| - 1] == simp[x[k - 1]];
      }
    }
    forall i | 0 <= i < |simp| && keep[i]
      ensures i in x
    {
      if i < |init| {
        assert flags[i];
      }
    }
  }

  /** Dropping the next, unflagged vertex keeps the spacing facts. */
  lemma SpacedDrop(init: seq<Pt>, flags: seq<bool>, p: Pt, minEdge: real, out: seq<Pt>, idx: seq<int>)
    requires |flags| == |init| > 0 && Spaced(out, init, flags, minEdge, idx)
    ensures Spaced(out, init + [p], flags + [false], minEdge, idx)
  {
    var simp, keep := init + [p], flags + [false];
    forall k | 0 <= k < |idx|
      ensures simp[idx[k]] == init[idx[k]] && keep[idx[k]] == flags[idx[k]]
    {
    }
    forall i | 0 <= i < |simp| && keep[i]
      ensures i in idx
    {
      assert i < |init| && flags[i];
    }
  }

  /**
   * What the spacing fold keeps: an order-preserving subsequence starting
   * at simp[0] that holds every flagged vertex, in which every unflagged
   * vertex after the first lies at least minEdge from the vertex emitted
   * before it.
   */
  lemma {:induction false} SpacingKeeps(simp: seq<Pt>, keep: seq<bool>, minEdge: real) returns (idx: seq<int>)
    requires |keep| == |simp|
    ensures Spaced(SpacingOf(simp, keep, minEdge), simp, keep, minEdge, idx)
  {
    if |simp| == 0 {
      idx := [];
    } else {
      var n := |simp|;
      var init, flags := simp[..n - 1], keep[..n - 1];
      var pre := SpacingKeeps(init, flags, minEdge);
      var prev := SpacingOf(init, flags, minEdge);
      var p := simp[n - 1];
      assert simp == init + [p] && keep == flags + [keep[n - 1]];
      if |prev| == 0 || AtLeast(Dist2(p, prev[|prev| - 1]), minEdge) || keep[n - 1] {
        SpacedEmit(init, flags, p, keep[n - 1], minEdge, prev, pre);
        idx := pre + [n - 1];
      } else {
        SpacedDrop(init, flags, p, minEdge, prev, pre);
        idx := pre;
      }
    }
  }

  /** The spacing loop of the angle mode, computing the fold vertex by vertex. */
  method Spacing(simp: seq<Pt>, keep: seq<bool>, minEdge: real) returns (out: seq<Pt>, ghost idx: seq<int>)
    requires |keep| == |simp|
    ensures out == SpacingOf(simp, keep, minEdge)
    ensures EmitsFlagged(out, simp, keep)
    ensures SubseqAt(out, simp, idx) && (|simp| > 0 ==> |idx| > 0 && idx[0] == 0)
    ensures minEdge <= 0.0 ==> out == simp
  {
    out := [];
    for i := 0 to |simp|
      invariant out == SpacingOf(simp[..i], keep[..i], minEdge)
    {
      assert simp[..i + 1][..i] == simp[..i] && keep[..i + 1][..i] == keep[..i];
      var p := simp[i];
      if |out| == 0 || AtLeast(Dist2(p, out[|out| - 1]), minEdge) || keep[i] {
        out := out + [p];
      }
    }
    assert simp[..|simp|] == simp && keep[..|simp|] == keep;
    idx := SpacingKeeps(simp, keep, minEdge);
    if minEdge <= 0.0 {
      SpacingNoDrop(simp, keep, minEdge);
    }
  }

  /** The closing check: drop the last vertex when it lies closer than minEdge to the first. */
  function ClosingPop(out: seq<Pt>, minEdge: real): (r: seq<Pt>)
    ensures r == out || (|out| >= 2 && r == out[..|out| - 1] && !AtLeast(Dist2(out[0], out[|out| - 1]), minEdge))
    ensures |out| >= 2 && !AtLeast(Dist2(out[0], out[|out| - 1]), minEdge) ==> r == out[..|out| - 1]
    ensures minEdge <= 0.0 ==> r == out
  {
    if |out| >= 2 && !AtLeast(Dist2(out[0], out[|out| - 1]), minEdge) then out[..|out| - 1] else out
  }

  /** The angle pass of `simplifyClosedPolygon`: corner flags, the spacing fold, then the closing check. */
  function AngleStage(simp: seq<Pt>, opts: Options, angle: (real, real, real, real) -> real): seq<Pt> {
    ClosingPop(SpacingOf(simp, CornerFlags(simp, opts.minAngle, angle), opts.minEdge), opts.minEdge)
  }

  /**
   * The angle-mode post-processing of an RDP result: flagged corners are
   * all emitted by the spacing pass, and only the closing check can remove
   * one of them again, namely the last emitted vertex.
   */
  method AnglePass(simp: seq<Pt>, opts: Options, angle: (real, real, real, real) -> real)
    returns (out: seq<Pt>, ghost idx: seq<int>)
    ensures out == AngleStage(simp, opts, angle)
    ensures exists mid :: (EmitsFlagged(mid, simp, CornerFlags(simp, opts.minAngle, angle))
      && (out == mid || (|mid| >= 2 && out == mid[..|mid| - 1])))
    ensures |simp| > 0 ==> |out| > 0 && out[0] == simp[0]
    ensures SubseqAt(out, simp, idx) && (|out| > 0 ==> idx[0] == 0)
  {
    var keep := CornerFlags(simp, opts.minAngle, angle);
    var mid;
    mid, idx := Spacing(simp, keep, opts.minEdge);
    assert EmitsFlagged(mid, simp, keep);
    if |mid| >= 2 && !AtLeast(Dist2(mid[0], mid[|mid| - 1]), opts.minEdge) {
      DropLastSubseq(mid, simp, idx);
      out, idx := mid[..|mid| - 1], idx[..|idx| - 1];
      assert out[0] == mid[0];
    } else {
      out := mid;
    }
    assert out == ClosingPop(mid, opts.minEdge);
  }

  lemma DropLastSubseq(out: seq<Pt>, P: seq<Pt>, idx: seq<int>)
    requires SubseqAt(out, P, idx) && |out| > 0
    ensures SubseqAt(out[..|out| - 1], P, idx[..|idx| - 1])
  {
  }

  /** Dropping the appended copy of the first vertex from an RDP result of `rot + [rot[0]]`. */
  lemma DropClosing(rot: seq<Pt>, r: seq<Pt>) returns (idx: seq<int>)
    requires |rot| > 0 && KeepsEnds(r, rot + [rot[0]])
    ensures |r| >= 2
    ensures SubseqAt(r[..|r| - 1], rot, idx) && idx[0] == 0
  {
    var Q := rot + [rot[0]];
    var j :| SubseqAt(r, Q, j) && |j| > 0 && j[0] == 0 && j[|j| - 1] == |Q| - 1;
    assert |j| >= 2;
    idx := j[..|j| - 1];
    forall k | 0 <= k < |idx|
      ensures idx[k] < |rot|
    {
      SubseqIncreasing(r, Q, j, k, |j| - 1);
    }
  }

  /** The RDP stage of `simplifyClosedPolygon`: `rdp(rot.concat([rot[0]]), eps).slice(0, -1)`. */
  function RdpStage(rot: seq<Pt>, eps: real): seq<Pt>
    requires |rot| > 0
  {
    DropLast(RdpKept(rot + [rot[0]], eps))
  }

  /** The tolerance of the RDP stage: epsilon in RDP mode, max(0.25, 0.6 epsilon) in angle mode. */
  function StageEps(opts: Options): (eps: real)
    ensures opts.mode == RdpMode ==> eps == opts.epsilon
    ensures opts.mode != RdpMode ==> eps >= 0.25 && eps >= opts.epsilon * 0.6 && (eps == 0.25 || eps == opts.epsilon * 0.6)
  {
    if opts.mode == RdpMode then opts.epsilon else Max(0.25, opts.epsilon * 0.6)
  }


  /** The RDP stage as the method runs it: a subsequence of rot that starts at rot[0]. */
  method ClosedRdp(rot: seq<Pt>, eps: real) returns (simp: seq<Pt>, ghost idx: seq<int>)
    requires |rot| > 0
    ensures simp == RdpStage(rot, eps)
    ensures SubseqAt(simp, rot, idx) && |idx| > 0 && idx[0] == 0
  {
    var closedRdp := IterativeRdp(rot + [rot[0]], eps);
    idx := DropClosing(rot, closedRdp);
    simp := closedRdp[..|closedRdp| - 1];
    assert simp + [closedRdp[|closedRdp| - 1]] == closedRdp;
  }

  /**
   * `simplifyClosedPolygon`: fewer than four points, or mode "none", give a
   * copy. Otherwise the ring is rotated to its sharpest corner, simplified
   * by RDP as a closed chain (with max(0.25, 0.6 eps) and the angle pass in
   * angle mode), and the rotation itself is returned whenever fewer than
   * three vertices remain.
   */
  method SimplifyClosedPolygon(pts: seq<Pt>, opts: Options, angle: (real, real, real, real) -> real)
    returns (r: seq<Pt>)
    ensures |pts| < 4 || opts.mode == NoneMode ==> r == pts
    ensures |pts| >= 4 && opts.mode != NoneMode ==>
      var rot := Rotation(pts, angle);
      (|r| >= 3 || r == rot) && r[0] == rot[0]
      && exists idx :: SubseqAt(r, rot, idx) && idx[0] == 0
    ensures |pts| >= 4 && opts.mode == RdpMode ==>
      var rot := Rotation(pts, angle);
      var simp := RdpStage(rot, StageEps(opts));
      r == if |simp| >= 3 then simp else rot
    ensures |pts| >= 4 && opts.mode == AngleMode ==>
      var rot := Rotation(pts, angle);
      var out := AngleStage(RdpStage(rot, StageEps(opts)), opts, angle);
      r == if |out| >= 3 then out else rot
  {
    if |pts| < 4 || opts.mode == NoneMode {
      return pts;
    }
    r := SimplifyRing(Rotation(pts, angle), opts, angle);
  }

  /** The stages of `simplifyClosedPolygon` after the rotation, for a ring rot already rotated. */
  method SimplifyRing(rot: seq<Pt>, opts: Options, angle: (real, real, real, real) -> real) returns (r: seq<Pt>)
    requires |rot| > 0 && opts.mode != NoneMode
    ensures (|r| >= 3 || r == rot) && r[0] == rot[0]
      && exists idx :: SubseqAt(r, rot, idx) && idx[0] == 0
    ensures opts.mode == RdpMode ==>
      var simp := RdpStage(rot, StageEps(opts));
      r == if |simp| >= 3 then simp else rot
    ensures opts.mode == AngleMode ==>
      var out := AngleStage(RdpStage(rot, StageEps(opts)), opts, angle);
      r == if |out| >= 3 then out else rot
  {
    var simp, i0 := ClosedRdp(rot, StageEps(opts));
    if opts.mode == AngleMode {
      var s2, i1 := AnglePass(simp, opts, angle);
      ghost var i2 := SubseqCompose(s2, simp, rot, i1, i0);
      simp := s2;
    }
    if |simp| < 3 {
      r := rot;
      IdentitySubseq(rot);
    } else {
      r := simp;
    }
  }

  /**
   * `finishManual`: with no image loaded or fewer than three points the
   * drawing is discarded; otherwise a last point within 6 px of the first
   * is dropped, the rest goes through RDP, and a manual region with colour
   * `#MANUAL` and pixel area 0 is appended to the frame's regions.
   */
  method FinishManual(hasData: bool, regions: seq<Region>, drawing: seq<Pt>, eps: real)
    returns (regions': seq<Region>)
    ensures !hasData || |drawing| < 3 ==> regions' == regions
    ensures hasData && |drawing| >= 3 ==>
      var pts := if Dist2(drawing[|drawing| - 1], drawing[0]) < 36.0 then drawing[..|drawing| - 1] else drawing;
      |regions'| == |regions| + 1 && regions'[..|regions|] == regions
      && regions'[|regions|].color == "#MANUAL" && regions'[|regions|].pixelArea == 0 && regions'[|regions|].manual
      && regions'[|regions|].points == RdpKept(pts, eps) && KeepsEnds(regions'[|regions|].points, pts)
  {
    if !hasData || |drawing| < 3 {
      return regions;
    }
    var pts := if Dist2(drawing[|drawing| - 1], drawing[0]) < 36.0 then drawing[..|drawing| - 1] else drawing;
    var simp := IterativeRdp(pts, eps);
    regions' := regions + [Region("#MANUAL", simp, 0, true)];
  }
}
