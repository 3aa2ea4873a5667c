/**
 * The three Ramer-Douglas-Peucker variants of the pipeline, on squared
 * distances: the iterative stack-and-keep version of the marching-squares
 * tools, the recursive clamped-segment version of wireHotspot.ts, and the
 * recursive version of geometry.ts together with its closed-polygon wrapper.
 *
 * Every `Math.hypot(dx, dy)` is the square root of `Dist2`; since both sides
 * of each comparison are lengths, `d > maxD` is decided on the squares and
 * `d > eps` by `Exceeds`.
 */
module Rdp {
  import opened Geometry
  import opened Seqs

  /** `sqrt(d2) > eps` for a squared length d2 (or the sentinel -1 of an empty scan). */
  predicate Exceeds(d2: real, eps: real) {
    eps < 0.0 || d2 > eps * eps
  }

  // ---------------------------------------------------------------------
  // Subsequences
  // ---------------------------------------------------------------------

  /** An order-preserving subsequence that keeps both end points of a non-empty P. */
  ghost predicate KeepsEnds(out: seq<Pt>, P: seq<Pt>) {
    exists idx :: SubseqAt(out, P, idx) && |idx| > 0 && idx[0] == 0 && idx[|idx| - 1] == |P| - 1
  }

  lemma IdentitySubseq(P: seq<Pt>)
    requires |P| > 0
    ensures KeepsEnds(P, P)
  {
    var idx := seq(|P|, k => k);
    assert SubseqAt(P, P, idx);
  }

  /** Adjacent indices increase, so all of them do. */
  lemma {:induction false} SubseqIncreasing(out: seq<Pt>, P: seq<Pt>, idx: seq<int>, i: int, j: int)
    requires SubseqAt(out, P, idx) && 0 <= i < j < |idx|
    ensures idx[i] < idx[j]
    decreases j - i
  {
    if i + 1 < j {
      SubseqIncreasing(out, P, idx, i + 1, j);
    }
  }

  /** A subsequence of a subsequence is a subsequence. */
  lemma SubseqCompose(a: seq<Pt>, b: seq<Pt>, c: seq<Pt>, ia: seq<int>, ib: seq<int>) returns (ic: seq<int>)
    requires SubseqAt(a, b, ia) && SubseqAt(b, c, ib)
    ensures SubseqAt(a, c, ic)
    ensures |ia| > 0 && ia[0] == 0 && |ib| > 0 ==> ic[0] == ib[0]
  {
    ic := seq(|ia|, k requires 0 <= k < |ia| => ib[ia[k]]);
    forall k | 0 < k < |ic|
      ensures ic[k - 1] < ic[k]
    {
      SubseqIncreasing(b, c, ib, ia[k - 1], ia[k]);
    }
  }

  function Shift(idx: seq<int>, m: int): (r: seq<int>)
    ensures |r| == |idx| && forall k :: 0 <= k < |idx| ==> r[k] == idx[k] + m
  {
    seq(|idx|, k requires 0 <= k < |idx| => idx[k] + m)
  }

  /**
   * Gluing the two halves of a split at m: the left result minus its last
   * point (which is P[m]) followed by the right result.
   */
  lemma GlueSubseq(P: seq<Pt>, m: nat, L: seq<Pt>, iL: seq<int>, R: seq<Pt>, iR: seq<int>)
    requires m < |P|
    requires SubseqAt(L, P[..m + 1], iL) && |iL| > 0 && iL[|iL| - 1] == m
    requires SubseqAt(R, P[m..], iR) && |iR| > 0 && iR[0] == 0
    ensures SubseqAt(L[..|L| - 1] + R, P, iL[..|iL| - 1] + Shift(iR, m))
  {
    var out, idx := L[..|L| - 1] + R, iL[..|iL| - 1] + Shift(iR, m);
    forall k | 0 <= k < |idx|
      ensures 0 <= idx[k] < |P| && out[k] == P[idx[k]]
    {
      if k < |iL| - 1 {
        assert out[k] == L[k];
      } else {
        assert out[k] == R[k - (|iL| - 1)];
      }
    }
    forall k | 0 < k < |idx|
      ensures idx[k - 1] < idx[k]
    {
      if k == |iL| - 1 {
        assert iL[k - 1] < iL[k];
      }
    }
  }

  // ---------------------------------------------------------------------
  // Distances and the farthest-point scan
  // ---------------------------------------------------------------------

  /** Squared distance from p to its foot on the infinite line a b (marching-squares tools). */
  function PerpDist2(a: Pt, b: Pt, p: Pt): (d: real)
    ensures d >= 0.0
  {
    var t := LineParam(p, a, b);
    Dist2Nonneg(p, Pt(a.x + t * (b.x - a.x), a.y + t * (b.y - a.y)));
    Dist2(p, Pt(a.x + t * (b.x - a.x), a.y + t * (b.y - a.y)))
  }

  /** Squared distance from c to segment a b, `t = lenSq ? clamp(dot / lenSq, 0, 1) : 0` (wireHotspot.ts). */
  function SegDist2(a: Pt, b: Pt, c: Pt): (d: real)
    ensures d >= 0.0
  {
    var C, D := b.x - a.x, b.y - a.y;
    var lenSq := C * C + D * D;
    var t := if lenSq == 0.0 then 0.0 else Clamp(((c.x - a.x) * C + (c.y - a.y) * D) / lenSq, 0.0, 1.0);
    Dist2Nonneg(c, Pt(a.x + C * t, a.y + D * t));
    Dist2(c, Pt(a.x + C * t, a.y + D * t))
  }

  /** Squared distance to the line through a b with `den = dx*dx + dy*dy || 1` (geometry.ts). */
  function LineDist2(a: Pt, b: Pt, p: Pt): (d: real)
    ensures d >= 0.0
  {
    var dx, dy := b.x - a.x, b.y - a.y;
    var den := if dx * dx + dy * dy == 0.0 then 1.0 else dx * dx + dy * dy;
    var t := ((p.x - a.x) * dx + (p.y - a.y) * dy) / den;
    Dist2Nonneg(Pt(a.x + t * dx, a.y + t * dy), p);
    Dist2(Pt(a.x + t * dx, a.y + t * dy), p)
  }

  /**
   * The scan `for (i = lo; i < hi; i++) if (d(P[i]) > maxD) { maxD = d; maxI = i }`
   * from the running pair (maxD, maxI): the first strict maximum wins.
   */
  function Farthest(P: seq<Pt>, lo: nat, hi: nat, d: Pt -> real, maxD: real, maxI: int): (r: (real, int))
    requires lo <= hi <= |P|
    ensures r.0 >= maxD
    ensures (r.0 == maxD && r.1 == maxI) || (lo <= r.1 < hi && r.0 == d(P[r.1]) && r.0 > maxD)
    ensures forall k :: lo <= k < hi ==> d(P[k]) <= r.0
    ensures lo <= r.1 < hi && r.1 != maxI ==> forall k :: lo <= k < r.1 ==> d(P[k]) < r.0
    decreases hi - lo
  {
    if lo == hi then (maxD, maxI)
    else if d(P[lo]) > maxD then Farthest(P, lo + 1, hi, d, d(P[lo]), lo)
    else Farthest(P, lo + 1, hi, d, maxD, maxI)
  }

  // ---------------------------------------------------------------------
  // Iterative RDP (HotspotStudioAdvanced.tsx, v2, v3)
  // ---------------------------------------------------------------------

  /** Sum over the stack of 2 * (e - s) - 1: splitting a range lowers it by one, dropping one lowers it more. */
  function StackMeasure(stack: seq<(nat, nat)>): int {
    if |stack| == 0 then 0
    else StackMeasure(stack[..|stack| - 1]) + 2 * (stack[|stack| - 1].1 as int - stack[|stack| - 1].0) - 1
  }

  lemma {:induction false} StackMeasurePositive(stack: seq<(nat, nat)>)
    requires forall k :: 0 <= k < |stack| ==> stack[k].0 < stack[k].1
    ensures StackMeasure(stack) >= |stack|
  {
    if |stack| > 0 {
      StackMeasurePositive(stack[..|stack| - 1]);
    }
  }

  lemma SplitLowersMeasure(stack: seq<(nat, nat)>, s: nat, m: nat, e: nat)
    requires s < m < e
    ensures StackMeasure(stack + [(s, m), (m, e)]) == StackMeasure(stack) + 2 * (e - s) - 2
  {
    assert (stack + [(s, m), (m, e)])[..|stack| + 1] == stack + [(s, m)];
    assert (stack + [(s, m)])[..|stack|] == stack;
  }

  predicate OnlyEnds(keep: seq<bool>) {
    forall i :: 0 <= i < |keep| ==> (keep[i] <==> i == 0 || i == |keep| - 1)
  }

  /** No interior point lies farther than eps from the line through the first and last point. */
  predicate AllNear(P: seq<Pt>, eps: real)
    requires |P| > 0
  {
    forall i :: 0 < i < |P| - 1 ==> !Exceeds(PerpDist2(P[0], P[|P| - 1], P[i]), eps)
  }

  /** The chord test of range (s, e): the farthest interior point from the line P[s] P[e], from the sentinel (-1, -1). */
  function ChordFarthest(P: seq<Pt>, s: nat, e: nat): (r: (real, int))
    requires s < e < |P|
    ensures r == (-1.0, -1) || (s < r.1 < e && r.0 == PerpDist2(P[s], P[e], P[r.1]))
    ensures forall k :: s < k < e ==> PerpDist2(P[s], P[e], P[k]) <= r.0
  {
    Farthest(P, s + 1, e, p => PerpDist2(P[s], P[e], p), -1.0, -1)
  }

  /** The index the chord test of range (s, e) splits at, or -1 when the farthest point is within eps. */
  function ChordSplit(P: seq<Pt>, eps: real, s: nat, e: nat): (m: int)
    requires s < e < |P|
    ensures m == -1 || s < m < e
  {
    var c := ChordFarthest(P, s, e);
    if Exceeds(c.0, eps) && s < c.1 < e then c.1 else -1
  }

  /** The chord test of every range of P, as one choice function. */
  function Chooser(P: seq<Pt>, eps: real): (nat, nat) -> int {
    (a: nat, b: nat) => if a < b < |P| then ChordSplit(P, eps, a, b) else -1
  }

  /**
   * The recursion the splitting phase carries out, for any choice of split
   * index: the interior points of (s, e) it keeps are the chosen point and
   * the kept points of the two halves it splits into.
   */
  function SplitsBy(split: (nat, nat) -> int, s: nat, e: nat): set<int>
    decreases e - s
  {
    var m := split(s, e);
    if s < m < e then {m} + SplitsBy(split, s, m) + SplitsBy(split, m, e) else {}
  }

  /** The split points of `rdp`'s recursion inside (s, e). */
  function Splits(P: seq<Pt>, s: nat, e: nat, eps: real): set<int> {
    SplitsBy(Chooser(P, eps), s, e)
  }

  /** The flags a recursion over n points sets: both ends and every split point. */
  function FlagsBy(split: (nat, nat) -> int, n: nat): (keep: seq<bool>)
    requires n >= 2
    ensures |keep| == n
  {
    seq(n, i => i == 0 || i == n - 1 || i in SplitsBy(split, 0, n - 1))
  }

  /** The flags `rdp`'s recursion sets. */
  function KeptFlags(P: seq<Pt>, eps: real): (keep: seq<bool>)
    requires |P| >= 2
    ensures |keep| == |P|
  {
    FlagsBy(Chooser(P, eps), |P|)
  }

  /** The points whose flag is set, in their original order. */
  function Select(P: seq<Pt>, keep: seq<bool>): (out: seq<Pt>)
    requires |keep| == |P|
    ensures |out| <= |P|
  {
    if |P| == 0 then []
    else Select(P[..|P| - 1], keep[..|P| - 1]) + (if keep[|P| - 1] then [P[|P| - 1]] else [])
  }

  /**
   * `rdp` of the marching-squares tools as a recursive definition: a copy
   * for no points, eps <= 0 or at most two points; otherwise both ends and
   * the split points of the recursion, in order.
   */
  function RdpKept(P: seq<Pt>, eps: real): seq<Pt> {
    if |P| == 0 || eps <= 0.0 || |P| <= 2 then P else Select(P, KeptFlags(P, eps))
  }

  /** When no interior point is more than eps from the chord, the recursion splits nothing. */
  lemma NoSplits(P: seq<Pt>, eps: real)
    requires |P| > 2 && eps > 0.0 && AllNear(P, eps)
    ensures Splits(P, 0, |P| - 1, eps) == {}
  {
    var r := ChordFarthest(P, 0, |P| - 1);
    assert eps * eps >= 0.0;
    if r != (-1.0, -1) {
      assert !Exceeds(PerpDist2(P[0], P[|P| - 1], P[r.1]), eps);
    }
    assert Chooser(P, eps)(0, |P| - 1) == -1;
  }

  /** The split points still to be found in the ranges on the stack. */
  function Pending(split: (nat, nat) -> int, stack: seq<(nat, nat)>): set<int> {
    if |stack| == 0 then {}
    else Pending(split, stack[..|stack| - 1]) + SplitsBy(split, stack[|stack| - 1].0, stack[|stack| - 1].1)
  }

  /** The indices whose flag is set. */
  function KeptSet(keep: seq<bool>): set<int> {
    set i | 0 <= i < |keep| && keep[i]
  }

  /**
   * The loop invariant of the splitting phase over n points: every flag set
   * so far is an end or a split point of the recursion, and every split
   * point of the recursion is either set or still pending on the stack.
   */
  ghost predicate StackInv(split: (nat, nat) -> int, n: nat, keep: seq<bool>, stack: seq<(nat, nat)>) {
    |keep| == n >= 2 && keep[0] && keep[n - 1]
    && (forall k :: 0 <= k < |stack| ==> stack[k].0 < stack[k].1 < n)
    && KeptSet(keep) <= {0, n - 1} + SplitsBy(split, 0, n - 1)
    && Pending(split, stack) <= SplitsBy(split, 0, n - 1)
    && SplitsBy(split, 0, n - 1) <= KeptSet(keep) + Pending(split, stack)
  }

  /** Splitting the popped range (s, e) at its chosen point m, marking m and pushing both halves, keeps the invariant. */
  lemma StackSplit(split: (nat, nat) -> int, n: nat, keep: seq<bool>, stack: seq<(nat, nat)>, s: nat, e: nat)
    requires StackInv(split, n, keep, stack + [(s, e)]) && s < split(s, e) < e
    ensures StackInv(split, n, keep[split(s, e) := true], stack + [(s, split(s, e)), (split(s, e), e)])
  {
    var m := split(s, e);
    var old_ := stack + [(s, e)];
    var new_ := stack + [(s, m), (m, e)];
    assert old_[..|stack|] == stack && old_[|stack|] == (s, e);
    assert new_[..|stack| + 1] == stack + [(s, m)] && new_[|stack| + 1] == (m, e);
    assert (stack + [(s, m)])[..|stack|] == stack;
    assert Pending(split, old_) == Pending(split, stack) + SplitsBy(split, s, e);
    assert Pending(split, new_) == Pending(split, stack) + SplitsBy(split, s, m) + SplitsBy(split, m, e);
    assert KeptSet(keep[m := true]) == KeptSet(keep) + {m};
  }

  /** Dropping a popped range whose chosen point is not inside it keeps the invariant. */
  lemma StackDrop(split: (nat, nat) -> int, n: nat, keep: seq<bool>, stack: seq<(nat, nat)>, s: nat, e: nat)
    requires StackInv(split, n, keep, stack + [(s, e)]) && !(s < split(s, e) < e)
    ensures StackInv(split, n, keep, stack)
  {
    var old_ := stack + [(s, e)];
    assert old_[..|stack|] == stack && old_[|stack|] == (s, e);
    assert Pending(split, old_) == Pending(split, stack);
  }

  /** Once the stack is empty, the flags are exactly the ends and the split points. */
  lemma StackDone(split: (nat, nat) -> int, n: nat, keep: seq<bool>)
    requires StackInv(split, n, keep, [])
    ensures keep == FlagsBy(split, n)
  {
    forall i | 0 <= i < n
      ensures keep[i] == FlagsBy(split, n)[i]
    {
      assert keep[i] <==> i in KeptSet(keep);
    }
  }

  /**
   * One turn of the splitting loop: the last range (s, e) is popped, and
   * when its farthest interior point (first maximum, from the sentinel -1)
   * lies more than eps from the chord, that point is marked kept and the
   * ranges (s, maxI), (maxI, e) are pushed.
   */
  method PopRange(points: seq<Pt>, eps: real, keep: seq<bool>, stack: seq<(nat, nat)>)
    returns (keep': seq<bool>, stack': seq<(nat, nat)>)
    requires eps > 0.0 && |stack| > 0 && StackInv(Chooser(points, eps), |points|, keep, stack)
    ensures StackInv(Chooser(points, eps), |points|, keep', stack')
    ensures 0 <= StackMeasure(stack') < StackMeasure(stack)
  {
    ghost var split := Chooser(points, eps);
    var top := stack[|stack| - 1];
    var s, e := top.0, top.1;
    stack' := stack[..|stack| - 1];
    assert stack == stack' + [(s, e)];
    var r := ChordFarthest(points, s, e);
    var maxD, maxI := r.0, r.1;
    assert eps * eps >= 0.0;
    if Exceeds(maxD, eps) {
      assert s < maxI < e && split(s, e) == maxI;
      StackSplit(split, |points|, keep, stack', s, e);
      keep' := keep[maxI := true];
      SplitLowersMeasure(stack', s, maxI, e);
      stack' := stack' + [(s, maxI), (maxI, e)];
    } else {
      assert split(s, e) == -1;
      StackDrop(split, |points|, keep, stack', s, e);
      keep' := keep;
    }
    StackMeasurePositive(stack');
  }

  /**
   * The splitting phase of `rdp`: starting from the whole range with both
   * ends kept, ranges are popped from the end of the stack until it is
   * empty. The flags it leaves are those of the recursion, whatever order
   * the stack visits the ranges in.
   */
  method MarkKept(points: seq<Pt>, eps: real) returns (keep: seq<bool>)
    requires |points| > 2 && eps > 0.0
    ensures keep == KeptFlags(points, eps)
    ensures |keep| == |points| && keep[0] && keep[|points| - 1]
    ensures AllNear(points, eps) ==> OnlyEnds(keep)
  {
    var n := |points|;
    var stack: seq<(nat, nat)> := [(0, n - 1)];
    keep := seq(n, i => i == 0 || i == n - 1);
    assert StackInv(Chooser(points, eps), n, keep, stack) by {
      assert stack[..0] == [];
      assert KeptSet(keep) == {0, n - 1};
    }
    while |stack| > 0
      invariant StackInv(Chooser(points, eps), n, keep, stack)
      decreases StackMeasure(stack)
    {
      keep, stack := PopRange(points, eps, keep, stack);
    }
    StackDone(Chooser(points, eps), n, keep);
    if AllNear(points, eps) {
      NoSplits(points, eps);
    }
  }


  /**
   * The selection is an order-preserving subsequence of P; it starts at
   * P[0] when that flag is set and ends at the last point when that flag is.
   */
  lemma {:induction false} SelectSubseq(P: seq<Pt>, keep: seq<bool>) returns (idx: seq<int>)
    requires |keep| == |P|
    ensures SubseqAt(Select(P, keep), P, idx)
    ensures |P| > 0 && keep[0] ==> |idx| > 0 && idx[0] == 0
    ensures |P| > 0 && keep[|P| - 1] ==> |idx| > 0 && idx[|idx| - 1] == |P| - 1
  {
    if |P| == 0 {
      idx := [];
    } else {
      var n := |P|;
      var init, flags := P[..n - 1], keep[..n - 1];
      var pre := SelectSubseq(init, flags);
      var S := Select(init, flags);
      forall k | 0 <= k < |pre|
        ensures pre[k] < n - 1 && S[k] == P[pre[k]]
      {
      }
      if keep[n - 1] {
        idx := pre + [n - 1];
        assert Select(P, keep) == S + [P[n - 1]];
      } else {
        idx := pre;
        assert Select(P, keep) == S;
      }
      if keep[0] && n > 1 {
        assert flags[0];
      }
    }
  }

  /** With only the first flag set, the selection is the first point. */
  lemma {:induction false} SelectFirst(P: seq<Pt>, keep: seq<bool>)
    requires |keep| == |P| > 0 && forall i :: 0 <= i < |keep| ==> (keep[i] <==> i == 0)
    ensures Select(P, keep) == [P[0]]
  {
    if |P| > 1 {
      SelectFirst(P[..|P| - 1], keep[..|P| - 1]);
    }
  }

  /** With only the two end flags set, the selection is the two end points. */
  lemma SelectOnlyEnds(P: seq<Pt>, keep: seq<bool>)
    requires |keep| == |P| > 1 && OnlyEnds(keep)
    ensures Select(P, keep) == [P[0], P[|P| - 1]]
  {
    SelectFirst(P[..|P| - 1], keep[..|P| - 1]);
  }

  /** Extending the prefix by one point extends the selection by that point when its flag is set. */
  lemma SelectSnoc(P: seq<Pt>, keep: seq<bool>, i: nat)
    requires |keep| == |P| && i < |P|
    ensures Select(P[..i + 1], keep[..i + 1]) == Select(P[..i], keep[..i]) + (if keep[i] then [P[i]] else [])
  {
    assert P[..i + 1][..i] == P[..i] && keep[..i + 1][..i] == keep[..i];
  }

  /** The emitting phase of `rdp`: the kept points, in their original order. */
  method EmitKept(points: seq<Pt>, keep: seq<bool>) returns (out: seq<Pt>)
    requires |keep| == |points| > 0 && keep[0] && keep[|points| - 1]
    ensures KeepsEnds(out, points)
    ensures out == Select(points, keep)
    ensures OnlyEnds(keep) && |points| > 1 ==> out == [points[0], points[|points| - 1]]
  {
    var n := |points|;
    out := [];
    for i := 0 to n
      invariant out == Select(points[..i], keep[..i])
    {
      SelectSnoc(points, keep, i);
      if keep[i] {
        out := out + [points[i]];
      }
    }
    assert points[..n] == points && keep[..n] == keep;
    ghost var idx := SelectSubseq(points, keep);
    if OnlyEnds(keep) && n > 1 {
      SelectOnlyEnds(points, keep);
    }
  }

  /**
   * `rdp` of the marching-squares tools: an exact copy when there are no
   * points, eps <= 0 or at most two points; otherwise the points the
   * splitting phase keeps, in order.
   */
  method IterativeRdp(points: seq<Pt>, eps: real) returns (out: seq<Pt>)
    ensures out == RdpKept(points, eps)
    ensures |points| == 0 || eps <= 0.0 || |points| <= 2 ==> out == points
    ensures |points| > 0 ==> KeepsEnds(out, points)
    ensures |points| > 2 && eps > 0.0 && AllNear(points, eps) ==> out == [points[0], points[|points| - 1]]
  {
    if |points| == 0 || eps <= 0.0 || |points| <= 2 {
      if |points| > 0 {
        IdentitySubseq(points);
      }
      return points;
    }
    var keep := MarkKept(points, eps);
    out := EmitKept(points, keep);
  }

  // ---------------------------------------------------------------------
  // Recursive RDP of wireHotspot.ts
  // ---------------------------------------------------------------------

  /** The farthest interior point from the clamped segment P[0] P[n-1], from (0, -1). */
  function WireFarthest(P: seq<Pt>): (r: (real, int))
    requires |P| >= 2
    ensures r.1 == -1 || 1 <= r.1 <= |P| - 2
    ensures r.0 >= 0.0
  {
    Farthest(P, 1, |P| - 1, c => SegDist2(P[0], P[|P| - 1], c), 0.0, -1)
  }

  /** `arr.slice(0, -1)`: everything but the last element, and nothing for an empty array. */
  function DropLast(s: seq<Pt>): (r: seq<Pt>)
    ensures |s| > 0 ==> r + [s[|s| - 1]] == s
    ensures |s| == 0 ==> r == []
  {
    if |s| == 0 then [] else s[..|s| - 1]
  }

  /** `arr.slice(i)` for -|arr| <= i <= |arr|: a negative start counts from the end. */
  function SliceFrom(s: seq<Pt>, i: int): (r: seq<Pt>)
    requires -|s| <= i <= |s|
    ensures 0 <= i ==> |r| == |s| - i && forall k :: 0 <= k < |r| ==> r[k] == s[i + k]
    ensures i < 0 ==> |r| == -i && forall k :: 0 <= k < |r| ==> r[k] == s[|s| + i + k]
  {
    if i < 0 then s[|s| + i..] else s[i..]
  }

  /**
   * `rdp` of wireHotspot.ts: fewer than three points come back unchanged;
   * otherwise the farthest interior point (from the clamped segment) splits
   * the polyline when it lies more than eps away, else only the two ends
   * remain. With eps < 0 and every distance 0 the split index stays -1, so
   * the halves are `slice(0, 0)` and `slice(-1)`.
   */
  function WireRdp(P: seq<Pt>, eps: real): (r: seq<Pt>)
    ensures |P| < 3 ==> r == P
    ensures |P| > 0 ==> |r| > 0 && r[|r| - 1] == P[|P| - 1]
    decreases |P|
  {
    if |P| < 3 then P
    else
      var f := WireFarthest(P);
      if Exceeds(f.0, eps) then
        var idx := f.1;
        var left := WireRdp(P[..idx + 1], eps);
        var right := WireRdp(SliceFrom(P, idx), eps);
        DropLast(left) + right
      else [P[0], P[|P| - 1]]
  }

  /** With eps >= 0 the result keeps both ends and is an order-preserving subsequence. */
  lemma {:induction false} WireRdpKeepsEnds(P: seq<Pt>, eps: real) returns (idx: seq<int>)
    requires |P| > 0 && eps >= 0.0
    ensures SubseqAt(WireRdp(P, eps), P, idx)
    ensures |idx| > 0 && idx[0] == 0 && idx[|idx| - 1] == |P| - 1
    decreases |P|
  {
    if |P| < 3 || !Exceeds(WireFarthest(P).0, eps) {
      idx := WireRdpNoSplit(P, eps);
    } else {
      WireRdpSplit(P, eps);
      var m := WireFarthest(P).1;
      var iL := WireRdpKeepsEnds(P[..m + 1], eps);
      var iR := WireRdpKeepsEnds(P[m..], eps);
      GlueSubseq(P, m, WireRdp(P[..m + 1], eps), iL, WireRdp(P[m..], eps), iR);
      idx := iL[..|iL| - 1] + Shift(iR, m);
    }
  }

  /** Without a split the result is the whole (short) polyline or its chord. */
  lemma WireRdpNoSplit(P: seq<Pt>, eps: real) returns (idx: seq<int>)
    requires |P| > 0
    requires |P| < 3 || !Exceeds(WireFarthest(P).0, eps)
    ensures SubseqAt(WireRdp(P, eps), P, idx)
    ensures |idx| > 0 && idx[0] == 0 && idx[|idx| - 1] == |P| - 1
  {
    if |P| < 3 {
      idx := seq(|P|, k => k);
    } else {
      assert WireRdp(P, eps) == [P[0], P[|P| - 1]];
      idx := [0, |P| - 1];
    }
  }

  /** A split keeps the left half without its last point, then the right half from the split point. */
  lemma WireRdpSplit(P: seq<Pt>, eps: real)
    requires |P| >= 3 && eps >= 0.0 && Exceeds(WireFarthest(P).0, eps)
    ensures 1 <= WireFarthest(P).1 <= |P| - 2
    ensures WireRdp(P, eps) == DropLast(WireRdp(P[..WireFarthest(P).1 + 1], eps)) + WireRdp(P[WireFarthest(P).1..], eps)
  {
    assert WireFarthest(P).1 != -1;
    assert SliceFrom(P, WireFarthest(P).1) == P[WireFarthest(P).1..];
  }

  /** When nothing lies farther than eps from the chord, only the chord remains. */
  lemma WireRdpAllNear(P: seq<Pt>, eps: real)
    requires |P| >= 3
    requires forall i :: 0 < i < |P| - 1 ==> !Exceeds(SegDist2(P[0], P[|P| - 1], P[i]), eps)
    ensures WireRdp(P, eps) == [P[0], P[|P| - 1]]
  {
    var f := WireFarthest(P);
    if f.1 != -1 {
      assert !Exceeds(SegDist2(P[0], P[|P| - 1], P[f.1]), eps);
    } else {
      assert f.0 == 0.0;
      assert !Exceeds(0.0, eps) by {
        assert eps >= 0.0 by {
          assert !Exceeds(SegDist2(P[0], P[|P| - 1], P[1]), eps);
        }
      }
    }
  }

  /** With eps < 0 on a straight run the split index stays -1 and only the last point survives. */
  lemma WireRdpNegativeCollinear(P: seq<Pt>, eps: real)
    requires |P| >= 3 && eps < 0.0
    requires forall i :: 0 < i < |P| - 1 ==> SegDist2(P[0], P[|P| - 1], P[i]) == 0.0
    ensures WireRdp(P, eps) == [P[|P| - 1]]
  {
    var f := WireFarthest(P);
    assert f.1 == -1;
    assert WireRdp(P[..0], eps) == [];
    assert WireRdp(SliceFrom(P, -1), eps) == [P[|P| - 1]];
  }

  // ---------------------------------------------------------------------
  // Recursive RDP and rdpClosed of geometry.ts
  // ---------------------------------------------------------------------

  /** The farthest interior point from the line P[0] P[n-1], from (0, 0). */
  function LineFarthest(P: seq<Pt>): (r: (real, int))
    requires |P| >= 2
    ensures r.1 == 0 || 1 <= r.1 <= |P| - 2
    ensures r.0 >= 0.0
    ensures r.1 == 0 ==> r.0 == 0.0
  {
    Farthest(P, 1, |P| - 1, p => LineDist2(P[0], P[|P| - 1], p), 0.0, 0)
  }

  /**
   * `rdp` of geometry.ts: at most three points are copied; if nothing lies
   * more than tol from the chord, polylines of up to eight points are
   * copied and longer ones shrink to their two ends; otherwise the
   * polyline is split at the farthest point. Its only caller clamps tol to
   * be non-negative, which is also what makes the recursion end.
   */
  function LineRdp(P: seq<Pt>, tol: real): (r: seq<Pt>)
    requires tol >= 0.0
    ensures |P| <= 3 ==> r == P
    ensures |P| > 0 ==> |r| > 0 && r[0] == P[0] && r[|r| - 1] == P[|P| - 1]
    ensures |P| >= 2 ==> |r| >= 2
    decreases |P|
  {
    if |P| <= 3 then P
    else
      var f := LineFarthest(P);
      if !Exceeds(f.0, tol) then
        if |P| <= 8 then P else [P[0], P[|P| - 1]]
      else
        assert tol * tol >= 0.0;
        var idx := f.1;
        var left := LineRdp(P[..idx + 1], tol);
        var right := LineRdp(P[idx..], tol);
        assert left[0] == P[0] && right[|right| - 1] == P[|P| - 1];
        Join(left, right)
  }

  /** Two simplified halves sharing their middle point, the point kept once. */
  function Join(left: seq<Pt>, right: seq<Pt>): (r: seq<Pt>)
    requires |left| >= 2 && |right| >= 2
    ensures |r| == |left| + |right| - 1 >= 3
    ensures r[0] == left[0] && r[|r| - 1] == right[|right| - 1]
  {
    left[..|left| - 1] + right
  }

  /** A split happens strictly inside the polyline. */
  lemma LineRdpSplit(P: seq<Pt>, tol: real)
    requires |P| > 3 && tol >= 0.0 && Exceeds(LineFarthest(P).0, tol)
    ensures 1 <= LineFarthest(P).1 <= |P| - 2
    ensures LineRdp(P, tol) == Join(LineRdp(P[..LineFarthest(P).1 + 1], tol), LineRdp(P[LineFarthest(P).1..], tol))
  {
    SplitIndex(P, tol);
  }

  /** A farthest distance beyond a non-negative tol is positive, so it was found at an interior index. */
  lemma SplitIndex(P: seq<Pt>, tol: real)
    requires |P| > 3 && tol >= 0.0 && Exceeds(LineFarthest(P).0, tol)
    ensures 1 <= LineFarthest(P).1 <= |P| - 2
  {
    assert tol * tol >= 0.0;
  }

  lemma {:induction false} LineRdpKeepsEnds(P: seq<Pt>, tol: real) returns (idx: seq<int>)
    requires |P| > 0 && tol >= 0.0
    ensures SubseqAt(LineRdp(P, tol), P, idx)
    ensures |idx| > 0 && idx[0] == 0 && idx[|idx| - 1] == |P| - 1
    decreases |P|
  {
    if |P| <= 3 || !Exceeds(LineFarthest(P).0, tol) {
      idx := LineRdpNoSplit(P, tol);
    } else {
      LineRdpSplit(P, tol);
      var m := LineFarthest(P).1;
      var iL := LineRdpKeepsEnds(P[..m + 1], tol);
      var iR := LineRdpKeepsEnds(P[m..], tol);
      GlueSubseq(P, m, LineRdp(P[..m + 1], tol), iL, LineRdp(P[m..], tol), iR);
      idx := iL[..|iL| - 1] + Shift(iR, m);
    }
  }

  /** Without a split the result is the whole polyline or its chord. */
  lemma LineRdpNoSplit(P: seq<Pt>, tol: real) returns (idx: seq<int>)
    requires |P| > 0 && tol >= 0.0
    requires |P| <= 3 || !Exceeds(LineFarthest(P).0, tol)
    ensures SubseqAt(LineRdp(P, tol), P, idx)
    ensures |idx| > 0 && idx[0] == 0 && idx[|idx| - 1] == |P| - 1
  {
    if |P| <= 8 {
      assert LineRdp(P, tol) == P;
      idx := seq(|P|, k => k);
    } else {
      assert LineRdp(P, tol) == [P[0], P[|P| - 1]];
      idx := [0, |P| - 1];
    }
  }

  /**
   * Without a split, polylines of up to eight points come back whole, so a
   * small tolerance keeps their detail, and longer ones shrink to their ends.
   */
  lemma LineRdpUnsplit(P: seq<Pt>, tol: real)
    requires |P| > 3 && tol >= 0.0 && !Exceeds(LineFarthest(P).0, tol)
    ensures |P| <= 8 ==> LineRdp(P, tol) == P
    ensures |P| > 8 ==> LineRdp(P, tol) == [P[0], P[|P| - 1]]
  {
  }

  /** Nothing farther than tol from the chord: more than eight points shrink to the chord. */
  lemma LineRdpAllNear(P: seq<Pt>, tol: real)
    requires |P| > 8 && tol >= 0.0
    requires forall i :: 0 < i < |P| - 1 ==> !Exceeds(LineDist2(P[0], P[|P| - 1], P[i]), tol)
    ensures LineRdp(P, tol) == [P[0], P[|P| - 1]]
  {
    var f := LineFarthest(P);
    if f.1 != 0 {
      assert !Exceeds(LineDist2(P[0], P[|P| - 1], P[f.1]), tol);
    }
  }

  /**
   * Why the tolerance must not be negative: with tol < 0 on a straight run
   * no point beats the initial maxD of 0, the split index stays 0, the
   * test `maxD <= tol` fails, and the right half `slice(0)` is the whole
   * input again, so the recursion would never end.
   */
  lemma LineRdpNegativeRepeats(P: seq<Pt>, tol: real)
    requires |P| > 3 && tol < 0.0
    requires forall i :: 0 < i < |P| - 1 ==> LineDist2(P[0], P[|P| - 1], P[i]) == 0.0
    ensures LineFarthest(P) == (0.0, 0) && Exceeds(LineFarthest(P).0, tol)
    ensures P[LineFarthest(P).1..] == P
  {
  }

  /** `tol < 0 ? 0 : tol`. */
  function NonNegative(tol: real): (t: real)
    ensures t >= 0.0 && (tol >= 0.0 ==> t == tol)
  {
    if tol < 0.0 then 0.0 else tol
  }

  /**
   * The ring without its closing copy: the last vertex is dropped exactly
   * when it lies closer than 1e-6 to the first (squared, 1e-12).
   */
  function OpenRing(P: seq<Pt>): (pts: seq<Pt>)
    requires |P| > 0
    ensures pts == P || pts == P[..|P| - 1]
    ensures |pts| == |P| - 1 <==> Dist2(P[0], P[|P| - 1]) < 0.000000000001
  {
    if Dist2(P[0], P[|P| - 1]) < 0.000000000001 then P[..|P| - 1] else P
  }

  /**
   * `rdpClosed`: fewer than three points are copied; tol is clamped at 0;
   * a closing vertex is dropped; the RDP result is used only if it still
   * has three points, otherwise the first three points of the open ring.
   */
  function RdpClosed(P: seq<Pt>, tol: real): (r: seq<Pt>)
    ensures |P| < 3 ==> r == P
    ensures |P| >= 3 ==> |r| >= 3 || r == P[..|P| - 1]
    ensures |P| >= 3 && |OpenRing(P)| >= 3 && |LineRdp(OpenRing(P), NonNegative(tol))| < 3 ==> r == OpenRing(P)[..3]
  {
    if |P| < 3 then P
    else
      var pts := OpenRing(P);
      if |pts| < 3 then pts
      else
        var res := LineRdp(pts, NonNegative(tol));
        if |res| >= 3 then res else pts[..3]
  }

  /** A negative tolerance simplifies exactly as tolerance 0. */
  lemma RdpClosedClampsTol(P: seq<Pt>, tol: real)
    requires tol < 0.0
    ensures RdpClosed(P, tol) == RdpClosed(P, 0.0)
  {
  }

  /** The ring rdpClosed returns is a subsequence of the input that starts at its first vertex. */
  lemma RdpClosedSubseq(P: seq<Pt>, tol: real) returns (idx: seq<int>)
    requires |P| >= 3
    ensures SubseqAt(RdpClosed(P, tol), P, idx)
    ensures idx[0] == 0
  {
    var pts := OpenRing(P);
    var ip := RdpClosedOpen(P, tol);
    var id := seq(|pts|, k => k);
    assert SubseqAt(pts, P, id);
    idx := SubseqCompose(RdpClosed(P, tol), pts, P, ip, id);
  }

  /** The result is a subsequence of the open ring, starting at its first vertex. */
  lemma RdpClosedOpen(P: seq<Pt>, tol: real) returns (idx: seq<int>)
    requires |P| >= 3
    ensures SubseqAt(RdpClosed(P, tol), OpenRing(P), idx)
    ensures |idx| > 0 && idx[0] == 0
  {
    var pts := OpenRing(P);
    if |pts| < 3 {
      idx := seq(|pts|, k => k);
    } else {
      var res := LineRdp(pts, NonNegative(tol));
      if |res| >= 3 {
        idx := LineRdpKeepsEnds(pts, NonNegative(tol));
      } else {
        idx := [0, 1, 2];
      }
    }
  }

  /**
   * A closing copy of the first vertex never comes back: for a closed
   * input the result is a subsequence of the input without its last vertex.
   */
  lemma RdpClosedDropsClosing(P: seq<Pt>, tol: real) returns (idx: seq<int>)
    requires |P| >= 3 && Dist2(P[0], P[|P| - 1]) < 0.000000000001
    ensures SubseqAt(RdpClosed(P, tol), P[..|P| - 1], idx)
    ensures idx[0] == 0
  {
    idx := RdpClosedOpen(P, tol);
  }

  /**
   * The three-point fallback is reached: an open ring of more than eight
   * points whose interior lies within tol of the chord from its first to its
   * last vertex shrinks to that chord, which is too short, so its first
   * three points come back.
   */
  lemma RdpClosedFallback(P: seq<Pt>, tol: real)
    requires |P| >= 3 && |OpenRing(P)| > 8
    requires var pts := OpenRing(P);
      forall i :: 0 < i < |pts| - 1 ==> !Exceeds(LineDist2(pts[0], pts[|pts| - 1], pts[i]), NonNegative(tol))
    ensures RdpClosed(P, tol) == OpenRing(P)[..3]
  {
    LineRdpAllNear(OpenRing(P), NonNegative(tol));
  }
}
