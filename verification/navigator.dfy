/**
 * The frame navigator hook (useFrameNavigator.ts): the frames a user may
 * step through (all frames, or those inside an inclusive range), an index
 * into them moved by `prev` and `next`, and the frame at that index.
 */
module Navigator {
  import opened Wrappers
  import opened Seqs

  /** An inclusive frame range `{ from, to }`. */
  datatype Range = Range(from: int, to: int)

  predicate InRange(f: int, range: Range) {
    range.from <= f <= range.to
  }

  /** `allFrames.filter(f => f >= from && f <= to)`. */
  function Filter(s: seq<int>, range: Range): (r: seq<int>)
    ensures |r| <= |s|
    ensures forall f :: multiset(r)[f] == if InRange(f, range) then multiset(s)[f] else 0
  {
    if |s| == 0 then [] else
      var r := Filter(s[..|s| - 1], range) + (if InRange(s[|s| - 1], range) then [s[|s| - 1]] else []);
      assert s == s[..|s| - 1] + [s[|s| - 1]];
      r
  }

  /** The filter keeps the frames it keeps in their original order. */
  lemma {:induction false} FilterOrdered(s: seq<int>, range: Range) returns (idx: seq<int>)
    ensures SubseqAt(Filter(s, range), s, idx)
  {
    if |s| == 0 {
      idx := [];
    } else {
      var init := s[..|s| - 1];
      var pre := FilterOrdered(init, range);
      SubseqExtend(Filter(init, range), init, pre, s);
      var last := |s| - 1;
      if InRange(s[last], range) {
        idx := pre + [last];
        SubseqSnoc(Filter(init, range), s, pre);
        assert Filter(s, range) == Filter(init, range) + [s[last]];
      } else {
        idx := pre;
        assert Filter(s, range) == Filter(init, range) + [];
      }
    }
  }

  /** A subsequence of a prefix is a subsequence of the whole. */
  lemma SubseqExtend(out: seq<int>, init: seq<int>, idx: seq<int>, s: seq<int>)
    requires SubseqAt(out, init, idx) && init <= s
    ensures SubseqAt(out, s, idx)
  {
    forall k | 0 <= k < |idx|
      ensures 0 <= idx[k] < |s| && out[k] == s[idx[k]]
    {
      assert s[idx[k]] == init[idx[k]];
    }
  }

  /** Appending the last element of s keeps a subsequence of s[..|s| - 1] a subsequence. */
  lemma SubseqSnoc(out: seq<int>, s: seq<int>, idx: seq<int>)
    requires |s| > 0 && SubseqAt(out, s, idx) && forall k :: 0 <= k < |idx| ==> idx[k] < |s| - 1
    ensures SubseqAt(out + [s[|s| - 1]], s, idx + [|s| - 1])
  {
    var o, i := out + [s[|s| - 1]], idx + [|s| - 1];
    forall k | 0 <= k < |i|
      ensures 0 <= i[k] < |s| && o[k] == s[i[k]]
    {
      if k < |idx| {
        assert i[k] == idx[k] && o[k] == out[k];
      }
    }
    forall k | 0 < k < |i|
      ensures i[k - 1] < i[k]
    {
      if k < |idx| {
        assert i[k - 1] == idx[k - 1] && i[k] == idx[k];
      }
    }
  }

  /**
   * The `allowed` list: empty for no frames, every frame when there is no
   * range, else the frames inside the range, with their multiplicities.
   */
  function Allowed(allFrames: seq<int>, range: Option<Range>): (allowed: seq<int>)
    ensures range.None? ==> allowed == allFrames
    ensures range.Some? ==> forall f :: f in allowed <==> f in allFrames && InRange(f, range.value)
    ensures range.Some? ==> forall f :: multiset(allowed)[f] == if InRange(f, range.value) then multiset(allFrames)[f] else 0
  {
    if |allFrames| == 0 then [] else if range.None? then allFrames else Filter(allFrames, range.value)
  }

  /** `allowed[idx] ?? null`: the frame at idx, or none when idx is outside the list. */
  function FrameAt(allowed: seq<int>, idx: int): (frame: Option<int>)
    ensures frame.Some? <==> 0 <= idx < |allowed|
    ensures frame.Some? ==> frame.value in allowed
  {
    if 0 <= idx < |allowed| then Some(allowed[idx]) else None
  }

  /** `prev`: one step back, except at the first position. */
  function Prev(idx: int): (i: int)
    ensures idx > 0 ==> i == idx - 1
    ensures idx <= 0 ==> i == idx
  {
    if idx > 0 then idx - 1 else idx
  }

  /** `next`: one step forward, except at the last position. */
  function Next(idx: int, count: nat): (i: int)
    ensures idx < count - 1 ==> i == idx + 1
    ensures idx >= count - 1 ==> i == idx
  {
    if idx < count - 1 then idx + 1 else idx
  }

  /** The navigator state: the allowed frames and the current index. */
  datatype Nav = Nav(allowed: seq<int>, idx: int)

  /** The user actions: a step back, a step forward, or a new `allowed` list (new frames or a new range). */
  datatype Action = Back | Forward | Allow(allowed: seq<int>)

  /** The initial state: `useState(0)`. */
  function Init(allowed: seq<int>): (n: Nav)
    ensures n.allowed == allowed && n.idx == 0
  {
    Nav(allowed, 0)
  }

  /**
   * One action. A new list of a different length resets the index to 0
   * (the effect on `allowed.length`); one of the same length keeps it.
   */
  function Step(n: Nav, a: Action): (n': Nav)
    ensures a.Allow? ==> n'.allowed == a.allowed
    ensures a.Allow? && |a.allowed| != |n.allowed| ==> n'.idx == 0
    ensures !a.Allow? ==> n'.allowed == n.allowed
  {
    match a
    case Back => n.(idx := Prev(n.idx))
    case Forward => n.(idx := Next(n.idx, |n.allowed|))
    case Allow(allowed) => if |allowed| != |n.allowed| then Nav(allowed, 0) else n.(allowed := allowed)
  }

  function Run(n: Nav, actions: seq<Action>): Nav
    decreases |actions|
  {
    if |actions| == 0 then n else Run(Step(n, actions[0]), actions[1..])
  }

  /** The index lies in [0, max(0, count - 1)]. */
  predicate Valid(n: Nav) {
    0 <= n.idx && (n.idx < |n.allowed| || n.idx == 0)
  }

  /** `count` is `allowed.length`; the current frame is there exactly when the list is non-empty. */
  lemma ValidFrame(n: Nav)
    requires Valid(n)
    ensures FrameAt(n.allowed, n.idx).Some? <==> |n.allowed| > 0
  {
  }

  /** Every action keeps the index in range. */
  lemma StepValid(n: Nav, a: Action)
    requires Valid(n)
    ensures Valid(Step(n, a))
  {
  }

  /** Starting at 0, any sequence of actions keeps the index in range, so a non-empty list always shows a frame. */
  lemma {:induction false} RunValid(n: Nav, actions: seq<Action>)
    requires Valid(n)
    ensures Valid(Run(n, actions))
    ensures |Run(n, actions).allowed| > 0 ==> FrameAt(Run(n, actions).allowed, Run(n, actions).idx).Some?
    decreases |actions|
  {
    if |actions| > 0 {
      StepValid(n, actions[0]);
      RunValid(Step(n, actions[0]), actions[1..]);
    }
  }

  /** `next` then `prev` returns to the same index whenever `next` moved. */
  lemma NextPrev(idx: int, count: nat)
    requires 0 <= idx < count - 1
    ensures Prev(Next(idx, count)) == idx
  {
  }

  /** `prev` then `next` returns to the same index whenever `prev` moved. */
  lemma PrevNext(idx: int, count: nat)
    requires 0 < idx < count
    ensures Next(Prev(idx), count) == idx
  {
  }
}
