/**
 * `quantizeImageData` (quantize.ts): each RGB channel of an RGBA buffer is
 * floored to a multiple of a step derived from the level count, in
 * place, and the quantised colours are counted under the key `r-g-b`.
 */
module Quantize {
  import opened Colors
  import opened Ids

  /**
   * `Math.max(1, Math.floor(256 / levels))` for levels != 0: a negative
   * level count gives a negative quotient and so the step 1.
   */
  function Step(levels: int): (step: nat)
    requires levels != 0
    ensures step >= 1
    ensures levels > 0 && levels <= 256 ==> step == 256 / levels
  {
    if levels > 0 && 256 / levels >= 1 then 256 / levels else 1
  }

  /**
   * One quantised channel. With levels == 0 the step is Infinity and
   * `Math.floor(c / Infinity) * Infinity` is NaN, which the clamped byte
   * array stores as 0.
   */
  function Level(c: Byte, levels: int): (q: Byte)
    ensures q <= c
    ensures levels == 0 ==> q == 0
  {
    if levels == 0 then 0 else
      FloorFacts(c as nat, Step(levels));
      c / Step(levels) * Step(levels)
  }

  /** The level is the largest multiple of the step not above the channel. */
  lemma LevelIsFloor(c: Byte, levels: int)
    requires levels != 0
    ensures Level(c, levels) % Step(levels) == 0
    ensures c - Level(c, levels) < Step(levels)
  {
    FloorFacts(c as nat, Step(levels));
  }

  /** Quantising a quantised channel changes nothing. */
  lemma LevelIdempotent(c: Byte, levels: int)
    ensures Level(Level(c, levels), levels) == Level(c, levels)
  {
    if levels != 0 {
      var s := Step(levels);
      var q := c / s * s;
      assert q / s == c / s by {
        DivMultiple(c / s, s);
      }
    }
  }

  lemma MulLe(a: int, b: int, s: nat)
    requires a <= b
    ensures a * s <= b * s
  {
  }

  lemma DivMultiple(k: nat, s: nat)
    requires s >= 1
    ensures (k * s) / s == k && (k * s) % s == 0
  {
    var q, r := (k * s) / s, (k * s) % s;
    assert k * s == q * s + r;
    if q < k {
      MulLe(q + 1, k, s);
    } else if q > k {
      MulLe(k + 1, q, s);
    }
  }

  /** Flooring c to a multiple of s stays within s below c. */
  lemma FloorFacts(c: nat, s: nat)
    requires s >= 1
    ensures 0 <= c / s * s <= c && c - c / s * s < s && (c / s * s) % s == 0
  {
    DivMultiple(c / s, s);
  }

  /** The buffer is RGBA pixels: non-empty, with a length that is a multiple of 4. */
  predicate WellFormed(data: seq<Byte>) {
    |data| != 0 && |data| % 4 == 0
  }

  /** The buffer after quantising: every channel byte levelled, every alpha byte (index 3 mod 4) kept. */
  function Quantized(data: seq<Byte>, levels: int): (out: seq<Byte>)
    ensures |out| == |data|
  {
    seq(|data|, i requires 0 <= i < |data| => if i % 4 == 3 then data[i] else Level(data[i], levels))
  }

  /** The key `${r}-${g}-${b}` of a quantised colour, or `NaN-NaN-NaN` when the step is infinite. */
  function Key(r: Byte, g: Byte, b: Byte, levels: int): string {
    if levels == 0 then "NaN-NaN-NaN" else NatToString(r) + "-" + NatToString(g) + "-" + NatToString(b)
  }

  /** The key of pixel p (bytes 4p to 4p+3) of an already quantised buffer. */
  function PixelKey(q: seq<Byte>, p: nat, levels: int): string
    requires 4 * p + 3 < |q|
  {
    Key(q[4 * p], q[4 * p + 1], q[4 * p + 2], levels)
  }

  /** The keys of the first n pixels of a quantised buffer. */
  function Keys(q: seq<Byte>, n: nat, levels: int): (ks: seq<string>)
    requires 4 * n <= |q|
    ensures |ks| == n && forall p :: 0 <= p < n ==> ks[p] == PixelKey(q, p, levels)
  {
    seq(n, p requires 0 <= p < n => PixelKey(q, p, levels))
  }

  /** counts is the histogram of ks: a key is present exactly when it occurs, with its number of occurrences. */
  ghost predicate Histogram(counts: map<string, nat>, ks: multiset<string>) {
    forall k :: (k in counts <==> k in ks) && (k in counts ==> counts[k] == ks[k])
  }

  /**
   * `quantizeImageData`: a buffer that is empty or not a whole number of
   * pixels gives an empty map and is left as it is; otherwise every
   * channel is levelled in place, alpha is kept, and the map is the
   * histogram of the quantised keys, one per pixel, so its counts add up
   * to the number of pixels.
   */
  method QuantizeImageData(data: seq<Byte>, levels: int) returns (data': seq<Byte>, counts: map<string, nat>)
    ensures !WellFormed(data) ==> data' == data && counts == map[]
    ensures WellFormed(data) ==> data' == Quantized(data, levels)
    ensures WellFormed(data) ==> Histogram(counts, multiset(Keys(data', |data| / 4, levels)))
  {
    if |data| == 0 || |data| % 4 != 0 {
      return data, map[];
    }
    var n := |data| / 4;
    data', counts := QuantizeLoop(data, n, levels);
    AllDone(data, data', n, levels);
  }

  /** The pixel loop over the n pixels of a well-formed buffer. */
  method QuantizeLoop(data: seq<Byte>, n: nat, levels: int) returns (data': seq<Byte>, counts: map<string, nat>)
    requires 4 * n == |data|
    ensures Progress(data, data', counts, n, levels)
  {
    data', counts := data, map[];
    assert Keys(data', 0, levels) == [];
    var p := 0;
    while p < n
      invariant p <= n && Progress(data, data', counts, p, levels)
    {
      data', counts := CountPixel(data, data', counts, p, levels);
      p := p + 1;
    }
  }

  /** After p rounds: the first p pixels are levelled and counted. */
  ghost predicate Progress(data: seq<Byte>, cur: seq<Byte>, counts: map<string, nat>, p: nat, levels: int) {
    4 * p <= |data| && DoneUpTo(data, cur, p, levels) && Histogram(counts, multiset(Keys(cur, p, levels)))
  }

  /** One round of the loop: level pixel p in place and count its key. */
  method CountPixel(data: seq<Byte>, cur: seq<Byte>, counts: map<string, nat>, p: nat, levels: int)
    returns (next: seq<Byte>, counts': map<string, nat>)
    requires 4 * p + 3 < |data| && Progress(data, cur, counts, p, levels)
    ensures Progress(data, next, counts', p + 1, levels)
  {
    next := QuantizePixel(cur, p, levels);
    NextPixel(data, cur, next, p, levels);
    var key := PixelKey(next, p, levels);
    HistogramAdd(counts, multiset(Keys(cur, p, levels)), key);
    counts' := counts[key := if key in counts then counts[key] + 1 else 1];
    assert multiset(Keys(next, p + 1, levels)) == multiset(Keys(cur, p, levels)) + multiset{key};
  }

  lemma AllDone(data: seq<Byte>, cur: seq<Byte>, n: nat, levels: int)
    requires 4 * n == |data| && DoneUpTo(data, cur, n, levels)
    ensures cur == Quantized(data, levels)
  {
    assert forall i :: 0 <= i < |data| ==> cur[i] == Quantized(data, levels)[i];
  }

  /** The first p pixels of cur are quantised and the rest are still as in data. */
  ghost predicate DoneUpTo(data: seq<Byte>, cur: seq<Byte>, p: nat, levels: int) {
    |cur| == |data| &&
    forall i :: 0 <= i < |data| ==> cur[i] == if i < 4 * p then Quantized(data, levels)[i] else data[i]
  }

  /** Levels the three channels of pixel p in place. */
  method QuantizePixel(cur: seq<Byte>, p: nat, levels: int) returns (next: seq<Byte>)
    requires 4 * p + 3 < |cur|
    ensures |next| == |cur|
    ensures forall i :: 0 <= i < |cur| ==>
      next[i] == if 4 * p <= i < 4 * p + 3 then Level(cur[i], levels) else cur[i]
  {
    var i := 4 * p;
    next := cur[i := Level(cur[i], levels)][i + 1 := Level(cur[i + 1], levels)][i + 2 := Level(cur[i + 2], levels)];
  }

  lemma NextPixel(data: seq<Byte>, before: seq<Byte>, after: seq<Byte>, p: nat, levels: int)
    requires 4 * p + 3 < |data| && DoneUpTo(data, before, p, levels)
    requires |after| == |before|
    requires forall i :: 0 <= i < |before| ==>
      after[i] == if 4 * p <= i < 4 * p + 3 then Level(before[i], levels) else before[i]
    ensures DoneUpTo(data, after, p + 1, levels)
    ensures Keys(after, p + 1, levels) == Keys(before, p, levels) + [PixelKey(after, p, levels)]
    ensures Keys(after, p, levels) == Keys(before, p, levels)
  {
    forall i | 0 <= i < |data|
      ensures after[i] == if i < 4 * (p + 1) then Quantized(data, levels)[i] else data[i]
    {
      if 4 * p <= i < 4 * p + 3 {
        assert i % 4 != 3;
      } else if i == 4 * p + 3 {
        assert i % 4 == 3;
      }
    }
    assert Keys(after, p, levels) == Keys(before, p, levels);
  }

  lemma HistogramAdd(counts: map<string, nat>, ks: multiset<string>, key: string)
    requires Histogram(counts, ks)
    ensures Histogram(counts[key := if key in counts then counts[key] + 1 else 1], ks + multiset{key})
  {
  }

  /** Quantising twice with the same level count gives the same buffer as quantising once. */
  lemma QuantizedIdempotent(data: seq<Byte>, levels: int)
    ensures Quantized(Quantized(data, levels), levels) == Quantized(data, levels)
  {
    var q := Quantized(data, levels);
    forall i | 0 <= i < |data|
      ensures Quantized(q, levels)[i] == q[i]
    {
      if i % 4 != 3 {
        LevelIdempotent(data[i], levels);
      }
    }
  }

  /** Quantising keeps every alpha byte and never raises a channel. */
  lemma QuantizedKeepsAlpha(data: seq<Byte>, levels: int)
    ensures forall p :: 0 <= p && 4 * p + 3 < |data| ==> Quantized(data, levels)[4 * p + 3] == data[4 * p + 3]
    ensures forall i :: 0 <= i < |data| ==> Quantized(data, levels)[i] <= data[i]
  {
    forall p | 0 <= p && 4 * p + 3 < |data|
      ensures Quantized(data, levels)[4 * p + 3] == data[4 * p + 3]
    {
      assert (4 * p + 3) % 4 == 3;
    }
  }
}
