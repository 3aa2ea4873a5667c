/**
 * `morphClose1` of HotspotStudioAdvanced.tsx: a 1-pixel "closing" of a
 * w x h mask, done as a dilation pass into a copy followed by an
 * "erosion" pass back into the mask. Both passes look at the 3 x 3 block
 * around a pixel, the pixel itself included, so the second pass keeps
 * every pixel the first one set and the whole is a plain dilation.
 */
module Morph {
  import opened Grid

  /** Pixel (x, y) is inside the buffer and set. */
  predicate IsOn(g: seq<seq<int>>, x: int, y: int) {
    0 <= y < |g| && 0 <= x < |g[y]| && g[y][x] != 0
  }

  /** Some pixel of the in-bounds 3 x 3 block around (x, y), (x, y) included, is set. */
  predicate SetNear(g: seq<seq<int>>, x: int, y: int, w: int, h: int)
    requires IsGrid(g, w, h)
  {
    exists y', x' :: y - 1 <= y' <= y + 1 && x - 1 <= x' <= x + 1 && IsOn(g, x', y')
  }

  /** The dilation pass: an unset pixel with a set pixel in its block becomes 1; the rest is copied. */
  function DilatePass(mask: seq<seq<int>>, w: nat, h: nat): (tmp: seq<seq<int>>)
    requires IsGrid(mask, w, h)
    ensures IsGrid(tmp, w, h)
  {
    seq(h, y requires 0 <= y < h => seq(w, x requires 0 <= x < w =>
      if mask[y][x] != 0 then mask[y][x] else if SetNear(mask, x, y, w, h) then 1 else 0))
  }

  /** The erosion pass: a pixel set in tmp becomes 1 when its block in tmp has a set pixel, else 0; the rest keeps mask's value. */
  function ErodePass(mask: seq<seq<int>>, tmp: seq<seq<int>>, w: nat, h: nat): (r: seq<seq<int>>)
    requires IsGrid(mask, w, h) && IsGrid(tmp, w, h)
    ensures IsGrid(r, w, h)
  {
    seq(h, y requires 0 <= y < h => seq(w, x requires 0 <= x < w =>
      if tmp[y][x] == 0 then mask[y][x] else if SetNear(tmp, x, y, w, h) then 1 else 0))
  }

  function MorphClose1(mask: seq<seq<int>>, w: nat, h: nat): (r: seq<seq<int>>)
    requires IsGrid(mask, w, h)
    ensures IsGrid(r, w, h)
  {
    ErodePass(mask, DilatePass(mask, w, h), w, h)
  }

  /** The 8-neighbourhood dilation: 1 exactly where the block around the pixel holds a set pixel. */
  function Dilation(mask: seq<seq<int>>, w: nat, h: nat): (r: seq<seq<int>>)
    requires IsGrid(mask, w, h)
    ensures IsGrid(r, w, h)
  {
    seq(h, y requires 0 <= y < h => seq(w, x requires 0 <= x < w => if SetNear(mask, x, y, w, h) then 1 else 0))
  }

  /** The erosion pass never clears a pixel: it sets to 1 every pixel set in tmp. */
  lemma ErodeNeverClears(mask: seq<seq<int>>, tmp: seq<seq<int>>, w: nat, h: nat)
    requires IsGrid(mask, w, h) && IsGrid(tmp, w, h)
    ensures forall y, x :: 0 <= y < h && 0 <= x < w && tmp[y][x] != 0 ==> ErodePass(mask, tmp, w, h)[y][x] == 1
  {
    forall y, x | 0 <= y < h && 0 <= x < w && tmp[y][x] != 0
      ensures ErodePass(mask, tmp, w, h)[y][x] == 1
    {
      assert IsOn(tmp, x, y);
    }
  }

  /** `morphClose1` is exactly the 3 x 3 dilation of its input. */
  lemma MorphClose1IsDilation(mask: seq<seq<int>>, w: nat, h: nat)
    requires IsGrid(mask, w, h)
    ensures MorphClose1(mask, w, h) == Dilation(mask, w, h)
  {
    var tmp := DilatePass(mask, w, h);
    var r, d := MorphClose1(mask, w, h), Dilation(mask, w, h);
    ErodeNeverClears(mask, tmp, w, h);
    forall y | 0 <= y < h
      ensures r[y] == d[y]
    {
      forall x | 0 <= x < w
        ensures r[y][x] == d[y][x]
      {
        if mask[y][x] != 0 {
          assert IsOn(mask, x, y);
        }
      }
    }
  }

  /** Every set pixel of the input is 1 in the result, and so is every pixel next to one. */
  lemma MorphClose1Grows(mask: seq<seq<int>>, w: nat, h: nat)
    requires IsGrid(mask, w, h)
    ensures forall y, x :: 0 <= y < h && 0 <= x < w && mask[y][x] != 0 ==> MorphClose1(mask, w, h)[y][x] == 1
    ensures forall y, x, y', x' :: (0 <= y < h && 0 <= x < w && IsOn(mask, x', y')
      && -1 <= y - y' <= 1 && -1 <= x - x' <= 1) ==> MorphClose1(mask, w, h)[y][x] == 1
  {
    MorphClose1IsDilation(mask, w, h);
    forall y, x | 0 <= y < h && 0 <= x < w && mask[y][x] != 0
      ensures MorphClose1(mask, w, h)[y][x] == 1
    {
      assert IsOn(mask, x, y);
    }
  }
}
