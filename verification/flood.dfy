/**
 * Stack-based region growing over a shared `visited` buffer: the
 * 8-connected flood of the marching-squares tools (by colour tolerance,
 * with or without the iteration cap, or by colour group), the 4-connected
 * exact-colour flood of wireHotspot.ts, and the 1-pixel closing.
 *
 * `visited` holds 0 (free), 1 (taken by a region) or 2 (background, or a
 * neighbour the 4-connected flood rejected). A flood only ever writes to
 * free cells, so whatever an earlier flood or the background pass marked
 * is never absorbed by a later region.
 */
module Flood {
  import opened Wrappers
  import opened Colors
  import opened Grid

  /** The bounding box, the box-local mask and the pixel count of one region. */
  datatype FloodResult = FloodResult(minX: int, minY: int, maxX: int, maxY: int, mask: seq<seq<int>>, bw: int, bh: int, pixelCount: int)

  function At<T>(g: seq<seq<T>>, c: Cell): T
    requires 0 <= c.1 < |g| && 0 <= c.0 < |g[c.1]|
  {
    g[c.1][c.0]
  }

  /** The colour of pixel c, and black outside the image. */
  function ColorAt(px: seq<seq<Rgb>>, c: Cell): Rgb {
    if 0 <= c.1 < |px| && 0 <= c.0 < |px[c.1]| then px[c.1][c.0] else Rgb(0, 0, 0)
  }

  function Plus(c: Cell, d: Cell): Cell {
    (c.0 + d.0, c.1 + d.1)
  }

  /** The neighbour offsets in the order of the loops `for dy in -1..1, for dx in -1..1`, skipping (0, 0). */
  const Offsets8: seq<Cell> := [(-1, -1), (0, -1), (1, -1), (-1, 0), (1, 0), (-1, 1), (0, 1), (1, 1)]

  /** The candidates `[x-1, y], [x+1, y], [x, y-1], [x, y+1]` of the 4-connected flood. */
  const Offsets4: seq<Cell> := [(-1, 0), (1, 0), (0, -1), (0, 1)]

  lemma Offsets8Complete(p: Cell, q: Cell)
    requires Adj8(p, q)
    ensures exists k :: 0 <= k < 8 && q == Plus(p, Offsets8[k])
  {
    var d := (q.0 - p.0, q.1 - p.1);
    var k := if d == (-1, -1) then 0 else if d == (0, -1) then 1 else if d == (1, -1) then 2
      else if d == (-1, 0) then 3 else if d == (1, 0) then 4 else if d == (-1, 1) then 5
      else if d == (0, 1) then 6 else 7;
    assert q == Plus(p, Offsets8[k]);
  }

  lemma Offsets8Adjacent(p: Cell, k: int)
    requires 0 <= k < 8
    ensures Adj8(p, Plus(p, Offsets8[k]))
  {
  }

  lemma Offsets4Adjacent(p: Cell, k: int)
    requires 0 <= k < 4
    ensures Adj4(p, Plus(p, Offsets4[k]))
  {
  }

  lemma Offsets4Complete(p: Cell, q: Cell)
    requires Adj4(p, q)
    ensures exists k :: 0 <= k < 4 && q == Plus(p, Offsets4[k])
  {
    var d := (q.0 - p.0, q.1 - p.1);
    var k := if d == (-1, 0) then 0 else if d == (1, 0) then 1 else if d == (0, -1) then 2 else 3;
    assert q == Plus(p, Offsets4[k]);
  }

  /** Cell c was free before and belongs to the region now. */
  predicate Taken(vis0: seq<seq<int>>, vis: seq<seq<int>>, c: Cell, w: int, h: int)
    requires IsGrid(vis0, w, h) && IsGrid(vis, w, h)
  {
    InBounds(c, w, h) && At(vis0, c) == 0 && At(vis, c) == 1
  }

  /** The only writes are free cells becoming 1 (or 2 when `two` allows it). */
  predicate OnlyFreeWritten(vis0: seq<seq<int>>, vis: seq<seq<int>>, w: int, h: int, two: bool)
    requires IsGrid(vis0, w, h) && IsGrid(vis, w, h)
  {
    forall y, x :: 0 <= y < h && 0 <= x < w && vis[y][x] != vis0[y][x] ==>
      vis0[y][x] == 0 && (vis[y][x] == 1 || (two && vis[y][x] == 2))
  }

  /** `order` lists cells so that each one after the first touches an earlier one. */
  ghost predicate Chain(order: seq<Cell>, parent: seq<int>, four: bool) {
    |parent| == |order|
    && forall k :: 0 < k < |order| ==> 0 <= parent[k] < k && Touch(order[parent[k]], order[k], four)
  }

  predicate Touch(a: Cell, b: Cell, four: bool) {
    if four then Adj4(a, b) else Adj8(a, b)
  }

  /** The cells taken by a flood from seed s form one connected piece grown from s. */
  ghost predicate ConnectedFrom(vis0: seq<seq<int>>, vis: seq<seq<int>>, s: Cell, w: int, h: int, four: bool)
    requires IsGrid(vis0, w, h) && IsGrid(vis, w, h)
  {
    exists order: seq<Cell>, parent: seq<int> :: |order| > 0 && order[0] == s && Chain(order, parent, four)
      && (forall k :: 0 <= k < |order| ==> Taken(vis0, vis, order[k], w, h))
      && (forall y, x :: 0 <= y < h && 0 <= x < w && Taken(vis0, vis, (x, y), w, h) ==> (x, y) in order)
  }

  // ---------------------------------------------------------------------
  // The 8-connected flood
  // ---------------------------------------------------------------------

  /**
   * The neighbour loop of the 8-connected floods: each in-bounds free
   * neighbour of p that matches is marked 1 and pushed, in offset order.
   */
  method PushNeighbours8(w: nat, h: nat, vis: seq<seq<int>>, stack: seq<Cell>, p: Cell, matches: Cell -> bool)
    returns (vis': seq<seq<int>>, stack': seq<Cell>)
    requires IsGrid(vis, w, h) && InBounds(p, w, h)
    ensures IsGrid(vis', w, h)
    ensures |stack'| >= |stack| && stack'[..|stack|] == stack
    ensures OnlyFreeWritten(vis, vis', w, h, false)
    ensures forall c :: InBounds(c, w, h) ==> (Taken(vis, vis', c, w, h) <==> c in stack'[|stack|..])
    ensures forall c :: c in stack'[|stack|..] ==> InBounds(c, w, h) && matches(c) && Adj8(p, c)
    ensures Distinct(stack'[|stack|..])
    ensures forall k :: 0 <= k < 8 && InBounds(Plus(p, Offsets8[k]), w, h) && matches(Plus(p, Offsets8[k])) ==>
      At(vis', Plus(p, Offsets8[k])) != 0
    ensures Count(vis, 0) == Count(vis', 0) + (|stack'| - |stack|)
  {
    vis', stack' := vis, stack;
    for k := 0 to 8
      invariant Push8Inv(w, h, vis, vis', stack, stack', p, matches, k)
    {
      var q := Plus(p, Offsets8[k]);
      if InBounds(q, w, h) && At(vis', q) == 0 && matches(q) {
        Take8(w, h, vis, vis', stack, stack', p, matches, k);
        vis' := Set(vis', q, 1);
        stack' := stack' + [q];
      }
    }
  }

  /** The loop state of PushNeighbours8 after the first k neighbours. */
  ghost predicate Push8Inv(w: nat, h: nat, vis: seq<seq<int>>, vis': seq<seq<int>>, stack: seq<Cell>, stack': seq<Cell>,
                           p: Cell, matches: Cell -> bool, k: nat)
  {
    IsGrid(vis, w, h) && IsGrid(vis', w, h)
    && |stack'| >= |stack| && stack'[..|stack|] == stack
    && OnlyFreeWritten(vis, vis', w, h, false)
    && (forall c :: InBounds(c, w, h) ==> (Taken(vis, vis', c, w, h) <==> c in stack'[|stack|..]))
    && (forall c :: c in stack'[|stack|..] ==> InBounds(c, w, h) && matches(c) && Adj8(p, c))
    && Distinct(stack'[|stack|..])
    && (forall j :: 0 <= j < k && j < 8 && InBounds(Plus(p, Offsets8[j]), w, h) && matches(Plus(p, Offsets8[j])) ==>
          At(vis', Plus(p, Offsets8[j])) != 0)
    && Count(vis, 0) == Count(vis', 0) + (|stack'| - |stack|)
  }

  /** Marking a free cell q with 1 adds q to the taken cells and changes nothing else. */
  lemma TakeFree(w: nat, h: nat, vis: seq<seq<int>>, cur: seq<seq<int>>, q: Cell)
    requires IsGrid(vis, w, h) && IsGrid(cur, w, h) && OnlyFreeWritten(vis, cur, w, h, false)
    requires InBounds(q, w, h) && At(cur, q) == 0
    ensures IsGrid(Set(cur, q, 1), w, h) && OnlyFreeWritten(vis, Set(cur, q, 1), w, h, false)
    ensures !Taken(vis, cur, q, w, h) && Taken(vis, Set(cur, q, 1), q, w, h)
    ensures forall c :: c != q ==> (Taken(vis, Set(cur, q, 1), c, w, h) <==> Taken(vis, cur, c, w, h))
    ensures forall c :: InBounds(c, w, h) && c != q ==> At(Set(cur, q, 1), c) == At(cur, c)
  {
    var nv := Set(cur, q, 1);
    assert At(vis, q) == 0;
    forall y, x | 0 <= y < h && 0 <= x < w && nv[y][x] != vis[y][x]
      ensures vis[y][x] == 0 && nv[y][x] == 1
    {
      if (x, y) != q {
        assert nv[y][x] == cur[y][x];
      }
    }
  }

  /** Taking the free matching neighbour k keeps the loop state. */
  lemma Take8(w: nat, h: nat, vis: seq<seq<int>>, cur: seq<seq<int>>, stack: seq<Cell>, st: seq<Cell>,
              p: Cell, matches: Cell -> bool, k: nat)
    requires k < 8 && Push8Inv(w, h, vis, cur, stack, st, p, matches, k)
    requires InBounds(Plus(p, Offsets8[k]), w, h) && At(cur, Plus(p, Offsets8[k])) == 0 && matches(Plus(p, Offsets8[k]))
    ensures Push8Inv(w, h, vis, Set(cur, Plus(p, Offsets8[k]), 1), stack, st + [Plus(p, Offsets8[k])], p, matches, k + 1)
  {
    var q := Plus(p, Offsets8[k]);
    var ns := st + [q];
    var added := st[|stack|..];
    var nv := Set(cur, q, 1);
    TakeFree(w, h, vis, cur, q);
    Offsets8Adjacent(p, k);
    CountUpdate(cur, q, 1, 0);
    assert ns[..|stack|] == stack;
    assert ns[|stack|..] == added + [q];
    DistinctSnoc(added, q);
    forall c | InBounds(c, w, h)
      ensures Taken(vis, nv, c, w, h) <==> c in ns[|stack|..]
    {
      if c != q {
        assert Taken(vis, nv, c, w, h) <==> Taken(vis, cur, c, w, h);
      }
    }
    forall c | c in ns[|stack|..]
      ensures InBounds(c, w, h) && matches(c) && Adj8(p, c)
    {
      if c != q {
        assert c in added;
      }
    }
    forall j | 0 <= j < k + 1 && j < 8 && InBounds(Plus(p, Offsets8[j]), w, h) && matches(Plus(p, Offsets8[j]))
      ensures At(nv, Plus(p, Offsets8[j])) != 0
    {
      if Plus(p, Offsets8[j]) != q {
        assert At(nv, Plus(p, Offsets8[j])) == At(cur, Plus(p, Offsets8[j]));
      }
    }
  }

  lemma DistinctSnoc(s: seq<Cell>, q: Cell)
    requires Distinct(s) && q !in s
    ensures Distinct(s + [q])
  {
    forall i, j | 0 <= i < j < |s| + 1
      ensures (s + [q])[i] != (s + [q])[j]
    {
      if j == |s| {
        assert (s + [q])[i] in s;
      }
    }
  }

  lemma DistinctPop(P: seq<Cell>, S: seq<Cell>)
    requires |S| > 0 && Distinct(P + S)
    ensures Distinct(P + [S[|S| - 1]] + S[..|S| - 1])
  {
    var A, B := P + S, P + [S[|S| - 1]] + S[..|S| - 1];
    // B[i] is A[f(i)] for the index map f that moves the last element to |P|.
    forall i, j | 0 <= i < j < |B|
      ensures B[i] != B[j]
    {
      var fi := if i < |P| then i else if i == |P| then |A| - 1 else i - 1;
      var fj := if j < |P| then j else if j == |P| then |A| - 1 else j - 1;
      assert B[i] == A[fi] && B[j] == A[fj];
      assert fi != fj;
      if fi < fj {
        assert A[fi] != A[fj];
      } else {
        assert A[fj] != A[fi];
      }
    }
  }

  lemma DistinctAppend(A: seq<Cell>, B: seq<Cell>)
    requires Distinct(A) && Distinct(B) && forall c :: c in B ==> c !in A
    ensures Distinct(A + B)
  {
    forall i, j | 0 <= i < j < |A + B|
      ensures (A + B)[i] != (A + B)[j]
    {
      if i < |A| && j >= |A| {
        assert (A + B)[j] in B;
      }
    }
  }

  predicate MaskOf(mask: seq<seq<int>>, pixels: seq<Cell>, minX: int, minY: int, bw: nat, bh: nat)
    requires IsGrid(mask, bw, bh)
  {
    forall yy, xx :: 0 <= yy < bh && 0 <= xx < bw ==>
      (mask[yy][xx] == 1 <==> (xx + minX, yy + minY) in pixels) && (mask[yy][xx] == 0 || mask[yy][xx] == 1)
  }

  lemma MaskStep(mask: seq<seq<int>>, mask': seq<seq<int>>, pixels: seq<Cell>, c: Cell, minX: int, minY: int, bw: nat, bh: nat)
    requires IsGrid(mask, bw, bh) && MaskOf(mask, pixels, minX, minY, bw, bh)
    requires minX <= c.0 < minX + bw && minY <= c.1 < minY + bh
    requires mask' == Set(mask, (c.0 - minX, c.1 - minY), 1)
    ensures IsGrid(mask', bw, bh) && MaskOf(mask', pixels + [c], minX, minY, bw, bh)
  {
    forall yy, xx | 0 <= yy < bh && 0 <= xx < bw
      ensures (mask'[yy][xx] == 1 <==> (xx + minX, yy + minY) in pixels + [c]) && (mask'[yy][xx] == 0 || mask'[yy][xx] == 1)
    {
      if (xx, yy) != (c.0 - minX, c.1 - minY) {
        assert mask'[yy][xx] == mask[yy][xx];
        assert (xx + minX, yy + minY) != c;
      }
    }
  }

  /** The box-local mask: 1 exactly at the listed pixels, shifted by (minX, minY). */
  method BuildMask(pixels: seq<Cell>, minX: int, minY: int, bw: nat, bh: nat) returns (mask: seq<seq<int>>)
    requires Distinct(pixels)
    requires forall c :: c in pixels ==> minX <= c.0 < minX + bw && minY <= c.1 < minY + bh
    ensures IsGrid(mask, bw, bh)
    ensures MaskOf(mask, pixels, minX, minY, bw, bh)
    ensures Count(mask, 1) == |pixels|
  {
    mask := Fill(bw, bh, 0);
    CountFill(bw, bh, 0, 1);
    for i := 0 to |pixels|
      invariant IsGrid(mask, bw, bh)
      invariant MaskOf(mask, pixels[..i], minX, minY, bw, bh)
      invariant Count(mask, 1) == i
    {
      mask := MaskAdd(mask, pixels, i, minX, minY, bw, bh);
    }
    assert pixels[..|pixels|] == pixels;
  }

  /** The cell of pixels[i] is not yet set in a mask of the earlier pixels. */
  lemma MaskFresh(mask: seq<seq<int>>, pixels: seq<Cell>, i: nat, minX: int, minY: int, bw: nat, bh: nat)
    requires Distinct(pixels) && i < |pixels|
    requires minX <= pixels[i].0 < minX + bw && minY <= pixels[i].1 < minY + bh
    requires IsGrid(mask, bw, bh) && MaskOf(mask, pixels[..i], minX, minY, bw, bh)
    ensures mask[pixels[i].1 - minY][pixels[i].0 - minX] != 1
  {
    var c := pixels[i];
    assert c !in pixels[..i] by {
      forall j | 0 <= j < i ensures pixels[..i][j] != c {
        assert pixels[..i][j] == pixels[j];
      }
    }
    var xx, yy := c.0 - minX, c.1 - minY;
    assert (xx + minX, yy + minY) == c;
  }

  /** One round of BuildMask: set the cell of pixels[i], which is not set yet. */
  method MaskAdd(mask: seq<seq<int>>, pixels: seq<Cell>, i: nat, minX: int, minY: int, bw: nat, bh: nat)
    returns (mask': seq<seq<int>>)
    requires Distinct(pixels) && i < |pixels|
    requires forall c :: c in pixels ==> minX <= c.0 < minX + bw && minY <= c.1 < minY + bh
    requires IsGrid(mask, bw, bh) && MaskOf(mask, pixels[..i], minX, minY, bw, bh) && Count(mask, 1) == i
    ensures IsGrid(mask', bw, bh) && MaskOf(mask', pixels[..i + 1], minX, minY, bw, bh) && Count(mask', 1) == i + 1
  {
    var c := pixels[i];
    var local := (c.0 - minX, c.1 - minY);
    assert c in pixels;
    MaskFresh(mask, pixels, i, minX, minY, bw, bh);
    CountUpdate(mask, local, 1, 1);
    mask' := Set(mask, local, 1);
    MaskStep(mask, mask', pixels[..i], c, minX, minY, bw, bh);
    assert pixels[..i + 1] == pixels[..i] + [c];
  }

  /** Extending a chain by cells that all touch its member at index j keeps it a chain. */
  lemma ChainExtend(order: seq<Cell>, parent: seq<int>, added: seq<Cell>, j: nat, four: bool)
    requires Chain(order, parent, four) && j < |order|
    requires forall c :: c in added ==> Touch(order[j], c, four)
    ensures Chain(order + added, parent + seq(|added|, _ => j), four)
  {
    var o, par := order + added, parent + seq(|added|, _ => j);
    forall k | 0 < k < |o|
      ensures 0 <= par[k] < k && Touch(o[par[k]], o[k], four)
    {
      if k >= |order| {
        assert o[k] in added;
      }
    }
  }

  /** Every cell of the listed region was free and is now 1, and the lists have no repeats. */
  lemma FreshNotListed(vis0: seq<seq<int>>, vis: seq<seq<int>>, listed: seq<Cell>, added: seq<Cell>, w: nat, h: nat)
    requires IsGrid(vis0, w, h) && IsGrid(vis, w, h)
    requires ListedIsTaken(vis0, vis, listed, w, h)
    requires forall c :: c in added ==> InBounds(c, w, h) && At(vis, c) == 0
    ensures forall c :: c in added ==> c !in listed
  {
  }

  /** The listed cells are exactly the cells the flood has taken so far. */
  ghost predicate ListedIsTaken(vis0: seq<seq<int>>, vis: seq<seq<int>>, L: seq<Cell>, w: int, h: int)
    requires IsGrid(vis0, w, h) && IsGrid(vis, w, h)
  {
    (forall c :: c in L ==> InBounds(c, w, h))
    && forall c :: InBounds(c, w, h) ==> (Taken(vis0, vis, c, w, h) <==> c in L)
  }

  /** Every in-bounds matching 8-neighbour of a popped pixel is no longer free. */
  ghost predicate Closed8(vis: seq<seq<int>>, pixels: seq<Cell>, w: int, h: int, matches: Cell -> bool)
    requires IsGrid(vis, w, h)
  {
    forall p, k :: p in pixels && 0 <= k < 8 && InBounds(Plus(p, Offsets8[k]), w, h) && matches(Plus(p, Offsets8[k])) ==>
      At(vis, Plus(p, Offsets8[k])) != 0
  }

  predicate Boxed(pixels: seq<Cell>, minX: int, maxX: int, minY: int, maxY: int) {
    forall c :: c in pixels ==> minX <= c.0 <= maxX && minY <= c.1 <= maxY
  }

  /** The state of the 8-connected flood between two pops. */
  ghost predicate Grow8Inv(w: nat, h: nat, vis0: seq<seq<int>>, vis: seq<seq<int>>, s: Cell, matches: Cell -> bool,
                           pixels: seq<Cell>, stack: seq<Cell>, minX: int, maxX: int, minY: int, maxY: int, order: seq<Cell>, parent: seq<int>)
  {
    IsGrid(vis0, w, h) && IsGrid(vis, w, h)
    && OnlyFreeWritten(vis0, vis, w, h, false)
    && ListedIsTaken(vis0, vis, pixels + stack, w, h)
    && (forall c :: c in pixels + stack ==> matches(c))
    && Distinct(pixels + stack)
    && Closed8(vis, pixels, w, h, matches)
    && |pixels| + |stack| + Count(vis, 0) == Count(vis0, 0)
    && 0 <= minX <= s.0 <= maxX < w && 0 <= minY <= s.1 <= maxY < h
    && Boxed(pixels, minX, maxX, minY, maxY)
    && |order| > 0 && order[0] == s && Chain(order, parent, false)
    && (forall c :: c in order <==> c in pixels + stack)
  }

  /** Two rounds of marking free cells compose. */
  lemma TakenStep(vis0: seq<seq<int>>, vis: seq<seq<int>>, vis': seq<seq<int>>, w: nat, h: nat, L: seq<Cell>, added: seq<Cell>, two: bool)
    requires IsGrid(vis0, w, h) && IsGrid(vis, w, h) && IsGrid(vis', w, h)
    requires OnlyFreeWritten(vis0, vis, w, h, two) && OnlyFreeWritten(vis, vis', w, h, two)
    requires ListedIsTaken(vis0, vis, L, w, h)
    requires forall c :: c in added ==> InBounds(c, w, h)
    requires forall c :: InBounds(c, w, h) ==> (Taken(vis, vis', c, w, h) <==> c in added)
    ensures OnlyFreeWritten(vis0, vis', w, h, two)
    ensures ListedIsTaken(vis0, vis', L + added, w, h)
  {
    forall y, x | 0 <= y < h && 0 <= x < w && vis'[y][x] != vis0[y][x]
      ensures vis0[y][x] == 0 && (vis'[y][x] == 1 || (two && vis'[y][x] == 2))
    {
      if vis[y][x] != vis0[y][x] {
        assert vis'[y][x] == vis[y][x];
      }
    }
    forall c | InBounds(c, w, h)
      ensures Taken(vis0, vis', c, w, h) <==> c in L + added
    {
      assert Taken(vis0, vis', c, w, h) <==> Taken(vis0, vis, c, w, h) || Taken(vis, vis', c, w, h);
    }
  }

  lemma PopSameMembers(P: seq<Cell>, S: seq<Cell>)
    requires |S| > 0
    ensures forall c :: c in P + [S[|S| - 1]] + S[..|S| - 1] <==> c in P + S
  {
    assert S == S[..|S| - 1] + [S[|S| - 1]];
    forall c
      ensures c in P + [S[|S| - 1]] + S[..|S| - 1] <==> c in P + S
    {
      calc {
        c in P + [S[|S| - 1]] + S[..|S| - 1];
      <==>
        c in P || c == S[|S| - 1] || c in S[..|S| - 1];
      <==> { assert c in S <==> c in S[..|S| - 1] || c == S[|S| - 1]; }
        c in P + S;
      }
    }
  }

  lemma ClosedStep(vis: seq<seq<int>>, vis': seq<seq<int>>, pixels: seq<Cell>, p: Cell, w: nat, h: nat, matches: Cell -> bool)
    requires IsGrid(vis, w, h) && IsGrid(vis', w, h)
    requires Closed8(vis, pixels, w, h, matches) && OnlyFreeWritten(vis, vis', w, h, false)
    requires forall k :: 0 <= k < 8 && InBounds(Plus(p, Offsets8[k]), w, h) && matches(Plus(p, Offsets8[k])) ==>
      At(vis', Plus(p, Offsets8[k])) != 0
    ensures Closed8(vis', pixels + [p], w, h, matches)
  {
    forall q, k | q in pixels + [p] && 0 <= k < 8 && InBounds(Plus(q, Offsets8[k]), w, h) && matches(Plus(q, Offsets8[k]))
      ensures At(vis', Plus(q, Offsets8[k])) != 0
    {
      if q != p {
        assert q in pixels;
      }
    }
  }

  /** One iteration of the flood loop: pop a pixel, widen the box, push its free matching neighbours. */
  method Grow8Step(w: nat, h: nat, ghost vis0: seq<seq<int>>, vis: seq<seq<int>>, s: Cell, matches: Cell -> bool,
                   pixels: seq<Cell>, stack: seq<Cell>, minX: int, maxX: int, minY: int, maxY: int,
                   ghost order: seq<Cell>, ghost parent: seq<int>)
    returns (vis': seq<seq<int>>, pixels': seq<Cell>, stack': seq<Cell>, minX': int, maxX': int, minY': int, maxY': int,
             ghost order': seq<Cell>, ghost parent': seq<int>)
    requires |stack| > 0
    requires Grow8Inv(w, h, vis0, vis, s, matches, pixels, stack, minX, maxX, minY, maxY, order, parent)
    ensures Grow8Inv(w, h, vis0, vis', s, matches, pixels', stack', minX', maxX', minY', maxY', order', parent')
    ensures |pixels'| == |pixels| + 1
    ensures Count(vis', 0) + |stack'| < Count(vis, 0) + |stack|
  {
    var p := stack[|stack| - 1];
    assert p in pixels + stack;
    DistinctPop(pixels, stack);
    PopSameMembers(pixels, stack);
    var rest := stack[..|stack| - 1];
    pixels' := pixels + [p];
    assert pixels' + rest == pixels + [p] + rest;
    minX' := if p.0 < minX then p.0 else minX;
    maxX' := if p.0 > maxX then p.0 else maxX;
    minY' := if p.1 < minY then p.1 else minY;
    maxY' := if p.1 > maxY then p.1 else maxY;
    vis', stack' := PushNeighbours8(w, h, vis, rest, p, matches);
    ghost var added := stack'[|rest|..];
    assert stack' == rest + added;
    assert pixels' + stack' == (pixels' + rest) + added;
    TakenStep(vis0, vis, vis', w, h, pixels' + rest, added, false);
    FreshNotListed(vis0, vis, pixels' + rest, added, w, h);
    DistinctAppend(pixels' + rest, added);
    ClosedStep(vis, vis', pixels, p, w, h, matches);
    ghost var j :| 0 <= j < |order| && order[j] == p;
    ChainExtend(order, parent, added, j, false);
    order', parent' := order + added, parent + seq(|added|, _ => j);
  }

  /**
   * The 8-connected region growing of `floodRegion` and
   * `floodRegionByGroup`: a visited or non-matching seed gives no region
   * and writes nothing; otherwise the seed is marked 1 and pixels are
   * popped from a stack, each free matching 8-neighbour being marked 1 and
   * pushed. With `capped`, the loop also stops after w * h pops and the
   * flood then reports no region although its pixels stay marked; that
   * happens exactly when the region is the whole image.
   */
  method Flood8(w: nat, h: nat, vis0: seq<seq<int>>, s: Cell, matches: Cell -> bool, capped: bool)
    returns (res: Option<FloodResult>, vis: seq<seq<int>>)
    requires IsGrid(vis0, w, h) && InBounds(s, w, h)
    ensures IsGrid(vis, w, h)
    ensures At(vis0, s) != 0 || !matches(s) ==> res == None && vis == vis0
    ensures OnlyFreeWritten(vis0, vis, w, h, false)
    ensures forall c :: Taken(vis0, vis, c, w, h) ==> matches(c)
    ensures forall p, q :: Taken(vis0, vis, p, w, h) && Adj8(p, q) && InBounds(q, w, h) && At(vis0, q) == 0 && matches(q) ==>
      Taken(vis0, vis, q, w, h)
    ensures At(vis0, s) == 0 && matches(s) ==> Taken(vis0, vis, s, w, h) && ConnectedFrom(vis0, vis, s, w, h, false)
    ensures At(vis0, s) == 0 && matches(s) ==>
      (res.None? <==> capped && forall y, x :: 0 <= y < h && 0 <= x < w ==> Taken(vis0, vis, (x, y), w, h))
    ensures res.Some? ==> RegionOf(res.value, vis0, vis, s, w, h) && res.value.pixelCount == Count(vis0, 0) - Count(vis, 0)
  {
    if At(vis0, s) != 0 || !matches(s) {
      return None, vis0;
    }
    var minX, maxX, minY, maxY := s.0, s.0, s.1, s.1;
    var stack: seq<Cell> := [s];
    var pixels: seq<Cell> := [];
    vis := Set(vis0, s, 1);
    var iterations := 0;
    ghost var order, parent := [s], [-1];
    InitGrow8(w, h, vis0, s, matches);
    CountAll(vis0, 0, w, h);
    while |stack| > 0 && (!capped || iterations < w * h)
      invariant Grow8Inv(w, h, vis0, vis, s, matches, pixels, stack, minX, maxX, minY, maxY, order, parent)
      invariant iterations == |pixels|
      decreases Count(vis, 0) + |stack|
    {
      vis, pixels, stack, minX, maxX, minY, maxY, order, parent :=
        Grow8Step(w, h, vis0, vis, s, matches, pixels, stack, minX, maxX, minY, maxY, order, parent);
      iterations := iterations + 1;
    }
    assert |stack| == 0;
    assert pixels + stack == pixels;
    FinishGrow8(w, h, vis0, vis, s, matches, pixels, minX, maxX, minY, maxY, order, parent);
    assert ListedIsTaken(vis0, vis, pixels, w, h);
    if capped && iterations >= w * h {
      AllTaken(vis0, vis, w, h);
      return None, vis;
    }
    if forall y, x :: 0 <= y < h && 0 <= x < w ==> Taken(vis0, vis, (x, y), w, h) {
      AllTakenCount(vis0, vis, w, h);
    }
    var mask := BuildMask(pixels, minX, minY, maxX - minX + 1, maxY - minY + 1);
    res := Some(FloodResult(minX, minY, maxX, maxY, mask, maxX - minX + 1, maxY - minY + 1, |pixels|));
    RegionFromMask(res.value, vis0, vis, s, w, h, pixels);
  }

  lemma InitGrow8(w: nat, h: nat, vis0: seq<seq<int>>, s: Cell, matches: Cell -> bool)
    requires IsGrid(vis0, w, h) && InBounds(s, w, h) && At(vis0, s) == 0 && matches(s)
    ensures Grow8Inv(w, h, vis0, Set(vis0, s, 1), s, matches, [], [s], s.0, s.0, s.1, s.1, [s], [-1])
  {
    var vis := Set(vis0, s, 1);
    CountUpdate(vis0, s, 1, 0);
    assert [] + [s] == [s];
    forall c | InBounds(c, w, h)
      ensures Taken(vis0, vis, c, w, h) <==> c in [s]
    {
      if c != s {
        assert At(vis, c) == At(vis0, c);
      }
    }
  }

  /** The returned record describes the taken cells once the stack is empty. */
  lemma RegionFromMask(r: FloodResult, vis0: seq<seq<int>>, vis: seq<seq<int>>, s: Cell, w: nat, h: nat, pixels: seq<Cell>)
    requires IsGrid(vis0, w, h) && IsGrid(vis, w, h)
    requires r.bw == r.maxX - r.minX + 1 && r.bh == r.maxY - r.minY + 1
    requires 0 <= r.minX <= s.0 <= r.maxX < w && 0 <= r.minY <= s.1 <= r.maxY < h
    requires IsGrid(r.mask, r.bw, r.bh) && MaskOf(r.mask, pixels, r.minX, r.minY, r.bw, r.bh)
    requires r.pixelCount == Count(r.mask, 1)
    requires ListedIsTaken(vis0, vis, pixels, w, h) && Boxed(pixels, r.minX, r.maxX, r.minY, r.maxY)
    ensures RegionOf(r, vis0, vis, s, w, h)
  {
    forall yy, xx | 0 <= yy < r.bh && 0 <= xx < r.bw
      ensures r.mask[yy][xx] == 1 <==> Taken(vis0, vis, (xx + r.minX, yy + r.minY), w, h)
    {
      assert InBounds((xx + r.minX, yy + r.minY), w, h);
    }
    forall y, x | 0 <= y < h && 0 <= x < w && Taken(vis0, vis, (x, y), w, h)
      ensures r.minX <= x <= r.maxX && r.minY <= y <= r.maxY
    {
      assert (x, y) in pixels;
    }
  }

  /** What the loop state means once the stack is empty. */
  lemma FinishGrow8(w: nat, h: nat, vis0: seq<seq<int>>, vis: seq<seq<int>>, s: Cell, matches: Cell -> bool,
                    pixels: seq<Cell>, minX: int, maxX: int, minY: int, maxY: int, order: seq<Cell>, parent: seq<int>)
    requires Grow8Inv(w, h, vis0, vis, s, matches, pixels, [], minX, maxX, minY, maxY, order, parent)
    ensures Taken(vis0, vis, s, w, h) && ConnectedFrom(vis0, vis, s, w, h, false)
    ensures forall c :: Taken(vis0, vis, c, w, h) ==> matches(c)
    ensures forall p, q :: Taken(vis0, vis, p, w, h) && Adj8(p, q) && InBounds(q, w, h) && At(vis0, q) == 0 && matches(q) ==>
      Taken(vis0, vis, q, w, h)
    ensures forall c :: InBounds(c, w, h) ==> (Taken(vis0, vis, c, w, h) <==> c in pixels)
  {
    assert pixels + [] == pixels;
    ClosureFromNeighbours(vis0, vis, pixels, w, h, matches);
    assert s in order;
    assert forall k :: 0 <= k < |order| ==> Taken(vis0, vis, order[k], w, h);
  }

  /** What a returned region describes: its box, its box-local mask and its size. */
  predicate RegionOf(r: FloodResult, vis0: seq<seq<int>>, vis: seq<seq<int>>, s: Cell, w: int, h: int)
    requires IsGrid(vis0, w, h) && IsGrid(vis, w, h)
  {
    r.bw == r.maxX - r.minX + 1 && r.bh == r.maxY - r.minY + 1
    && 0 <= r.minX <= s.0 <= r.maxX < w && 0 <= r.minY <= s.1 <= r.maxY < h
    && IsGrid(r.mask, r.bw, r.bh)
    && (forall yy, xx :: 0 <= yy < r.bh && 0 <= xx < r.bw ==>
         (r.mask[yy][xx] == 1 <==> Taken(vis0, vis, (xx + r.minX, yy + r.minY), w, h))
         && (r.mask[yy][xx] == 0 || r.mask[yy][xx] == 1))
    && (forall y, x :: 0 <= y < h && 0 <= x < w && Taken(vis0, vis, (x, y), w, h) ==>
         r.minX <= x <= r.maxX && r.minY <= y <= r.maxY)
    && r.pixelCount == Count(r.mask, 1)
  }

  lemma AllTaken(vis0: seq<seq<int>>, vis: seq<seq<int>>, w: nat, h: nat)
    requires IsGrid(vis0, w, h) && IsGrid(vis, w, h) && OnlyFreeWritten(vis0, vis, w, h, false)
    requires Count(vis0, 0) == w * h && Count(vis, 0) == 0
    ensures forall y, x :: 0 <= y < h && 0 <= x < w ==> Taken(vis0, vis, (x, y), w, h)
  {
    CountAll(vis0, 0, w, h);
    forall y, x | 0 <= y < h && 0 <= x < w
      ensures Taken(vis0, vis, (x, y), w, h)
    {
      if vis[y][x] == 0 {
        CountPositive(vis, 0, y, x);
      }
    }
  }

  lemma AllTakenCount(vis0: seq<seq<int>>, vis: seq<seq<int>>, w: nat, h: nat)
    requires IsGrid(vis0, w, h) && IsGrid(vis, w, h)
    requires forall y, x :: 0 <= y < h && 0 <= x < w ==> Taken(vis0, vis, (x, y), w, h)
    ensures Count(vis0, 0) == w * h && Count(vis, 0) == 0
  {
    forall y, x | 0 <= y < h && 0 <= x < w
      ensures vis0[y][x] == 0 && vis[y][x] == 1
    {
      assert Taken(vis0, vis, (x, y), w, h);
    }
    CountAll(vis0, 0, w, h);
    CountNone(vis, 1, 0);
  }

  /** Once the stack is empty, every free matching neighbour of the region belongs to it. */
  lemma ClosureFromNeighbours(vis0: seq<seq<int>>, vis: seq<seq<int>>, pixels: seq<Cell>, w: nat, h: nat, matches: Cell -> bool)
    requires IsGrid(vis0, w, h) && IsGrid(vis, w, h) && OnlyFreeWritten(vis0, vis, w, h, false)
    requires forall c :: InBounds(c, w, h) ==> (Taken(vis0, vis, c, w, h) <==> c in pixels)
    requires Closed8(vis, pixels, w, h, matches)
    ensures forall p, q :: Taken(vis0, vis, p, w, h) && Adj8(p, q) && InBounds(q, w, h) && At(vis0, q) == 0 && matches(q) ==>
      Taken(vis0, vis, q, w, h)
  {
    forall p, q | Taken(vis0, vis, p, w, h) && Adj8(p, q) && InBounds(q, w, h) && At(vis0, q) == 0 && matches(q)
      ensures Taken(vis0, vis, q, w, h)
    {
      Offsets8Complete(p, q);
      var k :| 0 <= k < 8 && q == Plus(p, Offsets8[k]);
      assert p in pixels;
      assert At(vis, q) != 0;
    }
  }

  // ---------------------------------------------------------------------
  // The callers' colour tests
  // ---------------------------------------------------------------------

  /** The matching test of `floodRegion`: Chebyshev distance to the match colour at most tol. */
  function NearColor(px: seq<seq<Rgb>>, matchColor: Rgb, tol: int): (m: Cell -> bool)
    ensures forall c :: m(c) <==> WithinTol(ColorAt(px, c), matchColor, tol)
  {
    c => WithinTol(ColorAt(px, c), matchColor, tol)
  }

  /** The matching test of `floodRegionByGroup`: the pixel's colour group is the seed group. */
  function InGroup(px: seq<seq<Rgb>>, groupOf: Rgb -> nat, seedGroup: nat): (m: Cell -> bool)
    ensures forall c :: m(c) <==> groupOf(ColorAt(px, c)) == seedGroup
  {
    c => groupOf(ColorAt(px, c)) == seedGroup
  }

  /**
   * `floodRegion` of HotspotStudioAdvanced.tsx, with its iteration cap of
   * w * h pops: a region covering the whole image is reported as no region.
   */
  method FloodRegion(px: seq<seq<Rgb>>, w: nat, h: nat, s: Cell, matchColor: Rgb, tol: int, vis0: seq<seq<int>>)
    returns (res: Option<FloodResult>, vis: seq<seq<int>>)
    requires IsGrid(px, w, h) && IsGrid(vis0, w, h) && InBounds(s, w, h)
    ensures IsGrid(vis, w, h) && OnlyFreeWritten(vis0, vis, w, h, false)
    ensures At(vis0, s) != 0 || ColorDist(At(px, s), matchColor) > tol ==> res == None && vis == vis0
    ensures forall c :: Taken(vis0, vis, c, w, h) ==> ColorDist(At(px, c), matchColor) <= tol
    ensures forall p, q :: (Taken(vis0, vis, p, w, h) && Adj8(p, q) && InBounds(q, w, h) && At(vis0, q) == 0
      && ColorDist(At(px, q), matchColor) <= tol) ==> Taken(vis0, vis, q, w, h)
    ensures At(vis0, s) == 0 && ColorDist(At(px, s), matchColor) <= tol ==>
      ConnectedFrom(vis0, vis, s, w, h, false)
      && (res.None? <==> forall y, x :: 0 <= y < h && 0 <= x < w ==> Taken(vis0, vis, (x, y), w, h))
    ensures res.Some? ==> RegionOf(res.value, vis0, vis, s, w, h)
  {
    res, vis := Flood8(w, h, vis0, s, NearColor(px, matchColor, tol), true);
  }

  /**
   * `floodRegion` of the two standalone studios (and of their worker
   * scan): the same growth with no iteration cap, so a free matching seed
   * always gives a region.
   */
  method FloodRegionUncapped(px: seq<seq<Rgb>>, w: nat, h: nat, s: Cell, matchColor: Rgb, tol: int, vis0: seq<seq<int>>)
    returns (res: Option<FloodResult>, vis: seq<seq<int>>)
    requires IsGrid(px, w, h) && IsGrid(vis0, w, h) && InBounds(s, w, h)
    ensures IsGrid(vis, w, h) && OnlyFreeWritten(vis0, vis, w, h, false)
    ensures res.None? <==> At(vis0, s) != 0 || ColorDist(At(px, s), matchColor) > tol
    ensures res.None? ==> vis == vis0
    ensures forall c :: Taken(vis0, vis, c, w, h) ==> ColorDist(At(px, c), matchColor) <= tol
    ensures forall p, q :: (Taken(vis0, vis, p, w, h) && Adj8(p, q) && InBounds(q, w, h) && At(vis0, q) == 0
      && ColorDist(At(px, q), matchColor) <= tol) ==> Taken(vis0, vis, q, w, h)
    ensures res.Some? ==> (ConnectedFrom(vis0, vis, s, w, h, false) && RegionOf(res.value, vis0, vis, s, w, h)
      && res.value.pixelCount == Count(vis0, 0) - Count(vis, 0))
  {
    res, vis := Flood8(w, h, vis0, s, NearColor(px, matchColor, tol), false);
  }

  /**
   * `floodRegionByGroup`: 8-connected growth over the pixels whose colour
   * group equals the seed group, with no iteration cap. The grouper's
   * pixel-to-group lookup is the function groupOf.
   */
  method FloodRegionByGroup(px: seq<seq<Rgb>>, w: nat, h: nat, s: Cell, seedGroup: nat, groupOf: Rgb -> nat, vis0: seq<seq<int>>)
    returns (res: Option<FloodResult>, vis: seq<seq<int>>)
    requires IsGrid(px, w, h) && IsGrid(vis0, w, h) && InBounds(s, w, h)
    ensures IsGrid(vis, w, h) && OnlyFreeWritten(vis0, vis, w, h, false)
    ensures res.None? <==> At(vis0, s) != 0 || groupOf(At(px, s)) != seedGroup
    ensures res.None? ==> vis == vis0
    ensures forall c :: Taken(vis0, vis, c, w, h) ==> groupOf(At(px, c)) == seedGroup
    ensures forall p, q :: (Taken(vis0, vis, p, w, h) && Adj8(p, q) && InBounds(q, w, h) && At(vis0, q) == 0
      && groupOf(At(px, q)) == seedGroup) ==> Taken(vis0, vis, q, w, h)
    ensures res.Some? ==> ConnectedFrom(vis0, vis, s, w, h, false) && RegionOf(res.value, vis0, vis, s, w, h)
  {
    res, vis := Flood8(w, h, vis0, s, InGroup(px, groupOf, seedGroup), false);
  }
}
