/**
 * `floodRegion` of wireHotspot.ts: 4-connected growth by exact colour. The
 * seed is taken without a colour test; every free neighbour that does not
 * match is marked 2, so it can never be seeded or absorbed later.
 */
module WireFlood {
  import opened Colors
  import opened Grid
  import opened Flood

  /** Every in-bounds 4-neighbour of a popped pixel is no longer free. */
  ghost predicate Closed4(vis: seq<seq<int>>, done: seq<Cell>, w: int, h: int)
    requires IsGrid(vis, w, h)
  {
    forall p, k :: p in done && 0 <= k < 4 && InBounds(Plus(p, Offsets4[k]), w, h) ==> At(vis, Plus(p, Offsets4[k])) != 0
  }

  /** Cell c was free before and has been rejected (marked 2) now. */
  predicate Rejected(vis0: seq<seq<int>>, vis: seq<seq<int>>, c: Cell, w: int, h: int)
    requires IsGrid(vis0, w, h) && IsGrid(vis, w, h)
  {
    InBounds(c, w, h) && At(vis0, c) == 0 && At(vis, c) == 2
  }

  /**
   * The candidate loop: each in-bounds free 4-neighbour of p is marked 1
   * and pushed when it matches, and marked 2 otherwise. (The source also
   * lists and boxes each marked pixel here; the caller does that for the
   * pushed cells, in the same order.)
   */
  method PushNeighbours4(w: nat, h: nat, vis: seq<seq<int>>, stack: seq<Cell>, p: Cell, matches: Cell -> bool)
    returns (vis': seq<seq<int>>, stack': seq<Cell>)
    requires IsGrid(vis, w, h) && InBounds(p, w, h)
    ensures IsGrid(vis', w, h)
    ensures |stack'| >= |stack| && stack'[..|stack|] == stack
    ensures OnlyFreeWritten(vis, vis', w, h, true)
    ensures forall c :: InBounds(c, w, h) ==> (Taken(vis, vis', c, w, h) <==> c in stack'[|stack|..])
    ensures forall c :: c in stack'[|stack|..] ==> InBounds(c, w, h) && matches(c) && Adj4(p, c)
    ensures forall c :: Rejected(vis, vis', c, w, h) ==> !matches(c) && Adj4(p, c)
    ensures Distinct(stack'[|stack|..])
    ensures forall k :: 0 <= k < 4 && InBounds(Plus(p, Offsets4[k]), w, h) ==> At(vis', Plus(p, Offsets4[k])) != 0
    ensures Count(vis', 0) + (|stack'| - |stack|) <= Count(vis, 0)
  {
    vis', stack' := vis, stack;
    for k := 0 to 4
      invariant Push4Inv(w, h, vis, vis', stack, stack', p, matches, k)
    {
      var q := Plus(p, Offsets4[k]);
      if InBounds(q, w, h) && At(vis', q) == 0 {
        if matches(q) {
          Take4(w, h, vis, vis', stack, stack', p, matches, k);
          vis' := Set(vis', q, 1);
          stack' := stack' + [q];
        } else {
          Reject4(w, h, vis, vis', stack, stack', p, matches, k);
          vis' := Set(vis', q, 2);
        }
      }
    }
  }

  /** The loop state of PushNeighbours4 after the first k neighbours. */
  ghost predicate Push4Inv(w: nat, h: nat, vis: seq<seq<int>>, vis': seq<seq<int>>, stack: seq<Cell>, stack': seq<Cell>,
                           p: Cell, matches: Cell -> bool, k: nat)
  {
    IsGrid(vis, w, h) && IsGrid(vis', w, h)
    && |stack'| >= |stack| && stack'[..|stack|] == stack
    && OnlyFreeWritten(vis, vis', w, h, true)
    && (forall c :: InBounds(c, w, h) ==> (Taken(vis, vis', c, w, h) <==> c in stack'[|stack|..]))
    && (forall c :: c in stack'[|stack|..] ==> InBounds(c, w, h) && matches(c) && Adj4(p, c))
    && (forall c :: Rejected(vis, vis', c, w, h) ==> !matches(c) && Adj4(p, c))
    && Distinct(stack'[|stack|..])
    && (forall j :: 0 <= j < k && j < 4 && InBounds(Plus(p, Offsets4[j]), w, h) ==> At(vis', Plus(p, Offsets4[j])) != 0)
    && Count(vis', 0) + (|stack'| - |stack|) <= Count(vis, 0)
  }

  /** Marking a free cell q with v (1 or 2) changes the taken or the rejected cells by q alone. */
  lemma SetFree(w: nat, h: nat, vis: seq<seq<int>>, cur: seq<seq<int>>, q: Cell, v: int)
    requires IsGrid(vis, w, h) && IsGrid(cur, w, h) && OnlyFreeWritten(vis, cur, w, h, true)
    requires InBounds(q, w, h) && At(cur, q) == 0 && (v == 1 || v == 2)
    ensures IsGrid(Set(cur, q, v), w, h) && OnlyFreeWritten(vis, Set(cur, q, v), w, h, true)
    ensures At(vis, q) == 0 && At(Set(cur, q, v), q) == v
    ensures forall c :: c != q ==> (Taken(vis, Set(cur, q, v), c, w, h) <==> Taken(vis, cur, c, w, h))
    ensures forall c :: c != q ==> (Rejected(vis, Set(cur, q, v), c, w, h) <==> Rejected(vis, cur, c, w, h))
    ensures forall c :: InBounds(c, w, h) && c != q ==> At(Set(cur, q, v), c) == At(cur, c)
  {
    var nv := Set(cur, q, v);
    assert At(vis, q) == 0;
    forall y, x | 0 <= y < h && 0 <= x < w && nv[y][x] != vis[y][x]
      ensures vis[y][x] == 0 && (nv[y][x] == 1 || nv[y][x] == 2)
    {
      if (x, y) != q {
        assert nv[y][x] == cur[y][x];
      }
    }
  }

  /** Taking the free matching neighbour k keeps the loop state. */
  lemma Take4(w: nat, h: nat, vis: seq<seq<int>>, cur: seq<seq<int>>, stack: seq<Cell>, st: seq<Cell>,
              p: Cell, matches: Cell -> bool, k: nat)
    requires k < 4 && Push4Inv(w, h, vis, cur, stack, st, p, matches, k)
    requires InBounds(Plus(p, Offsets4[k]), w, h) && At(cur, Plus(p, Offsets4[k])) == 0 && matches(Plus(p, Offsets4[k]))
    ensures Push4Inv(w, h, vis, Set(cur, Plus(p, Offsets4[k]), 1), stack, st + [Plus(p, Offsets4[k])], p, matches, k + 1)
  {
    var q := Plus(p, Offsets4[k]);
    var ns := st + [q];
    var added := st[|stack|..];
    var nv := Set(cur, q, 1);
    SetFree(w, h, vis, cur, q, 1);
    Offsets4Adjacent(p, k);
    CountUpdate(cur, q, 1, 0);
    assert ns[..|stack|] == stack;
    assert ns[|stack|..] == added + [q];
    assert !Taken(vis, cur, q, w, h);
    DistinctSnoc(added, q);
    forall c | InBounds(c, w, h)
      ensures Taken(vis, nv, c, w, h) <==> c in ns[|stack|..]
    {
      if c != q {
        assert Taken(vis, nv, c, w, h) <==> Taken(vis, cur, c, w, h);
      }
    }
    forall c | c in ns[|stack|..]
      ensures InBounds(c, w, h) && matches(c) && Adj4(p, c)
    {
      if c != q {
        assert c in added;
      }
    }
    forall j | 0 <= j < k + 1 && j < 4 && InBounds(Plus(p, Offsets4[j]), w, h)
      ensures At(nv, Plus(p, Offsets4[j])) != 0
    {
      if Plus(p, Offsets4[j]) != q {
        assert At(nv, Plus(p, Offsets4[j])) == At(cur, Plus(p, Offsets4[j]));
      }
    }
  }

  /** Rejecting the free non-matching neighbour k keeps the loop state. */
  lemma Reject4(w: nat, h: nat, vis: seq<seq<int>>, cur: seq<seq<int>>, stack: seq<Cell>, st: seq<Cell>,
                p: Cell, matches: Cell -> bool, k: nat)
    requires k < 4 && Push4Inv(w, h, vis, cur, stack, st, p, matches, k)
    requires InBounds(Plus(p, Offsets4[k]), w, h) && At(cur, Plus(p, Offsets4[k])) == 0 && !matches(Plus(p, Offsets4[k]))
    ensures Push4Inv(w, h, vis, Set(cur, Plus(p, Offsets4[k]), 2), stack, st, p, matches, k + 1)
  {
    var q := Plus(p, Offsets4[k]);
    var nv := Set(cur, q, 2);
    SetFree(w, h, vis, cur, q, 2);
    Offsets4Adjacent(p, k);
    CountUpdate(cur, q, 2, 0);
    assert forall c :: InBounds(c, w, h) ==> (Taken(vis, nv, c, w, h) <==> Taken(vis, cur, c, w, h));
    assert forall c :: Rejected(vis, nv, c, w, h) ==> c == q || Rejected(vis, cur, c, w, h);
  }

  /** Every rejected cell fails the colour test and borders a popped pixel. */
  ghost predicate RejectsBorder(vis0: seq<seq<int>>, vis: seq<seq<int>>, done: seq<Cell>, w: int, h: int, matches: Cell -> bool)
    requires IsGrid(vis0, w, h) && IsGrid(vis, w, h)
  {
    forall c :: Rejected(vis0, vis, c, w, h) ==> !matches(c) && exists p :: p in done && Adj4(p, c)
  }

  /**
   * The state of the 4-connected flood between two pops. `pixels` lists
   * the marked cells in marking order (so the seed first); each of them is
   * either popped already (`done`) or still on the stack.
   */
  ghost predicate Grow4Inv(w: nat, h: nat, vis0: seq<seq<int>>, vis: seq<seq<int>>, s: Cell, matches: Cell -> bool,
                           pixels: seq<Cell>, stack: seq<Cell>, done: seq<Cell>,
                           minX: int, maxX: int, minY: int, maxY: int, parent: seq<int>)
  {
    IsGrid(vis0, w, h) && IsGrid(vis, w, h)
    && OnlyFreeWritten(vis0, vis, w, h, true)
    && ListedIsTaken(vis0, vis, pixels, w, h)
    && (forall c :: c in pixels ==> c == s || matches(c))
    && Distinct(pixels)
    && (forall c :: c in pixels <==> c in done || c in stack)
    && Closed4(vis, done, w, h)
    && RejectsBorder(vis0, vis, done, w, h, matches)
    && 0 <= minX <= s.0 <= maxX < w && 0 <= minY <= s.1 <= maxY < h
    && Boxed(pixels, minX, maxX, minY, maxY)
    && |pixels| > 0 && pixels[0] == s && Chain(pixels, parent, true)
  }

  /** The bounding box widened by the given in-bounds cells, one at a time. */
  method WidenBox(added: seq<Cell>, minX: int, maxX: int, minY: int, maxY: int)
    returns (minX': int, maxX': int, minY': int, maxY': int)
    ensures minX' <= minX && maxX' >= maxX && minY' <= minY && maxY' >= maxY
    ensures Boxed(added, minX', maxX', minY', maxY')
    ensures (minX' == minX || exists c :: c in added && c.0 == minX') && (maxX' == maxX || exists c :: c in added && c.0 == maxX')
    ensures (minY' == minY || exists c :: c in added && c.1 == minY') && (maxY' == maxY || exists c :: c in added && c.1 == maxY')
  {
    minX', maxX', minY', maxY' := minX, maxX, minY, maxY;
    for i := 0 to |added|
      invariant minX' <= minX && maxX' >= maxX && minY' <= minY && maxY' >= maxY
      invariant Boxed(added[..i], minX', maxX', minY', maxY')
      invariant (minX' == minX || exists c :: c in added[..i] && c.0 == minX') && (maxX' == maxX || exists c :: c in added[..i] && c.0 == maxX')
      invariant (minY' == minY || exists c :: c in added[..i] && c.1 == minY') && (maxY' == maxY || exists c :: c in added[..i] && c.1 == maxY')
    {
      var c := added[i];
      assert added[..i + 1] == added[..i] + [c];
      if c.0 < minX' { minX' := c.0; }
      if c.0 > maxX' { maxX' := c.0; }
      if c.1 < minY' { minY' := c.1; }
      if c.1 > maxY' { maxY' := c.1; }
    }
    assert added[..|added|] == added;
  }

  lemma RejectedStep(vis0: seq<seq<int>>, vis: seq<seq<int>>, vis': seq<seq<int>>, w: nat, h: nat,
                     done: seq<Cell>, p: Cell, matches: Cell -> bool)
    requires IsGrid(vis0, w, h) && IsGrid(vis, w, h) && IsGrid(vis', w, h)
    requires OnlyFreeWritten(vis0, vis, w, h, true) && OnlyFreeWritten(vis, vis', w, h, true)
    requires RejectsBorder(vis0, vis, done, w, h, matches)
    requires forall c :: Rejected(vis, vis', c, w, h) ==> !matches(c) && Adj4(p, c)
    ensures RejectsBorder(vis0, vis', done + [p], w, h, matches)
  {
    forall c | Rejected(vis0, vis', c, w, h)
      ensures !matches(c) && exists q :: q in done + [p] && Adj4(q, c)
    {
      if At(vis, c) == 0 {
        assert Rejected(vis, vis', c, w, h);
        assert p in done + [p];
      } else {
        assert At(vis', c) == At(vis, c);
        assert Rejected(vis0, vis, c, w, h);
        var q :| q in done && Adj4(q, c);
        assert q in done + [p];
      }
    }
  }

  lemma Closed4Step(vis: seq<seq<int>>, vis': seq<seq<int>>, done: seq<Cell>, p: Cell, w: nat, h: nat)
    requires IsGrid(vis, w, h) && IsGrid(vis', w, h)
    requires Closed4(vis, done, w, h) && OnlyFreeWritten(vis, vis', w, h, true)
    requires forall k :: 0 <= k < 4 && InBounds(Plus(p, Offsets4[k]), w, h) ==> At(vis', Plus(p, Offsets4[k])) != 0
    ensures Closed4(vis', done + [p], w, h)
  {
    forall q, k | q in done + [p] && 0 <= k < 4 && InBounds(Plus(q, Offsets4[k]), w, h)
      ensures At(vis', Plus(q, Offsets4[k])) != 0
    {
      if q != p {
        assert q in done;
      }
    }
  }

  lemma MembersStep(pixels: seq<Cell>, stack: seq<Cell>, done: seq<Cell>, added: seq<Cell>)
    requires |stack| > 0
    requires forall c :: c in pixels <==> c in done || c in stack
    ensures forall c :: c in pixels + added <==>
      c in done + [stack[|stack| - 1]] || c in stack[..|stack| - 1] + added
  {
    assert stack == stack[..|stack| - 1] + [stack[|stack| - 1]];
  }

  /** One iteration of the flood loop: pop a pixel and mark or reject its free 4-neighbours. */
  method Grow4Step(w: nat, h: nat, ghost vis0: seq<seq<int>>, vis: seq<seq<int>>, s: Cell, matches: Cell -> bool,
                   pixels: seq<Cell>, stack: seq<Cell>, ghost done: seq<Cell>,
                   minX: int, maxX: int, minY: int, maxY: int, ghost parent: seq<int>)
    returns (vis': seq<seq<int>>, pixels': seq<Cell>, stack': seq<Cell>, ghost done': seq<Cell>,
             minX': int, maxX': int, minY': int, maxY': int, ghost parent': seq<int>)
    requires |stack| > 0
    requires Grow4Inv(w, h, vis0, vis, s, matches, pixels, stack, done, minX, maxX, minY, maxY, parent)
    ensures Grow4Inv(w, h, vis0, vis', s, matches, pixels', stack', done', minX', maxX', minY', maxY', parent')
    ensures Count(vis', 0) + |stack'| < Count(vis, 0) + |stack|
  {
    var p := stack[|stack| - 1];
    assert p in pixels;
    var rest := stack[..|stack| - 1];
    vis', stack' := PushNeighbours4(w, h, vis, rest, p, matches);
    var added := stack'[|rest|..];
    assert stack' == rest + added;
    pixels' := pixels + added;
    minX', maxX', minY', maxY' := WidenBox(added, minX, maxX, minY, maxY);
    done' := done + [p];
    TakenStep(vis0, vis, vis', w, h, pixels, added, true);
    FreshNotListed(vis0, vis, pixels, added, w, h);
    DistinctAppend(pixels, added);
    MembersStep(pixels, stack, done, added);
    Closed4Step(vis, vis', done, p, w, h);
    RejectedStep(vis0, vis, vis', w, h, done, p, matches);
    ghost var j :| 0 <= j < |pixels| && pixels[j] == p;
    ChainExtend(pixels, parent, added, j, true);
    parent' := parent + seq(|added|, _ => j);
  }

  lemma InitGrow4(w: nat, h: nat, vis0: seq<seq<int>>, s: Cell, matches: Cell -> bool)
    requires IsGrid(vis0, w, h) && InBounds(s, w, h) && At(vis0, s) == 0
    ensures Grow4Inv(w, h, vis0, Set(vis0, s, 1), s, matches, [s], [s], [], s.0, s.0, s.1, s.1, [-1])
  {
    var vis := Set(vis0, s, 1);
    forall c | InBounds(c, w, h)
      ensures Taken(vis0, vis, c, w, h) <==> c in [s]
    {
      if c != s {
        assert At(vis, c) == At(vis0, c);
      }
    }
  }

  /** What the loop state means once the stack is empty. */
  lemma FinishGrow4(w: nat, h: nat, vis0: seq<seq<int>>, vis: seq<seq<int>>, s: Cell, matches: Cell -> bool,
                    pixels: seq<Cell>, done: seq<Cell>, minX: int, maxX: int, minY: int, maxY: int, parent: seq<int>)
    requires Grow4Inv(w, h, vis0, vis, s, matches, pixels, [], done, minX, maxX, minY, maxY, parent)
    ensures Taken(vis0, vis, s, w, h) && ConnectedFrom(vis0, vis, s, w, h, true)
    ensures forall p, q :: Taken(vis0, vis, p, w, h) && Adj4(p, q) && InBounds(q, w, h) && At(vis0, q) == 0 ==>
      Taken(vis0, vis, q, w, h) || Rejected(vis0, vis, q, w, h)
  {
    assert s in pixels;
    assert forall k :: 0 <= k < |pixels| ==> Taken(vis0, vis, pixels[k], w, h);
    forall p, q | Taken(vis0, vis, p, w, h) && Adj4(p, q) && InBounds(q, w, h) && At(vis0, q) == 0
      ensures Taken(vis0, vis, q, w, h) || Rejected(vis0, vis, q, w, h)
    {
      Offsets4Complete(p, q);
      var k :| 0 <= k < 4 && q == Plus(p, Offsets4[k]);
      assert p in done;
      assert At(vis, q) != 0;
    }
  }

  /**
   * `floodRegion` of wireHotspot.ts. The seed is marked 1 without a colour
   * test (its caller seeds only free cells, with the seed's own colour as
   * the target); each popped pixel's free 4-neighbours are marked 1 and
   * pushed when they match, and marked 2 otherwise. The box, the box-local
   * mask and the pixel count of the marked cells are returned.
   */
  method WireFloodRegion(w: nat, h: nat, vis0: seq<seq<int>>, s: Cell, matches: Cell -> bool)
    returns (res: FloodResult, vis: seq<seq<int>>)
    requires IsGrid(vis0, w, h) && InBounds(s, w, h) && At(vis0, s) == 0
    ensures IsGrid(vis, w, h)
    ensures OnlyFreeWritten(vis0, vis, w, h, true)
    ensures Taken(vis0, vis, s, w, h) && ConnectedFrom(vis0, vis, s, w, h, true)
    ensures forall c :: Taken(vis0, vis, c, w, h) ==> c == s || matches(c)
    ensures forall p, q :: Taken(vis0, vis, p, w, h) && Adj4(p, q) && InBounds(q, w, h) && At(vis0, q) == 0 ==>
      Taken(vis0, vis, q, w, h) || Rejected(vis0, vis, q, w, h)
    ensures forall c :: Rejected(vis0, vis, c, w, h) ==> !matches(c) && exists p :: Taken(vis0, vis, p, w, h) && Adj4(p, c)
    ensures RegionOf(res, vis0, vis, s, w, h)
  {
    var minX, maxX, minY, maxY := s.0, s.0, s.1, s.1;
    var stack: seq<Cell> := [s];
    var pixels: seq<Cell> := [s];
    vis := Set(vis0, s, 1);
    ghost var done: seq<Cell> := [];
    ghost var parent: seq<int> := [-1];
    InitGrow4(w, h, vis0, s, matches);
    while |stack| > 0
      invariant Grow4Inv(w, h, vis0, vis, s, matches, pixels, stack, done, minX, maxX, minY, maxY, parent)
      decreases Count(vis, 0) + |stack|
    {
      vis, pixels, stack, done, minX, maxX, minY, maxY, parent :=
        Grow4Step(w, h, vis0, vis, s, matches, pixels, stack, done, minX, maxX, minY, maxY, parent);
    }
    FinishGrow4(w, h, vis0, vis, s, matches, pixels, done, minX, maxX, minY, maxY, parent);
    forall c | Rejected(vis0, vis, c, w, h)
      ensures exists p :: Taken(vis0, vis, p, w, h) && Adj4(p, c)
    {
      var p :| p in done && Adj4(p, c);
      assert p in pixels;
    }
    var mask := BuildMask(pixels, minX, minY, maxX - minX + 1, maxY - minY + 1);
    res := FloodResult(minX, minY, maxX, maxY, mask, maxX - minX + 1, maxY - minY + 1, |pixels|);
    RegionFromMask(res, vis0, vis, s, w, h, pixels);
  }
}
