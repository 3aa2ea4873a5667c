/**
 * Raster buffers. The source keeps every image, mask and `visited` buffer
 * as a flat array indexed by `y * w + x`; here a w x h buffer is a
 * sequence of h rows of w cells, so `g[y][x]` is the source's
 * `buf[y * w + x]` and no index arithmetic is needed.
 */
module Grid {
  /** A pixel position (x, y). */
  type Cell = (int, int)

  predicate IsGrid<T>(g: seq<seq<T>>, w: int, h: int) {
    |g| == h && forall y :: 0 <= y < h ==> |g[y]| == w
  }

  predicate InBounds(c: Cell, w: int, h: int) {
    0 <= c.0 < w && 0 <= c.1 < h
  }

  /** A w x h buffer holding v everywhere, as `new Uint8Array(w * h)` does with 0. */
  function Fill<T>(w: nat, h: nat, v: T): (g: seq<seq<T>>)
    ensures IsGrid(g, w, h)
    ensures forall y, x :: 0 <= y < h && 0 <= x < w ==> g[y][x] == v
  {
    seq(h, _ => seq(w, _ => v))
  }

  /** The buffer with the single cell c overwritten by v. */
  function Set<T>(g: seq<seq<T>>, c: Cell, v: T): (g': seq<seq<T>>)
    requires 0 <= c.1 < |g| && 0 <= c.0 < |g[c.1]|
    ensures |g'| == |g| && forall y :: 0 <= y < |g| ==> |g'[y]| == |g[y]|
    ensures g'[c.1][c.0] == v
    ensures forall y, x :: 0 <= y < |g| && 0 <= x < |g[y]| && (x, y) != c ==> g'[y][x] == g[y][x]
  {
    g[c.1 := g[c.1][c.0 := v]]
  }

  /** Pixels a and b touch, including diagonally. */
  predicate Adj8(a: Cell, b: Cell) {
    a != b && -1 <= a.0 - b.0 <= 1 && -1 <= a.1 - b.1 <= 1
  }

  /** Pixels a and b share an edge. */
  predicate Adj4(a: Cell, b: Cell) {
    (a.0 == b.0 && (a.1 - b.1 == 1 || b.1 - a.1 == 1)) || (a.1 == b.1 && (a.0 - b.0 == 1 || b.0 - a.0 == 1))
  }

  predicate Distinct(s: seq<Cell>) {
    forall i, j :: 0 <= i < j < |s| ==> s[i] != s[j]
  }

  // ---------------------------------------------------------------------
  // Counting cells
  // ---------------------------------------------------------------------

  function CountRow<T(==)>(r: seq<T>, v: T): (n: nat)
    ensures n <= |r|
  {
    if |r| == 0 then 0 else CountRow(r[..|r| - 1], v) + (if r[|r| - 1] == v then 1 else 0)
  }

  /** The number of cells holding v. */
  function Count<T(==)>(g: seq<seq<T>>, v: T): nat {
    if |g| == 0 then 0 else Count(g[..|g| - 1], v) + CountRow(g[|g| - 1], v)
  }

  lemma {:induction false} CountRowUpdate<T>(r: seq<T>, x: nat, u: T, v: T)
    requires x < |r|
    ensures CountRow(r[x := u], v) + (if r[x] == v then 1 else 0) == CountRow(r, v) + (if u == v then 1 else 0)
    decreases |r|
  {
    if x < |r| - 1 {
      assert r[x := u][..|r| - 1] == r[..|r| - 1][x := u];
      CountRowUpdate(r[..|r| - 1], x, u, v);
    } else {
      assert r[x := u][..|r| - 1] == r[..|r| - 1];
    }
  }

  /** Overwriting one cell changes each count by at most the one cell. */
  lemma {:induction false} CountUpdate<T>(g: seq<seq<T>>, c: Cell, u: T, v: T)
    requires 0 <= c.1 < |g| && 0 <= c.0 < |g[c.1]|
    ensures Count(Set(g, c, u), v) + (if g[c.1][c.0] == v then 1 else 0) == Count(g, v) + (if u == v then 1 else 0)
    decreases |g|
  {
    var g' := Set(g, c, u);
    if c.1 < |g| - 1 {
      assert g'[..|g| - 1] == Set(g[..|g| - 1], c, u);
      CountUpdate(g[..|g| - 1], c, u, v);
    } else {
      assert g'[..|g| - 1] == g[..|g| - 1];
      CountRowUpdate(g[c.1], c.0, u, v);
    }
  }

  lemma {:induction false} CountRowAll<T>(r: seq<T>, v: T)
    ensures (forall x :: 0 <= x < |r| ==> r[x] == v) <==> CountRow(r, v) == |r|
    decreases |r|
  {
    if |r| > 0 {
      CountRowAll(r[..|r| - 1], v);
      if CountRow(r, v) == |r| {
        assert r[|r| - 1] == v;
        forall x | 0 <= x < |r| ensures r[x] == v {
          if x < |r| - 1 {
            assert r[x] == r[..|r| - 1][x];
          }
        }
      }
    }
  }

  /** A w x h buffer has at most w * h cells of any value, and exactly w * h only if it is v everywhere. */
  lemma {:induction false} CountAll<T>(g: seq<seq<T>>, v: T, w: nat, h: nat)
    requires IsGrid(g, w, h)
    ensures Count(g, v) <= w * h
    ensures (forall y, x :: 0 <= y < h && 0 <= x < w ==> g[y][x] == v) <==> Count(g, v) == w * h
    decreases h
  {
    if h > 0 {
      var init := g[..h - 1];
      CountAll(init, v, w, h - 1);
      CountRowAll(g[h - 1], v);
      assert w * h == w * (h - 1) + w;
      if Count(g, v) == w * h {
        forall y, x | 0 <= y < h && 0 <= x < w ensures g[y][x] == v {
          if y < h - 1 {
            assert g[y] == init[y];
          }
        }
      }
    }
  }

  lemma {:induction false} CountFill<T>(w: nat, h: nat, v: T, u: T)
    requires u != v
    ensures Count(Fill(w, h, v), u) == 0
    decreases h
  {
    if h > 0 {
      assert Fill(w, h, v)[..h - 1] == Fill(w, h - 1, v);
      CountFill(w, h - 1, v, u);
      CountRowAll(Fill(w, h, v)[h - 1], v);
      CountRowNone(Fill(w, h, v)[h - 1], v, u);
    }
  }

  lemma {:induction false} CountRowNone<T>(r: seq<T>, v: T, u: T)
    requires u != v && forall x :: 0 <= x < |r| ==> r[x] == v
    ensures CountRow(r, u) == 0
    decreases |r|
  {
    if |r| > 0 {
      CountRowNone(r[..|r| - 1], v, u);
    }
  }

  lemma {:induction false} CountPositive<T>(g: seq<seq<T>>, v: T, y: nat, x: nat)
    requires y < |g| && x < |g[y]| && g[y][x] == v
    ensures Count(g, v) > 0
    decreases |g|
  {
    if y < |g| - 1 {
      assert g[y] == g[..|g| - 1][y];
      CountPositive(g[..|g| - 1], v, y, x);
    } else {
      CountRowPositive(g[y], v, x);
    }
  }

  lemma {:induction false} CountRowPositive<T>(r: seq<T>, v: T, x: nat)
    requires x < |r| && r[x] == v
    ensures CountRow(r, v) > 0
    decreases |r|
  {
    if x < |r| - 1 {
      assert r[x] == r[..|r| - 1][x];
      CountRowPositive(r[..|r| - 1], v, x);
    }
  }

  /** A buffer that holds v everywhere has no cell holding anything else. */
  lemma {:induction false} CountNone<T>(g: seq<seq<T>>, v: T, u: T)
    requires u != v
    requires forall y, x :: 0 <= y < |g| && 0 <= x < |g[y]| ==> g[y][x] == v
    ensures Count(g, u) == 0
    decreases |g|
  {
    if |g| > 0 {
      CountNone(g[..|g| - 1], v, u);
      CountRowNone(g[|g| - 1], v, u);
    }
  }

  // ---------------------------------------------------------------------
  // The flat layout
  // ---------------------------------------------------------------------

  /** The rows laid end to end: the source's flat buffer. */
  function Flatten<T>(g: seq<seq<T>>): (f: seq<T>)
  {
    if |g| == 0 then [] else Flatten(g[..|g| - 1]) + g[|g| - 1]
  }

  /** Cell (x, y) of a w x h buffer sits at index y * w + x of its flat form. */
  lemma FlattenIndex<T>(g: seq<seq<T>>, w: nat, h: nat, x: nat, y: nat)
    requires IsGrid(g, w, h) && x < w && y < h
    ensures y * w + x < w * h
    ensures |Flatten(g)| == w * h && Flatten(g)[y * w + x] == g[y][x]
  {
    RowIndexBound(y, h, w, x);
    FlattenLength(g, w, h);
    FlattenLength(g[..y], w, y);
    FlattenAt(g, x, y);
  }

  /** Cell (x, y) sits right after the flattened rows above it. */
  lemma FlattenAt<T>(g: seq<seq<T>>, x: nat, y: nat)
    requires y < |g| && x < |g[y]|
    ensures |Flatten(g[..y])| + x < |Flatten(g)|
    ensures Flatten(g)[|Flatten(g[..y])| + x] == g[y][x]
  {
    var upTo := g[..y + 1];
    assert upTo[..y] == g[..y];
    var pre := Flatten(g[..y]);
    assert Flatten(upTo) == pre + g[y];
    FlattenPrefix(g, y + 1);
    assert Flatten(g)[|pre| + x] == Flatten(upTo)[|pre| + x];
  }

  /** Row y of h rows of width w ends inside the buffer. */
  lemma RowIndexBound(y: nat, h: nat, w: nat, x: nat)
    requires y < h && x < w
    ensures y * w + x < w * h
  {
    assert y * w + w == (y + 1) * w;
    assert (y + 1) * w <= h * w;
  }

  /** Flattening the first n rows gives a prefix of the whole flat buffer. */
  lemma {:induction false} FlattenPrefix<T>(g: seq<seq<T>>, n: nat)
    requires n <= |g|
    ensures Flatten(g[..n]) <= Flatten(g)
    decreases |g|
  {
    if n < |g| {
      var init := g[..|g| - 1];
      FlattenPrefix(init, n);
      assert init[..n] == g[..n];
    } else {
      assert g[..n] == g;
    }
  }

  lemma {:induction false} FlattenLength<T>(g: seq<seq<T>>, w: nat, h: nat)
    requires IsGrid(g, w, h)
    ensures |Flatten(g)| == w * h
    decreases h
  {
    if h > 0 {
      FlattenLength(g[..h - 1], w, h - 1);
      assert w * h == w * (h - 1) + w;
    }
  }
}
