/**
 * The insertion-order colour grouper (`ColorGrouper`). A colour joins the
 * first existing cluster whose centre is within `tol` of it, or else opens a
 * new cluster seeded by itself. The perceptual metric is kept abstract: `L`
 * stands for a Lab value, `toLab` for the sRGB-to-Lab conversion and
 * `deltaE` for the CIE76 distance.
 */
module Grouper {

  import opened Colors
  import opened Wrappers

  /**
   * `centers` and `repr` grow together, one entry per cluster; `cache` maps
   * a packed RGB to the cluster id it was given.
   */
  datatype ColorGrouper<L> = ColorGrouper(centers: seq<L>, repr: seq<Rgb>, cache: map<nat, nat>, tol: real)

  predicate Valid<L>(g: ColorGrouper<L>) {
    && |g.repr| == |g.centers|
    && forall k :: k in g.cache ==> g.cache[k] < |g.centers|
  }

  /** A fresh grouper, as built by `new ColorGrouper(tol)`. */
  function NewGrouper<L>(tol: real): (g: ColorGrouper<L>)
    ensures Valid(g) && |g.centers| == 0
  {
    ColorGrouper([], [], map[], tol)
  }

  /**
   * The scan over the centres starting at index `i`: the first centre within
   * `tol` of `lab`, or None when there is none.
   */
  function FirstWithin<L>(centers: seq<L>, lab: L, tol: real, deltaE: (L, L) -> real, i: nat): (r: Option<nat>)
    requires i <= |centers|
    ensures r.Some? ==> i <= r.value < |centers| && deltaE(lab, centers[r.value]) <= tol
    ensures r.Some? ==> forall j :: i <= j < r.value ==> deltaE(lab, centers[j]) > tol
    ensures r.None? ==> forall j :: i <= j < |centers| ==> deltaE(lab, centers[j]) > tol
    decreases |centers| - i
  {
    if i == |centers| then None
    else if deltaE(lab, centers[i]) <= tol then Some(i)
    else FirstWithin(centers, lab, tol, deltaE, i + 1)
  }

  /**
   * `idForRGB`: the cluster id of a colour and the updated grouper.
   * A cached colour returns its cached id and changes nothing; otherwise the
   * first centre within `tol` wins, or a new cluster is appended with the
   * colour as its representative. Existing centres, representatives and
   * cache entries are never modified.
   */
  function IdForRgb<L>(g: ColorGrouper<L>, c: Rgb, toLab: Rgb -> L, deltaE: (L, L) -> real): (res: (nat, ColorGrouper<L>))
    requires Valid(g)
    ensures Valid(res.1) && res.0 < |res.1.centers|
    ensures res.1.tol == g.tol
    ensures PackRgb(c) in g.cache ==> res == (g.cache[PackRgb(c)], g)
    ensures PackRgb(c) !in g.cache && res.0 < |g.centers| ==>
              deltaE(toLab(c), g.centers[res.0]) <= g.tol
              && (forall j :: 0 <= j < res.0 ==> deltaE(toLab(c), g.centers[j]) > g.tol)
              && res.1.centers == g.centers && res.1.repr == g.repr
    ensures PackRgb(c) !in g.cache && res.0 == |g.centers| ==>
              (forall j :: 0 <= j < |g.centers| ==> deltaE(toLab(c), g.centers[j]) > g.tol)
              && res.1.centers == g.centers + [toLab(c)] && res.1.repr == g.repr + [c]
    ensures res.0 <= |g.centers|
    ensures PackRgb(c) in res.1.cache && res.1.cache[PackRgb(c)] == res.0
    ensures forall k :: k in g.cache ==> k in res.1.cache && res.1.cache[k] == g.cache[k]
    ensures res.1.cache.Keys == g.cache.Keys + {PackRgb(c)}
  {
    var key := PackRgb(c);
    if key in g.cache then (g.cache[key], g)
    else
      var lab := toLab(c);
      match FirstWithin(g.centers, lab, g.tol, deltaE, 0)
      case Some(i) => (i, g.(cache := g.cache[key := i]))
      case None =>
        var id := |g.centers|;
        (id, g.(centers := g.centers + [lab], repr := g.repr + [c], cache := g.cache[key := id]))
  }

  /** `hexFor`: the hex colour of a cluster's representative. */
  function HexFor<L>(g: ColorGrouper<L>, id: nat): (s: string)
    requires Valid(g) && id < |g.centers|
    ensures ParseHex(s) == Some(g.repr[id])
  {
    ParseHexRoundTrip(g.repr[id]);
    RgbToHex(g.repr[id])
  }

  /** The id a grouper has cached for a colour. */
  predicate HasId<L>(g: ColorGrouper<L>, c: Rgb, id: nat) {
    PackRgb(c) in g.cache && g.cache[PackRgb(c)] == id
  }

  /**
   * Clustering two colours with a fresh grouper: the first gets id 0, and the
   * second shares it exactly when it is the same colour or its distance to
   * the first colour's centre is within the tolerance.
   */
  lemma TwoColours<L>(a: Rgb, b: Rgb, tol: real, toLab: Rgb -> L, deltaE: (L, L) -> real)
    ensures var (ia, g1) := IdForRgb(NewGrouper(tol), a, toLab, deltaE);
            var (ib, g2) := IdForRgb(g1, b, toLab, deltaE);
            ia == 0 && (ib == 0 <==> (a == b || deltaE(toLab(b), toLab(a)) <= tol))
  {
    var (ia, g1) := IdForRgb(NewGrouper<L>(tol), a, toLab, deltaE);
    assert g1.centers == [toLab(a)];
    PackRgbInjective(a, b);
  }
}
