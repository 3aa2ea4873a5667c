/**
 * The pure helpers of the wire hotspot studio (WireHotspotStudio.tsx):
 * the ids of the exported JSON, naming the selected colour, the colour
 * legend and its "only unmapped" filter, and the zoom steps. The polygon
 * area and label centroid of the same file are `Geometry.CalculatePolygonArea`
 * and `Geometry.LabelCentroid`.
 */
module Studio {
  import opened Wrappers
  import opened Seqs
  import opened Geometry
  import opened Ids
  import opened WireScan

  /* ---------------------------------------------------------------- */
  /* exportJson                                                         */
  /* ---------------------------------------------------------------- */

  /** `idGlobal ? mapped : mapped + ";" + frame`. */
  function StudioId(colorMap: map<string, string>, color: string, frame: nat, idGlobal: bool): (id: string)
    ensures idGlobal ==> id == Mapped(colorMap, color)
    ensures !idGlobal ==> id == FrameId(Mapped(colorMap, color), frame)
  {
    var mapped := Mapped(colorMap, color);
    if idGlobal then mapped else FrameId(mapped, frame)
  }

  /**
   * Global ids do not depend on the frame; per-frame ids of a colour whose
   * name holds no `;` tell every two frames apart.
   */
  lemma StudioIdFrames(colorMap: map<string, string>, color: string, f1: nat, f2: nat)
    ensures StudioId(colorMap, color, f1, true) == StudioId(colorMap, color, f2, true)
    ensures ';' !in Mapped(colorMap, color) ==>
      (StudioId(colorMap, color, f1, false) == StudioId(colorMap, color, f2, false) <==> f1 == f2)
  {
    var m := Mapped(colorMap, color);
    if ';' !in m {
      FrameIdInjective(m, f1, m, f2);
    }
  }

  /** `rawByFrame[f] || []`. */
  function ItemsOf(raw: map<nat, seq<RawItem>>, f: nat): (its: seq<RawItem>)
    ensures f in raw ==> its == raw[f]
    ensures f !in raw ==> its == []
  {
    if f in raw then raw[f] else []
  }

  /** The exported form of item it listed under frame f: the frame written is f itself. */
  function StudioEntry(it: RawItem, f: nat, colorMap: map<string, string>, idGlobal: bool): (e: ExportItem)
    ensures e.id == StudioId(colorMap, it.color, f, idGlobal) && e.frame == f
    ensures e.points == it.points && e.color == it.color
  {
    ExportItem(StudioId(colorMap, it.color, f, idGlobal), f, it.points, it.color)
  }

  /** The export of the items listed under frame f. */
  function StudioFrame(its: seq<RawItem>, f: nat, colorMap: map<string, string>, idGlobal: bool): (es: seq<ExportItem>)
    ensures |es| == |its|
    ensures forall j :: 0 <= j < |its| ==> es[j] == StudioEntry(its[j], f, colorMap, idGlobal)
  {
    seq(|its|, j requires 0 <= j < |its| => StudioEntry(its[j], f, colorMap, idGlobal))
  }

  /** The items of the frames in `frames` order, each frame's items in order. */
  function StudioItems(frames: seq<nat>, raw: map<nat, seq<RawItem>>, colorMap: map<string, string>, idGlobal: bool): seq<ExportItem>
  {
    if |frames| == 0 then [] else
      StudioItems(frames[..|frames| - 1], raw, colorMap, idGlobal)
        + StudioFrame(ItemsOf(raw, frames[|frames| - 1]), frames[|frames| - 1], colorMap, idGlobal)
  }

  /** The number of items listed under the frames of fs. */
  function ItemCount(fs: seq<nat>, raw: map<nat, seq<RawItem>>): nat
  {
    if |fs| == 0 then 0 else ItemCount(fs[..|fs| - 1], raw) + |ItemsOf(raw, fs[|fs| - 1])|
  }

  /** The position of item j of the i-th listed frame in the export: after every item of the frames before it. */
  function Position(frames: seq<nat>, raw: map<nat, seq<RawItem>>, i: nat, j: nat): nat
    requires i <= |frames|
  {
    ItemCount(frames[..i], raw) + j
  }

  /** The export holds one entry per listed item. */
  lemma {:induction false} StudioItemsLength(frames: seq<nat>, raw: map<nat, seq<RawItem>>, colorMap: map<string, string>, idGlobal: bool)
    ensures |StudioItems(frames, raw, colorMap, idGlobal)| == ItemCount(frames, raw)
    decreases |frames|
  {
    if |frames| > 0 {
      StudioItemsLength(frames[..|frames| - 1], raw, colorMap, idGlobal);
    }
  }

  /** Item j of the i-th listed frame sits at its position in `items`. */
  ghost predicate Placed(items: seq<ExportItem>, frames: seq<nat>, raw: map<nat, seq<RawItem>>, colorMap: map<string, string>,
                         idGlobal: bool, i: nat, j: nat)
    requires i < |frames| && j < |ItemsOf(raw, frames[i])|
  {
    Position(frames, raw, i, j) < |items|
    && items[Position(frames, raw, i, j)] == StudioEntry(ItemsOf(raw, frames[i])[j], frames[i], colorMap, idGlobal)
  }

  /** Placement for one more listed frame, given placement for the frames before it. */
  lemma PlacedStep(frames: seq<nat>, raw: map<nat, seq<RawItem>>, colorMap: map<string, string>, idGlobal: bool, i: nat, j: nat)
    requires i < |frames| && j < |ItemsOf(raw, frames[i])|
    requires i < |frames| - 1 ==> Placed(StudioItems(frames[..|frames| - 1], raw, colorMap, idGlobal), frames[..|frames| - 1], raw, colorMap, idGlobal, i, j)
    ensures Placed(StudioItems(frames, raw, colorMap, idGlobal), frames, raw, colorMap, idGlobal, i, j)
  {
    var n := |frames|;
    var init := frames[..n - 1];
    var pre := StudioItems(init, raw, colorMap, idGlobal);
    var tail := StudioFrame(ItemsOf(raw, frames[n - 1]), frames[n - 1], colorMap, idGlobal);
    assert StudioItems(frames, raw, colorMap, idGlobal) == pre + tail;
    var e := StudioEntry(ItemsOf(raw, frames[i])[j], frames[i], colorMap, idGlobal);
    var p := Position(frames, raw, i, j);
    if i < n - 1 {
      assert init[..i] == frames[..i];
      assert init[i] == frames[i];
      assert p == Position(init, raw, i, j);
      assert p < |pre| && pre[p] == e;
      assert (pre + tail)[p] == e;
    } else {
      StudioItemsLength(init, raw, colorMap, idGlobal);
      assert p == |pre| + j;
      assert tail[j] == e;
      assert (pre + tail)[p] == e;
    }
  }

  /** Every listed item sits at its position in the export. */
  lemma {:induction false} StudioItemsAt(frames: seq<nat>, raw: map<nat, seq<RawItem>>, colorMap: map<string, string>, idGlobal: bool)
    ensures forall i: nat, j: nat :: i < |frames| && j < |ItemsOf(raw, frames[i])| ==>
      Placed(StudioItems(frames, raw, colorMap, idGlobal), frames, raw, colorMap, idGlobal, i, j)
    decreases |frames|
  {
    if |frames| > 0 {
      StudioItemsAt(frames[..|frames| - 1], raw, colorMap, idGlobal);
      forall i: nat, j: nat | i < |frames| && j < |ItemsOf(raw, frames[i])|
        ensures Placed(StudioItems(frames, raw, colorMap, idGlobal), frames, raw, colorMap, idGlobal, i, j)
      {
        if i < |frames| - 1 {
          assert frames[..|frames| - 1][i] == frames[i];
        }
        PlacedStep(frames, raw, colorMap, idGlobal, i, j);
      }
    }
  }

  /** Counting items over a longer prefix of the frame list never gives fewer. */
  lemma {:induction false} ItemCountGrows(frames: seq<nat>, raw: map<nat, seq<RawItem>>, i: nat, k: nat)
    requires i < k <= |frames|
    ensures ItemCount(frames[..i], raw) + |ItemsOf(raw, frames[i])| <= ItemCount(frames[..k], raw)
    decreases k - i
  {
    assert frames[..i + 1][..i] == frames[..i];
    if i + 1 < k {
      ItemCountGrows(frames, raw, i, k - 1);
      assert frames[..k][..k - 1] == frames[..k - 1];
    }
  }

  /**
   * Export order: item j of listed frame i comes before item j' of listed
   * frame i' whenever (i, j) comes before (i', j') lexicographically.
   */
  lemma PositionsOrdered(frames: seq<nat>, raw: map<nat, seq<RawItem>>, i: nat, j: nat, i': nat, j': nat)
    requires i < |frames| && j < |ItemsOf(raw, frames[i])|
    requires i' < |frames|
    requires i < i' || (i == i' && j < j')
    ensures Position(frames, raw, i, j) < Position(frames, raw, i', j')
  {
    if i < i' {
      ItemCountGrows(frames, raw, i, i');
    }
  }

  /** e is the export of item j of the i-th listed frame. */
  predicate ExportOf(e: ExportItem, frames: seq<nat>, raw: map<nat, seq<RawItem>>, colorMap: map<string, string>,
                     idGlobal: bool, i: int, j: int) {
    0 <= i < |frames| && 0 <= j < |ItemsOf(raw, frames[i])|
    && e == StudioEntry(ItemsOf(raw, frames[i])[j], frames[i], colorMap, idGlobal)
  }

  /**
   * `exportJson`: nothing when the base width or height is 0; otherwise
   * exactly the items of the listed frames, each with its frame and the
   * id chosen by `idGlobal`.
   */
  function ExportJson(baseW: nat, baseH: nat, frames: seq<nat>, raw: map<nat, seq<RawItem>>,
                      colorMap: map<string, string>, idGlobal: bool): (r: Option<seq<ExportItem>>)
    ensures r.None? <==> baseW == 0 || baseH == 0
    ensures r.Some? ==> forall e :: e in r.value <==>
      exists i, j :: ExportOf(e, frames, raw, colorMap, idGlobal, i, j)
    ensures r.Some? ==> |r.value| == ItemCount(frames, raw)
    ensures r.Some? ==> forall i: nat, j: nat :: i < |frames| && j < |ItemsOf(raw, frames[i])| ==>
      Placed(r.value, frames, raw, colorMap, idGlobal, i, j)
  {
    if baseW == 0 || baseH == 0 then None else
      StudioItemsMembers(frames, raw, colorMap, idGlobal);
      StudioItemsLength(frames, raw, colorMap, idGlobal);
      StudioItemsAt(frames, raw, colorMap, idGlobal);
      Some(StudioItems(frames, raw, colorMap, idGlobal))
  }

  lemma {:induction false} StudioItemsMembers(frames: seq<nat>, raw: map<nat, seq<RawItem>>, colorMap: map<string, string>, idGlobal: bool)
    ensures forall e :: e in StudioItems(frames, raw, colorMap, idGlobal) <==>
      exists i, j :: ExportOf(e, frames, raw, colorMap, idGlobal, i, j)
    decreases |frames|
  {
    if |frames| > 0 {
      StudioItemsMembers(frames[..|frames| - 1], raw, colorMap, idGlobal);
      forall e ensures e in StudioItems(frames, raw, colorMap, idGlobal) <==> StudioExported(e, frames, raw, colorMap, idGlobal) {
        StudioMemberStep(frames, raw, colorMap, idGlobal, e);
      }
    }
  }

  ghost predicate StudioExported(e: ExportItem, frames: seq<nat>, raw: map<nat, seq<RawItem>>, colorMap: map<string, string>, idGlobal: bool) {
    exists i, j :: ExportOf(e, frames, raw, colorMap, idGlobal, i, j)
  }

  /** Membership for one more listed frame, given membership for the frames before it. */
  lemma StudioMemberStep(frames: seq<nat>, raw: map<nat, seq<RawItem>>, colorMap: map<string, string>, idGlobal: bool, e: ExportItem)
    requires |frames| > 0
    requires e in StudioItems(frames[..|frames| - 1], raw, colorMap, idGlobal) <==> StudioExported(e, frames[..|frames| - 1], raw, colorMap, idGlobal)
    ensures e in StudioItems(frames, raw, colorMap, idGlobal) <==> StudioExported(e, frames, raw, colorMap, idGlobal)
  {
    var init, last := frames[..|frames| - 1], frames[|frames| - 1];
    var tail := StudioFrame(ItemsOf(raw, last), last, colorMap, idGlobal);
    assert StudioItems(frames, raw, colorMap, idGlobal) == StudioItems(init, raw, colorMap, idGlobal) + tail;
    if e in tail {
      LastFrameExported(frames, raw, colorMap, idGlobal, e);
    }
    if StudioExported(e, init, raw, colorMap, idGlobal) {
      PrefixExported(frames, raw, colorMap, idGlobal, e);
    }
    if StudioExported(e, frames, raw, colorMap, idGlobal) {
      ExportedSplit(frames, raw, colorMap, idGlobal, e);
    }
  }

  lemma LastFrameExported(frames: seq<nat>, raw: map<nat, seq<RawItem>>, colorMap: map<string, string>, idGlobal: bool, e: ExportItem)
    requires |frames| > 0
    requires e in StudioFrame(ItemsOf(raw, frames[|frames| - 1]), frames[|frames| - 1], colorMap, idGlobal)
    ensures StudioExported(e, frames, raw, colorMap, idGlobal)
  {
    var tail := StudioFrame(ItemsOf(raw, frames[|frames| - 1]), frames[|frames| - 1], colorMap, idGlobal);
    var j :| 0 <= j < |tail| && tail[j] == e;
    assert ExportOf(e, frames, raw, colorMap, idGlobal, |frames| - 1, j);
  }

  lemma PrefixExported(frames: seq<nat>, raw: map<nat, seq<RawItem>>, colorMap: map<string, string>, idGlobal: bool, e: ExportItem)
    requires |frames| > 0 && StudioExported(e, frames[..|frames| - 1], raw, colorMap, idGlobal)
    ensures StudioExported(e, frames, raw, colorMap, idGlobal)
  {
    var init := frames[..|frames| - 1];
    var i, j :| ExportOf(e, init, raw, colorMap, idGlobal, i, j);
    assert init[i] == frames[i];
    assert ExportOf(e, frames, raw, colorMap, idGlobal, i, j);
  }

  /** An export of the listed frames comes from the last frame or from the frames before it. */
  lemma ExportedSplit(frames: seq<nat>, raw: map<nat, seq<RawItem>>, colorMap: map<string, string>, idGlobal: bool, e: ExportItem)
    requires |frames| > 0 && StudioExported(e, frames, raw, colorMap, idGlobal)
    ensures e in StudioFrame(ItemsOf(raw, frames[|frames| - 1]), frames[|frames| - 1], colorMap, idGlobal)
         || StudioExported(e, frames[..|frames| - 1], raw, colorMap, idGlobal)
  {
    var init := frames[..|frames| - 1];
    var i, j :| ExportOf(e, frames, raw, colorMap, idGlobal, i, j);
    if i == |frames| - 1 {
      var tail := StudioFrame(ItemsOf(raw, frames[|frames| - 1]), frames[|frames| - 1], colorMap, idGlobal);
      assert tail[j] == e;
    } else {
      assert init[i] == frames[i];
      assert ExportOf(e, init, raw, colorMap, idGlobal, i, j);
    }
  }

  /**
   * With per-frame ids and every listed frame present with items tagged by
   * their frame, the studio's export is the batch export of the wire scan.
   */
  lemma {:induction false} StudioMatchesWireExport(frames: seq<nat>, raw: map<nat, seq<RawItem>>, colorMap: map<string, string>)
    requires forall i :: 0 <= i < |frames| ==> frames[i] in raw
    requires FramesTagged(raw)
    ensures StudioItems(frames, raw, colorMap, false) == ExportItems(frames, raw, colorMap)
    decreases |frames|
  {
    if |frames| > 0 {
      var init, last := frames[..|frames| - 1], frames[|frames| - 1];
      StudioMatchesWireExport(init, raw, colorMap);
      var a, b := StudioFrame(raw[last], last, colorMap, false), ExportAll(raw[last], colorMap);
      forall j | 0 <= j < |a|
        ensures a[j] == b[j]
      {
        assert raw[last][j].frame == last;
      }
    }
  }

  /* ---------------------------------------------------------------- */
  /* applyNameToSelected                                                */
  /* ---------------------------------------------------------------- */

  /**
   * `applyNameToSelected`: without a selected colour or an id number the
   * map is unchanged; otherwise the selected colour is named
   * `prefix + number` and every other entry stays as it was.
   */
  function ApplyName(colorMap: map<string, string>, selected: string, prefix: string, number: string): (m: map<string, string>)
    ensures selected == "" || number == "" ==> m == colorMap
    ensures selected != "" && number != "" ==> selected in m && m[selected] == prefix + number
    ensures forall c :: c != selected ==> (c in m <==> c in colorMap) && (c in m ==> m[c] == colorMap[c])
  {
    if selected == "" || number == "" then colorMap else colorMap[selected := prefix + number]
  }

  /**
   * After naming, the selected colour's label is the new name and every
   * other colour keeps its label (`colorMap[hex] || hex`).
   */
  lemma ApplyNameLabels(colorMap: map<string, string>, selected: string, prefix: string, number: string, c: string)
    requires selected != "" && number != ""
    ensures Mapped(ApplyName(colorMap, selected, prefix, number), selected) == prefix + number
    ensures c != selected ==> Mapped(ApplyName(colorMap, selected, prefix, number), c) == Mapped(colorMap, c)
  {
  }

  /* ---------------------------------------------------------------- */
  /* legend                                                             */
  /* ---------------------------------------------------------------- */

  /** One legend row: a colour and its name, or "" when it has none. */
  datatype LegendEntry = LegendEntry(color: string, mapped: string)

  /** `colorMap[color] || ""`. */
  function NameOf(colorMap: map<string, string>, color: string): (name: string)
    ensures name != "" <==> color in colorMap && colorMap[color] != ""
    ensures name != "" ==> name == colorMap[color]
  {
    if color in colorMap then colorMap[color] else ""
  }

  predicate HasColor(legend: seq<LegendEntry>, color: string) {
    exists k :: 0 <= k < |legend| && legend[k].color == color
  }

  /** Rows with pairwise different colours. */
  predicate DistinctColors(legend: seq<LegendEntry>) {
    forall a, b :: 0 <= a < b < |legend| ==> legend[a].color != legend[b].color
  }

  /**
   * The entries of a `Map` filled with `m.set(it.color, …)` over the items:
   * one row per distinct colour in first-appearance order.
   */
  function Legend(its: seq<RawItem>, colorMap: map<string, string>): (legend: seq<LegendEntry>)
    ensures DistinctColors(legend)
    ensures forall c :: HasColor(legend, c) <==> exists j :: 0 <= j < |its| && its[j].color == c
    ensures forall k :: 0 <= k < |legend| ==> legend[k].mapped == NameOf(colorMap, legend[k].color)
  {
    if |its| == 0 then [] else
      var pre := Legend(its[..|its| - 1], colorMap);
      var c := its[|its| - 1].color;
      assert forall j :: 0 <= j < |its| - 1 ==> its[..|its| - 1][j] == its[j];
      if HasColor(pre, c) then pre else
        var legend := pre + [LegendEntry(c, NameOf(colorMap, c))];
        assert legend[|pre|].color == c;
        assert forall k :: 0 <= k < |pre| ==> legend[k] == pre[k];
        assert forall c' :: HasColor(legend, c') <==> HasColor(pre, c') || c' == c by {
          forall c' | HasColor(legend, c')
            ensures HasColor(pre, c') || c' == c
          {
            var k :| 0 <= k < |legend| && legend[k].color == c';
            if k < |pre| {
              assert pre[k].color == c';
            }
          }
        }
        legend
  }

  /**
   * The legend of the previewed frame: empty when no frame is selected or
   * the frame has no image, else the legend of its items (`rawByFrame[f] || []`).
   */
  function PreviewLegend(frame: Option<nat>, images: set<nat>, raw: map<nat, seq<RawItem>>,
                         colorMap: map<string, string>): (legend: seq<LegendEntry>)
    ensures frame.None? || frame.value !in images ==> legend == []
    ensures frame.Some? && frame.value in images ==> legend == Legend(ItemsOf(raw, frame.value), colorMap)
  {
    if frame.None? || frame.value !in images then [] else Legend(ItemsOf(raw, frame.value), colorMap)
  }

  /** `legendToShow`: the rows with an empty name when `showOnlyUnmapped`, else every row. */
  function LegendToShow(legend: seq<LegendEntry>, onlyUnmapped: bool): (shown: seq<LegendEntry>)
    ensures !onlyUnmapped ==> shown == legend
    ensures onlyUnmapped ==> forall e :: e in shown <==> e in legend && e.mapped == ""
    ensures |shown| <= |legend|
  {
    if !onlyUnmapped || |legend| == 0 then legend else
      var pre := LegendToShow(legend[..|legend| - 1], true);
      var e := legend[|legend| - 1];
      assert legend == legend[..|legend| - 1] + [e];
      if e.mapped == "" then pre + [e] else pre
  }

  /** Appending a row to the legend keeps a restriction, with or without showing the new row. */
  lemma RowsSnoc(shown: seq<LegendEntry>, init: seq<LegendEntry>, pre: seq<int>, e: LegendEntry)
    requires SubseqAt(shown, init, pre)
    ensures SubseqAt(shown, init + [e], pre)
    ensures SubseqAt(shown + [e], init + [e], pre + [|init|])
    ensures |init| !in pre
  {
    var L := init + [e];
    forall k | 0 <= k < |pre|
      ensures L[pre[k]] == init[pre[k]]
    {
    }
    var S, I := shown + [e], pre + [|init|];
    forall k | 0 <= k < |I|
      ensures 0 <= I[k] < |L| && S[k] == L[I[k]]
    {
      if k < |pre| {
        assert I[k] == pre[k] && S[k] == shown[k];
      }
    }
  }

  /** With "only unmapped", the rows shown are the rows with an empty name, at increasing positions. */
  lemma {:induction false} UnmappedRows(legend: seq<LegendEntry>) returns (idx: seq<int>)
    ensures SubseqAt(LegendToShow(legend, true), legend, idx)
    ensures forall i :: 0 <= i < |legend| ==> (i in idx <==> legend[i].mapped == "")
  {
    if |legend| == 0 {
      idx := [];
    } else {
      var init := legend[..|legend| - 1];
      var e := legend[|legend| - 1];
      var pre := UnmappedRows(init);
      var shownInit := LegendToShow(init, true);
      assert legend == init + [e];
      RowsSnoc(shownInit, init, pre, e);
      if e.mapped == "" {
        idx := pre + [|init|];
        assert LegendToShow(legend, true) == shownInit + [e];
      } else {
        idx := pre;
        assert LegendToShow(legend, true) == shownInit;
      }
      forall i | 0 <= i < |legend|
        ensures i in idx <==> legend[i].mapped == ""
      {
        if i < |init| {
          assert legend[i] == init[i];
          assert i in idx <==> i in pre;
        } else {
          assert i !in pre && legend[i] == e;
        }
      }
    }
  }

  /**
   * `filter` keeps the legend's row order: the rows shown are the legend's
   * rows at increasing positions, namely every position whose row has an
   * empty name (every position when the filter is off).
   */
  lemma LegendToShowOrdered(legend: seq<LegendEntry>, onlyUnmapped: bool) returns (idx: seq<int>)
    ensures SubseqAt(LegendToShow(legend, onlyUnmapped), legend, idx)
    ensures forall i :: 0 <= i < |legend| ==> (i in idx <==> !onlyUnmapped || legend[i].mapped == "")
  {
    if onlyUnmapped {
      idx := UnmappedRows(legend);
    } else {
      idx := seq(|legend|, k => k);
      forall i | 0 <= i < |legend|
        ensures i in idx
      {
        assert idx[i] == i;
      }
    }
  }

  /** With "only unmapped", a legend colour is listed exactly when it has no name. */
  lemma ShownUnmapped(its: seq<RawItem>, colorMap: map<string, string>, c: string)
    ensures (exists e :: e in LegendToShow(Legend(its, colorMap), true) && e.color == c) <==>
      HasColor(Legend(its, colorMap), c) && NameOf(colorMap, c) == ""
  {
    var legend := Legend(its, colorMap);
    if HasColor(legend, c) && NameOf(colorMap, c) == "" {
      var k :| 0 <= k < |legend| && legend[k].color == c;
      assert legend[k] in legend;
    }
  }

  /**
   * With "only unmapped", a colour is listed exactly when an item of the
   * frame has it and the colour map gives it no non-empty name.
   */
  lemma LegendShowsUnmapped(its: seq<RawItem>, colorMap: map<string, string>, c: string)
    ensures (exists e :: e in LegendToShow(Legend(its, colorMap), true) && e.color == c) <==>
      (exists j :: 0 <= j < |its| && its[j].color == c) && !(c in colorMap && colorMap[c] != "")
  {
    ShownUnmapped(its, colorMap, c);
  }

  /* ---------------------------------------------------------------- */
  /* zoom                                                               */
  /* ---------------------------------------------------------------- */

  /*
   * Zoom factors are kept in hundredths: every step adds or removes 0.1
   * and rounds with `toFixed(2)`, so starting from 1 the factor is always
   * a whole number of hundredths.
   */

  const MinZoom: int := 25
  const MaxZoom: int := 300

  predicate ZoomOk(z: int) {
    MinZoom <= z <= MaxZoom
  }

  /** `Math.min(3, z + 0.1)`: the + key and button. */
  function ZoomIn(z: int): (z': int)
    ensures z' <= MaxZoom
    ensures z + 10 <= MaxZoom ==> z' == z + 10
    ensures z + 10 > MaxZoom ==> z' == MaxZoom
  {
    if z + 10 <= MaxZoom then z + 10 else MaxZoom
  }

  /** `Math.max(0.25, z - 0.1)`: the - key and button. */
  function ZoomOut(z: int): (z': int)
    ensures z' >= MinZoom
    ensures z - 10 >= MinZoom ==> z' == z - 10
    ensures z - 10 < MinZoom ==> z' == MinZoom
  {
    if z - 10 >= MinZoom then z - 10 else MinZoom
  }

  /** The wheel: out by 0.1 for a positive deltaY, else in by 0.1, clamped on both sides. */
  function Wheel(z: int, deltaY: real): (z': int)
    ensures ZoomOk(z')
    ensures ZoomOk(z) && deltaY > 0.0 ==> z' == ZoomOut(z)
    ensures ZoomOk(z) && deltaY <= 0.0 ==> z' == ZoomIn(z)
  {
    var d := if deltaY > 0.0 then -10 else 10;
    if z + d > MaxZoom then MaxZoom else if z + d < MinZoom then MinZoom else z + d
  }

  datatype ZoomAction = In | Out | Reset | Scroll(deltaY: real)

  function ZoomStep(z: int, a: ZoomAction): int {
    match a
    case In => ZoomIn(z)
    case Out => ZoomOut(z)
    case Reset => 100
    case Scroll(d) => Wheel(z, d)
  }

  function ZoomRun(z: int, actions: seq<ZoomAction>): int
    decreases |actions|
  {
    if |actions| == 0 then z else ZoomRun(ZoomStep(z, actions[0]), actions[1..])
  }

  /** Every step keeps a zoom in [0.25, 3] inside it, although the keys and buttons clamp on one side only. */
  lemma ZoomStepOk(z: int, a: ZoomAction)
    requires ZoomOk(z)
    ensures ZoomOk(ZoomStep(z, a))
  {
  }

  /** From the initial zoom 1, any sequence of steps stays in [0.25, 3]. */
  lemma {:induction false} ZoomRunOk(z: int, actions: seq<ZoomAction>)
    requires ZoomOk(z)
    ensures ZoomOk(ZoomRun(z, actions))
    decreases |actions|
  {
    if |actions| > 0 {
      ZoomStepOk(z, actions[0]);
      ZoomRunOk(ZoomStep(z, actions[0]), actions[1..]);
    }
  }
}
