/** The record every tool stores per detected or drawn hotspot. */
module Regions {
  import opened Geometry

  /**
   * A region of one frame: its colour key (`#RRGGBB`, or `#MANUAL` for a
   * hand-drawn one), its outline, the pixel count it was grown from, and
   * whether it was drawn by hand.
   */
  datatype Region = Region(color: string, points: seq<Pt>, pixelArea: int, manual: bool)
}
