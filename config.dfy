/** The warehouse's static configuration: grid size, the trolley's origin
    and the row ranges of the model zones. */
module Config {

  import opened Cells

  const GridRows: nat := 30
  const GridCols: nat := 25
  /** The trolley starts in the bottom-left corner. */
  const OriginRow: int := GridRows - 1
  const OriginCol: int := 0

  function Origin(): Cell
  {
    Cell(OriginRow, OriginCol)
  }

  /** A zone: its key and its inclusive row range `(first, last)`. */
  datatype Zone = Zone(id: nat, first: int, last: int)

  /** The `range` fields of the zone table, in key order. */
  const ModelZones: seq<Zone> :=
    [Zone(1, 0, 3), Zone(2, 4, 9), Zone(3, 10, 15), Zone(4, 16, 21), Zone(5, 22, 29)]

  /** Every range is non-empty. */
  predicate Ordered(zs: seq<Zone>)
  {
    forall i :: 0 <= i < |zs| ==> zs[i].first <= zs[i].last
  }

  /** Each range starts on the row after the previous one ends. */
  predicate Consecutive(zs: seq<Zone>)
  {
    forall i :: 0 < i < |zs| ==> zs[i].first == zs[i - 1].last + 1
  }

  lemma OriginInGrid()
    ensures InBounds(Origin(), GridRows, GridCols)
  {
  }

  /** The zone table tiles the rows `0 .. GridRows - 1` in key order. */
  lemma ModelZonesTileGrid()
    ensures |ModelZones| > 0 && Ordered(ModelZones) && Consecutive(ModelZones)
    ensures ModelZones[0].first == 0 && ModelZones[|ModelZones| - 1].last == GridRows - 1
  {
  }
}
