/** The row-to-zone lookup of the full application: the first zone, in
    table order, whose inclusive range holds the row. The source turns the
    zone into a display colour and falls back to a default colour when no
    zone matches; here the lookup yields the zone's key, or `None`. */
module ZoneMap {

  import opened Options
  import opened Config

  predicate InZone(z: Zone, row: int)
  {
    z.first <= row <= z.last
  }

  function ZoneForRow(zones: seq<Zone>, row: int): (z: Option<nat>)
    ensures z.None? <==> forall i :: 0 <= i < |zones| ==> !InZone(zones[i], row)
    ensures z.Some? ==> exists i :: 0 <= i < |zones| && zones[i].id == z.value && InZone(zones[i], row) &&
                          forall j :: 0 <= j < i ==> !InZone(zones[j], row)
  {
    if zones == [] then None
    else if InZone(zones[0], row) then Some(zones[0].id)
    else
      var z := ZoneForRow(zones[1..], row);
      assert forall i :: 0 < i < |zones| ==> zones[i] == zones[1..][i - 1];
      z
  }

  /** In a table of consecutive non-empty ranges, every earlier range ends
      before every later one starts. */
  lemma {:induction false} ZonesIncreasing(zs: seq<Zone>, i: int, j: int)
    requires Ordered(zs) && Consecutive(zs)
    requires 0 <= i < j < |zs|
    ensures zs[i].last < zs[j].first
    decreases j - i
  {
    if j > i + 1 {
      ZonesIncreasing(zs, i, j - 1);
    }
  }

  /** Consecutive non-empty ranges cover every row from the first range's
      start to the last range's end. */
  lemma {:induction false} ZonesCover(zs: seq<Zone>, row: int)
    requires |zs| > 0 && Ordered(zs) && Consecutive(zs)
    requires zs[0].first <= row <= zs[|zs| - 1].last
    ensures exists i :: 0 <= i < |zs| && InZone(zs[i], row)
    decreases |zs|
  {
    if !InZone(zs[0], row) {
      var rest := zs[1..];
      assert Ordered(rest) && Consecutive(rest);
      ZonesCover(rest, row);
      var i :| 0 <= i < |rest| && InZone(rest[i], row);
      assert InZone(zs[i + 1], row);
    }
  }

  /** When the table tiles `[first, last]`, each row there lies in exactly one
      zone and the first-match lookup yields that zone; rows outside have no
      zone. */
  lemma {:induction false} PartitionLookup(zs: seq<Zone>, row: int)
    requires |zs| > 0 && Ordered(zs) && Consecutive(zs)
    ensures zs[0].first <= row <= zs[|zs| - 1].last ==>
              exists i :: 0 <= i < |zs| && InZone(zs[i], row) && ZoneForRow(zs, row) == Some(zs[i].id) &&
                          forall j :: 0 <= j < |zs| && InZone(zs[j], row) ==> j == i
    ensures !(zs[0].first <= row <= zs[|zs| - 1].last) ==> ZoneForRow(zs, row) == None
  {
    if zs[0].first <= row <= zs[|zs| - 1].last {
      ZonesCover(zs, row);
      var i :| 0 <= i < |zs| && InZone(zs[i], row);
      forall j | 0 <= j < |zs| && InZone(zs[j], row) ensures j == i {
        if j < i { ZonesIncreasing(zs, j, i); }
        if i < j { ZonesIncreasing(zs, i, j); }
      }
      var z := ZoneForRow(zs, row);
      var k :| 0 <= k < |zs| && zs[k].id == z.value && InZone(zs[k], row) &&
               forall j :: 0 <= j < k ==> !InZone(zs[j], row);
      assert k == i;
    } else {
      forall i | 0 <= i < |zs| ensures !InZone(zs[i], row) {
        if 0 < i { ZonesIncreasing(zs, 0, i); }
        if i < |zs| - 1 { ZonesIncreasing(zs, i, |zs| - 1); }
      }
    }
  }

  /** Every row of the warehouse grid has exactly one zone, found by the
      lookup; no row outside the grid has one. */
  lemma {:induction false} ModelZoneForRow(row: int)
    ensures 0 <= row < GridRows <==> ZoneForRow(ModelZones, row).Some?
    ensures 0 <= row < GridRows ==>
              exists i :: 0 <= i < |ModelZones| && InZone(ModelZones[i], row) &&
                          ZoneForRow(ModelZones, row) == Some(ModelZones[i].id) &&
                          forall j :: 0 <= j < |ModelZones| && InZone(ModelZones[j], row) ==> j == i
  {
    ModelZonesTileGrid();
    PartitionLookup(ModelZones, row);
  }
}
