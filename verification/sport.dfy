/** Finding the sport tile to open, before and again after logging in. */
module SportSelect {
  import opened BookingPage

  /**
   * Scans the tiles in page order with a `clicked` flag and stops at the
   * first whose name equals `name`; `None` is the "not found" exception.
   */
  method FindSport(tiles: seq<string>, name: string) returns (r: Option<nat>)
    ensures r.Some? ==> r.value < |tiles| && tiles[r.value] == name
    ensures r.Some? ==> forall j :: 0 <= j < r.value ==> tiles[j] != name
    ensures r.None? <==> name !in tiles
  {
    var clicked := false;
    var chosen := 0;
    var i := 0;
    while i < |tiles|
      invariant i <= |tiles|
      invariant !clicked
      invariant forall j :: 0 <= j < i ==> tiles[j] != name
    {
      if tiles[i] == name {
        chosen, clicked := i, true;
        break;
      }
      i := i + 1;
    }
    if !clicked {
      return None;
    }
    r := Some(chosen);
  }
}
