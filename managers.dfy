/**
 * The two global stores the tile entity talks to: the waystone registry and the
 * per-player store of known waystones. Only the operations the tile calls are modelled.
 */
module Managers {
  import opened Waystones

  class WaystoneManager {
    var waystones: Registry

    constructor ()
      ensures waystones == map[]
    {
      waystones := map[];
    }

    /** Stores the record under its uid (an existing entry with that uid is replaced). */
    method AddWaystone(w: Waystone)
      modifies this
      ensures waystones == old(waystones)[w.uid := w]
    {
      waystones := waystones[w.uid := w];
    }

    /** Removes the entry with the reference's uid. */
    method RemoveWaystone(w: WaystoneRef)
      requires !w.Invalid?
      modifies this
      ensures waystones == old(waystones) - {w.Uid()}
    {
      waystones := waystones - {w.Uid()};
    }
  }

  class PlayerWaystoneManager {
    var known: KnownWaystones

    constructor ()
      ensures known == map[]
    {
      known := map[];
    }

    /** Makes every player forget the waystone. */
    method RemoveKnownWaystone(w: WaystoneRef)
      requires !w.Invalid?
      modifies this
      ensures known == Forget(old(known), w.Uid())
    {
      known := Forget(known, w.Uid());
    }
  }
}
