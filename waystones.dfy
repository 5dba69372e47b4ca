/**
 * Values the waystone tile entity works with: block positions, the two halves of
 * the two-block structure, waystone records, the three kinds of waystone
 * reference (invalid sentinel, lazy proxy, resolved record) and the NBT compound
 * reduced to its one "UUID" entry.
 */
module Waystones {
  import opened Wrappers

  /** A 128-bit unique id, as java.util.UUID. */
  newtype Uuid = x: int | 0 <= x < 0x1_0000_0000_0000_0000_0000_0000_0000_0000

  datatype BlockPos = BlockPos(x: int, y: int, z: int) {
    function Down(): BlockPos { BlockPos(x, y - 1, z) }
    function Up(): BlockPos { BlockPos(x, y + 1, z) }
  }

  /** The HALF property of a waystone block's state. */
  datatype DoubleBlockHalf = Lower | Upper

  type DimensionType = string

  /** The player handed to initializeWaystone; only its unique id is used. */
  datatype LivingEntity = LivingEntity(uniqueId: Uuid)

  /** A waystone record as the registry stores it. */
  datatype Waystone = Waystone(
    uid: Uuid,
    dimension: DimensionType,
    pos: BlockPos,
    wasGenerated: bool,
    owner: Option<Uuid>,
    name: string)

  /** The contents of the waystone registry, keyed by waystone uid. */
  type Registry = map<Uuid, Waystone>

  /** For every player (by uid), the waystone uids that player knows. */
  type KnownWaystones = map<Uuid, set<Uuid>>

  /**
   * What a tile's `waystone` field holds: the invalid sentinel, a proxy that
   * carries only a uid and looks it up in the registry on every use, or a
   * resolved record.
   */
  datatype WaystoneRef = Invalid | Proxy(proxyUid: Uuid) | Resolved(waystone: Waystone) {

    /** A proxy is valid exactly while the registry holds its uid; a resolved record is always valid. */
    predicate IsValid(registry: Registry) {
      match this
      case Invalid => false
      case Proxy(u) => u in registry
      case Resolved(_) => true
    }

    function Uid(): Uuid
      requires !Invalid?
    {
      if Proxy? then proxyUid else waystone.uid
    }
  }

  /** A new record: the owner is the player's id when a player is given, none otherwise. */
  function NewWaystone(uid: Uuid, dimension: DimensionType, pos: BlockPos, wasGenerated: bool,
                       player: Option<LivingEntity>, name: string): Waystone
  {
    Waystone(uid, dimension, pos, wasGenerated,
             if player.Some? then Some(player.value.uniqueId) else None, name)
  }

  /** Every player forgets one waystone; the rest of what they know is kept. */
  function Forget(known: KnownWaystones, uid: Uuid): (r: KnownWaystones)
    ensures r.Keys == known.Keys
    ensures forall p | p in r :: uid !in r[p] && r[p] <= known[p]
    ensures forall p, v | p in known && v in known[p] && v != uid :: v in r[p]
  {
    map p | p in known :: known[p] - {uid}
  }

  /** An NBT compound reduced to the optional entry stored under the key "UUID". */
  datatype Compound = Compound(uuid: Option<Uuid>)

  const EmptyCompound: Compound := Compound(None)
}
