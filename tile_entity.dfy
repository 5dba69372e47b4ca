/**
 * The waystone tile entity and the small world it lives in. Each tile keeps the
 * two fields its methods change step by step (`waystone`, `shouldNotInitialize`);
 * the world maps positions to tiles and to the half of the waystone block there.
 * Every method but InitializeWaystone is proved to change the world's tiles and
 * the registry exactly as the corresponding function of TileSpec says;
 * InitializeWaystone states the minted record and the registry update directly.
 */
module TileEntity {
  import opened Wrappers
  import opened Waystones
  import opened Managers
  import opened TileSpec

  class World {
    var isRemote: bool
    var dimension: DimensionType
    /** The positions that hold a waystone block, with the block's half. */
    var blocks: map<BlockPos, DoubleBlockHalf>
    /** The positions that hold a waystone tile entity. */
    var tiles: map<BlockPos, WaystoneTile>

    constructor (isRemote: bool, dimension: DimensionType)
      ensures this.isRemote == isRemote && this.dimension == dimension
      ensures blocks == map[] && tiles == map[]
    {
      this.isRemote := isRemote;
      this.dimension := dimension;
      blocks := map[];
      tiles := map[];
    }

    /** Each tile sits at its own position, belongs to this world and lies in the build range. */
    ghost predicate Valid()
      reads this
    {
      forall p | p in tiles :: tiles[p].pos == p && tiles[p].world == this && 0 <= p.y
    }

    function Env(): TileSpec.Env
      reads this
    {
      TileSpec.Env(isRemote, dimension, blocks)
    }

    /** The fields of every tile of this world, with the registry contents. */
    ghost function Snap(registry: WaystoneManager): Snapshot
      reads this, tiles.Values, registry
    {
      Snapshot(TileStates(), registry.waystones)
    }

    ghost function TileStates(): map<BlockPos, TileState>
      reads this, tiles.Values
    {
      map p | p in tiles :: TileState(tiles[p].waystone, tiles[p].shouldNotInitialize)
    }
  }

  /**
   * The tile states of a world after the tile at `at.1` and the tile of its other
   * half (for a block half `at.2`), if present, were suppressed and nothing else
   * of the world changed. The arguments are packed into one triple: with
   * --warn-contradictory-assumptions, the Dafny 4.11 prover fails ("named
   * expression already defined") on a call of a two-state lemma with several
   * parameters.
   */
  twostate lemma PairSuppressed(at: (World, BlockPos, DoubleBlockHalf))
    requires unchanged(at.0) && at.0.Valid() && at.1 in at.0.tiles
    requires at.0.tiles[at.1].State() == Suppressed
    requires Partner(at.1, at.2) in at.0.tiles ==> at.0.tiles[Partner(at.1, at.2)].State() == Suppressed
    requires forall q | q in at.0.tiles && q != at.1 && q != Partner(at.1, at.2) :: unchanged(at.0.tiles[q])
    ensures at.0.TileStates() == SuppressPair(old(at.0.TileStates()), at.1, at.2)
  {
  }

  /**
   * The tile states of a world after only the tile at `at.1` changed: the old
   * states with that one entry replaced. The arguments are packed into one pair
   * for the same reason as in PairSuppressed.
   */
  twostate lemma OneTileChanged(at: (World, BlockPos))
    requires unchanged(at.0) && at.0.Valid() && at.1 in at.0.tiles
    requires forall q | q in at.0.tiles && q != at.1 :: unchanged(at.0.tiles[q])
    ensures at.0.TileStates() == old(at.0.TileStates())[at.1 := at.0.tiles[at.1].State()]
  {
  }

  class WaystoneTile {
    const pos: BlockPos
    /** The world the tile is attached to, if any. */
    const world: World?
    var waystone: WaystoneRef
    var shouldNotInitialize: bool

    constructor (pos: BlockPos, world: World?)
      ensures this.pos == pos && this.world == world
      ensures waystone == Invalid && !shouldNotInitialize
    {
      this.pos := pos;
      this.world := world;
      waystone := Invalid;
      shouldNotInitialize := false;
    }

    function State(): TileState
      reads this
    {
      TileState(waystone, shouldNotInitialize)
    }

    /** Attached to a valid world that lists this tile at its position. */
    ghost predicate Placed()
      reads world
    {
      world != null && world.Valid() && pos in world.tiles && world.tiles[pos] == this
    }

    /** The objects getWaystone may change: this tile and every tile of its world. */
    ghost function Footprint(): set<object>
      reads world
    {
      {this} + (if world != null then world.tiles.Values else {})
    }

    /** Termination measure: the upper half hands over to the tile one block lower. */
    ghost function Height(): nat
      reads world
    {
      if Placed() then pos.y + 1 else 0
    }

    /**
     * getWaystone: on a detached tile nothing changes; on an attached one the new
     * tiles and registry, and the result, are those of Resolve.
     */
    method GetWaystone(registry: WaystoneManager, uid: Uuid, name: string) returns (w: WaystoneRef)
      requires world == null || Placed()
      modifies Footprint(), registry
      decreases Height(), 1
      ensures w == waystone
      ensures world == null ==> unchanged(this, registry)
      ensures world != null ==>
                (world.Snap(registry), w) == Resolve(world.Env(), old(world.Snap(registry)), pos, uid, name)
    {
      if !waystone.IsValid(registry.waystones) && world != null && !world.isRemote && !shouldNotInitialize {
        if pos in world.blocks {
          var half := world.blocks[pos];
          if half == Lower {
            InitializeWaystone(world, None, true, registry, uid, name);
            OneTileChanged((world, pos));
          } else if pos.Down() in world.tiles {
            InitializeFromBase(world.tiles[pos.Down()], registry, uid, name);
          }
        }
      }
      w := waystone;
    }

    /**
     * initializeWaystone: mints a waystone at this tile's position in the given
     * world's dimension, owned by the player if one is given, registers it and
     * stores it in this tile.
     */
    method InitializeWaystone(w: World, player: Option<LivingEntity>, wasGenerated: bool,
                              registry: WaystoneManager, uid: Uuid, name: string)
      modifies this, registry
      ensures waystone.Resolved?
      ensures waystone.waystone.uid == uid && waystone.waystone.pos == pos
      ensures waystone.waystone.dimension == w.dimension && waystone.waystone.wasGenerated == wasGenerated
      ensures waystone.waystone.owner == (if player.Some? then Some(player.value.uniqueId) else None)
      ensures waystone.waystone.name == name
      ensures registry.waystones == old(registry.waystones)[uid := waystone.waystone]
      ensures shouldNotInitialize == old(shouldNotInitialize)
    {
      var created := NewWaystone(uid, w.dimension, pos, wasGenerated, player, name);
      registry.AddWaystone(created);
      waystone := Resolved(created);
    }

    /**
     * initializeFromBase: this tile takes whatever the base tile's getWaystone
     * returns; the base's world changes as Resolve says, and if this tile is one
     * of that world's tiles, it also holds the adopted waystone there.
     */
    method InitializeFromBase(base: WaystoneTile, registry: WaystoneManager, uid: Uuid, name: string)
      requires base.world == null || base.Placed()
      modifies this, base.Footprint(), registry
      decreases base.Height(), 2
      ensures waystone == base.waystone
      ensures shouldNotInitialize == old(shouldNotInitialize)
      ensures base.world == null ==> unchanged(registry) && (base != this ==> unchanged(base))
      ensures base.world != null ==>
                var r := Resolve(base.world.Env(), old(base.world.Snap(registry)), base.pos, uid, name);
                && r.1 == waystone
                && base.world.Snap(registry) ==
                   (if pos in base.world.tiles && base.world.tiles[pos] == this then Adopt(r.0, pos, r.1) else r.0)
    {
      ghost var before := if base.world != null then base.world.Snap(registry) else Snapshot(map[], map[]);
      var w := base.GetWaystone(registry, uid, name);
      if base.world != null && this in base.world.tiles.Values {
        assert base.world.tiles[pos] == this by {
          var q :| q in base.world.tiles && base.world.tiles[q] == this;
          assert q == pos;
        }
        assert before.tiles[pos] == old(State());
        assert base.world.Snap(registry).tiles[pos] == State();
      }
      label resolved:
      waystone := w;
      if base.world != null && pos in base.world.tiles && base.world.tiles[pos] == this {
        OneTileChanged@resolved((base.world, pos));
      }
    }

    /**
     * uninitializeWaystone: the tiles of the world, the registry and the known
     * store change as Uninit says.
     */
    method UninitializeWaystone(registry: WaystoneManager, known: PlayerWaystoneManager)
      requires Placed() && pos in world.blocks
      modifies world.tiles.Values, registry, known
      ensures (world.Snap(registry), known.known) ==
              Uninit(world.Env(), old(world.Snap(registry)), old(known.known), pos)
    {
      if waystone.IsValid(registry.waystones) {
        registry.RemoveWaystone(waystone);
        known.RemoveKnownWaystone(waystone);
      }
      waystone := Invalid;
      shouldNotInitialize := true;
      var half := world.blocks[pos];
      var otherPos := if half == Upper then pos.Down() else pos.Up();
      if otherPos in world.tiles {
        var other := world.tiles[otherPos];
        other.waystone := Invalid;
        other.shouldNotInitialize := true;
      }
      PairSuppressed((world, pos, half));
    }

    /** write: resolves as getWaystone does, then records the uid when the result is valid. */
    method Write(tag: Compound, registry: WaystoneManager, uid: Uuid, name: string) returns (out: Compound)
      requires world == null || Placed()
      modifies Footprint(), registry
      ensures out == Persist(tag, waystone, registry.waystones)
      ensures world == null ==> unchanged(this, registry)
      ensures world != null ==>
                (world.Snap(registry), waystone) == Resolve(world.Env(), old(world.Snap(registry)), pos, uid, name)
    {
      var w := GetWaystone(registry, uid, name);
      out := tag;
      if w.IsValid(registry.waystones) {
        out := tag.(uuid := Some(w.Uid()));
      }
    }

    /** read: a stored uid becomes a proxy; no registry access happens. */
    method Read(tag: Compound)
      modifies this`waystone
      ensures waystone == Restore(tag, old(waystone))
    {
      if tag.uuid.Some? {
        waystone := Proxy(tag.uuid.value);
      }
    }

    /** getUpdateTag: the replication payload is write of an empty compound. */
    method GetUpdateTag(registry: WaystoneManager, uid: Uuid, name: string) returns (tag: Compound)
      requires world == null || Placed()
      modifies Footprint(), registry
      ensures tag == Persist(EmptyCompound, waystone, registry.waystones)
      ensures world == null ==> unchanged(this, registry)
      ensures world != null ==>
                (world.Snap(registry), waystone) == Resolve(world.Env(), old(world.Snap(registry)), pos, uid, name)
    {
      tag := Write(EmptyCompound, registry, uid, name);
    }

    /** onDataPacket: the received payload goes through read. */
    method OnDataPacket(payload: Compound)
      modifies this`waystone
      ensures waystone == Restore(payload, old(waystone))
    {
      Read(payload);
    }
  }
}
