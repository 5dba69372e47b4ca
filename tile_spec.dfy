/**
 * The waystone tile entity's state machine stated on values. A snapshot holds the
 * two mutable fields of every tile in a world (keyed by position) and the registry
 * contents; the world's fixed facts (remote or not, dimension, which positions hold
 * a waystone block and in which half) form the environment. Each operation of the
 * tile is a function from snapshot to snapshot; the tile classes are proved to
 * follow these functions.
 */
module TileSpec {
  import opened Wrappers
  import opened Waystones

  /** The two fields of one tile: `waystone` and `shouldNotInitialize`. */
  datatype TileState = TileState(waystone: WaystoneRef, shouldNotInitialize: bool)

  /** A newly constructed tile. */
  const Unset: TileState := TileState(Invalid, false)

  /** A tile after uninitializeWaystone, on itself or on its partner. */
  const Suppressed: TileState := TileState(Invalid, true)

  datatype Snapshot = Snapshot(tiles: map<BlockPos, TileState>, registry: Registry)

  /** `blocks` maps each position holding a waystone block to that block's half. */
  datatype Env = Env(isRemote: bool, dimension: DimensionType, blocks: map<BlockPos, DoubleBlockHalf>)

  /** Tiles lie at non-negative heights, as in the game's build range. */
  predicate InBuildRange(tiles: map<BlockPos, TileState>) {
    forall q | q in tiles :: 0 <= q.y
  }

  /** `q` is `p` or lies somewhere straight below it. */
  predicate InColumnBelow(q: BlockPos, p: BlockPos) {
    q.x == p.x && q.z == p.z && q.y <= p.y
  }

  /** The tile at `p` takes `w` as its waystone and keeps its suppression flag. */
  function Adopt(s: Snapshot, p: BlockPos, w: WaystoneRef): Snapshot
    requires p in s.tiles
  {
    s.(tiles := s.tiles[p := s.tiles[p].(waystone := w)])
  }

  /** getWaystone may mint a waystone: tile not valid, world authoritative, not suppressed. */
  predicate ShouldResolve(env: Env, s: Snapshot, p: BlockPos)
    requires p in s.tiles
  {
    !s.tiles[p].waystone.IsValid(s.registry) && !env.isRemote && !s.tiles[p].shouldNotInitialize
  }

  /**
   * getWaystone on the tile at `p` of an attached world: the new snapshot and the
   * returned waystone. `uid` is UUID.randomUUID()'s draw and `name` the name
   * generator's output, used only if a waystone is minted. The lower half mints
   * and registers; the upper half adopts whatever the tile below resolves to.
   */
  function Resolve(env: Env, s: Snapshot, p: BlockPos, uid: Uuid, name: string): (r: (Snapshot, WaystoneRef))
    requires p in s.tiles && InBuildRange(s.tiles)
    ensures r.0.tiles.Keys == s.tiles.Keys
    ensures r.1 == r.0.tiles[p].waystone
    ensures forall q | q in s.tiles :: r.0.tiles[q].shouldNotInitialize == s.tiles[q].shouldNotInitialize
    ensures forall q | q in s.tiles && !InColumnBelow(q, p) :: r.0.tiles[q] == s.tiles[q]
    ensures forall k | k in s.registry && k != uid :: k in r.0.registry && r.0.registry[k] == s.registry[k]
    ensures r.0.registry.Keys <= s.registry.Keys + {uid}
    decreases p.y
  {
    var t := s.tiles[p];
    if !ShouldResolve(env, s, p) || p !in env.blocks then
      (s, t.waystone)
    else if env.blocks[p] == Lower then
      var w := Resolved(NewWaystone(uid, env.dimension, p, true, None, name));
      (Snapshot(s.tiles[p := t.(waystone := w)], s.registry[uid := w.waystone]), w)
    else if p.Down() !in s.tiles then
      (s, t.waystone)
    else
      var below := Resolve(env, s, p.Down(), uid, name);
      (Adopt(below.0, p, below.1), below.1)
  }

  /** The position of the other half: below an upper half, above a lower half. */
  function Partner(p: BlockPos, half: DoubleBlockHalf): BlockPos {
    if half == Upper then p.Down() else p.Up()
  }

  /**
   * uninitializeWaystone on the tile at `p`: its own waystone, when valid, leaves
   * the registry and every player's known set; then this tile and the tile of the
   * other half (if there is one) are both set to Suppressed.
   */
  function Uninit(env: Env, s: Snapshot, known: KnownWaystones, p: BlockPos): (r: (Snapshot, KnownWaystones))
    requires p in s.tiles && p in env.blocks
    ensures r.0.tiles.Keys == s.tiles.Keys
  {
    var w := s.tiles[p].waystone;
    var registry := if w.IsValid(s.registry) then s.registry - {w.Uid()} else s.registry;
    var known' := if w.IsValid(s.registry) then Forget(known, w.Uid()) else known;
    (Snapshot(SuppressPair(s.tiles, p, env.blocks[p]), registry), known')
  }

  /** The tile at `p` is suppressed, then the tile of the other half if there is one. */
  function SuppressPair(tiles: map<BlockPos, TileState>, p: BlockPos, half: DoubleBlockHalf): map<BlockPos, TileState> {
    var own := tiles[p := Suppressed];
    var q := Partner(p, half);
    if q in own then own[q := Suppressed] else own
  }

  /** write: the compound gains the waystone's uid when the waystone is valid, and is otherwise left as given. */
  function Persist(tag: Compound, w: WaystoneRef, registry: Registry): (r: Compound)
    ensures r.uuid.Some? <==> w.IsValid(registry) || tag.uuid.Some?
    ensures w.IsValid(registry) ==> r.uuid == Some(w.Uid())
    ensures !w.IsValid(registry) ==> r == tag
  {
    if w.IsValid(registry) then tag.(uuid := Some(w.Uid())) else tag
  }

  /** read: a compound with a uid replaces the waystone by a proxy for it; without one, the waystone stays. */
  function Restore(tag: Compound, current: WaystoneRef): (r: WaystoneRef)
    ensures tag.uuid.Some? ==> r.Proxy? && r.Uid() == tag.uuid.value
    ensures tag.uuid.None? ==> r == current
  {
    if tag.uuid.Some? then Proxy(tag.uuid.value) else current
  }

  /** One call of getWaystone in a trace: the tile's position and that call's random draws. */
  datatype Access = Access(pos: BlockPos, uid: Uuid, name: string)

  /** Any sequence of getWaystone calls; accesses at positions without a tile do nothing. */
  function RunGets(env: Env, s: Snapshot, accesses: seq<Access>): (r: Snapshot)
    requires InBuildRange(s.tiles)
    ensures r.tiles.Keys == s.tiles.Keys
    ensures forall q | q in s.tiles :: r.tiles[q].shouldNotInitialize == s.tiles[q].shouldNotInitialize
    decreases |accesses|
  {
    if accesses == [] then s
    else
      var a := accesses[0];
      var next := if a.pos in s.tiles then Resolve(env, s, a.pos, a.uid, a.name).0 else s;
      RunGets(env, next, accesses[1..])
  }
}
