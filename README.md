# Waystone tile entity

A waystone is a two-block structure. Each half is a block with a tile entity,
`WaystoneTileEntity`, and both tiles of one structure are bound to one waystone
record kept in the global waystone registry (`WaystoneManager`). Each tile has two
fields:

- `waystone`: the invalid sentinel, a proxy holding only a UUID, or a resolved
  record;
- `shouldNotInitialize`: suppresses lazy creation once the structure was destroyed.

This project models how those fields, the registry and the per-player store of
known waystones (`PlayerWaystoneManager`) change:

- lazy resolution (`getWaystone`): the lower half mints and registers a waystone;
  the upper half adopts what the tile below resolves to;
- destruction of both halves (`uninitializeWaystone`);
- persistence of the UUID only (`write`/`read`);
- replication over the same path (`getUpdateTag`/`onDataPacket`).

The model has four layers:

- `wrappers.dfy` and `waystones.dfy` hold the values: block positions, the two
  block halves, waystone records, the three kinds of waystone reference
  (`Invalid`, `Proxy`, `Resolved`), and the NBT compound reduced to its `"UUID"`
  entry.
- `managers.dfy` holds the registry and the known-waystones store as classes.
  They have only the operations the tile calls.
- `tile_entity.dfy` holds the classes:
  - `World`, with its map from position to tile and from position to block half;
  - `WaystoneTile`, with the two mutable fields and one method per source method.

  Each method except `InitializeWaystone` is proved to change the world's tiles
  and the registry exactly as a function of `tile_spec.dfy` says.
  `InitializeWaystone`'s contract states the minted record's fields and the
  registry update directly.
- `tile_spec.dfy` states each operation as a function on a value snapshot (every
  tile's two fields plus the registry contents). `tile_properties.dfy` proves what
  the source promises about those functions:
  - a second `getWaystone` changes nothing;
  - any sequence of accesses to the two halves of a new structure registers one
    waystone only, and both halves hold it once each was accessed;
  - suppression is sticky across any later sequence of `getWaystone` calls;
  - destruction removes the waystone from the registry and from every player's
    known set, and a second destruction removes nothing;
  - a persisted UUID round-trips into a proxy for the same UUID.

Calls the tile makes into the randomness of the game become parameters: the UUID
drawn by `UUID.randomUUID()` (`uid`) and the name generator's result (`name`).
Of the collaborators, only their observable effect is modelled.

## Model

| member | source | states |
|---|---|---|
| TileEntity.WaystoneTile.constructor | src/main/java/net/blay09/mods/waystones/tileentity/WaystoneTileEntity.java:33-38 | a new tile holds the invalid waystone and is not suppressed |
| TileEntity.WaystoneTile.GetWaystone | src/main/java/net/blay09/mods/waystones/tileentity/WaystoneTileEntity.java:82-99 | returns the tile's waystone after the call; a detached tile and the registry stay unchanged; on an attached tile the new tiles, registry and result are exactly those of `TileSpec.Resolve` |
| TileEntity.WaystoneTile.InitializeWaystone | src/main/java/net/blay09/mods/waystones/tileentity/WaystoneTileEntity.java:101-107 | the tile holds a resolved record with the drawn uid, the tile's position, the world's dimension, the given wasGenerated flag, the player's id as owner (none without a player) and the generated name; the registry gains exactly that record under its uid; suppression is untouched |
| TileEntity.WaystoneTile.InitializeFromBase | src/main/java/net/blay09/mods/waystones/tileentity/WaystoneTileEntity.java:109-111 | the tile ends with exactly the waystone the base tile's getWaystone returned, and the base's world changes as `Resolve` at the base says, with this tile adopting the result |
| TileEntity.WaystoneTile.UninitializeWaystone | src/main/java/net/blay09/mods/waystones/tileentity/WaystoneTileEntity.java:113-130 | the world's tiles, the registry and the known store end exactly as `TileSpec.Uninit` says, including the direct write into the partner tile |
| TileEntity.WaystoneTile.Write | src/main/java/net/blay09/mods/waystones/tileentity/WaystoneTileEntity.java:40-50 | resolves as getWaystone does (same state change), then returns the compound with the uid of the resolved waystone when it is valid, the compound as given otherwise |
| TileEntity.WaystoneTile.Read | src/main/java/net/blay09/mods/waystones/tileentity/WaystoneTileEntity.java:52-58 | a compound with a UUID makes the waystone a proxy for it; without one the waystone is kept; nothing else changes |
| TileEntity.WaystoneTile.GetUpdateTag | src/main/java/net/blay09/mods/waystones/tileentity/WaystoneTileEntity.java:66-69 | the replication payload is what write of an empty compound produces, with the same state change |
| TileEntity.WaystoneTile.OnDataPacket | src/main/java/net/blay09/mods/waystones/tileentity/WaystoneTileEntity.java:60-64 | a received payload changes the waystone exactly as read does |
| Managers.WaystoneManager.AddWaystone | src/main/java/net/blay09/mods/waystones/tileentity/WaystoneTileEntity.java:105 | the registry gains the record under its uid and nothing else changes |
| Managers.WaystoneManager.RemoveWaystone | src/main/java/net/blay09/mods/waystones/tileentity/WaystoneTileEntity.java:115 | the registry loses the entry under the reference's uid and nothing else |
| Managers.PlayerWaystoneManager.RemoveKnownWaystone | src/main/java/net/blay09/mods/waystones/tileentity/WaystoneTileEntity.java:116 | the known store becomes `Forget` of the old store |
| Waystones.Forget | src/main/java/net/blay09/mods/waystones/tileentity/WaystoneTileEntity.java:116 | every player still has an entry; no player knows the removed uid; every other uid a player knew is still known and nothing new is |
| TileSpec.Resolve | src/main/java/net/blay09/mods/waystones/tileentity/WaystoneTileEntity.java:82-99 | the returned waystone is what the tile holds afterwards; no flag changes; no tile outside the column below changes; every other registry entry is kept and at most the drawn uid is added |
| TileSpec.Uninit | src/main/java/net/blay09/mods/waystones/tileentity/WaystoneTileEntity.java:113-130 | the set of tiles is unchanged; its full effect on tiles, registry and known store is stated by `TileProperties.UninitEffect` |
| TileSpec.Persist | src/main/java/net/blay09/mods/waystones/tileentity/WaystoneTileEntity.java:44-47 | the compound carries a UUID exactly when the waystone is valid or the compound already had one, and a valid waystone's uid is the one carried; an invalid waystone leaves the compound exactly as given |
| TileSpec.Restore | src/main/java/net/blay09/mods/waystones/tileentity/WaystoneTileEntity.java:55-57 | a UUID present gives a proxy for that UUID; no UUID leaves the current waystone |
| TileSpec.RunGets | src/main/java/net/blay09/mods/waystones/tileentity/WaystoneTileEntity.java:82-99 | any sequence of getWaystone calls keeps the set of tiles and every tile's suppression flag |
| TileProperties.ResolveChangesNothing | src/main/java/net/blay09/mods/waystones/tileentity/WaystoneTileEntity.java:83-98 | getWaystone changes nothing and returns the current waystone when that is valid (fast path), when the world is remote, when the tile is suppressed, when the block is no waystone block, or when an upper half has no tile below |
| TileProperties.ResolveIgnoresOutside | src/main/java/net/blay09/mods/waystones/tileentity/WaystoneTileEntity.java:89-93 | getWaystone reads only the tile and the tiles straight below it: changing any other tile commutes with it |
| TileProperties.ResolveIdempotent | src/main/java/net/blay09/mods/waystones/tileentity/WaystoneTileEntity.java:82-111 | a second getWaystone on the same tile, whatever its random draws, returns the same waystone and changes nothing |
| TileProperties.LowerHalfCreates | src/main/java/net/blay09/mods/waystones/tileentity/WaystoneTileEntity.java:87-88 | an unresolved, unsuppressed lower half of an authoritative world keeps and registers a new record at its position with no owner and wasGenerated set; no other tile changes; the registry grows by exactly one entry for a fresh uid; a second call registers nothing |
| TileProperties.StaleProxyIsReplaced | src/main/java/net/blay09/mods/waystones/tileentity/WaystoneTileEntity.java:83-88 | a proxy whose uid is not registered, on a lower half, is replaced by a newly minted waystone |
| TileProperties.UpperMirrorsLower | src/main/java/net/blay09/mods/waystones/tileentity/WaystoneTileEntity.java:89-93 | the upper half returns and holds exactly what the tile below resolves to, and the registry changes only as that resolution changes it |
| TileProperties.UpperFirstAccess | src/main/java/net/blay09/mods/waystones/tileentity/WaystoneTileEntity.java:89-93 | upper half accessed first: both halves hold the record the lower half minted, registered once; a later access on the lower half changes nothing |
| TileProperties.LowerFirstAccess | src/main/java/net/blay09/mods/waystones/tileentity/WaystoneTileEntity.java:87-93 | lower half accessed first, then the upper half: both hold the first minted record and the registry gained only it |
| TileProperties.CreateShareDestroy | src/main/java/net/blay09/mods/waystones/tileentity/WaystoneTileEntity.java:82-130 | lower then upper access then destruction of the lower: both halves are suppressed, the uid is in neither store, and later accesses on either half change nothing |
| TileProperties.FirstAccessSettles | src/main/java/net/blay09/mods/waystones/tileentity/WaystoneTileEntity.java:82-111 | the first access on either half of a new structure registers the waystone minted with its draws and leaves the lower half holding it; an upper-half access leaves the upper half holding it too; no other tile changes |
| TileProperties.SettledStep | src/main/java/net/blay09/mods/waystones/tileentity/WaystoneTileEntity.java:82-111 | once the lower half holds its waystone, an access on either half registers nothing, and an access on the upper half makes it hold the same waystone |
| TileProperties.SettledTrace | src/main/java/net/blay09/mods/waystones/tileentity/WaystoneTileEntity.java:82-111 | in that state, any sequence of accesses on the two halves registers nothing, changes no other tile, and leaves the upper half holding the lower's waystone once it was accessed |
| TileProperties.StructureTrace | src/main/java/net/blay09/mods/waystones/tileentity/WaystoneTileEntity.java:82-111 | any non-empty sequence of accesses on the two halves of a new structure registers exactly the waystone minted with the first access's draws; the lower half holds it; the upper half holds it once accessed and is invalid before; no other tile changes |
| TileProperties.SuppressedTileIsStable | src/main/java/net/blay09/mods/waystones/tileentity/WaystoneTileEntity.java:83 | a suppressed tile keeps its state under getWaystone on any tile |
| TileProperties.SuppressedTileStaysUnderGets | src/main/java/net/blay09/mods/waystones/tileentity/WaystoneTileEntity.java:83 | a suppressed tile keeps its state under any sequence of getWaystone calls |
| TileProperties.GetsOnSuppressedChangeNothing | src/main/java/net/blay09/mods/waystones/tileentity/WaystoneTileEntity.java:83 | a sequence of getWaystone calls on suppressed tiles only leaves the snapshot unchanged |
| TileProperties.UninitEffect | src/main/java/net/blay09/mods/waystones/tileentity/WaystoneTileEntity.java:113-130 | this tile and its partner (below an upper half, above a lower half) end invalid and suppressed, if the partner exists; all other tiles are unchanged; a valid waystone's uid leaves the registry, with all other entries kept, and the known store becomes `Forget` of the old one, so every player keeps every other uid; an invalid waystone leaves both stores unchanged |
| TileProperties.UninitIdempotent | src/main/java/net/blay09/mods/waystones/tileentity/WaystoneTileEntity.java:113-120 | a second uninitializeWaystone changes nothing and removes nothing |
| TileProperties.GetsAfterUninitChangeNothing | src/main/java/net/blay09/mods/waystones/tileentity/WaystoneTileEntity.java:119-128 | after uninitializeWaystone, any sequence of getWaystone calls on the tile or its partner changes nothing, so registers nothing |
| TileProperties.UninitIsSticky | src/main/java/net/blay09/mods/waystones/tileentity/WaystoneTileEntity.java:119-128 | after uninitializeWaystone, the tile and its partner stay suppressed under any sequence of getWaystone calls on any tiles |
| TileProperties.UninitOfUnresolvedUpperKeepsRecord | src/main/java/net/blay09/mods/waystones/tileentity/WaystoneTileEntity.java:113-129 | destroying an upper half that never resolved suppresses both halves but leaves the lower half's record in the registry and the known store untouched |
| TileProperties.RestoreOfPersist | src/main/java/net/blay09/mods/waystones/tileentity/WaystoneTileEntity.java:41-69 | read after write: a valid waystone comes back as a proxy for its uid; otherwise read sees the compound as given; this is also replication's round trip |
| TileProperties.PersistRestorePersist | src/main/java/net/blay09/mods/waystones/tileentity/WaystoneTileEntity.java:41-58 | writing again a tile restored from a written compound gives the same compound exactly when the restored proxy's uid is registered (or the waystone was invalid) |
| TileProperties.ReloadedTileResolvesWithoutRegistration | src/main/java/net/blay09/mods/waystones/tileentity/WaystoneTileEntity.java:52-58 | a tile restored from a registered waystone's persisted uid resolves to a proxy for that uid, finds the record's position and dimension, and registers nothing |

## Left out

- Container providers (`getWaystoneSelectionContainerProvider`, `getWaystoneSettingsContainerProvider`) and `getRenderBoundingBox`: menu and rendering plumbing with no state of the tile.
- `getUpdatePacket` and `NetworkManager`/`SUpdateTileEntityPacket`: network framing; the payload itself is `GetUpdateTag`.
- NBT byte encoding (`NBTUtil.writeUniqueId`/`readUniqueId`) and the other entries a compound may hold: a compound is reduced to its optional `"UUID"` entry, and `super.write`/`super.read` are not modelled.
- `UUID.randomUUID()`: the drawn uid is a parameter, and nothing checks that it is fresh, as in the source. Lemmas that count registrations assume a fresh uid.
- `NameGenerator.get().getName` and `world.getRandom()`: a foreign, randomised call; the generated name is a parameter.
- The sources of `WaystoneProxy`, `InvalidWaystone`, `Waystone`, `WaystoneManager` and `PlayerWaystoneManager` are not part of this model. The model assumes:
  - a proxy is valid exactly while the registry holds its uid;
  - a resolved record is always valid;
  - the registry stores and removes by uid;
  - forgetting a waystone removes its uid from every player's known set.
- Block-state and `instanceof` mechanics: a world holds a map from position to the half of the waystone block there and a map from position to waystone tile. Any other tile entity counts as absent.
- `pos` and `world` of a tile are fixed for the tile's life (the game sets them before use).
- TileEntity.WaystoneTile.UninitializeWaystone: demands an attached, valid world and a waystone block at the tile's position, which the source presumes through `Objects.requireNonNull(world)` and `get(HALF)`.
- TileEntity.WaystoneTile.GetWaystone, TileEntity.WaystoneTile.InitializeFromBase, TileEntity.WaystoneTile.Write, TileEntity.WaystoneTile.GetUpdateTag: an attached (or base) tile must be listed by its valid world at its own position.
- TileSpec.Resolve, TileSpec.RunGets, TileEntity.WaystoneTile.GetWaystone: every tile is assumed to lie at a non-negative height, as in the game's build range (`InBuildRange`, `World.Valid`). This bounds the upper-to-lower hand-over, so the recursion terminates.
- TileSpec.RunGets: a trace holds only getWaystone calls in a fixed world; block changes between calls are not modelled.
- Concurrency: all calls are sequential, as on the game's server thread.
- Object sharing: the model copies values where the source shares Java objects. The registry and the tile hold one `Waystone` object, so a later rename through the registry shows through the tile. `write` also fills in the caller's compound in place (line 46) rather than returning a new one. No property proved here depends on either.

Three behaviours of the code worth noting:

- `uninitializeWaystone` removes only the acting tile's own waystone. On an upper half that never resolved, the lower half's record stays registered (`TileProperties.UninitOfUnresolvedUpperKeepsRecord`).
- A stale proxy on the lower half is not kept: a new waystone is minted in its place (`TileProperties.StaleProxyIsReplaced`).
- `write` leaves a UUID already present in the given compound in place when the waystone is invalid.
