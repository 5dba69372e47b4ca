/**
 * What the waystone tile's state machine guarantees, proved on the functions of
 * TileSpec: resolution is idempotent and registers at most once, the two halves
 * of a structure agree, suppression after uninitializeWaystone is sticky, and
 * persisting a waystone reference and restoring it round-trips the uid.
 */
module TileProperties {
  import opened Wrappers
  import opened Waystones
  import opened TileSpec

  /** A structure whose lower half is at `p` and upper half above it, neither tile touched yet, in an authoritative world. */
  predicate FreshStructure(env: Env, s: Snapshot, p: BlockPos) {
    && p in s.tiles && p.Up() in s.tiles
    && s.tiles[p] == Unset && s.tiles[p.Up()] == Unset
    && p in env.blocks && env.blocks[p] == Lower
    && p.Up() in env.blocks && env.blocks[p.Up()] == Upper
    && !env.isRemote
  }

  /**
   * getWaystone changes nothing and returns the current waystone when it is
   * already valid, when the world is remote, when the tile is suppressed, when
   * the block is no waystone block, or when an upper half has no tile below.
   */
  lemma ResolveChangesNothing(env: Env, s: Snapshot, p: BlockPos, uid: Uuid, name: string)
    requires p in s.tiles && InBuildRange(s.tiles)
    requires || s.tiles[p].waystone.IsValid(s.registry)
             || env.isRemote
             || s.tiles[p].shouldNotInitialize
             || p !in env.blocks
             || (env.blocks[p] == Upper && p.Down() !in s.tiles)
    ensures Resolve(env, s, p, uid, name) == (s, s.tiles[p].waystone)
  {
  }

  /** The result of getWaystone at `q` ignores what any tile outside the column below `q` holds. */
  lemma {:induction false} ResolveIgnoresOutside(env: Env, s: Snapshot, q: BlockPos, a: BlockPos, ts: TileState,
                                                 uid: Uuid, name: string)
    requires q in s.tiles && a in s.tiles && InBuildRange(s.tiles) && !InColumnBelow(a, q)
    ensures var r := Resolve(env, s, q, uid, name);
            Resolve(env, s.(tiles := s.tiles[a := ts]), q, uid, name) == (r.0.(tiles := r.0.tiles[a := ts]), r.1)
    decreases q.y
  {
    var s2 := s.(tiles := s.tiles[a := ts]);
    assert s2.tiles[q] == s.tiles[q];
    if !ShouldResolve(env, s, q) || q !in env.blocks {
    } else if env.blocks[q] == Lower {
      var w := Resolved(NewWaystone(uid, env.dimension, q, true, None, name));
      assert s2.tiles[q := s.tiles[q].(waystone := w)] == s.tiles[q := s.tiles[q].(waystone := w)][a := ts];
    } else if q.Down() !in s.tiles {
    } else {
      ResolveIgnoresOutside(env, s, q.Down(), a, ts, uid, name);
      var b := Resolve(env, s, q.Down(), uid, name);
      assert b.0.tiles[a := ts][q := b.0.tiles[q].(waystone := b.1)]
          == b.0.tiles[q := b.0.tiles[q].(waystone := b.1)][a := ts];
    }
  }

  /**
   * Idempotence: a second getWaystone, with any random draws, returns the same
   * waystone and changes nothing, in particular registers nothing.
   */
  lemma {:induction false} ResolveIdempotent(env: Env, s: Snapshot, p: BlockPos, uid: Uuid, name: string,
                                             uid2: Uuid, name2: string)
    requires p in s.tiles && InBuildRange(s.tiles)
    ensures var r := Resolve(env, s, p, uid, name);
            Resolve(env, r.0, p, uid2, name2) == r
    decreases p.y
  {
    if !ShouldResolve(env, s, p) || p !in env.blocks {
    } else if env.blocks[p] == Lower {
    } else if p.Down() !in s.tiles {
    } else {
      var b := Resolve(env, s, p.Down(), uid, name);
      var r := Resolve(env, s, p, uid, name);
      assert r.0 == Adopt(b.0, p, b.1);
      if !b.1.IsValid(b.0.registry) {
        ResolveIdempotent(env, s, p.Down(), uid, name, uid2, name2);
        ResolveIgnoresOutside(env, b.0, p.Down(), p, b.0.tiles[p].(waystone := b.1), uid2, name2);
        assert Resolve(env, r.0, p.Down(), uid2, name2) == (r.0, b.1);
        assert r.0.tiles[p := r.0.tiles[p].(waystone := b.1)] == r.0.tiles;
      }
    }
  }

  /**
   * The lower half, unresolved and allowed to initialise, mints one waystone at
   * its own position with no owner and wasGenerated set, registers it and keeps
   * it; no other tile changes, the registry grows by exactly one entry when the
   * drawn uid is fresh, and a second call registers nothing.
   */
  lemma LowerHalfCreates(env: Env, s: Snapshot, p: BlockPos, uid: Uuid, name: string, uid2: Uuid, name2: string)
    requires p in s.tiles && InBuildRange(s.tiles)
    requires ShouldResolve(env, s, p) && p in env.blocks && env.blocks[p] == Lower
    ensures var rec := NewWaystone(uid, env.dimension, p, true, None, name);
            var r := Resolve(env, s, p, uid, name);
            && r.1 == Resolved(rec)
            && r.0.tiles[p] == s.tiles[p].(waystone := Resolved(rec))
            && (forall q | q in s.tiles && q != p :: r.0.tiles[q] == s.tiles[q])
            && r.0.registry == s.registry[uid := rec]
            && (uid !in s.registry ==> |r.0.registry| == |s.registry| + 1)
            && Resolve(env, r.0, p, uid2, name2) == r
  {
    ResolveIdempotent(env, s, p, uid, name, uid2, name2);
  }

  /**
   * A stale proxy (its uid is not in the registry) on an unsuppressed lower half
   * of an authoritative world is not kept: getWaystone replaces it by a newly
   * minted waystone.
   */
  lemma StaleProxyIsReplaced(env: Env, s: Snapshot, p: BlockPos, stale: Uuid, uid: Uuid, name: string)
    requires p in s.tiles && InBuildRange(s.tiles)
    requires s.tiles[p] == TileState(Proxy(stale), false) && stale !in s.registry
    requires !env.isRemote && p in env.blocks && env.blocks[p] == Lower
    ensures var r := Resolve(env, s, p, uid, name);
            r.1 == Resolved(NewWaystone(uid, env.dimension, p, true, None, name)) && r.1 != Proxy(stale)
  {
  }

  /** The upper half adopts exactly what the tile below resolves to, and the two then agree. */
  lemma UpperMirrorsLower(env: Env, s: Snapshot, p: BlockPos, uid: Uuid, name: string)
    requires p in s.tiles && p.Down() in s.tiles && InBuildRange(s.tiles)
    requires ShouldResolve(env, s, p) && p in env.blocks && env.blocks[p] == Upper
    ensures var r := Resolve(env, s, p, uid, name);
            var b := Resolve(env, s, p.Down(), uid, name);
            && r.1 == b.1
            && r.0.tiles[p].waystone == r.0.tiles[p.Down()].waystone
            && r.0.registry == b.0.registry
  {
  }

  /**
   * Upper half first: the access on the upper half initialises the lower half
   * through it; both then hold the same waystone, exactly one was registered,
   * and a later access on the lower half changes nothing.
   */
  lemma UpperFirstAccess(env: Env, s: Snapshot, p: BlockPos, uid: Uuid, name: string, uid2: Uuid, name2: string)
    requires FreshStructure(env, s, p) && InBuildRange(s.tiles)
    ensures var rec := NewWaystone(uid, env.dimension, p, true, None, name);
            var r := Resolve(env, s, p.Up(), uid, name);
            && r.1 == Resolved(rec)
            && r.0.tiles[p].waystone == Resolved(rec) && r.0.tiles[p.Up()].waystone == Resolved(rec)
            && r.0.registry == s.registry[uid := rec]
            && Resolve(env, r.0, p, uid2, name2) == (r.0, Resolved(rec))
  {
    assert p.Up().Down() == p;
    var rec := NewWaystone(uid, env.dimension, p, true, None, name);
    var b := Resolve(env, s, p, uid, name);
    assert b.1 == Resolved(rec) && b.0.registry == s.registry[uid := rec];
    var r := Resolve(env, s, p.Up(), uid, name);
    assert r == (Adopt(b.0, p.Up(), b.1), b.1);
    LowerHalfCreates(env, s, p, uid, name, uid2, name2);
  }

  /**
   * Lower half first: after the lower and then the upper half are accessed, both
   * hold the waystone the lower half minted, and it was registered once only.
   */
  lemma LowerFirstAccess(env: Env, s: Snapshot, p: BlockPos, uid: Uuid, name: string, uid2: Uuid, name2: string)
    requires FreshStructure(env, s, p) && InBuildRange(s.tiles)
    ensures var rec := NewWaystone(uid, env.dimension, p, true, None, name);
            var r1 := Resolve(env, s, p, uid, name);
            var r2 := Resolve(env, r1.0, p.Up(), uid2, name2);
            && r2.1 == Resolved(rec)
            && r2.0.tiles[p].waystone == Resolved(rec) && r2.0.tiles[p.Up()].waystone == Resolved(rec)
            && r2.0.registry == s.registry[uid := rec]
  {
    assert p.Up().Down() == p;
    var r1 := Resolve(env, s, p, uid, name);
    assert r1.0.tiles[p.Up()] == Unset;
    var b := Resolve(env, r1.0, p, uid2, name2);
    assert b == r1;
  }

  /**
   * Whole life of one structure: lower half accessed, then upper half, then the
   * lower half destroyed. Both halves end suppressed, the minted uid is in no
   * store any more, and further accesses on either half change nothing.
   */
  lemma CreateShareDestroy(env: Env, s: Snapshot, known: KnownWaystones, p: BlockPos,
                           uid: Uuid, name: string, uid2: Uuid, name2: string, later: seq<Access>)
    requires FreshStructure(env, s, p) && InBuildRange(s.tiles)
    requires forall i | 0 <= i < |later| :: later[i].pos == p || later[i].pos == p.Up()
    ensures var r1 := Resolve(env, s, p, uid, name);
            var r2 := Resolve(env, r1.0, p.Up(), uid2, name2);
            var d := Uninit(env, r2.0, known, p);
            && r2.0.tiles[p].waystone == r2.0.tiles[p.Up()].waystone == Resolved(NewWaystone(uid, env.dimension, p, true, None, name))
            && d.0.tiles[p] == Suppressed && d.0.tiles[p.Up()] == Suppressed
            && uid !in d.0.registry
            && (forall pl | pl in d.1 :: uid !in d.1[pl])
            && InBuildRange(d.0.tiles) && RunGets(env, d.0, later) == d.0
  {
    LowerFirstAccess(env, s, p, uid, name, uid2, name2);
    var r1 := Resolve(env, s, p, uid, name);
    var r2 := Resolve(env, r1.0, p.Up(), uid2, name2);
    UninitEffect(env, r2.0, known, p);
    GetsAfterUninitChangeNothing(env, r2.0, known, p, later);
  }

  /**
   * A structure after its first access: the lower half at `p` holds `rec`, the
   * upper half is still untouched or holds `rec` too, and the upper half may
   * still resolve (authoritative world, upper block above `p`).
   */
  predicate Settled(env: Env, s: Snapshot, p: BlockPos, rec: Waystone) {
    && p in s.tiles && p.Up() in s.tiles
    && s.tiles[p] == TileState(Resolved(rec), false)
    && (s.tiles[p.Up()] == Unset || s.tiles[p.Up()] == TileState(Resolved(rec), false))
    && p.Up() in env.blocks && env.blocks[p.Up()] == Upper && !env.isRemote
  }

  /** One getWaystone on either half of a settled structure registers nothing, and an access on the upper half makes it hold `rec`. */
  lemma SettledStep(env: Env, s: Snapshot, p: BlockPos, rec: Waystone, a: Access)
    requires Settled(env, s, p, rec) && InBuildRange(s.tiles)
    requires a.pos == p || a.pos == p.Up()
    ensures var r := Resolve(env, s, a.pos, a.uid, a.name).0;
            && Settled(env, r, p, rec) && r.registry == s.registry
            && (forall q | q in s.tiles && q != p && q != p.Up() :: r.tiles[q] == s.tiles[q])
            && (s.tiles[p.Up()].waystone == Resolved(rec) || a.pos == p.Up() ==> r.tiles[p.Up()].waystone == Resolved(rec))
  {
    if a.pos == p || s.tiles[p.Up()].waystone == Resolved(rec) {
      ResolveChangesNothing(env, s, a.pos, a.uid, a.name);
    } else {
      assert p.Up().Down() == p;
      ResolveChangesNothing(env, s, p, a.uid, a.name);
      assert Resolve(env, s, p.Up(), a.uid, a.name).0 == Adopt(s, p.Up(), Resolved(rec));
    }
  }

  /** Any getWaystone calls on the two halves of a settled structure keep it settled and register nothing. */
  lemma {:induction false} SettledTrace(env: Env, s: Snapshot, p: BlockPos, rec: Waystone, t: seq<Access>)
    requires Settled(env, s, p, rec) && InBuildRange(s.tiles)
    requires forall i | 0 <= i < |t| :: t[i].pos == p || t[i].pos == p.Up()
    ensures var r := RunGets(env, s, t);
            && Settled(env, r, p, rec) && r.registry == s.registry
            && (forall q | q in s.tiles && q != p && q != p.Up() :: r.tiles[q] == s.tiles[q])
            && (s.tiles[p.Up()].waystone == Resolved(rec) || (exists i | 0 <= i < |t| :: t[i].pos == p.Up()) ==>
                  r.tiles[p.Up()].waystone == Resolved(rec))
    decreases |t|
  {
    if t != [] {
      var s1 := Resolve(env, s, t[0].pos, t[0].uid, t[0].name).0;
      SettledStep(env, s, p, rec, t[0]);
      SettledTrace(env, s1, p, rec, t[1..]);
      assert RunGets(env, s, t) == RunGets(env, s1, t[1..]);
      if (exists i | 0 <= i < |t| :: t[i].pos == p.Up()) && t[0].pos != p.Up() {
        var i :| 0 <= i < |t| && t[i].pos == p.Up();
        assert t[1..][i - 1].pos == p.Up();
      }
    }
  }

  /**
   * The first getWaystone on either half of a new structure settles it on the
   * waystone minted with that call's draws, registered once; no other tile changes.
   */
  lemma FirstAccessSettles(env: Env, s: Snapshot, p: BlockPos, a: Access)
    requires FreshStructure(env, s, p) && InBuildRange(s.tiles)
    requires a.pos == p || a.pos == p.Up()
    ensures var rec := NewWaystone(a.uid, env.dimension, p, true, None, a.name);
            var r := Resolve(env, s, a.pos, a.uid, a.name).0;
            && Settled(env, r, p, rec)
            && r.registry == s.registry[rec.uid := rec]
            && (a.pos == p.Up() ==> r.tiles[p.Up()].waystone == Resolved(rec))
            && (forall q | q in s.tiles && q != p && q != p.Up() :: r.tiles[q] == s.tiles[q])
  {
    var rec := NewWaystone(a.uid, env.dimension, p, true, None, a.name);
    if a.pos == p {
      LowerHalfCreates(env, s, p, a.uid, a.name, a.uid, a.name);
    } else {
      assert p.Up().Down() == p;
      var b := Resolve(env, s, p, a.uid, a.name);
      assert b.0 == Snapshot(s.tiles[p := TileState(Resolved(rec), false)], s.registry[rec.uid := rec]);
      assert Resolve(env, s, a.pos, a.uid, a.name).0 == Adopt(b.0, p.Up(), Resolved(rec));
    }
  }

  /**
   * Any non-empty sequence of getWaystone calls on the two halves of a new
   * structure registers one waystone only, minted with the first call's draws:
   * the lower half holds it, the upper half holds it once it was accessed (and
   * nothing else before), and no other tile changes.
   */
  lemma StructureTrace(env: Env, s: Snapshot, p: BlockPos, t: seq<Access>)
    requires FreshStructure(env, s, p) && InBuildRange(s.tiles)
    requires |t| > 0 && forall i | 0 <= i < |t| :: t[i].pos == p || t[i].pos == p.Up()
    ensures var rec := NewWaystone(t[0].uid, env.dimension, p, true, None, t[0].name);
            var r := RunGets(env, s, t);
            && r.registry == s.registry[rec.uid := rec]
            && r.tiles[p].waystone == Resolved(rec)
            && (r.tiles[p.Up()].waystone == Invalid || r.tiles[p.Up()].waystone == Resolved(rec))
            && ((exists i | 0 <= i < |t| :: t[i].pos == p.Up()) ==> r.tiles[p.Up()].waystone == Resolved(rec))
            && (forall q | q in s.tiles && q != p && q != p.Up() :: r.tiles[q] == s.tiles[q])
  {
    var rec := NewWaystone(t[0].uid, env.dimension, p, true, None, t[0].name);
    var s1 := Resolve(env, s, t[0].pos, t[0].uid, t[0].name).0;
    assert RunGets(env, s, t) == RunGets(env, s1, t[1..]);
    FirstAccessSettles(env, s, p, t[0]);
    SettledTrace(env, s1, p, rec, t[1..]);
    if (exists i | 0 <= i < |t| :: t[i].pos == p.Up()) && t[0].pos != p.Up() {
      var i :| 0 <= i < |t| && t[i].pos == p.Up();
      assert t[1..][i - 1].pos == p.Up();
    }
  }

  /** A suppressed tile keeps its state under getWaystone on any tile. */
  lemma {:induction false} SuppressedTileIsStable(env: Env, s: Snapshot, a: BlockPos, q: BlockPos,
                                                  uid: Uuid, name: string)
    requires a in s.tiles && q in s.tiles && InBuildRange(s.tiles) && s.tiles[a].shouldNotInitialize
    ensures Resolve(env, s, q, uid, name).0.tiles[a] == s.tiles[a]
    decreases q.y
  {
    if !InColumnBelow(a, q) || a == q {
    } else if !ShouldResolve(env, s, q) || q !in env.blocks {
    } else if env.blocks[q] == Lower {
    } else if q.Down() !in s.tiles {
    } else {
      SuppressedTileIsStable(env, s, a, q.Down(), uid, name);
    }
  }

  /** A suppressed tile keeps its state under any sequence of getWaystone calls. */
  lemma {:induction false} SuppressedTileStaysUnderGets(env: Env, s: Snapshot, a: BlockPos, accesses: seq<Access>)
    requires a in s.tiles && InBuildRange(s.tiles) && s.tiles[a].shouldNotInitialize
    ensures RunGets(env, s, accesses).tiles[a] == s.tiles[a]
    decreases |accesses|
  {
    if accesses != [] {
      var x := accesses[0];
      var next := if x.pos in s.tiles then Resolve(env, s, x.pos, x.uid, x.name).0 else s;
      if x.pos in s.tiles {
        SuppressedTileIsStable(env, s, a, x.pos, x.uid, x.name);
      }
      SuppressedTileStaysUnderGets(env, next, a, accesses[1..]);
    }
  }

  /** getWaystone calls that only reach suppressed tiles change nothing at all. */
  lemma {:induction false} GetsOnSuppressedChangeNothing(env: Env, s: Snapshot, ps: set<BlockPos>, accesses: seq<Access>)
    requires InBuildRange(s.tiles)
    requires forall a | a in ps && a in s.tiles :: s.tiles[a].shouldNotInitialize
    requires forall i | 0 <= i < |accesses| :: accesses[i].pos in ps
    ensures RunGets(env, s, accesses) == s
    decreases |accesses|
  {
    if accesses != [] {
      var x := accesses[0];
      if x.pos in s.tiles {
        ResolveChangesNothing(env, s, x.pos, x.uid, x.name);
      }
      GetsOnSuppressedChangeNothing(env, s, ps, accesses[1..]);
    }
  }

  /**
   * What uninitializeWaystone does: this tile and its partner end suppressed,
   * every other tile is unchanged, and a valid waystone of this tile leaves the
   * registry (nothing else does) and every player's known set; an invalid one
   * leaves both stores as they were.
   */
  lemma UninitEffect(env: Env, s: Snapshot, known: KnownWaystones, p: BlockPos)
    requires p in s.tiles && p in env.blocks
    ensures var r := Uninit(env, s, known, p);
            var q := Partner(p, env.blocks[p]);
            var w := s.tiles[p].waystone;
            && r.0.tiles[p] == Suppressed
            && (q in s.tiles ==> r.0.tiles[q] == Suppressed)
            && (forall o | o in s.tiles && o != p && o != q :: r.0.tiles[o] == s.tiles[o])
            && (w.IsValid(s.registry) ==>
                  && r.0.registry.Keys == s.registry.Keys - {w.Uid()}
                  && (forall k | k in r.0.registry :: r.0.registry[k] == s.registry[k])
                  && (forall pl | pl in r.1 :: w.Uid() !in r.1[pl])
                  && r.1 == Forget(known, w.Uid()))
            && (!w.IsValid(s.registry) ==> r.0.registry == s.registry && r.1 == known)
  {
    assert Partner(p, env.blocks[p]) != p;
  }

  /** Calling uninitializeWaystone twice is the same as calling it once: the second call removes nothing. */
  lemma UninitIdempotent(env: Env, s: Snapshot, known: KnownWaystones, p: BlockPos)
    requires p in s.tiles && p in env.blocks
    ensures var r := Uninit(env, s, known, p);
            Uninit(env, r.0, r.1, p) == r
  {
    var r := Uninit(env, s, known, p);
    var half := env.blocks[p];
    assert SuppressPair(r.0.tiles, p, half) == r.0.tiles;
  }

  /**
   * Suppression is sticky: after uninitializeWaystone on the tile at `p`, any later
   * getWaystone calls on that tile or on its partner change nothing, so in
   * particular register no waystone.
   */
  lemma GetsAfterUninitChangeNothing(env: Env, s: Snapshot, known: KnownWaystones, p: BlockPos, accesses: seq<Access>)
    requires p in s.tiles && p in env.blocks && InBuildRange(s.tiles)
    requires forall i | 0 <= i < |accesses| :: accesses[i].pos == p || accesses[i].pos == Partner(p, env.blocks[p])
    ensures var u := Uninit(env, s, known, p).0;
            InBuildRange(u.tiles) && RunGets(env, u, accesses) == u
  {
    var u := Uninit(env, s, known, p).0;
    UninitEffect(env, s, known, p);
    GetsOnSuppressedChangeNothing(env, u, {p, Partner(p, env.blocks[p])}, accesses);
  }

  /** After uninitializeWaystone, the tile and its partner stay suppressed whatever getWaystone calls follow, on any tiles. */
  lemma UninitIsSticky(env: Env, s: Snapshot, known: KnownWaystones, p: BlockPos, accesses: seq<Access>)
    requires p in s.tiles && p in env.blocks && InBuildRange(s.tiles)
    ensures var u := Uninit(env, s, known, p).0;
            var q := Partner(p, env.blocks[p]);
            && InBuildRange(u.tiles)
            && RunGets(env, u, accesses).tiles[p] == Suppressed
            && (q in s.tiles ==> RunGets(env, u, accesses).tiles[q] == Suppressed)
  {
    var u := Uninit(env, s, known, p).0;
    var q := Partner(p, env.blocks[p]);
    UninitEffect(env, s, known, p);
    SuppressedTileStaysUnderGets(env, u, p, accesses);
    if q in s.tiles {
      SuppressedTileStaysUnderGets(env, u, q, accesses);
    }
  }

  /**
   * uninitializeWaystone on an upper half that never resolved removes nothing:
   * the lower half's registered waystone stays in the registry although both
   * tiles end suppressed, so no tile refers to it any more.
   */
  lemma UninitOfUnresolvedUpperKeepsRecord(env: Env, s: Snapshot, known: KnownWaystones, p: BlockPos)
    requires p in s.tiles && p.Up() in s.tiles && p.Up() in env.blocks && env.blocks[p.Up()] == Upper
    requires s.tiles[p.Up()].waystone == Invalid
    requires s.tiles[p].waystone.Resolved? && s.tiles[p].waystone.Uid() in s.registry
    ensures var r := Uninit(env, s, known, p.Up());
            && r.0.tiles[p] == Suppressed && r.0.tiles[p.Up()] == Suppressed
            && s.tiles[p].waystone.Uid() in r.0.registry
            && r.1 == known
  {
    assert p.Up().Down() == p;
  }

  /**
   * read after write: a valid waystone comes back as a proxy for its uid; an
   * invalid one leaves the compound as given, so read then sees what was there.
   */
  lemma RestoreOfPersist(tag: Compound, w: WaystoneRef, registry: Registry, current: WaystoneRef)
    ensures w.IsValid(registry) ==> Restore(Persist(tag, w, registry), current) == Proxy(w.Uid())
    ensures !w.IsValid(registry) ==> Restore(Persist(tag, w, registry), current) == Restore(tag, current)
  {
  }

  /**
   * Persisting, restoring into a new tile and persisting again gives the first
   * persisted form exactly when the restored proxy can find its uid in the
   * registry (always, for an invalid waystone).
   */
  lemma PersistRestorePersist(w: WaystoneRef, registry: Registry)
    ensures var t := Persist(EmptyCompound, w, registry);
            Persist(EmptyCompound, Restore(t, Invalid), registry) == t <==> (!w.IsValid(registry) || w.Uid() in registry)
  {
  }

  /**
   * A tile restored from the persisted uid of a registered waystone resolves to
   * a proxy for that same uid without registering anything, and the proxy finds
   * the record with the original's position and dimension.
   */
  lemma ReloadedTileResolvesWithoutRegistration(env: Env, s: Snapshot, p: BlockPos, rec: Waystone, uid: Uuid, name: string)
    requires p in s.tiles && InBuildRange(s.tiles)
    requires rec.uid in s.registry && s.registry[rec.uid] == rec
    ensures var loaded := Restore(Persist(EmptyCompound, Resolved(rec), s.registry), Invalid);
            var s' := s.(tiles := s.tiles[p := TileState(loaded, false)]);
            && Resolve(env, s', p, uid, name) == (s', Proxy(rec.uid))
            && s'.registry[loaded.Uid()].pos == rec.pos
            && s'.registry[loaded.Uid()].dimension == rec.dimension
  {
    var loaded := Restore(Persist(EmptyCompound, Resolved(rec), s.registry), Invalid);
    var s' := s.(tiles := s.tiles[p := TileState(loaded, false)]);
    ResolveChangesNothing(env, s', p, uid, name);
  }
}
