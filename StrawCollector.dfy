/**
 * Cutting grass for straw (StrawCollectorSystem.cs). Clicking one of five
 * grass tiles starts a delayed collection. When it completes on a tile that
 * is still grass, the tile becomes FloorDirt and a drawn number of
 * MaterialStraw1 in [MinAmount, MaxAmount] is spawned on it.
 */
module StrawCollector {
  import opened Wrappers
  import opened MapTiles
  import HostRandom

  /** `_grassTiles`. */
  const GrassTiles: set<string> :=
    {"FloorGrass", "FloorGrassJungle", "FloorGrassDark", "FloorGrassLight", "FloorPlanetGrass"}

  const DirtTile := "FloorDirt"
  const StrawSpawn := "MaterialStraw1"

  /** `StrawCollectorComponent`'s amounts (defaults 0 and 3). */
  datatype Collector = Collector(minAmount: int, maxAmount: int)

  /** The delayed action a collection starts. */
  datatype StrawCollectDoAfterEvent = StrawCollectDoAfterEvent(snapPos: Pos)

  /** `Random.Next(MinAmount, MaxAmount + 1)` throws when the bounds are crossed. */
  datatype StrawError = InvalidAmountRange

  /** The number of iterations of `for (int i = 0; i < strawCount; i++)`. */
  function SpawnCount(strawCount: int): nat
  {
    if strawCount < 0 then 0 else strawCount
  }

  /** A cut tile is dirt, which is not grass: it neither starts nor completes another collection. */
  lemma DirtIsNotGrass()
    ensures DirtTile !in GrassTiles && SpaceTile !in GrassTiles
    ensures |GrassTiles| == 5
  {
  }

  /** The drawn straw count lies in [MinAmount, MaxAmount] whenever the range is not empty. */
  lemma StrawCountBounds(c: Collector, strawCount: int)
    requires c.minAmount <= c.maxAmount
    requires HostRandom.IsNextDraw(c.minAmount, c.maxAmount + 1, strawCount)
    ensures c.minAmount <= strawCount <= c.maxAmount
  {
  }

  /** `OnAfterInteract`: like digging, but only grass tiles start a collection. */
  method OnAfterInteract(args: InteractArgs, grid: Option<TileGrid>, snapPos: Pos, doAfterStarts: bool)
    returns (requested: Option<StrawCollectDoAfterEvent>, handled: bool)
    ensures requested.Some? <==>
      !args.handled && !args.hasTarget && args.canReach && grid.Some? && grid.value.TileAt(snapPos) in GrassTiles
    ensures requested.Some? ==> requested.value == StrawCollectDoAfterEvent(snapPos)
    ensures handled <==> args.handled || (requested.Some? && doAfterStarts)
  {
    requested, handled := None, args.handled;
    if args.handled || args.hasTarget || !args.canReach {
      return;
    }
    if grid.None? {
      return;
    }
    var tileDef := grid.value.TileAt(snapPos);
    if tileDef !in GrassTiles {
      return;
    }
    requested := Some(StrawCollectDoAfterEvent(snapPos));
    if doAfterStarts {
      handled := true;
    }
  }

  /**
   * `OnDoAfter`, with `draw` the host's draw for the straw count. A
   * completion that is not cancelled nor handled, on a grid that still
   * exists and a tile that is still grass, turns the tile into FloorDirt and
   * spawns `draw` straw there; the draw throws, after the rewrite, when
   * MinAmount > MaxAmount + 1. Otherwise nothing changes.
   */
  method OnDoAfter(args: DoAfterArgs, grid: Option<TileGrid>, ev: StrawCollectDoAfterEvent, comp: Collector, draw: int)
    returns (r: Result<bool, StrawError>)
    requires comp.minAmount <= comp.maxAmount + 1 ==> HostRandom.IsNextDraw(comp.minAmount, comp.maxAmount + 1, draw)
    modifies if grid.Some? then {grid.value} else {}
    ensures var cut := !args.cancelled && !args.handled && grid.Some?
                       && old(grid.value.TileAt(ev.snapPos)) in GrassTiles;
      && (cut ==> grid.value.tiles == old(grid.value.tiles)[ev.snapPos := DirtTile])
      && (cut && comp.minAmount <= comp.maxAmount + 1 ==>
            r == Ok(true) && grid.value.spawned == old(grid.value.spawned) + Repeat(SpawnedItem(StrawSpawn, ev.snapPos), SpawnCount(draw)))
      && (cut && comp.minAmount > comp.maxAmount + 1 ==>
            r == Err(InvalidAmountRange) && grid.value.spawned == old(grid.value.spawned))
      && (!cut ==> r == Ok(args.handled))
      && (!cut && grid.Some? ==> grid.value.tiles == old(grid.value.tiles) && grid.value.spawned == old(grid.value.spawned))
    ensures r == Ok(true) && !args.handled ==> grid.Some? && grid.value.TileAt(ev.snapPos) !in GrassTiles
  {
    if args.cancelled || args.handled {
      return Ok(args.handled);
    }
    if grid.None? {
      return Ok(false);
    }
    var g := grid.value;
    var tileDef := g.TileAt(ev.snapPos);
    if tileDef !in GrassTiles {
      return Ok(false);
    }
    g.SetTile(ev.snapPos, DirtTile);
    if comp.minAmount > comp.maxAmount + 1 {
      return Err(InvalidAmountRange);
    }
    var strawCount := draw;
    ghost var before := g.spawned;
    var i := 0;
    while i < strawCount
      invariant 0 <= i <= SpawnCount(strawCount)
      invariant g.tiles == old(g.tiles)[ev.snapPos := DirtTile]
      invariant g.spawned == before + Repeat(SpawnedItem(StrawSpawn, ev.snapPos), i)
    {
      g.Spawn(StrawSpawn, ev.snapPos);
      assert Repeat(SpawnedItem(StrawSpawn, ev.snapPos), i) + [SpawnedItem(StrawSpawn, ev.snapPos)]
          == Repeat(SpawnedItem(StrawSpawn, ev.snapPos), i + 1);
      i := i + 1;
    }
    return Ok(true);
  }
}
