/**
 * The part of a map grid that the digging and straw systems touch: the tile
 * definition ID at each tile position, and the entities spawned on the grid.
 * A position without a tile holds the empty tile, whose definition is
 * "Space".
 */
module MapTiles {

  /** A tile position on the grid (`Vector2i`). */
  type Pos = (int, int)

  const SpaceTile := "Space"

  /** An entity spawned at the centre of a tile. */
  datatype SpawnedItem = SpawnedItem(prototype: string, at: Pos)

  /** `n` copies of `item`. */
  function Repeat(item: SpawnedItem, n: nat): (r: seq<SpawnedItem>)
    ensures |r| == n
    ensures forall i :: 0 <= i < n ==> r[i] == item
  {
    seq(n, _ => item)
  }

  class TileGrid {
    var tiles: map<Pos, string>
    var spawned: seq<SpawnedItem>

    constructor (tiles: map<Pos, string>)
      ensures this.tiles == tiles && spawned == []
    {
      this.tiles := tiles;
      spawned := [];
    }

    /** The definition ID of the tile at `p` (`GetTileRef` then the definition lookup). */
    function TileAt(p: Pos): string
      reads this
    {
      if p in tiles then tiles[p] else SpaceTile
    }

    /** `SetTile`: only the tile at `p` changes. */
    method SetTile(p: Pos, id: string)
      modifies this
      ensures tiles == old(tiles)[p := id] && spawned == old(spawned)
      ensures TileAt(p) == id
    {
      tiles := tiles[p := id];
    }

    /** `Spawn(prototype, GridTileToLocal(p))`. */
    method Spawn(prototype: string, p: Pos)
      modifies this
      ensures spawned == old(spawned) + [SpawnedItem(prototype, p)] && tiles == old(tiles)
    {
      spawned := spawned + [SpawnedItem(prototype, p)];
    }
  }

  /** What an `AfterInteractEvent` carries that the tools check first. */
  datatype InteractArgs = InteractArgs(handled: bool, hasTarget: bool, canReach: bool)

  /** What a completed `DoAfterEvent` carries that the tools check first. */
  datatype DoAfterArgs = DoAfterArgs(cancelled: bool, handled: bool)
}
