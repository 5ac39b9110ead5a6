/**
 * Digging with a shovel (DiggingSystem.cs). Clicking a dirt tile starts a
 * delayed dig whose event carries the next tile of the progression
 * FloorDirt, FloorDirtDigged_1, _2, _3. When the delay completes the tile is
 * rewritten only if it is still the predecessor of that next tile, and one
 * MaterialDirt1 is spawned on it.
 */
module Digging {
  import opened Wrappers
  import opened MapTiles

  /** `_digProgression`, in its insertion order. */
  const DigProgression: seq<(string, string)> := [
    ("FloorDirt", "FloorDirtDigged_1"),
    ("FloorDirtDigged_1", "FloorDirtDigged_2"),
    ("FloorDirtDigged_2", "FloorDirtDigged_3")
  ]

  const DirtSpawn := "MaterialDirt1"

  /** The `TryGetValue` lookup of the progression from index `i` on. */
  function NextFrom(id: string, i: nat): (r: Option<string>)
    requires i <= |DigProgression|
    ensures r.Some? <==> exists k :: i <= k < |DigProgression| && DigProgression[k].0 == id
    ensures r.Some? ==> exists k :: i <= k < |DigProgression| && DigProgression[k] == (id, r.value)
    decreases |DigProgression| - i
  {
    if i == |DigProgression| then None
    else if DigProgression[i].0 == id then Some(DigProgression[i].1)
    else NextFrom(id, i + 1)
  }

  /** `_digProgression.TryGetValue(id)`: the tile a dig turns `id` into, if it can be dug. */
  function NextDig(id: string): Option<string>
  {
    NextFrom(id, 0)
  }

  /**
   * `_digProgression.FirstOrDefault(x => x.Value == next).Key` from index
   * `i` on: the first key whose value is `next`, or None for the default
   * (null) key.
   */
  function PredecessorFrom(next: string, i: nat): (r: Option<string>)
    requires i <= |DigProgression|
    ensures r.Some? <==> exists k :: i <= k < |DigProgression| && DigProgression[k].1 == next
    ensures r.Some? ==> exists k :: i <= k < |DigProgression| && DigProgression[k] == (r.value, next)
    decreases |DigProgression| - i
  {
    if i == |DigProgression| then None
    else if DigProgression[i].1 == next then Some(DigProgression[i].0)
    else PredecessorFrom(next, i + 1)
  }

  function ExpectedPredecessor(next: string): Option<string>
  {
    PredecessorFrom(next, 0)
  }

  /** The keys and the values of the progression are each pairwise distinct. */
  lemma ProgressionDistinct()
    ensures forall i, j :: 0 <= i < j < |DigProgression| ==>
      DigProgression[i].0 != DigProgression[j].0 && DigProgression[i].1 != DigProgression[j].1
  {
  }

  /** The reverse lookup undoes the forward one, in both directions. */
  lemma PredecessorInverse(id: string, next: string)
    ensures NextDig(id) == Some(next) <==> ExpectedPredecessor(next) == Some(id)
  {
    ProgressionDistinct();
  }

  /** The tile a dig completion leaves at a position holding `tile`, if it rewrites it. */
  function CompleteDig(tile: string, next: string): Option<string>
  {
    if ExpectedPredecessor(next) == Some(tile) then Some(next) else None
  }

  /** A completion rewrites a tile only one step along the progression, and a dig started on a tile completes on it. */
  lemma CompletionFollowsProgression(tile: string, next: string)
    ensures CompleteDig(tile, next).Some? <==> NextDig(tile) == Some(next)
    ensures CompleteDig(tile, next).Some? ==> CompleteDig(tile, next).value == next
  {
    PredecessorInverse(tile, next);
  }

  /** The tile after `n` digs, each started and completed, or None once the tile can no longer be dug. */
  function Digs(tile: string, n: nat): Option<string>
    decreases n
  {
    if n == 0 then Some(tile)
    else match NextDig(tile)
      case None => None
      case Some(next) => Digs(next, n - 1)
  }

  /** Three digs take dirt to FloorDirtDigged_3, which cannot be dug further; no tile takes four. */
  lemma ThreeDigsFromDirt(tile: string)
    ensures Digs("FloorDirt", 3) == Some("FloorDirtDigged_3")
    ensures NextDig("FloorDirtDigged_3").None?
    ensures Digs(tile, 4).None?
  {
    assert NextDig("FloorDirt") == Some("FloorDirtDigged_1");
    assert NextDig("FloorDirtDigged_1") == Some("FloorDirtDigged_2");
    assert NextDig("FloorDirtDigged_2") == Some("FloorDirtDigged_3");
    assert NextDig("FloorDirtDigged_3").None?;
  }

  /** The delayed action a dig starts: where, and the tile it leads to. */
  datatype DigDoAfterEvent = DigDoAfterEvent(snapPos: Pos, nextTileId: string)

  /**
   * `OnAfterInteract` on the tile `snapPos` of `grid` (None when the click is
   * off any grid). `doAfterStarts` is whether the host accepts the delayed
   * action. Returns the event requested, if any, and the event's new
   * Handled flag.
   */
  method OnAfterInteract(args: InteractArgs, grid: Option<TileGrid>, snapPos: Pos, doAfterStarts: bool)
    returns (requested: Option<DigDoAfterEvent>, handled: bool)
    ensures requested.Some? <==>
      !args.handled && !args.hasTarget && args.canReach && grid.Some? && NextDig(grid.value.TileAt(snapPos)).Some?
    ensures requested.Some? ==>
      requested.value == DigDoAfterEvent(snapPos, NextDig(grid.value.TileAt(snapPos)).value)
    ensures handled <==> args.handled || (requested.Some? && doAfterStarts)
  {
    requested, handled := None, args.handled;
    if args.handled || args.hasTarget || !args.canReach {
      return;
    }
    if grid.None? {
      return;
    }
    var tileDef := grid.value.TileAt(snapPos);
    var nextTileId := NextDig(tileDef);
    if nextTileId.None? {
      return;
    }
    requested := Some(DigDoAfterEvent(snapPos, nextTileId.value));
    if doAfterStarts {
      handled := true;
    }
  }

  /**
   * `OnDoAfter`: a completion that is not cancelled nor handled, on a grid
   * that still exists, rewrites the tile to the event's next tile and spawns
   * one MaterialDirt1 there, provided the tile is still the next tile's
   * predecessor. Otherwise nothing changes.
   */
  method OnDoAfter(args: DoAfterArgs, grid: Option<TileGrid>, ev: DigDoAfterEvent) returns (handled: bool)
    modifies if grid.Some? then {grid.value} else {}
    ensures var done := !args.cancelled && !args.handled && grid.Some?
                        && CompleteDig(old(grid.value.TileAt(ev.snapPos)), ev.nextTileId).Some?;
      && (done ==> grid.value.tiles == old(grid.value.tiles)[ev.snapPos := ev.nextTileId]
                   && grid.value.spawned == old(grid.value.spawned) + [SpawnedItem(DirtSpawn, ev.snapPos)])
      && (!done && grid.Some? ==> grid.value.tiles == old(grid.value.tiles) && grid.value.spawned == old(grid.value.spawned))
      && (handled <==> args.handled || done)
  {
    handled := args.handled;
    if args.cancelled || args.handled {
      return;
    }
    if grid.None? {
      return;
    }
    var tileDef := grid.value.TileAt(ev.snapPos);
    var expectedTileId := ExpectedPredecessor(ev.nextTileId);
    if expectedTileId != Some(tileDef) {
      return;
    }
    grid.value.SetTile(ev.snapPos, ev.nextTileId);
    grid.value.Spawn(DirtSpawn, ev.snapPos);
    handled := true;
  }
}
