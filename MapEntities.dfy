/**
 * Entity placement of the map generator (mapGeneration.py): the global uid
 * counter `next_uid`, the noise layers of `generate_dynamic_entities` that
 * put one entity on each free interior cell whose noise passes a layer's
 * threshold, and the ring of indestructible walls around the map.
 *
 * Noise samples and `random.choice` are inputs: a layer's raw noise at
 * (x, y) is `noise(layer, x, y)`, and the prototype picked there is the
 * entry at index `choice(layer, x, y)` modulo the list's length.
 */
module MapEntities {
  import opened Wrappers
  import opened MapGrid

  /** The module-level `global_uid` and `next_uid`: uids handed out in increasing order, from 3. */
  class UidCounter {
    var next: int

    constructor ()
      ensures next == 3
    {
      next := 3;
    }

    method NextUid() returns (uid: int)
      modifies this
      ensures uid == old(next) && next == old(next) + 1
    {
      uid := next;
      next := next + 1;
    }
  }

  /** A placed entity: its uid and the tile position written as its "x,y" Transform pos. */
  datatype Entity = Entity(uid: int, x: int, y: int)

  /** An entity layer: the prototypes to pick from, the noise threshold and the tile condition. */
  datatype Layer = Layer(protos: seq<string>, threshold: real, condition: int -> bool)

  /** `(noise_value + 1) / 2`: noise in [-1, 1] moved into [0, 1]. */
  function Normalised(v: real): (r: real)
    ensures -1.0 <= v <= 1.0 ==> 0.0 <= r <= 1.0
  {
    (v + 1.0) / 2.0
  }

  /** The inputs of one placement pass: the bordered tile map, the layers in priority order, noise and choices. */
  datatype Scene = Scene(grid: seq<seq<int>>, h: nat, w: nat, layers: seq<Layer>,
                         noise: (int, int, int) -> real, choice: (int, int, int) -> nat)
  {
    predicate Valid()
    {
      Rectangular(grid, h, w)
    }

    /** Layer l wants an entity at interior cell (x, y): the noise passes its threshold and the tile its condition. */
    predicate Eligible(l: int, x: int, y: int)
      requires Valid()
    {
      && 0 <= l < |layers| && 0 <= y < h && 0 <= x < w
      && !OnBorder(x, y, h, w)
      && Normalised(noise(l, x, y)) > layers[l].threshold
      && layers[l].condition(grid[y][x])
    }

    /** Layer l is the first layer that wants (x, y), so it is the one that gets the cell. */
    predicate FirstEligible(l: int, x: int, y: int)
      requires Valid()
    {
      Eligible(l, x, y) && forall l' :: 0 <= l' < l ==> !Eligible(l', x, y)
    }

    /** `random.choice(entity_protos)` at (x, y) for layer l. */
    function Chosen(l: int, x: int, y: int): (p: string)
      requires 0 <= l < |layers| && |layers[l].protos| > 0
      ensures p in layers[l].protos
    {
      layers[l].protos[choice(l, x, y) % |layers[l].protos|]
    }
  }

  /** One placement of the pass: the layer that placed it, the prototype picked and the entity. */
  datatype Placement = Placement(layer: int, proto: string, entity: Entity)

  /** The order of the loops: layer by layer, row by row, column by column. */
  predicate ScanBefore(l1: int, y1: int, x1: int, l2: int, y2: int, x2: int)
  {
    l1 < l2 || (l1 == l2 && (y1 < y2 || (y1 == y2 && x1 < x2)))
  }

  /** `occupied_positions` after the placements of the log. */
  function Positions(log: seq<Placement>): set<(int, int)>
  {
    set i | 0 <= i < |log| :: (log[i].entity.x, log[i].entity.y)
  }

  /**
   * What every placement made so far satisfies: uids are consecutive from
   * `start`; the entity stands where its layer was the first to want it, with
   * the prototype chosen there; placements come in loop order and never share
   * a cell.
   */
  ghost predicate LogSound(s: Scene, log: seq<Placement>, start: int)
    requires s.Valid()
  {
    && (forall i :: 0 <= i < |log| ==>
          && log[i].entity.uid == start + i
          && s.FirstEligible(log[i].layer, log[i].entity.x, log[i].entity.y)
          && |s.layers[log[i].layer].protos| > 0
          && log[i].proto == s.Chosen(log[i].layer, log[i].entity.x, log[i].entity.y))
    && (forall i, j :: 0 <= i < j < |log| ==>
          && ScanBefore(log[i].layer, log[i].entity.y, log[i].entity.x, log[j].layer, log[j].entity.y, log[j].entity.x)
          && (log[i].entity.x, log[i].entity.y) != (log[j].entity.x, log[j].entity.y))
  }

  /**
   * The loops have reached (l, y, x): every placement was made before it, and
   * every cell some earlier step's layer wanted is occupied.
   */
  ghost predicate ScannedTo(s: Scene, log: seq<Placement>, l: int, y: int, x: int)
    requires s.Valid()
  {
    && (forall i :: 0 <= i < |log| ==> ScanBefore(log[i].layer, log[i].entity.y, log[i].entity.x, l, y, x))
    && (forall l', y', x' :: ScanBefore(l', y', x', l, y, x) && s.Eligible(l', x', y') ==> (x', y') in Positions(log))
  }

  // ---------------------------------------------------------------------------
  // Groups by prototype
  // ---------------------------------------------------------------------------

  /** `groups[proto]`: the entities placed with the prototype, in placement order. */
  function EntitiesOf(log: seq<Placement>, proto: string): seq<Entity>
  {
    if |log| == 0 then []
    else EntitiesOf(log[..|log| - 1], proto) + (if log[|log| - 1].proto == proto then [log[|log| - 1].entity] else [])
  }

  /** The keys of `groups` in insertion order: each prototype where it was first picked. */
  function FirstSeen(log: seq<Placement>): seq<string>
  {
    if |log| == 0 then []
    else
      var before := FirstSeen(log[..|log| - 1]);
      if log[|log| - 1].proto in before then before else before + [log[|log| - 1].proto]
  }

  /** The dictionary keys are exactly the prototypes picked. */
  lemma {:induction false} FirstSeenMembers(log: seq<Placement>, p: string)
    ensures p in FirstSeen(log) <==> exists i :: 0 <= i < |log| && log[i].proto == p
  {
    if |log| > 0 {
      var prefix := log[..|log| - 1];
      FirstSeenMembers(prefix, p);
      if exists i :: 0 <= i < |prefix| && prefix[i].proto == p {
        var i :| 0 <= i < |prefix| && prefix[i].proto == p;
        assert log[i].proto == p;
      }
      if exists i :: 0 <= i < |log| && log[i].proto == p {
        var i :| 0 <= i < |log| && log[i].proto == p;
        if i < |prefix| {
          assert prefix[i].proto == p;
        }
      }
    }
  }

  /** No prototype is a key twice. */
  lemma {:induction false} FirstSeenDistinct(log: seq<Placement>)
    ensures forall i, j :: 0 <= i < j < |FirstSeen(log)| ==> FirstSeen(log)[i] != FirstSeen(log)[j]
  {
    if |log| > 0 {
      FirstSeenDistinct(log[..|log| - 1]);
    }
  }

  /** A prototype has entities exactly when it is a key. */
  lemma {:induction false} EntitiesOfNonEmpty(log: seq<Placement>, p: string)
    ensures |EntitiesOf(log, p)| > 0 <==> p in FirstSeen(log)
  {
    if |log| > 0 {
      EntitiesOfNonEmpty(log[..|log| - 1], p);
    }
  }

  /** `groups` and its key order are those of the log. */
  ghost predicate GroupsMatch(groups: map<string, seq<Entity>>, order: seq<string>, log: seq<Placement>)
  {
    && order == FirstSeen(log)
    && (forall p :: p in groups <==> p in order)
    && (forall p :: p in groups ==> groups[p] == EntitiesOf(log, p))
  }

  lemma GroupsAppend(log: seq<Placement>, pl: Placement)
    ensures forall p :: EntitiesOf(log + [pl], p) == EntitiesOf(log, p) + (if pl.proto == p then [pl.entity] else [])
    ensures FirstSeen(log + [pl]) == if pl.proto in FirstSeen(log) then FirstSeen(log) else FirstSeen(log) + [pl.proto]
  {
    assert (log + [pl])[..|log|] == log;
  }

  // ---------------------------------------------------------------------------
  // Steps of the scan
  // ---------------------------------------------------------------------------

  lemma ScanStart(s: Scene)
    requires s.Valid()
    ensures ScannedTo(s, [], 0, 0, 0)
  {
  }

  /** A cell that gets no entity moves the scan on, as long as its layer does not want it or it is taken. */
  lemma SkipStep(s: Scene, log: seq<Placement>, l: int, y: int, x: int)
    requires s.Valid() && ScannedTo(s, log, l, y, x)
    requires s.Eligible(l, x, y) ==> (x, y) in Positions(log)
    ensures ScannedTo(s, log, l, y, x + 1)
  {
  }

  /** Adding a placement adds its cell to the occupied set. */
  lemma PositionsAppend(log: seq<Placement>, pl: Placement)
    ensures Positions(log + [pl]) == Positions(log) + {(pl.entity.x, pl.entity.y)}
  {
    var next := log + [pl];
    assert forall i :: 0 <= i < |log| ==> next[i] == log[i];
    forall p | p in Positions(next)
      ensures p in Positions(log) + {(pl.entity.x, pl.entity.y)}
    {
      var i :| 0 <= i < |next| && p == (next[i].entity.x, next[i].entity.y);
      if i < |log| {
        assert p == (log[i].entity.x, log[i].entity.y);
      }
    }
    forall p | p in Positions(log) + {(pl.entity.x, pl.entity.y)}
      ensures p in Positions(next)
    {
      if p == (pl.entity.x, pl.entity.y) {
        assert p == (next[|log|].entity.x, next[|log|].entity.y);
      } else {
        var i :| 0 <= i < |log| && p == (log[i].entity.x, log[i].entity.y);
        assert p == (next[i].entity.x, next[i].entity.y);
      }
    }
  }

  /** Placing the chosen prototype at a free cell the layer wants keeps the log sound. */
  lemma PlaceKeepsSound(s: Scene, log: seq<Placement>, start: int, l: int, y: int, x: int)
    requires s.Valid() && LogSound(s, log, start) && ScannedTo(s, log, l, y, x)
    requires s.Eligible(l, x, y) && (x, y) !in Positions(log) && |s.layers[l].protos| > 0
    ensures LogSound(s, log + [Placement(l, s.Chosen(l, x, y), Entity(start + |log|, x, y))], start)
  {
    var next := log + [Placement(l, s.Chosen(l, x, y), Entity(start + |log|, x, y))];
    forall l' | 0 <= l' < l
      ensures !s.Eligible(l', x, y)
    {
      assert ScanBefore(l', y, x, l, y, x);
    }
    forall i | 0 <= i < |log|
      ensures (log[i].entity.x, log[i].entity.y) != (x, y)
    {
      assert (log[i].entity.x, log[i].entity.y) in Positions(log);
    }
    assert forall i :: 0 <= i < |log| ==> next[i] == log[i];
  }

  /** Placing at (x, y) moves the scan on past (x, y). */
  lemma PlaceMovesScan(s: Scene, log: seq<Placement>, pl: Placement, l: int, y: int, x: int)
    requires s.Valid() && ScannedTo(s, log, l, y, x)
    requires pl.layer == l && pl.entity.x == x && pl.entity.y == y
    ensures ScannedTo(s, log + [pl], l, y, x + 1)
  {
    PositionsAppend(log, pl);
    var next := log + [pl];
    assert forall i :: 0 <= i < |log| ==> next[i] == log[i];
  }

  /** Past the last column the scan moves to the next row. */
  lemma RowDone(s: Scene, log: seq<Placement>, start: int, l: int, y: int)
    requires s.Valid() && LogSound(s, log, start) && ScannedTo(s, log, l, y, s.w)
    ensures ScannedTo(s, log, l, y + 1, 0)
  {
  }

  /** Past the last row the scan moves to the next layer. */
  lemma LayerDone(s: Scene, log: seq<Placement>, start: int, l: int)
    requires s.Valid() && LogSound(s, log, start) && ScannedTo(s, log, l, s.h, 0)
    ensures ScannedTo(s, log, l + 1, 0, 0)
  {
  }

  /** A free cell the layer wants is one no earlier layer wanted. */
  lemma FreeIsFirst(s: Scene, log: seq<Placement>, l: int, y: int, x: int)
    requires s.Valid() && ScannedTo(s, log, l, y, x)
    requires s.Eligible(l, x, y) && (x, y) !in Positions(log)
    ensures s.FirstEligible(l, x, y)
  {
    forall l' | 0 <= l' < l
      ensures !s.Eligible(l', x, y)
    {
      assert ScanBefore(l', y, x, l, y, x);
    }
  }

  /** Adding an entity to `groups[proto]`, creating the key first when it is new, follows the log. */
  lemma GroupsStep(groups: map<string, seq<Entity>>, order: seq<string>, log: seq<Placement>, pl: Placement)
    requires GroupsMatch(groups, order, log)
    ensures var g := if pl.proto in groups then groups else groups[pl.proto := []];
      var o := if pl.proto in groups then order else order + [pl.proto];
      GroupsMatch(g[pl.proto := g[pl.proto] + [pl.entity]], o, log + [pl])
  {
    GroupsAppend(log, pl);
    EntitiesOfNonEmpty(log, pl.proto);
  }

  /** Every cell some layer wants is occupied. */
  ghost predicate Complete(s: Scene, log: seq<Placement>)
    requires s.Valid()
  {
    forall l, y, x :: s.Eligible(l, x, y) ==> (x, y) in Positions(log)
  }

  lemma ScanComplete(s: Scene, log: seq<Placement>)
    requires s.Valid() && ScannedTo(s, log, |s.layers|, 0, 0)
    ensures Complete(s, log)
  {
    forall l, y, x | s.Eligible(l, x, y)
      ensures (x, y) in Positions(log)
    {
      assert ScanBefore(l, y, x, |s.layers|, 0, 0);
    }
  }

  /**
   * When the log is sound and complete, every layer that is first to want a
   * cell has prototypes, so `random.choice` never raised.
   */
  lemma ChoicesDefined(s: Scene, log: seq<Placement>, start: int)
    requires s.Valid() && LogSound(s, log, start) && Complete(s, log)
    ensures forall l, y, x :: s.FirstEligible(l, x, y) ==> |s.layers[l].protos| > 0
  {
    forall l, y, x | s.FirstEligible(l, x, y)
      ensures |s.layers[l].protos| > 0
    {
      assert (x, y) in Positions(log);
      var i :| 0 <= i < |log| && (x, y) == (log[i].entity.x, log[i].entity.y);
      var li := log[i].layer;
      assert s.FirstEligible(li, x, y);
      if li < l {
        assert s.Eligible(li, x, y);
      } else if li > l {
        assert s.Eligible(l, x, y);
      }
    }
  }

  /** A layer without prototypes that is first to want a cell makes `random.choice` raise IndexError. */
  datatype EntityError = NoEntityProtos(layer: int)

  /**
   * The noise layers of `generate_dynamic_entities`, in the order given: one
   * entity of a chosen prototype on each interior cell that a layer wants and
   * no earlier layer took, with a fresh uid, grouped by prototype in
   * insertion order.
   */
  method PlaceNoiseEntities(counter: UidCounter, s: Scene)
    returns (err: Option<EntityError>, groups: map<string, seq<Entity>>, order: seq<string>, ghost log: seq<Placement>)
    requires s.Valid()
    modifies counter
    ensures err.Some? ==> exists l, y, x :: s.FirstEligible(l, x, y) && |s.layers[l].protos| == 0
    ensures err.None? ==> forall l, y, x :: s.FirstEligible(l, x, y) ==> |s.layers[l].protos| > 0
    ensures err.None? ==> LogSound(s, log, old(counter.next)) && Complete(s, log)
    ensures err.None? ==> GroupsMatch(groups, order, log) && counter.next == old(counter.next) + |log|
  {
    ghost var start := counter.next;
    groups, order, log := map[], [], [];
    var occupied: set<(int, int)> := {};
    var l := 0;
    while l < |s.layers|
      invariant 0 <= l <= |s.layers|
      invariant LogSound(s, log, start) && ScannedTo(s, log, l, 0, 0)
      invariant GroupsMatch(groups, order, log) && occupied == Positions(log) && counter.next == start + |log|
    {
      err, groups, order, occupied, log := PlaceLayer(counter, s, l, groups, order, occupied, log, start);
      if err.Some? {
        return;
      }
      l := l + 1;
    }
    ScanComplete(s, log);
    ChoicesDefined(s, log, start);
    err := None;
  }

  /** The `y` loop of one layer. */
  method PlaceLayer(counter: UidCounter, s: Scene, l: int, groups0: map<string, seq<Entity>>, order0: seq<string>,
                    occupied0: set<(int, int)>, ghost log0: seq<Placement>, ghost start: int)
    returns (err: Option<EntityError>, groups: map<string, seq<Entity>>, order: seq<string>,
             occupied: set<(int, int)>, ghost log: seq<Placement>)
    requires s.Valid() && 0 <= l < |s.layers|
    requires LogSound(s, log0, start) && ScannedTo(s, log0, l, 0, 0)
    requires GroupsMatch(groups0, order0, log0) && occupied0 == Positions(log0) && counter.next == start + |log0|
    modifies counter
    ensures err.Some? ==> exists y, x :: s.FirstEligible(l, x, y) && |s.layers[l].protos| == 0
    ensures err.None? ==> LogSound(s, log, start) && ScannedTo(s, log, l + 1, 0, 0)
    ensures err.None? ==> GroupsMatch(groups, order, log) && occupied == Positions(log) && counter.next == start + |log|
  {
    groups, order, occupied, log := groups0, order0, occupied0, log0;
    var y := 0;
    while y < s.h
      invariant 0 <= y <= s.h
      invariant LogSound(s, log, start) && ScannedTo(s, log, l, y, 0)
      invariant GroupsMatch(groups, order, log) && occupied == Positions(log) && counter.next == start + |log|
    {
      err, groups, order, occupied, log := PlaceRow(counter, s, l, y, groups, order, occupied, log, start);
      if err.Some? {
        return;
      }
      y := y + 1;
    }
    LayerDone(s, log, start, l);
    err := None;
  }

  /** The `x` loop of one row of one layer. */
  method PlaceRow(counter: UidCounter, s: Scene, l: int, y: int, groups0: map<string, seq<Entity>>, order0: seq<string>,
                  occupied0: set<(int, int)>, ghost log0: seq<Placement>, ghost start: int)
    returns (err: Option<EntityError>, groups: map<string, seq<Entity>>, order: seq<string>,
             occupied: set<(int, int)>, ghost log: seq<Placement>)
    requires s.Valid() && 0 <= l < |s.layers| && 0 <= y < s.h
    requires LogSound(s, log0, start) && ScannedTo(s, log0, l, y, 0)
    requires GroupsMatch(groups0, order0, log0) && occupied0 == Positions(log0) && counter.next == start + |log0|
    modifies counter
    ensures err.Some? ==> exists x :: s.FirstEligible(l, x, y) && |s.layers[l].protos| == 0
    ensures err.None? ==> LogSound(s, log, start) && ScannedTo(s, log, l, y + 1, 0)
    ensures err.None? ==> GroupsMatch(groups, order, log) && occupied == Positions(log) && counter.next == start + |log|
  {
    groups, order, occupied, log := groups0, order0, occupied0, log0;
    var x := 0;
    while x < s.w
      invariant 0 <= x <= s.w
      invariant LogSound(s, log, start) && ScannedTo(s, log, l, y, x)
      invariant GroupsMatch(groups, order, log) && occupied == Positions(log) && counter.next == start + |log|
    {
      err, groups, order, occupied, log := ScanCell(counter, s, l, y, x, groups, order, occupied, log, start);
      if err.Some? {
        return;
      }
      x := x + 1;
    }
    RowDone(s, log, start, l, y);
    err := None;
  }

  /** The body of the `x` loop: place at (x, y) if the cell is free, interior and the layer wants it. */
  method ScanCell(counter: UidCounter, s: Scene, l: int, y: int, x: int, groups0: map<string, seq<Entity>>, order0: seq<string>,
                  occupied0: set<(int, int)>, ghost log0: seq<Placement>, ghost start: int)
    returns (err: Option<EntityError>, groups: map<string, seq<Entity>>, order: seq<string>,
             occupied: set<(int, int)>, ghost log: seq<Placement>)
    requires s.Valid() && 0 <= l < |s.layers| && 0 <= y < s.h && 0 <= x < s.w
    requires LogSound(s, log0, start) && ScannedTo(s, log0, l, y, x)
    requires GroupsMatch(groups0, order0, log0) && occupied0 == Positions(log0) && counter.next == start + |log0|
    modifies counter
    ensures err.Some? ==> s.FirstEligible(l, x, y) && |s.layers[l].protos| == 0
    ensures err.None? ==> LogSound(s, log, start) && ScannedTo(s, log, l, y, x + 1)
    ensures err.None? ==> GroupsMatch(groups, order, log) && occupied == Positions(log) && counter.next == start + |log|
  {
    err, groups, order, occupied, log := None, groups0, order0, occupied0, log0;
    if OnBorder(x, y, s.h, s.w) || (x, y) in occupied {
      SkipStep(s, log, l, y, x);
      return;
    }
    var layer := s.layers[l];
    var tileVal := s.grid[y][x];
    var noiseValue := Normalised(s.noise(l, x, y));
    if noiseValue > layer.threshold && layer.condition(tileVal) {
      if |layer.protos| == 0 {
        FreeIsFirst(s, log, l, y, x);
        err := Some(NoEntityProtos(l));
        return;
      }
      groups, order, occupied, log := PlaceAt(counter, s, l, y, x, groups, order, occupied, log, start);
    } else {
      SkipStep(s, log, l, y, x);
    }
  }

  /** The placement at (x, y): a chosen prototype with a fresh uid, recorded in its group and in the occupied cells. */
  method PlaceAt(counter: UidCounter, s: Scene, l: int, y: int, x: int, groups0: map<string, seq<Entity>>, order0: seq<string>,
                 occupied0: set<(int, int)>, ghost log0: seq<Placement>, ghost start: int)
    returns (groups: map<string, seq<Entity>>, order: seq<string>, occupied: set<(int, int)>, ghost log: seq<Placement>)
    requires s.Valid() && s.Eligible(l, x, y) && |s.layers[l].protos| > 0
    requires LogSound(s, log0, start) && ScannedTo(s, log0, l, y, x)
    requires GroupsMatch(groups0, order0, log0) && occupied0 == Positions(log0) && counter.next == start + |log0|
    requires (x, y) !in occupied0
    modifies counter
    ensures LogSound(s, log, start) && ScannedTo(s, log, l, y, x + 1)
    ensures GroupsMatch(groups, order, log) && occupied == Positions(log) && counter.next == start + |log|
  {
    var layer := s.layers[l];
    var proto := layer.protos[s.choice(l, x, y) % |layer.protos|];
    var uid := counter.NextUid();
    ghost var pl := Placement(l, proto, Entity(uid, x, y));
    assert pl == Placement(l, s.Chosen(l, x, y), Entity(start + |log0|, x, y));
    PlaceKeepsSound(s, log0, start, l, y, x);
    PlaceMovesScan(s, log0, pl, l, y, x);
    PositionsAppend(log0, pl);
    groups, order := AddToGroup(groups0, order0, log0, pl, proto, Entity(uid, x, y));
    occupied := occupied0 + {(x, y)};
    log := log0 + [pl];
  }

  /** `groups.setdefault(proto, []).append(entity)`: the groups after one more placement. */
  method AddToGroup(groups0: map<string, seq<Entity>>, order0: seq<string>, ghost log0: seq<Placement>, ghost pl: Placement,
                    proto: string, e: Entity)
    returns (groups: map<string, seq<Entity>>, order: seq<string>)
    requires GroupsMatch(groups0, order0, log0) && pl.proto == proto && pl.entity == e
    ensures GroupsMatch(groups, order, log0 + [pl])
  {
    groups, order := groups0, order0;
    if proto !in groups {
      groups := groups[proto := []];
      order := order + [proto];
    }
    GroupsStep(groups0, order0, log0, pl);
    groups := groups[proto := groups[proto] + [e]];
  }

  // ---------------------------------------------------------------------------
  // Border walls
  // ---------------------------------------------------------------------------

  const WallProto: string := "WallRockIndestructible"

  /** Row-major order of cells. */
  predicate CellBefore(y1: int, x1: int, y2: int, x2: int)
  {
    y1 < y2 || (y1 == y2 && x1 < x2)
  }

  /** The cells the entities stand on. */
  function Cells(es: seq<Entity>): set<(int, int)>
  {
    set i | 0 <= i < |es| :: (es[i].x, es[i].y)
  }

  lemma CellsAppend(es: seq<Entity>, e: Entity)
    ensures Cells(es + [e]) == Cells(es) + {(e.x, e.y)}
  {
    var next := es + [e];
    assert forall i :: 0 <= i < |es| ==> next[i] == es[i];
    forall p | p in Cells(next)
      ensures p in Cells(es) + {(e.x, e.y)}
    {
      var i :| 0 <= i < |next| && p == (next[i].x, next[i].y);
      if i < |es| {
        assert p == (es[i].x, es[i].y);
      }
    }
    forall p | p in Cells(es) + {(e.x, e.y)}
      ensures p in Cells(next)
    {
      if p == (e.x, e.y) {
        assert p == (next[|es|].x, next[|es|].y);
      } else {
        var i :| 0 <= i < |es| && p == (es[i].x, es[i].y);
        assert p == (next[i].x, next[i].y);
      }
    }
  }

  /** The border cells of row y among its first x columns. */
  function RowBorderCount(h: int, w: int, y: int, x: nat): nat
  {
    if x == 0 then 0 else RowBorderCount(h, w, y, x - 1) + (if OnBorder(x - 1, y, h, w) then 1 else 0)
  }

  /** The border cells of the first y rows. */
  function BorderCount(h: int, w: nat, y: nat): nat
  {
    if y == 0 then 0 else BorderCount(h, w, y - 1) + RowBorderCount(h, w, y - 1, w)
  }

  /**
   * Walls placed up to cell (y, x) of the scan: consecutive uids from `start`,
   * each on a border cell, in row-major order, one on every border cell
   * before (y, x), and as many as there are such cells.
   */
  ghost predicate WallsUpTo(walls: seq<Entity>, h: nat, w: nat, start: int, y: int, x: int)
  {
    && (forall i :: 0 <= i < |walls| ==>
          && walls[i].uid == start + i
          && 0 <= walls[i].y < h && 0 <= walls[i].x < w && OnBorder(walls[i].x, walls[i].y, h, w)
          && CellBefore(walls[i].y, walls[i].x, y, x))
    && (forall i, j :: 0 <= i < j < |walls| ==> CellBefore(walls[i].y, walls[i].x, walls[j].y, walls[j].x))
    && (forall y', x' :: 0 <= y' < h && 0 <= x' < w && OnBorder(x', y', h, w) && CellBefore(y', x', y, x) ==>
          (x', y') in Cells(walls))
  }

  /**
   * The wall loop of `generate_dynamic_entities`: one WallRockIndestructible
   * with a fresh uid on every border cell, in row-major order.
   */
  method PlaceBorderWalls(counter: UidCounter, h: nat, w: nat) returns (walls: seq<Entity>)
    modifies counter
    ensures WallsUpTo(walls, h, w, old(counter.next), h, 0)
    ensures |walls| == BorderCount(h, w, h)
    ensures counter.next == old(counter.next) + |walls|
  {
    ghost var start := counter.next;
    walls := [];
    var y := 0;
    while y < h
      invariant 0 <= y <= h
      invariant WallsUpTo(walls, h, w, start, y, 0)
      invariant |walls| == BorderCount(h, w, y) && counter.next == start + |walls|
    {
      walls := PlaceWallRow(counter, h, w, y, walls, start);
      y := y + 1;
    }
  }

  /** The `x` loop of one row of the wall loop. */
  method PlaceWallRow(counter: UidCounter, h: nat, w: nat, y: nat, walls0: seq<Entity>, ghost start: int)
    returns (walls: seq<Entity>)
    requires y < h && WallsUpTo(walls0, h, w, start, y, 0)
    requires |walls0| == BorderCount(h, w, y) && counter.next == start + |walls0|
    modifies counter
    ensures WallsUpTo(walls, h, w, start, y + 1, 0)
    ensures |walls| == BorderCount(h, w, y + 1) && counter.next == start + |walls|
  {
    walls := walls0;
    var x := 0;
    while x < w
      invariant 0 <= x <= w
      invariant WallsUpTo(walls, h, w, start, y, x)
      invariant |walls| == BorderCount(h, w, y) + RowBorderCount(h, w, y, x) && counter.next == start + |walls|
    {
      walls := PlaceWallAt(counter, h, w, y, x, walls, start);
      x := x + 1;
    }
    WallRowDone(walls, h, w, start, y);
  }

  /** The body of the `x` loop: a wall with a fresh uid if (x, y) is a border cell. */
  method PlaceWallAt(counter: UidCounter, h: nat, w: nat, y: nat, x: nat, walls0: seq<Entity>, ghost start: int)
    returns (walls: seq<Entity>)
    requires y < h && x < w && WallsUpTo(walls0, h, w, start, y, x) && counter.next == start + |walls0|
    modifies counter
    ensures WallsUpTo(walls, h, w, start, y, x + 1)
    ensures |walls| == |walls0| + (if OnBorder(x, y, h, w) then 1 else 0) && counter.next == start + |walls|
  {
    walls := walls0;
    if OnBorder(x, y, h, w) {
      var uid := counter.NextUid();
      WallAdded(walls, h, w, start, y, x);
      walls := walls + [Entity(uid, x, y)];
    } else {
      WallSkipped(walls, h, w, start, y, x);
    }
  }

  lemma WallAdded(walls: seq<Entity>, h: nat, w: nat, start: int, y: int, x: int)
    requires 0 <= y < h && 0 <= x < w && OnBorder(x, y, h, w) && WallsUpTo(walls, h, w, start, y, x)
    ensures WallsUpTo(walls + [Entity(start + |walls|, x, y)], h, w, start, y, x + 1)
  {
    var e := Entity(start + |walls|, x, y);
    CellsAppend(walls, e);
    var next := walls + [e];
    assert forall i :: 0 <= i < |walls| ==> next[i] == walls[i];
  }

  lemma WallSkipped(walls: seq<Entity>, h: nat, w: nat, start: int, y: int, x: int)
    requires !OnBorder(x, y, h, w) && WallsUpTo(walls, h, w, start, y, x)
    ensures WallsUpTo(walls, h, w, start, y, x + 1)
  {
  }

  lemma WallRowDone(walls: seq<Entity>, h: nat, w: nat, start: int, y: int)
    requires WallsUpTo(walls, h, w, start, y, w)
    ensures WallsUpTo(walls, h, w, start, y + 1, 0)
  {
  }

  /** An interior row holds two border cells, its first and its last. */
  lemma {:induction false} InteriorRowCount(h: int, w: nat, y: int, x: nat)
    requires 0 < y < h - 1 && w >= 2 && x <= w
    ensures RowBorderCount(h, w, y, x) == (if x >= 1 then 1 else 0) + (if x == w then 1 else 0)
  {
    if x > 0 {
      InteriorRowCount(h, w, y, x - 1);
    }
  }

  /** The first and last rows are border cells throughout. */
  lemma {:induction false} EdgeRowCount(h: int, w: nat, y: int, x: nat)
    requires y == 0 || y == h - 1
    ensures RowBorderCount(h, w, y, x) == x
  {
    if x > 0 {
      EdgeRowCount(h, w, y, x - 1);
    }
  }

  /** The rows after the first, up to the last, each add two border cells. */
  lemma {:induction false} BorderCountPrefix(h: nat, w: nat, y: nat)
    requires h >= 2 && w >= 2 && 1 <= y <= h - 1
    ensures BorderCount(h, w, y) == w + 2 * (y - 1)
  {
    if y == 1 {
      EdgeRowCount(h, w, 0, w);
    } else {
      BorderCountPrefix(h, w, y - 1);
      InteriorRowCount(h, w, y - 1, w);
    }
  }

  /** An h by w map with h, w >= 2 gets 2w + 2h - 4 indestructible walls. */
  lemma BorderWallCount(h: nat, w: nat)
    requires h >= 2 && w >= 2
    ensures BorderCount(h, w, h) == 2 * w + 2 * h - 4
  {
    BorderCountPrefix(h, w, h - 1);
    EdgeRowCount(h, w, h - 1, w);
  }

  // ---------------------------------------------------------------------------
  // generate_dynamic_entities
  // ---------------------------------------------------------------------------

  /** One element of the returned list: `{"proto": proto, "entities": ents}`. */
  datatype EntityGroup = EntityGroup(proto: string, entities: seq<Entity>)

  function GroupProtos(groups: seq<EntityGroup>): (r: seq<string>)
    ensures |r| == |groups| && forall i :: 0 <= i < |groups| ==> r[i] == groups[i].proto
  {
    seq(|groups|, i requires 0 <= i < |groups| => groups[i].proto)
  }

  /**
   * `generate_dynamic_entities` for layers already in priority order. The
   * noise pass fills `groups`; then `groups["WallRockIndestructible"]` is
   * reset and filled with the border walls, so the key keeps its place if a
   * layer created it and comes last otherwise, and any entities a layer put
   * under that name are dropped from the output (their uids stay used).
   */
  method GenerateDynamicEntities(counter: UidCounter, s: Scene)
    returns (r: Result<seq<EntityGroup>, EntityError>, ghost log: seq<Placement>, ghost walls: seq<Entity>)
    requires s.Valid()
    modifies counter
    ensures r.Err? ==> exists l, y, x :: s.FirstEligible(l, x, y) && |s.layers[l].protos| == 0
    ensures r.Ok? ==> forall l, y, x :: s.FirstEligible(l, x, y) ==> |s.layers[l].protos| > 0
    ensures r.Ok? ==> LogSound(s, log, old(counter.next)) && Complete(s, log)
    ensures r.Ok? ==> WallsUpTo(walls, s.h, s.w, old(counter.next) + |log|, s.h, 0) && |walls| == BorderCount(s.h, s.w, s.h)
    ensures r.Ok? ==> counter.next == old(counter.next) + |log| + |walls|
    ensures r.Ok? ==> GroupProtos(r.value) == FirstSeen(log) + (if WallProto in FirstSeen(log) then [] else [WallProto])
    ensures r.Ok? ==> forall i :: 0 <= i < |r.value| ==>
      r.value[i].entities == if r.value[i].proto == WallProto then walls else EntitiesOf(log, r.value[i].proto)
  {
    var err, groups, order;
    err, groups, order, log := PlaceNoiseEntities(counter, s);
    if err.Some? {
      return Err(err.value), log, [];
    }
    var wallEntities := PlaceBorderWalls(counter, s.h, s.w);
    walls := wallEntities;
    var dynamicGroups := WithWallGroup(groups, order, log, wallEntities);
    return Ok(dynamicGroups), log, walls;
  }

  /**
   * `groups["WallRockIndestructible"] = []`, then the border walls under it,
   * and the groups listed in dictionary order: a layer's key keeps its
   * place, a new key comes last.
   */
  method WithWallGroup(groups: map<string, seq<Entity>>, order: seq<string>, ghost log: seq<Placement>, walls: seq<Entity>)
    returns (r: seq<EntityGroup>)
    requires GroupsMatch(groups, order, log)
    ensures GroupProtos(r) == FirstSeen(log) + (if WallProto in FirstSeen(log) then [] else [WallProto])
    ensures forall i :: 0 <= i < |r| ==> r[i].entities == if r[i].proto == WallProto then walls else EntitiesOf(log, r[i].proto)
  {
    var keys := order;
    if WallProto !in groups {
      keys := keys + [WallProto];
    }
    var filled := groups[WallProto := []];
    filled := filled[WallProto := walls];
    r := seq(|keys|, i requires 0 <= i < |keys| && keys[i] in filled => EntityGroup(keys[i], filled[keys[i]]));
  }
}
