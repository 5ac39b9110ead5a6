/**
 * The erosion pass of the map generator (mapGeneration.py): interior tiles
 * of one type with too few neighbours of their own type take the most
 * frequent type among their eight neighbours, the count of such isolated
 * tiles, and the driver that repeats the pass until the count settles.
 */
module MapErosion {
  import opened MapGrid

  // ---------------------------------------------------------------------------
  // Neighbours
  // ---------------------------------------------------------------------------

  /** The neighbour at offset (dy, dx), if the `dy`, `dx` loops record one there. */
  function NeighbourAt(grid: seq<seq<int>>, h: nat, w: nat, y: int, x: int, dy: int, dx: int): seq<int>
    requires Rectangular(grid, h, w)
  {
    if (dy == 0 && dx == 0) || !(0 <= y + dy < h && 0 <= x + dx < w) then []
    else [grid[y + dy][x + dx]]
  }

  /** The neighbours recorded in row offset `dy` by the first `n` values of `dx`. */
  function RowScan(grid: seq<seq<int>>, h: nat, w: nat, y: int, x: int, dy: int, n: nat): seq<int>
    requires Rectangular(grid, h, w) && n <= 3
  {
    if n == 0 then []
    else RowScan(grid, h, w, y, x, dy, n - 1) + NeighbourAt(grid, h, w, y, x, dy, n - 2)
  }

  /** The neighbours recorded by the first `m` values of `dy`. */
  function Scan(grid: seq<seq<int>>, h: nat, w: nat, y: int, x: int, m: nat): seq<int>
    requires Rectangular(grid, h, w) && m <= 3
  {
    if m == 0 then []
    else Scan(grid, h, w, y, x, m - 1) + RowScan(grid, h, w, y, x, m - 2, 3)
  }

  /** `neighbor_types`: the types of the up to eight neighbours, in scan order. */
  function NeighbourTypes(grid: seq<seq<int>>, h: nat, w: nat, y: int, x: int): seq<int>
    requires Rectangular(grid, h, w)
  {
    Scan(grid, h, w, y, x, 3)
  }

  /** An interior cell sees all eight neighbours, row by row. */
  lemma InteriorNeighbours(grid: seq<seq<int>>, h: nat, w: nat, y: int, x: int)
    requires Rectangular(grid, h, w) && 1 <= y < h - 1 && 1 <= x < w - 1
    ensures NeighbourTypes(grid, h, w, y, x) ==
      [grid[y - 1][x - 1], grid[y - 1][x], grid[y - 1][x + 1],
       grid[y][x - 1], grid[y][x + 1],
       grid[y + 1][x - 1], grid[y + 1][x], grid[y + 1][x + 1]]
  {
    FullRow(grid, h, w, y, x, -1);
    FullRow(grid, h, w, y, x, 0);
    FullRow(grid, h, w, y, x, 1);
    assert Scan(grid, h, w, y, x, 1) == RowScan(grid, h, w, y, x, -1, 3);
    assert Scan(grid, h, w, y, x, 2) == Scan(grid, h, w, y, x, 1) + RowScan(grid, h, w, y, x, 0, 3);
  }

  lemma FullRow(grid: seq<seq<int>>, h: nat, w: nat, y: int, x: int, dy: int)
    requires Rectangular(grid, h, w) && 0 <= y + dy < h && 1 <= x < w - 1
    ensures dy != 0 ==> RowScan(grid, h, w, y, x, dy, 3) == [grid[y + dy][x - 1], grid[y + dy][x], grid[y + dy][x + 1]]
    ensures dy == 0 ==> RowScan(grid, h, w, y, x, dy, 3) == [grid[y][x - 1], grid[y][x + 1]]
  {
    assert RowScan(grid, h, w, y, x, dy, 1) == NeighbourAt(grid, h, w, y, x, dy, -1);
    assert RowScan(grid, h, w, y, x, dy, 2) == RowScan(grid, h, w, y, x, dy, 1) + NeighbourAt(grid, h, w, y, x, dy, 0);
  }

  /** How many of the types equal v. */
  function Count(types: seq<int>, v: int): nat
  {
    if |types| == 0 then 0
    else Count(types[..|types| - 1], v) + (if types[|types| - 1] == v then 1 else 0)
  }

  lemma CountAppend(types: seq<int>, v: int, t: int)
    ensures Count(types + [v], t) == Count(types, t) + (if v == t then 1 else 0)
  {
    assert (types + [v])[..|types|] == types;
  }

  /** A type is counted exactly when it occurs. */
  lemma {:induction false} CountPositive(types: seq<int>, v: int)
    ensures Count(types, v) > 0 <==> v in types
  {
    if |types| > 0 {
      var front := types[..|types| - 1];
      assert types == front + [types[|types| - 1]];
      CountPositive(front, v);
    }
  }

  /** An interior tile of the type with fewer than `minNeighbors` neighbours of the same type. */
  predicate Isolated(grid: seq<seq<int>>, h: nat, w: nat, tileType: int, minNeighbors: int, y: int, x: int)
    requires Rectangular(grid, h, w)
  {
    && 1 <= y < h - 1 && 1 <= x < w - 1
    && grid[y][x] == tileType
    && Count(NeighbourTypes(grid, h, w, y, x), tileType) < minNeighbors
  }

  /** The two inner loops of `apply_erosion` for one cell: the neighbour types and how many equal the tile type. */
  method GatherNeighbours(grid: seq<seq<int>>, h: nat, w: nat, y: int, x: int, tileType: int)
    returns (neighborTypes: seq<int>, neighbors: nat)
    requires Rectangular(grid, h, w)
    ensures neighborTypes == NeighbourTypes(grid, h, w, y, x)
    ensures neighbors == Count(neighborTypes, tileType)
  {
    neighborTypes := [];
    neighbors := 0;
    var dy := -1;
    while dy <= 1
      invariant -1 <= dy <= 2
      invariant neighborTypes == Scan(grid, h, w, y, x, dy + 1)
      invariant neighbors == Count(neighborTypes, tileType)
    {
      neighborTypes, neighbors := GatherRow(grid, h, w, y, x, tileType, dy, neighborTypes, neighbors);
      dy := dy + 1;
    }
  }

  /** The `dx` loop of one `dy` step, extending the types and count gathered so far. */
  method GatherRow(grid: seq<seq<int>>, h: nat, w: nat, y: int, x: int, tileType: int, dy: int,
                   types0: seq<int>, neighbors0: nat)
    returns (neighborTypes: seq<int>, neighbors: nat)
    requires Rectangular(grid, h, w)
    requires neighbors0 == Count(types0, tileType)
    ensures neighborTypes == types0 + RowScan(grid, h, w, y, x, dy, 3)
    ensures neighbors == Count(neighborTypes, tileType)
  {
    neighborTypes, neighbors := types0, neighbors0;
    var dx := -1;
    assert types0 + RowScan(grid, h, w, y, x, dy, 0) == types0;
    while dx <= 1
      invariant -1 <= dx <= 2
      invariant neighborTypes == types0 + RowScan(grid, h, w, y, x, dy, dx + 1)
      invariant neighbors == Count(neighborTypes, tileType)
    {
      neighborTypes, neighbors := GatherNext(grid, h, w, y, x, tileType, dy, dx, types0, neighborTypes, neighbors);
      dx := dx + 1;
    }
  }

  /** One pass of the `dx` loop, stated against the scan of the row so far. */
  method GatherNext(grid: seq<seq<int>>, h: nat, w: nat, y: int, x: int, tileType: int, dy: int, dx: int,
                    ghost types0: seq<int>, types: seq<int>, count: nat)
    returns (neighborTypes: seq<int>, neighbors: nat)
    requires Rectangular(grid, h, w) && -1 <= dx <= 1
    requires types == types0 + RowScan(grid, h, w, y, x, dy, dx + 1) && count == Count(types, tileType)
    ensures neighborTypes == types0 + RowScan(grid, h, w, y, x, dy, dx + 2)
    ensures neighbors == Count(neighborTypes, tileType)
  {
    RowScanStep(grid, h, w, y, x, dy, dx + 1, types0);
    neighborTypes, neighbors := GatherOne(grid, h, w, y, x, tileType, dy, dx, types, count);
  }

  lemma RowScanStep(grid: seq<seq<int>>, h: nat, w: nat, y: int, x: int, dy: int, n: nat, types0: seq<int>)
    requires Rectangular(grid, h, w) && n < 3
    ensures types0 + RowScan(grid, h, w, y, x, dy, n + 1)
         == types0 + RowScan(grid, h, w, y, x, dy, n) + NeighbourAt(grid, h, w, y, x, dy, n - 1)
  {
  }

  /** The body of the `dx` loop: record the neighbour at (dy, dx), if any, and count it. */
  method GatherOne(grid: seq<seq<int>>, h: nat, w: nat, y: int, x: int, tileType: int, dy: int, dx: int,
                   types0: seq<int>, neighbors0: nat)
    returns (neighborTypes: seq<int>, neighbors: nat)
    requires Rectangular(grid, h, w)
    requires neighbors0 == Count(types0, tileType)
    ensures neighborTypes == types0 + NeighbourAt(grid, h, w, y, x, dy, dx)
    ensures neighbors == Count(neighborTypes, tileType)
  {
    neighborTypes, neighbors := types0, neighbors0;
    if !(dy == 0 && dx == 0) {
      var neighborY, neighborX := y + dy, x + dx;
      if 0 <= neighborY < h && 0 <= neighborX < w {
        var nt := grid[neighborY][neighborX];
        neighborTypes := neighborTypes + [nt];
        CountAppend(types0, nt, tileType);
        if nt == tileType {
          neighbors := neighbors + 1;
        }
      }
    }
    assert types0 + [] == types0;
  }

  // ---------------------------------------------------------------------------
  // The majority type
  // ---------------------------------------------------------------------------

  /** The keys of the `counts` dictionary in insertion order: each type at its first occurrence. */
  function Distinct(types: seq<int>): (r: seq<int>)
    ensures forall v :: v in r <==> v in types
    ensures forall i, j :: 0 <= i < j < |r| ==> r[i] != r[j]
  {
    if |types| == 0 then []
    else
      var previous := Distinct(types[..|types| - 1]);
      assert forall v :: v in types <==> v in types[..|types| - 1] || v == types[|types| - 1] by {
        assert types == types[..|types| - 1] + [types[|types| - 1]];
      }
      if types[|types| - 1] in previous then previous else previous + [types[|types| - 1]]
  }

  /** Distinct keys of a prefix come first among the keys of the whole sequence. */
  lemma {:induction false} DistinctPrefix(types: seq<int>, n: nat)
    requires n <= |types|
    ensures |Distinct(types[..n])| <= |Distinct(types)|
    ensures Distinct(types[..n]) == Distinct(types)[..|Distinct(types[..n])|]
  {
    if n < |types| {
      assert types[..|types| - 1][..n] == types[..n];
      DistinctPrefix(types[..|types| - 1], n);
    } else {
      assert types[..n] == types;
    }
  }

  /** The tally of each key, in key order: `counts.values()`. */
  function KeyCounts(keys: seq<int>, types: seq<int>): (r: seq<nat>)
    ensures |r| == |keys| && forall i :: 0 <= i < |keys| ==> r[i] == Count(types, keys[i])
  {
    seq(|keys|, i requires 0 <= i < |keys| => Count(types, keys[i]))
  }

  /** `max` over the counts in order; 0 when there are none. */
  function MaxOf(counts: seq<nat>): (r: nat)
    ensures forall i :: 0 <= i < |counts| ==> counts[i] <= r
    ensures |counts| > 0 ==> exists i :: 0 <= i < |counts| && counts[i] == r
  {
    if |counts| == 0 then 0
    else
      var previous := MaxOf(counts[..|counts| - 1]);
      var last := counts[|counts| - 1];
      assert forall i :: 0 <= i < |counts| - 1 ==> counts[..|counts| - 1][i] == counts[i];
      if |counts| == 1 || last > previous then last else previous
  }

  /** The position of the first count equal to `c`: the first of the `candidates`. */
  function FirstIndexOf(counts: seq<nat>, c: nat): (r: nat)
    requires exists i :: 0 <= i < |counts| && counts[i] == c
    ensures r < |counts| && counts[r] == c
    ensures forall i :: 0 <= i < r ==> counts[i] != c
  {
    if counts[0] == c then 0
    else
      var i :| 0 <= i < |counts| && counts[i] == c;
      assert counts[1..][i - 1] == c;
      1 + FirstIndexOf(counts[1..], c)
  }

  /** `majority_type`: the first key, in insertion order, whose count is the maximum. */
  function Majority(types: seq<int>): int
    requires |types| > 0
  {
    var keys := Distinct(types);
    var counts := KeyCounts(keys, types);
    assert types[0] in keys;
    keys[FirstIndexOf(counts, MaxOf(counts))]
  }

  /** The majority type occurs among the types, and no type occurs more often. */
  lemma MajorityIsMostFrequent(types: seq<int>)
    requires |types| > 0
    ensures Majority(types) in types
    ensures forall v :: v in types ==> Count(types, v) <= Count(types, Majority(types))
  {
    var keys := Distinct(types);
    forall v | v in types
      ensures Count(types, v) <= Count(types, Majority(types))
    {
      var i :| 0 <= i < |keys| && keys[i] == v;
    }
  }

  /**
   * Among the most frequent types the majority is the one seen first: when
   * `types[i]` occurs as often, the majority occurs at or before position i.
   */
  lemma MajorityIsFirstSeen(types: seq<int>, i: nat)
    requires i < |types| && Count(types, types[i]) == Count(types, Majority(types))
    ensures Majority(types) in types[..i + 1]
  {
    var keys := Distinct(types);
    var counts := KeyCounts(keys, types);
    var p := FirstIndexOf(counts, MaxOf(counts));
    forall j | 0 <= j < p
      ensures keys[j] != types[i]
    {
      assert counts[j] != counts[p];
    }
    KeyOrderFollowsFirstOccurrence(types, i, p);
  }

  /** A key listed before every occurrence of `types[i]`'s key first occurs no later than position i. */
  lemma KeyOrderFollowsFirstOccurrence(types: seq<int>, i: nat, p: nat)
    requires i < |types| && p < |Distinct(types)|
    requires forall j :: 0 <= j < p ==> Distinct(types)[j] != types[i]
    ensures Distinct(types)[p] in types[..i + 1]
  {
    var keys := Distinct(types);
    var prefix := types[..i + 1];
    var keysBefore := Distinct(prefix);
    DistinctPrefix(types, i + 1);
    assert prefix[i] in keysBefore;
    var q :| 0 <= q < |keysBefore| && keysBefore[q] == prefix[i];
    assert keys[q] == types[i];
    assert keysBefore[p] == keys[p];
  }

  /**
   * The `counts` loop, `max(counts.values())` and the first of the
   * candidates, over a dictionary kept as its keys in insertion order.
   */
  method MostFrequent(types: seq<int>) returns (majority: int)
    requires |types| > 0
    ensures majority == Majority(types)
  {
    var counts, order := TallyTypes(types);
    assert types[0] in order;
    var maxCount := LargestCount(types, counts, order);
    var k := FirstCandidate(types, counts, order, maxCount);
    majority := order[k];
  }

  /** True when `counts` holds the tally of every key in `order`. */
  predicate Tallies(types: seq<int>, counts: map<int, nat>, order: seq<int>)
  {
    forall i :: 0 <= i < |order| ==> order[i] in counts && counts[order[i]] == Count(types, order[i])
  }

  /** `max(counts.values())`. */
  method LargestCount(types: seq<int>, counts: map<int, nat>, order: seq<int>) returns (maxCount: nat)
    requires Tallies(types, counts, order)
    ensures maxCount == MaxOf(KeyCounts(order, types))
  {
    ghost var values := KeyCounts(order, types);
    maxCount := 0;
    var k := 0;
    while k < |order|
      invariant 0 <= k <= |order|
      invariant maxCount == MaxOf(values[..k])
    {
      assert values[..k + 1][..k] == values[..k];
      if k == 0 || counts[order[k]] > maxCount {
        maxCount := counts[order[k]];
      }
      k := k + 1;
    }
    assert values[..k] == values;
  }

  /** The position of `candidates[0]`: the first key, in order, whose count is the maximum. */
  method FirstCandidate(types: seq<int>, counts: map<int, nat>, order: seq<int>, maxCount: nat) returns (k: nat)
    requires Tallies(types, counts, order)
    requires exists i :: 0 <= i < |order| && Count(types, order[i]) == maxCount
    ensures k == FirstIndexOf(KeyCounts(order, types), maxCount)
  {
    ghost var values := KeyCounts(order, types);
    k := 0;
    while counts[order[k]] != maxCount
      invariant 0 <= k < |order|
      invariant forall i :: 0 <= i < k ==> values[i] != maxCount
      invariant exists i :: k <= i < |order| && values[i] == maxCount
      decreases |order| - k
    {
      k := k + 1;
    }
    FirstIsFirst(values, maxCount, k);
  }

  /** The `counts` loop: the tally of each type, with the dictionary's keys in insertion order. */
  method TallyTypes(types: seq<int>) returns (counts: map<int, nat>, order: seq<int>)
    ensures order == Distinct(types)
    ensures forall v :: v in counts <==> v in types
    ensures forall v :: v in counts ==> counts[v] == Count(types, v)
    ensures Tallies(types, counts, order)
  {
    counts := map[];
    order := [];
    var n := 0;
    while n < |types|
      invariant 0 <= n <= |types|
      invariant order == Distinct(types[..n])
      invariant forall v :: v in counts <==> v in types[..n]
      invariant forall v :: v in counts ==> counts[v] == Count(types[..n], v)
    {
      assert types[..n + 1] == types[..n] + [types[n]];
      counts, order := TallyOne(types[..n], types[n], counts, order);
      n := n + 1;
    }
    assert types[..n] == types;
  }

  /** One pass of the `counts` loop: `counts[nt] = counts.get(nt, 0) + 1`. */
  method TallyOne(ghost seen: seq<int>, nt: int, counts: map<int, nat>, order: seq<int>)
    returns (counts': map<int, nat>, order': seq<int>)
    requires order == Distinct(seen)
    requires forall v :: v in counts <==> v in seen
    requires forall v :: v in counts ==> counts[v] == Count(seen, v)
    ensures order' == Distinct(seen + [nt])
    ensures forall v :: v in counts' <==> v in seen + [nt]
    ensures forall v :: v in counts' ==> counts'[v] == Count(seen + [nt], v)
  {
    assert (seen + [nt])[..|seen|] == seen;
    forall v
      ensures Count(seen + [nt], v) == Count(seen, v) + (if nt == v then 1 else 0)
    {
      CountAppend(seen, nt, v);
    }
    CountPositive(seen, nt);
    assert Distinct(seen + [nt]) == if nt in order then order else order + [nt];
    counts', order' := counts, order;
    if nt !in counts' {
      order' := order' + [nt];
      counts' := counts'[nt := 0];
    }
    counts' := counts'[nt := counts'[nt] + 1];
  }

  lemma FirstIsFirst(counts: seq<nat>, c: nat, k: nat)
    requires k < |counts| && counts[k] == c
    requires forall i :: 0 <= i < k ==> counts[i] != c
    ensures FirstIndexOf(counts, c) == k
  {
  }

  // ---------------------------------------------------------------------------
  // One erosion pass
  // ---------------------------------------------------------------------------

  /** The new type of one interior cell, decided on the original map. */
  function ErodeCell(grid: seq<seq<int>>, h: nat, w: nat, tileType: int, minNeighbors: int, y: nat, x: nat): int
    requires Rectangular(grid, h, w) && y < h && x < w
  {
    var types := NeighbourTypes(grid, h, w, y, x);
    if Isolated(grid, h, w, tileType, minNeighbors, y, x) && |types| > 0 then Majority(types)
    else grid[y][x]
  }

  /**
   * `apply_erosion` on values: every interior cell takes its eroded type,
   * every decision reading the original map. Only isolated cells of the type
   * change; each isolated cell with neighbours takes their majority type,
   * which is one of its neighbours' types.
   */
  function Eroded(grid: seq<seq<int>>, h: nat, w: nat, tileType: int, minNeighbors: int): (r: seq<seq<int>>)
    requires Rectangular(grid, h, w)
    ensures Rectangular(r, h, w)
    ensures forall y, x :: 0 <= y < h && 0 <= x < w && r[y][x] != grid[y][x] ==>
      && Isolated(grid, h, w, tileType, minNeighbors, y, x)
      && r[y][x] in NeighbourTypes(grid, h, w, y, x)
    ensures forall y, x :: 0 <= y < h && 0 <= x < w && OnBorder(x, y, h, w) ==> r[y][x] == grid[y][x]
    ensures forall y, x ::
      0 <= y < h && 0 <= x < w && Isolated(grid, h, w, tileType, minNeighbors, y, x) && |NeighbourTypes(grid, h, w, y, x)| > 0 ==>
        r[y][x] == Majority(NeighbourTypes(grid, h, w, y, x))
  {
    var r := seq(h, y requires 0 <= y < h =>
      seq(w, x requires 0 <= x < w => ErodeCell(grid, h, w, tileType, minNeighbors, y, x)));
    forall y, x | 0 <= y < h && 0 <= x < w && r[y][x] != grid[y][x]
      ensures r[y][x] in NeighbourTypes(grid, h, w, y, x)
    {
      MajorityIsMostFrequent(NeighbourTypes(grid, h, w, y, x));
    }
    r
  }

  /**
   * With `min_neighbors` 1 (the setting the generator uses for sand), an
   * interior tile of the type with no neighbour of its type is replaced by
   * a type other than its own.
   */
  lemma LoneTileReplaced(grid: seq<seq<int>>, h: nat, w: nat, tileType: int, y: nat, x: nat)
    requires Rectangular(grid, h, w)
    requires 1 <= y < h - 1 && 1 <= x < w - 1 && grid[y][x] == tileType
    requires Count(NeighbourTypes(grid, h, w, y, x), tileType) == 0
    ensures Eroded(grid, h, w, tileType, 1)[y][x] != tileType
  {
    var types := NeighbourTypes(grid, h, w, y, x);
    InteriorNeighbours(grid, h, w, y, x);
    MajorityIsMostFrequent(types);
  }

  /**
   * `apply_erosion`: copy the map, then visit the interior row by row and
   * overwrite each isolated tile of the type with its majority neighbour type.
   */
  method ApplyErosion(tileMap: seq<seq<int>>, h: nat, w: nat, tileType: int, minNeighbors: int)
    returns (newMap: seq<seq<int>>)
    requires Rectangular(tileMap, h, w)
    ensures newMap == Eroded(tileMap, h, w, tileType, minNeighbors)
  {
    ghost var target := Eroded(tileMap, h, w, tileType, minNeighbors);
    newMap := tileMap;
    var y := 1;
    while y < h - 1
      invariant Rectangular(newMap, h, w)
      invariant 1 <= y && (h >= 2 ==> y <= h - 1) && (h < 2 ==> y == 1)
      invariant forall j :: 0 <= j < h ==> newMap[j] == if j < y then target[j] else tileMap[j]
    {
      var x := 1;
      while x < w - 1
        invariant Rectangular(newMap, h, w)
        invariant 1 <= x && (w >= 2 ==> x <= w - 1) && (w < 2 ==> x == 1)
        invariant forall j :: 0 <= j < h && j != y ==> newMap[j] == if j < y then target[j] else tileMap[j]
        invariant forall i :: 0 <= i < w ==> newMap[y][i] == if i < x then target[y][i] else tileMap[y][i]
      {
        var cell := ErodedValue(tileMap, h, w, tileType, minNeighbors, y, x);
        newMap := newMap[y := newMap[y][x := cell]];
        x := x + 1;
      }
      assert newMap[y] == target[y] by {
        assert w >= 2 ==> x == w - 1;
        assert forall i :: 0 <= i < w && !(1 <= i < w - 1) ==> target[y][i] == tileMap[y][i];
      }
      y := y + 1;
    }
    assert forall j :: 0 <= j < h && !(1 <= j < h - 1) ==> target[j] == tileMap[j];
  }

  /** One visit of the `apply_erosion` loops: the cell's new value, read from the original map. */
  method ErodedValue(tileMap: seq<seq<int>>, h: nat, w: nat, tileType: int, minNeighbors: int, y: nat, x: nat)
    returns (cell: int)
    requires Rectangular(tileMap, h, w) && 1 <= y < h - 1 && 1 <= x < w - 1
    ensures cell == ErodeCell(tileMap, h, w, tileType, minNeighbors, y, x)
  {
    cell := tileMap[y][x];
    if tileMap[y][x] == tileType {
      var neighborTypes, neighbors := GatherNeighbours(tileMap, h, w, y, x, tileType);
      if neighbors < minNeighbors && |neighborTypes| > 0 {
        cell := MostFrequent(neighborTypes);
      }
    }
  }

  // ---------------------------------------------------------------------------
  // Counting isolated tiles
  // ---------------------------------------------------------------------------

  /** The isolated tiles among columns 1 .. n - 1 of row y. */
  function IsolatedInRow(grid: seq<seq<int>>, h: nat, w: nat, tileType: int, minNeighbors: int, y: int, n: int): nat
    requires Rectangular(grid, h, w)
    decreases n
  {
    if n <= 1 then 0
    else
      var here := if Isolated(grid, h, w, tileType, minNeighbors, y, n - 1) then 1 else 0;
      IsolatedInRow(grid, h, w, tileType, minNeighbors, y, n - 1) + here
  }

  /** The isolated tiles in rows 1 .. m - 1. */
  function IsolatedInRows(grid: seq<seq<int>>, h: nat, w: nat, tileType: int, minNeighbors: int, m: int): nat
    requires Rectangular(grid, h, w)
    decreases m
  {
    if m <= 1 then 0
    else
      var row := IsolatedInRow(grid, h, w, tileType, minNeighbors, m - 1, w - 1);
      IsolatedInRows(grid, h, w, tileType, minNeighbors, m - 1) + row
  }

  /** `count_isolated_tiles` on values. */
  function CountIsolated(grid: seq<seq<int>>, h: nat, w: nat, tileType: int, minNeighbors: int): nat
    requires Rectangular(grid, h, w)
  {
    IsolatedInRows(grid, h, w, tileType, minNeighbors, h - 1)
  }

  lemma {:induction false} RowCountPositive(grid: seq<seq<int>>, h: nat, w: nat, tileType: int, minNeighbors: int, y: int, n: int, x: int)
    requires Rectangular(grid, h, w)
    requires 1 <= x < n && Isolated(grid, h, w, tileType, minNeighbors, y, x)
    ensures IsolatedInRow(grid, h, w, tileType, minNeighbors, y, n) > 0
    decreases n
  {
    if x < n - 1 {
      RowCountPositive(grid, h, w, tileType, minNeighbors, y, n - 1, x);
    }
  }

  lemma {:induction false} RowsCountPositive(grid: seq<seq<int>>, h: nat, w: nat, tileType: int, minNeighbors: int, m: int, y: int, x: int)
    requires Rectangular(grid, h, w)
    requires 1 <= y < m && Isolated(grid, h, w, tileType, minNeighbors, y, x)
    ensures IsolatedInRows(grid, h, w, tileType, minNeighbors, m) > 0
    decreases m
  {
    if y < m - 1 {
      RowsCountPositive(grid, h, w, tileType, minNeighbors, m - 1, y, x);
    } else {
      RowCountPositive(grid, h, w, tileType, minNeighbors, y, w - 1, x);
    }
  }

  /** The count is zero exactly when no tile is isolated. */
  lemma NoIsolatedWhenCountZero(grid: seq<seq<int>>, h: nat, w: nat, tileType: int, minNeighbors: int)
    requires Rectangular(grid, h, w)
    ensures CountIsolated(grid, h, w, tileType, minNeighbors) == 0 <==>
      forall y, x :: !Isolated(grid, h, w, tileType, minNeighbors, y, x)
  {
    if CountIsolated(grid, h, w, tileType, minNeighbors) == 0 {
      forall y, x | Isolated(grid, h, w, tileType, minNeighbors, y, x)
        ensures false
      {
        RowsCountPositive(grid, h, w, tileType, minNeighbors, h - 1, y, x);
      }
    } else {
      ZeroWithoutIsolated(grid, h, w, tileType, minNeighbors, h - 1);
    }
  }

  lemma {:induction false} ZeroWithoutIsolated(grid: seq<seq<int>>, h: nat, w: nat, tileType: int, minNeighbors: int, m: int)
    requires Rectangular(grid, h, w)
    requires IsolatedInRows(grid, h, w, tileType, minNeighbors, m) > 0
    ensures exists y, x :: Isolated(grid, h, w, tileType, minNeighbors, y, x)
    decreases m
  {
    if IsolatedInRows(grid, h, w, tileType, minNeighbors, m - 1) > 0 {
      ZeroWithoutIsolated(grid, h, w, tileType, minNeighbors, m - 1);
    } else {
      RowWithoutIsolated(grid, h, w, tileType, minNeighbors, m - 1, w - 1);
    }
  }

  lemma {:induction false} RowWithoutIsolated(grid: seq<seq<int>>, h: nat, w: nat, tileType: int, minNeighbors: int, y: int, n: int)
    requires Rectangular(grid, h, w)
    requires IsolatedInRow(grid, h, w, tileType, minNeighbors, y, n) > 0
    ensures exists x :: Isolated(grid, h, w, tileType, minNeighbors, y, x)
    decreases n
  {
    if !Isolated(grid, h, w, tileType, minNeighbors, y, n - 1) {
      RowWithoutIsolated(grid, h, w, tileType, minNeighbors, y, n - 1);
    }
  }

  /** A map without isolated tiles is a fixed point of the erosion pass. */
  lemma ErosionFixedPoint(grid: seq<seq<int>>, h: nat, w: nat, tileType: int, minNeighbors: int)
    requires Rectangular(grid, h, w)
    requires CountIsolated(grid, h, w, tileType, minNeighbors) == 0
    ensures Eroded(grid, h, w, tileType, minNeighbors) == grid
  {
    NoIsolatedWhenCountZero(grid, h, w, tileType, minNeighbors);
    var r := Eroded(grid, h, w, tileType, minNeighbors);
    forall y | 0 <= y < h
      ensures r[y] == grid[y]
    {
      assert |r[y]| == |grid[y]|;
    }
  }

  /** `count_isolated_tiles`: visit the interior row by row and count the isolated tiles of the type. */
  method CountIsolatedTiles(tileMap: seq<seq<int>>, h: nat, w: nat, tileType: int, minNeighbors: int)
    returns (isolated: nat)
    requires Rectangular(tileMap, h, w)
    ensures isolated == CountIsolated(tileMap, h, w, tileType, minNeighbors)
  {
    isolated := 0;
    var y := 1;
    while y < h - 1
      invariant 1 <= y && (h >= 2 ==> y <= h - 1) && (h < 2 ==> y == 1)
      invariant isolated == IsolatedInRows(tileMap, h, w, tileType, minNeighbors, y)
    {
      var x := 1;
      ghost var before := isolated;
      while x < w - 1
        invariant 1 <= x && (w >= 2 ==> x <= w - 1) && (w < 2 ==> x == 1)
        invariant isolated == before + IsolatedInRow(tileMap, h, w, tileType, minNeighbors, y, x)
      {
        if tileMap[y][x] == tileType {
          var _, neighbors := GatherNeighbours(tileMap, h, w, y, x, tileType);
          if neighbors < minNeighbors {
            isolated := isolated + 1;
          }
        }
        x := x + 1;
      }
      assert IsolatedInRow(tileMap, h, w, tileType, minNeighbors, y, x)
          == IsolatedInRow(tileMap, h, w, tileType, minNeighbors, y, w - 1);
      y := y + 1;
    }
    assert IsolatedInRows(tileMap, h, w, tileType, minNeighbors, y)
        == IsolatedInRows(tileMap, h, w, tileType, minNeighbors, h - 1);
  }

  // ---------------------------------------------------------------------------
  // Iterative erosion
  // ---------------------------------------------------------------------------

  /**
   * `apply_iterative_erosion` on values, from round `iteration`: erode, and
   * stop once the isolated count is unchanged by the round or has reached
   * zero, or after `max_iterations` rounds. The result keeps the shape and
   * the border, and a map without isolated tiles is returned unchanged.
   */
  function IterateErosion(grid: seq<seq<int>>, h: nat, w: nat, tileType: int, minNeighbors: int,
                          maxIterations: int, iteration: int): (r: seq<seq<int>>)
    requires Rectangular(grid, h, w)
    ensures Rectangular(r, h, w)
    ensures forall y, x :: 0 <= y < h && 0 <= x < w && OnBorder(x, y, h, w) ==> r[y][x] == grid[y][x]
    ensures iteration >= maxIterations ==> r == grid
    ensures CountIsolated(grid, h, w, tileType, minNeighbors) == 0 ==> r == grid
    decreases maxIterations - iteration
  {
    if iteration >= maxIterations then grid
    else
      var before := CountIsolated(grid, h, w, tileType, minNeighbors);
      var next := Eroded(grid, h, w, tileType, minNeighbors);
      var after := CountIsolated(next, h, w, tileType, minNeighbors);
      assert before == 0 ==> next == grid by {
        if before == 0 {
          ErosionFixedPoint(grid, h, w, tileType, minNeighbors);
        }
      }
      if after == before || after == 0 then next
      else IterateErosion(next, h, w, tileType, minNeighbors, maxIterations, iteration + 1)
  }

  /** How many erosion passes `IterateErosion` runs. */
  function ErosionRounds(grid: seq<seq<int>>, h: nat, w: nat, tileType: int, minNeighbors: int,
                         maxIterations: int, iteration: int): nat
    requires Rectangular(grid, h, w)
    decreases maxIterations - iteration
  {
    if iteration >= maxIterations then 0
    else
      var before := CountIsolated(grid, h, w, tileType, minNeighbors);
      var next := Eroded(grid, h, w, tileType, minNeighbors);
      var after := CountIsolated(next, h, w, tileType, minNeighbors);
      if after == before || after == 0 then 1
      else 1 + ErosionRounds(next, h, w, tileType, minNeighbors, maxIterations, iteration + 1)
  }

  /** `n` erosion passes in a row, each reading the map the previous one produced. */
  function ErodedTimes(grid: seq<seq<int>>, h: nat, w: nat, tileType: int, minNeighbors: int, n: nat): (r: seq<seq<int>>)
    requires Rectangular(grid, h, w)
    ensures Rectangular(r, h, w)
    decreases n
  {
    if n == 0 then grid else ErodedTimes(Eroded(grid, h, w, tileType, minNeighbors), h, w, tileType, minNeighbors, n - 1)
  }

  /**
   * From round `iteration`, at least one and at most `max_iterations - iteration`
   * passes run while `iteration < max_iterations`, and none once it is not.
   */
  lemma {:induction false} ErosionRoundsBound(grid: seq<seq<int>>, h: nat, w: nat, tileType: int, minNeighbors: int,
                                              maxIterations: int, iteration: int)
    requires Rectangular(grid, h, w)
    ensures iteration < maxIterations ==>
      1 <= ErosionRounds(grid, h, w, tileType, minNeighbors, maxIterations, iteration) <= maxIterations - iteration
    ensures iteration >= maxIterations ==> ErosionRounds(grid, h, w, tileType, minNeighbors, maxIterations, iteration) == 0
    decreases maxIterations - iteration
  {
    if iteration < maxIterations {
      var next := Eroded(grid, h, w, tileType, minNeighbors);
      ErosionRoundsBound(next, h, w, tileType, minNeighbors, maxIterations, iteration + 1);
    }
  }

  /** The iteration's result is the map after exactly `ErosionRounds` passes. */
  lemma {:induction false} IterationIsRepeatedErosion(grid: seq<seq<int>>, h: nat, w: nat, tileType: int, minNeighbors: int,
                                                      maxIterations: int, iteration: int)
    requires Rectangular(grid, h, w)
    ensures IterateErosion(grid, h, w, tileType, minNeighbors, maxIterations, iteration)
         == ErodedTimes(grid, h, w, tileType, minNeighbors, ErosionRounds(grid, h, w, tileType, minNeighbors, maxIterations, iteration))
    decreases maxIterations - iteration
  {
    if iteration < maxIterations {
      var next := Eroded(grid, h, w, tileType, minNeighbors);
      var before := CountIsolated(grid, h, w, tileType, minNeighbors);
      var after := CountIsolated(next, h, w, tileType, minNeighbors);
      if after == before || after == 0 {
        assert ErodedTimes(grid, h, w, tileType, minNeighbors, 1) == ErodedTimes(next, h, w, tileType, minNeighbors, 0);
      } else {
        IterationIsRepeatedErosion(next, h, w, tileType, minNeighbors, maxIterations, iteration + 1);
      }
    }
  }

  /**
   * A run that stops before the limit stops on a map whose isolated count is
   * zero or equal to the count before its last pass.
   */
  lemma {:induction false} ErosionStopsSettled(grid: seq<seq<int>>, h: nat, w: nat, tileType: int, minNeighbors: int,
                                               maxIterations: int, iteration: int)
    requires Rectangular(grid, h, w) && iteration < maxIterations
    requires ErosionRounds(grid, h, w, tileType, minNeighbors, maxIterations, iteration) < maxIterations - iteration
    ensures var n := ErosionRounds(grid, h, w, tileType, minNeighbors, maxIterations, iteration);
      var r := IterateErosion(grid, h, w, tileType, minNeighbors, maxIterations, iteration);
      n >= 1 &&
      (CountIsolated(r, h, w, tileType, minNeighbors) == 0 ||
       CountIsolated(r, h, w, tileType, minNeighbors)
         == CountIsolated(ErodedTimes(grid, h, w, tileType, minNeighbors, n - 1), h, w, tileType, minNeighbors))
    decreases maxIterations - iteration
  {
    ErosionRoundsBound(grid, h, w, tileType, minNeighbors, maxIterations, iteration);
    var next := Eroded(grid, h, w, tileType, minNeighbors);
    var before := CountIsolated(grid, h, w, tileType, minNeighbors);
    var after := CountIsolated(next, h, w, tileType, minNeighbors);
    if !(after == before || after == 0) {
      ErosionRoundsBound(next, h, w, tileType, minNeighbors, maxIterations, iteration + 1);
      ErosionStopsSettled(next, h, w, tileType, minNeighbors, maxIterations, iteration + 1);
      var m := ErosionRounds(next, h, w, tileType, minNeighbors, maxIterations, iteration + 1);
      assert ErodedTimes(grid, h, w, tileType, minNeighbors, m) == ErodedTimes(next, h, w, tileType, minNeighbors, m - 1);
    }
  }

  /**
   * `apply_iterative_erosion`: the while loop, counting before and after each
   * pass and breaking when the count settles.
   */
  method ApplyIterativeErosion(tileMap: seq<seq<int>>, h: nat, w: nat, tileType: int, minNeighbors: int, maxIterations: int)
    returns (result: seq<seq<int>>)
    requires Rectangular(tileMap, h, w)
    ensures result == IterateErosion(tileMap, h, w, tileType, minNeighbors, maxIterations, 0)
  {
    result := tileMap;
    var iteration := 0;
    while iteration < maxIterations
      invariant Rectangular(result, h, w)
      invariant IterateErosion(result, h, w, tileType, minNeighbors, maxIterations, iteration)
             == IterateErosion(tileMap, h, w, tileType, minNeighbors, maxIterations, 0)
      decreases maxIterations - iteration
    {
      var isolatedBefore := CountIsolatedTiles(result, h, w, tileType, minNeighbors);
      result := ApplyErosion(result, h, w, tileType, minNeighbors);
      var isolatedAfter := CountIsolatedTiles(result, h, w, tileType, minNeighbors);
      if isolatedAfter == isolatedBefore || isolatedAfter == 0 {
        return;
      }
      iteration := iteration + 1;
    }
  }
}
