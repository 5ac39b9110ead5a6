/**
 * The map generator's output stage (mapGeneration.py): its `encode_tiles`,
 * the cutting of the bordered tile map into zero-padded chunks keyed by
 * their "a,b" index text, and the atmosphere chunk layout.
 *
 * A chunk is written in the same record format that the chunk codec reads
 * (module TileCodec), always in the version-6 layout with flags and variant 0.
 */
module MapOutput {
  import opened Wrappers
  import opened MapGrid
  import opened TileCodec
  import Arith

  /** `TILEMAP`: the generator's tile ids. */
  const GeneratorTileMap: map<int, string> :=
    map[0 := "Space", 1 := "FloorDirt", 2 := "FloorPlanetGrass",
        3 := "FloorGrassDark", 4 := "FloorSand", 5 := "FloorDirtRock"]

  /** Generated tile ids read as chunk tiles with flags and variant 0. */
  function AsTiles(grid: seq<seq<int>>): (r: seq<seq<Tile>>)
    ensures |r| == |grid|
    ensures forall j :: 0 <= j < |grid| ==> |r[j]| == |grid[j]|
    ensures forall j, i :: 0 <= j < |grid| && 0 <= i < |grid[j]| ==> r[j][i] == Tile(grid[j][i], 0, 0)
  {
    seq(|grid|, j requires 0 <= j < |grid| =>
      seq(|grid[j]|, i requires 0 <= i < |grid[j]| => Tile(grid[j][i], 0, 0)))
  }

  // ---------------------------------------------------------------------------
  // encode_tiles
  // ---------------------------------------------------------------------------

  /**
   * `encode_tiles` of the generator: for each row, for each column, the
   * 4-byte little-endian id, a zero flags byte and a zero variant byte. An id
   * outside [0, 2^32) is rejected by `struct.pack("<I")`.
   */
  method EncodeGeneratedTiles(tileMap: seq<seq<int>>, h: nat, w: nat) returns (r: Result<seq<Byte>, EncodeError>)
    requires Rectangular(tileMap, h, w)
    ensures r == EncodeGrid(AsTiles(tileMap), h)
  {
    ghost var grid := AsTiles(tileMap);
    var tileBytes: seq<Byte> := [];
    var y := 0;
    while y < h
      invariant 0 <= y <= h
      invariant EncodeGrid(grid, y) == Ok(tileBytes)
    {
      var appended := AppendGeneratedRow(tileMap, h, w, y, tileBytes);
      if appended.Err? {
        GridEncodeErrorPersists(grid, y + 1, h);
        return Err(appended.error);
      }
      tileBytes := appended.value;
      y := y + 1;
    }
    return Ok(tileBytes);
  }

  /** The inner loop of `encode_tiles` for row `y`: its records appended to the bytes so far. */
  method AppendGeneratedRow(tileMap: seq<seq<int>>, h: nat, w: nat, y: nat, tileBytes: seq<Byte>)
    returns (r: Result<seq<Byte>, EncodeError>)
    requires Rectangular(tileMap, h, w) && y < h
    ensures EncodeRow(AsTiles(tileMap)[y], w).Err? ==> r == Err(EncodeRow(AsTiles(tileMap)[y], w).error)
    ensures EncodeRow(AsTiles(tileMap)[y], w).Ok? ==> r == Ok(tileBytes + EncodeRow(AsTiles(tileMap)[y], w).value)
  {
    ghost var row := AsTiles(tileMap)[y];
    var extended := tileBytes;
    var x := 0;
    while x < w
      invariant 0 <= x <= w
      invariant EncodeRow(row, x).Ok? && extended == tileBytes + EncodeRow(row, x).value
    {
      var tileId := tileMap[y][x];
      var appended := AppendRecord(extended, Tile(tileId, 0, 0));
      if appended.Err? {
        RowEncodeErrorPersists(row, x + 1, w);
        return Err(appended.error);
      }
      assert row[x] == Tile(tileId, 0, 0);
      RowBytesExtend(row, x, tileBytes, extended);
      extended := appended.value;
      x := x + 1;
    }
    return Ok(extended);
  }

  // ---------------------------------------------------------------------------
  // Chunks
  // ---------------------------------------------------------------------------

  /**
   * `tile_map[cy : cy + chunk_size, cx : cx + chunk_size]`, padded with zeros
   * (Space) to chunk_size by chunk_size when it runs past the map's edge.
   */
  function ChunkTiles(grid: seq<seq<int>>, h: nat, w: nat, cy: nat, cx: nat, size: nat): (r: seq<seq<int>>)
    requires Rectangular(grid, h, w)
    ensures Rectangular(r, size, size)
    ensures forall j, i :: 0 <= j < size && 0 <= i < size && cy + j < h && cx + i < w ==> r[j][i] == grid[cy + j][cx + i]
    ensures forall j, i :: 0 <= j < size && 0 <= i < size && !(cy + j < h && cx + i < w) ==> r[j][i] == 0
  {
    seq(size, j requires 0 <= j < size =>
      seq(size, i requires 0 <= i < size => if cy + j < h && cx + i < w then grid[cy + j][cx + i] else 0))
  }

  /** The first tile row or column of chunk `index` along an axis. */
  function ChunkOrigin(index: nat, size: nat): (r: nat)
    ensures r == index * size
  {
    Arith.MulNonneg(index, size);
    index * size
  }

  /** The node written for chunk (a, b): index text "a,b", the encoded padded tiles, version 6. */
  function ChunkNodeAt(grid: seq<seq<int>>, h: nat, w: nat, size: nat, a: nat, b: nat): Result<ChunkNode, EncodeError>
    requires Rectangular(grid, h, w)
  {
    SerializeGrid(a, b, AsTiles(ChunkTiles(grid, h, w, ChunkOrigin(b, size), ChunkOrigin(a, size), size)), 6)
  }

  /** Every id of the map can be written as four little-endian bytes. */
  predicate AllEncodable(grid: seq<seq<int>>, h: nat, w: nat)
    requires Rectangular(grid, h, w)
  {
    forall y, x :: 0 <= y < h && 0 <= x < w ==> 0 <= grid[y][x] < 0x1_0000_0000
  }

  /**
   * Each generated chunk node decodes, through the chunk codec's version-6
   * path, to chunk (a, b) holding the map's tiles and Space padding, as long
   * as every id is known to the reader's tile map and Space (0) is too.
   */
  lemma GeneratedChunkDecodes(grid: seq<seq<int>>, h: nat, w: nat, size: nat, a: nat, b: nat, tileMap: map<int, string>)
    requires Rectangular(grid, h, w) && AllEncodable(grid, h, w)
    requires 0 in tileMap && forall y, x :: 0 <= y < h && 0 <= x < w ==> grid[y][x] in tileMap
    ensures ChunkNodeAt(grid, h, w, size, a, b).Ok?
    ensures DecodeChunk(ChunkNodeAt(grid, h, w, size, a, b).value, tileMap, size)
         == Ok(DecodedChunk(a, b, AsTiles(ChunkTiles(grid, h, w, ChunkOrigin(b, size), ChunkOrigin(a, size), size))))
  {
    Pow256Values();
    var tiles := AsTiles(ChunkTiles(grid, h, w, ChunkOrigin(b, size), ChunkOrigin(a, size), size));
    assert IsSquare(tiles, size);
    SerializeRoundTrip(a, b, tiles, size, 6, tileMap);
  }

  /** With the generator's own tile map every chunk of a map of its ids decodes. */
  lemma GeneratorChunksDecode(grid: seq<seq<int>>, h: nat, w: nat, size: nat, a: nat, b: nat)
    requires Rectangular(grid, h, w)
    requires forall y, x :: 0 <= y < h && 0 <= x < w ==> 0 <= grid[y][x] <= 5
    ensures ChunkNodeAt(grid, h, w, size, a, b).Ok?
    ensures DecodeChunk(ChunkNodeAt(grid, h, w, size, a, b).value, GeneratorTileMap, size)
         == Ok(DecodedChunk(a, b, AsTiles(ChunkTiles(grid, h, w, ChunkOrigin(b, size), ChunkOrigin(a, size), size))))
  {
    assert forall v :: 0 <= v <= 5 ==> v in GeneratorTileMap;
    GeneratedChunkDecodes(grid, h, w, size, a, b, GeneratorTileMap);
  }

  /** What cutting the map into chunks can raise. */
  datatype ChunkError =
    | ZeroChunkSize                   // `range(0, h, 0)` (ValueError)
    | Unencodable(error: EncodeError) // an id `struct.pack` rejects

  /** Chunk (a, b) starts on the map: its first column and first row exist. */
  predicate ChunkOnMap(a: nat, b: nat, h: nat, w: nat, size: nat)
  {
    ChunkOrigin(a, size) < w && ChunkOrigin(b, size) < h
  }

  /** A key of the chunk dictionary: the text "a,b" of a chunk that starts on the map. */
  predicate ChunkKey(k: string, h: nat, w: nat, size: nat)
  {
    && ParseInd(k).Ok?
    && var (a, b) := ParseInd(k).value;
    && 0 <= a && 0 <= b && ChunkOnMap(a, b, h, w, size)
    && k == FormatInd(a, b)
  }

  lemma OriginMonotone(i: nat, j: nat, size: nat)
    requires i <= j
    ensures ChunkOrigin(i, size) <= ChunkOrigin(j, size)
  {
    Arith.MulNonneg(j - i, size);
    assert j * size == i * size + (j - i) * size;
  }

  lemma OriginStep(i: nat, size: nat)
    ensures ChunkOrigin(i + 1, size) == ChunkOrigin(i, size) + size
  {
    assert (i + 1) * size == i * size + size;
  }

  /** Different chunk indices get different keys. */
  lemma FormatIndInjective(a: int, b: int, c: int, d: int)
    requires FormatInd(a, b) == FormatInd(c, d)
    ensures a == c && b == d
  {
    IndRoundTrip(a, b);
    IndRoundTrip(c, d);
  }

  /** An encoded chunk vouches for every map cell it covers. */
  lemma ChunkCellsEncodable(grid: seq<seq<int>>, h: nat, w: nat, cy: nat, cx: nat, size: nat)
    requires Rectangular(grid, h, w)
    requires EncodeGrid(AsTiles(ChunkTiles(grid, h, w, cy, cx, size)), size).Ok?
    ensures forall y, x :: cy <= y < cy + size && y < h && cx <= x < cx + size && x < w ==>
      0 <= grid[y][x] < 0x1_0000_0000
  {
    Pow256Values();
    var chunk := ChunkTiles(grid, h, w, cy, cx, size);
    var tiles := AsTiles(chunk);
    forall y, x | cy <= y < cy + size && y < h && cx <= x < cx + size && x < w
      ensures 0 <= grid[y][x] < 0x1_0000_0000
    {
      assert Encodable(tiles[y - cy][x - cx]);
    }
  }

  /** A chunk that cannot be encoded holds a map cell that cannot be. */
  lemma ChunkFailsOnMapCell(grid: seq<seq<int>>, h: nat, w: nat, cy: nat, cx: nat, size: nat)
    requires Rectangular(grid, h, w)
    requires EncodeGrid(AsTiles(ChunkTiles(grid, h, w, cy, cx, size)), size).Err?
    ensures !AllEncodable(grid, h, w)
  {
    Pow256Values();
    var chunk := ChunkTiles(grid, h, w, cy, cx, size);
    var tiles := AsTiles(chunk);
    var j, i :| 0 <= j < size && 0 <= i < |tiles[j]| && !Encodable(tiles[j][i]);
    assert cy + j < h && cx + i < w;
    assert !(0 <= grid[cy + j][cx + i] < 0x1_0000_0000);
  }

  /** The chunks in rows before `b`, and in row `b` before column `a`, are in the dictionary with their nodes. */
  ghost predicate ChunksBefore(chunks: map<string, ChunkNode>, grid: seq<seq<int>>, h: nat, w: nat, size: nat, a: nat, b: nat)
    requires Rectangular(grid, h, w)
  {
    forall a': nat, b': nat :: ChunkOnMap(a', b', h, w, size) && (b' < b || (b' == b && a' < a)) ==>
      FormatInd(a', b') in chunks && Ok(chunks[FormatInd(a', b')]) == ChunkNodeAt(grid, h, w, size, a', b')
  }

  /**
   * The chunk loop of `generate_main_entities`: for each chunk origin
   * (cx, cy) on the map, row of chunks by row of chunks, the node for key
   * "cx//chunk_size,cy//chunk_size". A negative chunk size gives empty
   * ranges and no chunks; zero is rejected by `range`.
   */
  method GenerateChunks(tileMap: seq<seq<int>>, h: nat, w: nat, chunkSize: int)
    returns (r: Result<map<string, ChunkNode>, ChunkError>)
    requires Rectangular(tileMap, h, w)
    ensures chunkSize == 0 ==> r == Err(ZeroChunkSize)
    ensures chunkSize < 0 ==> r == Ok(map[])
    ensures chunkSize > 0 ==> (r.Ok? <==> AllEncodable(tileMap, h, w))
    ensures chunkSize > 0 && r.Ok? ==> forall k :: k in r.value ==> ChunkKey(k, h, w, chunkSize)
    ensures chunkSize > 0 && r.Ok? ==> forall a: nat, b: nat :: ChunkOnMap(a, b, h, w, chunkSize) ==>
      FormatInd(a, b) in r.value && Ok(r.value[FormatInd(a, b)]) == ChunkNodeAt(tileMap, h, w, chunkSize, a, b)
  {
    if chunkSize == 0 {
      return Err(ZeroChunkSize);
    }
    if chunkSize < 0 {
      return Ok(map[]);
    }
    var chunks: map<string, ChunkNode> := map[];
    var cy: nat := 0;
    ghost var b: nat := 0;
    while cy < h
      invariant cy == ChunkOrigin(b, chunkSize)
      invariant forall y, x :: 0 <= y < h && y < cy && 0 <= x < w ==> 0 <= tileMap[y][x] < 0x1_0000_0000
      invariant forall k :: k in chunks ==> ChunkKey(k, h, w, chunkSize) && ParseInd(k).value.1 < b
      invariant ChunksBefore(chunks, tileMap, h, w, chunkSize, 0, b)
      decreases h - cy
    {
      var row;
      row := GenerateChunkRow(tileMap, h, w, chunkSize, cy, b, chunks);
      if row.Err? {
        return Err(row.error);
      }
      chunks := row.value;
      OriginStep(b, chunkSize);
      cy := cy + chunkSize;
      b := b + 1;
    }
    forall a: nat, b': nat | ChunkOnMap(a, b', h, w, chunkSize)
      ensures b' < b
    {
      if b' >= b {
        OriginMonotone(b, b', chunkSize);
      }
    }
    return Ok(chunks);
  }

  /** Adding the node of chunk (a, b) extends the dictionary's order by one chunk and keeps every earlier node. */
  lemma ChunkInserted(chunks: map<string, ChunkNode>, grid: seq<seq<int>>, h: nat, w: nat, size: nat, a: nat, b: nat, node: ChunkNode)
    requires Rectangular(grid, h, w) && size > 0 && ChunkOnMap(a, b, h, w, size)
    requires forall k :: k in chunks ==> ChunkKey(k, h, w, size) && ParseInd(k).value.1 < b + 1
    requires forall k :: k in chunks && ParseInd(k).Ok? && ParseInd(k).value.1 == b ==> ParseInd(k).value.0 < a
    requires ChunksBefore(chunks, grid, h, w, size, a, b)
    requires Ok(node) == ChunkNodeAt(grid, h, w, size, a, b)
    ensures var next := chunks[FormatInd(a, b) := node];
      && (forall k :: k in next ==> ChunkKey(k, h, w, size) && ParseInd(k).value.1 < b + 1)
      && (forall k :: k in next && ParseInd(k).Ok? && ParseInd(k).value.1 == b ==> ParseInd(k).value.0 < a + 1)
      && ChunksBefore(next, grid, h, w, size, a + 1, b)
  {
    ChunkKeysInserted(chunks, h, w, size, a, b, node);
    ChunksBeforeInserted(chunks, grid, h, w, size, a, b, node);
  }

  /** The keys after adding chunk (a, b) are chunk keys in rows up to `b`, and in row `b` up to `a`. */
  lemma ChunkKeysInserted(chunks: map<string, ChunkNode>, h: nat, w: nat, size: nat, a: nat, b: nat, node: ChunkNode)
    requires ChunkOnMap(a, b, h, w, size)
    requires forall k :: k in chunks ==> ChunkKey(k, h, w, size) && ParseInd(k).value.1 < b + 1
    requires forall k :: k in chunks && ParseInd(k).Ok? && ParseInd(k).value.1 == b ==> ParseInd(k).value.0 < a
    ensures var next := chunks[FormatInd(a, b) := node];
      && (forall k :: k in next ==> ChunkKey(k, h, w, size) && ParseInd(k).value.1 < b + 1)
      && (forall k :: k in next && ParseInd(k).Ok? && ParseInd(k).value.1 == b ==> ParseInd(k).value.0 < a + 1)
  {
    var key := FormatInd(a, b);
    var next := chunks[key := node];
    IndRoundTrip(a, b);
    assert ChunkKey(key, h, w, size);
    forall k | k in next
      ensures ChunkKey(k, h, w, size) && ParseInd(k).value.1 < b + 1
    {
      if k != key {
        assert k in chunks;
      }
    }
    forall k | k in next && ParseInd(k).Ok? && ParseInd(k).value.1 == b
      ensures ParseInd(k).value.0 < a + 1
    {
      if k != key {
        assert k in chunks;
      }
    }
  }

  /** After adding chunk (a, b), every chunk up to (a, b) in row order holds its node. */
  lemma ChunksBeforeInserted(chunks: map<string, ChunkNode>, grid: seq<seq<int>>, h: nat, w: nat, size: nat, a: nat, b: nat, node: ChunkNode)
    requires Rectangular(grid, h, w)
    requires ChunksBefore(chunks, grid, h, w, size, a, b)
    requires Ok(node) == ChunkNodeAt(grid, h, w, size, a, b)
    ensures ChunksBefore(chunks[FormatInd(a, b) := node], grid, h, w, size, a + 1, b)
  {
    var key := FormatInd(a, b);
    var next := chunks[key := node];
    forall a': nat, b': nat | ChunkOnMap(a', b', h, w, size) && (b' < b || (b' == b && a' < a + 1))
      ensures FormatInd(a', b') in next && Ok(next[FormatInd(a', b')]) == ChunkNodeAt(grid, h, w, size, a', b')
    {
      if (a', b') != (a, b) {
        if FormatInd(a', b') == key {
          FormatIndInjective(a', b', a, b);
        }
        assert next[FormatInd(a', b')] == chunks[FormatInd(a', b')];
      }
    }
  }

  /** The node of the chunk at (cx, cy), which is chunk (a, b), with its key "cx//chunk_size,cy//chunk_size". */
  method EncodeChunkAt(tileMap: seq<seq<int>>, h: nat, w: nat, chunkSize: nat, cx: nat, cy: nat, ghost a: nat, ghost b: nat)
    returns (key: string, r: Result<ChunkNode, ChunkError>)
    requires Rectangular(tileMap, h, w) && chunkSize > 0
    requires cx == ChunkOrigin(a, chunkSize) && cy == ChunkOrigin(b, chunkSize)
    ensures key == FormatInd(a, b)
    ensures r.Err? ==> r.error.Unencodable? && !AllEncodable(tileMap, h, w)
    ensures r.Ok? ==> Ok(r.value) == ChunkNodeAt(tileMap, h, w, chunkSize, a, b)
    ensures r.Ok? ==> forall y, x :: cy <= y < cy + chunkSize && y < h && cx <= x < cx + chunkSize && x < w ==>
      0 <= tileMap[y][x] < 0x1_0000_0000
  {
    Arith.DivModUnique(cx, chunkSize, a, 0);
    Arith.DivModUnique(cy, chunkSize, b, 0);
    key := FormatInd(cx / chunkSize, cy / chunkSize);
    var chunkTiles := ChunkTiles(tileMap, h, w, cy, cx, chunkSize);
    var encoded := EncodeGeneratedTiles(chunkTiles, chunkSize, chunkSize);
    if encoded.Err? {
      ChunkFailsOnMapCell(tileMap, h, w, cy, cx, chunkSize);
      return key, Err(Unencodable(encoded.error));
    }
    ChunkCellsEncodable(tileMap, h, w, cy, cx, chunkSize);
    r := Ok(ChunkNode(key, encoded.value, Some(6)));
  }

  /** One pass of the inner `cx` loop: encode chunk (a, b) and store it under its index text. */
  method AddChunk(tileMap: seq<seq<int>>, h: nat, w: nat, chunkSize: nat, cx: nat, cy: nat, ghost a: nat, ghost b: nat,
                  chunks: map<string, ChunkNode>)
    returns (r: Result<map<string, ChunkNode>, ChunkError>)
    requires Rectangular(tileMap, h, w) && chunkSize > 0 && cx < w && cy < h
    requires cx == ChunkOrigin(a, chunkSize) && cy == ChunkOrigin(b, chunkSize)
    requires forall y, x :: 0 <= y < h && 0 <= x < w && (y < cy || (y < cy + chunkSize && x < cx)) ==>
      0 <= tileMap[y][x] < 0x1_0000_0000
    requires forall k :: k in chunks ==> ChunkKey(k, h, w, chunkSize) && ParseInd(k).value.1 < b + 1
    requires forall k :: k in chunks && ParseInd(k).Ok? && ParseInd(k).value.1 == b ==> ParseInd(k).value.0 < a
    requires ChunksBefore(chunks, tileMap, h, w, chunkSize, a, b)
    ensures r.Err? ==> r.error.Unencodable? && !AllEncodable(tileMap, h, w)
    ensures r.Ok? ==> forall y, x :: 0 <= y < h && 0 <= x < w && (y < cy || (y < cy + chunkSize && x < cx + chunkSize)) ==>
      0 <= tileMap[y][x] < 0x1_0000_0000
    ensures r.Ok? ==> forall k :: k in r.value ==> ChunkKey(k, h, w, chunkSize) && ParseInd(k).value.1 < b + 1
    ensures r.Ok? ==> forall k :: k in r.value && ParseInd(k).Ok? && ParseInd(k).value.1 == b ==> ParseInd(k).value.0 < a + 1
    ensures r.Ok? ==> ChunksBefore(r.value, tileMap, h, w, chunkSize, a + 1, b)
  {
    var key, node := EncodeChunkAt(tileMap, h, w, chunkSize, cx, cy, a, b);
    if node.Err? {
      return Err(node.error);
    }
    ChunkInserted(chunks, tileMap, h, w, chunkSize, a, b, node.value);
    return Ok(chunks[key := node.value]);
  }

  /** The inner `cx` loop for the row of chunks at `cy`, adding its nodes to the chunks so far. */
  method GenerateChunkRow(tileMap: seq<seq<int>>, h: nat, w: nat, chunkSize: nat, cy: nat, ghost b: nat,
                          chunks0: map<string, ChunkNode>)
    returns (r: Result<map<string, ChunkNode>, ChunkError>)
    requires Rectangular(tileMap, h, w) && chunkSize > 0 && cy == ChunkOrigin(b, chunkSize) && cy < h
    requires forall y, x :: 0 <= y < h && y < cy && 0 <= x < w ==> 0 <= tileMap[y][x] < 0x1_0000_0000
    requires forall k :: k in chunks0 ==> ChunkKey(k, h, w, chunkSize) && ParseInd(k).value.1 < b
    requires ChunksBefore(chunks0, tileMap, h, w, chunkSize, 0, b)
    ensures r.Err? ==> r.error.Unencodable? && !AllEncodable(tileMap, h, w)
    ensures r.Ok? ==> forall y, x :: 0 <= y < h && y < cy + chunkSize && 0 <= x < w ==> 0 <= tileMap[y][x] < 0x1_0000_0000
    ensures r.Ok? ==> forall k :: k in r.value ==> ChunkKey(k, h, w, chunkSize) && ParseInd(k).value.1 < b + 1
    ensures r.Ok? ==> ChunksBefore(r.value, tileMap, h, w, chunkSize, 0, b + 1)
  {
    var chunks := chunks0;
    var cx: nat := 0;
    ghost var a: nat := 0;
    while cx < w
      invariant cx == ChunkOrigin(a, chunkSize)
      invariant forall y, x :: 0 <= y < h && 0 <= x < w && (y < cy || (y < cy + chunkSize && x < cx)) ==>
        0 <= tileMap[y][x] < 0x1_0000_0000
      invariant forall k :: k in chunks ==> ChunkKey(k, h, w, chunkSize) && ParseInd(k).value.1 < b + 1
      invariant forall k :: k in chunks && ParseInd(k).Ok? && ParseInd(k).value.1 == b ==> ParseInd(k).value.0 < a
      invariant ChunksBefore(chunks, tileMap, h, w, chunkSize, a, b)
      decreases w - cx
    {
      var next := AddChunk(tileMap, h, w, chunkSize, cx, cy, a, b, chunks);
      if next.Err? {
        return Err(next.error);
      }
      chunks := next.value;
      OriginStep(a, chunkSize);
      cx := cx + chunkSize;
      a := a + 1;
    }
    ChunkRowDone(chunks, tileMap, h, w, chunkSize, a, b);
    return Ok(chunks);
  }

  /** Once the origin of chunk (a, b) is past the right edge, every chunk of row `b` is in place. */
  lemma ChunkRowDone(chunks: map<string, ChunkNode>, grid: seq<seq<int>>, h: nat, w: nat, size: nat, a: nat, b: nat)
    requires Rectangular(grid, h, w) && size > 0 && ChunkOrigin(a, size) >= w
    requires ChunksBefore(chunks, grid, h, w, size, a, b)
    ensures ChunksBefore(chunks, grid, h, w, size, 0, b + 1)
  {
    forall a': nat, b': nat | ChunkOnMap(a', b', h, w, size) && b' == b
      ensures a' < a
    {
      if a' >= a {
        OriginMonotone(a, a', size);
      }
    }
  }

  // ---------------------------------------------------------------------------
  // Atmosphere chunks
  // ---------------------------------------------------------------------------

  /** One atmosphere entry `{mix: 65535}`: the unique mix index applied to all sixteen tiles. */
  datatype AtmosEntry = AtmosEntry(mix: nat, mask: int)

  const AllTilesMask: int := 65535

  /** `(dim + chunk_size - 1) // chunk_size - 1`: the last atmosphere chunk index over a dimension. */
  function AtmosExtent(dim: int, chunkSize: int): int
    requires chunkSize != 0
  {
    FloorDiv(dim + chunkSize - 1, chunkSize) - 1
  }

  /** The ring of a layout whose indices run from -1 to (lastX, lastY): the first or last index on either axis. */
  predicate OnAtmosRing(x: int, y: int, lastX: int, lastY: int)
  {
    x == -1 || x == lastX || y == -1 || y == lastY
  }

  /** The entry for atmosphere chunk (x, y): the immutable mix 0 on the ring, the mutable mix 1 inside it. */
  function AtmosAt(x: int, y: int, lastX: int, lastY: int): (e: AtmosEntry)
    ensures e.mask == AllTilesMask
    ensures e.mix == 0 <==> OnAtmosRing(x, y, lastX, lastY)
    ensures e.mix == 0 || e.mix == 1
  {
    if OnAtmosRing(x, y, lastX, lastY) then AtmosEntry(0, AllTilesMask) else AtmosEntry(1, AllTilesMask)
  }

  /** A key of the atmosphere dictionary: "x,y" with x in [-1, lastX] and y in [-1, lastY]. */
  predicate AtmosKey(k: string, lastX: int, lastY: int)
  {
    && ParseInd(k).Ok?
    && var (x, y) := ParseInd(k).value;
    && -1 <= x <= lastX && -1 <= y <= lastY
    && k == FormatInd(x, y)
  }

  /** Every chunk of the layout in rows before `y`, and in row `y` before column `x`, holds its entry. */
  ghost predicate AtmosBefore(tiles: map<string, AtmosEntry>, lastX: int, lastY: int, x: int, y: int)
  {
    forall x', y' :: -1 <= x' <= lastX && -1 <= y' && (y' < y || (y' == y && x' < x)) ==>
      FormatInd(x', y') in tiles && tiles[FormatInd(x', y')] == AtmosAt(x', y', lastX, lastY)
  }

  /** Adding the entry of chunk (x, y) moves the filled part of the layout on by one chunk. */
  lemma AtmosInserted(tiles: map<string, AtmosEntry>, lastX: int, lastY: int, x: int, y: int)
    requires -1 <= x <= lastX && -1 <= y <= lastY
    requires forall k :: k in tiles ==> AtmosKey(k, lastX, lastY) && ParseInd(k).value.1 <= y
    requires forall k :: k in tiles && ParseInd(k).Ok? && ParseInd(k).value.1 == y ==> ParseInd(k).value.0 < x
    requires AtmosBefore(tiles, lastX, lastY, x, y)
    ensures var next := tiles[FormatInd(x, y) := AtmosAt(x, y, lastX, lastY)];
      && (forall k :: k in next ==> AtmosKey(k, lastX, lastY) && ParseInd(k).value.1 <= y)
      && (forall k :: k in next && ParseInd(k).Ok? && ParseInd(k).value.1 == y ==> ParseInd(k).value.0 < x + 1)
      && AtmosBefore(next, lastX, lastY, x + 1, y)
  {
    var key := FormatInd(x, y);
    var next := tiles[key := AtmosAt(x, y, lastX, lastY)];
    IndRoundTrip(x, y);
    assert AtmosKey(key, lastX, lastY);
    forall k | k in next
      ensures AtmosKey(k, lastX, lastY) && ParseInd(k).value.1 <= y
    {
      if k != key {
        assert k in tiles;
      }
    }
    forall k | k in next && ParseInd(k).Ok? && ParseInd(k).value.1 == y
      ensures ParseInd(k).value.0 < x + 1
    {
      if k != key {
        assert k in tiles;
      }
    }
    forall x', y' | -1 <= x' <= lastX && -1 <= y' && (y' < y || (y' == y && x' < x + 1))
      ensures FormatInd(x', y') in next && next[FormatInd(x', y')] == AtmosAt(x', y', lastX, lastY)
    {
      if (x', y') != (x, y) {
        if FormatInd(x', y') == key {
          FormatIndInjective(x', y', x, y);
        }
        assert next[FormatInd(x', y')] == tiles[FormatInd(x', y')];
      }
    }
  }

  /**
   * The two loops of `generate_atmosphere_tiles` over indices -1 to the last
   * index on each axis: one entry per chunk, keyed "x,y".
   */
  method FillAtmosphere(lastX: int, lastY: int) returns (tiles: map<string, AtmosEntry>)
    ensures forall k :: k in tiles ==> AtmosKey(k, lastX, lastY)
    ensures forall x, y :: -1 <= x <= lastX && -1 <= y <= lastY ==>
      FormatInd(x, y) in tiles && tiles[FormatInd(x, y)] == AtmosAt(x, y, lastX, lastY)
  {
    tiles := map[];
    var y := -1;
    while y < lastY + 1
      invariant -1 <= y && (lastY >= -1 ==> y <= lastY + 1)
      invariant forall k :: k in tiles ==> AtmosKey(k, lastX, lastY) && ParseInd(k).value.1 < y
      invariant AtmosBefore(tiles, lastX, lastY, -1, y)
    {
      tiles := FillAtmosphereRow(tiles, lastX, lastY, y);
      y := y + 1;
    }
  }

  /** The inner `x` loop of `generate_atmosphere_tiles` for row `y`. */
  method FillAtmosphereRow(tiles0: map<string, AtmosEntry>, lastX: int, lastY: int, y: int) returns (tiles: map<string, AtmosEntry>)
    requires -1 <= y <= lastY
    requires forall k :: k in tiles0 ==> AtmosKey(k, lastX, lastY) && ParseInd(k).value.1 < y
    requires AtmosBefore(tiles0, lastX, lastY, -1, y)
    ensures forall k :: k in tiles ==> AtmosKey(k, lastX, lastY) && ParseInd(k).value.1 < y + 1
    ensures AtmosBefore(tiles, lastX, lastY, -1, y + 1)
  {
    tiles := tiles0;
    var x := -1;
    while x < lastX + 1
      invariant -1 <= x && (lastX >= -1 ==> x <= lastX + 1)
      invariant forall k :: k in tiles ==> AtmosKey(k, lastX, lastY) && ParseInd(k).value.1 <= y
      invariant forall k :: k in tiles && ParseInd(k).Ok? && ParseInd(k).value.1 == y ==> ParseInd(k).value.0 < x
      invariant AtmosBefore(tiles, lastX, lastY, x, y)
    {
      AtmosInserted(tiles, lastX, lastY, x, y);
      var key := FormatInd(x, y);
      if x == -1 || x == lastX || y == -1 || y == lastY {
        tiles := tiles[key := AtmosEntry(0, AllTilesMask)];
      } else {
        tiles := tiles[key := AtmosEntry(1, AllTilesMask)];
      }
      x := x + 1;
    }
  }

  /**
   * `generate_atmosphere_tiles`: the layout from -1 to the last atmosphere
   * chunk index on each axis, mix 0 on its ring. A zero chunk size raises
   * ZeroDivisionError.
   */
  method GenerateAtmosphereTiles(width: int, height: int, chunkSize: int) returns (r: Result<map<string, AtmosEntry>, MapError>)
    ensures r.Err? <==> chunkSize == 0
    ensures r.Ok? ==> forall k :: k in r.value ==>
      AtmosKey(k, AtmosExtent(width, chunkSize), AtmosExtent(height, chunkSize))
    ensures r.Ok? ==> forall x, y ::
      -1 <= x <= AtmosExtent(width, chunkSize) && -1 <= y <= AtmosExtent(height, chunkSize) ==>
        FormatInd(x, y) in r.value
        && r.value[FormatInd(x, y)] == AtmosAt(x, y, AtmosExtent(width, chunkSize), AtmosExtent(height, chunkSize))
  {
    if chunkSize == 0 {
      return Err(DivisionByZero);
    }
    var maxX := FloorDiv(width + chunkSize - 1, chunkSize) - 1;
    var maxY := FloorDiv(height + chunkSize - 1, chunkSize) - 1;
    var tiles := FillAtmosphere(maxX, maxY);
    return Ok(tiles);
  }

  /**
   * For a positive chunk size, map column x (0 <= x < width) lies in
   * atmosphere chunk x / chunk_size, which is between 0 and the last index;
   * the last index is the chunk holding the map's last column.
   */
  lemma AtmosChunksCoverMap(width: int, chunkSize: int, x: int)
    requires chunkSize > 0 && 0 <= x < width
    ensures 0 <= x / chunkSize <= AtmosExtent(width, chunkSize)
    ensures (width - 1) / chunkSize == AtmosExtent(width, chunkSize)
  {
    var last := (width - 1) / chunkSize;
    Arith.DivModUnique(width + chunkSize - 1, chunkSize, last + 1, (width - 1) % chunkSize);
    Arith.DivMonotone(x, width - 1, chunkSize);
  }

  /**
   * As written, the ring is lopsided: the chunks at index -1 lie wholly
   * outside the map, but the chunks at the last index hold the map's last
   * column and row, and they get the immutable mix too.
   */
  lemma LastMapChunkImmutable(width: int, height: int, chunkSize: int, y: int)
    requires chunkSize > 0 && width > 0 && -1 <= y <= AtmosExtent(height, chunkSize)
    ensures (width - 1) / chunkSize == AtmosExtent(width, chunkSize)
    ensures AtmosAt((width - 1) / chunkSize, y, AtmosExtent(width, chunkSize), AtmosExtent(height, chunkSize)).mix == 0
  {
    AtmosChunksCoverMap(width, chunkSize, width - 1);
  }

  /** On an 8 by 8 map with 4-tile atmosphere chunks, three of the map's four chunks are immutable. */
  lemma AtmosRingExample()
    ensures AtmosExtent(8, 4) == 1
    ensures AtmosAt(0, 0, 1, 1).mix == 1
    ensures AtmosAt(1, 0, 1, 1).mix == 0 && AtmosAt(0, 1, 1, 1).mix == 0 && AtmosAt(1, 1, 1, 1).mix == 0
  {
  }

  /**
   * The layout evidently intended: indices from -1 to one past the last
   * chunk, so that the immutable ring surrounds the map on all four sides.
   */
  method GenerateAtmosphereTilesRingOutside(width: int, height: int, chunkSize: int) returns (r: Result<map<string, AtmosEntry>, MapError>)
    ensures r.Err? <==> chunkSize == 0
    ensures r.Ok? ==> forall k :: k in r.value ==>
      AtmosKey(k, AtmosExtent(width, chunkSize) + 1, AtmosExtent(height, chunkSize) + 1)
    ensures r.Ok? ==> forall x, y ::
      -1 <= x <= AtmosExtent(width, chunkSize) + 1 && -1 <= y <= AtmosExtent(height, chunkSize) + 1 ==>
        FormatInd(x, y) in r.value
        && r.value[FormatInd(x, y)] == AtmosAt(x, y, AtmosExtent(width, chunkSize) + 1, AtmosExtent(height, chunkSize) + 1)
  {
    if chunkSize == 0 {
      return Err(DivisionByZero);
    }
    var maxX := FloorDiv(width + chunkSize - 1, chunkSize) - 1;
    var maxY := FloorDiv(height + chunkSize - 1, chunkSize) - 1;
    var tiles := FillAtmosphere(maxX + 1, maxY + 1);
    return Ok(tiles);
  }

  /**
   * In the intended layout a chunk is mutable exactly when it holds map
   * tiles: every map tile (tx, ty) lies in a mix-1 chunk, and every chunk
   * of the layout that holds no map tile has the immutable mix.
   */
  lemma RingOutsideSeparatesMap(width: int, height: int, chunkSize: int, x: int, y: int)
    requires chunkSize > 0 && width > 0 && height > 0
    requires -1 <= x <= AtmosExtent(width, chunkSize) + 1 && -1 <= y <= AtmosExtent(height, chunkSize) + 1
    ensures AtmosAt(x, y, AtmosExtent(width, chunkSize) + 1, AtmosExtent(height, chunkSize) + 1).mix == 1
        <==> (exists tx, ty :: 0 <= tx < width && 0 <= ty < height && tx / chunkSize == x && ty / chunkSize == y)
  {
    var lastX, lastY := AtmosExtent(width, chunkSize), AtmosExtent(height, chunkSize);
    AtmosChunksCoverMap(width, chunkSize, width - 1);
    AtmosChunksCoverMap(height, chunkSize, height - 1);
    if 0 <= x <= lastX && 0 <= y <= lastY {
      var tx, ty := ChunkStart(x, chunkSize, width), ChunkStart(y, chunkSize, height);
      assert tx / chunkSize == x && ty / chunkSize == y;
    } else {
      forall tx, ty | 0 <= tx < width && 0 <= ty < height
        ensures tx / chunkSize != x || ty / chunkSize != y
      {
        AtmosChunksCoverMap(width, chunkSize, tx);
        AtmosChunksCoverMap(height, chunkSize, ty);
      }
    }
  }

  /** The first map tile of chunk `i` along an axis of `dim` tiles, for a chunk that holds map tiles. */
  function ChunkStart(i: int, chunkSize: int, dim: int): (t: int)
    requires chunkSize > 0 && 0 <= i <= (dim - 1) / chunkSize
    ensures 0 <= t < dim && t / chunkSize == i
  {
    Arith.DivModUnique(i * chunkSize, chunkSize, i, 0);
    Arith.DivMonotone(i * chunkSize, dim - 1, chunkSize);
    i * chunkSize
  }
}
