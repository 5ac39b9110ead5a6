/**
 * The chunk tile codec of the map tools (mapDeserializer.py): a map chunk
 * node holds its chunk index as the text "x,y", a format version and the
 * tile bytes. Each tile is a record, written row by row: a little-endian
 * type id (4 bytes from version 6 on, 2 bytes before), then a flags byte
 * and a variant byte.
 *
 * The node's "tiles" field is modelled as the byte string the base64 text
 * stands for; the base64 layer itself is not part of this model.
 */
module TileCodec {
  import opened Wrappers
  import Arith

  type Byte = b: int | 0 <= b < 256

  predicate IsByte(v: int)
  {
    0 <= v < 256
  }

  // ---------------------------------------------------------------------------
  // Little-endian unsigned integers
  // ---------------------------------------------------------------------------

  function Pow256(k: nat): (r: nat)
    ensures r >= 1
  {
    if k == 0 then 1 else 256 * Pow256(k - 1)
  }

  lemma Pow256Values()
    ensures Pow256(2) == 0x1_0000
    ensures Pow256(4) == 0x1_0000_0000
  {
    assert Pow256(1) == 256;
    assert Pow256(2) == 0x1_0000;
    assert Pow256(3) == 0x100_0000;
  }

  /** The unsigned value of a little-endian byte string (`struct.unpack` with "<H" or "<I"). */
  function FromLittleEndian(bs: seq<Byte>): nat
  {
    if |bs| == 0 then 0 else bs[0] + 256 * FromLittleEndian(bs[1..])
  }

  /** The `k` low bytes of `n`, least significant first (`struct.pack` with "<I" for k = 4). */
  function ToLittleEndian(n: nat, k: nat): (r: seq<Byte>)
    ensures |r| == k
  {
    if k == 0 then [] else [n % 256] + ToLittleEndian(n / 256, k - 1)
  }

  lemma {:induction false} FromLittleEndianBound(bs: seq<Byte>)
    ensures FromLittleEndian(bs) < Pow256(|bs|)
  {
    if |bs| > 0 {
      FromLittleEndianBound(bs[1..]);
    }
  }

  /** Writing `n` in `k` bytes and reading it back gives `n`, for every `n` that fits. */
  lemma {:induction false} LittleEndianRoundTrip(n: nat, k: nat)
    requires n < Pow256(k)
    ensures FromLittleEndian(ToLittleEndian(n, k)) == n
  {
    if k > 0 {
      LittleEndianRoundTrip(n / 256, k - 1);
      assert ToLittleEndian(n, k)[1..] == ToLittleEndian(n / 256, k - 1);
    }
  }

  /** Reading a byte string and writing the value back in as many bytes gives the same bytes. */
  lemma {:induction false} LittleEndianInverse(bs: seq<Byte>)
    ensures ToLittleEndian(FromLittleEndian(bs), |bs|) == bs
  {
    if |bs| > 0 {
      var rest := FromLittleEndian(bs[1..]);
      Arith.DivModUnique(FromLittleEndian(bs), 256, rest, bs[0]);
      LittleEndianInverse(bs[1..]);
    }
  }

  // ---------------------------------------------------------------------------
  // The chunk index text "x,y"
  // ---------------------------------------------------------------------------

  predicate IsDigit(c: char)
  {
    '0' <= c <= '9'
  }

  predicate AllDigits(s: string)
  {
    forall i :: 0 <= i < |s| ==> IsDigit(s[i])
  }

  function DigitChar(d: nat): (c: char)
    requires d < 10
    ensures IsDigit(c) && (c as int) - ('0' as int) == d
  {
    ('0' as int + d) as char
  }

  /** The value of a string of decimal digits, most significant first. */
  function DigitsValue(s: string): nat
    requires AllDigits(s)
  {
    if |s| == 0 then 0 else 10 * DigitsValue(s[..|s| - 1]) + ((s[|s| - 1] as int) - ('0' as int))
  }

  /** Python's `int(text)` on an optionally signed run of decimal digits; None where it raises ValueError. */
  function ParseInt(s: string): Option<int>
  {
    if |s| > 0 && (s[0] == '-' || s[0] == '+') then
      var digits := s[1..];
      if |digits| > 0 && AllDigits(digits) then
        var magnitude: int := DigitsValue(digits);
        Some(if s[0] == '-' then -magnitude else magnitude)
      else None
    else if |s| > 0 && AllDigits(s) then Some(DigitsValue(s))
    else None
  }

  /** The shortest decimal digits of `n`. */
  function NatToDecimal(n: nat): (s: string)
    ensures |s| > 0 && AllDigits(s)
  {
    if n < 10 then [DigitChar(n)] else NatToDecimal(n / 10) + [DigitChar(n % 10)]
  }

  /** An int formatted as by `f"{n}"`: a minus sign for negatives, then the digits. */
  function IntToDecimal(n: int): string
  {
    if n < 0 then "-" + NatToDecimal(-n) else NatToDecimal(n)
  }

  lemma {:induction false} DecimalRoundTrip(n: nat)
    ensures DigitsValue(NatToDecimal(n)) == n
  {
    if n >= 10 {
      DecimalRoundTrip(n / 10);
      var s := NatToDecimal(n);
      assert s[..|s| - 1] == NatToDecimal(n / 10);
    }
  }

  /** `int(f"{n}") == n` for every int. */
  lemma IntRoundTrip(n: int)
    ensures ParseInt(IntToDecimal(n)) == Some(n)
  {
    if n < 0 {
      NegativeRoundTrip(n);
    } else {
      DecimalRoundTrip(n);
      var s := NatToDecimal(n);
      assert IntToDecimal(n) == s && s[0] != '-' && s[0] != '+';
    }
  }

  lemma NegativeRoundTrip(n: int)
    requires n < 0
    ensures ParseInt(IntToDecimal(n)) == Some(n)
  {
    var digits := NatToDecimal(-n);
    var s := IntToDecimal(n);
    assert s == "-" + digits;
    assert s[0] == '-' && s[1..] == digits;
    DecimalRoundTrip(-n);
  }

  /** Python's `text.split(",")`: the pieces between commas, at least one. */
  function SplitCommas(s: string): (r: seq<string>)
    ensures |r| >= 1
  {
    if |s| == 0 then [""]
    else if s[0] == ',' then [""] + SplitCommas(s[1..])
    else
      var rest := SplitCommas(s[1..]);
      [[s[0]] + rest[0]] + rest[1..]
  }

  lemma {:induction false} SplitWithoutComma(s: string)
    requires ',' !in s
    ensures SplitCommas(s) == [s]
  {
    if |s| > 0 {
      SplitWithoutComma(s[1..]);
      assert [s[0]] + s[1..] == s;
    }
  }

  lemma {:induction false} SplitAfterPiece(a: string, b: string)
    requires ',' !in a
    ensures SplitCommas(a + "," + b) == [a] + SplitCommas(b)
  {
    if |a| > 0 {
      SplitAfterPiece(a[1..], b);
      assert (a + "," + b)[1..] == a[1..] + "," + b;
      assert [a[0]] + a[1..] == a;
    } else {
      assert a + "," + b == "," + b;
    }
  }

  lemma DecimalHasNoComma(n: int)
    ensures ',' !in IntToDecimal(n)
  {
    var s := IntToDecimal(n);
    if n < 0 {
      assert forall i :: 1 <= i < |s| ==> IsDigit(s[i]) by {
        forall i | 1 <= i < |s| ensures IsDigit(s[i]) {
          assert s[i] == NatToDecimal(-n)[i - 1];
        }
      }
    }
  }

  /** What goes wrong when decoding a chunk node. */
  datatype DecodeError =
    | IndNotInteger     // a piece of "ind" is not an integer (ValueError)
    | IndTooShort       // "ind" has fewer than two pieces (IndexError)
    | TruncatedTiles    // a record runs past the end of the tile bytes (struct.error)
    | UnknownTileId(id: int) // a decoded type id is no key of the tile map (ValueError)

  function ParsePieces(pieces: seq<string>): (r: Option<seq<int>>)
    ensures r.Some? ==> |r.value| == |pieces|
    ensures r.Some? <==> forall i :: 0 <= i < |pieces| ==> ParseInt(pieces[i]).Some?
    ensures r.Some? ==> forall i :: 0 <= i < |pieces| ==> ParseInt(pieces[i]) == Some(r.value[i])
  {
    if |pieces| == 0 then Some([])
    else match ParseInt(pieces[0])
      case None => None
      case Some(v) =>
        match ParsePieces(pieces[1..])
        case None =>
          var i :| 0 <= i < |pieces[1..]| && ParseInt(pieces[1..][i]).None?;
          assert ParseInt(pieces[i + 1]).None?;
          None
        case Some(vs) => Some([v] + vs)
  }

  /** `tuple(map(int, ind.split(",")))` and its first two elements. */
  function ParseInd(ind: string): Result<(int, int), DecodeError>
  {
    match ParsePieces(SplitCommas(ind))
    case None => Err(IndNotInteger)
    case Some(values) => if |values| < 2 then Err(IndTooShort) else Ok((values[0], values[1]))
  }

  /** The "ind" text `serialize_map_chunk` writes for a chunk at (x, y). */
  function FormatInd(x: int, y: int): string
  {
    IntToDecimal(x) + "," + IntToDecimal(y)
  }

  /** The index written for a chunk parses back to the chunk's own coordinates. */
  lemma IndRoundTrip(x: int, y: int)
    ensures ParseInd(FormatInd(x, y)) == Ok((x, y))
  {
    DecimalHasNoComma(x);
    DecimalHasNoComma(y);
    SplitAfterPiece(IntToDecimal(x), IntToDecimal(y));
    SplitWithoutComma(IntToDecimal(y));
    IntRoundTrip(x);
    IntRoundTrip(y);
    var pieces := SplitCommas(FormatInd(x, y));
    assert pieces == [IntToDecimal(x), IntToDecimal(y)];
  }

  // ---------------------------------------------------------------------------
  // Tiles and the chunk grid
  // ---------------------------------------------------------------------------

  /** One tile: its type id and the flags and variant bytes (Python ints, unbounded). */
  datatype Tile = Tile(typeId: int, flags: int, variant: int)

  /** `Tile.__eq__`: the type ids, flags and variants agree. */
  function SameTile(a: Tile, b: Tile): (r: bool)
    ensures r <==> a == b
  {
    a.typeId == b.typeId && a.flags == b.flags && a.variant == b.variant
  }

  /** A chunk-size by chunk-size grid, indexed [y][x]. */
  predicate IsSquare(grid: seq<seq<Tile>>, size: nat)
  {
    |grid| == size && forall j :: 0 <= j < |grid| ==> |grid[j]| == size
  }

  /** MapChunk: its index, its size and its tile rows, updated in place by SetTile. */
  class MapChunk {
    const x: int
    const y: int
    const chunkSize: nat
    const tiles: array2<Tile>

    ghost predicate Valid()
    {
      tiles.Length0 == chunkSize && tiles.Length1 == chunkSize
    }

    /** The rows of the chunk as values. */
    function Rows(): (grid: seq<seq<Tile>>)
      requires Valid()
      reads tiles
      ensures IsSquare(grid, chunkSize)
      ensures forall j, i :: 0 <= j < chunkSize && 0 <= i < chunkSize ==> grid[j][i] == tiles[j, i]
    {
      seq(chunkSize, j requires 0 <= j < chunkSize reads tiles =>
        seq(chunkSize, i requires 0 <= i < chunkSize reads tiles => tiles[j, i]))
    }

    /** A fresh chunk: every cell is `Tile(0)`. */
    constructor (x: int, y: int, chunkSize: nat)
      ensures Valid() && fresh(tiles)
      ensures this.x == x && this.y == y && this.chunkSize == chunkSize
      ensures forall j, i :: 0 <= j < chunkSize && 0 <= i < chunkSize ==> tiles[j, i] == Tile(0, 0, 0)
    {
      this.x := x;
      this.y := y;
      this.chunkSize := chunkSize;
      tiles := new Tile[chunkSize, chunkSize]((j, i) => Tile(0, 0, 0));
    }

    /** `set_tile`: cell (x, y) becomes `tile`; every other cell keeps its tile. */
    method SetTile(x: nat, y: nat, tile: Tile)
      requires Valid() && x < chunkSize && y < chunkSize
      modifies tiles
      ensures tiles[y, x] == tile
      ensures forall i :: 0 <= i < chunkSize && i != x ==> tiles[y, i] == old(tiles[y, i])
      ensures forall j, i :: 0 <= j < chunkSize && 0 <= i < chunkSize && j != y ==> tiles[j, i] == old(tiles[j, i])
    {
      tiles[y, x] := tile;
    }

    /** `get_tile`: the tile at cell (x, y). */
    method GetTile(x: nat, y: nat) returns (tile: Tile)
      requires Valid() && x < chunkSize && y < chunkSize
      ensures tile == Rows()[y][x]
    {
      tile := tiles[y, x];
    }
  }

  // ---------------------------------------------------------------------------
  // Decoding
  // ---------------------------------------------------------------------------

  /** A chunk node: the "ind" text, the tile bytes and the "version" entry when present. */
  datatype ChunkNode = ChunkNode(ind: string, tiles: seq<Byte>, version: Option<int>)

  const DefaultChunkSize: nat := 16

  /** `node.get("version", 1)`. */
  function VersionOf(node: ChunkNode): int
  {
    match node.version
    case None => 1
    case Some(v) => v
  }

  /** The width of the type id of one record: 2 bytes before version 6, 4 bytes from version 6 on. */
  function IdWidth(version: int): nat
  {
    if version < 6 then 2 else 4
  }

  function RecordWidth(version: int): nat
  {
    IdWidth(version) + 2
  }

  /** The record at offset `at`: a truncated record fails first, then an unknown type id. */
  function DecodeRecord(bytes: seq<Byte>, at: nat, version: int, tileMap: map<int, string>): (r: Result<Tile, DecodeError>)
    ensures r == Err(TruncatedTiles) <==> at + RecordWidth(version) > |bytes|
    ensures r.Ok? ==>
      && r.value.typeId in tileMap
      && 0 <= r.value.typeId < Pow256(IdWidth(version))
      && IsByte(r.value.flags) && IsByte(r.value.variant)
  {
    var w := IdWidth(version);
    if at + w + 2 > |bytes| then Err(TruncatedTiles)
    else
      var id := FromLittleEndian(bytes[at..at + w]);
      FromLittleEndianBound(bytes[at..at + w]);
      if id !in tileMap then Err(UnknownTileId(id))
      else Ok(Tile(id, bytes[at + w], bytes[at + w + 1]))
  }

  /** The first `count` records from offset `at`, and the offset after them. */
  function DecodeRow(bytes: seq<Byte>, at: nat, count: nat, version: int, tileMap: map<int, string>)
    : (r: Result<(seq<Tile>, nat), DecodeError>)
    ensures r.Ok? ==>
      && |r.value.0| == count
      && r.value.1 == at + (if version < 6 then 4 * count else 6 * count)
      && (count > 0 ==> r.value.1 <= |bytes|)
  {
    if count == 0 then Ok(([], at))
    else match DecodeRow(bytes, at, count - 1, version, tileMap)
      case Err(e) => Err(e)
      case Ok((row, next)) =>
        match DecodeRecord(bytes, next, version, tileMap)
        case Err(e) => Err(e)
        case Ok(tile) => Ok((row + [tile], next + RecordWidth(version)))
  }

  /** The first `rows` rows of `size` records each from the start of the bytes, and the offset after them. */
  function DecodeGrid(bytes: seq<Byte>, rows: nat, size: nat, version: int, tileMap: map<int, string>)
    : (r: Result<(seq<seq<Tile>>, nat), DecodeError>)
    ensures r.Ok? ==>
      && |r.value.0| == rows
      && (forall j :: 0 <= j < rows ==> |r.value.0[j]| == size)
      && r.value.1 <= |bytes|
  {
    if rows == 0 then Ok(([], 0))
    else match DecodeGrid(bytes, rows - 1, size, version, tileMap)
      case Err(e) => Err(e)
      case Ok((grid, next)) =>
        match DecodeRow(bytes, next, size, version, tileMap)
        case Err(e) => Err(e)
        case Ok((row, after)) => Ok((grid + [row], after))
  }

  /** What a decoded chunk holds: its index and its rows. */
  datatype DecodedChunk = DecodedChunk(x: int, y: int, grid: seq<seq<Tile>>)

  /** `deserialize_map_chunk` on values: the index first, then every record in row order. */
  function DecodeChunk(node: ChunkNode, tileMap: map<int, string>, chunkSize: nat): (r: Result<DecodedChunk, DecodeError>)
    ensures r.Ok? ==> IsSquare(r.value.grid, chunkSize)
    ensures r.Ok? ==> forall j, i :: 0 <= j < chunkSize && 0 <= i < chunkSize ==> r.value.grid[j][i].typeId in tileMap
  {
    match ParseInd(node.ind)
    case Err(e) => Err(e)
    case Ok((x, y)) =>
      match DecodeGrid(node.tiles, chunkSize, chunkSize, VersionOf(node), tileMap)
      case Err(e) => Err(e)
      case Ok((grid, _)) =>
        DecodedTilesKnown(node.tiles, chunkSize, chunkSize, VersionOf(node), tileMap);
        Ok(DecodedChunk(x, y, grid))
  }

  lemma {:induction false} DecodedRowKnown(bytes: seq<Byte>, at: nat, count: nat, version: int, tileMap: map<int, string>)
    requires DecodeRow(bytes, at, count, version, tileMap).Ok?
    ensures forall i :: 0 <= i < count ==> DecodeRow(bytes, at, count, version, tileMap).value.0[i].typeId in tileMap
  {
    if count > 0 {
      DecodedRowKnown(bytes, at, count - 1, version, tileMap);
    }
  }

  lemma {:induction false} DecodedTilesKnown(bytes: seq<Byte>, rows: nat, size: nat, version: int, tileMap: map<int, string>)
    requires DecodeGrid(bytes, rows, size, version, tileMap).Ok?
    ensures forall j, i :: 0 <= j < rows && 0 <= i < size ==>
      DecodeGrid(bytes, rows, size, version, tileMap).value.0[j][i].typeId in tileMap
  {
    if rows > 0 {
      DecodedTilesKnown(bytes, rows - 1, size, version, tileMap);
      var next := DecodeGrid(bytes, rows - 1, size, version, tileMap).value.1;
      DecodedRowKnown(bytes, next, size, version, tileMap);
    }
  }

  /** A record that fails stops the decoding of its row: a longer prefix fails the same way. */
  lemma {:induction false} RowErrorPersists(bytes: seq<Byte>, at: nat, k: nat, n: nat, version: int, tileMap: map<int, string>)
    requires k <= n && DecodeRow(bytes, at, k, version, tileMap).Err?
    ensures DecodeRow(bytes, at, n, version, tileMap) == DecodeRow(bytes, at, k, version, tileMap)
  {
    if n > k {
      RowErrorPersists(bytes, at, k, n - 1, version, tileMap);
    }
  }

  lemma {:induction false} GridErrorPersists(bytes: seq<Byte>, k: nat, n: nat, size: nat, version: int, tileMap: map<int, string>)
    requires k <= n && DecodeGrid(bytes, k, size, version, tileMap).Err?
    ensures DecodeGrid(bytes, n, size, version, tileMap) == DecodeGrid(bytes, k, size, version, tileMap)
  {
    if n > k {
      GridErrorPersists(bytes, k, n - 1, size, version, tileMap);
    }
  }

  /**
   * `deserialize_map_chunk`: parse the index, make the chunk, then walk the
   * records with a byte cursor, row by row, setting each decoded tile.
   */
  method DeserializeMapChunk(node: ChunkNode, tileMap: map<int, string>, chunkSize: nat)
    returns (r: Result<MapChunk, DecodeError>)
    ensures DecodeChunk(node, tileMap, chunkSize).Err? ==> r == Err(DecodeChunk(node, tileMap, chunkSize).error)
    ensures DecodeChunk(node, tileMap, chunkSize).Ok? ==>
      && r.Ok? && r.value.Valid() && fresh(r.value.tiles)
      && r.value.x == DecodeChunk(node, tileMap, chunkSize).value.x
      && r.value.y == DecodeChunk(node, tileMap, chunkSize).value.y
      && r.value.chunkSize == chunkSize
      && r.value.Rows() == DecodeChunk(node, tileMap, chunkSize).value.grid
  {
    var ind := ParseInd(node.ind);
    if ind.Err? {
      return Err(ind.error);
    }
    var chunk := new MapChunk(ind.value.0, ind.value.1, chunkSize);
    var walked := DecodeGridInto(chunk, node.tiles, VersionOf(node), tileMap);
    if walked.Err? {
      return Err(walked.error);
    }
    return Ok(chunk);
  }

  /** The record walk of `deserialize_map_chunk`: every row in turn, stopping at the first failure. */
  method DecodeGridInto(chunk: MapChunk, bytes: seq<Byte>, version: int, tileMap: map<int, string>)
    returns (r: Result<nat, DecodeError>)
    requires chunk.Valid()
    modifies chunk.tiles
    ensures DecodeGrid(bytes, chunk.chunkSize, chunk.chunkSize, version, tileMap).Err? ==>
      r == Err(DecodeGrid(bytes, chunk.chunkSize, chunk.chunkSize, version, tileMap).error)
    ensures DecodeGrid(bytes, chunk.chunkSize, chunk.chunkSize, version, tileMap).Ok? ==>
      r.Ok? && chunk.Rows() == DecodeGrid(bytes, chunk.chunkSize, chunk.chunkSize, version, tileMap).value.0
  {
    var idx := 0;
    ghost var done: seq<seq<Tile>> := [];
    var y := 0;
    while y < chunk.chunkSize
      invariant 0 <= y <= chunk.chunkSize
      invariant DecodeGrid(bytes, y, chunk.chunkSize, version, tileMap) == Ok((done, idx))
      invariant forall j, i :: 0 <= j < y && 0 <= i < chunk.chunkSize ==> chunk.tiles[j, i] == done[j][i]
    {
      var rowEnd;
      rowEnd, done := DecodeNextRow(chunk, bytes, y, idx, version, tileMap, done);
      if rowEnd.Err? {
        GridErrorPersists(bytes, y + 1, chunk.chunkSize, chunk.chunkSize, version, tileMap);
        return Err(rowEnd.error);
      }
      idx := rowEnd.value;
      y := y + 1;
    }
    RowsMatch(chunk, done);
    return Ok(idx);
  }

  /** One row of the record walk, extending the rows read so far. */
  method DecodeNextRow(chunk: MapChunk, bytes: seq<Byte>, y: nat, idx: nat, version: int, tileMap: map<int, string>,
                       ghost done: seq<seq<Tile>>)
    returns (r: Result<nat, DecodeError>, ghost done': seq<seq<Tile>>)
    requires chunk.Valid() && y < chunk.chunkSize
    requires DecodeGrid(bytes, y, chunk.chunkSize, version, tileMap) == Ok((done, idx))
    requires forall j, i :: 0 <= j < y && 0 <= i < chunk.chunkSize ==> chunk.tiles[j, i] == done[j][i]
    modifies chunk.tiles
    ensures r.Err? ==> DecodeGrid(bytes, y + 1, chunk.chunkSize, version, tileMap) == Err(r.error)
    ensures r.Ok? ==> DecodeGrid(bytes, y + 1, chunk.chunkSize, version, tileMap) == Ok((done', r.value))
    ensures r.Ok? ==> forall j, i :: 0 <= j < y + 1 && 0 <= i < chunk.chunkSize ==> chunk.tiles[j, i] == done'[j][i]
  {
    done' := done;
    r := DecodeRowInto(chunk, bytes, y, idx, version, tileMap);
    if r.Ok? {
      done' := done + [DecodeRow(bytes, idx, chunk.chunkSize, version, tileMap).value.0];
    }
  }

  lemma RowsMatch(chunk: MapChunk, grid: seq<seq<Tile>>)
    requires chunk.Valid() && IsSquare(grid, chunk.chunkSize)
    requires forall j, i :: 0 <= j < chunk.chunkSize && 0 <= i < chunk.chunkSize ==> chunk.tiles[j, i] == grid[j][i]
    ensures chunk.Rows() == grid
  {
    forall j | 0 <= j < chunk.chunkSize
      ensures chunk.Rows()[j] == grid[j]
    {
    }
  }

  /**
   * The inner loop of `deserialize_map_chunk`: decode the records of row `y`
   * from the cursor `idx` and set them left to right; the offset after the
   * row, or the first record's failure.
   */
  method DecodeRowInto(chunk: MapChunk, bytes: seq<Byte>, y: nat, idx: nat, version: int, tileMap: map<int, string>)
    returns (r: Result<nat, DecodeError>)
    requires chunk.Valid() && y < chunk.chunkSize
    modifies chunk.tiles
    ensures DecodeRow(bytes, idx, chunk.chunkSize, version, tileMap).Err? ==>
      r == Err(DecodeRow(bytes, idx, chunk.chunkSize, version, tileMap).error)
    ensures DecodeRow(bytes, idx, chunk.chunkSize, version, tileMap).Ok? ==>
      && r == Ok(DecodeRow(bytes, idx, chunk.chunkSize, version, tileMap).value.1)
      && forall i :: 0 <= i < chunk.chunkSize ==> chunk.tiles[y, i] == DecodeRow(bytes, idx, chunk.chunkSize, version, tileMap).value.0[i]
    ensures forall j, i :: 0 <= j < chunk.chunkSize && 0 <= i < chunk.chunkSize && j != y ==> chunk.tiles[j, i] == old(chunk.tiles[j, i])
  {
    var cursor := idx;
    ghost var row: seq<Tile> := [];
    var x := 0;
    while x < chunk.chunkSize
      invariant 0 <= x <= chunk.chunkSize
      invariant DecodeRow(bytes, idx, x, version, tileMap) == Ok((row, cursor))
      invariant forall i :: 0 <= i < x ==> chunk.tiles[y, i] == row[i]
      invariant forall j, i :: 0 <= j < chunk.chunkSize && 0 <= i < chunk.chunkSize && j != y ==> chunk.tiles[j, i] == old(chunk.tiles[j, i])
    {
      var record, next := ReadRecord(bytes, cursor, version, tileMap);
      if record.Err? {
        assert DecodeRow(bytes, idx, x + 1, version, tileMap) == Err(record.error);
        RowErrorPersists(bytes, idx, x + 1, chunk.chunkSize, version, tileMap);
        return Err(record.error);
      }
      DecodeRowExtend(bytes, idx, x + 1, version, tileMap, row, cursor, record.value);
      cursor := next;
      chunk.SetTile(x, y, record.value);
      assert forall i :: 0 <= i < x ==> (row + [record.value])[i] == row[i];
      row := row + [record.value];
      x := x + 1;
    }
    return Ok(cursor);
  }

  /**
   * One step of the cursor: the type id (2 or 4 bytes), the flags byte and
   * the variant byte, each read only if the bytes hold it, then the check
   * of the type id against the tile map.
   */
  method ReadRecord(bytes: seq<Byte>, idx: nat, version: int, tileMap: map<int, string>)
    returns (r: Result<Tile, DecodeError>, next: nat)
    ensures r == DecodeRecord(bytes, idx, version, tileMap)
    ensures r.Ok? ==> next == idx + RecordWidth(version)
  {
    next := idx;
    var idWidth := if version < 6 then 2 else 4;
    if next + idWidth > |bytes| {
      return Err(TruncatedTiles), next;
    }
    var tileId := FromLittleEndian(bytes[next..next + idWidth]);
    next := next + idWidth;
    if next + 1 > |bytes| {
      return Err(TruncatedTiles), next;
    }
    var flags := bytes[next];
    next := next + 1;
    if next + 1 > |bytes| {
      return Err(TruncatedTiles), next;
    }
    var variant := bytes[next];
    next := next + 1;
    if tileId !in tileMap {
      return Err(UnknownTileId(tileId)), next;
    }
    return Ok(Tile(tileId, flags, variant)), next;
  }

  // ---------------------------------------------------------------------------
  // Encoding
  // ---------------------------------------------------------------------------

  /** What goes wrong when encoding: `struct.pack("<I")` or `bytearray.append` rejects a value. */
  datatype EncodeError =
    | TypeIdOutOfRange(id: int)  // outside [0, 2^32) (struct.error)
    | ByteOutOfRange(value: int) // a flags or variant value outside [0, 256) (ValueError)

  predicate Encodable(t: Tile)
  {
    0 <= t.typeId < Pow256(4) && IsByte(t.flags) && IsByte(t.variant)
  }

  /** One record: the 4-byte little-endian type id, the flags byte, the variant byte. */
  function EncodeTile(t: Tile): (r: Result<seq<Byte>, EncodeError>)
    ensures r.Ok? <==> Encodable(t)
    ensures r.Ok? ==> |r.value| == 6
  {
    if !(0 <= t.typeId < Pow256(4)) then Err(TypeIdOutOfRange(t.typeId))
    else if !IsByte(t.flags) then Err(ByteOutOfRange(t.flags))
    else if !IsByte(t.variant) then Err(ByteOutOfRange(t.variant))
    else Ok(ToLittleEndian(t.typeId, 4) + [t.flags, t.variant])
  }

  /** The records of the first `count` tiles of a row, in order; the first tile that cannot be written fails. */
  function EncodeRow(row: seq<Tile>, count: nat): (r: Result<seq<Byte>, EncodeError>)
    requires count <= |row|
    ensures r.Ok? <==> forall i :: 0 <= i < count ==> Encodable(row[i])
    ensures r.Ok? ==> |r.value| == 6 * count
  {
    if count == 0 then Ok([])
    else match EncodeRow(row, count - 1)
      case Err(e) => Err(e)
      case Ok(bytes) =>
        match EncodeTile(row[count - 1])
        case Err(e) => Err(e)
        case Ok(record) => Ok(bytes + record)
  }

  /** The records of the first `rows` rows, row after row. */
  function EncodeGrid(grid: seq<seq<Tile>>, rows: nat): (r: Result<seq<Byte>, EncodeError>)
    requires rows <= |grid|
    ensures r.Ok? <==> forall j, i :: 0 <= j < rows && 0 <= i < |grid[j]| ==> Encodable(grid[j][i])
  {
    if rows == 0 then Ok([])
    else match EncodeGrid(grid, rows - 1)
      case Err(e) => Err(e)
      case Ok(bytes) =>
        match EncodeRow(grid[rows - 1], |grid[rows - 1]|)
        case Err(e) => Err(e)
        case Ok(record) => Ok(bytes + record)
  }

  /** A square grid encodes to exactly six bytes per tile. */
  lemma {:induction false} EncodedLength(grid: seq<seq<Tile>>, rows: nat, size: nat)
    requires IsSquare(grid, size) && rows <= size
    requires EncodeGrid(grid, rows).Ok?
    ensures |EncodeGrid(grid, rows).value| == 6 * size * rows
  {
    if rows > 0 {
      EncodedLength(grid, rows - 1, size);
      assert 6 * size * rows == 6 * size * (rows - 1) + 6 * size;
    }
  }

  /** Row-major layout within a row: tile `i` is the record at bytes [6i, 6i + 6). */
  lemma {:induction false} RowLayout(row: seq<Tile>, count: nat, i: nat)
    requires count <= |row| && i < count
    requires EncodeRow(row, count).Ok?
    ensures EncodeRow(row, count).value[6 * i..6 * i + 6] == EncodeTile(row[i]).value
  {
    var prefix := EncodeRow(row, count - 1).value;
    var last := EncodeTile(row[count - 1]).value;
    assert EncodeRow(row, count).value == prefix + last;
    if i < count - 1 {
      RowLayout(row, count - 1, i);
      ConcatSliceLeft(prefix, last, 6 * i, 6 * i + 6);
    } else {
      assert |prefix| == 6 * i;
      assert (prefix + last)[|prefix|..|prefix| + |last|] == last;
    }
  }

  /** Row-major layout across rows: the records of row `j` start after the `j` earlier rows. */
  lemma GridLayout(grid: seq<seq<Tile>>, rows: nat, size: nat, j: nat)
    requires IsSquare(grid, size) && rows <= size && j < rows
    requires EncodeGrid(grid, rows).Ok?
    ensures 6 * size * j + 6 * size <= |EncodeGrid(grid, rows).value|
    ensures EncodeGrid(grid, rows).value[6 * size * j..6 * size * j + 6 * size] == EncodeRow(grid[j], size).value
  {
    GridLayoutAfter(grid, rows, size, j);
    EncodedLength(grid, j, size);
  }

  /** The records of row `j` follow those of the `j` rows before it, whatever rows come after. */
  lemma {:induction false} GridLayoutAfter(grid: seq<seq<Tile>>, rows: nat, size: nat, j: nat)
    requires IsSquare(grid, size) && rows <= size && j < rows
    requires EncodeGrid(grid, rows).Ok?
    ensures EncodeGrid(grid, j).Ok?
    ensures |EncodeGrid(grid, j).value| + 6 * size <= |EncodeGrid(grid, rows).value|
    ensures EncodeGrid(grid, rows).value[|EncodeGrid(grid, j).value|..|EncodeGrid(grid, j).value| + 6 * size]
         == EncodeRow(grid[j], size).value
  {
    if rows == j + 1 {
      GridLayoutLast(grid, j, size);
    } else {
      var r := rows - 1;
      EncodeGridOkBelow(grid, r, rows);
      GridLayoutAfter(grid, r, size, j);
      GridLayoutStep(grid, r, size, j, |EncodeGrid(grid, j).value|, 6 * size);
    }
  }

  /** The first `r` rows can be written when the first `rows` can. */
  lemma EncodeGridOkBelow(grid: seq<seq<Tile>>, r: nat, rows: nat)
    requires r <= rows <= |grid| && EncodeGrid(grid, rows).Ok?
    ensures EncodeGrid(grid, r).Ok?
  {
  }

  /** The records of row `j` come right after those of the `j` rows before it. */
  lemma GridLayoutLast(grid: seq<seq<Tile>>, j: nat, size: nat)
    requires IsSquare(grid, size) && j < size
    requires EncodeGrid(grid, j + 1).Ok?
    ensures EncodeGrid(grid, j).Ok?
    ensures |EncodeGrid(grid, j).value| + 6 * size <= |EncodeGrid(grid, j + 1).value|
    ensures EncodeGrid(grid, j + 1).value[|EncodeGrid(grid, j).value|..|EncodeGrid(grid, j).value| + 6 * size]
         == EncodeRow(grid[j], size).value
  {
    EncodeGridStep(grid, j + 1, size);
    var prefix := EncodeGrid(grid, j).value;
    var last := EncodeRow(grid[j], size).value;
    assert (prefix + last)[|prefix|..|prefix| + |last|] == last;
  }

  /** Adding row `r` after the others leaves where an earlier row's records sit. */
  lemma GridLayoutStep(grid: seq<seq<Tile>>, r: nat, size: nat, j: nat, lo: nat, w: nat)
    requires IsSquare(grid, size) && j < r < size
    requires EncodeGrid(grid, r + 1).Ok? && EncodeGrid(grid, r).Ok?
    requires lo + w <= |EncodeGrid(grid, r).value|
    requires EncodeGrid(grid, r).value[lo..lo + w] == EncodeRow(grid[j], size).value
    ensures lo + w <= |EncodeGrid(grid, r + 1).value|
    ensures EncodeGrid(grid, r + 1).value[lo..lo + w] == EncodeRow(grid[j], size).value
  {
    EncodeGridStep(grid, r + 1, size);
    ConcatSliceLeft(EncodeGrid(grid, r).value, EncodeRow(grid[r], size).value, lo, lo + w);
  }

  /** A slice that ends inside the first part of a concatenation is a slice of that part. */
  lemma ConcatSliceLeft(p: seq<Byte>, q: seq<Byte>, lo: nat, hi: nat)
    requires lo <= hi <= |p|
    ensures (p + q)[lo..hi] == p[lo..hi]
  {
  }

  /** `encode_tiles`: every tile in row order appended to one byte string. */
  method EncodeTiles(chunk: MapChunk) returns (r: Result<seq<Byte>, EncodeError>)
    requires chunk.Valid()
    ensures r == EncodeGrid(chunk.Rows(), chunk.chunkSize)
  {
    ghost var grid := chunk.Rows();
    var tileBytes: seq<Byte> := [];
    var y := 0;
    while y < chunk.chunkSize
      invariant 0 <= y <= chunk.chunkSize
      invariant EncodeGrid(grid, y) == Ok(tileBytes)
    {
      var appended := AppendChunkRow(chunk, y, tileBytes);
      if appended.Err? {
        GridEncodeErrorPersists(grid, y + 1, chunk.chunkSize);
        return Err(appended.error);
      }
      tileBytes := appended.value;
      y := y + 1;
    }
    return Ok(tileBytes);
  }

  /** The inner loop of `encode_tiles` for row `y`: its records appended to the bytes so far. */
  method AppendChunkRow(chunk: MapChunk, y: nat, tileBytes: seq<Byte>) returns (r: Result<seq<Byte>, EncodeError>)
    requires chunk.Valid() && y < chunk.chunkSize
    ensures EncodeRow(chunk.Rows()[y], chunk.chunkSize).Err? ==>
      r == Err(EncodeRow(chunk.Rows()[y], chunk.chunkSize).error)
    ensures EncodeRow(chunk.Rows()[y], chunk.chunkSize).Ok? ==>
      r == Ok(tileBytes + EncodeRow(chunk.Rows()[y], chunk.chunkSize).value)
  {
    ghost var row := chunk.Rows()[y];
    var extended := tileBytes;
    var x := 0;
    while x < chunk.chunkSize
      invariant 0 <= x <= chunk.chunkSize
      invariant EncodeRow(row, x).Ok? && extended == tileBytes + EncodeRow(row, x).value
    {
      var tile := chunk.GetTile(x, y);
      var appended := AppendRecord(extended, tile);
      if appended.Err? {
        RowEncodeErrorPersists(row, x + 1, chunk.chunkSize);
        return Err(appended.error);
      }
      RowBytesExtend(row, x, tileBytes, extended);
      extended := appended.value;
      x := x + 1;
    }
    return Ok(extended);
  }

  /** Appending the record of tile `x` to the bytes of the first `x` records gives those of the first `x + 1`. */
  lemma RowBytesExtend(row: seq<Tile>, x: nat, tileBytes: seq<Byte>, extended: seq<Byte>)
    requires x < |row| && EncodeRow(row, x).Ok? && extended == tileBytes + EncodeRow(row, x).value
    requires EncodeTile(row[x]).Ok?
    ensures EncodeRow(row, x + 1).Ok?
    ensures extended + EncodeTile(row[x]).value == tileBytes + EncodeRow(row, x + 1).value
  {
    assert EncodeRow(row, x + 1) == Ok(EncodeRow(row, x).value + EncodeTile(row[x]).value);
  }

  /**
   * The body of the `encode_tiles` loop: `struct.pack("<I", type_id)`, then
   * the flags byte, then the variant byte, each rejected when out of range.
   */
  method AppendRecord(tileBytes: seq<Byte>, tile: Tile) returns (r: Result<seq<Byte>, EncodeError>)
    ensures EncodeTile(tile).Err? ==> r == Err(EncodeTile(tile).error)
    ensures EncodeTile(tile).Ok? ==> r == Ok(tileBytes + EncodeTile(tile).value)
  {
    Pow256Values();
    if !(0 <= tile.typeId < 0x1_0000_0000) {
      return Err(TypeIdOutOfRange(tile.typeId));
    }
    var extended := tileBytes + ToLittleEndian(tile.typeId, 4);
    if !IsByte(tile.flags) {
      return Err(ByteOutOfRange(tile.flags));
    }
    extended := extended + [tile.flags];
    if !IsByte(tile.variant) {
      return Err(ByteOutOfRange(tile.variant));
    }
    extended := extended + [tile.variant];
    assert extended == tileBytes + (ToLittleEndian(tile.typeId, 4) + [tile.flags, tile.variant]);
    return Ok(extended);
  }

  lemma {:induction false} RowEncodeErrorPersists(row: seq<Tile>, k: nat, n: nat)
    requires k <= n <= |row| && EncodeRow(row, k).Err?
    ensures EncodeRow(row, n) == EncodeRow(row, k)
  {
    if n > k {
      RowEncodeErrorPersists(row, k, n - 1);
    }
  }

  lemma {:induction false} GridEncodeErrorPersists(grid: seq<seq<Tile>>, k: nat, n: nat)
    requires k <= n <= |grid| && EncodeGrid(grid, k).Err?
    ensures EncodeGrid(grid, n) == EncodeGrid(grid, k)
  {
    if n > k {
      GridEncodeErrorPersists(grid, k, n - 1);
    }
  }

  /** `serialize_map_chunk` on values: the index text, the given version and the encoded tiles. */
  function SerializeGrid(x: int, y: int, grid: seq<seq<Tile>>, version: int): Result<ChunkNode, EncodeError>
  {
    match EncodeGrid(grid, |grid|)
    case Err(e) => Err(e)
    case Ok(bytes) => Ok(ChunkNode(FormatInd(x, y), bytes, Some(version)))
  }

  method SerializeMapChunk(chunk: MapChunk, version: int) returns (r: Result<ChunkNode, EncodeError>)
    requires chunk.Valid()
    ensures r == SerializeGrid(chunk.x, chunk.y, chunk.Rows(), version)
  {
    var tiles := EncodeTiles(chunk);
    if tiles.Err? {
      return Err(tiles.error);
    }
    return Ok(ChunkNode(FormatInd(chunk.x, chunk.y), tiles.value, Some(version)));
  }

  // ---------------------------------------------------------------------------
  // Round trip
  // ---------------------------------------------------------------------------

  /** A six-byte record written for a known tile reads back as that tile under the version-6 layout. */
  lemma RecordRoundTrip(bytes: seq<Byte>, at: nat, t: Tile, version: int, tileMap: map<int, string>)
    requires version >= 6 && Encodable(t) && t.typeId in tileMap
    requires at + 6 <= |bytes| && bytes[at..at + 6] == EncodeTile(t).value
    ensures DecodeRecord(bytes, at, version, tileMap) == Ok(t)
  {
    assert bytes[at..at + 4] == ToLittleEndian(t.typeId, 4) by {
      assert bytes[at..at + 4] == bytes[at..at + 6][..4];
    }
    LittleEndianRoundTrip(t.typeId, 4);
    assert bytes[at + 4] == bytes[at..at + 6][4];
    assert bytes[at + 5] == bytes[at..at + 6][5];
  }

  lemma {:induction false} RowRoundTrip(bytes: seq<Byte>, at: nat, row: seq<Tile>, count: nat, version: int, tileMap: map<int, string>)
    requires version >= 6 && count <= |row|
    requires forall i :: 0 <= i < count ==> Encodable(row[i]) && row[i].typeId in tileMap
    requires at + 6 * count <= |bytes| && bytes[at..at + 6 * count] == EncodeRow(row, count).value
    ensures DecodeRow(bytes, at, count, version, tileMap) == Ok((row[..count], at + 6 * count))
  {
    if count > 0 {
      RowBytesSplit(bytes, at, row, count);
      RowRoundTrip(bytes, at, row, count - 1, version, tileMap);
      var next := at + 6 * (count - 1);
      RecordRoundTrip(bytes, next, row[count - 1], version, tileMap);
      DecodeRowStep(bytes, at, count, version, tileMap, row, next);
    } else {
      assert row[..0] == [];
      assert DecodeRow(bytes, at, count, version, tileMap) == Ok((row[..count], at + 6 * count));
    }
  }

  /** A row decoded so far grows by the record at its end offset. */
  lemma DecodeRowExtend(bytes: seq<Byte>, at: nat, count: nat, version: int, tileMap: map<int, string>,
                        front: seq<Tile>, next: nat, last: Tile)
    requires count > 0
    requires DecodeRow(bytes, at, count - 1, version, tileMap) == Ok((front, next))
    requires DecodeRecord(bytes, next, version, tileMap) == Ok(last)
    ensures DecodeRow(bytes, at, count, version, tileMap) == Ok((front + [last], next + RecordWidth(version)))
  {
  }

  /** Decoding `count` records is decoding `count - 1`, then one more record after them. */
  lemma DecodeRowStep(bytes: seq<Byte>, at: nat, count: nat, version: int, tileMap: map<int, string>,
                      row: seq<Tile>, next: nat)
    requires version >= 6 && 0 < count <= |row|
    requires DecodeRow(bytes, at, count - 1, version, tileMap) == Ok((row[..count - 1], next))
    requires DecodeRecord(bytes, next, version, tileMap) == Ok(row[count - 1])
    ensures DecodeRow(bytes, at, count, version, tileMap) == Ok((row[..count], next + 6))
  {
    assert row[..count - 1] + [row[count - 1]] == row[..count];
  }

  /** The bytes of the first `count` records: those of the first `count - 1`, then the last record's six. */
  lemma RowBytesSplit(bytes: seq<Byte>, at: nat, row: seq<Tile>, count: nat)
    requires 0 < count <= |row| && EncodeRow(row, count).Ok?
    requires at + 6 * count <= |bytes| && bytes[at..at + 6 * count] == EncodeRow(row, count).value
    ensures EncodeRow(row, count - 1).Ok? && bytes[at..at + 6 * (count - 1)] == EncodeRow(row, count - 1).value
    ensures EncodeTile(row[count - 1]).Ok?
    ensures bytes[at + 6 * (count - 1)..at + 6 * count] == EncodeTile(row[count - 1]).value
  {
    var whole := bytes[at..at + 6 * count];
    assert whole == EncodeRow(row, count - 1).value + EncodeTile(row[count - 1]).value;
    assert bytes[at..at + 6 * (count - 1)] == whole[..6 * (count - 1)];
    assert bytes[at + 6 * (count - 1)..at + 6 * count] == whole[6 * (count - 1)..];
  }

  lemma {:induction false} GridRoundTrip(bytes: seq<Byte>, grid: seq<seq<Tile>>, rows: nat, size: nat, version: int, tileMap: map<int, string>)
    requires version >= 6 && IsSquare(grid, size) && rows <= size
    requires forall j, i :: 0 <= j < size && 0 <= i < size ==> Encodable(grid[j][i]) && grid[j][i].typeId in tileMap
    requires EncodeGrid(grid, rows).Ok?
    requires |EncodeGrid(grid, rows).value| <= |bytes| && bytes[..|EncodeGrid(grid, rows).value|] == EncodeGrid(grid, rows).value
    ensures DecodeGrid(bytes, rows, size, version, tileMap) == Ok((grid[..rows], |EncodeGrid(grid, rows).value|))
  {
    var r := 0;
    while r < rows
      invariant r <= rows
      invariant DecodeGrid(bytes, r, size, version, tileMap) == Ok((grid[..r], |EncodeGrid(grid, r).value|))
    {
      EncodeGridPrefix(grid, r + 1, rows);
      PrefixOfPrefix(bytes, EncodeGrid(grid, r + 1).value, EncodeGrid(grid, rows).value);
      GridRoundTripStep(bytes, grid, r + 1, size, version, tileMap);
      r := r + 1;
    }
  }

  /** The records of the first `r` rows start the records of the first `rows` rows. */
  lemma {:induction false} EncodeGridPrefix(grid: seq<seq<Tile>>, r: nat, rows: nat)
    requires r <= rows <= |grid| && EncodeGrid(grid, rows).Ok?
    ensures EncodeGrid(grid, r).Ok? && EncodeGrid(grid, r).value <= EncodeGrid(grid, rows).value
  {
    if r < rows {
      EncodeGridPrefix(grid, r, rows - 1);
    }
  }

  lemma PrefixOfPrefix(bytes: seq<Byte>, a: seq<Byte>, b: seq<Byte>)
    requires a <= b && |b| <= |bytes| && bytes[..|b|] == b
    ensures |a| <= |bytes| && bytes[..|a|] == a
  {
    assert bytes[..|a|] == bytes[..|b|][..|a|];
  }

  /** The records of the first `rows` rows: those of the first `rows - 1`, then those of the last. */
  lemma EncodeGridStep(grid: seq<seq<Tile>>, rows: nat, size: nat)
    requires 0 < rows <= |grid| && |grid[rows - 1]| == size && EncodeGrid(grid, rows).Ok?
    ensures EncodeGrid(grid, rows - 1).Ok? && EncodeRow(grid[rows - 1], size).Ok?
    ensures EncodeGrid(grid, rows).value == EncodeGrid(grid, rows - 1).value + EncodeRow(grid[rows - 1], size).value
  {
  }

  lemma SliceOfConcat(bytes: seq<Byte>, p: seq<Byte>, q: seq<Byte>)
    requires |p + q| <= |bytes| && bytes[..|p + q|] == p + q
    ensures |p| + |q| <= |bytes| && bytes[|p|..|p| + |q|] == q
  {
    assert bytes[|p|..|p| + |q|] == (p + q)[|p|..];
  }

  /** With the first `rows - 1` rows read back, the next row reads back too. */
  lemma GridRoundTripStep(bytes: seq<Byte>, grid: seq<seq<Tile>>, rows: nat, size: nat, version: int, tileMap: map<int, string>)
    requires version >= 6 && IsSquare(grid, size) && 0 < rows <= size
    requires forall j, i :: 0 <= j < size && 0 <= i < size ==> Encodable(grid[j][i]) && grid[j][i].typeId in tileMap
    requires EncodeGrid(grid, rows).Ok?
    requires |EncodeGrid(grid, rows).value| <= |bytes| && bytes[..|EncodeGrid(grid, rows).value|] == EncodeGrid(grid, rows).value
    requires DecodeGrid(bytes, rows - 1, size, version, tileMap) == Ok((grid[..rows - 1], |EncodeGrid(grid, rows - 1).value|))
    ensures DecodeGrid(bytes, rows, size, version, tileMap) == Ok((grid[..rows], |EncodeGrid(grid, rows).value|))
  {
    LastRowBytes(bytes, grid, rows, size);
    var at := |EncodeGrid(grid, rows - 1).value|;
    LastRowDecodes(bytes, at, grid[rows - 1], size, version, tileMap);
    DecodeGridExtend(bytes, rows, size, version, tileMap, grid, at, at + 6 * size);
  }

  /** Where the records of row `rows - 1` sit in the bytes of the first `rows` rows. */
  lemma LastRowBytes(bytes: seq<Byte>, grid: seq<seq<Tile>>, rows: nat, size: nat)
    requires IsSquare(grid, size) && 0 < rows <= size
    requires EncodeGrid(grid, rows).Ok?
    requires |EncodeGrid(grid, rows).value| <= |bytes| && bytes[..|EncodeGrid(grid, rows).value|] == EncodeGrid(grid, rows).value
    ensures EncodeGrid(grid, rows - 1).Ok? && EncodeRow(grid[rows - 1], size).Ok?
    ensures |EncodeGrid(grid, rows).value| == |EncodeGrid(grid, rows - 1).value| + 6 * size
    ensures bytes[|EncodeGrid(grid, rows - 1).value|..|EncodeGrid(grid, rows - 1).value| + 6 * size]
         == EncodeRow(grid[rows - 1], size).value
  {
    EncodeGridStep(grid, rows, size);
    SliceOfConcat(bytes, EncodeGrid(grid, rows - 1).value, EncodeRow(grid[rows - 1], size).value);
  }

  /** Decoding `rows` rows is decoding `rows - 1`, then one more row after them. */
  lemma DecodeGridExtend(bytes: seq<Byte>, rows: nat, size: nat, version: int, tileMap: map<int, string>,
                         grid: seq<seq<Tile>>, next: nat, after: nat)
    requires 0 < rows <= |grid|
    requires DecodeGrid(bytes, rows - 1, size, version, tileMap) == Ok((grid[..rows - 1], next))
    requires DecodeRow(bytes, next, size, version, tileMap) == Ok((grid[rows - 1], after))
    ensures DecodeGrid(bytes, rows, size, version, tileMap) == Ok((grid[..rows], after))
  {
    assert grid[..rows - 1] + [grid[rows - 1]] == grid[..rows];
  }

  /** A whole row of `size` known tiles, written at `at`, reads back as itself. */
  lemma LastRowDecodes(bytes: seq<Byte>, at: nat, row: seq<Tile>, size: nat, version: int, tileMap: map<int, string>)
    requires version >= 6 && |row| == size
    requires forall i :: 0 <= i < size ==> Encodable(row[i]) && row[i].typeId in tileMap
    requires at + 6 * size <= |bytes| && bytes[at..at + 6 * size] == EncodeRow(row, size).value
    ensures DecodeRow(bytes, at, size, version, tileMap) == Ok((row, at + 6 * size))
  {
    RowRoundTrip(bytes, at, row, size, version, tileMap);
    assert row[..size] == row;
  }


  /**
   * Serializing a chunk whose tiles can be written and are all known, with a
   * version of 6 or more, and deserializing the node gives the same index
   * and the same tiles.
   */
  lemma SerializeRoundTrip(x: int, y: int, grid: seq<seq<Tile>>, size: nat, version: int, tileMap: map<int, string>)
    requires version >= 6 && IsSquare(grid, size)
    requires forall j, i :: 0 <= j < size && 0 <= i < size ==> Encodable(grid[j][i]) && grid[j][i].typeId in tileMap
    ensures SerializeGrid(x, y, grid, version).Ok?
    ensures DecodeChunk(SerializeGrid(x, y, grid, version).value, tileMap, size) == Ok(DecodedChunk(x, y, grid))
  {
    var bytes := EncodeGrid(grid, size).value;
    IndRoundTrip(x, y);
    GridRoundTrip(bytes, grid, size, size, version, tileMap);
    assert grid[..size] == grid;
  }

  // ---------------------------------------------------------------------------
  // Round trip from stored bytes
  // ---------------------------------------------------------------------------

  /** A record read under the version-6 layout is written back as the same six bytes. */
  lemma RecordReencodes(bytes: seq<Byte>, at: nat, version: int, tileMap: map<int, string>)
    requires version >= 6 && DecodeRecord(bytes, at, version, tileMap).Ok?
    ensures at + 6 <= |bytes|
    ensures EncodeTile(DecodeRecord(bytes, at, version, tileMap).value) == Ok(bytes[at..at + 6])
  {
    var t := DecodeRecord(bytes, at, version, tileMap).value;
    Pow256Values();
    LittleEndianInverse(bytes[at..at + 4]);
    assert bytes[at..at + 6] == bytes[at..at + 4] + [bytes[at + 4], bytes[at + 5]];
  }

  /** Writing a row reads only its first `k` tiles. */
  lemma {:induction false} EncodeRowAgree(a: seq<Tile>, b: seq<Tile>, k: nat)
    requires k <= |a| && k <= |b| && a[..k] == b[..k]
    ensures EncodeRow(a, k) == EncodeRow(b, k)
  {
    if k > 0 {
      assert a[..k - 1] == b[..k - 1] by {
        assert a[..k - 1] == a[..k][..k - 1];
        assert b[..k - 1] == b[..k][..k - 1];
      }
      assert a[k - 1] == a[..k][k - 1];
      assert b[k - 1] == b[..k][k - 1];
      EncodeRowAgree(a, b, k - 1);
    }
  }

  /** Writing a grid reads only its first `rows` rows. */
  lemma {:induction false} EncodeGridAgree(a: seq<seq<Tile>>, b: seq<seq<Tile>>, rows: nat)
    requires rows <= |a| && rows <= |b| && a[..rows] == b[..rows]
    ensures EncodeGrid(a, rows) == EncodeGrid(b, rows)
  {
    if rows > 0 {
      assert a[..rows - 1] == b[..rows - 1] by {
        assert a[..rows - 1] == a[..rows][..rows - 1];
        assert b[..rows - 1] == b[..rows][..rows - 1];
      }
      assert a[rows - 1] == a[..rows][rows - 1];
      assert b[rows - 1] == b[..rows][rows - 1];
      EncodeGridAgree(a, b, rows - 1);
    }
  }

  /** The records a row reads, written back, are the bytes it read them from. */
  lemma {:induction false} RowReencodes(bytes: seq<Byte>, at: nat, count: nat, version: int, tileMap: map<int, string>)
    requires version >= 6 && at <= |bytes| && DecodeRow(bytes, at, count, version, tileMap).Ok?
    ensures var (row, end) := DecodeRow(bytes, at, count, version, tileMap).value;
      end <= |bytes| && EncodeRow(row, count) == Ok(bytes[at..end])
  {
    if count > 0 {
      var front := DecodeRow(bytes, at, count - 1, version, tileMap).value.0;
      var next := at + 6 * (count - 1);
      var tile := DecodeRecord(bytes, next, version, tileMap).value;
      var row := DecodeRow(bytes, at, count, version, tileMap).value.0;
      assert row == front + [tile];
      RowReencodes(bytes, at, count - 1, version, tileMap);
      RecordReencodes(bytes, next, version, tileMap);
      assert row[..count - 1] == front[..count - 1];
      EncodeRowAgree(row, front, count - 1);
      assert row[count - 1] == tile;
      assert bytes[at..at + 6 * count] == bytes[at..next] + bytes[next..next + 6];
      assert EncodeRow(row, count - 1) == Ok(bytes[at..next]);
      assert EncodeTile(row[count - 1]) == Ok(bytes[next..next + 6]);
    } else {
      assert bytes[at..at] == [];
    }
  }

  /** One more row read back: the grid's bytes grow by that row's bytes. */
  lemma GridReencodesStep(bytes: seq<Byte>, rows: nat, front: seq<seq<Tile>>, row: seq<Tile>, next: nat, after: nat)
    requires rows > 0 && |front| == rows - 1 && next <= after <= |bytes|
    requires EncodeGrid(front, rows - 1) == Ok(bytes[..next])
    requires EncodeRow(row, |row|) == Ok(bytes[next..after])
    ensures EncodeGrid(front + [row], rows) == Ok(bytes[..after])
  {
    var grid := front + [row];
    assert grid[..rows - 1] == front[..rows - 1];
    EncodeGridAgree(grid, front, rows - 1);
    assert grid[rows - 1] == row;
    assert bytes[..after] == bytes[..next] + bytes[next..after];
  }

  /** A grid read in full is the grid of one row fewer, then one more row. */
  lemma DecodeGridUnfold(bytes: seq<Byte>, rows: nat, size: nat, version: int, tileMap: map<int, string>)
    requires rows > 0 && DecodeGrid(bytes, rows, size, version, tileMap).Ok?
    ensures DecodeGrid(bytes, rows - 1, size, version, tileMap).Ok?
    ensures var next := DecodeGrid(bytes, rows - 1, size, version, tileMap).value.1;
      && DecodeRow(bytes, next, size, version, tileMap).Ok?
      && DecodeGrid(bytes, rows, size, version, tileMap).value ==
           (DecodeGrid(bytes, rows - 1, size, version, tileMap).value.0 + [DecodeRow(bytes, next, size, version, tileMap).value.0],
            DecodeRow(bytes, next, size, version, tileMap).value.1)
  {
  }

  /** The rows a grid reads, written back, are the bytes it read them from. */
  lemma {:induction false} GridReencodes(bytes: seq<Byte>, rows: nat, size: nat, version: int, tileMap: map<int, string>)
    requires version >= 6 && DecodeGrid(bytes, rows, size, version, tileMap).Ok?
    ensures EncodeGrid(DecodeGrid(bytes, rows, size, version, tileMap).value.0, rows)
            == Ok(bytes[..DecodeGrid(bytes, rows, size, version, tileMap).value.1])
  {
    if rows > 0 {
      DecodeGridUnfold(bytes, rows, size, version, tileMap);
      var front := DecodeGrid(bytes, rows - 1, size, version, tileMap).value.0;
      var next := DecodeGrid(bytes, rows - 1, size, version, tileMap).value.1;
      var row := DecodeRow(bytes, next, size, version, tileMap).value.0;
      var after := DecodeRow(bytes, next, size, version, tileMap).value.1;
      GridReencodes(bytes, rows - 1, size, version, tileMap);
      RowReencodes(bytes, next, size, version, tileMap);
      GridReencodesStep(bytes, rows, front, row, next, after);
    }
  }

  /**
   * Deserializing a stored node with a version of 6 or more and serializing
   * the chunk again writes back the first 6 · size² bytes of the node's
   * tiles; when the node holds no bytes beyond them, the tiles are equal.
   */
  lemma DecodeReencodes(node: ChunkNode, tileMap: map<int, string>, size: nat)
    requires VersionOf(node) >= 6 && DecodeChunk(node, tileMap, size).Ok?
    ensures 6 * size * size <= |node.tiles|
    ensures var c := DecodeChunk(node, tileMap, size).value;
      && EncodeGrid(c.grid, size) == Ok(node.tiles[..6 * size * size])
      && SerializeGrid(c.x, c.y, c.grid, VersionOf(node)).Ok?
      && (|node.tiles| == 6 * size * size ==> SerializeGrid(c.x, c.y, c.grid, VersionOf(node)).value.tiles == node.tiles)
  {
    var c := DecodeChunk(node, tileMap, size).value;
    var end := DecodeGrid(node.tiles, size, size, VersionOf(node), tileMap).value.1;
    GridReencodes(node.tiles, size, size, VersionOf(node), tileMap);
    EncodedLength(c.grid, size, size);
    assert |c.grid| == size;
  }

  /**
   * The node records the version it is given, but the records are always
   * written in the version-6 layout: a node labelled version 5 reads a
   * one-tile chunk's flags from the high bytes of its type id.
   */
  lemma OldVersionLabelMisreads()
    ensures var node := SerializeGrid(0, 0, [[Tile(1, 7, 0)]], 5);
      && node.Ok?
      && DecodeChunk(node.value, map[1 := "Space"], 1) == Ok(DecodedChunk(0, 0, [[Tile(1, 0, 0)]]))
  {
    var bytes: seq<Byte> := [1, 0, 0, 0, 7, 0];
    OneTileEncoding();
    OneRecordVersion5(bytes);
    IndRoundTrip(0, 0);
  }

  lemma OneTileEncoding()
    ensures SerializeGrid(0, 0, [[Tile(1, 7, 0)]], 5) == Ok(ChunkNode(FormatInd(0, 0), [1, 0, 0, 0, 7, 0], Some(5)))
  {
    Pow256Values();
    var tile := Tile(1, 7, 0);
    var bytes: seq<Byte> := [1, 0, 0, 0, 7, 0];
    assert ToLittleEndian(1, 4) == [1, 0, 0, 0] by {
      assert ToLittleEndian(0, 1) == [0];
      assert ToLittleEndian(0, 2) == [0, 0];
      assert ToLittleEndian(0, 3) == [0, 0, 0];
    }
    assert ToLittleEndian(1, 4) + [7, 0] == bytes;
    assert EncodeTile(tile) == Ok(bytes);
    assert [] + bytes == bytes;
    assert EncodeRow([tile], 1) == Ok(bytes);
    assert EncodeGrid([[tile]], 1) == Ok(bytes);
  }

  lemma OneRecordVersion5(bytes: seq<Byte>)
    requires bytes == [1, 0, 0, 0, 7, 0]
    ensures DecodeGrid(bytes, 1, 1, 5, map[1 := "Space"]) == Ok(([[Tile(1, 0, 0)]], 4))
  {
    var tileMap := map[1 := "Space"];
    assert bytes[0..2] == [1, 0];
    assert FromLittleEndian([1, 0]) == 1 by {
      assert FromLittleEndian([0]) == 0;
    }
    assert DecodeRecord(bytes, 0, 5, tileMap) == Ok(Tile(1, 0, 0));
    assert [] + [Tile(1, 0, 0)] == [Tile(1, 0, 0)];
    assert DecodeRow(bytes, 0, 1, 5, tileMap) == Ok(([Tile(1, 0, 0)], 4));
    assert [] + [[Tile(1, 0, 0)]] == [[Tile(1, 0, 0)]];
  }
}
