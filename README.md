# Civ14 world simulation and map tools — a Dafny model

This project models the core of the Civ14 game content in Dafny and proves properties of it. The core has two parts:

- the server systems that keep a map's world alive:
  - weather and seasons;
  - campfires;
  - respawning spawners;
  - digging soil;
  - cutting grass for straw.
- the Python tools that build and read the map files:
  - the chunk tile codec;
  - map generation: erosion, chunking, the atmosphere layout and entity placement.

Each source file becomes one module:

| module | models |
|---|---|
| `WeatherNomads` | `WeatherNomadsSystem.cs`: the weather catalog, the enabled list, the season cycle, the weather rotation and the temperature given to tiles open to the sky. |
| `TileCodec` | `mapDeserializer.py`: tiles, the `MapChunk` class, the `"x,y"` chunk index text, and the tile record bytes (read and written). |
| `MapGrid`, `MapErosion`, `MapOutput`, `MapEntities` | `mapGeneration.py`: the helpers, erosion, chunk and atmosphere output, and dynamic entity placement. |
| `GrillFuelBurn` | `GrillFuelBurnSystem.cs`: campfire fuel, lighting, burn-time countdown and heater setting. |
| `RespawnableSpawner` | `RespawnableSpawnerSystem.cs`. |
| `Digging` | `DiggingSystem.cs`. |
| `StrawCollector` | `StrawCollectorSystem.cs`. |

`MapTiles` is the tile grid and spawn record shared by digging and straw collection. `Wrappers`, `HostRandom` and `Arith` are small support modules:
- `Option` and `Result`;
- the values a host random draw can take;
- integer lemmas.

How the source's state is modelled:
- Code that updates state in place is written as classes whose methods carry `modifies` clauses:
  - components and systems;
  - `MapChunk`;
  - the uid counter;
  - the tile grid.
- Each such method is proved against a specification function of the old state.
- Pure helpers become functions, and their promises are lemmas.
- Random draws, the clock and host services (spawning, lookups, whether a delayed action starts) are parameters of the operations.
- Times and temperatures are reals, without float rounding.

Map init has a branch that never runs. `OnMapInit` (Content.Server/Weather/WeatherNomadsSystem.cs:249-266) starts the weather only when the enabled list is non-empty, and otherwise logs the warning "No valid weather types enabled". The catalog's "None" entry (prototype id `""`) always passes the filter, so the list is never empty and the warning branch cannot be taken. Map init therefore always sets the current weather to `""`. `WeatherNomads.EnabledList` proves the list is never empty and starts with that entry, so the model has no warning branch.

## Model

| member | source | states |
|---|---|---|
| `WeatherNomads.CatalogWellFormed` | Content.Server/Weather/WeatherNomadsSystem.cs:48-58 | Every catalog kind has min ≤ max temperature. The weights are distinct and ascending in declaration order. The first kind is "None" with prototype id "". |
| `WeatherNomads.FilterEnabled` | Content.Server/Weather/WeatherNomadsSystem.cs:244-247 | The `Where` filter keeps exactly the kinds whose id is enabled, plus the "" kind. When the first kind is kept, it stays in front. |
| `WeatherNomads.FilterKeepsOrder` | Content.Server/Weather/WeatherNomadsSystem.cs:244-247 | Filtering a weight-sorted list gives a weight-sorted list, so the `OrderBy` after the `Where` does not reorder the catalog. |
| `WeatherNomads.EnabledList` | Content.Server/Weather/WeatherNomadsSystem.cs:244-247 | The enabled list is never empty and starts with the None kind (id ""). It holds exactly the enabled kinds, sorted by weight, with no prototype id twice. |
| `WeatherNomads.FindKind` | Content.Server/Weather/WeatherNomadsSystem.cs:306 | `FirstOrDefault` by prototype id returns a catalog member with that id, or nothing when no member has it. |
| `WeatherNomads.IndexOf` | Content.Server/Weather/WeatherNomadsSystem.cs:313 | `IndexOf` returns the first position holding the kind, or -1 (None) exactly when the kind is absent. |
| `WeatherNomads.NextSeason` | Content.Server/Weather/WeatherNomadsSystem.cs:471-481 | The next season is always one of the four seasons. |
| `WeatherNomads.SeasonCycle` | Content.Server/Weather/WeatherNomadsSystem.cs:471-481 | Spring is followed by Summer. From any season, four steps visit all four seasons and return to it, and each step changes the season. Any other string goes to Spring. |
| `WeatherNomads.NextIndex` | Content.Server/Weather/WeatherNomadsSystem.cs:320 | The next index is `(i + 1) % n` and lies within the list. |
| `WeatherNomads.NextWeather` | Content.Server/Weather/WeatherNomadsSystem.cs:298-321 | A switch happens exactly when the current id is in the enabled list. The new weather is the entry after it, wrapping round. |
| `WeatherNomads.NextWeatherEnabled` | Content.Server/Weather/WeatherNomadsSystem.cs:298-321 | Every switch lands on an id whose catalog lookup finds an enabled kind of the list. |
| `WeatherNomads.RoundRobin` | Content.Server/Weather/WeatherNomadsSystem.cs:319-321 | Starting from the first enabled kind, k switches give the (k mod n)-th kind. |
| `WeatherNomads.DefaultWeatherNeverSwitches` | Content.Shared/Weather/WeatherNomadsComponent.cs:19 | The component default "None" matches no prototype id, so the rotation never leaves it. |
| `WeatherNomads.DrawTemperature` | Content.Server/Weather/WeatherNomadsSystem.cs:363 | The drawn temperature lies in the kind's band [min, max], and below max when the band is wider than a point. |
| `WeatherNomads.FindKindOfMember` | Content.Server/Weather/WeatherNomadsSystem.cs:306 | In the catalog, looking a member up by its prototype id finds that member. |
| `WeatherNomads.NoneKindTemperature` | Content.Server/Weather/WeatherNomadsSystem.cs:49 | The None kind always gives 293.15 K, whatever the draw. |
| `WeatherNomads.CanWeatherAffect` | Content.Server/Weather/WeatherNomadsSystem.cs:428-452 | A tile is affected when it is empty (even if roofed). Otherwise it is affected when it is not roofed, its definition allows weather, and no anchored entity blocks weather. |
| `WeatherNomads.SetGridTemperature` | Content.Server/Weather/WeatherNomadsSystem.cs:378-421 | Exposed tiles with mutable air get the temperature. Immutable air, tiles without air, and unexposed tiles are unchanged. |
| `WeatherNomads.PropagationEffect` | Content.Server/Weather/WeatherNomadsSystem.cs:378-421 | Only exposed tiles with mutable air get the temperature. No tile gains or loses its mixture or its mutability. Writing the same temperature twice changes nothing more, and a grid without atmosphere is untouched. |
| `WeatherNomads.SeasonStep` | Content.Server/Weather/WeatherNomadsSystem.cs:279-290 | Before the season timer is due nothing changes. Once it is due, the season moves to its successor and the timer is rearmed 45 minutes later. The change is announced once. |
| `WeatherNomads.WeatherStepEffect` | Content.Server/Weather/WeatherNomadsSystem.cs:298-365 | A due switch without a successor changes nothing. Otherwise the map gets an enabled catalog kind, the timer is rearmed and that kind is shown. Every tile that changes holds a temperature inside that kind's band. |
| `WeatherNomads.WeatherNomadsComponent.constructor` | Content.Shared/Weather/WeatherNomadsComponent.cs:9-29 | A loaded component has weather "None", season Spring and both timers at zero. |
| `WeatherNomads.WeatherNomadsSystem.SetWeatherAndTemperature` | Content.Server/Weather/WeatherNomadsSystem.cs:332-365 | An unknown weather or a missing grid changes nothing. Otherwise the kind's prototype is shown when known and one drawn temperature is propagated. |
| `WeatherNomads.WeatherNomadsSystem.OnMapInit` | Content.Server/Weather/WeatherNomadsSystem.cs:242-265 | Map init sets the weather to "" and arms the switch timer at now plus a drawn number of minutes. It arms the season timer at now + 45 min and announces the season. |
| `WeatherNomads.WeatherNomadsSystem.AdvanceSeason` | Content.Server/Weather/WeatherNomadsSystem.cs:279-290 | The season steps, rearms and is announced exactly when now ≥ NextSeasonChange. Otherwise nothing changes. |
| `WeatherNomads.WeatherNomadsSystem.SwitchWeather` | Content.Server/Weather/WeatherNomadsSystem.cs:298-325 | The weather becomes `NextWeather`, the timer is rearmed and the temperature is propagated. When the current weather is unknown or not enabled, nothing changes. |
| `WeatherNomads.WeatherNomadsSystem.Tick` | Content.Server/Weather/WeatherNomadsSystem.cs:272-327 | The season step runs independently of the weather step. Before NextSwitchTime, or for a weather not in the list, the weather state is unchanged. Otherwise it rotates. |
| `TileCodec.SameTile` | mapDeserializer.py:15-20 | Tile equality holds exactly when type id, flags and variant are all equal. |
| `TileCodec.LittleEndianRoundTrip` | mapDeserializer.py:53-56 | Reading back a k-byte little-endian encoding of n < 256^k gives n. |
| `TileCodec.LittleEndianInverse` | mapDeserializer.py:53-56 | Encoding the value of any byte string in its own width gives the same bytes. |
| `TileCodec.IntRoundTrip` | mapDeserializer.py:43 | `int()` of the decimal text of any integer gives that integer. |
| `TileCodec.ParsePieces` | mapDeserializer.py:43 | Parsing the pieces succeeds exactly when every piece is an integer, and it gives their values in order. |
| `TileCodec.IndRoundTrip` | mapDeserializer.py:43 | Splitting `"x,y"` at commas and parsing the pieces gives back (x, y). |
| `TileCodec.MapChunk.constructor` | mapDeserializer.py:23-28 | A new chunk is chunk_size × chunk_size, every cell Tile(0, 0, 0). |
| `TileCodec.MapChunk.SetTile` | mapDeserializer.py:33-34 | `set_tile(x, y, t)` makes cell (y, x) equal to t and leaves every other cell unchanged. |
| `TileCodec.MapChunk.GetTile` | mapDeserializer.py:36-37 | `get_tile(x, y)` returns row y, column x. |
| `TileCodec.DecodeRecord` | mapDeserializer.py:52-66 | A record fails as truncated exactly when fewer than its width (2 + 2 bytes before version 6, 4 + 2 from version 6 on) remain. A decoded tile has a type id known to the tile map. |
| `TileCodec.RowErrorPersists` | mapDeserializer.py:51-69 | A record that fails ends its row: reading more records gives the same error. |
| `TileCodec.DecodedRowKnown` | mapDeserializer.py:65-66 | Every tile of a decoded row has a type id known to the tile map. |
| `TileCodec.DecodeRowInto` | mapDeserializer.py:51-70 | The `x` loop sets row y to the decoded row and returns the cursor after it, or returns the first record error. Other rows are unchanged. |
| `TileCodec.DecodeGridInto` | mapDeserializer.py:50-70 | The `y` loop fills the chunk with the decoded grid, or returns the first record error. |
| `TileCodec.DecodeChunk` | mapDeserializer.py:40-71 | A decoded chunk is square of the chunk size, and every tile's type id is in the tile map. |
| `TileCodec.DecodedTilesKnown` | mapDeserializer.py:65-66 | Every tile of a decoded grid has a type id known to the tile map. |
| `TileCodec.GridErrorPersists` | mapDeserializer.py:50-66 | The first error while reading rows is the error of the whole decode. |
| `TileCodec.DeserializeMapChunk` | mapDeserializer.py:40-71 | The cursor loops fill the chunk with exactly the grid `DecodeChunk` describes, or return its error. |
| `TileCodec.EncodeTile` | mapDeserializer.py:88-90 | A tile encodes to 6 bytes exactly when its id fits 4 bytes and its flags and variant fit a byte. |
| `TileCodec.EncodeRow` | mapDeserializer.py:86-90 | A row encodes exactly when all its tiles do, in 6 bytes per tile. |
| `TileCodec.EncodeGrid` | mapDeserializer.py:83-91 | A grid encodes exactly when all its tiles do. |
| `TileCodec.EncodedLength` | mapDeserializer.py:83-91 | An encoded square chunk is 6 · size² bytes long. |
| `TileCodec.GridLayout` | mapDeserializer.py:85-90 | Rows are laid out row-major: row j occupies bytes [6·size·j, 6·size·(j+1)). |
| `TileCodec.RowLayout` | mapDeserializer.py:86-90 | Within a row, tile i occupies bytes [6i, 6i+6). |
| `TileCodec.EncodeTiles` | mapDeserializer.py:83-91 | The nested loops produce exactly `EncodeGrid` of the chunk's rows. |
| `TileCodec.SerializeMapChunk` | mapDeserializer.py:74-80 | The node holds the index text, the version given and the encoded tiles. |
| `TileCodec.RecordRoundTrip` | mapDeserializer.py:52-62 | From version 6 on, the bytes written for a known tile read back as that tile. |
| `TileCodec.RowRoundTrip` | mapDeserializer.py:51-69 | From version 6 on, reading back the bytes of an encoded row of known tiles gives that row, and the cursor moves 6 bytes per tile. |
| `TileCodec.GridRoundTrip` | mapDeserializer.py:50-69 | From version 6 on, reading back the bytes of the first rows of an encoded grid gives those rows, and the cursor ends after them. |
| `TileCodec.SerializeRoundTrip` | mapDeserializer.py:40-91 | For version ≥ 6, deserializing a serialized chunk of known, encodable tiles gives back its index and tiles. |
| `TileCodec.RowReencodes` | mapDeserializer.py:51-69 | From version 6 on, the records a row reads, written back, are exactly the bytes it read. |
| `TileCodec.GridReencodes` | mapDeserializer.py:50-69 | From version 6 on, the rows a grid reads, written back, are exactly the bytes before the cursor. |
| `TileCodec.DecodeReencodes` | mapDeserializer.py:104-111 | Deserializing a stored node of version ≥ 6 and serializing the chunk again writes back the first 6 · size² bytes of its tiles. When the node holds no bytes beyond them, the serialized tiles equal the stored ones. |
| `TileCodec.OldVersionLabelMisreads` | mapDeserializer.py:74-80 | A node labelled version 5 still carries 4-byte ids. Reading it back takes a one-tile chunk's flags from the id's high bytes, so Tile(1, 7, 0) comes back as Tile(1, 0, 0). |
| `MapGrid.FloorDiv` | mapGeneration.py:47 | Python `//`: the quotient rounds toward minus infinity for either sign of divisor. |
| `MapGrid.FloorMod` | mapGeneration.py:47 | Python `%`: a == b·(a // b) + r, with r taking the divisor's sign. |
| `MapGrid.RoundToChunk` | mapGeneration.py:45-47 | Fails exactly on a zero chunk. Otherwise it gives the largest multiple of a positive chunk that is ≤ number (mirrored for a negative chunk). |
| `MapGrid.WrapInt32` | mapGeneration.py:55 | `astype(np.int32)` lands in int32 range and is congruent to the value modulo 2^32. |
| `MapGrid.AddBorder` | mapGeneration.py:50-55 | The padded map is (h+2) × (w+2). The interior holds the map shifted by one, the ring holds the border value, and both go through the int32 cast. |
| `MapGrid.BorderKeepsInt32Map` | mapGeneration.py:50-55 | For int32 inputs, the padding keeps every map value and writes the border value on the ring. |
| `MapGrid.CornerRegion` | mapGeneration.py:741-765 | An unknown corner fails. On a map of at least 3 × 3 the region is non-empty and inside the border. It touches its corner and spans at most initial_size cells each way. |
| `MapErosion.InteriorNeighbours` | mapGeneration.py:587-595 | For an interior cell, the neighbour list is the 8 neighbours in dy-then-dx order. |
| `MapErosion.GatherNeighbours` | mapGeneration.py:585-597 | The loops collect exactly the in-bounds neighbour types, and count the neighbours equal to the tile type. |
| `MapErosion.GatherRow` | mapGeneration.py:588-597 | The `dx` loop appends the in-bounds neighbours of one `dy` row and keeps the count of the tile type. |
| `MapErosion.CountPositive` | mapGeneration.py:600-601 | A type has a positive count exactly when it occurs. |
| `MapErosion.Distinct` | mapGeneration.py:599-601 | The `counts` keys are the distinct neighbour types in first-occurrence order, each once. |
| `MapErosion.MajorityIsMostFrequent` | mapGeneration.py:602-605 | The chosen majority is a neighbour type with the maximal count. |
| `MapErosion.MajorityIsFirstSeen` | mapGeneration.py:604-605 | Ties go to the type seen first among the neighbours. |
| `MapErosion.MostFrequent` | mapGeneration.py:598-605 | The dictionary tally, the max and the first candidate give `Majority`. |
| `MapErosion.TallyTypes` | mapGeneration.py:599-601 | The tally maps each occurring type to its count, with keys in first-occurrence order. |
| `MapErosion.Eroded` | mapGeneration.py:578-607 | A cell changes only if it is an isolated tile of the type. An isolated tile with neighbours takes `Majority` of their types (the most frequent, ties to the first seen, as `MajorityIsMostFrequent` and `MajorityIsFirstSeen` prove); that type is one of its neighbours'. Border cells never change. |
| `MapErosion.LoneTileReplaced` | mapGeneration.py:598-606 | An interior tile with no neighbour of its type is always replaced. |
| `MapErosion.ApplyErosion` | mapGeneration.py:578-607 | The loops compute `Eroded` of the old map, reading only the old map. |
| `MapErosion.NoIsolatedWhenCountZero` | mapGeneration.py:610-627 | The isolated count is zero exactly when no cell is isolated. |
| `MapErosion.ErosionFixedPoint` | mapGeneration.py:597-606 | A map with no isolated tile is unchanged by erosion. |
| `MapErosion.CountIsolatedTiles` | mapGeneration.py:610-627 | The loops count exactly the isolated interior tiles of the type. |
| `MapErosion.IterateErosion` | mapGeneration.py:630-640 | The iteration keeps the border and stops with the map unchanged when no tile is isolated or the budget is spent. |
| `MapErosion.ErosionRoundsBound` | mapGeneration.py:630-640 | From round `iteration`, the pass count `ErosionRounds` is at least 1 and at most max_iterations − iteration when iteration < max_iterations, and 0 otherwise (so max_iterations ≤ 0 runs no pass). |
| `MapErosion.IterationIsRepeatedErosion` | mapGeneration.py:630-640 | The iteration's result is exactly the map after `ErosionRounds` erosion passes, so that count is the number of passes the loop runs. |
| `MapErosion.ErosionStopsSettled` | mapGeneration.py:634-638 | A run that stops before max_iterations has run at least one pass and stops on a map whose isolated count is zero or equal to the count before its last pass. |
| `MapErosion.ApplyIterativeErosion` | mapGeneration.py:630-640 | The `while` loop computes `IterateErosion`, stopping when the count is stable or zero. |
| `MapOutput.AsTiles` | mapGeneration.py:62-66 | Each map id becomes a tile with flags 0 and variant 0. |
| `MapOutput.EncodeGeneratedTiles` | mapGeneration.py:58-69 | The generator's encoder writes the same bytes as the chunk codec for tiles with zero flags and variant. |
| `MapOutput.ChunkTiles` | mapGeneration.py:382-386 | A chunk slice is size × size: map cells where the map reaches, zeros elsewhere. |
| `MapOutput.GeneratedChunkDecodes` | mapGeneration.py:379-391 | Every chunk node the generator writes decodes, by the chunk codec, to its index and its zero-padded slice. |
| `MapOutput.GeneratorChunksDecode` | mapGeneration.py:31-39 | With the generator's own TILEMAP (ids 0..5) every chunk decodes. |
| `MapOutput.FormatIndInjective` | mapGeneration.py:381 | Distinct chunk indices give distinct keys. |
| `MapOutput.ChunkFailsOnMapCell` | mapGeneration.py:388 | A chunk fails to encode only because of a map cell outside 0..2^32-1. |
| `MapOutput.GenerateChunks` | mapGeneration.py:379-391 | A zero chunk size fails and a negative one yields no chunks. Otherwise it succeeds exactly when all ids encode. Then every on-map chunk index is a key holding its node, and there are no other keys. |
| `MapOutput.GenerateChunkRow` | mapGeneration.py:380-391 | The `cx` loop adds one decodable node per chunk of the row, under its own key. It fails only when a map cell does not fit 4 bytes. |
| `MapOutput.AtmosAt` | mapGeneration.py:364-368 | An atmosphere entry covers all 16 tiles. Its mix is 0 (immutable) exactly on the ring, else 1. |
| `MapOutput.FillAtmosphere` | mapGeneration.py:363-368 | The loops produce an entry for exactly every index from -1 to the last on each axis. |
| `MapOutput.FillAtmosphereRow` | mapGeneration.py:364-368 | The `x` loop adds an entry for every column of row y, keyed by its index, and no other key. |
| `MapOutput.GenerateAtmosphereTiles` | mapGeneration.py:358-369 | A zero chunk size fails. Otherwise every (x, y) in [-1, max]² maps to `AtmosAt`, with max = ceil(dim/size) - 1. |
| `MapOutput.AtmosChunksCoverMap` | mapGeneration.py:360-361 | Every map tile lies in chunks 0..max, and the last map tile lies in chunk max. |
| `MapOutput.LastMapChunkImmutable` | mapGeneration.py:358-369 | As written, the chunk column that holds the map's last column gets the immutable mix 0. |
| `MapOutput.AtmosRingExample` | mapGeneration.py:358-369 | On an 8 × 8 map with atmosphere chunk 4, three of the four chunks holding map tiles get mix 0. |
| `MapOutput.GenerateAtmosphereTilesRingOutside` | mapGeneration.py:358-369 | The corrected layout puts the ring at -1 and max + 1 on each axis. |
| `MapOutput.RingOutsideSeparatesMap` | mapGeneration.py:358-369 | In the corrected layout a chunk has mix 1 exactly when it holds a map tile. |
| `MapEntities.UidCounter.constructor` | mapGeneration.py:168 | The uid counter starts at 3. |
| `MapEntities.UidCounter.NextUid` | mapGeneration.py:171-176 | `next_uid` returns the counter and increments it. |
| `MapEntities.Normalised` | mapGeneration.py:226 | A noise value in [-1, 1] normalises into [0, 1]. |
| `MapEntities.Scene.Chosen` | mapGeneration.py:231 | The chosen prototype is one of the layer's prototypes. |
| `MapEntities.FirstSeenMembers` | mapGeneration.py:232-233 | A group exists exactly for the prototypes placed at least once. |
| `MapEntities.FirstSeenDistinct` | mapGeneration.py:232-233 | Group keys are distinct. |
| `MapEntities.EntitiesOfNonEmpty` | mapGeneration.py:232-241 | A prototype's group is non-empty exactly when it has a key. |
| `MapEntities.GroupsAppend` | mapGeneration.py:232-241 | A placement appends its entity to its prototype's group. A new prototype is added as the last key. |
| `MapEntities.FreeIsFirst` | mapGeneration.py:218-227 | A cell still free when a layer reaches it has no earlier layer eligible for it. |
| `MapEntities.ChoicesDefined` | mapGeneration.py:231 | After a complete scan without error, every layer that claims a cell has prototypes. |
| `MapEntities.PlaceNoiseEntities` | mapGeneration.py:191-244 | Layers are scanned in order and each interior cell goes to the first eligible layer, with consecutive uids. Groups are keyed by first appearance. Error exactly when a claiming layer has no prototypes. |
| `MapEntities.PlaceLayer` | mapGeneration.py:191-244 | One layer scans every cell. A layer with no prototypes fails at its first eligible cell. Otherwise groups, order, occupied cells and uids follow the placement log. |
| `MapEntities.PlaceBorderWalls` | mapGeneration.py:247-262 | Exactly the border cells receive walls, in row-major order, with consecutive uids. |
| `MapEntities.BorderWallCount` | mapGeneration.py:248-262 | A map of at least 2 × 2 gets 2w + 2h − 4 border walls. |
| `MapEntities.GroupProtos` | mapGeneration.py:264-266 | The output lists one group per key, in key order. |
| `MapEntities.GenerateDynamicEntities` | mapGeneration.py:179-272 | Noise entities are placed, then the wall group is reset and refilled with the border walls. Groups are output in key order, with WallRockIndestructible last unless a layer placed it first. |
| `GrillFuelBurn.SettingPower` | Content.Server/Civ14/Kitchen/GrillFuelBurnSystem.cs:215-228 | Power is 0 exactly for Off, and never negative. |
| `GrillFuelBurn.PowerIncreases` | Content.Server/Civ14/Kitchen/GrillFuelBurnSystem.cs:215-228 | A hotter setting gives strictly more power. |
| `GrillFuelBurn.TargetSetting` | Content.Server/Civ14/Kitchen/GrillFuelBurnSystem.cs:186-213 | Off exactly when unlit or no time is left. When lit: High above 600 s, Medium in (300, 600], Low in (0, 300]. |
| `GrillFuelBurn.SettingMonotone` | Content.Server/Civ14/Kitchen/GrillFuelBurnSystem.cs:197-207 | More remaining time never gives a cooler setting or less power. |
| `GrillFuelBurn.RefuelAmount` | Content.Server/Civ14/Kitchen/GrillFuelBurnSystem.cs:74-76 | The fuel taken from a stack is the smaller of the stack count and the missing fuel. |
| `GrillFuelBurn.HeatCalls` | Content.Server/Civ14/Kitchen/GrillFuelBurnSystem.cs:129-133 | Each placed entity receives one `ChangeHeat` with the same energy, in order. |
| `GrillFuelBurn.Campfire.constructor` | Content.Shared/Civ14/Kitchen/GrillFuelBurnComponent.cs:15-40 | A component before map init holds its data fields and has no burn-time entry. |
| `GrillFuelBurn.Campfire.Default` | Content.Shared/Civ14/Kitchen/GrillFuelBurnComponent.cs:15-40 | The defaults are fuel 2 of 10, Off, unlit, expending. |
| `GrillFuelBurn.Campfire.OnMapInit` | Content.Server/Civ14/Kitchen/GrillFuelBurnSystem.cs:40-44 | Map init records 2 minutes of burn time per fuel unit and leaves the fire unlit. |
| `GrillFuelBurn.Campfire.AdjustHeaterSetting` | Content.Server/Civ14/Kitchen/GrillFuelBurnSystem.cs:186-213 | The setting becomes `TargetSetting`. `ChangeSetting` is called exactly when it differs. |
| `GrillFuelBurn.Campfire.OnInteractUsing` | Content.Server/Civ14/Kitchen/GrillFuelBurnSystem.cs:51-104 | The new state and outcome are `Interact` of the old state. This includes the partial update left by a missing burn-time entry. |
| `GrillFuelBurn.Campfire.Update` | Content.Server/Civ14/Kitchen/GrillFuelBurnSystem.cs:109-135 | The new state, the coal spawn and the heat calls are `Tick` of the old state. |
| `GrillFuelBurn.RefuelWithinCapacity` | Content.Server/Civ14/Kitchen/GrillFuelBurnSystem.cs:72-103 | No interaction fills the campfire beyond MaxFuel, and none removes fuel. |
| `GrillFuelBurn.StackRefuelConserves` | Content.Server/Civ14/Kitchen/GrillFuelBurnSystem.cs:72-92 | Campfire fuel plus stack count is conserved. Burn time grows by BurnTime minutes per unit moved. The event is handled exactly when fuel was moved. |
| `GrillFuelBurn.SingleRefuel` | Content.Server/Civ14/Kitchen/GrillFuelBurnSystem.cs:93-103 | A single fuel item adds exactly one unit and is deleted, only below capacity. At capacity nothing happens. |
| `GrillFuelBurn.IgnitionGuard` | Content.Server/Civ14/Kitchen/GrillFuelBurnSystem.cs:53-62 | An ignition source lights the fire exactly when it is unlit, the source is ignited and time is left. The event is always handled. |
| `GrillFuelBurn.LightAfterMapInit` | Content.Server/Civ14/Kitchen/GrillFuelBurnSystem.cs:40-62 | Right after map init, a fire with fuel lights from an ignited source at the setting its fuel gives. |
| `GrillFuelBurn.TickBehaviour` | Content.Server/Civ14/Kitchen/GrillFuelBurnSystem.cs:111-125 | A tick never changes fuel. It burns out (Coal1, deleted, entry removed, unlit, Off) exactly when lit, expending and out of fuel or time. Otherwise time drops by the tick length. |
| `GrillFuelBurn.TickHeat` | Content.Server/Civ14/Kitchen/GrillFuelBurnSystem.cs:125-134 | Heat goes out only when the setting is not Off, and then power × dt goes to every placed entity. |
| `GrillFuelBurn.BurnedOutStays` | Content.Server/Civ14/Kitchen/GrillFuelBurnSystem.cs:111-121 | A burned-out campfire stays deleted and unlit. |
| `GrillFuelBurn.BurnsOut` | Content.Server/Civ14/Kitchen/GrillFuelBurnSystem.cs:106-137 | A lit, expending fire with at most n ticks of time left has burned out after n + 1 ticks. |
| `RespawnableSpawner.AttemptFor` | Content.Server/Civ14/Spawners/RespawnableSpawnerSystem.cs:61-76 | An attempt spawns the drawn prototype, tagged with the spawner, exactly when the index is valid and the spawn does not throw. |
| `RespawnableSpawner.AttemptsFor` | Content.Server/Civ14/Spawners/RespawnableSpawnerSystem.cs:56-77 | One attempt per due entry, in enumeration order. |
| `RespawnableSpawner.ExpiredOnce` | Content.Server/Civ14/Spawners/RespawnableSpawnerSystem.cs:56-59 | Over distinct keys, each entry is attempted once if due and never otherwise. |
| `RespawnableSpawner.ExpiredCounts` | Content.Server/Civ14/Spawners/RespawnableSpawnerSystem.cs:56-59 | Every due entry is in the expired list exactly once, and nothing else is in it. |
| `RespawnableSpawner.PendingAreKept` | Content.Server/Civ14/Spawners/RespawnableSpawnerSystem.cs:78-81 | Removing the expired entries leaves exactly the entries not yet due, with their times. |
| `RespawnableSpawner.ExpiredAreRemoved` | Content.Server/Civ14/Spawners/RespawnableSpawnerSystem.cs:55-81 | Every due entry is attempted once and removed, whether its spawn worked or threw. Pending entries keep their time. Nothing is added. |
| `RespawnableSpawner.RespawnDelayBounds` | Content.Server/Civ14/Spawners/RespawnableSpawnerSystem.cs:39 | The drawn delay lies in [MinDelay, MaxDelay]. |
| `RespawnableSpawner.Spawner.constructor` | Content.Server/Civ14/Spawners/RespawnableSpawnerComponent.cs:9-20 | A spawner holds its prototypes and delays, and no timers. |
| `RespawnableSpawner.Spawner.OnMapInit` | Content.Server/Civ14/Spawners/RespawnableSpawnerSystem.cs:22-31 | Exactly one entity of a drawn prototype, tagged with this spawner, is spawned when there are prototypes. Otherwise none. |
| `RespawnableSpawner.Spawner.RecordTermination` | Content.Server/Civ14/Spawners/RespawnableSpawnerSystem.cs:39-41 | The terminated entity's respawn time becomes now + the drawn delay. Nothing else changes. |
| `RespawnableSpawner.Spawner.Update` | Content.Server/Civ14/Spawners/RespawnableSpawnerSystem.cs:55-81 | The timers become `Pending`, and the attempts are one per due entry in enumeration order. |
| `RespawnableSpawner.Spawner.AttemptDue` | Content.Server/Civ14/Spawners/RespawnableSpawnerSystem.cs:55-77 | The enumeration collects exactly the due entries and attempts each. |
| `RespawnableSpawner.Spawner.RemoveAll` | Content.Server/Civ14/Spawners/RespawnableSpawnerSystem.cs:78-81 | The removal loop deletes exactly the collected keys. |
| `RespawnableSpawner.OnEntityTerminating` | Content.Server/Civ14/Spawners/RespawnableSpawnerSystem.cs:33-47 | A missing spawner only warns. Otherwise the respawn time is recorded. |
| `MapTiles.TileGrid.SetTile` | Content.Server/Civ14/Dirt/DiggingSystem.cs:98 | Only the tile at the position changes. |
| `MapTiles.TileGrid.Spawn` | Content.Server/Civ14/Dirt/DiggingSystem.cs:101 | One entity is spawned at the tile. |
| `Digging.NextFrom` | Content.Server/Civ14/Dirt/DiggingSystem.cs:54 | `TryGetValue` finds a next tile exactly when the id is a key, and returns that key's value. |
| `Digging.PredecessorFrom` | Content.Server/Civ14/Dirt/DiggingSystem.cs:89 | `FirstOrDefault` by value finds a key exactly when some entry has that value. |
| `Digging.ProgressionDistinct` | Content.Server/Civ14/Dirt/DiggingSystem.cs:22-27 | The progression's keys are distinct and so are its values. |
| `Digging.PredecessorInverse` | Content.Server/Civ14/Dirt/DiggingSystem.cs:22-27 | The reverse lookup undoes the forward one, in both directions. |
| `Digging.CompletionFollowsProgression` | Content.Server/Civ14/Dirt/DiggingSystem.cs:87-98 | A completion rewrites a tile exactly when the event's next tile is that tile's successor. |
| `Digging.ThreeDigsFromDirt` | Content.Server/Civ14/Dirt/DiggingSystem.cs:22-27 | Three digs take FloorDirt to FloorDirtDigged_3, which cannot be dug. No tile can be dug four times. |
| `Digging.OnAfterInteract` | Content.Server/Civ14/Dirt/DiggingSystem.cs:36-73 | A dig is requested exactly when the event is unhandled, has no target, is in reach, is on a grid and the tile has a successor. Handled is set only when the delayed action starts. |
| `Digging.OnDoAfter` | Content.Server/Civ14/Dirt/DiggingSystem.cs:75-105 | A live completion whose tile is still the predecessor sets that tile to the next one and spawns one MaterialDirt1. Otherwise nothing changes. |
| `StrawCollector.DirtIsNotGrass` | Content.Server/Civ14/Gathering/StrawCollectorSystem.cs:23-30 | FloorDirt and Space are not grass, so a cut tile neither starts nor completes another collection. |
| `StrawCollector.StrawCountBounds` | Content.Server/Civ14/Gathering/StrawCollectorSystem.cs:99 | The straw count lies in [MinAmount, MaxAmount]. |
| `StrawCollector.OnAfterInteract` | Content.Server/Civ14/Gathering/StrawCollectorSystem.cs:39-75 | A collection is requested exactly when the event is unhandled, has no target, is in reach, is on a grid and the tile is one of the five grass tiles. |
| `StrawCollector.OnDoAfter` | Content.Server/Civ14/Gathering/StrawCollectorSystem.cs:77-108 | A live completion on grass turns the tile into FloorDirt and spawns exactly the drawn number of MaterialStraw1 there. A stale or cancelled one changes nothing. Afterwards the tile is not grass. |

## Left out

- base64: a chunk node's `tiles` field holds the decoded bytes, because base64 is a fixed text encoding outside the model.
- `TileCodec.ParseInt`: accepts an optional sign and ASCII digits only. The whitespace and underscores Python's `int()` also accepts are not modelled.
- `TileCodec.MapChunk.SetTile`: requires coordinates inside the chunk. The tools never write outside it, so neither the `IndexError` nor Python's negative indexing from the end is modelled.
- `TileCodec.MapChunk.GetTile`: requires coordinates inside the chunk, like `SetTile`. Every read in the tools is in range, so neither the `IndexError` nor negative indexing is modelled.
- The noise-driven map generation (FastNoiseLite and the biome tile layers), `MAP_CONFIG`, the YAML writer, decals, spawn points and command-line handling are left out. Noise values and `random.choice` results are parameters instead.
- `MapEntities.GenerateDynamicEntities`:
  - takes the entity layers already sorted by priority; the `sorted` call is not modelled;
  - takes `entity_protos` as a list; the string-to-list case is not modelled;
  - leaves out each entity's `pos` text, `parent` value, the per-prototype counts and the prints, which carry no logic.
- A noise entity whose prototype is WallRockIndestructible is dropped when the wall group is reset. Its uid is still consumed. The model shows this through the wall group's contents, and no separate property is stated.
- The biome transition table of the weather system is left out: the tick never reads it.
- `GetGridUidForMap` is left out: the map's grid, or null, is a parameter.
- Showing weather, announcements, logging and `Dirty` are recorded as component fields or left out.
- `WeatherNomads.WeatherNomadsSystem.OnMapInit`: requires MinSeasonMinutes ≤ MaxSeasonMinutes + 1, because `Random.Next` throws otherwise. The throwing path is not modelled.
- `WeatherNomads.WeatherNomadsSystem.Tick`: carries the same requirement on the season-length range as map init.
- `WeatherNomads.WeatherNomadsSystem.Tick`: models one map's pass through the `Update` query loop. The query over every map with the component, and the grid lookup for each, are host data: the component and its grid are parameters.
- `GrillFuelBurn.Campfire.Update`: models one campfire per call. The query over every campfire that has an item placer, and the placer itself, are host data: the placed entities are a parameter.
- The campfire's point light, appearance data, examine text and `OnItemPlaced`, which does nothing, are left out.
- The stack system's own deletion on count 0 is left out.
- Times and temperatures are reals, so 32-bit float rounding is not modelled.
- Random draws are parameters within the ranges the host generator returns.
- Whether a spawn throws, and whether a delayed action starts, are parameters.
- `RespawnableSpawner.Spawner.Update`: takes the dictionary's enumeration order as a parameter listing each key once.
- `Digging`, `StrawCollector`: tiles are held by definition ID. The numeric tile ids and the tile definition manager's lookup between them are not modelled.
- `Digging`, `StrawCollector`: the click-to-tile conversion is host data: the tile position is a parameter.
- `Digging`, `StrawCollector`: a lookup of an unknown tile definition would throw. It cannot happen for the ids used, so it is not modelled.
- Popups, DoAfter scheduling options and the dig and collect times are left out.
- The heat-emitter system, the NPC pathfinding operator, the seed slicer, the admin verbs and the launcher script are not part of this model.

## Findings

| source | as written | input that shows it | evidently intended | confidence | as-written member | corrected member |
|---|---|---|---|---|---|---|
| mapGeneration.py:358-369 | The immutable (mix 0) ring of atmosphere chunks sits at index -1 and at max = ceil(dim / size) - 1. That last index is the last chunk that still holds map tiles, so the map's last chunk row and column get the immutable mix. | width = height = 8, chunk size 4: max = 1. Chunks (1,0), (0,1) and (1,1) hold map tiles but get mix 0, and only (0,0) gets mix 1. | A ring all around the map, at -1 and max + 1, so that every chunk holding map tiles has the mutable mix 1. | not executed; medium | `MapOutput.LastMapChunkImmutable`, `MapOutput.AtmosRingExample` | `MapOutput.GenerateAtmosphereTilesRingOutside`, `MapOutput.RingOutsideSeparatesMap` |
