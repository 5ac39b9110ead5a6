/**
 * The weather and season controller of a nomads map (WeatherNomadsSystem):
 * a fixed weather catalog, the list of kinds a map enables, a four-season
 * cycle on a 45-minute timer, a round-robin weather rotation on a second
 * timer, and the propagation of one drawn temperature to every tile open to
 * the sky.
 *
 * Times are seconds of simulation time as reals; temperatures are kelvin as
 * reals (float rounding is not modelled). Host services are parameters: the
 * map's grid (or null when the map has none), the set of weather prototype
 * ids the prototype manager knows, and the random draws.
 */
module WeatherNomads {
  import opened Wrappers
  import opened HostRandom
  import Arith

  /** One entry of the catalog: its dictionary key, prototype id, rotation weight and temperature band. */
  datatype WeatherKind = WeatherKind(
    key: string,
    prototypeId: string,
    weight: int,
    minTemperature: real,
    maxTemperature: real)

  /** The catalog in declaration order; the "None" kind has the empty prototype id. */
  const Catalog: seq<WeatherKind> := [
    WeatherKind("None", "", 0, 293.15, 293.15),
    WeatherKind("Rain", "Rain", 1, 278.15, 288.15),
    WeatherKind("Storm", "Storm", 3, 273.15, 278.15),
    WeatherKind("SnowfallLight", "SnowfallLight", 4, 268.15, 273.15),
    WeatherKind("SnowfallMedium", "SnowfallMedium", 5, 258.15, 268.15),
    WeatherKind("SnowfallHeavy", "SnowfallHeavy", 6, 243.15, 258.15),
    WeatherKind("Hail", "Hail", 7, 273.15, 278.15),
    WeatherKind("Sandstorm", "Sandstorm", 9, 293.15, 313.15),
    WeatherKind("SandstormHeavy", "SandstormHeavy", 10, 293.15, 313.15)
  ]

  const SecondsPerMinute: real := 60.0

  /** The season timer's period: 45 minutes. */
  const SeasonPeriod: real := 45.0 * SecondsPerMinute

  // ---------------------------------------------------------------------------
  // Catalog and enabled list
  // ---------------------------------------------------------------------------

  predicate SortedByWeight(kinds: seq<WeatherKind>)
  {
    forall i, j :: 0 <= i < j < |kinds| ==> kinds[i].weight < kinds[j].weight
  }

  /**
   * What the handlers rely on in a catalog: it starts with the "None" kind,
   * every band is well formed, the weights strictly increase (so they are
   * pairwise distinct) and a prototype id names at most one entry.
   */
  ghost predicate WellFormedCatalog(catalog: seq<WeatherKind>)
  {
    && |catalog| > 0
    && catalog[0].prototypeId == ""
    && (forall i :: 0 <= i < |catalog| ==> catalog[i].minTemperature <= catalog[i].maxTemperature)
    && SortedByWeight(catalog)
    && (forall i, j :: 0 <= i < j < |catalog| ==> catalog[i].prototypeId != catalog[j].prototypeId)
  }

  lemma CatalogWellFormed()
    ensures WellFormedCatalog(Catalog)
  {
    CatalogBands();
    CatalogSorted();
    CatalogIdsDistinct();
  }

  lemma CatalogBands()
    ensures forall i :: 0 <= i < |Catalog| ==> Catalog[i].minTemperature <= Catalog[i].maxTemperature
  {
    var mins := seq(|Catalog|, i requires 0 <= i < |Catalog| => Catalog[i].minTemperature);
    var maxs := seq(|Catalog|, i requires 0 <= i < |Catalog| => Catalog[i].maxTemperature);
    assert mins == [293.15, 278.15, 273.15, 268.15, 258.15, 243.15, 273.15, 293.15, 293.15];
    assert maxs == [293.15, 288.15, 278.15, 273.15, 268.15, 258.15, 278.15, 313.15, 313.15];
  }

  lemma CatalogSorted()
    ensures SortedByWeight(Catalog)
  {
    var weights := seq(|Catalog|, i requires 0 <= i < |Catalog| => Catalog[i].weight);
    assert weights == [0, 1, 3, 4, 5, 6, 7, 9, 10];
  }

  lemma CatalogIdsDistinct()
    ensures forall i, j :: 0 <= i < j < |Catalog| ==> Catalog[i].prototypeId != Catalog[j].prototypeId
  {
    var ids := seq(|Catalog|, i requires 0 <= i < |Catalog| => Catalog[i].prototypeId);
    assert ids == ["", "Rain", "Storm", "SnowfallLight", "SnowfallMedium", "SnowfallHeavy", "Hail", "Sandstorm", "SandstormHeavy"];
    assert forall i, j :: 0 <= i < j < |ids| ==> ids[i] != ids[j];
  }

  /** A kind the map enables: its prototype id is listed, or it is the "None" kind (empty id). */
  predicate IsEnabled(kind: WeatherKind, enabledWeathers: seq<string>)
  {
    kind.prototypeId in enabledWeathers || kind.prototypeId == ""
  }

  /** A kind lighter than every kind of a sorted list goes in front of it. */
  lemma ConsSorted(first: WeatherKind, rest: seq<WeatherKind>)
    requires SortedByWeight(rest)
    requires forall k :: k in rest ==> first.weight < k.weight
    ensures SortedByWeight([first] + rest)
  {
    forall i, j | 0 <= i < j < |[first] + rest|
      ensures ([first] + rest)[i].weight < ([first] + rest)[j].weight
    {
      if i == 0 {
        assert rest[j - 1] in rest;
      }
    }
  }

  /** The `Where` of the enabled-list query, keeping order. */
  function FilterEnabled(kinds: seq<WeatherKind>, enabledWeathers: seq<string>): (r: seq<WeatherKind>)
    ensures forall k :: k in r <==> k in kinds && IsEnabled(k, enabledWeathers)
    ensures |kinds| > 0 && IsEnabled(kinds[0], enabledWeathers) ==> |r| > 0 && r[0] == kinds[0]
  {
    if kinds == [] then []
    else
      var rest := FilterEnabled(kinds[1..], enabledWeathers);
      if IsEnabled(kinds[0], enabledWeathers) then [kinds[0]] + rest else rest
  }

  /** The filter keeps the catalog's weight order. */
  lemma {:induction false} FilterKeepsOrder(kinds: seq<WeatherKind>, enabledWeathers: seq<string>)
    requires SortedByWeight(kinds)
    ensures SortedByWeight(FilterEnabled(kinds, enabledWeathers))
  {
    if kinds != [] {
      var rest := FilterEnabled(kinds[1..], enabledWeathers);
      FilterKeepsOrder(kinds[1..], enabledWeathers);
      if IsEnabled(kinds[0], enabledWeathers) {
        forall k | k in rest ensures kinds[0].weight < k.weight {
          var j :| 0 <= j < |kinds[1..]| && kinds[1..][j] == k;
          assert kinds[j + 1] == k;
        }
        ConsSorted(kinds[0], rest);
      }
    }
  }

  /**
   * The enabled list of a map: the catalog entries it enables plus the "None"
   * entry, ascending by weight. A well-formed catalog is already in weight
   * order, so the query's `OrderBy` keeps the filtered order.
   */
  function EnabledList(catalog: seq<WeatherKind>, enabledWeathers: seq<string>): (r: seq<WeatherKind>)
    requires WellFormedCatalog(catalog)
    ensures |r| > 0 && r[0] == catalog[0] && r[0].prototypeId == ""
    ensures forall k :: k in r <==> k in catalog && IsEnabled(k, enabledWeathers)
    ensures SortedByWeight(r)
    ensures forall i, j :: 0 <= i < |r| && 0 <= j < |r| && r[i].prototypeId == r[j].prototypeId ==> i == j
  {
    var r := FilterEnabled(catalog, enabledWeathers);
    FilterKeepsOrder(catalog, enabledWeathers);
    forall i, j | 0 <= i < |r| && 0 <= j < |r| && r[i].prototypeId == r[j].prototypeId
      ensures i == j
    {
      assert r[i] in catalog && r[j] in catalog;
    }
    r
  }

  /** The catalog lookup `FirstOrDefault(w => w.PrototypeId == id)`. */
  function FindKind(kinds: seq<WeatherKind>, id: string): (r: Option<WeatherKind>)
    ensures r.Some? ==> r.value in kinds && r.value.prototypeId == id
    ensures r.None? ==> forall k :: k in kinds ==> k.prototypeId != id
  {
    if kinds == [] then None
    else if kinds[0].prototypeId == id then Some(kinds[0])
    else FindKind(kinds[1..], id)
  }

  /** `List.IndexOf`: the first position of `kind`, or None for -1. */
  function IndexOf(kinds: seq<WeatherKind>, kind: WeatherKind): (r: Option<nat>)
    ensures r.Some? ==> r.value < |kinds| && kinds[r.value] == kind
                        && forall j :: 0 <= j < r.value ==> kinds[j] != kind
    ensures r.None? ==> kind !in kinds
  {
    if kinds == [] then None
    else if kinds[0] == kind then Some(0)
    else match IndexOf(kinds[1..], kind)
      case None => None
      case Some(i) => Some(i + 1)
  }

  // ---------------------------------------------------------------------------
  // Seasons and weather rotation
  // ---------------------------------------------------------------------------

  predicate IsSeason(s: string)
  {
    s == "Spring" || s == "Summer" || s == "Autumn" || s == "Winter"
  }

  function NextSeason(current: string): (r: string)
    ensures IsSeason(r)
  {
    match current
    case "Spring" => "Summer"
    case "Summer" => "Autumn"
    case "Autumn" => "Winter"
    case "Winter" => "Spring"
    case _ => "Spring"
  }

  /**
   * Spring is followed by Summer, and four season steps from any season
   * visit all four seasons and return to it; any other string restarts the
   * cycle at Spring.
   */
  lemma SeasonCycle(s: string)
    ensures NextSeason("Spring") == "Summer"
    ensures IsSeason(s) ==> NextSeason(NextSeason(NextSeason(NextSeason(s)))) == s
    ensures IsSeason(s) ==> NextSeason(s) != s
    ensures IsSeason(s) ==>
      {s, NextSeason(s), NextSeason(NextSeason(s)), NextSeason(NextSeason(NextSeason(s)))}
        == {"Spring", "Summer", "Autumn", "Winter"}
    ensures !IsSeason(s) ==> NextSeason(s) == "Spring"
  {
  }

  /** `(i + 1) % n` for a position `i` of a list of length `n`: the cyclic successor. */
  function NextIndex(i: nat, n: nat): (r: nat)
    requires i < n
    ensures r < n && r == (i + 1) % n
  {
    if i + 1 < n then i + 1 else 0
  }

  /** The position of prototype id `id` in a list of kinds. */
  predicate HasIdAt(list: seq<WeatherKind>, i: int, id: string)
  {
    0 <= i < |list| && list[i].prototypeId == id
  }

  /**
   * The weather a due switch selects: the successor, cyclically, of the
   * current kind in the enabled list; None when the current weather names no
   * catalog kind or a kind the map does not enable (the switch is skipped).
   */
  function NextWeather(catalog: seq<WeatherKind>, enabledWeathers: seq<string>, current: string): (r: Option<string>)
    requires WellFormedCatalog(catalog)
    ensures var list := EnabledList(catalog, enabledWeathers);
      r.Some? <==> exists i :: HasIdAt(list, i, current)
    ensures var list := EnabledList(catalog, enabledWeathers);
      forall i :: HasIdAt(list, i, current) ==> r == Some(list[NextIndex(i, |list|)].prototypeId)
  {
    var list := EnabledList(catalog, enabledWeathers);
    match FindKind(catalog, current)
    case None =>
      assert forall i :: !HasIdAt(list, i, current) by {
        forall i | 0 <= i < |list| ensures list[i].prototypeId != current {
          assert list[i] in catalog;
        }
      }
      None
    case Some(kind) =>
      assert forall i :: HasIdAt(list, i, current) ==> list[i] == kind by {
        forall i | HasIdAt(list, i, current) ensures list[i] == kind {
          assert list[i] in catalog;
        }
      }
      match IndexOf(list, kind)
      case None => None
      case Some(i) =>
        assert HasIdAt(list, i, current);
        Some(list[NextIndex(i, |list|)].prototypeId)
  }

  /** A switch always lands on an enabled catalog kind, which looking its id up finds again. */
  lemma NextWeatherEnabled(catalog: seq<WeatherKind>, enabledWeathers: seq<string>, current: string)
    requires WellFormedCatalog(catalog)
    ensures NextWeather(catalog, enabledWeathers, current).Some? ==>
      var w := NextWeather(catalog, enabledWeathers, current).value;
      && FindKind(catalog, w).Some?
      && FindKind(catalog, w).value in EnabledList(catalog, enabledWeathers)
      && IsEnabled(FindKind(catalog, w).value, enabledWeathers)
  {
    var list := EnabledList(catalog, enabledWeathers);
    if NextWeather(catalog, enabledWeathers, current).Some? {
      var i :| HasIdAt(list, i, current);
      var kind := list[NextIndex(i, |list|)];
      FindKindOfMember(catalog, kind);
    }
  }

  /** The weather after `k` due switches starting from `current` (a skipped switch changes nothing). */
  function AfterSwitches(catalog: seq<WeatherKind>, enabledWeathers: seq<string>, current: string, k: nat): string
    requires WellFormedCatalog(catalog)
  {
    if k == 0 then current
    else match NextWeather(catalog, enabledWeathers, AfterSwitches(catalog, enabledWeathers, current, k - 1))
      case None => AfterSwitches(catalog, enabledWeathers, current, k - 1)
      case Some(w) => w
  }

  /** A switch from the kind at position `i` of the enabled list lands on its cyclic successor. */
  lemma SwitchFrom(catalog: seq<WeatherKind>, enabledWeathers: seq<string>, i: nat)
    requires WellFormedCatalog(catalog) && i < |EnabledList(catalog, enabledWeathers)|
    ensures var list := EnabledList(catalog, enabledWeathers);
      NextWeather(catalog, enabledWeathers, list[i].prototypeId) == Some(list[NextIndex(i, |list|)].prototypeId)
  {
    var list := EnabledList(catalog, enabledWeathers);
    assert HasIdAt(list, i, list[i].prototypeId);
  }

  /** One more due switch with a successor `w` ends on `w`. */
  lemma SwitchesStep(catalog: seq<WeatherKind>, enabledWeathers: seq<string>, current: string, k: nat,
                     previous: string, w: string)
    requires WellFormedCatalog(catalog) && k > 0
    requires AfterSwitches(catalog, enabledWeathers, current, k - 1) == previous
    requires NextWeather(catalog, enabledWeathers, previous) == Some(w)
    ensures AfterSwitches(catalog, enabledWeathers, current, k) == w
  {
  }

  /** Starting from the first (lowest-weight) kind, `k` switches reach the kind at position `k mod N`. */
  lemma {:induction false} RoundRobin(catalog: seq<WeatherKind>, enabledWeathers: seq<string>, k: nat)
    requires WellFormedCatalog(catalog)
    ensures AfterSwitches(catalog, enabledWeathers, EnabledList(catalog, enabledWeathers)[0].prototypeId, k)
            == EnabledList(catalog, enabledWeathers)[k % |EnabledList(catalog, enabledWeathers)|].prototypeId
  {
    var list := EnabledList(catalog, enabledWeathers);
    var m := 0;
    while m < k
      invariant m <= k
      invariant AfterSwitches(catalog, enabledWeathers, list[0].prototypeId, m) == list[m % |list|].prototypeId
    {
      RoundRobinStep(catalog, enabledWeathers, m);
      m := m + 1;
    }
  }

  /** One step of the rotation: from position `m mod N` a switch reaches position `(m + 1) mod N`. */
  lemma RoundRobinStep(catalog: seq<WeatherKind>, enabledWeathers: seq<string>, m: nat)
    requires WellFormedCatalog(catalog)
    requires var list := EnabledList(catalog, enabledWeathers);
      AfterSwitches(catalog, enabledWeathers, list[0].prototypeId, m) == list[m % |list|].prototypeId
    ensures var list := EnabledList(catalog, enabledWeathers);
      AfterSwitches(catalog, enabledWeathers, list[0].prototypeId, m + 1) == list[(m + 1) % |list|].prototypeId
  {
    var list := EnabledList(catalog, enabledWeathers);
    var i := m % |list|;
    SwitchFrom(catalog, enabledWeathers, i);
    var j := NextIndex(i, |list|);
    assert j == (m + 1) % |list| by {
      Arith.ModSuccessor(m + 1, |list|);
    }
    SwitchesStep(catalog, enabledWeathers, list[0].prototypeId, m + 1, list[i].prototypeId, list[j].prototypeId);
  }

  /** The component default "None" is no prototype id of the catalog, so a map still holding it never switches. */
  lemma DefaultWeatherNeverSwitches(enabledWeathers: seq<string>)
    ensures WellFormedCatalog(Catalog) && NextWeather(Catalog, enabledWeathers, "None") == None
  {
    CatalogWellFormed();
    var list := EnabledList(Catalog, enabledWeathers);
    forall i | 0 <= i < |list| ensures list[i].prototypeId != "None" {
      assert list[i] in Catalog;
    }
  }

  // ---------------------------------------------------------------------------
  // Temperature propagation and exposure
  // ---------------------------------------------------------------------------

  /** The temperature drawn for a kind: min + (max - min) * u. */
  function DrawTemperature(kind: WeatherKind, u: real): (t: real)
    requires kind.minTemperature <= kind.maxTemperature && IsUnitDraw(u)
    ensures kind.minTemperature <= t <= kind.maxTemperature
    ensures kind.minTemperature < kind.maxTemperature ==> t < kind.maxTemperature
  {
    var span := kind.maxTemperature - kind.minTemperature;
    assert 0.0 <= span * u <= span;
    assert span > 0.0 ==> span * u < span;
    kind.minTemperature + span * u
  }

  /**
   * What the host services report about one tile: whether it has no floor,
   * whether the roof data covers it, whether its tile definition allows
   * weather, and for each entity anchored on it whether it blocks weather.
   */
  datatype TileFacts = TileFacts(
    isEmpty: bool,
    roofed: bool,
    weatherAllowed: bool,
    anchoredBlocksWeather: seq<bool>)

  /** A tile is open to the weather: it is empty, or it is unroofed, allows weather and holds no blocker. */
  predicate Exposed(tile: TileFacts, hasRoofData: bool)
  {
    tile.isEmpty
    || (!(hasRoofData && tile.roofed)
        && tile.weatherAllowed
        && forall i :: 0 <= i < |tile.anchoredBlocksWeather| ==> !tile.anchoredBlocksWeather[i])
  }

  /** CanWeatherAffect: the checks in their source order, enumerating the anchored entities. */
  method CanWeatherAffect(tile: TileFacts, hasRoofData: bool) returns (r: bool)
    ensures r == Exposed(tile, hasRoofData)
  {
    if tile.isEmpty {
      return true;
    }
    if hasRoofData && tile.roofed {
      return false;
    }
    if !tile.weatherAllowed {
      return false;
    }
    var i := 0;
    while i < |tile.anchoredBlocksWeather|
      invariant 0 <= i <= |tile.anchoredBlocksWeather|
      invariant forall j :: 0 <= j < i ==> !tile.anchoredBlocksWeather[j]
    {
      if tile.anchoredBlocksWeather[i] {
        return false;
      }
      i := i + 1;
    }
    return true;
  }

  /** The part of a tile's gas mixture the weather touches. */
  datatype GasMixture = GasMixture(temperature: real, immutable: bool)

  /** The map's grid: its atmosphere tiles with their facts and mixtures, and whether it has roof and atmosphere data. */
  class Grid {
    const tiles: seq<TileFacts>
    const air: array<Option<GasMixture>>
    const hasRoofData: bool
    const hasAtmosphere: bool

    predicate Valid()
    {
      |tiles| == air.Length
    }

    constructor (tiles: seq<TileFacts>, air: array<Option<GasMixture>>, hasRoofData: bool, hasAtmosphere: bool)
      requires |tiles| == air.Length
      ensures this.tiles == tiles && this.air == air
      ensures this.hasRoofData == hasRoofData && this.hasAtmosphere == hasAtmosphere
    {
      this.tiles := tiles;
      this.air := air;
      this.hasRoofData := hasRoofData;
      this.hasAtmosphere := hasAtmosphere;
    }
  }

  /** A tile SetGridTemperature writes: exposed, with a mutable mixture, on a grid with atmosphere data. */
  predicate Heated(grid: Grid, tile: TileFacts, air: Option<GasMixture>)
  {
    grid.hasAtmosphere && Exposed(tile, grid.hasRoofData) && air.Some? && !air.value.immutable
  }

  /**
   * The tile mixtures after temperature `t` is written to every tile it
   * heats; an immutable mixture is copied and the copy changed, so the tile
   * keeps it as it was.
   */
  function PropagatedAir(grid: Grid, before: seq<Option<GasMixture>>, t: real): (after: seq<Option<GasMixture>>)
    requires |before| == |grid.tiles|
    ensures |after| == |before|
  {
    seq(|before|, i requires 0 <= i < |before| =>
      if Heated(grid, grid.tiles[i], before[i]) then Some(before[i].value.(temperature := t)) else before[i])
  }

  /**
   * Propagation changes only heated tiles, and gives each of them the
   * temperature; no tile gains or loses its mixture or its mutability;
   * writing the same temperature again changes nothing.
   */
  lemma PropagationEffect(grid: Grid, before: seq<Option<GasMixture>>, t: real)
    requires |before| == |grid.tiles|
    ensures var after := PropagatedAir(grid, before, t);
      forall i :: 0 <= i < |before| ==>
        && (Heated(grid, grid.tiles[i], before[i]) ==> after[i].Some? && after[i].value.temperature == t)
        && (!Heated(grid, grid.tiles[i], before[i]) ==> after[i] == before[i])
        && (after[i].Some? <==> before[i].Some?)
        && (after[i].Some? ==> after[i].value.immutable == before[i].value.immutable)
    ensures PropagatedAir(grid, PropagatedAir(grid, before, t), t) == PropagatedAir(grid, before, t)
    ensures !grid.hasAtmosphere ==> PropagatedAir(grid, before, t) == before
  {
    var after := PropagatedAir(grid, before, t);
    var again := PropagatedAir(grid, after, t);
    assert forall i :: 0 <= i < |before| ==> again[i] == after[i];
    if !grid.hasAtmosphere {
      assert forall i :: 0 <= i < |before| ==> after[i] == before[i];
    }
  }

  method SetGridTemperature(grid: Grid, temperature: real)
    requires grid.Valid()
    modifies grid.air
    ensures grid.air[..] == PropagatedAir(grid, old(grid.air[..]), temperature)
  {
    if !grid.hasAtmosphere {
      PropagationEffect(grid, grid.air[..], temperature);
      return;
    }
    var i := 0;
    while i < grid.air.Length
      invariant 0 <= i <= grid.air.Length
      invariant forall j :: 0 <= j < i ==>
        grid.air[j] == if Heated(grid, grid.tiles[j], old(grid.air[j]))
                       then Some(old(grid.air[j]).value.(temperature := temperature))
                       else old(grid.air[j])
      invariant forall j :: i <= j < grid.air.Length ==> grid.air[j] == old(grid.air[j])
    {
      var exposed := CanWeatherAffect(grid.tiles[i], grid.hasRoofData);
      if exposed {
        var air := grid.air[i];
        if air.Some? {
          if !air.value.immutable {
            grid.air[i] := Some(air.value.(temperature := temperature));
          }
          // an immutable mixture is copied and the copy changed, leaving the tile as it was
        }
      }
      i := i + 1;
    }
  }

  // ---------------------------------------------------------------------------
  // The per-map state and its handlers
  // ---------------------------------------------------------------------------

  /**
   * WeatherNomadsComponent, with the two host effects the handlers cause on
   * its map: the weather shown by the weather display (None when cleared)
   * and the announcements sent to the chat.
   */
  class WeatherNomadsComponent {
    var enabledWeathers: seq<string>
    var minSeasonMinutes: int
    var maxSeasonMinutes: int
    var currentWeather: string
    var nextSwitchTime: real
    var nextSeasonChange: real
    var currentSeason: string
    var shownWeather: Option<string>
    var announcements: seq<string>

    /** A component as loaded: the given configuration, the other fields at their defaults. */
    constructor (enabledWeathers: seq<string>, minSeasonMinutes: int, maxSeasonMinutes: int)
      ensures this.enabledWeathers == enabledWeathers
      ensures this.minSeasonMinutes == minSeasonMinutes && this.maxSeasonMinutes == maxSeasonMinutes
      ensures currentWeather == "None" && currentSeason == "Spring"
      ensures nextSwitchTime == 0.0 && nextSeasonChange == 0.0
      ensures shownWeather == None && announcements == []
    {
      this.enabledWeathers := enabledWeathers;
      this.minSeasonMinutes := minSeasonMinutes;
      this.maxSeasonMinutes := maxSeasonMinutes;
      currentWeather := "None";
      nextSwitchTime := 0.0;
      nextSeasonChange := 0.0;
      currentSeason := "Spring";
      shownWeather := None;
      announcements := [];
    }
  }

  /** The prototype the weather display is given: the kind's own, when it has one the prototype manager knows. */
  function ShownWeather(kind: WeatherKind, knownPrototypes: set<string>): Option<string>
  {
    if kind.prototypeId != "" && kind.prototypeId in knownPrototypes then Some(kind.prototypeId) else None
  }

  /** A valid draw of `GetRandomSeasonDuration`: `Next(MinSeasonMinutes, MaxSeasonMinutes + 1)`. */
  predicate IsSeasonDuration(minSeasonMinutes: int, maxSeasonMinutes: int, minutes: int)
  {
    minSeasonMinutes <= maxSeasonMinutes + 1 && IsNextDraw(minSeasonMinutes, maxSeasonMinutes + 1, minutes)
  }

  /** In a well-formed catalog the lookup by a member's prototype id finds that member. */
  lemma FindKindOfMember(catalog: seq<WeatherKind>, kind: WeatherKind)
    requires WellFormedCatalog(catalog) && kind in catalog
    ensures FindKind(catalog, kind.prototypeId) == Some(kind)
  {
    var found := FindKind(catalog, kind.prototypeId);
    var i :| 0 <= i < |catalog| && catalog[i] == kind;
    var j :| 0 <= j < |catalog| && catalog[j] == found.value;
    assert i == j;
  }

  /** The "None" kind's band is the single point 293.15 K, so the temperature set on map start does not depend on the draw. */
  lemma NoneKindTemperature(u: real)
    requires IsUnitDraw(u)
    ensures Catalog[0].minTemperature <= Catalog[0].maxTemperature
    ensures DrawTemperature(Catalog[0], u) == 293.15
  {
  }

  /** The part of a map's state the season step changes. */
  datatype SeasonView = SeasonView(currentSeason: string, nextSeasonChange: real, announcements: seq<string>)

  ghost function SeasonOf(comp: WeatherNomadsComponent): SeasonView
    reads comp
  {
    SeasonView(comp.currentSeason, comp.nextSeasonChange, comp.announcements)
  }

  /**
   * The season step at `now`: once the season timer is due, the season moves
   * on, the timer is rearmed 45 minutes later and the change is announced.
   */
  function SeasonStep(v: SeasonView, now: real): (r: SeasonView)
    ensures now < v.nextSeasonChange ==> r == v
    ensures now >= v.nextSeasonChange ==>
      && r.currentSeason == NextSeason(v.currentSeason) && IsSeason(r.currentSeason)
      && r.nextSeasonChange == now + SeasonPeriod > now
      && r.announcements == v.announcements + ["Changed season to " + r.currentSeason]
  {
    if now >= v.nextSeasonChange then
      var season := NextSeason(v.currentSeason);
      SeasonView(season, now + SeasonPeriod, v.announcements + ["Changed season to " + season])
    else v
  }

  /** The part of a map's state the weather step changes. */
  datatype WeatherView = WeatherView(currentWeather: string, nextSwitchTime: real,
                                     shownWeather: Option<string>, air: seq<Option<GasMixture>>)

  ghost function ViewOf(comp: WeatherNomadsComponent, grid: Grid?): WeatherView
    reads comp, if grid != null then {grid.air} else {}
  {
    WeatherView(comp.currentWeather, comp.nextSwitchTime, comp.shownWeather, if grid != null then grid.air[..] else [])
  }

  /**
   * SetWeatherAndTemperature on a view: a catalog kind named by the current
   * weather is shown and one temperature drawn from its band is propagated,
   * provided the map has a grid; otherwise nothing changes.
   */
  function ApplyWeather(catalog: seq<WeatherKind>, grid: Grid?, before: WeatherView, u: real,
                        knownPrototypes: set<string>): (r: WeatherView)
    requires WellFormedCatalog(catalog) && IsUnitDraw(u)
    requires grid != null ==> |before.air| == |grid.tiles|
    ensures r.currentWeather == before.currentWeather && r.nextSwitchTime == before.nextSwitchTime
  {
    match FindKind(catalog, before.currentWeather)
    case None => before
    case Some(kind) =>
      if grid == null then before
      else
        assert kind.minTemperature <= kind.maxTemperature by {
          var i :| 0 <= i < |catalog| && catalog[i] == kind;
        }
        before.(shownWeather := ShownWeather(kind, knownPrototypes),
                air := PropagatedAir(grid, before.air, DrawTemperature(kind, u)))
  }

  /**
   * The weather step of Update once the weather timer is due: the current
   * weather's successor in the enabled list is applied and the timer rearmed
   * for `minutes`; a weather without a successor changes nothing.
   */
  function WeatherStep(catalog: seq<WeatherKind>, enabledWeathers: seq<string>, grid: Grid?, before: WeatherView,
                       now: real, minutes: int, u: real, knownPrototypes: set<string>): WeatherView
    requires WellFormedCatalog(catalog) && IsUnitDraw(u)
    requires grid != null ==> |before.air| == |grid.tiles|
  {
    match NextWeather(catalog, enabledWeathers, before.currentWeather)
    case None => before
    case Some(w) =>
      ApplyWeather(catalog, grid, before.(currentWeather := w), u, knownPrototypes)
        .(nextSwitchTime := now + minutes as real * SecondsPerMinute)
  }

  /** A due weather step without a successor, unfolded. */
  lemma WeatherStepStays(catalog: seq<WeatherKind>, enabledWeathers: seq<string>, grid: Grid?, before: WeatherView,
                         now: real, minutes: int, u: real, knownPrototypes: set<string>)
    requires WellFormedCatalog(catalog) && IsUnitDraw(u)
    requires grid != null ==> |before.air| == |grid.tiles|
    requires NextWeather(catalog, enabledWeathers, before.currentWeather).None?
    ensures WeatherStep(catalog, enabledWeathers, grid, before, now, minutes, u, knownPrototypes) == before
  {
  }

  /** A due weather step with a successor `w`, unfolded. */
  lemma WeatherStepTo(catalog: seq<WeatherKind>, enabledWeathers: seq<string>, grid: Grid?, before: WeatherView,
                      w: string, now: real, minutes: int, u: real, knownPrototypes: set<string>)
    requires WellFormedCatalog(catalog) && IsUnitDraw(u)
    requires grid != null ==> |before.air| == |grid.tiles|
    requires NextWeather(catalog, enabledWeathers, before.currentWeather) == Some(w)
    ensures WeatherStep(catalog, enabledWeathers, grid, before, now, minutes, u, knownPrototypes) ==
      ApplyWeather(catalog, grid, before.(currentWeather := w), u, knownPrototypes)
        .(nextSwitchTime := now + minutes as real * SecondsPerMinute)
  {
  }

  /**
   * A due weather step lands on an enabled catalog kind, rearms the timer,
   * shows that kind, and leaves every tile either as it was or holding a
   * mixture whose temperature lies in the kind's band. Without a successor
   * nothing changes.
   */
  lemma WeatherStepEffect(catalog: seq<WeatherKind>, enabledWeathers: seq<string>, grid: Grid?, before: WeatherView,
                          now: real, minutes: int, u: real, knownPrototypes: set<string>)
    requires WellFormedCatalog(catalog) && IsUnitDraw(u)
    requires grid != null ==> |before.air| == |grid.tiles|
    ensures NextWeather(catalog, enabledWeathers, before.currentWeather).None? ==>
      WeatherStep(catalog, enabledWeathers, grid, before, now, minutes, u, knownPrototypes) == before
    ensures NextWeather(catalog, enabledWeathers, before.currentWeather).Some? ==>
      var r := WeatherStep(catalog, enabledWeathers, grid, before, now, minutes, u, knownPrototypes);
      && r.currentWeather == NextWeather(catalog, enabledWeathers, before.currentWeather).value
      && r.nextSwitchTime == now + minutes as real * SecondsPerMinute
      && FindKind(catalog, r.currentWeather).Some?
      && FindKind(catalog, r.currentWeather).value in EnabledList(catalog, enabledWeathers)
      && (grid == null ==> r.shownWeather == before.shownWeather && r.air == before.air)
      && (grid != null ==>
           var kind := FindKind(catalog, r.currentWeather).value;
           && r.shownWeather == ShownWeather(kind, knownPrototypes)
           && |r.air| == |before.air|
           && forall i :: 0 <= i < |r.air| && r.air[i] != before.air[i] ==>
                r.air[i].Some? && kind.minTemperature <= r.air[i].value.temperature <= kind.maxTemperature)
  {
    NextWeatherEnabled(catalog, enabledWeathers, before.currentWeather);
    if NextWeather(catalog, enabledWeathers, before.currentWeather).Some? && grid != null {
      var w := NextWeather(catalog, enabledWeathers, before.currentWeather).value;
      var kind := FindKind(catalog, w).value;
      var i :| 0 <= i < |catalog| && catalog[i] == kind;
      PropagationEffect(grid, before.air, DrawTemperature(kind, u));
    }
  }

  /**
   * WeatherNomadsSystem: it owns the weather catalog and handles the map
   * initialisation and update events of every map with the component.
   */
  class WeatherNomadsSystem {
    const catalog: seq<WeatherKind>

    ghost predicate Valid()
    {
      WellFormedCatalog(catalog)
    }

    constructor ()
      ensures catalog == Catalog && Valid()
    {
      catalog := Catalog;
      new;
      CatalogWellFormed();
    }

    /**
     * SetWeatherAndTemperature: look the current weather up in the catalog,
     * show it on the map and write one drawn temperature to the exposed tiles.
     * An unknown weather or a map without a grid changes nothing.
     */
    method SetWeatherAndTemperature(comp: WeatherNomadsComponent, grid: Grid?, u: real, knownPrototypes: set<string>)
      requires Valid() && (grid != null ==> grid.Valid())
      requires IsUnitDraw(u)
      modifies comp`shownWeather, if grid != null then {grid.air} else {}
      ensures ViewOf(comp, grid) == ApplyWeather(catalog, grid, old(ViewOf(comp, grid)), u, knownPrototypes)
    {
      var kind := FindKind(catalog, comp.currentWeather);
      if kind.None? {
        return;
      }
      if grid == null {
        return;
      }
      comp.shownWeather := ShownWeather(kind.value, knownPrototypes);
      var temperature := DrawTemperature(kind.value, u);
      SetGridTemperature(grid, temperature);
    }

    /**
     * OnMapInit: the map starts on the first enabled kind ("None", which is
     * always enabled), arms the weather timer for a drawn whole number of
     * minutes and the season timer for 45 minutes, and announces the season.
     */
    method OnMapInit(comp: WeatherNomadsComponent, grid: Grid?, now: real, minutes: int, u: real, knownPrototypes: set<string>)
      requires Valid() && (grid != null ==> grid.Valid())
      requires IsSeasonDuration(comp.minSeasonMinutes, comp.maxSeasonMinutes, minutes)
      requires IsUnitDraw(u)
      modifies comp, if grid != null then {grid.air} else {}
      ensures comp.currentWeather == EnabledList(catalog, comp.enabledWeathers)[0].prototypeId == ""
      ensures comp.nextSwitchTime == now + minutes as real * SecondsPerMinute
      ensures comp.nextSeasonChange == now + SeasonPeriod
      ensures comp.currentSeason == old(comp.currentSeason)
      ensures comp.enabledWeathers == old(comp.enabledWeathers)
      ensures comp.minSeasonMinutes == old(comp.minSeasonMinutes) && comp.maxSeasonMinutes == old(comp.maxSeasonMinutes)
      ensures comp.announcements == old(comp.announcements) + ["Current season: " + comp.currentSeason]
      ensures grid == null ==> comp.shownWeather == old(comp.shownWeather)
      ensures grid != null ==>
        && comp.shownWeather == None
        && grid.air[..] == PropagatedAir(grid, old(grid.air[..]), DrawTemperature(catalog[0], u))
    {
      var enabled := EnabledList(catalog, comp.enabledWeathers);
      comp.currentWeather := enabled[0].prototypeId;
      FindKindOfMember(catalog, catalog[0]);
      SetWeatherAndTemperature(comp, grid, u, knownPrototypes);
      comp.nextSwitchTime := now + minutes as real * SecondsPerMinute;
      comp.nextSeasonChange := now + SeasonPeriod;
      comp.announcements := comp.announcements + ["Current season: " + comp.currentSeason];
    }

    /** The season step of Update: a due season timer advances the season, rearms and announces. */
    method AdvanceSeason(comp: WeatherNomadsComponent, now: real)
      modifies comp`currentSeason, comp`nextSeasonChange, comp`announcements
      ensures SeasonOf(comp) == SeasonStep(old(SeasonOf(comp)), now)
    {
      if now >= comp.nextSeasonChange {
        comp.currentSeason := NextSeason(comp.currentSeason);
        comp.nextSeasonChange := now + SeasonPeriod;
        comp.announcements := comp.announcements + ["Changed season to " + comp.currentSeason];
      }
    }

    /**
     * The weather step of Update once the weather timer is due: move to the
     * successor of the current kind in the enabled list, apply it and rearm.
     * A current weather that is not an enabled catalog kind changes nothing.
     */
    method SwitchWeather(comp: WeatherNomadsComponent, grid: Grid?, now: real, minutes: int, u: real, knownPrototypes: set<string>)
      requires Valid() && (grid != null ==> grid.Valid())
      requires IsUnitDraw(u)
      modifies comp`currentWeather, comp`shownWeather, comp`nextSwitchTime, if grid != null then {grid.air} else {}
      ensures ViewOf(comp, grid) ==
        WeatherStep(catalog, old(comp.enabledWeathers), grid, old(ViewOf(comp, grid)), now, minutes, u, knownPrototypes)
    {
      ghost var before := ViewOf(comp, grid);
      var next := NextWeather(catalog, comp.enabledWeathers, comp.currentWeather);
      if next.None? {
        WeatherStepStays(catalog, comp.enabledWeathers, grid, before, now, minutes, u, knownPrototypes);
        return;
      }
      WeatherStepTo(catalog, comp.enabledWeathers, grid, before, next.value, now, minutes, u, knownPrototypes);
      ApplySwitch(comp, grid, next.value, now, minutes, u, knownPrototypes);
    }

    /** The switch itself: the new weather is recorded and applied, and the timer rearmed. */
    method ApplySwitch(comp: WeatherNomadsComponent, grid: Grid?, w: string, now: real, minutes: int, u: real,
                       knownPrototypes: set<string>)
      requires Valid() && (grid != null ==> grid.Valid())
      requires IsUnitDraw(u)
      modifies comp`currentWeather, comp`shownWeather, comp`nextSwitchTime, if grid != null then {grid.air} else {}
      ensures ViewOf(comp, grid) ==
        ApplyWeather(catalog, grid, old(ViewOf(comp, grid)).(currentWeather := w), u, knownPrototypes)
          .(nextSwitchTime := now + minutes as real * SecondsPerMinute)
    {
      ghost var before := ViewOf(comp, grid);
      comp.currentWeather := w;
      assert ViewOf(comp, grid) == before.(currentWeather := w);
      SetWeatherAndTemperature(comp, grid, u, knownPrototypes);
      ghost var applied := ViewOf(comp, grid);
      comp.nextSwitchTime := now + minutes as real * SecondsPerMinute;
      assert ViewOf(comp, grid) == applied.(nextSwitchTime := now + minutes as real * SecondsPerMinute);
    }

    /**
     * One tick of Update for one map: the season step, then the weather step
     * when the weather timer is due.
     */
    method Tick(comp: WeatherNomadsComponent, grid: Grid?, now: real, minutes: int, u: real, knownPrototypes: set<string>)
      requires Valid() && (grid != null ==> grid.Valid())
      requires IsSeasonDuration(comp.minSeasonMinutes, comp.maxSeasonMinutes, minutes)
      requires IsUnitDraw(u)
      modifies comp, if grid != null then {grid.air} else {}
      ensures comp.enabledWeathers == old(comp.enabledWeathers)
      ensures comp.minSeasonMinutes == old(comp.minSeasonMinutes) && comp.maxSeasonMinutes == old(comp.maxSeasonMinutes)
      // the season step
      ensures SeasonOf(comp) == SeasonStep(old(SeasonOf(comp)), now)
      // the weather step
      ensures now < old(comp.nextSwitchTime) ==> ViewOf(comp, grid) == old(ViewOf(comp, grid))
      ensures now >= old(comp.nextSwitchTime) ==>
        ViewOf(comp, grid) == WeatherStep(catalog, comp.enabledWeathers, grid, old(ViewOf(comp, grid)), now, minutes, u, knownPrototypes)
    {
      ghost var view := ViewOf(comp, grid);
      AdvanceSeason(comp, now);
      assert ViewOf(comp, grid) == view;
      ghost var season := SeasonOf(comp);
      if now < comp.nextSwitchTime {
        return;
      }
      SwitchWeather(comp, grid, now, minutes, u, knownPrototypes);
      assert SeasonOf(comp) == season;
    }
  }
}
