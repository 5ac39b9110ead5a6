/**
 * The campfire fuel system (GrillFuelBurnSystem.cs): fuel capacity and
 * refuelling, lighting with an ignition source, a burn-time countdown per
 * tick, and a heater setting chosen from the remaining time that decides the
 * power given to the items on the fire.
 *
 * One campfire is the `Campfire` class: the component's fields plus its own
 * entry in the system's remaining-burn-time dictionary (absent before map
 * init and after burning out). Times are reals in seconds without float
 * rounding.
 */
module GrillFuelBurn {
  import opened Wrappers

  type EntityId = int

  datatype HeaterSetting = Off | Low | Medium | High

  /** Settings in increasing order of heat. */
  function Rank(s: HeaterSetting): nat
  {
    match s
    case Off => 0
    case Low => 1
    case Medium => 2
    case High => 3
  }

  /** `SettingPower`: the heat per second of each setting. */
  function SettingPower(s: HeaterSetting): (p: real)
    ensures p == 0.0 <==> s == Off
    ensures p >= 0.0
  {
    match s
    case Low => 400.0
    case Medium => 800.0
    case High => 1600.0
    case Off => 0.0
  }

  /** A hotter setting gives strictly more power. */
  lemma PowerIncreases(a: HeaterSetting, b: HeaterSetting)
    requires Rank(a) < Rank(b)
    ensures SettingPower(a) < SettingPower(b)
  {
  }

  /**
   * The choice in `AdjustHeaterSetting`: Off when unlit; when lit, High above
   * 600 s left, Medium above 300 s, Low above 0 s, else Off.
   */
  function TargetSetting(isLit: bool, remaining: real): (s: HeaterSetting)
    ensures s == Off <==> !isLit || remaining <= 0.0
    ensures s == High <==> isLit && remaining > 600.0
    ensures s == Medium <==> isLit && 300.0 < remaining <= 600.0
    ensures s == Low <==> isLit && 0.0 < remaining <= 300.0
  {
    if !isLit then Off
    else if remaining > 600.0 then High
    else if remaining > 300.0 then Medium
    else if remaining > 0.0 then Low
    else Off
  }

  /** More burn time never gives a cooler setting, nor less power. */
  lemma SettingMonotone(isLit: bool, r1: real, r2: real)
    requires r1 <= r2
    ensures Rank(TargetSetting(isLit, r1)) <= Rank(TargetSetting(isLit, r2))
    ensures SettingPower(TargetSetting(isLit, r1)) <= SettingPower(TargetSetting(isLit, r2))
  {
  }

  /** The state of one campfire, as the class holds it. */
  datatype FireState = FireState(
    fuel: int,
    maxFuel: int,
    setting: HeaterSetting,
    isLit: bool,
    expends: bool,
    burnTime: Option<real>, // the campfire's entry in `_remainingBurnTime`
    deleted: bool)          // `QueueDel(uid)` was called on the campfire

  /** `_remainingBurnTime.GetValueOrDefault(uid)`. */
  function RemainingOrZero(s: FireState): real
  {
    if s.burnTime.Some? then s.burnTime.value else 0.0
  }

  /** The state after `AdjustHeaterSetting`. */
  function Adjusted(s: FireState): FireState
  {
    s.(setting := TargetSetting(s.isLit, RemainingOrZero(s)))
  }

  /** `OnMapInit`: two minutes of burn time per unit of fuel, and unlit. */
  function MapInitState(s: FireState): FireState
  {
    s.(burnTime := Some(s.fuel as real * 2.0 * 60.0), isLit := false)
  }

  /** The item used on the campfire: which of the three components it has. */
  datatype UsedItem = UsedItem(
    ignited: Option<bool>,       // IgnitionSourceComponent and its Ignited flag
    fuelBurnTime: Option<real>,  // BurnFuelComponent and its BurnTime in minutes
    stackCount: Option<int>)     // StackComponent and its Count

  /** What the interaction did besides the campfire's own state. */
  datatype Interaction = Interaction(handled: bool, stackCount: Option<int>, itemDeleted: bool)

  /** Reading or adding to the campfire's dictionary entry when it is absent (KeyNotFoundException). */
  datatype GrillError = MissingBurnTime

  /** `Math.Min(availableFuel, fuelNeeded)`. */
  function RefuelAmount(count: int, fuel: int, maxFuel: int): (add: int)
    ensures add <= count && add <= maxFuel - fuel
    ensures add == count || add == maxFuel - fuel
  {
    if count <= maxFuel - fuel then count else maxFuel - fuel
  }

  /** `OnInteractUsing`, as a change of state and an outcome. */
  function Interact(s: FireState, item: UsedItem): (FireState, Result<Interaction, GrillError>)
  {
    if item.ignited.Some? then
      var done := Ok(Interaction(true, item.stackCount, false));
      if s.isLit || !item.ignited.value then (s, done)
      else if s.burnTime.None? then (s, Err(MissingBurnTime))
      else if s.burnTime.value > 0.0 then (Adjusted(s.(isLit := true)), done)
      else (s, done)
    else if item.fuelBurnTime.None? then
      (s, Ok(Interaction(false, item.stackCount, false)))
    else if item.stackCount.Some? then
      var count := item.stackCount.value;
      var add := RefuelAmount(count, s.fuel, s.maxFuel);
      if add <= 0 then (s, Ok(Interaction(false, item.stackCount, false)))
      else
        var fuelled := s.(fuel := s.fuel + add);
        if s.burnTime.None? then (fuelled, Err(MissingBurnTime))
        else
          var longer := fuelled.(burnTime := Some(s.burnTime.value + add as real * item.fuelBurnTime.value * 60.0));
          (Adjusted(longer), Ok(Interaction(true, Some(count - add), count - add <= 0)))
    else if s.fuel < s.maxFuel then
      var fuelled := s.(fuel := s.fuel + 1);
      if s.burnTime.None? then (fuelled, Err(MissingBurnTime))
      else
        var longer := fuelled.(burnTime := Some(s.burnTime.value + item.fuelBurnTime.value * 60.0));
        (Adjusted(longer), Ok(Interaction(true, None, true)))
    else (s, Ok(Interaction(false, None, false)))
  }

  /** One `ChangeHeat(ent, energy)` call. */
  datatype HeatCall = HeatCall(entity: EntityId, energy: real)

  /** The calls of the `foreach` over the placed entities. */
  function HeatCalls(placed: seq<EntityId>, energy: real): (calls: seq<HeatCall>)
    ensures |calls| == |placed|
    ensures forall i :: 0 <= i < |placed| ==> calls[i] == HeatCall(placed[i], energy)
  {
    seq(|placed|, i requires 0 <= i < |placed| => HeatCall(placed[i], energy))
  }

  /** What one tick did: the new state, whether a Coal1 was spawned, and the heat given. */
  datatype TickResult = TickResult(state: FireState, coalSpawned: bool, heat: seq<HeatCall>)

  /** The body of `Update` for one campfire with the entities placed on it. */
  function Tick(s: FireState, deltaTime: real, placed: seq<EntityId>): TickResult
  {
    if !(s.isLit && s.expends) then TickResult(s, false, [])
    else if s.fuel <= 0 || RemainingOrZero(s) <= 0.0 then
      TickResult(Adjusted(s.(burnTime := None, isLit := false, deleted := true)), true, [])
    else
      var next := Adjusted(s.(burnTime := Some(RemainingOrZero(s) - deltaTime)));
      if next.setting != Off then TickResult(next, false, HeatCalls(placed, SettingPower(next.setting) * deltaTime))
      else TickResult(next, false, [])
  }

  // ---------------------------------------------------------------------------
  // The component
  // ---------------------------------------------------------------------------

  class Campfire {
    var fuel: int
    var maxFuel: int
    var setting: HeaterSetting
    var isLit: bool
    var expends: bool
    var burnTime: Option<real>
    var deleted: bool

    function State(): FireState
      reads this
    {
      FireState(fuel, maxFuel, setting, isLit, expends, burnTime, deleted)
    }

    /** A component with the given data fields, before map init: no burn-time entry yet. */
    constructor (fuel: int, maxFuel: int, setting: HeaterSetting, isLit: bool, expends: bool)
      ensures State() == FireState(fuel, maxFuel, setting, isLit, expends, None, false)
    {
      this.fuel := fuel;
      this.maxFuel := maxFuel;
      this.setting := setting;
      this.isLit := isLit;
      this.expends := expends;
      burnTime := None;
      deleted := false;
    }

    /** The component's defaults: 2 of 10 fuel, Off, unlit, expending. */
    static method Default() returns (c: Campfire)
      ensures fresh(c)
      ensures c.State() == FireState(2, 10, Off, false, true, None, false)
    {
      c := new Campfire(2, 10, Off, false, true);
    }

    method OnMapInit()
      modifies this
      ensures State() == MapInitState(old(State()))
    {
      burnTime := Some(fuel as real * 2.0 * 60.0);
      isLit := false;
    }

    /** `AdjustHeaterSetting`; `changed` is whether `ChangeSetting` was called. */
    method AdjustHeaterSetting() returns (changed: bool)
      modifies this
      ensures State() == Adjusted(old(State()))
      ensures changed <==> setting != old(setting)
    {
      if !isLit {
        changed := setting != Off;
        if changed {
          setting := Off;
        }
        return;
      }
      var remainingTimeSeconds := if burnTime.Some? then burnTime.value else 0.0;
      var newSetting;
      if remainingTimeSeconds > 600.0 {
        newSetting := High;
      } else if remainingTimeSeconds > 300.0 {
        newSetting := Medium;
      } else if remainingTimeSeconds > 0.0 {
        newSetting := Low;
      } else {
        newSetting := Off;
      }
      changed := setting != newSetting;
      if changed {
        setting := newSetting;
      }
    }

    method OnInteractUsing(item: UsedItem) returns (r: Result<Interaction, GrillError>)
      modifies this
      ensures (State(), r) == Interact(old(State()), item)
    {
      if item.ignited.Some? {
        if !isLit && item.ignited.value {
          if burnTime.None? {
            return Err(MissingBurnTime);
          }
          if burnTime.value > 0.0 {
            isLit := true;
            var _ := AdjustHeaterSetting();
          }
        }
        return Ok(Interaction(true, item.stackCount, false));
      }
      if item.fuelBurnTime.None? {
        return Ok(Interaction(false, item.stackCount, false));
      }
      var fuelBurnTime := item.fuelBurnTime.value;
      if item.stackCount.Some? {
        var availableFuel := item.stackCount.value;
        var fuelNeeded := maxFuel - fuel;
        var fuelToAdd := if availableFuel <= fuelNeeded then availableFuel else fuelNeeded;
        if fuelToAdd > 0 {
          fuel := fuel + fuelToAdd;
          if burnTime.None? {
            return Err(MissingBurnTime);
          }
          burnTime := Some(burnTime.value + fuelToAdd as real * fuelBurnTime * 60.0);
          var count := availableFuel - fuelToAdd;
          var _ := AdjustHeaterSetting();
          return Ok(Interaction(true, Some(count), count <= 0));
        }
        return Ok(Interaction(false, item.stackCount, false));
      } else {
        if fuel < maxFuel {
          fuel := fuel + 1;
          if burnTime.None? {
            return Err(MissingBurnTime);
          }
          burnTime := Some(burnTime.value + fuelBurnTime * 60.0);
          var _ := AdjustHeaterSetting();
          return Ok(Interaction(true, None, true));
        }
        return Ok(Interaction(false, None, false));
      }
    }

    /** The body of `Update` for this campfire, with the entities placed on it. */
    method Update(deltaTime: real, placed: seq<EntityId>) returns (coalSpawned: bool, heat: seq<HeatCall>)
      modifies this
      ensures TickResult(State(), coalSpawned, heat) == Tick(old(State()), deltaTime, placed)
    {
      coalSpawned, heat := false, [];
      if isLit && expends {
        var remaining := if burnTime.Some? then burnTime.value else 0.0;
        if fuel <= 0 || remaining <= 0.0 {
          coalSpawned := true;
          deleted := true;
          burnTime := None;
          isLit := false;
          var _ := AdjustHeaterSetting();
          return;
        }
        burnTime := Some(remaining - deltaTime);
        var _ := AdjustHeaterSetting();
        if setting != Off {
          heat := HeatPlaced(placed, SettingPower(setting) * deltaTime);
        }
      }
    }

    /** The `foreach` over the placed entities: one heat call each, in order. */
    static method HeatPlaced(placed: seq<EntityId>, energy: real) returns (heat: seq<HeatCall>)
      ensures heat == HeatCalls(placed, energy)
    {
      heat := [];
      var i := 0;
      while i < |placed|
        invariant 0 <= i <= |placed|
        invariant heat == HeatCalls(placed[..i], energy)
      {
        heat := heat + [HeatCall(placed[i], energy)];
        i := i + 1;
      }
      assert placed[..|placed|] == placed;
    }
  }

  // ---------------------------------------------------------------------------
  // Properties
  // ---------------------------------------------------------------------------

  /**
   * Refuelling never fills the campfire past its capacity: a stack adds at
   * most the missing fuel, a single item is taken only below capacity.
   */
  lemma RefuelWithinCapacity(s: FireState, item: UsedItem)
    requires s.fuel <= s.maxFuel
    ensures Interact(s, item).0.fuel <= s.maxFuel
    ensures Interact(s, item).0.fuel >= s.fuel
    ensures Interact(s, item).0.maxFuel == s.maxFuel
  {
  }

  /**
   * Stack refuelling moves fuel from the stack into the campfire: the sum of
   * the two is unchanged, and the burn time grows by BurnTime minutes per
   * unit moved.
   */
  lemma StackRefuelConserves(s: FireState, item: UsedItem)
    requires item.ignited.None? && item.fuelBurnTime.Some? && item.stackCount.Some?
    requires s.burnTime.Some?
    ensures var (t, r) := Interact(s, item);
      && r.Ok? && r.value.stackCount.Some?
      && t.fuel + r.value.stackCount.value == s.fuel + item.stackCount.value
      && t.burnTime.Some?
      && t.burnTime.value == s.burnTime.value + (t.fuel - s.fuel) as real * item.fuelBurnTime.value * 60.0
      && (r.value.handled <==> RefuelAmount(item.stackCount.value, s.fuel, s.maxFuel) > 0)
  {
  }

  /** A single fuel item adds exactly one unit and is deleted, and only below capacity. */
  lemma SingleRefuel(s: FireState, item: UsedItem)
    requires item.ignited.None? && item.fuelBurnTime.Some? && item.stackCount.None?
    requires s.burnTime.Some?
    ensures var (t, r) := Interact(s, item);
      && r.Ok?
      && (s.fuel < s.maxFuel ==> t.fuel == s.fuel + 1 && r.value.itemDeleted && r.value.handled)
      && (s.fuel >= s.maxFuel ==> t == s && !r.value.handled && !r.value.itemDeleted)
  {
  }

  /**
   * An ignition source lights the campfire exactly when it is unlit, the
   * source is ignited and burn time is left; the interaction is always
   * handled.
   */
  lemma IgnitionGuard(s: FireState, item: UsedItem)
    requires item.ignited.Some? && s.burnTime.Some?
    ensures var (t, r) := Interact(s, item);
      && r.Ok? && r.value.handled
      && (t.isLit <==> s.isLit || (item.ignited.value && s.burnTime.value > 0.0))
      && t.fuel == s.fuel && t.burnTime == s.burnTime
  {
  }

  /** Right after map init, a campfire with fuel lights from an ignited source, at the setting its fuel gives. */
  lemma LightAfterMapInit(s: FireState)
    requires s.fuel > 0
    ensures var lit := Interact(MapInitState(s), UsedItem(Some(true), None, None)).0;
      && lit.isLit
      && lit.setting == TargetSetting(true, s.fuel as real * 120.0)
  {
  }

  /**
   * A tick never changes the fuel count. A lit, expending campfire burns out
   * exactly when it has no fuel or no burn time left: a Coal1 is spawned, the
   * campfire is deleted, its entry removed, unlit and Off. Otherwise its burn
   * time goes down by the tick's length.
   */
  lemma TickBehaviour(s: FireState, deltaTime: real, placed: seq<EntityId>)
    ensures Tick(s, deltaTime, placed).state.fuel == s.fuel
    ensures var t := Tick(s, deltaTime, placed);
      t.coalSpawned <==> s.isLit && s.expends && (s.fuel <= 0 || RemainingOrZero(s) <= 0.0)
    ensures var t := Tick(s, deltaTime, placed);
      t.coalSpawned ==> t.state.deleted && t.state.burnTime.None? && !t.state.isLit && t.state.setting == Off
    ensures var t := Tick(s, deltaTime, placed);
      s.isLit && s.expends && !t.coalSpawned ==> t.state.burnTime == Some(s.burnTime.value - deltaTime)
    ensures !(s.isLit && s.expends) ==> Tick(s, deltaTime, placed).state == s
  {
  }

  /** Every placed entity receives power times the tick length, and none receives anything when the setting is Off. */
  lemma TickHeat(s: FireState, deltaTime: real, placed: seq<EntityId>)
    ensures var t := Tick(s, deltaTime, placed);
      && (t.state.setting == Off ==> t.heat == [])
      && (|t.heat| > 0 ==> t.heat == HeatCalls(placed, SettingPower(t.state.setting) * deltaTime))
      && (s.isLit && s.expends && !t.coalSpawned && t.state.setting != Off ==> |t.heat| == |placed|)
  {
  }

  /** `n` ticks of the same length with nothing placed and no refuelling. */
  function Ticks(s: FireState, deltaTime: real, n: nat): FireState
    decreases n
  {
    if n == 0 then s else Ticks(Tick(s, deltaTime, []).state, deltaTime, n - 1)
  }

  /** Once burned out, a campfire stays burned out. */
  lemma {:induction false} BurnedOutStays(s: FireState, deltaTime: real, n: nat)
    requires s.deleted && !s.isLit
    ensures Ticks(s, deltaTime, n).deleted && !Ticks(s, deltaTime, n).isLit
    decreases n
  {
    if n > 0 {
      BurnedOutStays(Tick(s, deltaTime, []).state, deltaTime, n - 1);
    }
  }

  /**
   * A lit, expending campfire with at most n ticks' worth of burn time left
   * is burned out after n + 1 ticks.
   */
  lemma {:induction false} BurnsOut(s: FireState, deltaTime: real, n: nat)
    requires s.isLit && s.expends && deltaTime > 0.0
    requires RemainingOrZero(s) <= n as real * deltaTime
    ensures Ticks(s, deltaTime, n + 1).deleted
    decreases n
  {
    var t := Tick(s, deltaTime, []).state;
    if s.fuel <= 0 || RemainingOrZero(s) <= 0.0 {
      BurnedOutStays(t, deltaTime, n);
    } else {
      assert n > 0;
      assert RemainingOrZero(t) == RemainingOrZero(s) - deltaTime;
      BurnsOut(t, deltaTime, n - 1);
    }
  }
}
