/** role.mineralHarvester: a mineral harvester harvests the first mineral of its room until
    it is full, then delivers what it carries to the deposit structures of its
    configuration. */
module RoleMineralHarvester {
  import opened Screeps
  import opened HarvestSource

  /** The flag update of the mineral harvester, on the creep's total free capacity `free` and
      total capacity `capacity`: a full creep stops harvesting, an empty one starts, any
      other keeps its flag. */
  function MineralFlag(harvesting: bool, free: int, capacity: int): (h: bool)
    ensures h <==> free != 0 && (free == capacity || harvesting)
    ensures h != harvesting ==> (!h && free == 0) || (h && free != 0 && free == capacity)
  {
    if free == 0 then false
    else if free == capacity then true
    else harvesting
  }

  /** `resources[i]` is the first resource of the list the creep carries. */
  predicate FirstHeldAt(resources: seq<Resource>, store: Store, i: int) {
    0 <= i < |resources| && Amount(store, resources[i]) > 0 &&
    forall j :: 0 <= j < i ==> Amount(store, resources[j]) == 0
  }

  /** `getMineral`: the first resource of RESOURCES_ALL (`resources`) the creep carries, or
      undefined when it carries none. */
  method GetMineral(resources: seq<Resource>, store: Store) returns (mineral: Option<Resource>, ghost at: nat)
    ensures mineral.None? <==> forall j :: 0 <= j < |resources| ==> Amount(store, resources[j]) == 0
    ensures mineral.Some? ==> FirstHeldAt(resources, store, at) && mineral.value == resources[at]
  {
    var i := 0;
    while i < |resources|
      invariant 0 <= i <= |resources|
      invariant forall j :: 0 <= j < i ==> Amount(store, resources[j]) == 0
    {
      if Amount(store, resources[i]) > 0 {
        return Some(resources[i]), i;
      }
      i := i + 1;
    }
    return None, 0;
  }

  /** The first resource carried is determined by the list and the store. */
  lemma FirstHeldUnique(resources: seq<Resource>, store: Store, a: int, b: int)
    requires FirstHeldAt(resources, store, a) && FirstHeldAt(resources, store, b)
    ensures a == b
  {
    assert !(a < b) && !(b < a);
  }

  /** How a tick of a mineral harvester ends: a deposit of `res` (the resource `getMineral`
      found, or energy when it found none, which is the default of `depositResources`) to
      `target`, if some structure had room; parking when there is no mineral to harvest; or
      a harvest of the room's first mineral, moving to it when the answer `err` is out of
      range. */
  datatype MineralOutcome =
    | Deposit(mineral: Option<Resource>, res: Resource, target: Option<Structure>, moved: bool)
    | NoMineral
    | HarvestMineral(err: ErrorCode, moved: bool)

  /** `run` for a mineral harvester with the store `store`, `free` total free capacity and
      `capacity` total capacity, in a room with the minerals `minerals` and the structures
      `structures`; `types` is the DEPOSIT_STRUCTURES list of its configuration, `resources`
      the game's RESOURCES_ALL, and `transferResult` and `harvestResult` are the answers of
      `transfer` and `harvest`. */
  method Run(creep: Creep, store: Store, free: int, capacity: int, resources: seq<Resource>,
             types: seq<StructureType>, structures: seq<Structure>, minerals: seq<string>,
             transferResult: ErrorCode, harvestResult: ErrorCode) returns (outcome: MineralOutcome)
    modifies creep
    ensures outcome.Deposit? <==> !MineralFlag(old(creep.harvesting), free, capacity)
    ensures outcome.Deposit? ==>
      (outcome.mineral.None? <==> forall j :: 0 <= j < |resources| ==> Amount(store, resources[j]) == 0) &&
      (outcome.mineral.Some? ==> exists i :: FirstHeldAt(resources, store, i) && outcome.mineral.value == resources[i]) &&
      outcome.res == outcome.mineral.GetOr(RESOURCE_ENERGY)
    ensures outcome.Deposit? ==>
      (outcome.target.None? <==>
        forall ti, s :: 0 <= ti < |types| && s in structures ==> !(s.stype == types[ti] && HasFreeSpace(s, outcome.res))) &&
      (outcome.target.Some? ==> exists ti :: DepositChoice(creep.pos, types, structures, outcome.res, ti, outcome.target.value)) &&
      outcome.moved == (outcome.target.Some? && transferResult == ERR_NOT_IN_RANGE)
    // a failed deposit parks the creep and sends it harvesting
    ensures outcome.Deposit? ==> creep.harvesting == outcome.target.None?
    ensures outcome.NoMineral? <==> MineralFlag(old(creep.harvesting), free, capacity) && minerals == []
    ensures outcome.NoMineral? ==> !creep.harvesting
    ensures outcome.HarvestMineral? ==>
      creep.harvesting && outcome.err == harvestResult && outcome.moved == (harvestResult == ERR_NOT_IN_RANGE)
    ensures creep.room == old(creep.room) && creep.targetSource == old(creep.targetSource)
  {
    creep.harvesting := MineralFlag(creep.harvesting, free, capacity);
    if !creep.harvesting {
      var mineral, _ := GetMineral(resources, store);
      var res := mineral.GetOr(RESOURCE_ENERGY);
      var err, target, moved := DepositResources(creep.pos, types, structures, res, transferResult);
      if err != OK {
        creep.harvesting := true;
      }
      return Deposit(mineral, res, target, moved);
    }
    if |minerals| == 0 {
      creep.harvesting := false;
      return NoMineral;
    }
    return HarvestMineral(harvestResult, harvestResult == ERR_NOT_IN_RANGE);
  }
}
