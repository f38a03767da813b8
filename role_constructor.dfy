/** role.constructor: a construction creep builds the construction sites of its room, repairs
    damaged structures other than walls when nothing can be built, and parks to harvest when
    nothing can be repaired either; out of energy it harvests, or draws from storage. */
module RoleConstructor {
  import opened Screeps
  import opened CreepRoles
  import opened HarvestSource

  /** What `repair` works on: damaged structures that are not walls. */
  predicate RepairTarget(s: Structure) {
    s.hits < s.hitsMax && s.stype != Wall
  }

  /** `repair`: works through the repair targets of the room; OK when one was repaired or
      approached, ERR_NOT_FOUND otherwise. */
  method Repair(structures: seq<Structure>, repair: Structure -> ErrorCode, moveTo: Structure -> ErrorCode)
    returns (err: ErrorCode, e: Engagement)
    ensures Describes(e, Filter(structures, RepairTarget), repair, moveTo)
    ensures err == OK <==> !NoneEnds(Filter(structures, RepairTarget), repair, moveTo)
    ensures err == OK || err == ERR_NOT_FOUND
  {
    e := Engage(Filter(structures, RepairTarget), repair, moveTo);
    err := if e.Exhausted? then ERR_NOT_FOUND else OK;
  }

  /** How a tick of a construction creep ends: building or approaching site `e.i`, repairing or
      approaching repair target `e.i`, parking with nothing to do, or harvesting (`pull` is the
      answer of `pullFromStorage` when the creep was left without a source). */
  datatype ConstructorOutcome =
    | Building(e: Engagement)
    | Repairing(e: Engagement)
    | Park
    | Harvest(pull: Option<ErrorCode>)

  /** The answers of the calls `run` makes. */
  datatype Answers = Answers(build: string -> ErrorCode, moveToSite: string -> ErrorCode,
                             repair: Structure -> ErrorCode, moveToStructure: Structure -> ErrorCode,
                             withdrawResult: ErrorCode)

  /** `run` for a construction creep holding `energy` with `free` capacity left, in a room with
      the construction sites `sites` and the structures `structures`. */
  method Run(creep: Creep, energy: nat, free: int, hv: HarvestView, sites: seq<string>,
             structures: seq<Structure>, a: Answers) returns (outcome: ConstructorOutcome)
    requires DistinctIds(hv.sources)
    modifies creep
    ensures var h := EnergyFlag(old(creep.harvesting), energy, free);
      !h ==> creep.targetSource == Id("") && (outcome.Building? || outcome.Repairing? || outcome.Park?)
    ensures outcome.Building? <==>
      !EnergyFlag(old(creep.harvesting), energy, free) && !NoneEnds(sites, a.build, a.moveToSite)
    ensures outcome.Building? ==> Describes(outcome.e, sites, a.build, a.moveToSite)
    ensures outcome.Repairing? <==>
      !EnergyFlag(old(creep.harvesting), energy, free) && NoneEnds(sites, a.build, a.moveToSite) &&
      !NoneEnds(Filter(structures, RepairTarget), a.repair, a.moveToStructure)
    ensures outcome.Repairing? ==> Describes(outcome.e, Filter(structures, RepairTarget), a.repair, a.moveToStructure)
    ensures outcome.Building? || outcome.Repairing? ==> !creep.harvesting
    // nothing to build or repair: the creep parks and goes harvesting
    ensures outcome.Park? ==> creep.harvesting
    ensures outcome.Harvest? <==> EnergyFlag(old(creep.harvesting), energy, free)
    ensures outcome.Harvest? ==>
      Reselected(hv, creep.pos, old(creep.targetSource), creep.targetSource) &&
      (outcome.pull.None? <==> TargetTruthy(creep.targetSource))
    ensures outcome.Harvest? && outcome.pull.Some? ==>
      (outcome.pull.value == OK <==> (exists s :: s in structures && EnergyStore(s)) && a.withdrawResult != ERR_BUSY)
    // a failed pull from storage parks the creep and stops its harvesting
    ensures outcome.Harvest? ==> creep.harvesting == !(outcome.pull.Some? && outcome.pull.value != OK)
    ensures creep.room == old(creep.room)
  {
    creep.harvesting := EnergyFlag(creep.harvesting, energy, free);
    if !creep.harvesting {
      ClearTarget(creep);
      var e := Engage(sites, a.build, a.moveToSite);
      if !e.Exhausted? {
        return Building(e);
      }
      var repairErr, r := Repair(structures, a.repair, a.moveToStructure);
      if repairErr != OK {
        creep.harvesting := true;
        return Park;
      }
      return Repairing(r);
    }
    var _, _ := ReselectTarget(creep, hv.sources, hv.targets, hv.walls, hv.harvestResult);
    if !TargetTruthy(creep.targetSource) {
      var err, _, _, _ := PullFromStorage(creep.pos, structures, RESOURCE_ENERGY, free, a.withdrawResult);
      if err != OK {
        creep.harvesting := false;
      }
      return Harvest(Some(err));
    }
    return Harvest(None);
  }
}
