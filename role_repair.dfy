/** role.repair: a repair creep repairs the damaged structures of its room, walls included,
    and parks to harvest when none can be repaired or approached; out of energy it harvests,
    or draws from storage. */
module RoleRepair {
  import opened Screeps
  import opened CreepRoles
  import opened HarvestSource

  /** How a tick of a repair creep ends: repairing or approaching damaged structure `e.i`,
      parking with nothing to repair, or harvesting (`pull` is the answer of `pullFromStorage`
      when the creep was left without a source). */
  datatype RepairOutcome =
    | Repairing(e: Engagement)
    | Park
    | Harvest(pull: Option<ErrorCode>)

  /** The answers of the calls `run` makes. */
  datatype Answers = Answers(repair: Structure -> ErrorCode, moveTo: Structure -> ErrorCode,
                             withdrawResult: ErrorCode)

  /** `run` for a repair creep holding `energy` with `free` capacity left, in a room with the
      structures `structures`. */
  method Run(creep: Creep, energy: nat, free: int, hv: HarvestView, structures: seq<Structure>, a: Answers)
    returns (outcome: RepairOutcome)
    requires DistinctIds(hv.sources)
    modifies creep
    ensures !EnergyFlag(old(creep.harvesting), energy, free) ==>
      creep.targetSource == Id("") && (outcome.Repairing? || outcome.Park?)
    ensures outcome.Repairing? <==>
      !EnergyFlag(old(creep.harvesting), energy, free) && !NoneEnds(Filter(structures, IsDamaged), a.repair, a.moveTo)
    ensures outcome.Repairing? ==> Describes(outcome.e, Filter(structures, IsDamaged), a.repair, a.moveTo)
    ensures outcome.Repairing? ==> !creep.harvesting
    // nothing to repair: the creep parks and goes harvesting
    ensures outcome.Park? ==> creep.harvesting
    ensures outcome.Harvest? <==> EnergyFlag(old(creep.harvesting), energy, free)
    ensures outcome.Harvest? ==>
      Reselected(hv, creep.pos, old(creep.targetSource), creep.targetSource) &&
      (outcome.pull.None? <==> TargetTruthy(creep.targetSource))
    ensures outcome.Harvest? && outcome.pull.Some? ==>
      (outcome.pull.value == OK <==> (exists s :: s in structures && EnergyStore(s)) && a.withdrawResult != ERR_BUSY)
    // a failed pull from storage parks the creep and stops its harvesting
    ensures outcome.Harvest? ==> creep.harvesting == !(outcome.pull.Some? && outcome.pull.value != OK)
    ensures creep.room == old(creep.room)
  {
    creep.harvesting := EnergyFlag(creep.harvesting, energy, free);
    if !creep.harvesting {
      ClearTarget(creep);
      var e := Engage(Filter(structures, IsDamaged), a.repair, a.moveTo);
      if !e.Exhausted? {
        return Repairing(e);
      }
      creep.harvesting := true;
      return Park;
    }
    var _, _ := ReselectTarget(creep, hv.sources, hv.targets, hv.walls, hv.harvestResult);
    if !TargetTruthy(creep.targetSource) {
      var err, _, _, _ := PullFromStorage(creep.pos, structures, RESOURCE_ENERGY, free, a.withdrawResult);
      if err != OK {
        creep.harvesting := false;
      }
      return Harvest(Some(err));
    }
    return Harvest(None);
  }
}
