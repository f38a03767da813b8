/** role.upgrader: an upgrader creep upgrades its room's controller while it has energy and
    harvests when it runs out. */
module RoleUpgrader {
  import opened Screeps
  import opened CreepRoles
  import opened HarvestSource

  /** How a tick of an upgrader ends: upgrading (moving to the controller when the answer
      `err` is out of range), or harvesting, parking when left without a source. */
  datatype UpgraderOutcome = Upgrade(err: ErrorCode, moved: bool) | Harvest(parked: bool)

  /** `run` for an upgrader holding `energy` with `free` capacity left; `upgradeResult` is the
      answer of `upgradeController`. */
  method Run(creep: Creep, energy: nat, free: int, hv: HarvestView, upgradeResult: ErrorCode)
    returns (outcome: UpgraderOutcome)
    requires DistinctIds(hv.sources)
    modifies creep
    // exactly one branch runs, chosen by the updated flag
    ensures outcome.Upgrade? <==> !EnergyFlag(old(creep.harvesting), energy, free)
    ensures outcome.Upgrade? ==>
      creep.targetSource == Id("") && !creep.harvesting &&
      outcome.err == upgradeResult && outcome.moved == (upgradeResult == ERR_NOT_IN_RANGE)
    ensures outcome.Harvest? ==>
      Reselected(hv, creep.pos, old(creep.targetSource), creep.targetSource) &&
      (outcome.parked <==> !TargetTruthy(creep.targetSource)) &&
      creep.harvesting == !outcome.parked
    ensures creep.room == old(creep.room)
  {
    creep.harvesting := EnergyFlag(creep.harvesting, energy, free);
    if !creep.harvesting {
      ClearTarget(creep);
      return Upgrade(upgradeResult, upgradeResult == ERR_NOT_IN_RANGE);
    }
    var _, _ := ReselectTarget(creep, hv.sources, hv.targets, hv.walls, hv.harvestResult);
    if !TargetTruthy(creep.targetSource) {
      creep.harvesting := false;
      return Harvest(true);
    }
    return Harvest(false);
  }
}
