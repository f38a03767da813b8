/** role.harvester: a harvester creep harvests energy and delivers it to the deposit
    structures of its configuration, upgrading the room's controller when none has room. */
module RoleHarvester {
  import opened Screeps
  import opened CreepRoles
  import opened HarvestSource

  /** How a tick of a harvester ends: harvesting, parking when left without a source; a
      transfer to `target` (moving to it when out of range); or, with nowhere to deposit, an
      upgrade of the controller (moving to it when the answer `err` is out of range). */
  datatype HarvesterOutcome =
    | Harvest(parked: bool)
    | Deposit(target: Structure, moved: bool)
    | Upgrade(err: ErrorCode, moved: bool)

  /** Some structure of one of the deposit types has room for energy. */
  predicate CanDeposit(types: seq<StructureType>, structures: seq<Structure>) {
    exists ti, s :: 0 <= ti < |types| && s in structures && s.stype == types[ti] && HasFreeSpace(s, RESOURCE_ENERGY)
  }

  /** `run` for a harvester holding `energy` with `free` capacity left, in a room with the
      structures `structures`; `types` is the DEPOSIT_STRUCTURES list of its configuration, and
      `transferResult` and `upgradeResult` are the answers of `transfer` and
      `upgradeController`. */
  method Run(creep: Creep, energy: nat, free: int, hv: HarvestView, types: seq<StructureType>,
             structures: seq<Structure>, transferResult: ErrorCode, upgradeResult: ErrorCode)
    returns (outcome: HarvesterOutcome)
    requires DistinctIds(hv.sources)
    modifies creep
    ensures outcome.Harvest? <==> EnergyFlag(old(creep.harvesting), energy, free)
    ensures outcome.Harvest? ==>
      Reselected(hv, creep.pos, old(creep.targetSource), creep.targetSource) &&
      (outcome.parked <==> !TargetTruthy(creep.targetSource)) &&
      creep.harvesting == !outcome.parked
    ensures !outcome.Harvest? ==> creep.targetSource == Id("") && !creep.harvesting
    ensures outcome.Deposit? <==>
      !EnergyFlag(old(creep.harvesting), energy, free) && CanDeposit(types, structures)
    ensures outcome.Deposit? ==>
      (exists ti :: DepositChoice(creep.pos, types, structures, RESOURCE_ENERGY, ti, outcome.target)) &&
      outcome.moved == (transferResult == ERR_NOT_IN_RANGE)
    // the controller is upgraded only when there is nowhere to deposit
    ensures outcome.Upgrade? ==>
      !CanDeposit(types, structures) &&
      outcome.err == upgradeResult && outcome.moved == (upgradeResult == ERR_NOT_IN_RANGE)
    ensures creep.room == old(creep.room)
  {
    creep.harvesting := EnergyFlag(creep.harvesting, energy, free);
    if creep.harvesting {
      var _, _ := ReselectTarget(creep, hv.sources, hv.targets, hv.walls, hv.harvestResult);
      if !TargetTruthy(creep.targetSource) {
        creep.harvesting := false;
        return Harvest(true);
      }
      return Harvest(false);
    }
    ClearTarget(creep);
    var err, target, moved := DepositResources(creep.pos, types, structures, RESOURCE_ENERGY, transferResult);
    if err != OK {
      return Upgrade(upgradeResult, upgradeResult == ERR_NOT_IN_RANGE);
    }
    return Deposit(target.value, moved);
  }
}
