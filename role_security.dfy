/** role.security: a security creep attacks armed hostile creeps first, then, as its home
    room's security configuration allows, every hostile creep and the hostile structures,
    and parks when none of them could be attacked or approached. */
module RoleSecurity {
  import opened Screeps
  import opened CreepRoles

  /** A hostile creep as `room.find(FIND_HOSTILE_CREEPS)` returns it: its id and the types of
      its body parts. */
  datatype HostileCreep = HostileCreep(id: string, body: seq<BodyPart>)

  const HOSTILE_CREEP_PARTS: seq<BodyPart> := [Attack, RangedAttack, Claim]

  /** A creep with at least one ATTACK, RANGED_ATTACK or CLAIM part. */
  predicate Armed(c: HostileCreep) {
    exists k :: 0 <= k < |c.body| && c.body[k] in HOSTILE_CREEP_PARTS
  }

  /** The inner loop of `getAttackCreeps`: looks through the body for a hostile part and
      stops at the first. */
  method HasHostilePart(c: HostileCreep) returns (found: bool)
    ensures found <==> Armed(c)
  {
    var part := 0;
    while part < |c.body|
      invariant 0 <= part <= |c.body|
      invariant forall k :: 0 <= k < part ==> c.body[k] !in HOSTILE_CREEP_PARTS
    {
      if c.body[part] in HOSTILE_CREEP_PARTS {
        return true;
      }
      part := part + 1;
    }
    return false;
  }

  /** `getAttackCreeps`: the armed hostile creeps, in find order, each as often as found
      (`FilterCounts`, `FilterConcat`). */
  method GetAttackCreeps(hostiles: seq<HostileCreep>) returns (attackCreeps: seq<HostileCreep>)
    ensures attackCreeps == Filter(hostiles, Armed)
  {
    attackCreeps := [];
    var i := 0;
    while i < |hostiles|
      invariant 0 <= i <= |hostiles|
      invariant attackCreeps == Filter(hostiles[..i], Armed)
    {
      var found := HasHostilePart(hostiles[i]);
      FilterSnoc(hostiles, i, Armed);
      if found {
        attackCreeps := attackCreeps + [hostiles[i]];
      }
      i := i + 1;
    }
    assert hostiles[..|hostiles|] == hostiles;
  }

  /** The SECURITY entry of the home room's configuration. */
  datatype SecurityConfig = SecurityConfig(attackWorkCreeps: bool, attackHostileStructures: bool)

  datatype Phase = ArmedCreeps | AllCreeps | HostileStructures

  datatype SecurityOutcome = Engaged(phase: Phase, e: Engagement) | Parked

  /** The answers of the calls `run` makes: `attack` and `moveTo` on creeps and on structures. */
  datatype Answers = Answers(attackCreep: HostileCreep -> ErrorCode, moveToCreep: HostileCreep -> ErrorCode,
                             attackStructure: Structure -> ErrorCode, moveToStructure: Structure -> ErrorCode)

  predicate ArmedPass(hostiles: seq<HostileCreep>, a: Answers) {
    NoneEnds(Filter(hostiles, Armed), a.attackCreep, a.moveToCreep)
  }

  predicate AllCreepsPass(cfg: SecurityConfig, hostiles: seq<HostileCreep>, a: Answers) {
    !cfg.attackWorkCreeps || NoneEnds(hostiles, a.attackCreep, a.moveToCreep)
  }

  predicate StructuresPass(cfg: SecurityConfig, structures: seq<Structure>, a: Answers) {
    !cfg.attackHostileStructures || NoneEnds(structures, a.attackStructure, a.moveToStructure)
  }

  /** `run`: the three attack loops in priority order, each over the hostiles of the room
      (`hostiles`, `structures`); the first that ends the tick decides it, and the creep parks
      when none does. */
  method Run(cfg: SecurityConfig, hostiles: seq<HostileCreep>, structures: seq<Structure>, a: Answers)
    returns (outcome: SecurityOutcome)
    ensures outcome.Engaged? ==> !outcome.e.Exhausted?
    ensures outcome.Engaged? && outcome.phase == ArmedCreeps <==> !ArmedPass(hostiles, a)
    ensures outcome.Engaged? && outcome.phase == ArmedCreeps ==>
      Describes(outcome.e, Filter(hostiles, Armed), a.attackCreep, a.moveToCreep)
    ensures outcome.Engaged? && outcome.phase == AllCreeps <==> ArmedPass(hostiles, a) && !AllCreepsPass(cfg, hostiles, a)
    ensures outcome.Engaged? && outcome.phase == AllCreeps ==>
      cfg.attackWorkCreeps && Describes(outcome.e, hostiles, a.attackCreep, a.moveToCreep)
    // an armed creep got the same answers in the first loop and would have ended it there
    ensures outcome.Engaged? && outcome.phase == AllCreeps ==> !Armed(hostiles[outcome.e.i])
    ensures outcome.Engaged? && outcome.phase == HostileStructures <==>
      ArmedPass(hostiles, a) && AllCreepsPass(cfg, hostiles, a) && !StructuresPass(cfg, structures, a)
    ensures outcome.Engaged? && outcome.phase == HostileStructures ==>
      cfg.attackHostileStructures && Describes(outcome.e, structures, a.attackStructure, a.moveToStructure)
    ensures outcome.Parked? <==>
      ArmedPass(hostiles, a) && AllCreepsPass(cfg, hostiles, a) && StructuresPass(cfg, structures, a)
  {
    var attackCreeps := GetAttackCreeps(hostiles);
    var e := Engage(attackCreeps, a.attackCreep, a.moveToCreep);
    if !e.Exhausted? {
      return Engaged(ArmedCreeps, e);
    }
    if cfg.attackWorkCreeps {
      e := Engage(hostiles, a.attackCreep, a.moveToCreep);
      if !e.Exhausted? {
        return Engaged(AllCreeps, e);
      }
    }
    if cfg.attackHostileStructures {
      e := Engage(structures, a.attackStructure, a.moveToStructure);
      if !e.Exhausted? {
        return Engaged(HostileStructures, e);
      }
    }
    return Parked;
  }
}
