/** role.tower: a tower attacks hostile creeps, then, as its room's TOWERS configuration
    allows, repairs its owner's damaged structures and heals its owner's damaged creeps, and
    stops at the first call that succeeds. */
module RoleTower {
  import opened Screeps
  import opened CreepRoles

  /** The TOWERS entry of the room's configuration. */
  datatype TowerConfig = TowerConfig(repairEnabled: bool, healEnabled: bool)

  /** A creep of the player's as `room.find(FIND_MY_CREEPS)` returns it. */
  datatype OwnCreep = OwnCreep(id: string, hits: int, hitsMax: int)

  predicate Hurt(c: OwnCreep) {
    c.hits < c.hitsMax
  }

  datatype TowerAction = AttackAction | RepairAction | HealAction

  /** One call the tower makes: the action, the index of its target in the list the loop runs
      over, and the answer. */
  datatype TowerCall = TowerCall(action: TowerAction, index: nat, result: ErrorCode)

  /** A loop that calls `act` on each target from `from` on and stops after the first OK. */
  function Attempts<T>(ts: seq<T>, act: T -> ErrorCode, action: TowerAction, from: nat): seq<TowerCall>
    decreases |ts| - from
  {
    if from >= |ts| then []
    else if act(ts[from]) == OK then [TowerCall(action, from, OK)]
    else [TowerCall(action, from, act(ts[from]))] + Attempts(ts, act, action, from + 1)
  }

  predicate Succeeded(calls: seq<TowerCall>) {
    |calls| > 0 && calls[|calls| - 1].result == OK
  }

  /** The calls of one loop are calls of its action on the targets in order, every one but the
      last fails, and the loop succeeds exactly when some target answers OK. */
  lemma {:induction false} AttemptsFacts<T>(ts: seq<T>, act: T -> ErrorCode, action: TowerAction, from: nat)
    requires from <= |ts|
    ensures |Attempts(ts, act, action, from)| <= |ts| - from
    ensures forall q :: 0 <= q < |Attempts(ts, act, action, from)| ==>
      from + q < |ts| && Attempts(ts, act, action, from)[q] == TowerCall(action, from + q, act(ts[from + q]))
    ensures forall q :: 0 <= q < |Attempts(ts, act, action, from)| - 1 ==> Attempts(ts, act, action, from)[q].result != OK
    ensures Succeeded(Attempts(ts, act, action, from)) <==> exists j :: from <= j < |ts| && act(ts[j]) == OK
    decreases |ts| - from
  {
    if from < |ts| && act(ts[from]) != OK {
      AttemptsFacts(ts, act, action, from + 1);
      var rest := Attempts(ts, act, action, from + 1);
      assert Attempts(ts, act, action, from) == [TowerCall(action, from, act(ts[from]))] + rest;
      if Succeeded(rest) {
        var j :| from + 1 <= j < |ts| && act(ts[j]) == OK;
        assert from <= j;
      }
    }
  }

  /** The calls of `run`: attacks until one succeeds; then, when enabled, repairs of the damaged
      structures until one succeeds; then, when enabled, heals of the hurt creeps. */
  function TowerCalls(cfg: TowerConfig, hostiles: seq<string>, structures: seq<Structure>, creeps: seq<OwnCreep>,
                      attack: string -> ErrorCode, repair: Structure -> ErrorCode, heal: OwnCreep -> ErrorCode): seq<TowerCall>
  {
    var attacks := Attempts(hostiles, attack, AttackAction, 0);
    var repairs := if cfg.repairEnabled then Attempts(Filter(structures, IsDamaged), repair, RepairAction, 0) else [];
    var heals := if cfg.healEnabled then Attempts(Filter(creeps, Hurt), heal, HealAction, 0) else [];
    Combined(attacks, repairs, heals)
  }

  /** Some target of the list answers OK. */
  predicate AnyOk<T>(ts: seq<T>, act: T -> ErrorCode) {
    exists j :: 0 <= j < |ts| && act(ts[j]) == OK
  }

  predicate AllButLastFail(calls: seq<TowerCall>) {
    forall q :: 0 <= q < |calls| - 1 ==> calls[q].result != OK
  }

  predicate AllFail(calls: seq<TowerCall>) {
    forall q :: 0 <= q < |calls| ==> calls[q].result != OK
  }

  predicate AllOf(calls: seq<TowerCall>, action: TowerAction) {
    forall q :: 0 <= q < |calls| ==> calls[q].action == action
  }

  /** The calls of one loop are of its action, every one but the last fails, and the last
      succeeds exactly when a target answers OK. */
  lemma LoopFacts<T>(ts: seq<T>, act: T -> ErrorCode, action: TowerAction)
    ensures AllOf(Attempts(ts, act, action, 0), action)
    ensures AllButLastFail(Attempts(ts, act, action, 0))
    ensures Succeeded(Attempts(ts, act, action, 0)) <==> AnyOk(ts, act)
    ensures !Succeeded(Attempts(ts, act, action, 0)) ==> AllFail(Attempts(ts, act, action, 0))
  {
    AttemptsFacts(ts, act, action, 0);
  }

  /** A loop whose calls all failed followed by another loop. */
  lemma ConcatFacts(a: seq<TowerCall>, b: seq<TowerCall>)
    requires AllFail(a) && AllButLastFail(b)
    ensures AllButLastFail(a + b)
    ensures Succeeded(a + b) <==> Succeeded(b)
    ensures !Succeeded(b) && AllFail(b) ==> AllFail(a + b)
  {
    if b == [] {
      assert a + b == a;
    }
  }

  /** The calls of a tick, built from its three loops. */
  lemma {:induction false} TowerCallsShape(cfg: TowerConfig, hostiles: seq<string>, structures: seq<Structure>,
                        creeps: seq<OwnCreep>, attack: string -> ErrorCode, repair: Structure -> ErrorCode,
                        heal: OwnCreep -> ErrorCode)
    ensures var attacks := Attempts(hostiles, attack, AttackAction, 0);
      var repairs := if cfg.repairEnabled then Attempts(Filter(structures, IsDamaged), repair, RepairAction, 0) else [];
      var heals := if cfg.healEnabled then Attempts(Filter(creeps, Hurt), heal, HealAction, 0) else [];
      var calls := TowerCalls(cfg, hostiles, structures, creeps, attack, repair, heal);
      AllButLastFail(calls) &&
      (Succeeded(calls) <==> Succeeded(attacks) || Succeeded(repairs) || Succeeded(heals)) &&
      (Succeeded(attacks) ==> calls == attacks) &&
      (!Succeeded(attacks) && Succeeded(repairs) ==> calls == attacks + repairs && AllFail(attacks)) &&
      (!Succeeded(attacks) && !Succeeded(repairs) ==> calls == attacks + repairs + heals && AllFail(attacks) && AllFail(repairs))
  {
    var damaged, hurt := Filter(structures, IsDamaged), Filter(creeps, Hurt);
    LoopFacts(hostiles, attack, AttackAction);
    LoopFacts(damaged, repair, RepairAction);
    LoopFacts(hurt, heal, HealAction);
    var attacks := Attempts(hostiles, attack, AttackAction, 0);
    var repairs := if cfg.repairEnabled then Attempts(damaged, repair, RepairAction, 0) else [];
    var heals := if cfg.healEnabled then Attempts(hurt, heal, HealAction, 0) else [];
    if !Succeeded(attacks) {
      ConcatFacts(attacks, repairs);
      if !Succeeded(repairs) {
        ConcatFacts(attacks + repairs, heals);
      }
    }
  }

  /** At most one call of a tick succeeds, and only the last; the last succeeds exactly when
      one of the enabled loops has a target that answers OK. */
  lemma TowerCallsSucceed(cfg: TowerConfig, hostiles: seq<string>, structures: seq<Structure>, creeps: seq<OwnCreep>,
                          attack: string -> ErrorCode, repair: Structure -> ErrorCode, heal: OwnCreep -> ErrorCode)
    ensures AllButLastFail(TowerCalls(cfg, hostiles, structures, creeps, attack, repair, heal))
    ensures Succeeded(TowerCalls(cfg, hostiles, structures, creeps, attack, repair, heal)) <==>
      AnyOk(hostiles, attack) ||
      (cfg.repairEnabled && AnyOk(Filter(structures, IsDamaged), repair)) ||
      (cfg.healEnabled && AnyOk(Filter(creeps, Hurt), heal))
  {
    TowerCallsShape(cfg, hostiles, structures, creeps, attack, repair, heal);
    LoopFacts(hostiles, attack, AttackAction);
    LoopFacts(Filter(structures, IsDamaged), repair, RepairAction);
    LoopFacts(Filter(creeps, Hurt), heal, HealAction);
  }

  /** Repairs happen only when enabled and after every attack failed; heals only when enabled
      and after every attack and every repair of a damaged structure failed. */
  lemma TowerCallsOrder(cfg: TowerConfig, hostiles: seq<string>, structures: seq<Structure>, creeps: seq<OwnCreep>,
                        attack: string -> ErrorCode, repair: Structure -> ErrorCode, heal: OwnCreep -> ErrorCode)
    ensures var calls := TowerCalls(cfg, hostiles, structures, creeps, attack, repair, heal);
      forall q :: 0 <= q < |calls| && calls[q].action == RepairAction ==>
        cfg.repairEnabled && !AnyOk(hostiles, attack)
    ensures var calls := TowerCalls(cfg, hostiles, structures, creeps, attack, repair, heal);
      forall q :: 0 <= q < |calls| && calls[q].action == HealAction ==>
        cfg.healEnabled && !AnyOk(hostiles, attack) &&
        (cfg.repairEnabled ==> !AnyOk(Filter(structures, IsDamaged), repair))
  {
    TowerCallsShape(cfg, hostiles, structures, creeps, attack, repair, heal);
    var damaged, hurt := Filter(structures, IsDamaged), Filter(creeps, Hurt);
    LoopFacts(hostiles, attack, AttackAction);
    LoopFacts(damaged, repair, RepairAction);
    LoopFacts(hurt, heal, HealAction);
    var attacks := Attempts(hostiles, attack, AttackAction, 0);
    var repairs := if cfg.repairEnabled then Attempts(damaged, repair, RepairAction, 0) else [];
    var heals := if cfg.healEnabled then Attempts(hurt, heal, HealAction, 0) else [];
    CombinedOrigin(attacks, repairs, heals);
  }

  /** The calls of the three loops as `run` combines them: each loop runs only when the
      earlier ones did not succeed. */
  function Combined(a: seq<TowerCall>, r: seq<TowerCall>, h: seq<TowerCall>): seq<TowerCall> {
    if Succeeded(a) then a else if Succeeded(r) then a + r else a + r + h
  }

  lemma CombinedOrigin(a: seq<TowerCall>, r: seq<TowerCall>, h: seq<TowerCall>)
    requires AllOf(a, AttackAction) && AllOf(r, RepairAction) && AllOf(h, HealAction)
    ensures forall q :: 0 <= q < |Combined(a, r, h)| && Combined(a, r, h)[q].action == RepairAction ==>
      !Succeeded(a) && |r| > 0
    ensures forall q :: 0 <= q < |Combined(a, r, h)| && Combined(a, r, h)[q].action == HealAction ==>
      !Succeeded(a) && !Succeeded(r) && |h| > 0
  {
    forall q | 0 <= q < |Combined(a, r, h)| && Combined(a, r, h)[q].action != AttackAction
      ensures !Succeeded(a)
      ensures Combined(a, r, h)[q].action == RepairAction ==> |r| > 0
      ensures Combined(a, r, h)[q].action == HealAction ==> |h| > 0 && !Succeeded(r)
    {
      if !Succeeded(a) && Succeeded(r) {
        assert Combined(a, r, h) == a + r + [];
        Origin(a, r, [], q);
      } else if !Succeeded(a) {
        Origin(a, r, h, q);
      }
    }
  }

  /** A call in the concatenation of an attack, a repair and a heal loop comes from one of them. */
  lemma Origin(a: seq<TowerCall>, r: seq<TowerCall>, h: seq<TowerCall>, q: int)
    requires AllOf(a, AttackAction) && AllOf(r, RepairAction) && AllOf(h, HealAction)
    requires 0 <= q < |a + r + h|
    ensures (a + r + h)[q].action == RepairAction ==> |r| > 0
    ensures (a + r + h)[q].action == HealAction ==> |h| > 0
  {
    if q < |a| {
      assert (a + r + h)[q] == a[q];
    } else if q < |a| + |r| {
      assert (a + r + h)[q] == r[q - |a|];
    } else {
      assert (a + r + h)[q] == h[q - |a| - |r|];
    }
  }

  /** One loop of `run`. */
  method TryEach<T>(ts: seq<T>, act: T -> ErrorCode, action: TowerAction) returns (calls: seq<TowerCall>)
    ensures calls == Attempts(ts, act, action, 0)
  {
    calls := [];
    var i := 0;
    while i < |ts|
      invariant 0 <= i <= |ts|
      invariant Attempts(ts, act, action, 0) == calls + Attempts(ts, act, action, i)
    {
      var err := act(ts[i]);
      if err == OK {
        assert Attempts(ts, act, action, i) == [TowerCall(action, i, OK)];
        calls := calls + [TowerCall(action, i, err)];
        return;
      }
      assert Attempts(ts, act, action, i) == [TowerCall(action, i, err)] + Attempts(ts, act, action, i + 1);
      calls := calls + [TowerCall(action, i, err)];
      i := i + 1;
    }
  }

  /** `run` for a tower whose room holds the hostile creeps `hostiles`, the player's
      structures `structures` and the player's creeps `creeps`; `attack`, `repair` and `heal`
      are the answers of the tower's calls. */
  method Run(cfg: TowerConfig, hostiles: seq<string>, structures: seq<Structure>, creeps: seq<OwnCreep>,
             attack: string -> ErrorCode, repair: Structure -> ErrorCode, heal: OwnCreep -> ErrorCode)
    returns (calls: seq<TowerCall>)
    ensures calls == TowerCalls(cfg, hostiles, structures, creeps, attack, repair, heal)
  {
    var attacks := TryEach(hostiles, attack, AttackAction);
    if Succeeded(attacks) {
      return attacks;
    }
    var repairs := [];
    if cfg.repairEnabled {
      repairs := TryEach(Filter(structures, IsDamaged), repair, RepairAction);
    }
    if Succeeded(repairs) {
      return attacks + repairs;
    }
    var heals := [];
    if cfg.healEnabled {
      heals := TryEach(Filter(creeps, Hurt), heal, HealAction);
    }
    return attacks + repairs + heals;
  }
}
