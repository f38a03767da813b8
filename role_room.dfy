/** role.room: the per-room driver of the legacy roles. It tops up the configured number of
    creeps per role, sends creeps to the rooms they are extradited to, and dispatches each
    creep of the room to its role. The room's configuration (`config.cell`) is an input. */
module RoleRoom {
  import opened Screeps
  import HarvestSource

  /** The roles `runCreeps` dispatches, in the order of its tests. */
  const ROLES: seq<string> :=
    ["harvester", "constructor", "upgrader", "repair", "security", "claim", "logistics", "mineralHarvester"]

  /** A role of the room's SPAWN table; a role whose entry is undefined has no quota. */
  datatype SpawnQuota = SpawnQuota(role: string, nCreeps: Option<nat>)

  /** A creep type of one room of the EXTRADITED_CREEPS table; None is an undefined entry. */
  datatype TypeQuota = TypeQuota(creepType: string, nCreeps: Option<int>)

  datatype Extradition = Extradition(room: string, types: seq<TypeQuota>)

  /** The part of a room's configuration this module reads, tables in key order. */
  datatype RoomConfig = RoomConfig(spawn: seq<SpawnQuota>, extradited: seq<Extradition>)

  // ----- Counting creeps -----

  predicate HomeRole(c: Creep, home: string, role: string) {
    c.home == home && c.role == role
  }

  /** The number of creeps of a home room with a role. */
  function CountHomeRole(creeps: seq<Creep>, home: string, role: string): (n: nat)
    ensures n <= |creeps|
  {
    if creeps == [] then 0
    else
      var last := if HomeRole(creeps[|creeps| - 1], home, role) then 1 else 0;
      CountHomeRole(creeps[..|creeps| - 1], home, role) + last
  }

  /** The count is positive exactly when some creep has that home and role. */
  lemma {:induction false} CountHomeRolePositive(creeps: seq<Creep>, home: string, role: string)
    ensures CountHomeRole(creeps, home, role) > 0 <==> exists i :: 0 <= i < |creeps| && HomeRole(creeps[i], home, role)
  {
    if creeps != [] {
      var init := creeps[..|creeps| - 1];
      CountHomeRolePositive(init, home, role);
      assert forall i :: 0 <= i < |init| ==> init[i] == creeps[i];
    }
  }

  /** `getCreepsForRoom`: counts the creeps of `Game.creeps` whose home and role match. */
  method GetCreepsForRoom(creeps: seq<Creep>, homeRoom: string, role: string) returns (n: nat)
    ensures n == CountHomeRole(creeps, homeRoom, role)
  {
    n := 0;
    var c := 0;
    while c < |creeps|
      invariant c <= |creeps|
      invariant n == CountHomeRole(creeps[..c], homeRoom, role)
    {
      assert creeps[..c + 1][..c] == creeps[..c];
      if creeps[c].home == homeRoom && creeps[c].role == role {
        n := n + 1;
      }
      c := c + 1;
    }
    assert creeps[..c] == creeps;
  }

  // ----- Spawning -----

  /** The role at `k` of the table has a quota the room's creeps do not reach. */
  predicate Wanted(spawn: seq<SpawnQuota>, creeps: seq<Creep>, home: string, k: int) {
    0 <= k < |spawn| && spawn[k].nCreeps.Some? &&
    CountHomeRole(creeps, home, spawn[k].role) < spawn[k].nCreeps.value
  }

  /** A spawn result that ends `spawnCreeps`. */
  predicate EndsSpawning(e: ErrorCode) {
    e == OK || e == ERR_NOT_ENOUGH_ENERGY
  }

  predicate Increasing(s: seq<nat>) {
    forall p, q :: 0 <= p < q < |s| ==> s[p] < s[q]
  }

  /** The table positions the walk of `spawnCreeps` asks for from position `k` on. */
  function SpawnWalk(spawn: seq<SpawnQuota>, creeps: seq<Creep>, home: string,
                     spawnResult: string -> ErrorCode, k: nat): seq<nat>
    decreases |spawn| - k
  {
    if k >= |spawn| then []
    else if !Wanted(spawn, creeps, home, k) then SpawnWalk(spawn, creeps, home, spawnResult, k + 1)
    else if EndsSpawning(spawnResult(spawn[k].role)) then [k]
    else [k] + SpawnWalk(spawn, creeps, home, spawnResult, k + 1)
  }

  /** The walk asks, in increasing order, only for roles below their quota. */
  lemma {:induction false} SpawnWalkWanted(spawn: seq<SpawnQuota>, creeps: seq<Creep>, home: string,
                                           spawnResult: string -> ErrorCode, k: nat)
    ensures var w := SpawnWalk(spawn, creeps, home, spawnResult, k);
      Increasing(w) && forall q :: 0 <= q < |w| ==> k <= w[q] && Wanted(spawn, creeps, home, w[q])
    decreases |spawn| - k
  {
    if k < |spawn| {
      var next := k + 1;
      SpawnWalkWanted(spawn, creeps, home, spawnResult, next);
      if !Wanted(spawn, creeps, home, k) {
        assert SpawnWalk(spawn, creeps, home, spawnResult, k) == SpawnWalk(spawn, creeps, home, spawnResult, next);
      } else if EndsSpawning(spawnResult(spawn[k].role)) {
        assert SpawnWalk(spawn, creeps, home, spawnResult, k) == [k];
      } else {
        assert SpawnWalk(spawn, creeps, home, spawnResult, k) == [k] + SpawnWalk(spawn, creeps, home, spawnResult, next);
        assert forall q :: 0 < q < |SpawnWalk(spawn, creeps, home, spawnResult, k)| ==>
          SpawnWalk(spawn, creeps, home, spawnResult, k)[q] == SpawnWalk(spawn, creeps, home, spawnResult, next)[q - 1];
      }
    }
  }

  /** Only the last answer of the walk can be OK or ERR_NOT_ENOUGH_ENERGY. */
  lemma {:induction false} SpawnWalkEndsLast(spawn: seq<SpawnQuota>, creeps: seq<Creep>, home: string,
                                             spawnResult: string -> ErrorCode, k: nat)
    ensures var w := SpawnWalk(spawn, creeps, home, spawnResult, k);
      forall q :: 0 <= q < |w| - 1 ==> w[q] < |spawn| && !EndsSpawning(spawnResult(spawn[w[q]].role))
    decreases |spawn| - k
  {
    if k < |spawn| {
      var next := k + 1;
      SpawnWalkEndsLast(spawn, creeps, home, spawnResult, next);
      assert forall q :: 0 <= q < |SpawnWalk(spawn, creeps, home, spawnResult, next)| - 1 ==>
        SpawnWalk(spawn, creeps, home, spawnResult, next)[q] < |spawn| &&
        !EndsSpawning(spawnResult(spawn[SpawnWalk(spawn, creeps, home, spawnResult, next)[q]].role));
      if !Wanted(spawn, creeps, home, k) {
        assert SpawnWalk(spawn, creeps, home, spawnResult, k) == SpawnWalk(spawn, creeps, home, spawnResult, next);
      } else if !EndsSpawning(spawnResult(spawn[k].role)) {
        assert SpawnWalk(spawn, creeps, home, spawnResult, k) == [k] + SpawnWalk(spawn, creeps, home, spawnResult, next);
      }
    }
  }

  /** Every role below its quota from `k` on is asked for, unless the walk has stopped
      earlier at an answer OK or ERR_NOT_ENOUGH_ENERGY. */
  lemma {:induction false} SpawnWalkComplete(spawn: seq<SpawnQuota>, creeps: seq<Creep>, home: string,
                                             spawnResult: string -> ErrorCode, k: nat)
    ensures var w := SpawnWalk(spawn, creeps, home, spawnResult, k);
      forall j :: k <= j < |spawn| && Wanted(spawn, creeps, home, j) ==>
        j in w || (w != [] && w[|w| - 1] < j && EndsSpawning(spawnResult(spawn[w[|w| - 1]].role)))
    decreases |spawn| - k
  {
    if k < |spawn| {
      SpawnWalkComplete(spawn, creeps, home, spawnResult, k + 1);
      SpawnWalkWanted(spawn, creeps, home, spawnResult, k + 1);
    }
  }

  /** `spawnCreeps`: walks the SPAWN table in order and asks `roleSpawn.spawnCreep` (whose
      answer for a role is `spawnResult`) for a creep of every role below its quota, until an
      answer is OK or ERR_NOT_ENOUGH_ENERGY. `tried` lists the table positions asked for. A
      room without configuration asks for nothing. */
  method SpawnCreeps(config: Option<RoomConfig>, creeps: seq<Creep>, roomID: string,
                     spawnResult: string -> ErrorCode) returns (tried: seq<nat>)
    ensures config.None? ==> tried == []
    ensures config.Some? ==> tried == SpawnWalk(config.value.spawn, creeps, roomID, spawnResult, 0)
  {
    tried := [];
    if config.None? {
      return;
    }
    var spawnCfg := config.value.spawn;
    var k: nat := 0;
    while k < |spawnCfg|
      invariant k <= |spawnCfg|
      invariant tried + SpawnWalk(spawnCfg, creeps, roomID, spawnResult, k) ==
        SpawnWalk(spawnCfg, creeps, roomID, spawnResult, 0)
    {
      var creepCfg := spawnCfg[k];
      if creepCfg.nCreeps.Some? {
        var nCreeps := GetCreepsForRoom(creeps, roomID, creepCfg.role);
        if nCreeps < creepCfg.nCreeps.value {
          var err := spawnResult(creepCfg.role);
          tried := tried + [k];
          if EndsSpawning(err) {
            return;
          }
        }
      }
      k := k + 1;
    }
  }

  // ----- Extraditions -----

  /** The memory fields of a creep that extraditions read and write. */
  datatype CreepMem = CreepMem(home: string, role: string, room: string, target: LegacyTarget)

  function MemOf(c: Creep): CreepMem
    reads c
  {
    CreepMem(c.home, c.role, c.room, c.targetSource)
  }

  function Mems(creeps: seq<Creep>): (ms: seq<CreepMem>)
    reads set c | c in creeps
    ensures |ms| == |creeps|
    ensures forall i :: 0 <= i < |creeps| ==> ms[i] == MemOf(creeps[i])
  {
    if creeps == [] then [] else [MemOf(creeps[0])] + Mems(creeps[1..])
  }

  lemma MemsMatch(creeps: seq<Creep>, ms: seq<CreepMem>)
    requires |ms| == |creeps|
    requires forall i :: 0 <= i < |creeps| ==> ms[i] == MemOf(creeps[i])
    ensures Mems(creeps) == ms
  {
  }

  /** A creep of the home room with the type that still sits in its home room. */
  predicate Candidate(m: CreepMem, home: string, creepType: string) {
    m.home == home && m.room == m.home && m.role == creepType
  }

  /** A creep of the home room with the type that is already assigned to `room`. */
  predicate InRoom(m: CreepMem, home: string, room: string, creepType: string) {
    m.home == home && m.room == room && m.role == creepType
  }

  /** The positions of the candidates, in order. */
  function Candidates(ms: seq<CreepMem>, home: string, creepType: string): (cs: seq<nat>)
    ensures Increasing(cs) && forall p :: 0 <= p < |cs| ==> cs[p] < |ms|
    ensures forall i :: i in cs <==> 0 <= i < |ms| && Candidate(ms[i], home, creepType)
  {
    if ms == [] then []
    else
      var init := Candidates(ms[..|ms| - 1], home, creepType);
      assert forall p :: 0 <= p < |init| ==> init[p] in init;
      init + (if Candidate(ms[|ms| - 1], home, creepType) then [|ms| - 1] else [])
  }

  function CountInRoom(ms: seq<CreepMem>, home: string, room: string, creepType: string): (n: nat)
    ensures n <= |ms|
  {
    if ms == [] then 0
    else
      var last := if InRoom(ms[|ms| - 1], home, room, creepType) then 1 else 0;
      CountInRoom(ms[..|ms| - 1], home, room, creepType) + last
  }

  /** How many candidates the loop of `sendExtraditions` sends: none when the quota is
      already met, otherwise up to the missing number. */
  function SendCount(ms: seq<CreepMem>, home: string, room: string, creepType: string, quota: int): (k: nat)
    ensures k <= |Candidates(ms, home, creepType)|
    ensures k == 0 || k <= quota - CountInRoom(ms, home, room, creepType)
    ensures k == |Candidates(ms, home, creepType)| || k == quota - CountInRoom(ms, home, room, creepType)
      || quota - CountInRoom(ms, home, room, creepType) <= 0
  {
    var missing := quota - CountInRoom(ms, home, room, creepType);
    var cands := |Candidates(ms, home, creepType)|;
    if missing <= 0 then 0 else if missing < cands then missing else cands
  }

  /** What `clearTarget` leaves of a target that is not undefined. */
  function Cleared(t: LegacyTarget): LegacyTarget {
    if t == Unset then Unset else Id("")
  }

  /** The creeps at the positions `sent` get `room`, and those with a target have it
      cleared. */
  function SendTo(ms: seq<CreepMem>, sent: seq<nat>, room: string): (r: seq<CreepMem>)
    ensures |r| == |ms|
    ensures forall i :: 0 <= i < |ms| ==>
      r[i] == if i in sent then ms[i].(room := room, target := Cleared(ms[i].target)) else ms[i]
  {
    seq(|ms|, i requires 0 <= i < |ms| =>
      if i in sent then ms[i].(room := room, target := Cleared(ms[i].target)) else ms[i])
  }

  /** One creep type of one room: the first `SendCount` candidates are sent. */
  function ExtraditeType(ms: seq<CreepMem>, home: string, room: string, creepType: string, quota: int)
    : (r: seq<CreepMem>)
    ensures |r| == |ms|
  {
    SendTo(ms, Candidates(ms, home, creepType)[..SendCount(ms, home, room, creepType, quota)], room)
  }

  /** The types of one room, in order; an undefined type entry throws and stops everything. */
  function ExtraditeRoom(ms: seq<CreepMem>, home: string, room: string, types: seq<TypeQuota>)
    : (r: (seq<CreepMem>, bool))
    ensures |r.0| == |ms|
    decreases types
  {
    if types == [] then (ms, false)
    else if types[0].nCreeps.None? then (ms, true)
    else ExtraditeRoom(ExtraditeType(ms, home, room, types[0].creepType, types[0].nCreeps.value),
                       home, room, types[1..])
  }

  /** The rooms of the EXTRADITED_CREEPS table, in order, as far as none throws. */
  function ExtraditeAll(ms: seq<CreepMem>, home: string, table: seq<Extradition>)
    : (r: (seq<CreepMem>, bool))
    ensures |r.0| == |ms|
    decreases table
  {
    if table == [] then (ms, false)
    else
      var step := ExtraditeRoom(ms, home, table[0].room, table[0].types);
      if step.1 then step else ExtraditeAll(step.0, home, table[1..])
  }

  /** The loop of `sendExtraditions` for one creep type: the first `SendCount` candidates,
      in the order of `Game.creeps`, get the room, and those with a target have it cleared
      with `clearTarget` of harvest.source. */
  method ExtraditeTypeStep(creeps: seq<Creep>, homeRoom: string, room: string, creepType: string, quota: int)
    requires Distinct(creeps)
    modifies set c | c in creeps
    ensures Mems(creeps) == ExtraditeType(old(Mems(creeps)), homeRoom, room, creepType, quota)
    ensures forall c :: c in creeps ==> c.harvesting == old(c.harvesting)
  {
    var ms := Mems(creeps);
    var cands := Candidates(ms, homeRoom, creepType);
    var nExtradited := CountInRoom(ms, homeRoom, room, creepType);
    var sent := SendFirst(creeps, cands, quota - nExtradited, room, ms);
    assert sent == SendCount(ms, homeRoom, room, creepType, quota);
    ghost var r := SendTo(ms, cands[..sent], room);
    assert forall j :: 0 <= j < |creeps| ==> r[j] == MemOf(creeps[j]);
    MemsMatch(creeps, r);
  }

  /** The loop of `extraditeType`: the candidates are sent in order while fewer than `missing`
      have gone. `ms` is what the creeps held before. */
  method SendFirst(creeps: seq<Creep>, cands: seq<nat>, missing: int, room: string,
                   ghost ms: seq<CreepMem>)
    returns (sent: nat)
    requires Distinct(creeps) && |ms| == |creeps|
    requires Increasing(cands) && forall p :: 0 <= p < |cands| ==> cands[p] < |creeps|
    requires forall j :: 0 <= j < |creeps| ==>
      creeps[j].room == ms[j].room && creeps[j].targetSource == ms[j].target
    modifies set c | c in creeps
    ensures sent <= |cands| && (sent == 0 || sent <= missing)
    ensures sent == |cands| || sent == missing || missing <= 0
    ensures forall j :: 0 <= j < |creeps| ==>
      creeps[j].room == SendTo(ms, cands[..sent], room)[j].room &&
      creeps[j].targetSource == SendTo(ms, cands[..sent], room)[j].target
    ensures forall j :: 0 <= j < |creeps| ==> creeps[j].harvesting == old(creeps[j].harvesting)
  {
    ghost var cur := ms;
    assert SendTo(ms, cands[..0], room) == ms;
    sent := 0;
    while sent < missing && sent < |cands|
      invariant sent <= |cands| && (sent == 0 || sent <= missing)
      invariant cur == SendTo(ms, cands[..sent], room)
      invariant forall j :: 0 <= j < |creeps| ==>
        creeps[j].room == cur[j].room && creeps[j].targetSource == cur[j].target
      invariant forall j :: 0 <= j < |creeps| ==> creeps[j].harvesting == old(creeps[j].harvesting)
    {
      var k := cands[sent];
      assert k !in cands[..sent];
      assert cur[k] == ms[k];
      ghost var before := cur;
      SendOne(creeps, k, room);
      SendToSnoc(ms, cands[..sent], k, room);
      TakeSnoc(cands, sent);
      cur := cur[k := ms[k].(room := room, target := Cleared(ms[k].target))];
      assert forall j :: 0 <= j < |creeps| && j != k ==> cur[j] == before[j];
      sent := sent + 1;
    }
  }

  /** One pass of that loop: the creep at `k` gets the room and loses its target; no other
      creep changes. */
  method SendOne(creeps: seq<Creep>, k: nat, room: string)
    requires Distinct(creeps) && k < |creeps|
    modifies creeps[k]
    ensures creeps[k].room == room && creeps[k].targetSource == Cleared(old(creeps[k].targetSource))
    ensures creeps[k].harvesting == old(creeps[k].harvesting)
    ensures forall j :: 0 <= j < |creeps| && j != k ==>
      creeps[j].room == old(creeps[j].room) && creeps[j].targetSource == old(creeps[j].targetSource)
  {
    var c := creeps[k];
    c.room := room;
    if c.targetSource != Unset {
      HarvestSource.ClearTarget(c);
    }
  }

  lemma TakeSnoc<T>(s: seq<T>, i: nat)
    requires i < |s|
    ensures s[..i + 1] == s[..i] + [s[i]]
  {
  }

  lemma SendToSnoc(ms: seq<CreepMem>, sent: seq<nat>, k: nat, room: string)
    requires k < |ms| && k !in sent
    ensures SendTo(ms, sent + [k], room) ==
      SendTo(ms, sent, room)[k := ms[k].(room := room, target := Cleared(ms[k].target))]
  {
  }

  /** `sendExtraditions`: every type of every room of the EXTRADITED_CREEPS table in order. It
      throws, with the changes made so far kept, at the first type whose entry is undefined. */
  method SendExtraditions(config: Option<RoomConfig>, creeps: seq<Creep>, homeRoom: string)
    returns (thrown: bool)
    requires Distinct(creeps)
    modifies set c | c in creeps
    ensures config.None? ==> !thrown && Mems(creeps) == old(Mems(creeps))
    ensures config.Some? ==>
      (Mems(creeps), thrown) == ExtraditeAll(old(Mems(creeps)), homeRoom, config.value.extradited)
    ensures forall c :: c in creeps ==> c.harvesting == old(c.harvesting)
  {
    thrown := false;
    if config.None? {
      return;
    }
    ghost var ms0 := Mems(creeps);
    var table := config.value.extradited;
    var r := 0;
    while r < |table|
      invariant r <= |table|
      invariant ExtraditeAll(Mems(creeps), homeRoom, table[r..]) == ExtraditeAll(ms0, homeRoom, table)
      invariant forall c :: c in creeps ==> c.harvesting == old(c.harvesting)
    {
      var room := table[r].room;
      var types := table[r].types;
      ghost var msRoom := Mems(creeps);
      var t := 0;
      while t < |types|
        invariant t <= |types|
        invariant ExtraditeRoom(Mems(creeps), homeRoom, room, types[t..]) == ExtraditeRoom(msRoom, homeRoom, room, types)
        invariant forall c :: c in creeps ==> c.harvesting == old(c.harvesting)
      {
        var typeCfg := types[t].nCreeps;
        if typeCfg.None? {
          assert table[r..][0] == table[r];
          return true;
        }
        assert types[t..][1..] == types[t + 1..];
        ExtraditeTypeStep(creeps, homeRoom, room, types[t].creepType, typeCfg.value);
        t := t + 1;
      }
      assert table[r..][0] == table[r] && table[r..][1..] == table[r + 1..];
      r := r + 1;
    }
  }

  /** The first position of `ts` holding a target, or `|ts|`. */
  function FirstSet(ts: seq<LegacyTarget>): (p: nat)
    ensures p <= |ts| && (p < |ts| ==> ts[p] != Unset)
    ensures forall q :: 0 <= q < p ==> ts[q] == Unset
  {
    if ts == [] then 0 else if ts[0] != Unset then 0 else 1 + FirstSet(ts[1..])
  }

  /** The `q`-th creep sent has a target. */
  predicate SentWithTarget(ms: seq<CreepMem>, home: string, room: string, creepType: string, quota: int, q: int) {
    0 <= q < SendCount(ms, home, room, creepType, quota) &&
    ms[Candidates(ms, home, creepType)[q]].target != Unset
  }

  /** The loop of `sendExtraditions` for one creep type as written: `clearTarget` is looked up
      on role.harvester, which has none, so the first sent creep with a target throws a
      TypeError after its room is set and with its target kept. Returns the memories and
      whether the loop threw. */
  function ExtraditeTypeAsWritten(ms: seq<CreepMem>, home: string, room: string, creepType: string, quota: int)
    : (r: (seq<CreepMem>, bool))
    ensures |r.0| == |ms|
    ensures r.1 <==> exists q :: SentWithTarget(ms, home, room, creepType, quota, q)
    ensures forall i :: 0 <= i < |ms| ==> r.0[i].target == ms[i].target
  {
    var cands := Candidates(ms, home, creepType);
    var k := SendCount(ms, home, room, creepType, quota);
    var ts := seq(k, q requires 0 <= q < k => ms[cands[q]].target);
    var p := FirstSet(ts);
    assert p < k ==> SentWithTarget(ms, home, room, creepType, quota, p);
    assert forall q :: SentWithTarget(ms, home, room, creepType, quota, q) ==> ts[q] != Unset;
    (SetRooms(ms, cands[..if p < k then p + 1 else k], room), p < k)
  }

  /** The creeps at the positions `moved` get `room` and keep their target. */
  function SetRooms(ms: seq<CreepMem>, moved: seq<nat>, room: string): (r: seq<CreepMem>)
    ensures |r| == |ms|
    ensures forall i :: 0 <= i < |ms| ==> r[i] == if i in moved then ms[i].(room := room) else ms[i]
  {
    seq(|ms|, i requires 0 <= i < |ms| => if i in moved then ms[i].(room := room) else ms[i])
  }

  /** One harvester at home with a target, a quota of one for another room: as written the
      loop throws and the creep keeps its target; the corrected loop sends it with its
      target cleared. */
  lemma ExtraditionThrows()
    ensures var ms := [CreepMem("W1N1", "harvester", "W1N1", Id("src"))];
      ExtraditeTypeAsWritten(ms, "W1N1", "W2N1", "harvester", 1).1 &&
      ExtraditeTypeAsWritten(ms, "W1N1", "W2N1", "harvester", 1).0[0].target == Id("src") &&
      ExtraditeType(ms, "W1N1", "W2N1", "harvester", 1) == [CreepMem("W1N1", "harvester", "W2N1", Id(""))]
  {
    var ms := [CreepMem("W1N1", "harvester", "W1N1", Id("src"))];
    assert Candidates(ms, "W1N1", "harvester") == [0];
    assert CountInRoom(ms, "W1N1", "W2N1", "harvester") == 0;
    assert SendCount(ms, "W1N1", "W2N1", "harvester", 1) == 1;
    assert SentWithTarget(ms, "W1N1", "W2N1", "harvester", 1, 0);
    assert [0][..1] == [0];
  }

  /** Extraditing sends exactly the missing number of creeps, as far as there are
      candidates: afterwards the room holds the number it held plus `SendCount`, so never
      more than the quota when it was below it. Nothing outside the sent candidates changes,
      and the sent ones keep home and role and have no target left. */
  lemma {:induction false} ExtraditeTypeFacts(ms: seq<CreepMem>, home: string, room: string, creepType: string, quota: int)
    requires room != home
    ensures var r := ExtraditeType(ms, home, room, creepType, quota);
      CountInRoom(r, home, room, creepType) ==
        CountInRoom(ms, home, room, creepType) + SendCount(ms, home, room, creepType, quota)
    ensures var r := ExtraditeType(ms, home, room, creepType, quota);
      forall i :: 0 <= i < |ms| ==> r[i].home == ms[i].home && r[i].role == ms[i].role
    ensures var r := ExtraditeType(ms, home, room, creepType, quota);
      forall i :: 0 <= i < |ms| && r[i] != ms[i] ==>
        Candidate(ms[i], home, creepType) && r[i].room == room && !TargetTruthy(r[i].target)
  {
    var cands := Candidates(ms, home, creepType);
    var sent := cands[..SendCount(ms, home, room, creepType, quota)];
    assert forall i :: i in sent ==> i in cands;
    SentCount(ms, home, room, creepType, sent);
    var r := ExtraditeType(ms, home, room, creepType, quota);
    assert r == SendTo(ms, sent, room);
    forall i | 0 <= i < |ms| && r[i] != ms[i]
      ensures Candidate(ms[i], home, creepType) && r[i].room == room && !TargetTruthy(r[i].target)
    {
      assert i in sent;
    }
  }

  /** Sending candidates to a room adds one to its count per candidate. */
  lemma {:induction false} SentCount(ms: seq<CreepMem>, home: string, room: string, creepType: string, sent: seq<nat>)
    requires room != home
    requires forall i :: i in sent ==> 0 <= i < |ms| && Candidate(ms[i], home, creepType)
    requires Increasing(sent)
    ensures CountInRoom(SendTo(ms, sent, room), home, room, creepType) == CountInRoom(ms, home, room, creepType) + |sent|
  {
    if sent == [] {
      assert SendTo(ms, sent, room) == ms;
    } else {
      var m := sent[|sent| - 1];
      var rest := sent[..|sent| - 1];
      assert sent == rest + [m];
      assert forall i :: i in rest ==> i in sent;
      SentCount(ms, home, room, creepType, rest);
      assert m in sent;
      var before := SendTo(ms, rest, room);
      var x := ms[m].(room := room, target := Cleared(ms[m].target));
      assert m !in rest by {
        assert forall q :: 0 <= q < |rest| ==> rest[q] < m;
      }
      SendToSnoc(ms, rest, m, room);
      assert before[m] == ms[m];
      CountUpdate(before, m, x, home, room, creepType);
    }
  }

  /** Replacing one entry changes the count by what the entry contributes. */
  lemma {:induction false} CountUpdate(s: seq<CreepMem>, m: nat, x: CreepMem, home: string, room: string, creepType: string)
    requires m < |s|
    ensures CountInRoom(s[m := x], home, room, creepType) + (if InRoom(s[m], home, room, creepType) then 1 else 0) ==
      CountInRoom(s, home, room, creepType) + (if InRoom(x, home, room, creepType) then 1 else 0)
  {
    var n := |s| - 1;
    var u := s[m := x];
    if m == n {
      assert u[..n] == s[..n];
    } else {
      assert u[..n] == s[..n][m := x];
      CountUpdate(s[..n], m, x, home, room, creepType);
    }
  }

  // ----- Running the creeps -----

  /** What `runCreeps` does with one creep: travel to its assigned room, run its role, or
      nothing for a role it does not know. */
  datatype Turn = Travel(to: string) | RunRole(role: string) | NoRole

  /** The creeps of the home room that have finished spawning, in order. */
  function OwnCreeps(creeps: seq<Creep>, roomID: string): (r: seq<Creep>)
    ensures forall j :: 0 <= j < |r| ==> r[j] in creeps && r[j].home == roomID && !r[j].spawning
    ensures forall j :: 0 <= j < |creeps| && creeps[j].home == roomID && !creeps[j].spawning ==> creeps[j] in r
  {
    if creeps == [] then []
    else
      var last := creeps[|creeps| - 1];
      assert creeps == creeps[..|creeps| - 1] + [last];
      OwnCreeps(creeps[..|creeps| - 1], roomID) + (if last.home == roomID && !last.spawning then [last] else [])
  }

  /** What `runCreeps` does with one of its creeps: a creep outside its assigned room travels
      there, one in it runs the role its memory names, if that is a role at all. */
  function TurnOf(c: Creep): (turn: Turn)
    reads c
    ensures turn.Travel? <==> c.roomName != c.room
    ensures turn.Travel? ==> turn.to == c.room
    ensures turn.RunRole? ==> turn.role == c.role && c.role in ROLES
    ensures turn.NoRole? <==> c.roomName == c.room && c.role !in ROLES
  {
    if c.roomName != c.room then Travel(c.room)
    else if c.role in ROLES then RunRole(c.role)
    else NoRole
  }

  /** `runCreeps`: each creep of the room that is not spawning, in order, takes its turn. */
  method RunCreeps(creeps: seq<Creep>, roomID: string) returns (handled: seq<Creep>, turns: seq<Turn>)
    ensures handled == OwnCreeps(creeps, roomID) && |turns| == |handled|
    ensures forall i :: 0 <= i < |handled| ==> turns[i] == TurnOf(handled[i])
  {
    handled := OwnCreeps(creeps, roomID);
    turns := [];
    var i := 0;
    while i < |handled|
      invariant i <= |handled| && |turns| == i
      invariant forall j :: 0 <= j < i ==> turns[j] == TurnOf(handled[j])
    {
      var creep := handled[i];
      var turn;
      if creep.roomName != creep.room {
        turn := Travel(creep.room);
      } else if creep.role in ROLES {
        turn := RunRole(creep.role);
      } else {
        turn := NoRole;
      }
      turns := turns + [turn];
      i := i + 1;
    }
  }
}
