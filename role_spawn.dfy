/** role.spawn: creep bodies built from a segment, and the guard sequence that asks a free
    spawn of the room for a new creep. */
module RoleSpawn {
  import opened Screeps

  /** One key of a segment object: a body part and how many of it one segment holds. The keys
      are visited in the order the object lists them. */
  datatype SegmentEntry = SegmentEntry(part: BodyPart, count: nat)

  type Segment = seq<SegmentEntry>

  // ----- Segment arithmetic -----

  /** The number of parts of one segment. */
  function PartsPerSegment(segment: Segment): nat {
    if segment == [] then 0
    else PartsPerSegment(segment[..|segment| - 1]) + segment[|segment| - 1].count
  }

  /** The energy one segment costs. */
  function CostPerSegment(segment: Segment): nat {
    if segment == [] then 0
    else CostPerSegment(segment[..|segment| - 1]) + PartCost(segment[|segment| - 1].part) * segment[|segment| - 1].count
  }

  /** How many parts `p` one segment holds, over all of its keys. */
  function SegmentCount(segment: Segment, p: BodyPart): nat {
    if segment == [] then 0
    else SegmentCount(segment[..|segment| - 1], p) + (if segment[|segment| - 1].part == p then segment[|segment| - 1].count else 0)
  }

  /** Energy cost of a body. */
  function BodyCost(body: seq<BodyPart>): nat {
    if body == [] then 0 else PartCost(body[0]) + BodyCost(body[1..])
  }

  lemma {:induction false} BodyCostConcat(a: seq<BodyPart>, b: seq<BodyPart>)
    ensures BodyCost(a + b) == BodyCost(a) + BodyCost(b)
  {
    if a == [] {
      assert a + b == b;
    } else {
      assert (a + b)[1..] == a[1..] + b;
      BodyCostConcat(a[1..], b);
    }
  }

  lemma {:induction false} RepeatedFacts(p: BodyPart, n: nat)
    ensures BodyCost(Repeated(p, n)) == PartCost(p) * n
    ensures forall q :: CountPart(Repeated(p, n), q) == (if q == p then n else 0)
  {
    if n > 0 {
      RepeatedFacts(p, n - 1);
      BodyCostConcat(Repeated(p, n - 1), [p]);
      assert BodyCost([p]) == PartCost(p);
      forall q
        ensures CountPart(Repeated(p, n), q) == (if q == p then n else 0)
      {
        CountPartConcat(Repeated(p, n - 1), [p], q);
      }
    }
  }

  /** The parts of one segment, key by key. */
  function Expand(segment: Segment): seq<BodyPart> {
    if segment == [] then []
    else Expand(segment[..|segment| - 1]) + Repeated(segment[|segment| - 1].part, segment[|segment| - 1].count)
  }

  /** One segment has as many parts as its counts add up to, costs what its parts cost, and
      holds each part as often as the segment says. */
  lemma {:induction false} ExpandFacts(segment: Segment)
    ensures |Expand(segment)| == PartsPerSegment(segment)
    ensures BodyCost(Expand(segment)) == CostPerSegment(segment)
    ensures forall p :: CountPart(Expand(segment), p) == SegmentCount(segment, p)
  {
    if segment != [] {
      var init, last := segment[..|segment| - 1], segment[|segment| - 1];
      ExpandFacts(init);
      RepeatedFacts(last.part, last.count);
      BodyCostConcat(Expand(init), Repeated(last.part, last.count));
      forall p
        ensures CountPart(Expand(segment), p) == SegmentCount(segment, p)
      {
        CountPartConcat(Expand(init), Repeated(last.part, last.count), p);
      }
    }
  }

  /** `n` segments one after the other. */
  function Segments(one: seq<BodyPart>, n: nat): seq<BodyPart> {
    if n == 0 then [] else Segments(one, n - 1) + one
  }

  lemma {:induction false} SegmentsFacts(one: seq<BodyPart>, n: nat)
    ensures |Segments(one, n)| == n * |one|
    ensures BodyCost(Segments(one, n)) == n * BodyCost(one)
    ensures forall p :: CountPart(Segments(one, n), p) == n * CountPart(one, p)
  {
    if n > 0 {
      var pre := Segments(one, n - 1);
      SegmentsFacts(one, n - 1);
      BodyCostConcat(pre, one);
      MulSucc(n - 1, |one|);
      MulSucc(n - 1, BodyCost(one));
      forall p
        ensures CountPart(Segments(one, n), p) == n * CountPart(one, p)
      {
        CountPartConcat(pre, one, p);
        MulSucc(n - 1, CountPart(one, p));
      }
    }
  }

  lemma MulSucc(m: nat, k: nat)
    ensures (m + 1) * k == m * k + k
  {
  }

  lemma MulMonotone(a: nat, b: nat, k: nat)
    requires a <= b
    ensures a * k <= b * k
  {
  }

  // ----- Descending name order -----

  /** Position of a part's name in ascending string order: attack < carry < claim < heal <
      move < ranged_attack < tough < work. */
  function NameRank(p: BodyPart): nat {
    match p
    case Attack => 0
    case Carry => 1
    case Claim => 2
    case Heal => 3
    case Move => 4
    case RangedAttack => 5
    case Tough => 6
    case Work => 7
  }

  /** The rank is the order JavaScript's `<` gives the part names. */
  lemma NameRankOrder(a: BodyPart, b: BodyPart)
    ensures StrLess(PartName(a), PartName(b)) <==> NameRank(a) < NameRank(b)
  {
    var x, y := PartName(a), PartName(b);
    if a == b {
      StrLessIrreflexive(x);
    } else if x[0] != y[0] {
      assert StrLess(x, y) == (x[0] < y[0]);
    } else {
      // Only "carry" and "claim" share a first letter; they differ at the second.
      assert {a, b} == {Carry, Claim};
      assert StrLess(x, y) == StrLess(x[1..], y[1..]);
      assert StrLess(x[1..], y[1..]) == (x[1] < y[1]);
    }
  }

  lemma {:induction false} StrLessIrreflexive(x: string)
    ensures !StrLess(x, x)
  {
    if |x| > 0 {
      StrLessIrreflexive(x[1..]);
    }
  }

  /** Each name is not less than any name after it: the order of `sort().reverse()`. */
  predicate NamesDescending(body: seq<BodyPart>) {
    forall a, b :: 0 <= a < b < |body| ==> !StrLess(PartName(body[a]), PartName(body[b]))
  }

  predicate RankDescending(body: seq<BodyPart>) {
    forall a, b :: 0 <= a < b < |body| ==> NameRank(body[a]) >= NameRank(body[b])
  }

  /** Insertion of `x` in front of the first part of lower rank. */
  function InsertDescending(body: seq<BodyPart>, x: BodyPart): (r: seq<BodyPart>)
    ensures multiset(r) == multiset(body) + multiset{x}
    ensures |r| == |body| + 1
  {
    if body == [] then [x]
    else if NameRank(x) >= NameRank(body[0]) then [x] + body
    else
      assert body == [body[0]] + body[1..];
      [body[0]] + InsertDescending(body[1..], x)
  }

  /** The default string sort followed by a reversal. Parts with equal names are equal, so
      this is the only order with descending names. */
  function SortDescending(body: seq<BodyPart>): (r: seq<BodyPart>)
    ensures multiset(r) == multiset(body)
    ensures |r| == |body|
  {
    if body == [] then []
    else
      assert body == [body[0]] + body[1..];
      InsertDescending(SortDescending(body[1..]), body[0])
  }

  lemma {:induction false} InsertKeepsDescending(body: seq<BodyPart>, x: BodyPart)
    requires RankDescending(body)
    ensures RankDescending(InsertDescending(body, x))
  {
    if body != [] && NameRank(x) < NameRank(body[0]) {
      InsertKeepsDescending(body[1..], x);
      var rest := InsertDescending(body[1..], x);
      forall k | 0 <= k < |rest|
        ensures NameRank(body[0]) >= NameRank(rest[k])
      {
        assert rest[k] in multiset(rest);
        if rest[k] != x {
          assert rest[k] in multiset(body[1..]);
          var j :| 0 <= j < |body[1..]| && body[1..][j] == rest[k];
          assert body[j + 1] == rest[k];
        }
      }
    }
  }

  lemma {:induction false} SortDescendingOrders(body: seq<BodyPart>)
    ensures RankDescending(SortDescending(body))
  {
    if body != [] {
      SortDescendingOrders(body[1..]);
      InsertKeepsDescending(SortDescending(body[1..]), body[0]);
    }
  }

  /** The sorted body is a rearrangement of its parts with descending names. */
  lemma SortDescendingFacts(body: seq<BodyPart>)
    ensures forall p :: CountPart(SortDescending(body), p) == CountPart(body, p)
    ensures BodyCost(SortDescending(body)) == BodyCost(body)
    ensures NamesDescending(SortDescending(body))
  {
    var r := SortDescending(body);
    forall p
      ensures CountPart(r, p) == CountPart(body, p)
    {
      CountIsMultiplicity(r, p);
      CountIsMultiplicity(body, p);
    }
    BodyCostByCounts(r);
    BodyCostByCounts(body);
    SortDescendingOrders(body);
    forall a, b | 0 <= a < b < |r|
      ensures !StrLess(PartName(r[a]), PartName(r[b]))
    {
      NameRankOrder(r[a], r[b]);
    }
  }

  lemma {:induction false} CountIsMultiplicity(body: seq<BodyPart>, p: BodyPart)
    ensures CountPart(body, p) == multiset(body)[p]
  {
    if body != [] {
      assert body == [body[0]] + body[1..];
      CountIsMultiplicity(body[1..], p);
    }
  }

  /** Cost of a body from how many of each part it holds, with the costs of `PartCost`
      written out. */
  function CostByCounts(body: seq<BodyPart>): int {
    50 * CountPart(body, Move) + 100 * CountPart(body, Work) + 50 * CountPart(body, Carry) +
    80 * CountPart(body, Attack) + 150 * CountPart(body, RangedAttack) + 250 * CountPart(body, Heal) +
    600 * CountPart(body, Claim) + 10 * CountPart(body, Tough)
  }

  /** The cost of a body depends only on how many of each part it holds. */
  lemma {:induction false} BodyCostByCounts(body: seq<BodyPart>)
    ensures BodyCost(body) == CostByCounts(body)
  {
    if body != [] {
      var rest := body[1..];
      BodyCostByCounts(rest);
      assert BodyCost(body) == PartCost(body[0]) + BodyCost(rest);
      match body[0]
      case Move =>
      case Work =>
      case Carry =>
      case Attack =>
      case RangedAttack =>
      case Heal =>
      case Claim =>
      case Tough =>
    }
  }

  // ----- createBody -----

  /** How many segments `createBody` lays down: the request, capped by how many fit in
      MAX_CREEP_SIZE. A segment without parts fits any number of times (JavaScript's
      `Math.floor(50 / 0)` is Infinity). */
  function Copies(segment: Segment, nSegments: nat): (n: nat)
    ensures n <= nSegments
    ensures PartsPerSegment(segment) > 0 ==> n * PartsPerSegment(segment) <= MAX_CREEP_SIZE
    ensures PartsPerSegment(segment) == 0 ==> n == nSegments
    ensures n == nSegments || (n + 1) * PartsPerSegment(segment) > MAX_CREEP_SIZE
  {
    var len := PartsPerSegment(segment);
    if len == 0 then nSegments
    else
      var maxSegments := MAX_CREEP_SIZE / len;
      assert maxSegments * len <= MAX_CREEP_SIZE;
      var n := if nSegments < maxSegments then nSegments else maxSegments;
      assert n * len <= maxSegments * len;
      n
  }

  /** The body `createBody(segment, nSegments)` returns. */
  function Body(segment: Segment, nSegments: nat): seq<BodyPart> {
    SortDescending(Segments(Expand(segment), Copies(segment, nSegments)))
  }

  /** A body holds `copies` whole segments and never more than MAX_CREEP_SIZE parts, costs
      `copies` segment costs, holds every part `copies` times as often as a segment does, and
      lists the parts with descending names. */
  lemma BodyFacts(segment: Segment, nSegments: nat)
    ensures var copies := Copies(segment, nSegments);
      |Body(segment, nSegments)| == copies * PartsPerSegment(segment) &&
      |Body(segment, nSegments)| <= MAX_CREEP_SIZE &&
      BodyCost(Body(segment, nSegments)) == copies * CostPerSegment(segment) &&
      forall p :: CountPart(Body(segment, nSegments), p) == copies * SegmentCount(segment, p)
    ensures NamesDescending(Body(segment, nSegments))
  {
    var one := Expand(segment);
    var copies := Copies(segment, nSegments);
    var segs := Segments(one, copies);
    var body := Body(segment, nSegments);
    assert body == SortDescending(segs);
    ExpandFacts(segment);
    SegmentsFacts(one, copies);
    SortDescendingFacts(segs);
    assert |body| == copies * PartsPerSegment(segment);
    if PartsPerSegment(segment) == 0 {
      assert |body| == 0;
    }
    assert BodyCost(body) == copies * CostPerSegment(segment);
    forall p
      ensures CountPart(body, p) == copies * SegmentCount(segment, p)
    {
      assert CountPart(body, p) == CountPart(segs, p) == copies * CountPart(one, p);
    }
  }

  /** `createBody`: `copies` passes over the segment's keys, each pushing its part `count`
      times, then sorted and reversed. */
  method CreateBody(segment: Segment, nSegments: nat) returns (body: seq<BodyPart>)
    ensures body == Body(segment, nSegments)
  {
    var one := Expand(segment);
    var reducedNSegments := Copies(segment, nSegments);
    body := [];
    var i := 0;
    while i < reducedNSegments
      invariant i <= reducedNSegments
      invariant body == Segments(one, i)
    {
      var k := 0;
      while k < |segment|
        invariant k <= |segment|
        invariant body == Segments(one, i) + Expand(segment[..k])
      {
        var entry := segment[k];
        var j := 0;
        while j < entry.count
          invariant j <= entry.count
          invariant body == Segments(one, i) + Expand(segment[..k]) + Repeated(entry.part, j)
        {
          body := body + [entry.part];
          j := j + 1;
        }
        assert segment[..k + 1][..k] == segment[..k];
        k := k + 1;
      }
      assert segment[..|segment|] == segment;
      i := i + 1;
    }
    body := SortDescending(body);
  }

  /** `segmentLength`: the counts of the segment's keys added up. */
  method SegmentLength(segment: Segment) returns (sum: nat)
    ensures sum == PartsPerSegment(segment)
  {
    sum := 0;
    var k := 0;
    while k < |segment|
      invariant k <= |segment|
      invariant sum == PartsPerSegment(segment[..k])
    {
      assert segment[..k + 1][..k] == segment[..k];
      sum := sum + segment[k].count;
      k := k + 1;
    }
    assert segment[..|segment|] == segment;
  }

  /** `calcSegmentCost`: BODYPART_COST of each key times its count, added up. */
  method CalcSegmentCost(segment: Segment) returns (total: nat)
    ensures total == CostPerSegment(segment)
  {
    total := 0;
    var k := 0;
    while k < |segment|
      invariant k <= |segment|
      invariant total == CostPerSegment(segment[..k])
    {
      assert segment[..k + 1][..k] == segment[..k];
      total := total + PartCost(segment[k].part) * segment[k].count;
      k := k + 1;
    }
    assert segment[..|segment|] == segment;
  }

  /** A segment costs at least 10 energy per part, so a free segment has no parts. */
  lemma {:induction false} FreeSegmentIsEmpty(segment: Segment)
    ensures CostPerSegment(segment) >= 10 * PartsPerSegment(segment)
  {
    if segment != [] {
      FreeSegmentIsEmpty(segment[..|segment| - 1]);
      var last := segment[|segment| - 1];
      assert PartCost(last.part) * last.count >= 10 * last.count;
    }
  }

  // ----- spawnCreep -----

  /** `cellConfig[room].SPAWN[type]`: the segment and whether it grows with the energy. */
  datatype SpawnConfig = SpawnConfig(segment: Segment, autoExpand: bool)

  /** The memory a spawned creep starts with. */
  datatype CreepMemory = CreepMemory(role: string, home: string, room: string, spawner: string, toRecycle: bool)

  /** The call `spawn.spawnCreep(body, name, { memory })`. */
  datatype SpawnRequest = SpawnRequest(spawnId: string, body: seq<BodyPart>, name: string, memory: CreepMemory)

  /** A spawn of the room that is idle and active. */
  predicate FreeSpawn(s: Structure) {
    s.stype == Spawn && !s.spawning && s.active
  }

  /** The first free spawn in find order. */
  function FirstFreeSpawn(structures: seq<Structure>): (r: Option<Structure>)
    ensures r.None? <==> forall i :: 0 <= i < |structures| ==> !FreeSpawn(structures[i])
    ensures r.Some? ==> FreeSpawn(r.value)
    ensures r.Some? ==>
      exists i :: 0 <= i < |structures| && structures[i] == r.value && forall j :: 0 <= j < i ==> !FreeSpawn(structures[j])
  {
    if structures == [] then None
    else if FreeSpawn(structures[0]) then Some(structures[0])
    else
      var r := FirstFreeSpawn(structures[1..]);
      assert forall j :: 1 <= j < |structures| ==> structures[j] == structures[1..][j - 1];
      r
  }

  /** How many segments the body gets: one, or with AUTO_EXPAND as many as the available
      energy pays for. A free segment gives 0 / 0, NaN, when no energy is available. */
  function SegmentsToBuild(config: SpawnConfig, energyAvailable: nat): nat
    requires !(config.autoExpand && CostPerSegment(config.segment) == 0 && energyAvailable > 0)
  {
    if !config.autoExpand then 1
    else if CostPerSegment(config.segment) == 0 then 0
    else energyAvailable / CostPerSegment(config.segment)
  }

  /** An expanding body never costs more than the energy the room has. */
  lemma AutoExpandAffordable(config: SpawnConfig, energyAvailable: nat)
    requires config.autoExpand && CostPerSegment(config.segment) > 0
    ensures BodyCost(Body(config.segment, SegmentsToBuild(config, energyAvailable))) <= energyAvailable
  {
    var cost := CostPerSegment(config.segment);
    var n := SegmentsToBuild(config, energyAvailable);
    var copies := Copies(config.segment, n);
    BodyFacts(config.segment, n);
    MulMonotone(copies, n, cost);
    DivTimesDivisor(energyAvailable, cost);
  }

  lemma DivTimesDivisor(e: nat, c: nat)
    requires c > 0
    ensures (e / c) * c <= e
  {
    assert e == (e / c) * c + e % c;
  }

  /** `spawnCreep`. The room's structures, its available energy, the spawn config of the role
      and the game's answer to the spawn call are inputs. It answers ERR_BUSY before looking at
      the config, ERR_INVALID_ARGS without one, ERR_NOT_ENOUGH_ENERGY when an expanding body
      gets no segment; otherwise it asks the first free spawn for the body and returns that
      call's result. A free expanding segment with energy available makes the source loop
      forever, which the precondition excludes. */
  method SpawnCreep(structures: seq<Structure>, roomName: string, energyAvailable: nat,
                    config: Option<SpawnConfig>, role: string, time: nat, spawnResult: ErrorCode)
    returns (err: ErrorCode, request: Option<SpawnRequest>)
    requires config.Some? && config.value.autoExpand && energyAvailable > 0 ==> CostPerSegment(config.value.segment) > 0
    ensures FirstFreeSpawn(structures).None? ==> err == ERR_BUSY && request.None?
    ensures FirstFreeSpawn(structures).Some? && config.None? ==> err == ERR_INVALID_ARGS && request.None?
    ensures FirstFreeSpawn(structures).Some? && config.Some? && SegmentsToBuild(config.value, energyAvailable) == 0 ==>
      err == ERR_NOT_ENOUGH_ENERGY && request.None?
    ensures request.Some? <==>
      FirstFreeSpawn(structures).Some? && config.Some? && SegmentsToBuild(config.value, energyAvailable) > 0
    ensures request.Some? ==> err == spawnResult && request.value == SpawnRequest(
      FirstFreeSpawn(structures).value.id,
      Body(config.value.segment, SegmentsToBuild(config.value, energyAvailable)),
      role + NatToString(time),
      CreepMemory(role, roomName, roomName, FirstFreeSpawn(structures).value.id, false))
  {
    var freeSpawn := FirstFreeSpawn(structures);
    if freeSpawn.None? {
      return ERR_BUSY, None;
    }
    var spawn := freeSpawn.value;
    if config.None? {
      return ERR_INVALID_ARGS, None;
    }
    var creepConfig := config.value;
    var body;
    if !creepConfig.autoExpand {
      body := CreateBody(creepConfig.segment, 1);
    } else {
      var cost := CalcSegmentCost(creepConfig.segment);
      // Math.floor(energyAvailable / cost), where 0 / 0 is NaN and counts as no segment.
      var nSegments := SegmentsToBuild(creepConfig, energyAvailable);
      if nSegments == 0 {
        return ERR_NOT_ENOUGH_ENERGY, None;
      }
      body := CreateBody(creepConfig.segment, nSegments);
    }
    var name := role + NatToString(time);
    request := Some(SpawnRequest(spawn.id, body, name, CreepMemory(role, roomName, roomName, spawn.id, false)));
    err := spawnResult;
  }
}
