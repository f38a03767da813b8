/** What the creep and tower roles share: lodash's `_.filter`, the harvesting flag of the
    energy-carrying roles, the loop that works through a list of targets until one is acted
    on or approached, and the damaged-structure test. */
module CreepRoles {
  import opened Screeps
  import opened HarvestSource

  // ----- Filtering -----

  /** `_.filter(s, p)`: the elements of `s` satisfying `p`, in their order. */
  function Filter<T(!new)>(s: seq<T>, p: T -> bool): (r: seq<T>)
    ensures |r| <= |s|
    ensures forall x :: x in r <==> x in s && p(x)
  {
    if s == [] then [] else (if p(s[0]) then [s[0]] else []) + Filter(s[1..], p)
  }

  /** The filter keeps every copy of an element that satisfies `p` and drops every other. */
  lemma {:induction false} FilterCounts<T(!new)>(s: seq<T>, p: T -> bool)
    ensures forall x :: multiset(Filter(s, p))[x] == if p(x) then multiset(s)[x] else 0
  {
    if s != [] {
      assert s == [s[0]] + s[1..];
      FilterCounts(s[1..], p);
    }
  }

  /** Filtering keeps the order of the list: it distributes over concatenation. */
  lemma {:induction false} FilterConcat<T(!new)>(s: seq<T>, t: seq<T>, p: T -> bool)
    ensures Filter(s + t, p) == Filter(s, p) + Filter(t, p)
  {
    if s == [] {
      assert s + t == t;
    } else {
      assert (s + t)[1..] == s[1..] + t;
      FilterConcat(s[1..], t, p);
    }
  }

  /** The filter of a growing prefix gains the next element exactly when it qualifies. */
  lemma FilterSnoc<T(!new)>(s: seq<T>, i: int, p: T -> bool)
    requires 0 <= i < |s|
    ensures Filter(s[..i + 1], p) == Filter(s[..i], p) + (if p(s[i]) then [s[i]] else [])
  {
    assert s[..i + 1] == s[..i] + [s[i]];
    FilterConcat(s[..i], [s[i]], p);
    assert [s[i]][1..] == [];
  }

  /** `hits < hitsMax`. */
  predicate IsDamaged(s: Structure) {
    s.hits < s.hitsMax
  }

  // ----- The harvesting flag -----

  /** The flag update at the top of the energy-carrying roles. `energy` is
      `store[RESOURCE_ENERGY]` and `free` is `store.getFreeCapacity(RESOURCE_ENERGY)`: an empty
      creep starts harvesting, a full one stops, any other keeps its flag. */
  function EnergyFlag(harvesting: bool, energy: nat, free: int): (h: bool)
    ensures h <==> energy == 0 || (free != 0 && harvesting)
    ensures h != harvesting ==> (h && energy == 0) || (!h && energy > 0 && free == 0)
  {
    if energy == 0 then true
    else if free == 0 then false
    else harvesting
  }

  // ----- Working through targets -----

  /** A target ends the loop when acting on it answers OK, or when it is out of range and the
      move towards it finds a path. `moveErr` is only asked for when out of range. */
  predicate Ends(actErr: ErrorCode, moveErr: ErrorCode) {
    actErr == OK || (actErr == ERR_NOT_IN_RANGE && moveErr != ERR_NO_PATH)
  }

  predicate NoneEnds<T>(ts: seq<T>, act: T -> ErrorCode, move: T -> ErrorCode) {
    forall j :: 0 <= j < |ts| ==> !Ends(act(ts[j]), move(ts[j]))
  }

  /** `k` is the first target that ends the loop. */
  predicate EndsAt<T>(ts: seq<T>, act: T -> ErrorCode, move: T -> ErrorCode, k: int) {
    0 <= k < |ts| && Ends(act(ts[k]), move(ts[k])) &&
    forall j :: 0 <= j < k ==> !Ends(act(ts[j]), move(ts[j]))
  }

  /** How the loop ended: the action on target `i` answered OK, the creep moves towards
      target `i`, or every target was acted on without success or found to have no path. */
  datatype Engagement = Acted(i: nat) | Approached(i: nat) | Exhausted

  /** `e` is how the loop over `ts` ends when `act` and `move` answer the calls. */
  predicate Describes<T>(e: Engagement, ts: seq<T>, act: T -> ErrorCode, move: T -> ErrorCode) {
    match e
    case Exhausted => NoneEnds(ts, act, move)
    case Acted(i) => EndsAt(ts, act, move, i) && act(ts[i]) == OK
    case Approached(i) => EndsAt(ts, act, move, i) && act(ts[i]) == ERR_NOT_IN_RANGE && move(ts[i]) != ERR_NO_PATH
  }

  /** The answers of the calls determine how the loop ends. */
  lemma DescribesUnique<T>(e1: Engagement, e2: Engagement, ts: seq<T>, act: T -> ErrorCode, move: T -> ErrorCode)
    requires Describes(e1, ts, act, move) && Describes(e2, ts, act, move)
    ensures e1 == e2
  {
    if !e1.Exhausted? && !e2.Exhausted? {
      assert !(e1.i < e2.i) && !(e2.i < e1.i);
    }
  }

  /** The loop the security, construction and repair roles run over their targets: act on
      each (`act`, the answer of `attack`, `build` or `repair`); out of range, move towards it
      (`move`, the answer of `moveTo`) and stop unless there is no path; stop on OK; go on
      after any other answer. */
  method Engage<T>(ts: seq<T>, act: T -> ErrorCode, move: T -> ErrorCode) returns (e: Engagement)
    ensures Describes(e, ts, act, move)
  {
    var i := 0;
    while i < |ts|
      invariant 0 <= i <= |ts|
      invariant forall j :: 0 <= j < i ==> !Ends(act(ts[j]), move(ts[j]))
    {
      var actErr := act(ts[i]);
      if actErr == ERR_NOT_IN_RANGE {
        var moveErr := move(ts[i]);
        if moveErr == ERR_NO_PATH {
          i := i + 1;
          continue;
        }
        return Approached(i);
      }
      if actErr == OK {
        return Acted(i);
      }
      i := i + 1;
    }
    return Exhausted;
  }

  // ----- Harvesting energy -----

  /** What `harvestSource` works from: the room's active sources, the targets of every creep,
      the room's walls and the answer of `creep.harvest` for the creep's current target. */
  datatype HarvestView = HarvestView(sources: seq<SourceObj>, targets: seq<LegacyTarget>,
                                     walls: set<Pos>, harvestResult: ErrorCode)

  predicate Retargets(hv: HarvestView, before: LegacyTarget) {
    !TargetTruthy(before) || hv.harvestResult == ERR_NOT_ENOUGH_RESOURCES
  }

  /** The target after `harvestSource`: a creep without a target, or whose target ran dry, takes
      the choice of `getTargetResource`; any other keeps its target. */
  predicate Reselected(hv: HarvestView, from: Pos, before: LegacyTarget, after: LegacyTarget) {
    if Retargets(hv, before) then after.Id? && IsTargetChoice(from, hv.sources, hv.targets, hv.walls, after.id)
    else after == before
  }
}
