/** allocator: the object-style harvest allocator. It keeps a short history of deposit round
    trips per source, estimates how much energy the workers assigned to a source extract per
    regeneration cycle, and moves idle workers onto a source or assigned ones off it until the
    estimate meets a target. Numbers follow JavaScript: exact reals here, NaN where JavaScript
    would produce it. */
module Allocator {
  import opened Screeps
  import opened JsNumber
  import opened CreepBase
  import opened Room
  import opened Worker

  const HISTORY_LENGTH: nat := 5

  /** One deposit round trip. The record the allocator stores has no work-to-move ratio. */
  datatype DepositRecord = DepositRecord(time: int, amount: int)

  function Min(a: nat, b: nat): nat {
    if a <= b then a else b
  }

  // ----- Deposit-time history -----

  /** The history after the new record is put in front and the oldest ones are dropped until
      at most HISTORY_LENGTH remain. */
  function Pushed(h: seq<DepositRecord>, r: DepositRecord): (res: seq<DepositRecord>)
    ensures |res| == Min(|h| + 1, HISTORY_LENGTH)
    ensures res[0] == r
    ensures res[1..] == h[..Min(|h|, HISTORY_LENGTH - 1)]
  {
    ([r] + h)[..Min(|h| + 1, HISTORY_LENGTH)]
  }

  function Reverse<T>(s: seq<T>): (r: seq<T>)
    ensures |r| == |s|
  {
    if s == [] then [] else Reverse(s[1..]) + [s[0]]
  }

  /** Pushing the records of `rs` one after the other. */
  function PushAll(h: seq<DepositRecord>, rs: seq<DepositRecord>): seq<DepositRecord>
    decreases rs
  {
    if rs == [] then h else PushAll(Pushed(h, rs[0]), rs[1..])
  }

  /** After any number of pushes the history holds the newest records, newest first, and
      never more than HISTORY_LENGTH of them. */
  lemma {:induction false} PushAllKeepsNewest(h: seq<DepositRecord>, rs: seq<DepositRecord>)
    requires |h| <= HISTORY_LENGTH
    ensures PushAll(h, rs) == (Reverse(rs) + h)[..Min(|rs| + |h|, HISTORY_LENGTH)]
    decreases rs
  {
    if rs == [] {
    } else {
      var r, rest := rs[0], rs[1..];
      var p := Pushed(h, r);
      PushAllKeepsNewest(p, rest);
      assert Reverse(rs) == Reverse(rest) + [r];
      var m := Min(|rest| + |p|, HISTORY_LENGTH);
      assert m == Min(|rs| + |h|, HISTORY_LENGTH);
      assert p == ([r] + h)[..|p|];
      assert Reverse(rest) + [r] + h == Reverse(rest) + ([r] + h);
      TakeAfter(Reverse(rest), [r] + h, |p|);
    }
  }

  lemma TakeAfter<T>(a: seq<T>, b: seq<T>, n: nat)
    requires n <= |b|
    ensures (a + b)[..|a| + n] == a + b[..n]
  {
  }

  function SumTimes(h: seq<DepositRecord>): int {
    if h == [] then 0 else h[0].time + SumTimes(h[1..])
  }

  /** lodash `_.meanBy(h, "time")`: NaN for an empty history, otherwise the mean time. */
  function Mean(h: seq<DepositRecord>): (r: Num)
    ensures r.Finite? <==> |h| > 0
    ensures r.Finite? ==> r.v * (|h| as real) == SumTimes(h) as real
  {
    if |h| == 0 then NaN else Finite(SumTimes(h) as real / |h| as real)
  }

  lemma {:induction false} SumTimesBounds(h: seq<DepositRecord>, lo: int, hi: int)
    requires forall i :: 0 <= i < |h| ==> lo <= h[i].time <= hi
    ensures |h| * lo <= SumTimes(h) <= |h| * hi
  {
    if h != [] {
      SumTimesBounds(h[1..], lo, hi);
    }
  }

  /** The mean lies between the smallest and the largest time of the history. */
  lemma MeanBounds(h: seq<DepositRecord>, lo: int, hi: int)
    requires |h| > 0
    requires forall i :: 0 <= i < |h| ==> lo <= h[i].time <= hi
    ensures lo as real <= Mean(h).v <= hi as real
  {
    SumTimesBounds(h, lo, hi);
    var n := |h| as real;
    assert Mean(h).v * n == SumTimes(h) as real;
    assert (lo as real) * n <= Mean(h).v * n;
    assert Mean(h).v * n <= (hi as real) * n;
  }

  // ----- Extraction rates -----

  /** `calculateTotalExtractionRate`: energy per tick of a creep with `workParts` WORK parts
      and store capacity `capacity`, counting the mean deposit time `avg`, as JavaScript
      computes capacity / (capacity / (workParts * HARVEST_POWER) + avg). With no WORK part
      the harvest time is infinite and the rate is 0, or NaN for an empty store. A zero
      denominator gives NaN (for 0 / 0; an infinite rate is folded into NaN too). */
  function ExtractionRate(workParts: nat, capacity: nat, avg: Num): (r: Num)
    ensures avg.NaN? ==> r.NaN?
    ensures workParts == 0 && avg.Finite? ==> r == (if capacity == 0 then NaN else Finite(0.0))
  {
    if avg.NaN? then NaN
    else if workParts == 0 then (if capacity == 0 then NaN else Finite(0.0))
    else
      var extractionTime := (capacity as real) / ((workParts * HARVEST_POWER) as real);
      var denominator := extractionTime + avg.v;
      if denominator == 0.0 then NaN else Finite((capacity as real) / denominator)
  }

  /** With WORK parts, a non-empty store and a known non-negative mean deposit time, the rate
      is the formula's value, positive, and never more than the creep's raw harvest power. */
  lemma ExtractionRateBounds(workParts: nat, capacity: nat, avg: Num)
    requires workParts > 0 && capacity > 0 && avg.Finite? && avg.v >= 0.0
    ensures ExtractionRate(workParts, capacity, avg).Finite?
    ensures ExtractionRate(workParts, capacity, avg).v ==
      (capacity as real) / ((capacity as real) / ((workParts * HARVEST_POWER) as real) + avg.v)
    ensures 0.0 < ExtractionRate(workParts, capacity, avg).v <= (workParts * HARVEST_POWER) as real
  {
    var c := capacity as real;
    var p := (workParts * HARVEST_POWER) as real;
    var t := c / p;
    assert t * p == c;
    assert t > 0.0;
    var den := t + avg.v;
    assert den >= t;
    var r := c / den;
    assert r * den == c;
    assert r > 0.0;
    assert p * den == c + p * avg.v;
    assert p * den >= c;
    assert r * den <= p * den;
  }

  /** A finite rate under a non-negative mean deposit time is never negative. */
  lemma ExtractionRateNonNegative(workParts: nat, capacity: nat, avg: Num)
    requires avg.Finite? && avg.v >= 0.0
    requires ExtractionRate(workParts, capacity, avg).Finite?
    ensures ExtractionRate(workParts, capacity, avg).v >= 0.0
  {
    if workParts > 0 && capacity > 0 {
      ExtractionRateBounds(workParts, capacity, avg);
    }
  }

  /** `calculateTotalExtractionPerCycle`: the rate over one regeneration cycle. */
  function ExtractionPerCycle(workParts: nat, capacity: nat, avg: Num): Num {
    Scale(ExtractionRate(workParts, capacity, avg), ENERGY_REGEN_TIME as real)
  }

  /** Per cycle the creep extracts at most ENERGY_REGEN_TIME times its harvest power. */
  lemma ExtractionPerCycleBounds(workParts: nat, capacity: nat, avg: Num)
    requires workParts > 0 && capacity > 0 && avg.Finite? && avg.v >= 0.0
    ensures ExtractionPerCycle(workParts, capacity, avg).Finite?
    ensures ExtractionPerCycle(workParts, capacity, avg).v ==
      ExtractionRate(workParts, capacity, avg).v * (ENERGY_REGEN_TIME as real)
    ensures 0.0 < ExtractionPerCycle(workParts, capacity, avg).v <=
      ((workParts * HARVEST_POWER * ENERGY_REGEN_TIME) as real)
  {
    ExtractionRateBounds(workParts, capacity, avg);
  }

  // ----- Workers as the allocator sees them -----

  /** The part of a creep the allocator reads: its memory role, WORK parts, capacity and the
      source it is assigned to. */
  datatype WorkerView = WorkerView(role: string, workParts: nat, capacity: nat, target: Assignment)

  function ViewOf(c: WorkerCreep): WorkerView
    reads c
  {
    WorkerView(c.base.role, c.WorkParts(), c.capacity, c.targetSource)
  }

  function Views(creeps: seq<WorkerCreep>): (ws: seq<WorkerView>)
    reads set c | c in creeps
    ensures |ws| == |creeps|
    ensures forall i :: 0 <= i < |creeps| ==> ws[i] == ViewOf(creeps[i])
  {
    if creeps == [] then [] else [ViewOf(creeps[0])] + Views(creeps[1..])
  }

  /** A worker (`getCreepsByType(ROLE_WORKER)`) assigned to the source. */
  predicate AssignedTo(w: WorkerView, id: string) {
    w.role == ROLE_WORKER && w.target == SourceId(id)
  }

  /** A worker whose `targetSource` is null. */
  predicate IsIdle(w: WorkerView) {
    w.role == ROLE_WORKER && w.target == Null
  }

  function RateOf(w: WorkerView, avg: Num): Num {
    ExtractionPerCycle(w.workParts, w.capacity, avg)
  }

  /** `getAssignedCreeps`: the workers assigned to the source, in creep order. */
  function Assigned(ws: seq<WorkerView>, id: string): (r: seq<WorkerView>)
    ensures |r| <= |ws|
    ensures forall w :: w in r <==> w in ws && AssignedTo(w, id)
  {
    if ws == [] then []
    else (if AssignedTo(ws[0], id) then [ws[0]] else []) + Assigned(ws[1..], id)
  }

  /** `getEstimatedSourceExtractionPerCycle`: `_.sumBy` of the per-cycle extraction of the
      assigned workers. */
  function Estimate(ws: seq<WorkerView>, id: string, avg: Num): Num {
    SumBy(Assigned(ws, id), w => RateOf(w, avg))
  }

  /** What one creep adds to the estimate. */
  function Contribution(w: WorkerView, id: string, avg: Num): Num {
    if AssignedTo(w, id) then RateOf(w, avg) else Finite(0.0)
  }

  function ContributionSum(ws: seq<WorkerView>, id: string, avg: Num): Num {
    if ws == [] then Finite(0.0) else Add(Contribution(ws[0], id, avg), ContributionSum(ws[1..], id, avg))
  }

  /** The estimate sums the rates of exactly the workers assigned to the source: every other
      creep counts for nothing. */
  lemma {:induction false} EstimateIsContributionSum(ws: seq<WorkerView>, id: string, avg: Num)
    ensures Estimate(ws, id, avg) == ContributionSum(ws, id, avg)
  {
    if ws != [] {
      EstimateIsContributionSum(ws[1..], id, avg);
      var f := (w: WorkerView) => RateOf(w, avg);
      if AssignedTo(ws[0], id) {
        var a := [ws[0]] + Assigned(ws[1..], id);
        assert a[1..] == Assigned(ws[1..], id);
        assert SumBy(a, f) == Add(f(ws[0]), SumBy(Assigned(ws[1..], id), f));
      } else {
        assert Assigned(ws, id) == Assigned(ws[1..], id);
        AddZero(ContributionSum(ws[1..], id, avg));
      }
    }
  }

  lemma {:induction false} ContributionSumUpdate(ws: seq<WorkerView>, i: nat, w: WorkerView, id: string, avg: Num)
    requires i < |ws|
    ensures Add(ContributionSum(ws, id, avg), Contribution(w, id, avg)) ==
      Add(ContributionSum(ws[i := w], id, avg), Contribution(ws[i], id, avg))
  {
    var u := ws[i := w];
    var c0 := Contribution(ws[0], id, avg);
    if i == 0 {
      assert u[1..] == ws[1..];
      var s := ContributionSum(ws[1..], id, avg);
      AddAssoc(c0, s, Contribution(w, id, avg));
      AddComm(s, Contribution(w, id, avg));
      AddAssoc(Contribution(w, id, avg), s, c0);
      AddComm(s, c0);
    } else {
      assert u[1..] == ws[1..][i - 1 := w];
      ContributionSumUpdate(ws[1..], i - 1, w, id, avg);
      AddAssoc(c0, ContributionSum(ws[1..], id, avg), Contribution(w, id, avg));
      AddAssoc(c0, ContributionSum(u[1..], id, avg), Contribution(ws[i], id, avg));
    }
  }

  /** Unassigning an assigned worker lowers the estimate by exactly its rate. */
  lemma EstimateUnassign(ws: seq<WorkerView>, i: nat, id: string, avg: Num)
    requires i < |ws| && AssignedTo(ws[i], id)
    ensures Estimate(ws, id, avg) == Add(Estimate(ws[i := ws[i].(target := Null)], id, avg), RateOf(ws[i], avg))
  {
    var u := ws[i := ws[i].(target := Null)];
    ContributionSumUpdate(ws, i, ws[i].(target := Null), id, avg);
    EstimateIsContributionSum(ws, id, avg);
    EstimateIsContributionSum(u, id, avg);
    AddZero(ContributionSum(ws, id, avg));
  }

  /** Assigning a worker that was not assigned raises the estimate by exactly its rate. */
  lemma EstimateAssign(ws: seq<WorkerView>, i: nat, id: string, avg: Num)
    requires i < |ws| && !AssignedTo(ws[i], id) && ws[i].role == ROLE_WORKER
    ensures Estimate(ws[i := ws[i].(target := SourceId(id))], id, avg) == Add(Estimate(ws, id, avg), RateOf(ws[i], avg))
  {
    var w := ws[i].(target := SourceId(id));
    var u := ws[i := w];
    assert Contribution(w, id, avg) == RateOf(ws[i], avg);
    assert Contribution(ws[i], id, avg) == Finite(0.0);
    ContributionSumUpdate(ws, i, w, id, avg);
    EstimateIsContributionSum(ws, id, avg);
    EstimateIsContributionSum(u, id, avg);
    AddZero(ContributionSum(u, id, avg));
  }

  // ----- Creep indices, rates and the descending sort -----

  /** Which workers a drain visits: those assigned to a source, or the idle ones. */
  datatype Pick = OnSource(id: string) | Unassigned

  predicate Picks(p: Pick, w: WorkerView) {
    match p
    case OnSource(id) => AssignedTo(w, id)
    case Unassigned => IsIdle(w)
  }

  predicate Increasing(s: seq<nat>) {
    forall a, b :: 0 <= a < b < |s| ==> s[a] < s[b]
  }

  /** Indices, in increasing order, of the creeps that `p` picks. */
  function IndicesWhere(ws: seq<WorkerView>, p: Pick): (r: seq<nat>)
    ensures forall k: nat :: k in r <==> k < |ws| && Picks(p, ws[k])
    ensures Increasing(r)
  {
    if ws == [] then []
    else
      var pre := IndicesWhere(ws[..|ws| - 1], p);
      assert forall k :: 0 <= k < |ws| - 1 ==> ws[..|ws| - 1][k] == ws[k];
      assert forall a :: 0 <= a < |pre| ==> pre[a] in pre;
      pre + (if Picks(p, ws[|ws| - 1]) then [|ws| - 1] else [])
  }

  /** Per-cycle extraction of each worker; it depends only on the worker's body and capacity. */
  function ViewRates(ws: seq<WorkerView>, avg: Num): (rates: seq<Num>)
    ensures |rates| == |ws|
    ensures forall i :: 0 <= i < |ws| ==> rates[i] == RateOf(ws[i], avg)
  {
    if ws == [] then [] else [RateOf(ws[0], avg)] + ViewRates(ws[1..], avg)
  }

  function RateAt(rates: seq<Num>, i: nat): Num {
    if i < |rates| then rates[i] else Finite(0.0)
  }

  /** Sum of the rates of the creeps `idxs`, accumulated left to right. */
  function SumAt(rates: seq<Num>, idxs: seq<nat>): Num {
    if idxs == [] then Finite(0.0) else Add(SumAt(rates, idxs[..|idxs| - 1]), RateAt(rates, idxs[|idxs| - 1]))
  }

  /** Insertion of `x` into a list ordered by decreasing rate with the comparator
      `rate(b) - rate(a)`: `x` goes in front of an element only when its rate is strictly
      greater; a NaN difference counts as equal, so equal and NaN rates keep their order. */
  function InsertByRate(s: seq<nat>, x: nat, rates: seq<Num>): (r: seq<nat>)
    ensures multiset(r) == multiset(s) + multiset{x}
  {
    if s == [] then [x]
    else if Gt(RateAt(rates, x), RateAt(rates, s[|s| - 1])) then
      assert s == s[..|s| - 1] + [s[|s| - 1]];
      InsertByRate(s[..|s| - 1], x, rates) + [s[|s| - 1]]
    else s + [x]
  }

  /** `Array.prototype.sort` with a descending-rate comparator, as a stable insertion sort. */
  function SortByRate(xs: seq<nat>, rates: seq<Num>): (r: seq<nat>)
    ensures multiset(r) == multiset(xs)
  {
    if xs == [] then []
    else
      assert xs == xs[..|xs| - 1] + [xs[|xs| - 1]];
      InsertByRate(SortByRate(xs[..|xs| - 1], rates), xs[|xs| - 1], rates)
  }

  predicate SortedByRate(s: seq<nat>, rates: seq<Num>) {
    forall a, b :: 0 <= a < b < |s| ==> Ge(RateAt(rates, s[a]), RateAt(rates, s[b]))
  }

  predicate AllFinite(s: seq<nat>, rates: seq<Num>) {
    forall k :: k in s ==> RateAt(rates, k).Finite?
  }

  lemma {:induction false} InsertKeepsOrder(s: seq<nat>, x: nat, rates: seq<Num>)
    requires SortedByRate(s, rates) && AllFinite(s, rates) && RateAt(rates, x).Finite?
    ensures SortedByRate(InsertByRate(s, x, rates), rates)
  {
    if s != [] {
      var init, last := s[..|s| - 1], s[|s| - 1];
      assert forall k :: k in init ==> k in s;
      if Gt(RateAt(rates, x), RateAt(rates, last)) {
        InsertKeepsOrder(init, x, rates);
        var r0 := InsertByRate(init, x, rates);
        forall k | k in r0
          ensures Ge(RateAt(rates, k), RateAt(rates, last))
        {
          assert k in multiset(r0);
          if k != x {
            assert k in multiset(init);
            var a :| 0 <= a < |init| && init[a] == k;
            assert s[a] == k;
          }
        }
        var r := r0 + [last];
        forall a, b | 0 <= a < b < |r|
          ensures Ge(RateAt(rates, r[a]), RateAt(rates, r[b]))
        {
          if b == |r| - 1 {
            assert r[a] in r0;
          }
        }
      }
    }
  }

  /** With finite rates the sort leaves the creeps in decreasing-rate order. */
  lemma {:induction false} SortByRateOrders(xs: seq<nat>, rates: seq<Num>)
    requires AllFinite(xs, rates)
    ensures SortedByRate(SortByRate(xs, rates), rates)
  {
    if xs != [] {
      var init := xs[..|xs| - 1];
      assert forall k :: k in init ==> k in xs;
      SortByRateOrders(init, rates);
      var s := SortByRate(init, rates);
      forall k | k in s
        ensures RateAt(rates, k).Finite?
      {
        assert k in multiset(s);
      }
      InsertKeepsOrder(s, xs[|xs| - 1], rates);
    }
  }

  /** The sorted list is ordered as soon as the rates it holds are finite. */
  lemma SortedWhenFinite(xs: seq<nat>, rates: seq<Num>)
    ensures AllFinite(SortByRate(xs, rates), rates) ==> SortedByRate(SortByRate(xs, rates), rates)
  {
    var s := SortByRate(xs, rates);
    if AllFinite(s, rates) {
      forall k | k in xs
        ensures RateAt(rates, k).Finite?
      {
        assert k in multiset(s);
      }
      SortByRateOrders(xs, rates);
    }
  }

  lemma IncreasingMultiplicity(a: seq<nat>, x: nat)
    requires Increasing(a)
    ensures multiset(a)[x] <= 1
  {
    if a != [] {
      assert a == [a[0]] + a[1..];
      IncreasingMultiplicity(a[1..], x);
      if a[0] == x {
        assert x !in a[1..];
      }
    }
  }

  /** A rearrangement of an increasing list has no repeated element. */
  lemma PermutationDistinct(a: seq<nat>, b: seq<nat>)
    requires Increasing(a)
    requires multiset(b) == multiset(a)
    ensures Distinct(b)
  {
    forall i, j | 0 <= i < j < |b|
      ensures b[i] != b[j]
    {
      if b[i] == b[j] {
        var x := b[i];
        assert b == b[..i] + [x] + b[i + 1..j] + [x] + b[j + 1..];
        assert multiset(b)[x] >= 2;
        IncreasingMultiplicity(a, x);
      }
    }
  }

  /** The creeps the drains visit: a rearrangement of some creep indices, without repeats. */
  lemma VisitOrder(idx: seq<nat>, order: seq<nat>)
    requires Increasing(idx) && multiset(order) == multiset(idx)
    ensures Distinct(order)
    ensures forall k :: k in order ==> k in idx
  {
    PermutationDistinct(idx, order);
    forall k | k in order
      ensures k in idx
    {
      assert k in multiset(order);
      assert k in multiset(idx);
    }
  }

  /** The views after the creeps `idxs` have been given the target `t`. */
  function Retarget(ws: seq<WorkerView>, idxs: seq<nat>, t: Assignment): (r: seq<WorkerView>)
    ensures |r| == |ws|
    ensures forall i :: 0 <= i < |ws| ==> r[i] == (if i in idxs then ws[i].(target := t) else ws[i])
  {
    if idxs == [] then ws
    else
      var init, k := idxs[..|idxs| - 1], idxs[|idxs| - 1];
      assert idxs == init + [k];
      var pre := Retarget(ws, init, t);
      if k < |ws| then pre[k := ws[k].(target := t)] else pre
  }

  /** Each index in `idxs` is that of a view picked by `p` whose rate is `rates` at it. */
  ghost predicate PickedWithRates(ws: seq<WorkerView>, idxs: seq<nat>, p: Pick, rates: seq<Num>, avg: Num) {
    forall k :: k in idxs ==> k < |ws| && Picks(p, ws[k]) && RateAt(rates, k) == RateOf(ws[k], avg)
  }

  lemma DistinctSnoc(idxs: seq<nat>)
    requires Distinct(idxs) && idxs != []
    ensures Distinct(idxs[..|idxs| - 1]) && idxs[|idxs| - 1] !in idxs[..|idxs| - 1]
  {
    var init := idxs[..|idxs| - 1];
    forall j | 0 <= j < |init|
      ensures init[j] != idxs[|idxs| - 1]
    {
      assert init[j] == idxs[j];
    }
  }

  /** Unassigning distinct assigned workers lowers the estimate by exactly the sum of their
      rates. */
  lemma {:induction false} EstimateUnassignAll(ws: seq<WorkerView>, idxs: seq<nat>, id: string, avg: Num, rates: seq<Num>)
    requires Distinct(idxs) && PickedWithRates(ws, idxs, OnSource(id), rates, avg)
    ensures Estimate(ws, id, avg) == Add(Estimate(Retarget(ws, idxs, Null), id, avg), SumAt(rates, idxs))
  {
    if idxs == [] {
      AddZero(Estimate(ws, id, avg));
    } else {
      var init, k := idxs[..|idxs| - 1], idxs[|idxs| - 1];
      assert k in idxs;
      assert forall j :: j in init ==> j in idxs;
      DistinctSnoc(idxs);
      EstimateUnassignAll(ws, init, id, avg, rates);
      var pre := Retarget(ws, init, Null);
      assert pre[k] == ws[k];
      EstimateUnassign(pre, k, id, avg);
      var post := Retarget(ws, idxs, Null);
      assert post == pre[k := pre[k].(target := Null)];
      AddAssoc(Estimate(post, id, avg), RateOf(ws[k], avg), SumAt(rates, init));
      AddComm(RateOf(ws[k], avg), SumAt(rates, init));
    }
  }

  /** Assigning distinct idle workers raises the estimate by exactly the sum of their rates. */
  lemma {:induction false} EstimateAssignAll(ws: seq<WorkerView>, idxs: seq<nat>, id: string, avg: Num, rates: seq<Num>)
    requires Distinct(idxs) && PickedWithRates(ws, idxs, Unassigned, rates, avg)
    ensures Estimate(Retarget(ws, idxs, SourceId(id)), id, avg) == Add(Estimate(ws, id, avg), SumAt(rates, idxs))
  {
    if idxs == [] {
      AddZero(Estimate(ws, id, avg));
    } else {
      var init, k := idxs[..|idxs| - 1], idxs[|idxs| - 1];
      assert k in idxs;
      assert forall j :: j in init ==> j in idxs;
      DistinctSnoc(idxs);
      EstimateAssignAll(ws, init, id, avg, rates);
      var pre := Retarget(ws, init, SourceId(id));
      assert pre[k] == ws[k];
      EstimateAssign(pre, k, id, avg);
      var post := Retarget(ws, idxs, SourceId(id));
      assert post == pre[k := pre[k].(target := SourceId(id))];
      AddAssoc(Estimate(ws, id, avg), SumAt(rates, init), RateOf(ws[k], avg));
    }
  }

  /** Views of creeps whose memory matches a snapshot. */
  lemma ViewsMatch(creeps: seq<WorkerCreep>, V: seq<WorkerView>)
    requires |V| == |creeps|
    requires forall i :: 0 <= i < |creeps| ==> V[i] == ViewOf(creeps[i])
    ensures Views(creeps) == V
  {
  }

  lemma PerCycleNonNegative(workParts: nat, capacity: nat, avg: Num)
    requires avg.Finite? && avg.v >= 0.0
    requires ExtractionPerCycle(workParts, capacity, avg).Finite?
    ensures ExtractionPerCycle(workParts, capacity, avg).v >= 0.0
  {
    ExtractionRateNonNegative(workParts, capacity, avg);
  }

  /** The removal test of `removeExcessHarvesters`: the running total after every unassigned
      creep stays within the excess, and the first creep left would overshoot it. */
  predicate GreedyRemoval(rates: seq<Num>, order: seq<nat>, removed: nat, excess: Num)
    requires removed <= |order|
  {
    (forall j :: 1 <= j <= removed ==> !Gt(SumAt(rates, order[..j]), excess)) &&
    (removed < |order| ==> Gt(SumAt(rates, order[..removed + 1]), excess))
  }

  /** The addition test of `addRequiredHarvesters`: before every assigned creep the total was
      still short of the need, and the greedy stops at the first total that meets it. */
  predicate GreedyAddition(rates: seq<Num>, order: seq<nat>, added: nat, needed: Num)
    requires added <= |order|
  {
    (forall j :: 0 <= j < added ==> !Ge(SumAt(rates, order[..j]), needed)) &&
    (added < |order| ==> Ge(SumAt(rates, order[..added]), needed))
  }

  /** Removing creeps whose total stays within the excess keeps the estimate at or above the
      minimum. */
  lemma RemovalKeepsMinimum(before: Num, after: Num, total: Num, minEnergy: real)
    requires before.Finite? && before.v >= minEnergy
    requires before == Add(after, total)
    requires total == Finite(0.0) || !Gt(total, Sub(before, Finite(minEnergy)))
    ensures Ge(after, Finite(minEnergy))
  {
  }

  /** When the estimate is already short of the minimum, no creep with a non-negative rate
      fits within the (negative) excess. */
  lemma NegativeExcessRemovesNothing(before: Num, rate: Num, minEnergy: real)
    requires before.Finite? && before.v < minEnergy
    requires rate.Finite? && rate.v >= 0.0
    ensures Gt(Add(Finite(0.0), rate), Sub(before, Finite(minEnergy)))
  {
  }

  /** A need that is already met assigns nothing; otherwise every assigned creep was added
      while the total was short of the need, so the need is overshot by less than the last
      creep's rate. */
  lemma AdditionOvershoot(rates: seq<Num>, order: seq<nat>, added: nat, needed: Num)
    requires added <= |order| && GreedyAddition(rates, order, added, needed)
    ensures needed.Finite? && needed.v <= 0.0 ==> added == 0
    ensures added > 0 ==> !Ge(SumAt(rates, order[..added - 1]), needed)
  {
    if added > 0 {
      assert !Ge(SumAt(rates, order[..0]), needed);
    }
  }

  lemma DistinctPrefix(s: seq<nat>, n: nat)
    requires Distinct(s) && n <= |s|
    ensures Distinct(s[..n])
    ensures forall k :: k in s[..n] ==> k in s
  {
  }

  /** The order in which a drain visits the workers `p` picks: sorted by decreasing rate,
      ties and NaN rates in creep order. */
  function VisitList(ws: seq<WorkerView>, p: Pick, avg: Num): seq<nat> {
    SortByRate(IndicesWhere(ws, p), ViewRates(ws, avg))
  }

  /** The visiting order is a rearrangement, without repeats, of exactly the workers `p`
      picks, and it is in decreasing-rate order whenever their rates are known. */
  lemma VisitListFacts(ws: seq<WorkerView>, p: Pick, avg: Num)
    ensures multiset(VisitList(ws, p, avg)) == multiset(IndicesWhere(ws, p))
    ensures Distinct(VisitList(ws, p, avg))
    ensures PickedWithRates(ws, VisitList(ws, p, avg), p, ViewRates(ws, avg), avg)
    ensures IndicesOf(VisitList(ws, p, avg), |ws|)
    ensures AllFinite(VisitList(ws, p, avg), ViewRates(ws, avg)) ==>
      SortedByRate(VisitList(ws, p, avg), ViewRates(ws, avg))
  {
    var idx, rates := IndicesWhere(ws, p), ViewRates(ws, avg);
    var order := SortByRate(idx, rates);
    SortedWhenFinite(idx, rates);
    VisitOrder(idx, order);
    forall q | 0 <= q < |order|
      ensures order[q] < |ws|
    {
      assert order[q] in order;
    }
  }

  /** The part of `VisitListFacts` the estimate lemmas use. */
  lemma VisitListPicked(ws: seq<WorkerView>, p: Pick, avg: Num)
    ensures Distinct(VisitList(ws, p, avg))
    ensures PickedWithRates(ws, VisitList(ws, p, avg), p, ViewRates(ws, avg), avg)
  {
    VisitListFacts(ws, p, avg);
  }

  /** Only the visited workers are retargeted: every creep a drain does not pick keeps its
      view. */
  lemma RetargetKeepsUnpicked(ws: seq<WorkerView>, p: Pick, avg: Num, n: nat, t: Assignment)
    requires n <= |VisitList(ws, p, avg)|
    ensures forall i :: 0 <= i < |ws| && !Picks(p, ws[i]) ==>
      Retarget(ws, VisitList(ws, p, avg)[..n], t)[i] == ws[i]
  {
    var order := VisitList(ws, p, avg);
    VisitListFacts(ws, p, avg);
    DistinctPrefix(order, n);
  }

  /** What `removeExcessHarvesters` does to the estimate: it drops by exactly the rates of the
      unassigned workers, it stays at or above a minimum it met, and when it was short of the
      minimum (with a non-negative average round trip) nothing is unassigned. */
  lemma RemovalEstimate(ws: seq<WorkerView>, id: string, avg: Num, minEnergy: real, removed: nat)
    requires removed <= |VisitList(ws, OnSource(id), avg)|
    requires GreedyRemoval(ViewRates(ws, avg), VisitList(ws, OnSource(id), avg), removed,
      Sub(Estimate(ws, id, avg), Finite(minEnergy)))
    ensures var order := VisitList(ws, OnSource(id), avg);
      Estimate(ws, id, avg) ==
        Add(Estimate(Retarget(ws, order[..removed], Null), id, avg), SumAt(ViewRates(ws, avg), order[..removed]))
    ensures var order, before := VisitList(ws, OnSource(id), avg), Estimate(ws, id, avg);
      before.Finite? && before.v >= minEnergy ==>
        Ge(Estimate(Retarget(ws, order[..removed], Null), id, avg), Finite(minEnergy))
    ensures var before := Estimate(ws, id, avg);
      before.Finite? && before.v < minEnergy && (avg.Finite? ==> avg.v >= 0.0) ==> removed == 0
  {
    VisitListPicked(ws, OnSource(id), avg);
    RemovalEstimateOn(ws, VisitList(ws, OnSource(id), avg), removed, ViewRates(ws, avg), id, avg, minEnergy);
  }

  /** `RemovalEstimate` for any visiting order of distinct assigned workers. */
  lemma RemovalEstimateOn(ws: seq<WorkerView>, order: seq<nat>, removed: nat, rates: seq<Num>,
                        id: string, avg: Num, minEnergy: real)
    requires Distinct(order) && PickedWithRates(ws, order, OnSource(id), rates, avg)
    requires removed <= |order|
    requires GreedyRemoval(rates, order, removed, Sub(Estimate(ws, id, avg), Finite(minEnergy)))
    ensures Estimate(ws, id, avg) == Add(Estimate(Retarget(ws, order[..removed], Null), id, avg), SumAt(rates, order[..removed]))
    ensures var before := Estimate(ws, id, avg);
      before.Finite? && before.v >= minEnergy ==> Ge(Estimate(Retarget(ws, order[..removed], Null), id, avg), Finite(minEnergy))
    ensures var before := Estimate(ws, id, avg);
      before.Finite? && before.v < minEnergy && (avg.Finite? ==> avg.v >= 0.0) ==> removed == 0
  {
    var before := Estimate(ws, id, avg);
    var excess := Sub(before, Finite(minEnergy));
    DistinctPrefix(order, removed);
    EstimateUnassignAll(ws, order[..removed], id, avg, rates);
    if before.Finite? && before.v >= minEnergy {
      RemovalKeepsMinimum(before, Estimate(Retarget(ws, order[..removed], Null), id, avg), SumAt(rates, order[..removed]), minEnergy);
    }
    if |order| > 0 && before.Finite? && before.v < minEnergy && (avg.Finite? ==> avg.v >= 0.0) {
      // The first creep's rate is a term of the finite estimate, hence finite and
      // non-negative, and alone it already exceeds the negative excess.
      var first := order[0];
      assert first in order;
      assert order[..1] == [first];
      EstimateUnassign(ws, first, id, avg);
      PerCycleNonNegative(ws[first].workParts, ws[first].capacity, avg);
      NegativeExcessRemovesNothing(before, RateAt(rates, first), minEnergy);
      assert Gt(SumAt(rates, order[..1]), excess);
    }
  }

  /** What `addRequiredHarvesters` does to the estimate: it rises by exactly the rates of the
      assigned workers; a need already met assigns nothing; each assigned worker was added
      while the total was still short; and when it stops before running out of idle workers
      the estimate has reached the minimum. */
  lemma AdditionEstimate(ws: seq<WorkerView>, id: string, avg: Num, minEnergy: real, added: nat)
    requires added <= |VisitList(ws, Unassigned, avg)|
    requires GreedyAddition(ViewRates(ws, avg), VisitList(ws, Unassigned, avg), added,
      Sub(Finite(minEnergy), Estimate(ws, id, avg)))
    ensures var order := VisitList(ws, Unassigned, avg);
      Estimate(Retarget(ws, order[..added], SourceId(id)), id, avg) ==
        Add(Estimate(ws, id, avg), SumAt(ViewRates(ws, avg), order[..added]))
    ensures var before := Estimate(ws, id, avg);
      before.Finite? && before.v >= minEnergy ==> added == 0
    ensures added > 0 ==> !Ge(SumAt(ViewRates(ws, avg), VisitList(ws, Unassigned, avg)[..added - 1]),
      Sub(Finite(minEnergy), Estimate(ws, id, avg)))
    ensures var order := VisitList(ws, Unassigned, avg);
      added < |order| ==> Ge(Estimate(Retarget(ws, order[..added], SourceId(id)), id, avg), Finite(minEnergy))
  {
    var order, rates := VisitList(ws, Unassigned, avg), ViewRates(ws, avg);
    var needed := Sub(Finite(minEnergy), Estimate(ws, id, avg));
    VisitListFacts(ws, Unassigned, avg);
    DistinctPrefix(order, added);
    EstimateAssignAll(ws, order[..added], id, avg, rates);
    AdditionOvershoot(rates, order, added, needed);
  }

  /** The views `ws` describe the creeps, except perhaps for their targets. */
  predicate SameWorkers(creeps: seq<WorkerCreep>, ws: seq<WorkerView>) {
    |ws| == |creeps| &&
    forall i :: 0 <= i < |creeps| ==>
      ws[i].role == creeps[i].base.role && ws[i].workParts == creeps[i].WorkParts() && ws[i].capacity == creeps[i].capacity
  }

  /** Once the creeps `idxs` have been given the target `t`, their views are those of
      `Retarget`. */
  lemma ViewsRetargeted(creeps: seq<WorkerCreep>, ws: seq<WorkerView>, idxs: seq<nat>, t: Assignment)
    requires SameWorkers(creeps, ws)
    requires forall i :: 0 <= i < |creeps| ==>
      creeps[i].targetSource == (if i in idxs then t else ws[i].target)
    ensures Views(creeps) == Retarget(ws, idxs, t)
  {
    var V := Retarget(ws, idxs, t);
    assert forall i :: 0 <= i < |creeps| ==> V[i] == ViewOf(creeps[i]);
    ViewsMatch(creeps, V);
  }

  /** Every entry of `order` is the index of a creep. */
  predicate IndicesOf(order: seq<nat>, n: nat) {
    forall p :: 0 <= p < |order| ==> order[p] < n
  }

  /** The loop of `removeExcessHarvesters`: walk `order`, stop at the first creep whose rate
      would take the running total over `excess`, and set the target of every creep before
      it to null. */
  method UnassignWithinExcess(creeps: seq<WorkerCreep>, order: seq<nat>, rates: seq<Num>, excess: Num)
    returns (removed: nat)
    requires Distinct(creeps) && IndicesOf(order, |creeps|) && |rates| == |creeps|
    modifies set c | c in creeps
    ensures removed <= |order| && GreedyRemoval(rates, order, removed, excess)
    ensures forall i :: 0 <= i < |creeps| ==>
      creeps[i].targetSource == (if i in order[..removed] then Null else old(creeps[i].targetSource))
    ensures forall i :: 0 <= i < |creeps| ==> creeps[i].depositStartTime == old(creeps[i].depositStartTime)
  {
    var capacityRemoved := Finite(0.0);
    removed := 0;
    while removed < |order|
      invariant removed <= |order|
      invariant forall i :: 0 <= i < |creeps| ==>
        creeps[i].targetSource == (if i in order[..removed] then Null else old(creeps[i].targetSource))
      invariant forall i :: 0 <= i < |creeps| ==> creeps[i].depositStartTime == old(creeps[i].depositStartTime)
      invariant capacityRemoved == SumAt(rates, order[..removed])
      invariant forall j :: 1 <= j <= removed ==> !Gt(SumAt(rates, order[..j]), excess)
    {
      var idx := order[removed];
      var extractionRate := rates[idx];
      assert order[..removed + 1] == order[..removed] + [idx];
      if Gt(Add(capacityRemoved, extractionRate), excess) {
        break;
      }
      creeps[idx].targetSource := Null;
      capacityRemoved := Add(capacityRemoved, extractionRate);
      removed := removed + 1;
    }
  }

  /** The loop of `addRequiredHarvesters`: walk `order` while the running total is short of
      `needed`, assigning each creep visited to the source. */
  method AssignWhileShort(creeps: seq<WorkerCreep>, order: seq<nat>, rates: seq<Num>, needed: Num, sourceId: string)
    returns (added: nat)
    requires Distinct(creeps) && IndicesOf(order, |creeps|) && |rates| == |creeps|
    modifies set c | c in creeps
    ensures added <= |order| && GreedyAddition(rates, order, added, needed)
    ensures forall i :: 0 <= i < |creeps| ==>
      creeps[i].targetSource == (if i in order[..added] then SourceId(sourceId) else old(creeps[i].targetSource))
    ensures forall i :: 0 <= i < |creeps| ==> creeps[i].depositStartTime == old(creeps[i].depositStartTime)
  {
    var capacityAdded := Finite(0.0);
    added := 0;
    while added < |order|
      invariant added <= |order|
      invariant forall i :: 0 <= i < |creeps| ==>
        creeps[i].targetSource == (if i in order[..added] then SourceId(sourceId) else old(creeps[i].targetSource))
      invariant forall i :: 0 <= i < |creeps| ==> creeps[i].depositStartTime == old(creeps[i].depositStartTime)
      invariant capacityAdded == SumAt(rates, order[..added])
      invariant forall j :: 0 <= j < added ==> !Ge(SumAt(rates, order[..j]), needed)
    {
      if Ge(capacityAdded, needed) {
        break;
      }
      var idx := order[added];
      var extractionRate := rates[idx];
      assert order[..added + 1] == order[..added] + [idx];
      creeps[idx].targetSource := SourceId(sourceId);
      capacityAdded := Add(capacityAdded, extractionRate);
      added := added + 1;
    }
  }

  /** What assigning idle workers to `sourceId` does, from the views `V0` to `V1`: `order`
      is the visiting order (the idle workers sorted by decreasing rate), the first `added`
      of them are assigned, and the greedy stopped when the added rate met the need;
      `shortfall` is the need left afterwards. */
  ghost predicate IdleAssignment(V0: seq<WorkerView>, V1: seq<WorkerView>, sourceId: string, minEnergy: real,
                                 avg: Num, order: seq<nat>, added: nat, shortfall: Num) {
    order == VisitList(V0, Unassigned, avg) &&
    added <= |order| &&
    GreedyAddition(ViewRates(V0, avg), order, added, Sub(Finite(minEnergy), Estimate(V0, sourceId, avg))) &&
    shortfall == Sub(Sub(Finite(minEnergy), Estimate(V0, sourceId, avg)), SumAt(ViewRates(V0, avg), order[..added])) &&
    V1 == Retarget(V0, order[..added], SourceId(sourceId))
  }

  /** The creep half of `addRequiredHarvesters`, for the mean deposit time `avg`. */
  method AssignIdleWorkers(sourceId: string, minEnergy: real, creeps: seq<WorkerCreep>, avg: Num,
                           ghost V0: seq<WorkerView>)
    returns (order: seq<nat>, added: nat, shortfall: Num)
    requires Distinct(creeps)
    requires V0 == Views(creeps)
    modifies set c | c in creeps
    ensures IdleAssignment(V0, Views(creeps), sourceId, minEnergy, avg, order, added, shortfall)
    ensures forall i :: 0 <= i < |creeps| ==> creeps[i].depositStartTime == old(creeps[i].depositStartTime)
  {
    var V := Views(creeps);
    var currentEstimate := Estimate(V, sourceId, avg);
    var neededCapacity := Sub(Finite(minEnergy), currentEstimate);
    var rates := ViewRates(V, avg);
    order := VisitList(V, Unassigned, avg);
    VisitListFacts(V, Unassigned, avg);
    added := AssignWhileShort(creeps, order, rates, neededCapacity, sourceId);
    ViewsRetargeted(creeps, V, order[..added], SourceId(sourceId));
    shortfall := Sub(neededCapacity, SumAt(rates, order[..added]));
  }

  /** A target an allocation may leave on a worker: idle, or one of the room's sources. */
  predicate AllocTarget(t: Assignment, ids: set<string>) {
    t == Null || (t.SourceId? && t.id in ids)
  }

  /** How an allocation over the sources `ids` may change the views `ws0` into `ws1`: only
      targets change, and only for workers that were idle or on one of those sources, which
      end idle or on one of those sources. Every other creep keeps its view. */
  predicate AllocationChanges(ws0: seq<WorkerView>, ws1: seq<WorkerView>, ids: set<string>) {
    |ws1| == |ws0| &&
    forall i :: 0 <= i < |ws0| ==>
      ws1[i].(target := ws0[i].target) == ws0[i] &&
      (ws1[i] != ws0[i] ==> ws0[i].role == ROLE_WORKER && AllocTarget(ws0[i].target, ids) && AllocTarget(ws1[i].target, ids))
  }

  /** One drain of an allocation keeps `AllocationChanges`: it visits only workers that are
      idle or on one of the sources and gives them one of the allowed targets. */
  lemma DrainKeepsAllocation(ws0: seq<WorkerView>, ws: seq<WorkerView>, ids: set<string>,
                             p: Pick, avg: Num, n: nat, t: Assignment)
    requires AllocationChanges(ws0, ws, ids)
    requires p.OnSource? ==> p.id in ids
    requires AllocTarget(t, ids)
    requires n <= |VisitList(ws, p, avg)|
    ensures AllocationChanges(ws0, Retarget(ws, VisitList(ws, p, avg)[..n], t), ids)
  {
    var order := VisitList(ws, p, avg);
    VisitListFacts(ws, p, avg);
    DistinctPrefix(order, n);
    RetargetKeepsAllocation(ws0, ws, ids, p, order[..n], t);
  }

  lemma RetargetKeepsAllocation(ws0: seq<WorkerView>, ws: seq<WorkerView>, ids: set<string>,
                                p: Pick, idxs: seq<nat>, t: Assignment)
    requires AllocationChanges(ws0, ws, ids)
    requires p.OnSource? ==> p.id in ids
    requires AllocTarget(t, ids)
    requires forall k :: k in idxs ==> k < |ws| && Picks(p, ws[k])
    ensures AllocationChanges(ws0, Retarget(ws, idxs, t), ids)
  {
    var r := Retarget(ws, idxs, t);
    forall i | 0 <= i < |ws0| && r[i] != ws0[i]
      ensures ws0[i].role == ROLE_WORKER && AllocTarget(ws0[i].target, ids) && AllocTarget(r[i].target, ids)
    {
      if i in idxs {
        assert Picks(p, ws[i]);
      }
    }
  }

  lemma AllocationChangesRefl(ws: seq<WorkerView>, ids: set<string>)
    ensures AllocationChanges(ws, ws, ids)
  {
  }

  /** A pass over one source after passes over others stays within the changes allowed for
      all of them. */
  lemma AllocationChangesCompose(ws0: seq<WorkerView>, ws1: seq<WorkerView>, ws2: seq<WorkerView>,
                                 ids: set<string>, id: string)
    requires id in ids
    requires AllocationChanges(ws0, ws1, ids) && AllocationChanges(ws1, ws2, {id})
    ensures AllocationChanges(ws0, ws2, ids)
  {
    forall i | 0 <= i < |ws0| && ws2[i] != ws0[i]
      ensures ws0[i].role == ROLE_WORKER && AllocTarget(ws0[i].target, ids) && AllocTarget(ws2[i].target, ids)
    {
      if ws2[i] != ws1[i] && ws1[i] == ws0[i] {
        assert AllocTarget(ws1[i].target, {id});
      }
    }
  }

  // ----- One allocation pass over a source -----

  /** How many creeps of `order` the removal greedy unassigns, going on from the first `j`,
      which fit within `excess`. */
  function RemovalCountFrom(rates: seq<Num>, order: seq<nat>, excess: Num, j: nat): (n: nat)
    requires j <= |order|
    requires forall i :: 1 <= i <= j ==> !Gt(SumAt(rates, order[..i]), excess)
    ensures j <= n <= |order| && GreedyRemoval(rates, order, n, excess)
    decreases |order| - j
  {
    if j == |order| || Gt(SumAt(rates, order[..j + 1]), excess) then j
    else RemovalCountFrom(rates, order, excess, j + 1)
  }

  /** How many creeps of `order` the addition greedy assigns, going on from the first `j`,
      all added while the total was short of `needed`. */
  function AdditionCountFrom(rates: seq<Num>, order: seq<nat>, needed: Num, j: nat): (n: nat)
    requires j <= |order|
    requires forall i :: 0 <= i < j ==> !Ge(SumAt(rates, order[..i]), needed)
    ensures j <= n <= |order| && GreedyAddition(rates, order, n, needed)
    decreases |order| - j
  {
    if j == |order| || Ge(SumAt(rates, order[..j]), needed) then j
    else AdditionCountFrom(rates, order, needed, j + 1)
  }

  /** The removal greedy stops at one place only. */
  lemma GreedyRemovalUnique(rates: seq<Num>, order: seq<nat>, excess: Num, n: nat, m: nat)
    requires n <= |order| && m <= |order|
    requires GreedyRemoval(rates, order, n, excess) && GreedyRemoval(rates, order, m, excess)
    ensures n == m
  {
    assert !(n < m) && !(m < n);
  }

  /** The addition greedy stops at one place only. */
  lemma GreedyAdditionUnique(rates: seq<Num>, order: seq<nat>, needed: Num, n: nat, m: nat)
    requires n <= |order| && m <= |order|
    requires GreedyAddition(rates, order, n, needed) && GreedyAddition(rates, order, m, needed)
    ensures n == m
  {
    assert !(n < m) && !(m < n);
  }

  /** How many workers `removeExcessHarvesters(source, minEnergy)` unassigns from the views `ws`. */
  function Removed(ws: seq<WorkerView>, id: string, minEnergy: real, avg: Num): nat {
    RemovalCountFrom(ViewRates(ws, avg), VisitList(ws, OnSource(id), avg),
      Sub(Estimate(ws, id, avg), Finite(minEnergy)), 0)
  }

  /** The views after `removeExcessHarvesters(source, minEnergy)`. */
  function RemovalPass(ws: seq<WorkerView>, id: string, minEnergy: real, avg: Num): seq<WorkerView> {
    Retarget(ws, VisitList(ws, OnSource(id), avg)[..Removed(ws, id, minEnergy, avg)], Null)
  }

  /** How many idle workers `addRequiredHarvesters(source, minEnergy)` assigns. */
  function Added(ws: seq<WorkerView>, id: string, minEnergy: real, avg: Num): nat {
    AdditionCountFrom(ViewRates(ws, avg), VisitList(ws, Unassigned, avg),
      Sub(Finite(minEnergy), Estimate(ws, id, avg)), 0)
  }

  /** The views after the creep half of `addRequiredHarvesters(source, minEnergy)`. */
  function AdditionPass(ws: seq<WorkerView>, id: string, minEnergy: real, avg: Num): seq<WorkerView> {
    Retarget(ws, VisitList(ws, Unassigned, avg)[..Added(ws, id, minEnergy, avg)], SourceId(id))
  }

  /** The views after one pass of the loop of `allocateHarvesters` for a source whose target
      is `minEnergy`: removal first, then addition. */
  function SourcePass(ws: seq<WorkerView>, id: string, minEnergy: real, avg: Num): seq<WorkerView> {
    AdditionPass(RemovalPass(ws, id, minEnergy, avg), id, minEnergy, avg)
  }

  /** The greedy removal the methods perform is the one `RemovalPass` describes. */
  lemma RemovalPassIs(ws: seq<WorkerView>, id: string, minEnergy: real, avg: Num, order: seq<nat>, removed: nat)
    requires order == VisitList(ws, OnSource(id), avg) && removed <= |order|
    requires GreedyRemoval(ViewRates(ws, avg), order, removed, Sub(Estimate(ws, id, avg), Finite(minEnergy)))
    ensures removed == Removed(ws, id, minEnergy, avg)
    ensures Retarget(ws, order[..removed], Null) == RemovalPass(ws, id, minEnergy, avg)
  {
    GreedyRemovalUnique(ViewRates(ws, avg), order, Sub(Estimate(ws, id, avg), Finite(minEnergy)),
      removed, Removed(ws, id, minEnergy, avg));
  }

  /** The greedy addition the methods perform is the one `AdditionPass` describes. */
  lemma AdditionPassIs(V0: seq<WorkerView>, V1: seq<WorkerView>, id: string, minEnergy: real, avg: Num,
                       order: seq<nat>, added: nat, shortfall: Num)
    requires IdleAssignment(V0, V1, id, minEnergy, avg, order, added, shortfall)
    ensures added == Added(V0, id, minEnergy, avg)
    ensures V1 == AdditionPass(V0, id, minEnergy, avg)
  {
    GreedyAdditionUnique(ViewRates(V0, avg), order, Sub(Finite(minEnergy), Estimate(V0, id, avg)),
      added, Added(V0, id, minEnergy, avg));
  }

  /** The removal pass only sets to null the target of workers on the source. */
  lemma RemovalPassShape(ws: seq<WorkerView>, id: string, minEnergy: real, avg: Num)
    ensures var r := RemovalPass(ws, id, minEnergy, avg);
      |r| == |ws| && forall i :: 0 <= i < |ws| ==> r[i] == ws[i] || (AssignedTo(ws[i], id) && r[i] == ws[i].(target := Null))
  {
    var order, n := VisitList(ws, OnSource(id), avg), Removed(ws, id, minEnergy, avg);
    VisitListFacts(ws, OnSource(id), avg);
    forall i | 0 <= i < |ws| && i in order[..n]
      ensures AssignedTo(ws[i], id)
    {
      assert i in order;
      assert i in multiset(IndicesWhere(ws, OnSource(id)));
    }
  }

  lemma RemovalPassAllocation(ws: seq<WorkerView>, id: string, minEnergy: real, avg: Num)
    ensures AllocationChanges(ws, RemovalPass(ws, id, minEnergy, avg), {id})
  {
    AllocationChangesRefl(ws, {id});
    DrainKeepsAllocation(ws, ws, {id}, OnSource(id), avg, Removed(ws, id, minEnergy, avg), Null);
  }

  /** An estimate that met the minimum still meets it after the removal pass; when it was
      short of the minimum (with a non-negative mean deposit time) the pass changes nothing. */
  lemma RemovalPassEstimate(ws: seq<WorkerView>, id: string, minEnergy: real, avg: Num)
    ensures var before := Estimate(ws, id, avg);
      before.Finite? && before.v >= minEnergy ==> Ge(Estimate(RemovalPass(ws, id, minEnergy, avg), id, avg), Finite(minEnergy))
    ensures var before := Estimate(ws, id, avg);
      before.Finite? && before.v < minEnergy && (avg.Finite? ==> avg.v >= 0.0) ==> RemovalPass(ws, id, minEnergy, avg) == ws
  {
    var order, n := VisitList(ws, OnSource(id), avg), Removed(ws, id, minEnergy, avg);
    RemovalEstimate(ws, id, avg, minEnergy, n);
    assert order[..0] == [];
  }

  /** The addition pass only gives idle workers the source as target. */
  lemma AdditionPassShape(ws: seq<WorkerView>, id: string, minEnergy: real, avg: Num)
    ensures var r := AdditionPass(ws, id, minEnergy, avg);
      |r| == |ws| && forall i :: 0 <= i < |ws| ==> r[i] == ws[i] || (IsIdle(ws[i]) && r[i] == ws[i].(target := SourceId(id)))
  {
    var order, n := VisitList(ws, Unassigned, avg), Added(ws, id, minEnergy, avg);
    VisitListFacts(ws, Unassigned, avg);
    forall i | 0 <= i < |ws| && i in order[..n]
      ensures IsIdle(ws[i])
    {
      assert i in order;
      assert i in multiset(IndicesWhere(ws, Unassigned));
    }
  }

  lemma AdditionPassAllocation(ws: seq<WorkerView>, id: string, minEnergy: real, avg: Num)
    ensures AllocationChanges(ws, AdditionPass(ws, id, minEnergy, avg), {id})
  {
    AllocationChangesRefl(ws, {id});
    DrainKeepsAllocation(ws, ws, {id}, Unassigned, avg, Added(ws, id, minEnergy, avg), SourceId(id));
  }

  /** A need already met makes the addition pass change nothing; when an idle worker is left
      afterwards, the greedy stopped because the estimate met the minimum. */
  lemma AdditionPassEstimate(ws: seq<WorkerView>, id: string, minEnergy: real, avg: Num)
    ensures var before := Estimate(ws, id, avg);
      before.Finite? && before.v >= minEnergy ==> AdditionPass(ws, id, minEnergy, avg) == ws
    ensures var r := AdditionPass(ws, id, minEnergy, avg);
      (exists i :: 0 <= i < |r| && IsIdle(r[i])) ==> Ge(Estimate(r, id, avg), Finite(minEnergy))
  {
    var order, n := VisitList(ws, Unassigned, avg), Added(ws, id, minEnergy, avg);
    AdditionEstimate(ws, id, avg, minEnergy, n);
    assert order[..0] == [];
    if n == |order| {
      AllVisitedNoneIdle(ws, id, minEnergy, avg);
    }
  }

  /** When the addition pass visits every idle worker, none is left idle. */
  lemma AllVisitedNoneIdle(ws: seq<WorkerView>, id: string, minEnergy: real, avg: Num)
    requires Added(ws, id, minEnergy, avg) == |VisitList(ws, Unassigned, avg)|
    ensures var r := AdditionPass(ws, id, minEnergy, avg);
      forall i :: 0 <= i < |r| ==> !IsIdle(r[i])
  {
    var order := VisitList(ws, Unassigned, avg);
    var r := AdditionPass(ws, id, minEnergy, avg);
    VisitListFacts(ws, Unassigned, avg);
    assert order[..|order|] == order;
    forall i | 0 <= i < |r|
      ensures !IsIdle(r[i])
    {
      if IsIdle(ws[i]) {
        assert i in multiset(IndicesWhere(ws, Unassigned));
        assert i in order;
      }
    }
  }

  /** In one pass over a source, workers only move between null and the source. */
  lemma SourcePassAllocation(ws: seq<WorkerView>, id: string, minEnergy: real, avg: Num)
    ensures AllocationChanges(ws, SourcePass(ws, id, minEnergy, avg), {id})
  {
    var mid := RemovalPass(ws, id, minEnergy, avg);
    RemovalPassAllocation(ws, id, minEnergy, avg);
    AdditionPassAllocation(mid, id, minEnergy, avg);
    AllocationChangesCompose(ws, mid, SourcePass(ws, id, minEnergy, avg), {id}, id);
  }

  /** When an idle worker is left after the pass over a source, the source's estimate meets
      its target. */
  lemma SourcePassEstimate(ws: seq<WorkerView>, id: string, minEnergy: real, avg: Num)
    ensures var r := SourcePass(ws, id, minEnergy, avg);
      (exists i :: 0 <= i < |r| && IsIdle(r[i])) ==> Ge(Estimate(r, id, avg), Finite(minEnergy))
  {
    AdditionPassEstimate(RemovalPass(ws, id, minEnergy, avg), id, minEnergy, avg);
  }

  /** `AllocationChanges` allows more when more sources are allowed. */
  lemma AllocationChangesWiden(ws0: seq<WorkerView>, ws1: seq<WorkerView>, ids: set<string>, more: set<string>)
    requires ids <= more && AllocationChanges(ws0, ws1, ids)
    ensures AllocationChanges(ws0, ws1, more)
  {
  }

  /** A source as `room.find(FIND_SOURCES)` returns it. */
  datatype SourceInfo = SourceInfo(id: string, energyCapacity: nat)

  /** `_.meanBy(memory._sourceDepositTimes[id], "time")`: NaN for a source without history. */
  function MeanDepositTime(times: map<string, seq<DepositRecord>>, id: string): (r: Num)
    ensures r.Finite? <==> id in times && |times[id]| > 0
    ensures r.Finite? ==> r == Mean(times[id])
  {
    if id in times then Mean(times[id]) else NaN
  }

  /** Enqueueing one more copy of `x` after `k` copies. */
  lemma AppendRepeated<T>(q0: seq<T>, q1: seq<T>, q2: seq<T>, x: T, k: nat)
    requires q1 == q0 + Repeated(x, k) && q2 == q1 + [x]
    ensures q2 == q0 + Repeated(x, k + 1)
  {
    assert Repeated(x, k + 1) == Repeated(x, k) + [x];
  }

  /** `n` steps of `step` from `x`; step `j` gets the number `j`. */
  function Fold<T>(x: T, step: (T, nat) -> T, n: nat): T {
    if n == 0 then x else step(Fold(x, step, n - 1), n - 1)
  }

  /** A property that holds at the start and that each of the first `n` steps keeps holds
      after the fold. */
  lemma {:induction false} FoldPreserves<T>(x: T, step: (T, nat) -> T, n: nat, inv: T -> bool)
    requires inv(x)
    requires forall y: T, j: nat :: j < n && inv(y) ==> inv(step(y, j))
    ensures inv(Fold(x, step, n))
  {
    if n > 0 {
      FoldPreserves(x, step, n - 1, inv);
    }
  }

  /** Step `j` of `chain` is `step` applied to the element before it. */
  ghost predicate StepAt<T>(chain: seq<T>, step: (T, nat) -> T, j: nat)
    requires j + 1 < |chain|
  {
    chain[j + 1] == step(chain[j], j)
  }

  /** `chain` holds a start and the results of the first `n` steps from it. */
  ghost predicate Chained<T>(chain: seq<T>, step: (T, nat) -> T, n: nat) {
    |chain| == n + 1 && forall j :: 0 <= j < n ==> StepAt(chain, step, j)
  }

  /** One more step extends a chain. */
  lemma ChainedSnoc<T>(chain: seq<T>, step: (T, nat) -> T, n: nat, next: T)
    requires Chained(chain, step, n) && next == step(chain[n], n)
    ensures Chained(chain + [next], step, n + 1)
    ensures (chain + [next])[0] == chain[0] && (chain + [next])[n + 1] == next
  {
    var c := chain + [next];
    forall j | 0 <= j < n + 1
      ensures StepAt(c, step, j)
    {
      if j < n {
        assert StepAt(chain, step, j);
      }
    }
  }

  /** The end of a chain is the fold of its steps from its start. */
  lemma {:induction false} ChainedFold<T>(chain: seq<T>, step: (T, nat) -> T, n: nat)
    requires Chained(chain, step, n)
    ensures chain[n] == Fold(chain[0], step, n)
  {
    if n > 0 {
      var c := chain[..n];
      forall j | 0 <= j < n - 1
        ensures StepAt(c, step, j)
      {
        assert StepAt(chain, step, j);
      }
      ChainedFold(c, step, n - 1);
      assert StepAt(chain, step, n - 1);
    }
  }

  /** The energy `allocateHarvesters` asks of a source per regeneration cycle. */
  function Target(source: SourceInfo, harvestRatio: real): real {
    (source.energyCapacity as real) * harvestRatio
  }

  /** One pass of the loop of `allocateHarvesters` over the views `ws` for `source`, whose
      target is its energy capacity times `harvestRatio`, with the mean deposit time that
      `times` records for it. */
  function SourceStep(ws: seq<WorkerView>, source: SourceInfo, harvestRatio: real,
                      times: map<string, seq<DepositRecord>>): seq<WorkerView> {
    SourcePass(ws, source.id, Target(source, harvestRatio), MeanDepositTime(times, source.id))
  }

  /** Removal then addition, with the source's target and mean deposit time, is the step for
      the source; it changes only assignments to that source. */
  lemma SourceStepOf(V0: seq<WorkerView>, V1: seq<WorkerView>, V2: seq<WorkerView>, source: SourceInfo,
                     harvestRatio: real, times: map<string, seq<DepositRecord>>)
    requires V1 == RemovalPass(V0, source.id, Target(source, harvestRatio), MeanDepositTime(times, source.id))
    requires V2 == AdditionPass(V1, source.id, Target(source, harvestRatio), MeanDepositTime(times, source.id))
    ensures V2 == SourceStep(V0, source, harvestRatio, times)
    ensures AllocationChanges(V0, V2, {source.id})
  {
    SourcePassAllocation(V0, source.id, Target(source, harvestRatio), MeanDepositTime(times, source.id));
  }

  /** Pass `j` of `allocateHarvesters` over the views `ws`: the step for source `j` of `sources`. */
  function SourcePassAt(sources: seq<SourceInfo>, harvestRatio: real, times: map<string, seq<DepositRecord>>,
                        ws: seq<WorkerView>, j: nat): seq<WorkerView> {
    if j < |sources| then SourceStep(ws, sources[j], harvestRatio, times) else ws
  }

  /** The passes of `allocateHarvesters` as a step function for `Fold`. */
  function AllocationStep(sources: seq<SourceInfo>, harvestRatio: real, times: map<string, seq<DepositRecord>>):
    (seq<WorkerView>, nat) -> seq<WorkerView>
  {
    (ws: seq<WorkerView>, j: nat) => SourcePassAt(sources, harvestRatio, times, ws, j)
  }

  /** Step `j` of `AllocationStep` is the pass over source `j`. */
  lemma AllocationStepAt(sources: seq<SourceInfo>, harvestRatio: real, times: map<string, seq<DepositRecord>>,
                         ws: seq<WorkerView>, j: nat)
    requires j < |sources|
    ensures AllocationStep(sources, harvestRatio, times)(ws, j) == SourceStep(ws, sources[j], harvestRatio, times)
  {
  }

  /** The views after the passes of `allocateHarvesters` over all of `sources`, in find order,
      with the deposit history `times`. */
  function Passes(ws: seq<WorkerView>, sources: seq<SourceInfo>, harvestRatio: real,
                  times: map<string, seq<DepositRecord>>): seq<WorkerView> {
    Fold(ws, AllocationStep(sources, harvestRatio, times), |sources|)
  }

  /** `chain` holds the views before `allocateHarvesters` and after each of its first `n` passes. */
  ghost predicate PassChain(chain: seq<seq<WorkerView>>, sources: seq<SourceInfo>, harvestRatio: real,
                            times: map<string, seq<DepositRecord>>, n: nat) {
    Chained(chain, AllocationStep(sources, harvestRatio, times), n)
  }

  /** The pass that `allocateHarvesters` makes over source `k` extends a chain of views. */
  lemma PassChainNext(chain: seq<seq<WorkerView>>, sources: seq<SourceInfo>, harvestRatio: real,
                      times: map<string, seq<DepositRecord>>, k: nat, V0: seq<WorkerView>, V1: seq<WorkerView>)
    requires k < |sources| && PassChain(chain, sources, harvestRatio, times, k) && chain[k] == V0
    requires V1 == SourceStep(V0, sources[k], harvestRatio, times)
    ensures PassChain(chain + [V1], sources, harvestRatio, times, k + 1)
    ensures (chain + [V1])[0] == chain[0] && (chain + [V1])[k + 1] == V1
  {
    ChainedSnoc(chain, AllocationStep(sources, harvestRatio, times), k, V1);
  }

  /** The ids of the room's sources. */
  function SourceIds(sources: seq<SourceInfo>): set<string> {
    set s | s in sources :: s.id
  }

  /** The pass over a source moves workers only between null and that source. */
  lemma SourceStepAllocation(ws: seq<WorkerView>, source: SourceInfo, harvestRatio: real,
                             times: map<string, seq<DepositRecord>>)
    ensures AllocationChanges(ws, SourceStep(ws, source, harvestRatio, times), {source.id})
  {
    SourcePassAllocation(ws, source.id, Target(source, harvestRatio), MeanDepositTime(times, source.id));
  }

  /** A pass after passes that kept the workers within the room's sources keeps them there. */
  lemma StepAllocation(ws: seq<WorkerView>, prev: seq<WorkerView>, sources: seq<SourceInfo>, harvestRatio: real,
                       times: map<string, seq<DepositRecord>>, j: nat)
    requires j < |sources| && AllocationChanges(ws, prev, SourceIds(sources))
    ensures AllocationChanges(ws, AllocationStep(sources, harvestRatio, times)(prev, j), SourceIds(sources))
  {
    var next := AllocationStep(sources, harvestRatio, times)(prev, j);
    AllocationStepAt(sources, harvestRatio, times, prev, j);
    SourceStepAllocation(prev, sources[j], harvestRatio, times);
    assert sources[j].id in SourceIds(sources);
    AllocationChangesCompose(ws, prev, next, SourceIds(sources), sources[j].id);
  }

  /** All the passes of `allocateHarvesters` together leave every worker on its old target,
      idle or on one of the room's sources. */
  lemma PassesAllocation(ws: seq<WorkerView>, sources: seq<SourceInfo>, harvestRatio: real,
                         times: map<string, seq<DepositRecord>>)
    ensures AllocationChanges(ws, Passes(ws, sources, harvestRatio, times), SourceIds(sources))
  {
    var step := AllocationStep(sources, harvestRatio, times);
    var inv := (v: seq<WorkerView>) => AllocationChanges(ws, v, SourceIds(sources));
    AllocationChangesRefl(ws, SourceIds(sources));
    forall v: seq<WorkerView>, j: nat | j < |sources| && inv(v)
      ensures inv(step(v, j))
    {
      StepAllocation(ws, v, sources, harvestRatio, times, j);
    }
    FoldPreserves(ws, step, |sources|, inv);
  }

  /** A chain over all the sources ends in `Passes` from its start. */
  lemma PassChainEnd(chain: seq<seq<WorkerView>>, sources: seq<SourceInfo>, harvestRatio: real,
                     times: map<string, seq<DepositRecord>>)
    requires PassChain(chain, sources, harvestRatio, times, |sources|)
    ensures chain[|sources|] == Passes(chain[0], sources, harvestRatio, times)
  {
    ChainedFold(chain, AllocationStep(sources, harvestRatio, times), |sources|);
  }

  class Allocator {
    /** `memory._sourceDepositTimes`. */
    var depositTimes: map<string, seq<DepositRecord>>

    constructor (depositTimes: map<string, seq<DepositRecord>>)
      ensures this.depositTimes == depositTimes
    {
      this.depositTimes := depositTimes;
    }

    /** `addSourceDepositTime`. The new record goes in front and the oldest are popped until
        HISTORY_LENGTH remain. A source with no history array makes `unshift` throw a
        TypeError; the model then reports `thrown` and changes nothing. Nothing in the modelled
        code creates a history array. */
    method AddSourceDepositTime(source: string, time: int, amount: int) returns (thrown: bool)
      modifies this
      ensures thrown <==> source !in old(depositTimes)
      ensures !thrown ==> depositTimes == old(depositTimes)[source := Pushed(old(depositTimes)[source], DepositRecord(time, amount))]
      ensures thrown ==> depositTimes == old(depositTimes)
    {
      if source !in depositTimes {
        // `unshift` on the missing history throws before anything is stored.
        return true;
      }
      var pushed := [DepositRecord(time, amount)] + depositTimes[source];
      depositTimes := depositTimes[source := pushed];
      assert pushed[..|pushed|] == pushed;
      while |depositTimes[source]| > HISTORY_LENGTH
        invariant source in depositTimes
        invariant Min(|pushed|, HISTORY_LENGTH) <= |depositTimes[source]| <= |pushed|
        invariant depositTimes == old(depositTimes)[source := pushed[..|depositTimes[source]|]]
        decreases |depositTimes[source]|
      {
        var h := depositTimes[source];
        assert h[..|h| - 1] == pushed[..|h| - 1];
        depositTimes := depositTimes[source := h[..|h| - 1]];
      }
      return false;
    }

    /** `getAverageDepositTime`: NaN when the source has no history or an empty one. */
    function AverageDepositTime(source: string): (r: Num)
      reads this
      ensures r.Finite? <==> source in depositTimes && |depositTimes[source]| > 0
      ensures r.Finite? ==> r == Mean(depositTimes[source])
    {
      MeanDepositTime(depositTimes, source)
    }

    /** `removeExcessHarvesters`. `order` is the visiting order (the workers assigned to the
        source, sorted by decreasing rate) and `removed` how many of them, from the front,
        were unassigned: the greedy stops at the first one that would take the removed total
        over the excess of the estimate above `minEnergy`. Only `targetSource` changes, and
        only to null; `RemovalEstimate` states what this does to the estimate. */
    method RemoveExcessHarvesters(sourceId: string, minEnergy: real, creeps: seq<WorkerCreep>)
      returns (order: seq<nat>, removed: nat)
      requires Distinct(creeps)
      modifies set c | c in creeps
      ensures order == VisitList(old(Views(creeps)), OnSource(sourceId), old(AverageDepositTime(sourceId)))
      ensures removed <= |order|
      ensures GreedyRemoval(ViewRates(old(Views(creeps)), old(AverageDepositTime(sourceId))), order, removed,
        Sub(Estimate(old(Views(creeps)), sourceId, old(AverageDepositTime(sourceId))), Finite(minEnergy)))
      ensures Views(creeps) == Retarget(old(Views(creeps)), order[..removed], Null)
      ensures forall i :: 0 <= i < |creeps| ==> creeps[i].depositStartTime == old(creeps[i].depositStartTime)
    {
      var V0 := Views(creeps);
      var avg := AverageDepositTime(sourceId);
      var currentEstimate := Estimate(V0, sourceId, avg);
      var excessCapacity := Sub(currentEstimate, Finite(minEnergy));
      var rates := ViewRates(V0, avg);
      order := VisitList(V0, OnSource(sourceId), avg);
      VisitListFacts(V0, OnSource(sourceId), avg);
      removed := UnassignWithinExcess(creeps, order, rates, excessCapacity);
      ViewsRetargeted(creeps, V0, order[..removed], Null);
    }

    /** Enqueues one worker; the workers are left as they are. */
    static method EnqueueWorker(room: BaseRoom, creeps: seq<WorkerCreep>, body: seq<BodyPart>, name: string)
      modifies room
      ensures Views(creeps) == old(Views(creeps))
      ensures forall i :: 0 <= i < |creeps| ==> creeps[i].depositStartTime == old(creeps[i].depositStartTime)
      ensures room.spawnQueue == old(room.spawnQueue) + [SpawnQueueEntry(WorkerRole, body, name, SpawnOptions(None))]
    {
      ghost var V1 := Views(creeps);
      room.AddCreepToSpawnQueue(WorkerRole, body, name, SpawnOptions(None));
      ViewsMatch(creeps, V1);
    }

    /** `addRequiredHarvesters`. `order` is the visiting order (the idle workers sorted by
        decreasing rate), `added` how many of them, from the front, were assigned to the
        source: the greedy stops when the added total meets the need. `shortfall` is the need
        left afterwards. One worker is enqueued, whatever the shortfall; `AdditionEstimate`
        states what this does to the estimate. */
    method AddRequiredHarvesters(sourceId: string, minEnergy: real, creeps: seq<WorkerCreep>,
                                 room: BaseRoom, time: nat, body: seq<BodyPart>)
      returns (order: seq<nat>, added: nat, shortfall: Num)
      requires Distinct(creeps)
      modifies (set c | c in creeps), room
      ensures IdleAssignment(old(Views(creeps)), Views(creeps), sourceId, minEnergy,
                             old(AverageDepositTime(sourceId)), order, added, shortfall)
      ensures forall i :: 0 <= i < |creeps| ==> creeps[i].depositStartTime == old(creeps[i].depositStartTime)
      ensures room.spawnQueue ==
        old(room.spawnQueue) + [SpawnQueueEntry(WorkerRole, body, GenerateCreepName(ROLE_WORKER, time), SpawnOptions(None))]
    {
      // The body comes from the unfinished body generator; the caller supplies it.
      var name := GenerateCreepName(ROLE_WORKER, time);
      ghost var V0 := Views(creeps);
      var avg := AverageDepositTime(sourceId);
      order, added, shortfall := AssignIdleWorkers(sourceId, minEnergy, creeps, avg, V0);
      EnqueueWorker(room, creeps, body, name);
      assert V0 == old(Views(creeps)) && avg == old(AverageDepositTime(sourceId));
    }

    /** One pass of the loop of `allocateHarvesters`: the target is the source's energy
        capacity times `harvestRatio`; excess workers are removed first, then idle ones added
        (`SourcePass`, with the mean deposit time of the source), and one worker is enqueued. */
    method AllocateSource(room: BaseRoom, source: SourceInfo, harvestRatio: real,
                          creeps: seq<WorkerCreep>, time: nat, body: seq<BodyPart>)
      requires Distinct(creeps)
      modifies (set c | c in creeps), room
      ensures Views(creeps) == SourceStep(old(Views(creeps)), source, harvestRatio, depositTimes)
      ensures AllocationChanges(old(Views(creeps)), Views(creeps), {source.id})
      ensures room.spawnQueue == old(room.spawnQueue) +
        [SpawnQueueEntry(WorkerRole, body, GenerateCreepName(ROLE_WORKER, time), SpawnOptions(None))]
      ensures forall i :: 0 <= i < |creeps| ==> creeps[i].depositStartTime == old(creeps[i].depositStartTime)
    {
      ghost var V0 := Views(creeps);
      ghost var avg := AverageDepositTime(source.id);
      var energyToHarvest := Target(source, harvestRatio);
      var order1, removed := RemoveExcessHarvesters(source.id, energyToHarvest, creeps);
      RemovalPassIs(V0, source.id, energyToHarvest, avg, order1, removed);
      ghost var V1 := Views(creeps);
      var order2, added, shortfall := AddRequiredHarvesters(source.id, energyToHarvest, creeps, room, time, body);
      AdditionPassIs(V1, Views(creeps), source.id, energyToHarvest, avg, order2, added, shortfall);
      SourceStepOf(V0, V1, Views(creeps), source, harvestRatio, depositTimes);
    }

    /** One turn of the loop of `allocateHarvesters`: the pass over source `k` extends the chain
        of views. */
    method AllocateNext(room: BaseRoom, sources: seq<SourceInfo>, k: nat, harvestRatio: real,
                        creeps: seq<WorkerCreep>, time: nat, body: seq<BodyPart>,
                        ghost chain: seq<seq<WorkerView>>, ghost queue: seq<SpawnQueueEntry>)
      returns (ghost chain': seq<seq<WorkerView>>)
      requires Distinct(creeps) && k < |sources|
      requires PassChain(chain, sources, harvestRatio, depositTimes, k) && chain[k] == Views(creeps)
      requires room.spawnQueue ==
        queue + Repeated(SpawnQueueEntry(WorkerRole, body, GenerateCreepName(ROLE_WORKER, time), SpawnOptions(None)), k)
      modifies (set c | c in creeps), room
      ensures PassChain(chain', sources, harvestRatio, depositTimes, k + 1)
      ensures chain'[0] == chain[0] && chain'[k + 1] == Views(creeps)
      ensures room.spawnQueue ==
        queue + Repeated(SpawnQueueEntry(WorkerRole, body, GenerateCreepName(ROLE_WORKER, time), SpawnOptions(None)), k + 1)
      ensures forall i :: 0 <= i < |creeps| ==> creeps[i].depositStartTime == old(creeps[i].depositStartTime)
    {
      ghost var V0 := Views(creeps);
      ghost var q1 := room.spawnQueue;
      AllocateSource(room, sources[k], harvestRatio, creeps, time, body);
      PassChainNext(chain, sources, harvestRatio, depositTimes, k, V0, Views(creeps));
      AppendRepeated(queue, q1, room.spawnQueue,
        SpawnQueueEntry(WorkerRole, body, GenerateCreepName(ROLE_WORKER, time), SpawnOptions(None)), k);
      chain' := chain + [Views(creeps)];
    }

    /** `allocateHarvesters`: every source of the room, in find order, gets one pass of
        `AllocateSource`, so the workers end as `Passes` gives and one worker is enqueued per
        source. */
    method AllocateHarvesters(room: BaseRoom, sources: seq<SourceInfo>, harvestRatio: real,
                              creeps: seq<WorkerCreep>, time: nat, body: seq<BodyPart>)
      requires Distinct(creeps)
      modifies (set c | c in creeps), room
      ensures Views(creeps) == Passes(old(Views(creeps)), sources, harvestRatio, depositTimes)
      ensures room.spawnQueue == old(room.spawnQueue) +
        Repeated(SpawnQueueEntry(WorkerRole, body, GenerateCreepName(ROLE_WORKER, time), SpawnOptions(None)), |sources|)
      ensures AllocationChanges(old(Views(creeps)), Views(creeps), SourceIds(sources))
      ensures forall i :: 0 <= i < |creeps| ==> creeps[i].depositStartTime == old(creeps[i].depositStartTime)
    {
      ghost var chain := [Views(creeps)];
      ghost var entry := SpawnQueueEntry(WorkerRole, body, GenerateCreepName(ROLE_WORKER, time), SpawnOptions(None));
      var k := 0;
      while k < |sources|
        invariant k <= |sources|
        invariant room.spawnQueue == old(room.spawnQueue) + Repeated(entry, k)
        invariant PassChain(chain, sources, harvestRatio, depositTimes, k)
        invariant chain[0] == old(Views(creeps)) && chain[k] == Views(creeps)
        invariant forall i :: 0 <= i < |creeps| ==> creeps[i].depositStartTime == old(creeps[i].depositStartTime)
      {
        chain := AllocateNext(room, sources, k, harvestRatio, creeps, time, body, chain, old(room.spawnQueue));
        k := k + 1;
      }
      PassChainEnd(chain, sources, harvestRatio, depositTimes);
      PassesAllocation(old(Views(creeps)), sources, harvestRatio, depositTimes);
    }
  }
}
