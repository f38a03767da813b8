/** role.logistics: a logistics creep walks the TRANSFERS table of its role and, for the first
    resource it can act on, either delivers what it carries to the nearest structure that
    needs it or fetches more from the nearest structure that provides it. `transfer` and
    `withdraw` are inputs; the model returns the calls the creep makes. */
module RoleLogistics {
  import opened Screeps
  import HarvestSource

  /** One key of TRANSFERS: the structure types to deliver to (TO) and fetch from (FROM) and
      the optional fill level AMOUNT. */
  datatype TransferConfig = TransferConfig(to: seq<StructureType>, from: seq<StructureType>, amount: Option<int>)
  datatype TransferEntry = TransferEntry(resource: Resource, cfg: TransferConfig)

  /** What the creep sees during the tick: the room's own structures in find order, its
      position, what it carries, its free capacity, and the answers of the game calls. */
  datatype Tick = Tick(
    structures: seq<Structure>,
    pos: Pos,
    carried: map<Resource, nat>,
    free: int,
    transferResult: (string, Resource, Option<int>) -> ErrorCode,
    withdrawResult: (string, Resource, int) -> ErrorCode)

  datatype CallKind = TransferCall | WithdrawCall

  /** A `transfer` or `withdraw` call for the key at `entry` of the table, on the structure
      at `index` of the candidates. An amount of None is JavaScript's null. */
  datatype Call = Call(entry: nat, kind: CallKind, index: nat, target: Structure, resource: Resource,
                       amount: Option<int>, result: ErrorCode)

  /** `structure.store[resource]`; undefined when the store does not list it. */
  function StoreOf(s: Structure, r: Resource): Option<nat> {
    if s.store.Some? then HarvestSource.Stored(s.store.value, r) else None
  }

  /** `store[resource] > 0`; undefined compares false. */
  predicate Holds(s: Structure, r: Resource) {
    StoreOf(s, r).Some? && StoreOf(s, r).value > 0
  }

  // ----- Running minimum and maximum -----

  /** JavaScript's `a < b` on two store readings: false when either is undefined. */
  predicate StoredLess(a: Option<nat>, b: Option<nat>) {
    a.Some? && b.Some? && a.value < b.value
  }

  /** The position `getLowestStored` ends on: nothing reads less, and every defined reading
      before it reads strictly more. */
  predicate LowestAt(s: seq<Option<nat>>, b: int) {
    0 <= b < |s| &&
    (forall j :: 0 <= j < |s| ==> !StoredLess(s[j], s[b])) &&
    (forall j :: 0 <= j < b ==> s[j].Some? ==> StoredLess(s[b], s[j]))
  }

  /** `getLowestStored` over the readings `store[resource]` of the objects: it keeps the first
      object and replaces it by a strictly lower one. When every reading is defined this is
      the earliest object with the least amount. With no object the source returns
      `undefined`, here None. */
  method GetLowestStored(s: seq<Option<nat>>) returns (lowest: Option<nat>)
    ensures lowest.None? <==> |s| == 0
    ensures lowest.Some? ==> LowestAt(s, lowest.value)
    ensures lowest.Some? && (forall j :: 0 <= j < |s| ==> s[j].Some?) ==>
      forall j :: 0 <= j < |s| ==> s[lowest.value].value <= s[j].value
  {
    if |s| == 0 {
      return None;
    }
    var b := 0;
    var i := 1;
    while i < |s|
      invariant 1 <= i <= |s|
      invariant LowestAt(s[..i], b)
    {
      if StoredLess(s[i], s[b]) {
        b := i;
      }
      i := i + 1;
    }
    assert s[..i] == s;
    return Some(b);
  }

  /** Three containers holding 5, 1 and 9: `getHighestStored`, whose loop is that of
      `getLowestStored`, ends on the one holding 1 although 9 is the most. */
  lemma HighestStoredAsWritten(b: int)
    requires LowestAt([Some(5), Some(1), Some(9)], b)
    ensures b == 1
  {
    var s := [Some(5), Some(1), Some(9)];
    assert !StoredLess(s[1], s[b]);
    assert b != 0 && b != 2 by {
      assert StoredLess(s[1], s[0]);
    }
  }

  /** JavaScript's `a > b` on two store readings. */
  predicate StoredGreater(a: Option<nat>, b: Option<nat>) {
    a.Some? && b.Some? && a.value > b.value
  }

  predicate HighestAt(s: seq<Option<nat>>, b: int) {
    0 <= b < |s| &&
    (forall j :: 0 <= j < |s| ==> !StoredGreater(s[j], s[b])) &&
    (forall j :: 0 <= j < b ==> s[j].Some? ==> StoredGreater(s[b], s[j]))
  }

  /** `getHighestStored` with the comparison its doc comment asks for: the earliest object
      with the greatest amount when every reading is defined. */
  method GetHighestStored(s: seq<Option<nat>>) returns (highest: Option<nat>)
    ensures highest.None? <==> |s| == 0
    ensures highest.Some? ==> HighestAt(s, highest.value)
    ensures highest.Some? && (forall j :: 0 <= j < |s| ==> s[j].Some?) ==>
      forall j :: 0 <= j < |s| ==> s[j].value <= s[highest.value].value
  {
    if |s| == 0 {
      return None;
    }
    var b := 0;
    var i := 1;
    while i < |s|
      invariant 1 <= i <= |s|
      invariant HighestAt(s[..i], b)
    {
      if StoredGreater(s[i], s[b]) {
        b := i;
      }
      i := i + 1;
    }
    assert s[..i] == s;
    return Some(b);
  }

  // ----- The structure filters -----

  /** AMOUNT is falsy when it is missing or 0. */
  predicate AmountSet(cfg: TransferConfig) {
    cfg.amount.Some? && cfg.amount.value != 0
  }

  /** A structure `getToStructures` keeps: a TO type, and free capacity for the resource
      when AMOUNT is falsy, or less than AMOUNT stored otherwise. */
  predicate Needs(s: Structure, cfg: TransferConfig, r: Resource) {
    s.stype in cfg.to &&
    if !AmountSet(cfg) then HasFreeSpace(s, r)
    else StoreOf(s, r).Some? && StoreOf(s, r).value < cfg.amount.value
  }

  /** `getToStructures`, in find order. */
  function ToStructures(ss: seq<Structure>, cfg: TransferConfig, r: Resource): seq<Structure>
  {
    if ss == [] then []
    else (if Needs(ss[0], cfg, r) then [ss[0]] else []) + ToStructures(ss[1..], cfg, r)
  }

  lemma {:induction false} ToStructuresMembers(ss: seq<Structure>, cfg: TransferConfig, r: Resource)
    ensures forall s :: s in ToStructures(ss, cfg, r) <==> s in ss && Needs(s, cfg, r)
  {
    if ss != [] {
      ToStructuresMembers(ss[1..], cfg, r);
    }
  }

  /** A structure `getFromStructures` keeps: a FROM type holding some of the resource. */
  predicate Provides(s: Structure, cfg: TransferConfig, r: Resource) {
    s.stype in cfg.from && Holds(s, r)
  }

  /** `getFromStructures`, in find order. */
  function FromStructures(ss: seq<Structure>, cfg: TransferConfig, r: Resource): seq<Structure>
  {
    if ss == [] then []
    else (if Provides(ss[0], cfg, r) then [ss[0]] else []) + FromStructures(ss[1..], cfg, r)
  }

  lemma {:induction false} FromStructuresMembers(ss: seq<Structure>, cfg: TransferConfig, r: Resource)
    ensures forall s :: s in FromStructures(ss, cfg, r) <==> s in ss && Provides(s, cfg, r)
  {
    if ss != [] {
      FromStructuresMembers(ss[1..], cfg, r);
    }
  }

  /** The second filter of the withdraw branch, `store[resource] > 0`. */
  function Holding(ss: seq<Structure>, r: Resource): seq<Structure>
  {
    if ss == [] then []
    else (if Holds(ss[0], r) then [ss[0]] else []) + Holding(ss[1..], r)
  }

  lemma {:induction false} HoldingMembers(ss: seq<Structure>, r: Resource)
    ensures forall s :: s in Holding(ss, r) <==> s in ss && Holds(s, r)
  {
    if ss != [] {
      HoldingMembers(ss[1..], r);
    }
  }

  /** The second filter keeps every structure that holds the resource. */
  lemma {:induction false} HoldingAll(ss: seq<Structure>, r: Resource)
    requires forall i :: 0 <= i < |ss| ==> Holds(ss[i], r)
    ensures Holding(ss, r) == ss
  {
    if ss != [] {
      HoldingAll(ss[1..], r);
      assert Holding(ss, r) == [ss[0]] + ss[1..];
    }
  }

  /** So it keeps every structure `getFromStructures` returned, and the withdraw branch never
      looks for the nearest of nothing. */
  lemma HoldingOfFrom(ss: seq<Structure>, cfg: TransferConfig, r: Resource)
    ensures Holding(FromStructures(ss, cfg, r), r) == FromStructures(ss, cfg, r)
  {
    var from := FromStructures(ss, cfg, r);
    FromStructuresMembers(ss, cfg, r);
    assert forall i :: 0 <= i < |from| ==> from[i] in from;
    HoldingAll(from, r);
  }

  // ----- The walk over TRANSFERS -----

  /** `creep.store[resource]` is truthy. */
  predicate Carries(t: Tick, r: Resource) {
    r in t.carried && t.carried[r] > 0
  }

  /** A key `run` passes over: nothing needs the resource, or nothing provides it while the
      creep carries none. */
  predicate Skipped(t: Tick, e: TransferEntry) {
    ToStructures(t.structures, e.cfg, e.resource) == [] ||
    (FromStructures(t.structures, e.cfg, e.resource) == [] && !Carries(t, e.resource))
  }

  /** A call result that ends `run`: OK, or ERR_NOT_IN_RANGE after which the creep moves. */
  predicate Stops(c: Call) {
    c.result == OK || c.result == ERR_NOT_IN_RANGE
  }

  /** The earliest nearest position, as a function. */
  function Closest(from: Pos, ps: seq<Pos>): (k: nat)
    requires |ps| > 0
    ensures HarvestSource.NearestAt(from, ps, k)
  {
    if |ps| == 1 then 0
    else
      var init := ps[..|ps| - 1];
      var b := Closest(from, init);
      assert forall j :: 0 <= j < |init| ==> init[j] == ps[j];
      if DistSq(from, ps[|ps| - 1]) < DistSq(from, ps[b]) then |ps| - 1 else b
  }

  /** The amount of a delivery: all the creep carries, lowered to the target's free capacity.
      A null free capacity compares as 0, is less than what the creep carries, and is passed
      on as the amount. */
  function DepositAmount(carried: nat, free: Option<int>): (amount: Option<int>)
    requires carried > 0
    ensures amount.None? <==> free.None?
    ensures amount.Some? ==> amount.value <= carried && amount.value <= free.value
    ensures amount.Some? ==> amount.value == carried || amount.value == free.value
  {
    if free.None? then None
    else if free.value < carried then Some(free.value)
    else Some(carried)
  }

  /** The call `run` makes for a key it does not pass over: a delivery to the nearest
      structure that needs the resource when the creep carries some, otherwise a withdrawal
      of as much as fits from the nearest structure that provides it. */
  function CallOf(t: Tick, e: TransferEntry, k: nat): (c: Call)
    requires !Skipped(t, e)
    ensures c.entry == k && c.resource == e.resource
  {
    var r := e.resource;
    if Carries(t, r) then
      var to := ToStructures(t.structures, e.cfg, r);
      var i := Closest(t.pos, HarvestSource.Positions(to));
      var s := to[i];
      ToStructuresMembers(t.structures, e.cfg, r);
      assert s in to;
      var amount := DepositAmount(t.carried[r], FreeCapacity(s.store.value, r));
      Call(k, TransferCall, i, s, r, amount, t.transferResult(s.id, r, amount))
    else
      var from := FromStructures(t.structures, e.cfg, r);
      var i := Closest(t.pos, HarvestSource.Positions(from));
      var s := from[i];
      var amount := HarvestSource.WithdrawAmount(t.free, StoreOf(s, r));
      Call(k, WithdrawCall, i, s, r, Some(amount), t.withdrawResult(s.id, r, amount))
  }

  /** A delivery goes to the earliest nearest structure that needs the resource and hands over
      at most what the creep carries and what the target can take; a withdrawal takes from
      the earliest nearest structure that provides the resource, the lesser of what fits in
      the creep and what the target holds. */
  lemma CallOfFacts(t: Tick, e: TransferEntry, k: nat)
    requires !Skipped(t, e)
    ensures var c := CallOf(t, e, k);
      c.kind == TransferCall <==> Carries(t, e.resource)
    ensures var c := CallOf(t, e, k); var to := ToStructures(t.structures, e.cfg, e.resource);
      c.kind == TransferCall ==>
        HarvestSource.NearestAt(t.pos, HarvestSource.Positions(to), c.index) && c.target == to[c.index] &&
        c.result == t.transferResult(c.target.id, e.resource, c.amount)
    ensures var c := CallOf(t, e, k);
      c.kind == TransferCall ==>
        Needs(c.target, e.cfg, e.resource) && c.target.store.Some? &&
        c.amount == DepositAmount(t.carried[e.resource], FreeCapacity(c.target.store.value, e.resource))
    ensures var c := CallOf(t, e, k); var from := FromStructures(t.structures, e.cfg, e.resource);
      c.kind == WithdrawCall ==>
        HarvestSource.NearestAt(t.pos, HarvestSource.Positions(from), c.index) && c.target == from[c.index] &&
        c.amount.Some? && c.result == t.withdrawResult(c.target.id, e.resource, c.amount.value)
    ensures var c := CallOf(t, e, k);
      c.kind == WithdrawCall ==>
        Provides(c.target, e.cfg, e.resource) && c.amount.Some? && c.amount.value <= t.free &&
        c.amount.value <= StoreOf(c.target, e.resource).value
    ensures var c := CallOf(t, e, k);
      c.kind == WithdrawCall ==>
        c.amount == Some(HarvestSource.WithdrawAmount(t.free, StoreOf(c.target, e.resource))) &&
        (c.amount.value == t.free || c.amount.value == StoreOf(c.target, e.resource).value)
  {
    var c := CallOf(t, e, k);
    if Carries(t, e.resource) {
      ToStructuresMembers(t.structures, e.cfg, e.resource);
      assert c.target in ToStructures(t.structures, e.cfg, e.resource);
    } else {
      FromStructuresMembers(t.structures, e.cfg, e.resource);
      assert c.target in FromStructures(t.structures, e.cfg, e.resource);
    }
  }

  /** What `run` does for one key: nothing when it passes over it, one call otherwise. */
  function StepOf(t: Tick, e: TransferEntry, k: nat): (step: Option<Call>)
    ensures step.Some? ==> step.value.entry == k
  {
    if Skipped(t, e) then None else Some(CallOf(t, e, k))
  }

  /** What `run` does for each key of the table, in order. */
  function Steps(t: Tick, es: seq<TransferEntry>): (steps: seq<Option<Call>>)
    ensures |steps| == |es|
  {
    if es == [] then [] else Steps(t, es[..|es| - 1]) + [StepOf(t, es[|es| - 1], |es| - 1)]
  }

  lemma {:induction false} StepsAt(t: Tick, es: seq<TransferEntry>, i: nat)
    requires i < |es|
    ensures Steps(t, es)[i] == StepOf(t, es[i], i)
  {
    var init := es[..|es| - 1];
    if i < |es| - 1 {
      StepsAt(t, init, i);
      assert init[i] == es[i];
    }
  }

  /** Each call records the key it was made for. */
  predicate Indexed(steps: seq<Option<Call>>) {
    forall i :: 0 <= i < |steps| && steps[i].Some? ==> steps[i].value.entry == i
  }

  lemma StepsIndexed(t: Tick, es: seq<TransferEntry>)
    ensures Indexed(Steps(t, es))
  {
    var steps := Steps(t, es);
    forall i | 0 <= i < |steps| && steps[i].Some?
      ensures steps[i].value.entry == i
    {
      StepsAt(t, es, i);
    }
  }

  /** The calls of `run` from key `k` on: keys it passes over make none, the others one each,
      and the first call that stops ends the walk. */
  function Walk(steps: seq<Option<Call>>, k: nat): seq<Call>
    decreases |steps| - k
  {
    if k >= |steps| then []
    else match steps[k]
      case None => Walk(steps, k + 1)
      case Some(c) => if Stops(c) then [c] else [c] + Walk(steps, k + 1)
  }

  /** The walk visits the keys in order and makes only the calls of the keys it visits; only
      its last call can stop it. */
  lemma {:induction false} WalkFacts(steps: seq<Option<Call>>, k: nat)
    requires Indexed(steps)
    ensures var w := Walk(steps, k);
      forall q :: 0 <= q < |w| ==> k <= w[q].entry < |steps| && steps[w[q].entry] == Some(w[q])
    ensures var w := Walk(steps, k);
      forall p, q :: 0 <= p < q < |w| ==> w[p].entry < w[q].entry
    ensures var w := Walk(steps, k);
      forall q :: 0 <= q < |w| - 1 ==> !Stops(w[q])
    decreases |steps| - k
  {
    if k < |steps| {
      WalkFacts(steps, k + 1);
      if steps[k].Some? && !Stops(steps[k].value) {
        var w := [steps[k].value] + Walk(steps, k + 1);
        assert forall q :: 0 < q < |w| ==> w[q] == Walk(steps, k + 1)[q - 1];
      }
    }
  }

  /** Some call of `w` is for the key at `j`. */
  predicate CallsFor(w: seq<Call>, j: nat) {
    exists q :: 0 <= q < |w| && w[q].entry == j
  }

  lemma CallsForCons(c: Call, w: seq<Call>, j: nat)
    requires CallsFor(w, j)
    ensures CallsFor([c] + w, j)
  {
    var q :| 0 <= q < |w| && w[q].entry == j;
    assert ([c] + w)[q + 1] == w[q];
  }

  /** Every key that makes a call gets it, unless an earlier call stopped the walk. */
  lemma {:induction false} WalkComplete(steps: seq<Option<Call>>, k: nat, j: nat)
    requires Indexed(steps)
    requires k <= j < |steps| && steps[j].Some?
    ensures var w := Walk(steps, k);
      CallsFor(w, j) || (w != [] && Stops(w[|w| - 1]) && w[|w| - 1].entry < j)
    decreases |steps| - k
  {
    var w := Walk(steps, k);
    if k == j {
      assert w[0] == steps[k].value;
      assert CallsFor(w, j);
    } else if steps[k].None? {
      WalkComplete(steps, k + 1, j);
      assert w == Walk(steps, k + 1);
    } else if Stops(steps[k].value) {
      assert w == [steps[k].value];
      assert w[0].entry == k;
    } else {
      WalkComplete(steps, k + 1, j);
      var rest := Walk(steps, k + 1);
      assert w == [steps[k].value] + rest;
      if CallsFor(rest, j) {
        CallsForCons(steps[k].value, rest, j);
      } else {
        assert w[|w| - 1] == rest[|rest| - 1];
      }
    }
  }

  /** Each call of `run` is the call for a key it does not pass over. */
  lemma RunCallsMade(t: Tick, es: seq<TransferEntry>)
    ensures var w := Walk(Steps(t, es), 0);
      forall q :: 0 <= q < |w| ==>
        w[q].entry < |es| && StepOf(t, es[w[q].entry], w[q].entry) == Some(w[q])
  {
    var steps := Steps(t, es);
    StepsIndexed(t, es);
    WalkFacts(steps, 0);
    assert forall q :: 0 <= q < |Walk(steps, 0)| ==> Walk(steps, 0)[q].entry < |steps| == |es|;
    forall q | 0 <= q < |Walk(steps, 0)|
      ensures StepOf(t, es[Walk(steps, 0)[q].entry], Walk(steps, 0)[q].entry) == Some(Walk(steps, 0)[q])
    {
      StepsAt(t, es, Walk(steps, 0)[q].entry);
    }
  }

  /** The calls of `run` follow the order of the keys, and only the last one can end the
      loop. */
  lemma RunCallsOrdered(t: Tick, es: seq<TransferEntry>)
    ensures var w := Walk(Steps(t, es), 0);
      forall p, q :: 0 <= p < q < |w| ==> w[p].entry < w[q].entry
    ensures var w := Walk(Steps(t, es), 0);
      forall q :: 0 <= q < |w| - 1 ==> !Stops(w[q])
  {
    StepsIndexed(t, es);
    WalkFacts(Steps(t, es), 0);
  }

  /** A key `run` does not pass over gets its call, unless an earlier call ended the loop. */
  lemma RunCallsComplete(t: Tick, es: seq<TransferEntry>, j: nat)
    requires j < |es| && !Skipped(t, es[j])
    ensures var w := Walk(Steps(t, es), 0);
      CallsFor(w, j) || (w != [] && Stops(w[|w| - 1]) && w[|w| - 1].entry < j)
  {
    StepsIndexed(t, es);
    StepsAt(t, es, j);
    WalkComplete(Steps(t, es), 0, j);
  }

  /** One turn of the loop of `run`: the two `continue`s, then the delivery or the
      withdrawal. */
  method TransferStep(t: Tick, es: seq<TransferEntry>, k: nat) returns (step: Option<Call>)
    requires k < |es|
    ensures step == Steps(t, es)[k]
  {
    StepsAt(t, es, k);
    var e := es[k];
    var r := e.resource;
    var toStructures := ToStructures(t.structures, e.cfg, r);
    if |toStructures| == 0 {
      return None;
    }
    var fromStructures := FromStructures(t.structures, e.cfg, r);
    if |fromStructures| == 0 && !Carries(t, r) {
      return None;
    }
    if Carries(t, r) {
      var i := HarvestSource.GetNearest(t.pos, HarvestSource.Positions(toStructures));
      HarvestSource.NearestAtUnique(t.pos, HarvestSource.Positions(toStructures), i.value,
                                    Closest(t.pos, HarvestSource.Positions(toStructures)));
      var structure := toStructures[i.value];
      ToStructuresMembers(t.structures, e.cfg, r);
      assert structure in toStructures;
      var amount := DepositAmount(t.carried[r], FreeCapacity(structure.store.value, r));
      var transferErr := t.transferResult(structure.id, r, amount);
      step := Some(Call(k, TransferCall, i.value, structure, r, amount, transferErr));
    } else {
      var holding := Holding(fromStructures, r);
      HoldingOfFrom(t.structures, e.cfg, r);
      var i := HarvestSource.GetNearest(t.pos, HarvestSource.Positions(holding));
      HarvestSource.NearestAtUnique(t.pos, HarvestSource.Positions(holding), i.value,
                                    Closest(t.pos, HarvestSource.Positions(holding)));
      var structure := holding[i.value];
      var amount := HarvestSource.WithdrawAmount(t.free, StoreOf(structure, r));
      var withdrawErr := t.withdrawResult(structure.id, r, amount);
      step := Some(Call(k, WithdrawCall, i.value, structure, r, Some(amount), withdrawErr));
    }
  }

  /** One turn of the walk: a key without a call adds nothing, a call that does not stop
      is followed by the rest of the walk. */
  lemma WalkTurn(steps: seq<Option<Call>>, k: nat, calls: seq<Call>)
    requires k < |steps| && calls + Walk(steps, k) == Walk(steps, 0)
    ensures steps[k].None? ==> calls + Walk(steps, k + 1) == Walk(steps, 0)
    ensures steps[k].Some? && Stops(steps[k].value) ==> calls + [steps[k].value] == Walk(steps, 0)
    ensures steps[k].Some? && !Stops(steps[k].value) ==> (calls + [steps[k].value]) + Walk(steps, k + 1) == Walk(steps, 0)
  {
  }

  /** One key of `run`'s loop: its call, if any, is added, and the loop ends when that call
      stops it. */
  method Turn(t: Tick, es: seq<TransferEntry>, k: nat, ghost steps: seq<Option<Call>>, calls: seq<Call>)
    returns (calls': seq<Call>, done: bool, moveTo: Option<Structure>)
    requires k < |es| == |steps| && steps == Steps(t, es)
    requires calls + Walk(steps, k) == Walk(steps, 0)
    requires calls == [] || !Stops(calls[|calls| - 1])
    ensures !done ==> moveTo.None? && calls' + Walk(steps, k + 1) == Walk(steps, 0)
    ensures !done ==> calls' == [] || !Stops(calls'[|calls'| - 1])
    ensures done ==> calls' == Walk(steps, 0) && calls' != []
    ensures done ==> (moveTo.Some? <==> calls'[|calls'| - 1].result == ERR_NOT_IN_RANGE)
    ensures done && moveTo.Some? ==> moveTo.value == calls'[|calls'| - 1].target
  {
    var step := TransferStep(t, es, k);
    WalkTurn(steps, k, calls);
    calls', done, moveTo := calls, false, None;
    if step.Some? {
      var c := step.value;
      calls' := calls + [c];
      if c.result == ERR_NOT_IN_RANGE {
        return calls', true, Some(c.target);
      }
      if c.result == OK {
        return calls', true, None;
      }
    }
  }

  /** `run` for the TRANSFERS table `es`: the calls it makes, and the structure it moves to
      when the last call answered ERR_NOT_IN_RANGE. */
  method Run(t: Tick, es: seq<TransferEntry>) returns (calls: seq<Call>, moveTo: Option<Structure>)
    ensures calls == Walk(Steps(t, es), 0)
    ensures moveTo.Some? <==> calls != [] && calls[|calls| - 1].result == ERR_NOT_IN_RANGE
    ensures moveTo.Some? ==> moveTo.value == calls[|calls| - 1].target
  {
    calls, moveTo := RunLoop(t, es, Steps(t, es));
  }

  /** The loop of `run`, with `steps` standing for what it does at each key. */
  method RunLoop(t: Tick, es: seq<TransferEntry>, ghost steps: seq<Option<Call>>)
    returns (calls: seq<Call>, moveTo: Option<Structure>)
    requires steps == Steps(t, es)
    ensures calls == Walk(steps, 0)
    ensures moveTo.Some? <==> calls != [] && calls[|calls| - 1].result == ERR_NOT_IN_RANGE
    ensures moveTo.Some? ==> moveTo.value == calls[|calls| - 1].target
  {
    calls, moveTo := [], None;
    var k: nat, done := 0, false;
    while k < |es| && !done
      invariant k <= |es| == |steps|
      invariant !done ==> calls + Walk(steps, k) == Walk(steps, 0) && moveTo.None?
      invariant !done ==> calls == [] || !Stops(calls[|calls| - 1])
      invariant done ==> calls == Walk(steps, 0) && calls != []
      invariant done ==> (moveTo.Some? <==> calls[|calls| - 1].result == ERR_NOT_IN_RANGE)
      invariant done && moveTo.Some? ==> moveTo.value == calls[|calls| - 1].target
    {
      calls, done, moveTo := Turn(t, es, k, steps, calls);
      k := k + 1;
    }
    if !done {
      assert Walk(steps, k) == [];
    }
  }
}
