/** creep.worker: the object-style worker, which alternates between harvesting its assigned
    source and depositing into room storage, and reports how long each deposit round trip
    took. The creep's store, the result of `harvest`, whether the source object exists and the
    room's structures are inputs for the tick; movement is not modelled. */
module Worker {
  import opened Screeps
  import opened CreepBase
  import opened Room

  /** `memory.targetSource`: never written (a spawned worker's memory holds only its role),
      null (idle, set by the allocator), or a source id. */
  datatype Assignment = Undefined | Null | SourceId(id: string)

  /** A deposit-time report for the allocator. `elapsed` is `None` when the elapsed time is
      NaN, which happens when the deposit start tick was never recorded. */
  datatype DepositSample = DepositSample(source: Assignment, elapsed: Option<int>)

  /** `_harvest`: `None` stands for its bare `return` (undefined), taken when the creep has no
      target or its target is not a live object. `sourceFound` is whether `getObjectById`
      found the target; an undefined id never resolves. */
  function HarvestCode(target: Assignment, sourceFound: bool, free: nat, harvestCode: ErrorCode): (r: Option<ErrorCode>)
    ensures r.None? <==> !(target.SourceId? && sourceFound)
    ensures r == Some(ERR_FULL) <==> (target.SourceId? && sourceFound && (free == 0 || harvestCode == ERR_FULL))
    ensures r == Some(OK) <==>
      target.SourceId? && sourceFound && free > 0 && (harvestCode == OK || harvestCode == ERR_NOT_IN_RANGE)
  {
    if target.Null? then None
    else if !target.SourceId? || !sourceFound then None
    else if free == 0 then Some(ERR_FULL)
    else if harvestCode == ERR_NOT_IN_RANGE then Some(OK)   // the creep moves towards the source
    else Some(harvestCode)
  }

  /** `_deposit` of energy: nothing to deposit, nowhere to deposit, or OK whatever the transfer
      answered (out of range makes the creep move). */
  function DepositCode(energy: nat, storageFound: bool): (r: ErrorCode)
    ensures r == OK <==> energy > 0 && storageFound
    ensures energy == 0 ==> r == ERR_NOT_ENOUGH_RESOURCES
    ensures energy > 0 && !storageFound ==> r == ERR_FULL
  {
    if energy == 0 then ERR_NOT_ENOUGH_RESOURCES
    else if !storageFound then ERR_FULL
    else OK
  }

  /** The worker's task and recorded deposit start tick. */
  datatype TaskState = TaskState(task: Task, depositStart: Option<int>)

  /** What the tick sees: the game tick, the store's free, used and energy amounts (fixed for
      the tick, as the game applies actions at its end), the harvest inputs and whether room
      storage has space for energy. */
  datatype TickInputs = TickInputs(
    now: nat,
    free: nat,
    used: nat,
    energy: nat,
    sourceFound: bool,
    harvestCode: ErrorCode,
    storageFound: bool)

  /** The first `if` of `tick`: a harvesting creep that failed or is full starts depositing. */
  function HarvestPhase(s: TaskState, target: Assignment, io: TickInputs): TaskState {
    if s.task == Harvesting &&
       (HarvestCode(target, io.sourceFound, io.free, io.harvestCode) != Some(OK) || io.free == 0)
    then TaskState(Depositing, Some(io.now))
    else s
  }

  /** Elapsed ticks since the recorded start; NaN (`None`) without one. */
  function Elapsed(start: Option<int>, now: nat): Option<int> {
    if start.Some? then Some(now - start.value) else None
  }

  /** The second `if` of `tick`: a depositing creep that failed or is empty goes back to
      harvesting and reports the round trip, unless it has no source or no time passed. */
  function DepositPhase(s: TaskState, target: Assignment, io: TickInputs): (TaskState, Option<DepositSample>) {
    if s.task == Depositing && (DepositCode(io.energy, io.storageFound) != OK || io.used == 0) then
      var back := s.(task := Harvesting);
      if target.Null? then (back, None)
      else if Elapsed(s.depositStart, io.now) == Some(0) then (back, None)
      else (back, Some(DepositSample(target, Elapsed(s.depositStart, io.now))))
    else (s, None)
  }

  /** One `tick`: both phases, the second seeing the task the first left. */
  function TickSpec(s: TaskState, target: Assignment, io: TickInputs): (TaskState, Option<DepositSample>) {
    DepositPhase(HarvestPhase(s, target, io), target, io)
  }

  /** A harvesting creep starts depositing exactly when its harvest is not OK or its store is
      full, and only then records the current tick as the deposit start. */
  lemma HarvestingSwitch(s: TaskState, target: Assignment, io: TickInputs)
    requires s.task == Harvesting
    ensures HarvestPhase(s, target, io).task == Depositing <==>
      (HarvestCode(target, io.sourceFound, io.free, io.harvestCode) != Some(OK) || io.free == 0)
    ensures HarvestPhase(s, target, io).task != Depositing ==> HarvestPhase(s, target, io) == s
    ensures HarvestPhase(s, target, io).task == Depositing ==> HarvestPhase(s, target, io).depositStart == Some(io.now)
  {
  }

  /** A creep that starts depositing also tries to deposit on the same tick; if that deposit
      ends the trip at once, no sample is reported, since no time has passed. */
  lemma SwitchDepositsSameTick(s: TaskState, target: Assignment, io: TickInputs)
    requires s.task == Harvesting
    requires HarvestPhase(s, target, io).task == Depositing
    ensures TickSpec(s, target, io).0.task ==
      (if DepositCode(io.energy, io.storageFound) != OK || io.used == 0 then Harvesting else Depositing)
    ensures TickSpec(s, target, io).1.None?
    ensures TickSpec(s, target, io).0.depositStart == Some(io.now)
  {
  }

  /** A depositing creep goes back to harvesting exactly when its deposit is not OK or its store
      is empty, and keeps its deposit start either way. */
  lemma DepositingSwitch(s: TaskState, target: Assignment, io: TickInputs)
    requires s.task == Depositing
    ensures TickSpec(s, target, io).0.task == Harvesting <==>
      (DepositCode(io.energy, io.storageFound) != OK || io.used == 0)
    ensures TickSpec(s, target, io).0.task != Harvesting ==> TickSpec(s, target, io).0.task == Depositing
    ensures TickSpec(s, target, io).0.depositStart == s.depositStart
  {
  }

  /** A task other than harvesting or depositing leaves the state as it is and reports nothing. */
  lemma OtherTasksIdle(s: TaskState, target: Assignment, io: TickInputs)
    requires s.task != Harvesting && s.task != Depositing
    ensures TickSpec(s, target, io) == (s, None)
  {
  }

  /** A sample is reported only at the end of a deposit trip of a creep with a source that is
      not null, for the creep's own target, and carries the nonzero time since the recorded
      start. */
  lemma SampleOnlyAtTripEnd(s: TaskState, target: Assignment, io: TickInputs)
    requires TickSpec(s, target, io).1.Some?
    ensures !target.Null?
    ensures TickSpec(s, target, io).1.value.source == target
    ensures HarvestPhase(s, target, io).task == Depositing
    ensures TickSpec(s, target, io).0.task == Harvesting
    ensures DepositCode(io.energy, io.storageFound) != OK || io.used == 0
    ensures TickSpec(s, target, io).1.value.elapsed == Elapsed(HarvestPhase(s, target, io).depositStart, io.now)
    ensures TickSpec(s, target, io).1.value.elapsed != Some(0)
  {
  }

  /** A trip that started on tick `t0` and ends on a later tick reports `now - t0`. */
  lemma RoundTripReported(t0: int, target: Assignment, io: TickInputs)
    requires !target.Null? && t0 != io.now
    requires DepositCode(io.energy, io.storageFound) != OK || io.used == 0
    ensures TickSpec(TaskState(Depositing, Some(t0)), target, io).1 == Some(DepositSample(target, Some(io.now - t0)))
  {
  }

  /** `_shouldUpdateTask`. A creep whose task was never written asks for none. */
  function ShouldUpdateTask(task: Task, free: nat): (b: bool)
    ensures b <==> (task == Harvesting && free == 0) || task == NoTask
    ensures task == Absent ==> !b
  {
    var justFinishedHarvesting := task == Harvesting && free == 0;
    var hasNoTask := task == NoTask;
    justFinishedHarvesting || hasNoTask
  }

  class WorkerCreep {
    const base: BaseCreep
    const body: seq<BodyPart>
    /** `store.getCapacity()`. */
    const capacity: nat
    var targetSource: Assignment
    var depositStartTime: Option<int>

    constructor (base: BaseCreep, body: seq<BodyPart>, capacity: nat, targetSource: Assignment, depositStartTime: Option<int>)
      ensures this.base == base && this.body == body && this.capacity == capacity
      ensures this.targetSource == targetSource && this.depositStartTime == depositStartTime
    {
      this.base, this.body, this.capacity := base, body, capacity;
      this.targetSource, this.depositStartTime := targetSource, depositStartTime;
    }

    /** The WORK parts of the body. */
    function WorkParts(): nat {
      CountPart(body, Work)
    }

    /** The memory state `tick` updates. */
    function State(): TaskState
      reads this, base
    {
      TaskState(base.currentTask, depositStartTime)
    }

    /** The `depositStartTime` getter. */
    function DepositStartTime(): Option<int>
      reads this
    {
      depositStartTime
    }

    /** The `depositStartTime` setter. */
    method SetDepositStartTime(t: int)
      modifies this
      ensures DepositStartTime() == Some(t)
      ensures targetSource == old(targetSource)
    {
      depositStartTime := Some(t);
    }

    /** `tick`. It updates only the current task and the deposit start, never the assignment,
        and returns the deposit-time report it makes, if any. */
    method Tick(io: TickInputs, structures: seq<Structure>) returns (sample: Option<DepositSample>)
      requires io.storageFound == HasStorageSpace(structures, RESOURCE_ENERGY)
      requires this != base as object
      modifies this, base
      ensures (State(), sample) == TickSpec(old(State()), targetSource, io)
      ensures targetSource == old(targetSource)
      ensures base.targetTask == old(base.targetTask)
    {
      if base.currentTask == Harvesting {
        var err := HarvestCode(targetSource, io.sourceFound, io.free, io.harvestCode);
        if err != Some(OK) || io.free == 0 {
          base.SetCurrentTask(Depositing);
          SetDepositStartTime(io.now);
        }
      }
      sample := None;
      if base.currentTask == Depositing {
        var energy := io.energy;
        var err := ERR_NOT_ENOUGH_RESOURCES;
        if energy != 0 {
          var target := FindStorageWithSpace(structures, RESOURCE_ENERGY);
          err := if target.None? then ERR_FULL else OK;
        }
        if err != OK || io.used == 0 {
          base.SetCurrentTask(Harvesting);
          if targetSource == Null {
            return;
          }
          var timeTaken := Elapsed(depositStartTime, io.now);
          if timeTaken == Some(0) {
            return;
          }
          sample := Some(DepositSample(targetSource, timeTaken));
        }
      }
    }
  }
}
