/** creep.base: the task fields every object-style creep keeps in its memory, and the
    naming scheme for new creeps. */
module CreepBase {
  import opened Screeps

  /** The creep roles of the object-style engine. */
  datatype CreepType = BaseCreepRole | WorkerRole

  function CreepTypeName(t: CreepType): string {
    match t
    case BaseCreepRole => "base_creep"
    case WorkerRole => "worker"
  }

  const ROLE_WORKER: string := "worker"

  /** A creep task. `Absent` stands for a memory field that was never written (the memory of a
      freshly spawned creep holds only its role); `NoTask` is the empty string. */
  datatype Task = Absent | NoTask | Harvesting | Depositing | Upgrading | Building | Repairing

  /** The string stored in memory; `None` when the field is undefined. */
  function TaskName(t: Task): Option<string> {
    match t
    case Absent => None
    case NoTask => Some("")
    case Harvesting => Some("harvesting")
    case Depositing => Some("depositing")
    case Upgrading => Some("upgrading")
    case Building => Some("building")
    case Repairing => Some("repairing")
  }

  /** Reads a task back from what memory holds. */
  function ParseTask(s: Option<string>): (r: Option<Task>)
    ensures r.Some? ==> TaskName(r.value) == s
  {
    match s
    case None => Some(Absent)
    case Some(v) =>
      if v == "" then Some(NoTask)
      else if v == "harvesting" then Some(Harvesting)
      else if v == "depositing" then Some(Depositing)
      else if v == "upgrading" then Some(Upgrading)
      else if v == "building" then Some(Building)
      else if v == "repairing" then Some(Repairing)
      else None
  }

  /** Every task survives a write to memory and a read back. */
  lemma TaskRoundTrip(t: Task)
    ensures ParseTask(TaskName(t)) == Some(t)
  {
  }

  /** Different tasks are stored as different strings. */
  lemma TaskNameInjective(a: Task, b: Task)
    requires TaskName(a) == TaskName(b)
    ensures a == b
  {
    TaskRoundTrip(a);
    TaskRoundTrip(b);
  }

  /** `generateCreepName`: the base name, a dash, then the tick number in decimal. */
  function GenerateCreepName(baseName: string, time: nat): (r: string)
    ensures |r| > |baseName| + 1
    ensures r[..|baseName|] == baseName && r[|baseName|] == '-'
    ensures forall i :: |baseName| < i < |r| ==> '0' <= r[i] <= '9'
    ensures ParseDecimal(r[|baseName| + 1..]) == time
  {
    var digits := NatToString(time);
    DecimalRoundTrip(time);
    assert (baseName + "-" + digits)[|baseName| + 1..] == digits;
    baseName + "-" + digits
  }

  /** Names generated on different ticks differ, so at most one name per base and tick. */
  lemma CreepNameInjective(baseName: string, t1: nat, t2: nat)
    requires GenerateCreepName(baseName, t1) == GenerateCreepName(baseName, t2)
    ensures t1 == t2
  {
    var n := GenerateCreepName(baseName, t1);
    assert ParseDecimal(n[|baseName| + 1..]) == t1;
  }

  /** The task part of a creep's memory; `role` is the role string its memory holds. */
  class BaseCreep {
    const name: string
    const role: string
    const home: string
    var currentTask: Task
    var targetTask: Task

    constructor (name: string, role: string, home: string, currentTask: Task, targetTask: Task)
      ensures this.name == name && this.role == role && this.home == home
      ensures this.currentTask == currentTask && this.targetTask == targetTask
    {
      this.name, this.role, this.home := name, role, home;
      this.currentTask, this.targetTask := currentTask, targetTask;
    }

    /** The `targetTask` getter. */
    function TargetTask(): Task
      reads this
    {
      targetTask
    }

    /** The `currentTask` getter. */
    function CurrentTask(): Task
      reads this
    {
      currentTask
    }

    /** The `targetTask` setter: the getter then returns the value written. */
    method SetTargetTask(t: Task)
      modifies this
      ensures TargetTask() == t
      ensures currentTask == old(currentTask)
    {
      targetTask := t;
    }

    /** The protected `currentTask` setter. */
    method SetCurrentTask(t: Task)
      modifies this
      ensures CurrentTask() == t
      ensures targetTask == old(targetTask)
    {
      currentTask := t;
    }

    /** `_updateTask`: the current task becomes the target task; nothing else changes. */
    method UpdateTask()
      modifies this
      ensures CurrentTask() == old(TargetTask())
      ensures TargetTask() == old(TargetTask())
    {
      SetCurrentTask(targetTask);
    }
  }
}
