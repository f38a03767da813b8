/** room: the object-style room with its persistent spawn queue, and the storage search the
    worker creeps deposit into. Spawns and structures are what `room.find` returns during the
    tick; the result of each `spawnCreep` call is an input. */
module Room {
  import opened Screeps
  import opened CreepBase

  /** `opts` of a queue entry: the creep memory to spawn with, if any. */
  datatype SpawnOptions = SpawnOptions(memory: Option<map<string, string>>)

  datatype SpawnQueueEntry = SpawnQueueEntry(
    role: CreepType,
    body: seq<BodyPart>,
    name: string,
    opts: SpawnOptions)

  /** One `spawn.spawnCreep(body, name, opts)` call: the spawn and the queue entry it is handed.
      The call passes the entry's body and name and the options `Options()`. */
  datatype HandOff = HandOff(spawnId: string, entry: SpawnQueueEntry) {
    function Options(): SpawnOptions {
      WithRole(entry.opts, entry.role)
    }
  }

  datatype SpawnInfo = SpawnInfo(id: string, spawning: bool)

  /** The options handed to the spawn: `opts.memory` is created when absent and its role set. */
  function WithRole(opts: SpawnOptions, role: CreepType): (r: SpawnOptions)
    ensures r.memory.Some? && "role" in r.memory.value
    ensures r.memory.value["role"] == CreepTypeName(role)
    ensures opts.memory.Some? ==>
      forall k :: k in opts.memory.value && k != "role" ==>
        k in r.memory.value && r.memory.value[k] == opts.memory.value[k]
    ensures opts.memory.None? ==> r.memory.value.Keys == {"role"}
  {
    var m := if opts.memory.Some? then opts.memory.value else map[];
    SpawnOptions(Some(m["role" := CreepTypeName(role)]))
  }

  /** `initializeMemory`: a stored queue is kept, an undefined one becomes empty. */
  function InitializeMemory(stored: Option<seq<SpawnQueueEntry>>): (q: seq<SpawnQueueEntry>)
    ensures stored.None? ==> q == []
    ensures stored.Some? ==> q == stored.value
  {
    stored.GetOr([])
  }

  /** Initialising twice is the same as initialising once. */
  lemma InitializeMemoryIdempotent(stored: Option<seq<SpawnQueueEntry>>)
    ensures InitializeMemory(Some(InitializeMemory(stored))) == InitializeMemory(stored)
  {
  }

  /** Number of hand-offs a drain of `n` entries makes when a spawn is free: it stops after
      the first attempt answered by ERR_NOT_ENOUGH_ENERGY, or when the queue is empty. */
  function DrainCount(n: nat, results: nat -> ErrorCode, from: nat): (k: nat)
    requires from <= n
    ensures from <= k <= n
    decreases n - from
  {
    if from == n then n
    else if results(from) == ERR_NOT_ENOUGH_ENERGY then from + 1
    else DrainCount(n, results, from + 1)
  }

  lemma {:induction false} DrainCountStops(n: nat, results: nat -> ErrorCode, from: nat)
    requires from <= n
    ensures forall i :: from <= i < DrainCount(n, results, from) - 1 ==> results(i) != ERR_NOT_ENOUGH_ENERGY
    ensures DrainCount(n, results, from) < n ==>
      results(DrainCount(n, results, from) - 1) == ERR_NOT_ENOUGH_ENERGY
    ensures DrainCount(n, results, from) == n && n > from ==>
      results(n - 1) == ERR_NOT_ENOUGH_ENERGY || forall i :: from <= i < n ==> results(i) != ERR_NOT_ENOUGH_ENERGY
    decreases n - from
  {
    if from < n && results(from) != ERR_NOT_ENOUGH_ENERGY {
      DrainCountStops(n, results, from + 1);
    }
  }

  /** The first spawn of `spawns[from..]` that is not spawning. */
  function FirstFree(spawns: seq<SpawnInfo>, from: nat): (r: Option<SpawnInfo>)
    requires from <= |spawns|
    ensures r.Some? <==> exists i :: from <= i < |spawns| && !spawns[i].spawning
    ensures r.Some? ==> exists i :: (from <= i < |spawns| && spawns[i] == r.value && !spawns[i].spawning &&
      forall j :: from <= j < i ==> spawns[j].spawning)
    decreases |spawns| - from
  {
    if from == |spawns| then None
    else if !spawns[from].spawning then Some(spawns[from])
    else FirstFree(spawns, from + 1)
  }

  /** `getFreeSpawn`: the first spawn, in find order, that is not spawning. */
  method GetFreeSpawn(spawns: seq<SpawnInfo>) returns (r: Option<SpawnInfo>)
    ensures r == FirstFree(spawns, 0)
  {
    var i := 0;
    while i < |spawns|
      invariant i <= |spawns|
      invariant FirstFree(spawns, i) == FirstFree(spawns, 0)
    {
      if !spawns[i].spawning {
        return Some(spawns[i]);
      }
      i := i + 1;
    }
    return None;
  }

  /** The three priority classes of `findStorageWithSpace`, highest first. */
  const STORAGE_PRIORITY: seq<set<StructureType>> := [{Link, Spawn, Extension}, {Tower}, {Storage}]

  /** A structure of the class that has a store able to take more of the resource. */
  predicate CanStore(s: Structure, cls: set<StructureType>, resource: Resource) {
    HasFreeSpace(s, resource) && s.stype in cls
  }

  /** Some structure of some class can take more of the resource. */
  predicate HasStorageSpace(structures: seq<Structure>, resource: Resource) {
    exists c, i :: 0 <= c < |STORAGE_PRIORITY| && 0 <= i < |structures| &&
      CanStore(structures[i], STORAGE_PRIORITY[c], resource)
  }

  /** Structure `i` is the first, in find order, of class `c`, and no earlier class has one. */
  predicate FirstStorageAt(structures: seq<Structure>, resource: Resource, c: int, i: int) {
    0 <= c < |STORAGE_PRIORITY| && 0 <= i < |structures| &&
    CanStore(structures[i], STORAGE_PRIORITY[c], resource) &&
    (forall c', j :: 0 <= c' < c && 0 <= j < |structures| ==> !CanStore(structures[j], STORAGE_PRIORITY[c'], resource)) &&
    (forall j :: 0 <= j < i ==> !CanStore(structures[j], STORAGE_PRIORITY[c], resource))
  }

  /** `findStorageWithSpace`: the first structure, in find order, of the first class that has
      one with free capacity for the resource; `None` stands for ERR_FULL. */
  method FindStorageWithSpace(structures: seq<Structure>, resource: Resource) returns (r: Option<Structure>)
    ensures r.Some? <==> HasStorageSpace(structures, resource)
    ensures r.Some? ==> exists c, i :: FirstStorageAt(structures, resource, c, i) && r.value == structures[i]
  {
    var c := 0;
    while c < |STORAGE_PRIORITY|
      invariant c <= |STORAGE_PRIORITY|
      invariant forall c', j :: 0 <= c' < c && 0 <= j < |structures| ==> !CanStore(structures[j], STORAGE_PRIORITY[c'], resource)
    {
      var i := 0;
      while i < |structures|
        invariant i <= |structures|
        invariant forall j :: 0 <= j < i ==> !CanStore(structures[j], STORAGE_PRIORITY[c], resource)
      {
        if CanStore(structures[i], STORAGE_PRIORITY[c], resource) {
          assert FirstStorageAt(structures, resource, c, i);
          return Some(structures[i]);
        }
        i := i + 1;
      }
      c := c + 1;
    }
    return None;
  }

  /** True when some entry of the queue has the role. */
  function AnyWithRole(q: seq<SpawnQueueEntry>, role: CreepType): (b: bool)
    ensures b <==> exists i :: 0 <= i < |q| && q[i].role == role
  {
    if q == [] then false
    else q[0].role == role || AnyWithRole(q[1..], role)
  }

  class BaseRoom {
    const name: string
    var spawnQueue: seq<SpawnQueueEntry>

    /** The constructor runs `initializeMemory` on the queue stored in the room's memory. */
    constructor (name: string, stored: Option<seq<SpawnQueueEntry>>)
      ensures this.name == name
      ensures spawnQueue == InitializeMemory(stored)
    {
      this.name := name;
      spawnQueue := InitializeMemory(stored);
    }

    /** `addCreepToSpawnQueue`: the entry goes at the end; the entries before it are kept. */
    method AddCreepToSpawnQueue(role: CreepType, body: seq<BodyPart>, creepName: string, opts: SpawnOptions)
      modifies this
      ensures spawnQueue == old(spawnQueue) + [SpawnQueueEntry(role, body, creepName, opts)]
    {
      spawnQueue := spawnQueue + [SpawnQueueEntry(role, body, creepName, opts)];
    }

    /** `hasRoleInSpawnQueue`. */
    function HasRoleInSpawnQueue(role: CreepType): (b: bool)
      reads this
      ensures b <==> exists i :: 0 <= i < |spawnQueue| && spawnQueue[i].role == role
    {
      AnyWithRole(spawnQueue, role)
    }

    /** `spawnCreepsFromQueue`, as written: each round takes a free spawn, shifts the head off
        the queue and hands it off; `results(i)` is the answer to the i-th hand-off. The entry
        answered by ERR_NOT_ENOUGH_ENERGY has already been shifted off and is not put back. */
    method SpawnCreepsFromQueue(spawns: seq<SpawnInfo>, results: nat -> ErrorCode) returns (handOffs: seq<HandOff>)
      modifies this
      ensures |handOffs| <= |old(spawnQueue)|
      ensures spawnQueue == old(spawnQueue)[|handOffs|..]
      ensures FirstFree(spawns, 0).None? ==> handOffs == []
      ensures FirstFree(spawns, 0).Some? ==> |handOffs| == DrainCount(|old(spawnQueue)|, results, 0)
      ensures forall i :: 0 <= i < |handOffs| ==>
        handOffs[i] == HandOff(FirstFree(spawns, 0).value.id, old(spawnQueue)[i])
    {
      var k := 0;
      handOffs := [];
      while true
        invariant k <= |old(spawnQueue)|
        invariant spawnQueue == old(spawnQueue)[k..]
        invariant |handOffs| == k
        invariant k > 0 ==> FirstFree(spawns, 0).Some?
        invariant forall i :: 0 <= i < k ==> results(i) != ERR_NOT_ENOUGH_ENERGY
        invariant forall i :: 0 <= i < k ==>
          handOffs[i] == HandOff(FirstFree(spawns, 0).value.id, old(spawnQueue)[i])
        decreases |spawnQueue|
      {
        var spawn := GetFreeSpawn(spawns);
        if spawn.None? {
          break;
        }
        if spawnQueue == [] {
          DrainCountAll(|old(spawnQueue)|, results, 0);
          break;
        }
        var entry := spawnQueue[0];
        spawnQueue := spawnQueue[1..];
        handOffs := handOffs + [HandOff(spawn.value.id, entry)];
        var err := results(k);
        k := k + 1;
        if err == ERR_NOT_ENOUGH_ENERGY {
          DrainCountAt(|old(spawnQueue)|, results, 0, k - 1);
          break;
        }
        if spawnQueue == [] {
          DrainCountAll(|old(spawnQueue)|, results, 0);
          break;
        }
      }
    }

    /** `spawnCreepsFromQueue` with the head read before it is removed: an entry refused for
        lack of energy stays at the head of the queue, and every entry that leaves the queue
        was handed off and not refused for energy. */
    method SpawnCreepsFromQueueKeepingRefused(spawns: seq<SpawnInfo>, results: nat -> ErrorCode)
      returns (handOffs: seq<HandOff>)
      modifies this
      ensures FirstFree(spawns, 0).None? ==> handOffs == [] && spawnQueue == old(spawnQueue)
      ensures FirstFree(spawns, 0).Some? ==> |handOffs| == DrainCount(|old(spawnQueue)|, results, 0)
      ensures FirstFree(spawns, 0).Some? ==> spawnQueue == old(spawnQueue)[AcceptedCount(|old(spawnQueue)|, results)..]
      ensures forall i :: 0 <= i < |old(spawnQueue)| - |spawnQueue| ==> results(i) != ERR_NOT_ENOUGH_ENERGY
      ensures forall i :: 0 <= i < |handOffs| ==>
        handOffs[i] == HandOff(FirstFree(spawns, 0).value.id, old(spawnQueue)[i])
    {
      var k := 0;
      handOffs := [];
      while true
        invariant k <= |old(spawnQueue)|
        invariant spawnQueue == old(spawnQueue)[k..]
        invariant |handOffs| == k
        invariant k > 0 ==> FirstFree(spawns, 0).Some?
        invariant forall i :: 0 <= i < k ==> results(i) != ERR_NOT_ENOUGH_ENERGY
        invariant forall i :: 0 <= i < k ==>
          handOffs[i] == HandOff(FirstFree(spawns, 0).value.id, old(spawnQueue)[i])
        decreases |spawnQueue|
      {
        var spawn := GetFreeSpawn(spawns);
        if spawn.None? {
          break;
        }
        if spawnQueue == [] {
          DrainCountAll(|old(spawnQueue)|, results, 0);
          break;
        }
        var entry := spawnQueue[0];
        handOffs := handOffs + [HandOff(spawn.value.id, entry)];
        var err := results(k);
        if err == ERR_NOT_ENOUGH_ENERGY {
          DrainCountAt(|old(spawnQueue)|, results, 0, k);
          break;
        }
        spawnQueue := spawnQueue[1..];
        k := k + 1;
        if spawnQueue == [] {
          DrainCountAll(|old(spawnQueue)|, results, 0);
          break;
        }
      }
    }
  }

  /** Number of entries a drain takes off the queue for good once a shortage leaves the
      refused entry in place: the hand-offs before the first ERR_NOT_ENOUGH_ENERGY. */
  function AcceptedCount(n: nat, results: nat -> ErrorCode): (k: nat)
    ensures k <= DrainCount(n, results, 0) <= k + 1
  {
    var d := DrainCount(n, results, 0);
    if d > 0 && results(d - 1) == ERR_NOT_ENOUGH_ENERGY then d - 1 else d
  }

  /** The queue as written, on one entry refused for lack of energy: the entry is handed off,
      refused, and gone from the queue. */
  method DroppedEntryExample(e: SpawnQueueEntry) returns (handOffs: seq<HandOff>, remaining: seq<SpawnQueueEntry>)
    ensures |handOffs| == 1 && remaining == []
  {
    var room := new BaseRoom("W1N1", Some([e]));
    handOffs := room.SpawnCreepsFromQueue([SpawnInfo("spawn1", false)], _ => ERR_NOT_ENOUGH_ENERGY);
    remaining := room.spawnQueue;
  }

  /** The corrected queue on the same input keeps the refused entry for a later tick. */
  method KeptEntryExample(e: SpawnQueueEntry) returns (handOffs: seq<HandOff>, remaining: seq<SpawnQueueEntry>)
    ensures |handOffs| == 1 && remaining == [e]
  {
    var room := new BaseRoom("W1N1", Some([e]));
    handOffs := room.SpawnCreepsFromQueueKeepingRefused([SpawnInfo("spawn1", false)], _ => ERR_NOT_ENOUGH_ENERGY);
    remaining := room.spawnQueue;
  }

  /** With no energy shortage among the first `n` answers, the drain hands off all `n`. */
  lemma {:induction false} DrainCountAll(n: nat, results: nat -> ErrorCode, from: nat)
    requires from <= n
    requires forall i :: from <= i < n ==> results(i) != ERR_NOT_ENOUGH_ENERGY
    ensures DrainCount(n, results, from) == n
    decreases n - from
  {
    if from < n {
      DrainCountAll(n, results, from + 1);
    }
  }

  /** The drain ends right after the first energy shortage. */
  lemma {:induction false} DrainCountAt(n: nat, results: nat -> ErrorCode, from: nat, k: nat)
    requires from <= k < n
    requires forall i :: from <= i < k ==> results(i) != ERR_NOT_ENOUGH_ENERGY
    requires results(k) == ERR_NOT_ENOUGH_ENERGY
    ensures DrainCount(n, results, from) == k + 1
    decreases k - from
  {
    if from < k {
      DrainCountAt(n, results, from + 1, k);
    }
  }
}
