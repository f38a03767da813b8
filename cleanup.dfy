/** cleanup: frees the persistent memory of creeps that no longer exist. */
module Cleanup {

  /** The entries of a memory table whose key is one of the live names. */
  function Restrict<V>(m: map<string, V>, alive: set<string>): (r: map<string, V>)
    ensures r.Keys == m.Keys * alive
    ensures forall k :: k in r ==> r[k] == m[k]
  {
    map k | k in m && k in alive :: m[k]
  }

  /** Freeing the memory of dead creeps twice frees nothing the second time. */
  lemma RestrictIdempotent<V>(m: map<string, V>, alive: set<string>)
    ensures Restrict(Restrict(m, alive), alive) == Restrict(m, alive)
  {
  }

  /** `Memory.creeps`: per-creep memory keyed by creep name. */
  class CreepMemoryTable<V> {
    var creeps: map<string, V>

    constructor (creeps: map<string, V>)
      ensures this.creeps == creeps
    {
      this.creeps := creeps;
    }

    /** `run`: deletes the entry of every name that is not a live creep (`Game.creeps`). */
    method Run(alive: set<string>)
      modifies this
      ensures forall k :: k in creeps ==> k in alive
      ensures forall k :: k in old(creeps) && k in alive ==> k in creeps && creeps[k] == old(creeps)[k]
      ensures creeps.Keys <= old(creeps).Keys
      ensures creeps == Restrict(old(creeps), alive)
    {
      var keys := creeps.Keys;
      while keys != {}
        invariant keys <= old(creeps).Keys
        invariant creeps == map k | k in old(creeps) && (k in keys || k in alive) :: old(creeps)[k]
        decreases |keys|
      {
        var c :| c in keys;
        if c !in alive {
          creeps := creeps - {c};
        }
        keys := keys - {c};
      }
    }
  }
}
