/** role.claim: a claim creep picks a room from the CLAIM_ROOMS and RESERVE_ROOMS of its home's
    configuration, travels there and claims or reserves the controller. Game state is given as
    values: `creeps` is the memory of every creep (`Game.creeps`, the creep itself included) as
    it is when the room is chosen, `rooms` the rooms the player can see (`Game.rooms`). */
module RoleClaim {
  import opened Screeps

  const RESERVE_ROLE: string := "reserve"

  /** The part of a creep's memory `hasCreepAssigned` reads. */
  datatype CreepView = CreepView(role: string, room: string)

  /** A visible room: its controller, if it has one, and whether the player owns it. */
  datatype RoomView = RoomView(controller: Option<bool>)

  /** The `_.filter` of `hasCreepAssigned`: the reserve creeps assigned to the room. */
  function ReserveCreeps(creeps: seq<CreepView>, room: string): seq<CreepView> {
    if creeps == [] then []
    else (if creeps[0].role == RESERVE_ROLE && creeps[0].room == room then [creeps[0]] else [])
         + ReserveCreeps(creeps[1..], room)
  }

  /** `hasCreepAssigned`: the filter is not empty. */
  predicate HasCreepAssigned(creeps: seq<CreepView>, room: string) {
    |ReserveCreeps(creeps, room)| > 0
  }

  /** A room has a creep assigned exactly when some creep with the reserve role has that room
      in its memory. */
  lemma {:induction false} HasCreepAssignedIff(creeps: seq<CreepView>, room: string)
    ensures HasCreepAssigned(creeps, room) <==>
      exists i :: 0 <= i < |creeps| && creeps[i].role == RESERVE_ROLE && creeps[i].room == room
  {
    if creeps != [] {
      HasCreepAssignedIff(creeps[1..], room);
      if exists i :: 0 <= i < |creeps[1..]| && creeps[1..][i].role == RESERVE_ROLE && creeps[1..][i].room == room {
        var i :| 0 <= i < |creeps[1..]| && creeps[1..][i].role == RESERVE_ROLE && creeps[1..][i].room == room;
        assert creeps[i + 1] == creeps[1..][i];
      }
      if exists i :: 0 <= i < |creeps| && creeps[i].role == RESERVE_ROLE && creeps[i].room == room {
        var i :| 0 <= i < |creeps| && creeps[i].role == RESERVE_ROLE && creeps[i].room == room;
        if i > 0 {
          assert creeps[1..][i - 1] == creeps[i];
        }
      }
    }
  }

  /** `own`: `Game.rooms[room]?.controller.my`. A room out of sight reads as undefined, which
      is falsy; a visible room without a controller makes the read of `my` throw. */
  predicate OwnThrows(rooms: map<string, RoomView>, room: string) {
    room in rooms && rooms[room].controller.None?
  }

  predicate Owned(rooms: map<string, RoomView>, room: string) {
    room in rooms && rooms[room].controller == Some(true)
  }

  /** A CLAIM_ROOMS entry the first loop of `setRoom` goes past: it has a reserve creep, or it
      is owned. `own` is not evaluated when a creep is assigned. */
  predicate ClaimPassed(creeps: seq<CreepView>, rooms: map<string, RoomView>, room: string) {
    HasCreepAssigned(creeps, room) || (!OwnThrows(rooms, room) && Owned(rooms, room))
  }

  /** The first CLAIM_ROOMS entry from `i` on that the loop does not go past. */
  function FirstClaim(claim: seq<string>, creeps: seq<CreepView>, rooms: map<string, RoomView>, i: nat)
    : (r: Option<nat>)
    ensures r.Some? ==> i <= r.value < |claim| && !ClaimPassed(creeps, rooms, claim[r.value])
    ensures r.Some? ==> forall j :: i <= j < r.value ==> ClaimPassed(creeps, rooms, claim[j])
    ensures r.None? ==> forall j :: i <= j < |claim| ==> ClaimPassed(creeps, rooms, claim[j])
    decreases |claim| - i
  {
    if i >= |claim| then None
    else if !ClaimPassed(creeps, rooms, claim[i]) then Some(i)
    else FirstClaim(claim, creeps, rooms, i + 1)
  }

  /** The first RESERVE_ROOMS entry from `i` on without a reserve creep. */
  function FirstUnassigned(reserve: seq<string>, creeps: seq<CreepView>, i: nat): (r: Option<nat>)
    ensures r.Some? ==> i <= r.value < |reserve| && !HasCreepAssigned(creeps, reserve[r.value])
    ensures r.Some? ==> forall j :: i <= j < r.value ==> HasCreepAssigned(creeps, reserve[j])
    ensures r.None? ==> forall j :: i <= j < |reserve| ==> HasCreepAssigned(creeps, reserve[j])
    decreases |reserve| - i
  {
    if i >= |reserve| then None
    else if !HasCreepAssigned(creeps, reserve[i]) then Some(i)
    else FirstUnassigned(reserve, creeps, i + 1)
  }

  /** What `setRoom` does: take the CLAIM_ROOMS entry at an index, take the RESERVE_ROOMS
      entry at an index, leave `memory.room` as it is, or throw while looking at the CLAIM_ROOMS
      entry at an index. */
  datatype Choice = FromClaim(i: nat) | FromReserve(j: nat) | Unchanged | Threw(at: nat)

  /** The choice of `setRoom`: the first claim room that is neither assigned nor owned; when
      every claim room is assigned or owned, the first reserve room that is not assigned;
      otherwise no change. It throws when the first claim room it does not go past is a
      visible room without a controller. */
  function ChooseRoom(claim: seq<string>, reserve: seq<string>, creeps: seq<CreepView>,
                      rooms: map<string, RoomView>): (c: Choice)
    ensures c.FromClaim? ==>
      c.i < |claim| && !HasCreepAssigned(creeps, claim[c.i]) &&
      !OwnThrows(rooms, claim[c.i]) && !Owned(rooms, claim[c.i])
    ensures c.FromClaim? ==> forall j :: 0 <= j < c.i ==> ClaimPassed(creeps, rooms, claim[j])
    ensures c.Threw? ==> c.at < |claim| && !HasCreepAssigned(creeps, claim[c.at]) && OwnThrows(rooms, claim[c.at])
    ensures c.Threw? ==> forall j :: 0 <= j < c.at ==> ClaimPassed(creeps, rooms, claim[j])
    ensures c.FromReserve? || c.Unchanged? <==> forall i :: 0 <= i < |claim| ==> ClaimPassed(creeps, rooms, claim[i])
    ensures c.FromReserve? ==>
      c.j < |reserve| && !HasCreepAssigned(creeps, reserve[c.j]) &&
      forall j :: 0 <= j < c.j ==> HasCreepAssigned(creeps, reserve[j])
    ensures c.Unchanged? ==> forall j :: 0 <= j < |reserve| ==> HasCreepAssigned(creeps, reserve[j])
  {
    match FirstClaim(claim, creeps, rooms, 0)
    case Some(i) => if OwnThrows(rooms, claim[i]) then Threw(i) else FromClaim(i)
    case None =>
      match FirstUnassigned(reserve, creeps, 0)
      case Some(j) => FromReserve(j)
      case None => Unchanged
  }

  /** `setRoom`: the two loops over the configured rooms, writing `memory.room` on the first
      fit. */
  method SetRoom(creep: Creep, claim: seq<string>, reserve: seq<string>, creeps: seq<CreepView>,
                 rooms: map<string, RoomView>) returns (c: Choice)
    modifies creep
    ensures c == ChooseRoom(claim, reserve, creeps, rooms)
    ensures c.FromClaim? ==> creep.room == claim[c.i]
    ensures c.FromReserve? ==> creep.room == reserve[c.j]
    ensures c.Unchanged? || c.Threw? ==> creep.room == old(creep.room)
    ensures creep.harvesting == old(creep.harvesting) && creep.targetSource == old(creep.targetSource)
  {
    var i := 0;
    while i < |claim|
      invariant i <= |claim|
      invariant FirstClaim(claim, creeps, rooms, 0) == FirstClaim(claim, creeps, rooms, i)
    {
      var roomId := claim[i];
      if !HasCreepAssigned(creeps, roomId) {
        if OwnThrows(rooms, roomId) {
          return Threw(i);
        }
        if !Owned(rooms, roomId) {
          creep.room := roomId;
          return FromClaim(i);
        }
      }
      i := i + 1;
    }
    var j := 0;
    while j < |reserve|
      invariant j <= |reserve|
      invariant FirstUnassigned(reserve, creeps, 0) == FirstUnassigned(reserve, creeps, j)
    {
      var roomId := reserve[j];
      if !HasCreepAssigned(creeps, roomId) {
        creep.room := roomId;
        return FromReserve(j);
      }
      j := j + 1;
    }
    return Unchanged;
  }

  /** What `run` ends with this tick. `ClaimController` carries the answer of
      `claimController`, whether the creep moved to the controller and whether it reserved it
      instead (on ERR_GCL_NOT_ENOUGH); `ReserveController` carries the answer of
      `reserveController` and whether it moved. */
  datatype ClaimOutcome =
    | Thrown
    | Travel(room: string)
    | NoController
    | ClaimController(err: ErrorCode, moved: bool, reserved: bool)
    | ReserveController(err: ErrorCode, moved: bool)
    | Idle

  /** `setRoom` runs when the creep targets its home room or a room the player owns. */
  predicate WantsNewRoom(room: string, home: string, rooms: map<string, RoomView>) {
    room == home || (!OwnThrows(rooms, room) && Owned(rooms, room))
  }

  /** `run` for a claim creep standing in `creep.roomName`. `hasController` says whether that
      room has a controller; `claimResult` and `reserveResult` are the answers of the two calls. */
  method Run(creep: Creep, claim: seq<string>, reserve: seq<string>, creeps: seq<CreepView>,
             rooms: map<string, RoomView>, hasController: bool,
             claimResult: ErrorCode, reserveResult: ErrorCode) returns (outcome: ClaimOutcome)
    modifies creep
    ensures var r0 := old(creep.room);
      outcome.Thrown? <==>
        (r0 != creep.home && OwnThrows(rooms, r0)) ||
        (WantsNewRoom(r0, creep.home, rooms) && ChooseRoom(claim, reserve, creeps, rooms).Threw?)
    ensures var r0 := old(creep.room);
      WantsNewRoom(r0, creep.home, rooms) ==> match ChooseRoom(claim, reserve, creeps, rooms)
        case FromClaim(i) => creep.room == claim[i]
        case FromReserve(j) => creep.room == reserve[j]
        case _ => creep.room == r0
    ensures !WantsNewRoom(old(creep.room), creep.home, rooms) ==> creep.room == old(creep.room)
    ensures !outcome.Thrown? ==> (outcome.Travel? <==> creep.roomName != creep.room)
    ensures outcome.Travel? ==> outcome.room == creep.room
    ensures outcome.NoController? <==> !outcome.Thrown? && creep.roomName == creep.room && !hasController
    ensures outcome.ClaimController? <==>
      !outcome.Thrown? && creep.roomName == creep.room && hasController && creep.roomName in claim
    ensures outcome.ClaimController? ==>
      outcome.err == claimResult &&
      outcome.moved == (claimResult == ERR_NOT_IN_RANGE) && outcome.reserved == (claimResult == ERR_GCL_NOT_ENOUGH)
    ensures outcome.ReserveController? <==>
      !outcome.Thrown? && creep.roomName == creep.room && hasController && creep.roomName !in claim &&
      creep.roomName in reserve
    ensures outcome.ReserveController? ==> outcome.err == reserveResult && outcome.moved == (reserveResult == ERR_NOT_IN_RANGE)
    ensures creep.harvesting == old(creep.harvesting) && creep.targetSource == old(creep.targetSource)
  {
    if creep.room != creep.home && OwnThrows(rooms, creep.room) {
      return Thrown;
    }
    if WantsNewRoom(creep.room, creep.home, rooms) {
      var c := SetRoom(creep, claim, reserve, creeps, rooms);
      if c.Threw? {
        return Thrown;
      }
    }
    if creep.roomName != creep.room {
      return Travel(creep.room);
    }
    if !hasController {
      return NoController;
    }
    if creep.roomName in claim {
      return ClaimController(claimResult, claimResult == ERR_NOT_IN_RANGE, claimResult == ERR_GCL_NOT_ENOUGH);
    }
    if creep.roomName in reserve {
      return ReserveController(reserveResult, reserveResult == ERR_NOT_IN_RANGE);
    }
    return Idle;
  }
}
