/** Shared vocabulary of the game world the bot runs in: result codes, world constants,
    body parts, positions, stores and structures, and the legacy creep memory object.
    Values of the game constants are those of the game's published API; the repository
    only refers to them by name. */
module Screeps {

  datatype Option<T> = None | Some(value: T) {
    function GetOr(default: T): T {
      if Some? then value else default
    }
  }

  /** Result codes returned by game calls and by the bot's own helpers. */
  type ErrorCode = int

  const OK: ErrorCode := 0
  const ERR_NOT_OWNER: ErrorCode := -1
  const ERR_NO_PATH: ErrorCode := -2
  const ERR_NAME_EXISTS: ErrorCode := -3
  const ERR_BUSY: ErrorCode := -4
  const ERR_NOT_FOUND: ErrorCode := -5
  // The game gives these two names the same value.
  const ERR_NOT_ENOUGH_ENERGY: ErrorCode := -6
  const ERR_NOT_ENOUGH_RESOURCES: ErrorCode := -6
  const ERR_INVALID_TARGET: ErrorCode := -7
  const ERR_FULL: ErrorCode := -8
  const ERR_NOT_IN_RANGE: ErrorCode := -9
  const ERR_INVALID_ARGS: ErrorCode := -10
  const ERR_TIRED: ErrorCode := -11
  const ERR_NO_BODYPART: ErrorCode := -12
  const ERR_GCL_NOT_ENOUGH: ErrorCode := -15

  const MAX_CREEP_SIZE: nat := 50
  const HARVEST_POWER: nat := 2
  const ENERGY_REGEN_TIME: nat := 300

  datatype BodyPart = Move | Work | Carry | Attack | RangedAttack | Heal | Claim | Tough

  /** The string constant the game uses for a body part. */
  function PartName(p: BodyPart): string {
    match p
    case Move => "move"
    case Work => "work"
    case Carry => "carry"
    case Attack => "attack"
    case RangedAttack => "ranged_attack"
    case Heal => "heal"
    case Claim => "claim"
    case Tough => "tough"
  }

  /** BODYPART_COST of the game. */
  function PartCost(p: BodyPart): (c: nat)
    ensures 10 <= c <= 600
  {
    match p
    case Move => 50
    case Work => 100
    case Carry => 50
    case Attack => 80
    case RangedAttack => 150
    case Heal => 250
    case Claim => 600
    case Tough => 10
  }

  /** Number of occurrences of a part in a body. */
  function CountPart(body: seq<BodyPart>, p: BodyPart): (n: nat)
    ensures n <= |body|
  {
    if body == [] then 0
    else (if body[0] == p then 1 else 0) + CountPart(body[1..], p)
  }

  lemma {:induction false} CountPartConcat(a: seq<BodyPart>, b: seq<BodyPart>, p: BodyPart)
    ensures CountPart(a + b, p) == CountPart(a, p) + CountPart(b, p)
  {
    if a != [] {
      assert (a + b)[1..] == a[1..] + b;
      CountPartConcat(a[1..], b, p);
    } else {
      assert a + b == b;
    }
  }

  /** Strict string order of JavaScript's `<` and of the default `Array.prototype.sort`:
      lexicographic on characters, a proper prefix first. */
  predicate StrLess(a: string, b: string) {
    if |a| == 0 then |b| > 0
    else if |b| == 0 then false
    else if a[0] != b[0] then a[0] < b[0]
    else StrLess(a[1..], b[1..])
  }

  datatype Pos = Pos(x: int, y: int)

  /** Squared straight-line distance. The source compares `Math.sqrt` of this value; the
      square root is monotone on non-negative numbers, so comparing the squares orders
      positions the same way. */
  function DistSq(a: Pos, b: Pos): (d: nat) {
    var dx := a.x - b.x;
    var dy := a.y - b.y;
    SquareNonNegative(dx);
    SquareNonNegative(dy);
    dx * dx + dy * dy
  }

  lemma SquareNonNegative(z: int)
    ensures z * z >= 0
  {
    if z < 0 {
      assert z * z == (-z) * (-z);
    }
  }

  type Resource = string

  const RESOURCE_ENERGY: Resource := "energy"

  datatype StructureType =
    | Spawn | Extension | Link | Tower | Storage | Container | Terminal
    | Wall | Road | Rampart | Other(name: string)

  /** A store. `amounts` lists what it holds (a missing resource reads as 0); `free` gives
      `getFreeCapacity(resource)`; a resource missing from `free` is one the store cannot
      hold, for which the game returns null. */
  datatype Store = Store(amounts: map<Resource, nat>, free: map<Resource, int>)

  function Amount(s: Store, r: Resource): nat {
    if r in s.amounts then s.amounts[r] else 0
  }

  function FreeCapacity(s: Store, r: Resource): Option<int> {
    if r in s.free then Some(s.free[r]) else None
  }

  /** A structure as one `room.find` call returns it during a tick. */
  datatype Structure = Structure(
    id: string,
    stype: StructureType,
    pos: Pos,
    store: Option<Store>,
    hits: int,
    hitsMax: int,
    spawning: bool,
    active: bool)

  /** Amount of a resource a structure holds; a structure without a store holds nothing. */
  function StoredIn(s: Structure, r: Resource): nat {
    if s.store.Some? then Amount(s.store.value, r) else 0
  }

  /** `structure.store.getFreeCapacity(r) > 0`, false when there is no store or null. */
  predicate HasFreeSpace(s: Structure, r: Resource) {
    s.store.Some? && FreeCapacity(s.store.value, r).Some? && FreeCapacity(s.store.value, r).value > 0
  }

  /** What a legacy creep keeps in `memory.targetSource`: never set, the number -1, or a
      string (cleared to ""). */
  datatype LegacyTarget = Unset | MinusOne | Id(id: string)

  /** JavaScript truthiness of a legacy target: undefined and "" are falsy. */
  predicate TargetTruthy(t: LegacyTarget) {
    t.MinusOne? || (t.Id? && t.id != "")
  }

  /** A creep of the legacy role modules with the part of its memory the roles write. The
      name, role, home, the room it stands in and its spawning flag are fixed for the tick. */
  class Creep {
    const name: string
    const role: string
    const home: string
    const roomName: string
    const spawning: bool
    const pos: Pos
    var room: string
    var harvesting: bool
    var targetSource: LegacyTarget

    constructor (name: string, role: string, home: string, roomName: string, spawning: bool,
                 pos: Pos, room: string, harvesting: bool, targetSource: LegacyTarget)
      ensures this.name == name && this.role == role && this.home == home
      ensures this.roomName == roomName && this.spawning == spawning && this.pos == pos
      ensures this.room == room && this.harvesting == harvesting
      ensures this.targetSource == targetSource
    {
      this.name, this.role, this.home := name, role, home;
      this.roomName, this.spawning, this.pos := roomName, spawning, pos;
      this.room, this.harvesting, this.targetSource := room, harvesting, targetSource;
    }
  }

  /** `n` copies of `x`. */
  function Repeated<T>(x: T, n: nat): (r: seq<T>)
    ensures |r| == n
    ensures forall i :: 0 <= i < n ==> r[i] == x
  {
    if n == 0 then [] else Repeated(x, n - 1) + [x]
  }

  /** No object occurs twice: the game's creep and structure collections hold each object once. */
  ghost predicate Distinct<T>(s: seq<T>) {
    forall i, j :: 0 <= i < j < |s| ==> s[i] != s[j]
  }

  function DigitChar(d: nat): (c: char)
    requires d < 10
    ensures '0' <= c <= '9'
  {
    "0123456789"[d]
  }

  /** The decimal text JavaScript produces for a non-negative integer. */
  function NatToString(n: nat): (s: string)
    ensures |s| > 0
    ensures forall i :: 0 <= i < |s| ==> '0' <= s[i] <= '9'
  {
    if n < 10 then [DigitChar(n)] else NatToString(n / 10) + [DigitChar(n % 10)]
  }

  /** Reads a string of decimal digits back as a number. */
  function ParseDecimal(s: string): nat
    requires forall i :: 0 <= i < |s| ==> '0' <= s[i] <= '9'
  {
    if s == [] then 0
    else ParseDecimal(s[..|s| - 1]) * 10 + ((s[|s| - 1] as int) - ('0' as int))
  }

  lemma {:induction false} DecimalRoundTrip(n: nat)
    ensures ParseDecimal(NatToString(n)) == n
  {
    if n >= 10 {
      var s := NatToString(n);
      assert s[..|s| - 1] == NatToString(n / 10);
      DecimalRoundTrip(n / 10);
    }
  }

  /** Distinct numbers have distinct decimal texts, so names built from Game.time differ
      from tick to tick. */
  lemma DecimalInjective(a: nat, b: nat)
    requires NatToString(a) == NatToString(b)
    ensures a == b
  {
    DecimalRoundTrip(a);
    DecimalRoundTrip(b);
  }
}
