/** The battlefield record the handler owns, the entities it talks about, and the
    collaborators (configuration store and CBattlefield methods) whose bodies lie
    outside the handler and are therefore passed in as function values. */
module Battlefields {

  /** Fixed-width integers of the source, as ranges of the unbounded `int`. */
  type u8 = x: int | 0 <= x < 0x100
  type u16 = x: int | 0 <= x < 0x1_0000
  type u32 = x: int | 0 <= x < 0x1_0000_0000

  /** An area number as listed for a battlefield in the configuration store.
      Area numbers are keys of the handler's map (uint8); the model assumes the
      store only lists areas 1..255. */
  type AreaNo = x: int | 1 <= x < 0x100 witness 1

  /** A point in time handed to the per-tick update. */
  type Tick = nat

  /** The battlefield id used as "any battlefield" by the capacity probe. */
  const ProbeId: u16 := 0xFFFF

  datatype Option<T> = None | Some(value: T)

  /** What the handler reports to its caller. */
  datatype ReturnCode =
    | Wait
    | Cutscene
    | IncrementRequest
    | Locked
    | ReqsNotMet
    | BattlefieldFull

  /** Battlefield status; `Sealed` is the source's LOCKED (fighting has begun). */
  datatype Status = Open | Sealed | Won | Lost

  /** The kinds of entity the handler has to tell apart: a player character, any
      other battle entity (mob, pet, trust, ...), and an entity that is not a
      battle entity at all (the dynamic cast to a battle entity yields null). */
  datatype EntityKind = Player | OtherBattleEntity | NonBattleEntity

  /** An entity of the zone; `inBattlefield` is the entity's own battlefield
      pointer being non-null. */
  datatype Entity = Entity(id: u32, kind: EntityKind, inBattlefield: bool)

  /** A player character. */
  type Char = e: Entity | e.kind == Player witness Entity(0, Player, false)

  /** One row of the battlefield info table. */
  datatype Info = Info(
    name: string,
    recordHolder: string,
    recordTime: nat,
    recordPartySize: nat,
    timeLimit: nat,
    levelCap: nat,
    lootId: nat,
    maxPlayers: nat,
    ruleMask: nat,
    isMission: nat)

  /** The part of a battlefield that changes after creation. `entities` is
      every entity the battlefield holds (what its entity lookup finds),
      `registered` the characters holding a place, `entered` the characters
      physically inside. */
  datatype BfState = BfState(
    status: Status,
    canCleanup: bool,
    inProgress: bool,
    registered: set<u32>,
    entered: set<u32>,
    entities: set<u32>,
    localVars: map<string, nat>)

  /** A live battlefield: what it is (fixed at construction) and its state. */
  datatype Battlefield = Battlefield(
    id: u16,
    area: u8,
    initiator: u32,
    info: Info,
    state: BfState)

  /** What an entity insertion or removal on a battlefield reports, with the
      battlefield's state afterwards. */
  datatype Change = Change(ok: bool, state: BfState)

  /** The configuration store: the area rows of a battlefield id (empty when the
      query fails or finds nothing) and its info row, if any. */
  datatype Config = Config(
    areas: int -> seq<AreaNo>,
    info: int -> Option<Info>)

  /** The CBattlefield members the handler calls. Each receives the battlefield
      and yields only a new state, so none of them can change a battlefield's
      id, area or initiator, or any other battlefield. */
  datatype Hooks = Hooks(
    construct: (u16, u8, u32) -> BfState,
    onTick: (Battlefield, Tick) -> BfState,
    loadMobs: Battlefield -> bool,
    insertEntity: (Battlefield, Entity, bool) -> Change,
    removeEntity: (Battlefield, Entity, u8) -> Change)

  /** Local variable under which a battlefield records its loot table. */
  const LootVar: string := "loot"

  /** The state of a battlefield that failed to load its mobs: lost and marked
      for cleanup, everything else as constructed. */
  function Abandon(s: BfState): (r: BfState)
    ensures r.status == Lost && r.canCleanup
    ensures r.(status := s.status, canCleanup := s.canCleanup) == s
  {
    s.(status := Lost, canCleanup := true)
  }

  /** Stores the loot table id in the local variables when it is non-zero. */
  function WithLoot(s: BfState, lootId: nat): (r: BfState)
    ensures LootVar in r.localVars <==> LootVar in s.localVars || lootId != 0
    ensures lootId != 0 ==> r.localVars[LootVar] == lootId
    ensures lootId == 0 ==> r == s
    ensures forall k :: k in s.localVars && k != LootVar ==> k in r.localVars && r.localVars[k] == s.localVars[k]
    ensures r.(localVars := s.localVars) == s
  {
    if lootId != 0 then s.(localVars := s.localVars[LootVar := lootId]) else s
  }
}
