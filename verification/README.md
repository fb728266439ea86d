# Battlefield handler model

A Dafny model of the per-zone battlefield handler of a game server's map process.
The handler owns a bounded pool of live battlefields. A battlefield is an isolated,
time-limited encounter instance, filed under a numbered area. The handler does four things:

- It decides whether a battlefield of a given kind can still be loaded (`ReachedMaxCapacity`).
- It loads a new battlefield at the lowest free area listed for its kind (`LoadBattlefield`).
- It runs the per-tick sweep: it updates every battlefield not marked for cleanup, then erases the marked ones (`HandleBattlefields`).
- It arbitrates registration requests (`RegisterBattlefield`). A request ends in WAIT, INCREMENT_REQUEST,
  CUTSCENE, BATTLEFIELD_FULL or LOCKED, or it falls through to a load.

It also has read-only lookups (by entity, by area, by initiator, "is registered", "is entered")
and the removal of an entity from its battlefield.

The model is purely functional:

- `BattlefieldHandler.Handler` holds the maximum count fixed at construction and a
  `map<u8, Battlefield>` keyed by area.
- Loads and registrations return the new handler together with a return code. A removal returns it
  together with whether the entity was removed. The tick returns only the new handler. The lookups
  return an area key or a boolean.
- A battlefield handle is its area key.
- The map is assumed to iterate in ascending area order, as a `std::map` keyed by area does (its
  declaration, in `battlefield_handler.h`, is not part of this model). So every lookup that walks
  the map returns the matching battlefield with the lowest area.
- `RemoveFromBattlefield` with no battlefield given falls back to `GetBattlefield(PEntity)` (line
  273), whose default for `checkRegistered` is declared in `battlefield_handler.h`. The model
  assumes that default is `false`, so the fallback looks the entity up among the entities a
  battlefield holds.
- The configuration store is a `Config` value: the area rows of an id and its optional info row.
- The CBattlefield members the handler calls are function values in a `Hooks` value: the
  constructor, `onTick`, `LoadMobs`, `InsertEntity` and `RemoveEntity`.
- A battlefield is split into a part fixed at construction (id, area, initiator, info row) and a
  `BfState`. A hook only yields a new `BfState`, so no hook can move a battlefield to another area
  or touch another battlefield.

Files:

- `battlefield.dfy` (module `Battlefields`): integer widths, return codes, status, entities, the
  battlefield record and the collaborator interfaces.
- `handler.dfy` (module `BattlefieldHandler`): the handler's operations with their contracts.
- `properties.dfy` (module `HandlerProperties`): lemmas about outcomes, case by case, and about
  sequences of calls.

Two behaviours of the code are modelled as written:

- When a new battlefield fails to load its mobs, it is not torn down at once. It stays in the map,
  marked LOST and for cleanup, and is erased by the next tick's sweep.
- The "any battlefield" probe id 0xFFFF arrives at the capacity check as the `int` 65535, not -1.
  So it is looked up in the configuration store like any other id. With no area rows for 65535, the
  probe answers WAIT (`ProbeNeedsAreaRows`).

## Model

| member | source | states |
|---|---|---|
| Battlefields.Abandon | src/map/battlefield_handler.cpp:168-169 | a battlefield whose mobs failed to load is LOST and marked for cleanup, and nothing else about it changes |
| Battlefields.WithLoot | src/map/battlefield_handler.cpp:177-180 | the `"loot"` local variable holds the loot id exactly when it is non-zero; every other local variable is kept; with loot id 0 the state is untouched |
| BattlefieldHandler.NewHandler | src/map/battlefield_handler.cpp:52-56 | a new handler is empty, keeps the maximum count it was given, and satisfies the pool invariant |
| BattlefieldHandler.AnyRowFree | src/map/battlefield_handler.cpp:308-315 | the walk over the area rows answers true exactly when some listed area is not a key of the map |
| BattlefieldHandler.ReachedMaxCapacity | src/map/battlefield_handler.cpp:297-322 | full whenever size >= max; otherwise id -1 is never full, and any other id is full exactly when every listed area is occupied, so an id with no area rows is full |
| BattlefieldHandler.ScanArea | src/map/battlefield_handler.cpp:109-117 | counting up from a start area, the search stops at a listed, unoccupied area with every listed area in between occupied |
| BattlefieldHandler.LowestFreeArea | src/map/battlefield_handler.cpp:109-117 | the chosen area is the smallest listed area that is not a key of the map |
| BattlefieldHandler.EntryCode | src/map/battlefield_handler.cpp:183-187 | CUTSCENE exactly for area 1, INCREMENT_REQUEST exactly for areas above 1 |
| BattlefieldHandler.Insert | src/map/battlefield_handler.cpp:164 | filing at a free area adds exactly that key, grows the map by one, and leaves every other entry unchanged |
| BattlefieldHandler.Create | src/map/battlefield_handler.cpp:143-187 | creation adds exactly one battlefield at the given area with the requested id, the character as initiator and the info row, leaves all others unchanged, and answers WAIT, CUTSCENE or INCREMENT_REQUEST |
| BattlefieldHandler.LoadBattlefield | src/map/battlefield_handler.cpp:86-191 | existing battlefields are never changed; the keys either stay the same or gain exactly the lowest free listed area; any change needs a character with no battlefield, room in the pool, an id other than 0xFFFF and an info row; size <= max and key = area are preserved |
| BattlefieldHandler.FirstMatch | src/map/battlefield_handler.cpp:199-204 | the in-order walk from an area upwards returns the first key whose battlefield matches, or none when no later key matches |
| BattlefieldHandler.First | src/map/battlefield_handler.cpp:207-212 | the whole in-order walk returns the lowest matching area, or none exactly when nothing matches |
| BattlefieldHandler.GetBattlefield | src/map/battlefield_handler.cpp:193-213 | for a character with checkRegistered, the lowest battlefield it is registered to; otherwise the lowest battlefield holding the entity; never a missing key |
| BattlefieldHandler.GetBattlefieldByArea | src/map/battlefield_handler.cpp:215-219 | found exactly when the area is a key; under the pool invariant the battlefield found sits at that area |
| BattlefieldHandler.GetBattlefieldByInitiator | src/map/battlefield_handler.cpp:221-229 | the lowest battlefield whose initiator has the given id, or none when no battlefield has it |
| BattlefieldHandler.IsRegistered | src/map/battlefield_handler.cpp:277-285 | true exactly when some live battlefield lists the character as registered |
| BattlefieldHandler.IsEntered | src/map/battlefield_handler.cpp:287-295 | true exactly when the character is inside some live battlefield |
| BattlefieldHandler.Resolve | src/map/battlefield_handler.cpp:234-250 | the battlefield the character is registered to takes precedence; otherwise the lowest battlefield with both the given initiator and the given id; none exactly when no battlefield matches either way |
| BattlefieldHandler.Join | src/map/battlefield_handler.cpp:251-267 | LOCKED exactly when fighting has begun; INCREMENT_REQUEST exactly when the battlefield is open and the area differs; both leave the handler unchanged; an already entered character gets CUTSCENE with no change; any other character goes through InsertEntity, the battlefield takes the state it returns, and the answer is CUTSCENE exactly when the insert succeeds and BATTLEFIELD_FULL otherwise; only the joined battlefield's state may change |
| BattlefieldHandler.RegisterBattlefield | src/map/battlefield_handler.cpp:231-269 | when the character's lowest registered battlefield has another initiator than a non-zero `initiator`, the answer is WAIT with no change; when it has the same initiator, or `initiator` is 0, that battlefield is joined; a resolved battlefield is joined and no battlefield is created; with nothing resolved the request is a load; the pool invariant is preserved |
| BattlefieldHandler.RemoveFromBattlefield | src/map/battlefield_handler.cpp:271-275 | removal never erases a battlefield and only changes battlefield state; with a hint, only the hinted battlefield changes; the target is the hint, or else the battlefield GetBattlefield finds; when there is a target it takes RemoveEntity's state, the result is RemoveEntity's result, and every other battlefield is unchanged; with no target it reports false and changes nothing |
| BattlefieldHandler.Ticked | src/map/battlefield_handler.cpp:64-65 | a battlefield marked for cleanup is not ticked; ticking changes only its state |
| BattlefieldHandler.TickFrom | src/map/battlefield_handler.cpp:62-66 | the update pass keeps the key set and ticks every battlefield at or above the start area once, unless it is marked for cleanup |
| BattlefieldHandler.EraseFrom | src/map/battlefield_handler.cpp:69-83 | the sweep keeps exactly the entries below the start area or not marked for cleanup, with unchanged values |
| BattlefieldHandler.HandleBattlefields | src/map/battlefield_handler.cpp:58-84 | a battlefield already marked for cleanup is erased without a tick; every other battlefield is ticked and survives, under its own key, exactly when it is not marked after its tick; no battlefield left afterwards is marked for cleanup; the pool invariant is preserved |
| HandlerProperties.LoadWaitsWhenBusyOrFull | src/map/battlefield_handler.cpp:88-190 | a character that already has a battlefield, or a pool at its maximum, gets WAIT and no change |
| HandlerProperties.LoadPicksLowestFreeArea | src/map/battlefield_handler.cpp:109-164 | a load that changes the keys adds one key, the lowest free listed area, holding a battlefield of that area, id and initiator; size stays <= max |
| HandlerProperties.LoadLeavesPoolUnchanged | src/map/battlefield_handler.cpp:90-140 | no free area gives WAIT; no area rows gives WAIT; the 0xFFFF probe gives INCREMENT_REQUEST for a lowest free area above 1 and CUTSCENE otherwise; a missing info row gives REQS_NOT_MET; all of these leave the handler unchanged |
| HandlerProperties.ProbeNeedsAreaRows | src/map/battlefield_handler.cpp:297-322 | with no area rows for id 65535, the 0xFFFF probe reports capacity reached and WAIT, whatever room the pool has |
| HandlerProperties.LoadMobsFailureKeepsLostBattlefield | src/map/battlefield_handler.cpp:164-172 | after a failed mob load, the new battlefield stays filed, LOST and marked for cleanup, with the constructed state otherwise (the character is never inserted), and the answer is WAIT |
| HandlerProperties.LoadSuccessEntersInitiator | src/map/battlefield_handler.cpp:175-187 | after a successful mob load, the battlefield holds the state after the initiator's insertion, plus the loot variable exactly when the loot id is non-zero, with every other local variable kept; with loot id 0 the state is exactly the inserted state; the answer is CUTSCENE for area 1 and INCREMENT_REQUEST otherwise |
| HandlerProperties.RegisterRefusesSecondBattlefield | src/map/battlefield_handler.cpp:234-239 | a character registered only to battlefields of other initiators, asking on behalf of a non-zero initiator, gets WAIT and no change |
| HandlerProperties.RegisterLockedWhenInProgress | src/map/battlefield_handler.cpp:251-266 | a resolved battlefield in which fighting has begun gives LOCKED and no change |
| HandlerProperties.RegisterJoinsOwnBattlefield | src/map/battlefield_handler.cpp:234-260 | a character whose lowest registered battlefield was started by the requesting initiator, or who asks with initiator 0, is never answered WAIT and joins that battlefield |
| HandlerProperties.RegisterReentryLeavesHandler | src/map/battlefield_handler.cpp:256-260 | an already entered character asking for its open battlefield at the right area gets CUTSCENE and no change |
| HandlerProperties.RegisterCreatesOnlyWhenNothingMatches | src/map/battlefield_handler.cpp:240-268 | a registration request adds a battlefield only when it is a plain load and no battlefield registers the character or has that initiator and id |
| HandlerProperties.RunKeepsHandlerValid | src/map/battlefield_handler.cpp:86-191 | over any sequence of loads, registrations, removals and ticks, the pool never exceeds its maximum and every battlefield stays under its own area |
| HandlerProperties.AreaIsReusedAfterSweep | src/map/battlefield_handler.cpp:58-117 | with room for one battlefield and one listed area: a first load takes area 1; a load of another kind waits; the sweep empties the pool once the first battlefield ends; the waiting load then gets area 1 |

## Left out

- SQL queries and row decoding: the area rows and the info row come from `Config`. Both area queries of a load are assumed to return the same rows.
- Lua hooks: the maximum count is a constructor argument. `OnBattlefieldInitialise` has no modelled effect. `LoadMobs` is a boolean oracle that does not change the battlefield.
- CBattlefield member bodies are not part of this model. The constructor, `onTick`, `InsertEntity` and `RemoveEntity` are uninterpreted functions in `Hooks`. `IsRegistered`, `IsEntered` and `GetEntity` are read as membership in the battlefield's registered, entered and entity sets.
- `CheckInProgress`: read as the `inProgress` field. Any status update it makes on its own is not modelled.
- `Cleanup()` (lines 74 and 170): its body is not part of this model. It is assumed to leave the modelled battlefield state unchanged. Only under that assumption does the battlefield a failed load leaves behind keep exactly the state shown in `LoadMobsFailureKeepsLostBattlefield`.
- Pointer lifetime, `delete` and the dynamic cast: battlefields are values in the map, and entities carry an `EntityKind`.
- GetBattlefield: an entity that is not a battle entity reaches `GetEntity` as a null pointer. That member's behaviour is not visible, so the model reports no battlefield.
- Re-entrant calls: `onTick` and the other hooks are modelled as unable to call back into the handler, so calls from scripts into the handler during a tick or a load are not modelled.
- The uint8 wrap-around of the area counter (line 109): listed areas are assumed to lie in 1..255 (`AreaNo`). Under that assumption and a free listed area, the search stops at 255 at the latest.
- Logging (`ShowDebug`, `ShowError`), names and record strings: carried as plain values or dropped.
- The debug message on the conflict path (line 237) dereferences `zoneutils::GetChar(initiator)`. When the initiator is not in the zone, that is a null dereference. The model answers WAIT there and does not model the crash.
- The single-membership guarantee (a character in at most one battlefield) depends on `InsertEntity` and on the character's own battlefield pointer, both outside the handler. The handler only refuses a conflicting registration (`RegisterRefusesSecondBattlefield`).
- RunKeepsHandlerValid: removals in a call sequence carry no battlefield hint. A hint must be a live battlefield, and the sequence does not track handles.
