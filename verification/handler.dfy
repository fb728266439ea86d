/** The per-zone battlefield handler: a bounded pool of live battlefields keyed
    by area number, with the capacity check, the area allocator, creation,
    registration, removal, the two-phase tick sweep and the read-only lookups.

    Every operation is a pure function from the handler to a new handler and a
    return code; configuration rows and CBattlefield members are parameters. */
module BattlefieldHandler {
  import opened Battlefields

  /** The handler: the maximum count fixed at construction and the live
      battlefields, keyed by area. A battlefield handle is its area key. */
  datatype Handler = Handler(maxBattlefields: nat, battlefields: map<u8, Battlefield>)

  /** A handler after an operation, with what the operation reported. */
  datatype Outcome = Outcome(handler: Handler, code: ReturnCode)

  /** A handler after a removal, with whether the entity was removed. */
  datatype Removal = Removal(handler: Handler, removed: bool)

  /** The handler's invariant: never more battlefields than the maximum, and
      every battlefield filed under its own area. */
  ghost predicate Valid(h: Handler)
  {
    && |h.battlefields| <= h.maxBattlefields
    && forall a :: a in h.battlefields ==> h.battlefields[a].area == a
  }

  /** The handler as the zone creates it, with the maximum count the script
      hook reports. */
  function NewHandler(maxBattlefields: nat): (h: Handler)
    ensures Valid(h)
    ensures h.maxBattlefields == maxBattlefields
    ensures forall a :: a !in h.battlefields
  {
    Handler(maxBattlefields, map[])
  }

  /* ---------------------------------------------------------------------- */
  /* Area allocation                                                         */
  /* ---------------------------------------------------------------------- */

  /** Some area listed in `rows` is not occupied. */
  ghost predicate HasFreeArea(keys: set<u8>, rows: seq<AreaNo>)
  {
    exists a: AreaNo :: a in rows && a !in keys
  }

  /** `a` is the smallest listed area that is not occupied. */
  ghost predicate IsLowestFreeArea(keys: set<u8>, rows: seq<AreaNo>, a: AreaNo)
  {
    && a in rows
    && a !in keys
    && forall b: AreaNo :: b < a && b in rows ==> b in keys
  }

  /** Walks the area rows and stops at the first one that is not occupied. */
  function AnyRowFree(rows: seq<AreaNo>, keys: set<u8>): (free: bool)
    ensures free <==> HasFreeArea(keys, rows)
  {
    if |rows| == 0 then false
    else if rows[0] !in keys then true
    else
      assert forall a :: a in rows ==> a == rows[0] || a in rows[1..];
      AnyRowFree(rows[1..], keys)
  }

  /** Whether no further battlefield can be loaded for `id`: the pool is at
      its maximum, or (for any id but -1) every area listed for `id` is
      occupied. An id with no area rows is always at capacity. */
  function ReachedMaxCapacity(h: Handler, id: int, cfg: Config): (full: bool)
    ensures |h.battlefields| >= h.maxBattlefields ==> full
    ensures |h.battlefields| < h.maxBattlefields && id == -1 ==> !full
    ensures |h.battlefields| < h.maxBattlefields && id != -1 ==>
              (full <==> forall a :: a in cfg.areas(id) ==> a in h.battlefields)
    ensures |cfg.areas(id)| == 0 && id != -1 ==> full
  {
    if |h.battlefields| >= h.maxBattlefields then true
    else if id != -1 then !AnyRowFree(cfg.areas(id), h.battlefields.Keys)
    else false
  }

  /** The area search loop: counts up from `area` until it reaches a listed
      area that is not occupied. */
  function ScanArea(keys: set<u8>, rows: seq<AreaNo>, area: AreaNo): (a: AreaNo)
    requires exists b: AreaNo :: area <= b && b in rows && b !in keys
    ensures area <= a && a in rows && a !in keys
    ensures forall b: AreaNo :: area <= b < a && b in rows ==> b in keys
    decreases 0x100 - area
  {
    if area in rows && area !in keys then area
    else
      var b: AreaNo :| area <= b && b in rows && b !in keys;
      assert area < b;
      ScanArea(keys, rows, area + 1)
  }

  /** The area a new battlefield gets: the lowest listed area not occupied. */
  function LowestFreeArea(keys: set<u8>, rows: seq<AreaNo>): (a: AreaNo)
    requires HasFreeArea(keys, rows)
    ensures IsLowestFreeArea(keys, rows, a)
  {
    ScanArea(keys, rows, 1)
  }

  /* ---------------------------------------------------------------------- */
  /* Creation                                                                */
  /* ---------------------------------------------------------------------- */

  /** The return code for a successful load at `area`: the first area shows
      the entry cutscene, any later one asks the caller to step its area. */
  function EntryCode(area: AreaNo): (code: ReturnCode)
    ensures code == Cutscene <==> area == 1
    ensures code == IncrementRequest <==> area > 1
  {
    if area > 1 then IncrementRequest else Cutscene
  }

  /** Files a battlefield under its area. */
  function Insert(h: Handler, bf: Battlefield): (r: Handler)
    requires bf.area !in h.battlefields
    ensures r.maxBattlefields == h.maxBattlefields
    ensures r.battlefields.Keys == h.battlefields.Keys + {bf.area}
    ensures |r.battlefields| == |h.battlefields| + 1
    ensures r.battlefields[bf.area] == bf
    ensures forall a :: a in h.battlefields ==> r.battlefields[a] == h.battlefields[a]
  {
    h.(battlefields := h.battlefields[bf.area := bf])
  }

  /** Builds the battlefield at a free area from its info row, files it, and
      either stocks it or, when its mobs fail to load, leaves it filed as lost
      and marked for cleanup. */
  function Create(h: Handler, c: Char, id: u16, area: AreaNo, info: Info, hooks: Hooks): (r: Outcome)
    requires area !in h.battlefields
    ensures r.handler.maxBattlefields == h.maxBattlefields
    ensures r.handler.battlefields.Keys == h.battlefields.Keys + {area}
    ensures forall a :: a in h.battlefields ==> r.handler.battlefields[a] == h.battlefields[a]
    ensures var bf := r.handler.battlefields[area];
            bf.id == id && bf.area == area && bf.initiator == c.id && bf.info == info
    ensures r.code in {Wait, Cutscene, IncrementRequest}
  {
    var built := Battlefield(id, area, c.id, info, hooks.construct(id, area, c.id));
    if !hooks.loadMobs(built) then
      Outcome(Insert(h, built.(state := Abandon(built.state))), Wait)
    else
      var joined := hooks.insertEntity(built, c, true);
      Outcome(Insert(h, built.(state := WithLoot(joined.state, info.lootId))), EntryCode(area))
  }

  /** Loads a new battlefield `id` for a character with no battlefield: the
      pool must have room, `id` a free listed area and an info row. The probe
      id stops after the area search and only reports what a load would. */
  function LoadBattlefield(h: Handler, c: Char, id: u16, cfg: Config, hooks: Hooks): (r: Outcome)
    ensures r.handler.maxBattlefields == h.maxBattlefields
    ensures forall a :: a in h.battlefields ==>
              a in r.handler.battlefields && r.handler.battlefields[a] == h.battlefields[a]
    ensures r.handler.battlefields.Keys == h.battlefields.Keys
         || (&& HasFreeArea(h.battlefields.Keys, cfg.areas(id))
             && r.handler.battlefields.Keys
                == h.battlefields.Keys + {LowestFreeArea(h.battlefields.Keys, cfg.areas(id))})
    ensures r.handler != h ==>
              && !c.inBattlefield
              && |h.battlefields| < h.maxBattlefields
              && id != ProbeId
              && cfg.info(id).Some?
    ensures r.code in {Wait, Cutscene, IncrementRequest, ReqsNotMet}
    ensures Valid(h) ==> Valid(r.handler)
  {
    if !c.inBattlefield && |h.battlefields| < h.maxBattlefields then
      if ReachedMaxCapacity(h, id, cfg) then
        Outcome(h, Wait)
      else
        var rows := cfg.areas(id);
        if |rows| == 0 then
          Outcome(h, Wait)
        else
          var area := LowestFreeArea(h.battlefields.Keys, rows);
          if id == ProbeId then
            Outcome(h, EntryCode(area))
          else
            match cfg.info(id)
            case None => Outcome(h, ReqsNotMet)
            case Some(info) => Create(h, c, id, area, info, hooks)
    else
      Outcome(h, Wait)
  }

  /* ---------------------------------------------------------------------- */
  /* Lookups                                                                 */
  /* ---------------------------------------------------------------------- */

  /** `r` is the lowest area whose battlefield satisfies `p`, or None when no
      battlefield does: the first hit of an in-order walk over the map. */
  ghost predicate IsLowestMatch(bfs: map<u8, Battlefield>, p: Battlefield -> bool, r: Option<u8>)
  {
    match r
    case None => forall a :: a in bfs ==> !p(bfs[a])
    case Some(a) => a in bfs && p(bfs[a]) && forall b :: b in bfs && b < a ==> !p(bfs[b])
  }

  /** The in-order walk over the map from area `from` upwards. */
  function FirstMatch(bfs: map<u8, Battlefield>, p: Battlefield -> bool, from: nat): (r: Option<u8>)
    requires from <= 0x100
    ensures r.Some? ==> from <= r.value && r.value in bfs && p(bfs[r.value])
    ensures r.Some? ==> forall a: u8 :: from <= a < r.value && a in bfs ==> !p(bfs[a])
    ensures r.None? ==> forall a: u8 :: from <= a && a in bfs ==> !p(bfs[a])
    decreases 0x100 - from
  {
    if from == 0x100 then None
    else if from in bfs && p(bfs[from]) then Some(from)
    else FirstMatch(bfs, p, from + 1)
  }

  /** The whole in-order walk. */
  function First(bfs: map<u8, Battlefield>, p: Battlefield -> bool): (r: Option<u8>)
    ensures IsLowestMatch(bfs, p, r)
  {
    FirstMatch(bfs, p, 0)
  }

  /** Battlefields that list character `id` as registered. */
  function Registers(id: u32): Battlefield -> bool
  {
    (bf: Battlefield) => id in bf.state.registered
  }

  /** Battlefields that have character `id` inside. */
  function HasEntered(id: u32): Battlefield -> bool
  {
    (bf: Battlefield) => id in bf.state.entered
  }

  /** Battlefields that hold entity `id`. */
  function Holds(id: u32): Battlefield -> bool
  {
    (bf: Battlefield) => id in bf.state.entities
  }

  /** Battlefields started by character `id`. */
  function InitiatedBy(id: u32): Battlefield -> bool
  {
    (bf: Battlefield) => bf.initiator == id
  }

  /** Battlefields of kind `battlefieldId` started by character `id`. */
  function InitiatedFor(id: u32, battlefieldId: u16): Battlefield -> bool
  {
    (bf: Battlefield) => bf.initiator == id && bf.id == battlefieldId
  }

  /** The battlefield of an entity: for a character with `checkRegistered`,
      the lowest one it is registered to; otherwise the lowest one holding
      it. An entity that is not a battle entity is found nowhere. */
  function GetBattlefield(h: Handler, e: Entity, checkRegistered: bool): (r: Option<u8>)
    ensures r.Some? ==> r.value in h.battlefields
    ensures checkRegistered && e.kind == Player ==> IsLowestMatch(h.battlefields, Registers(e.id), r)
    ensures !(checkRegistered && e.kind == Player) && e.kind != NonBattleEntity ==>
              IsLowestMatch(h.battlefields, Holds(e.id), r)
    ensures e.kind == NonBattleEntity ==> r.None?
  {
    if checkRegistered && e.kind == Player then First(h.battlefields, Registers(e.id))
    else if e.kind == NonBattleEntity then None
    else First(h.battlefields, Holds(e.id))
  }

  /** The battlefield at an area. */
  function GetBattlefieldByArea(h: Handler, area: u8): (r: Option<u8>)
    ensures r.Some? <==> area in h.battlefields
    ensures r.Some? ==> r.value == area
    ensures Valid(h) && r.Some? ==> h.battlefields[r.value].area == area
  {
    if area in h.battlefields then Some(area) else None
  }

  /** The lowest battlefield started by character `charId`. */
  function GetBattlefieldByInitiator(h: Handler, charId: u32): (r: Option<u8>)
    ensures IsLowestMatch(h.battlefields, InitiatedBy(charId), r)
  {
    First(h.battlefields, InitiatedBy(charId))
  }

  /** Whether some battlefield lists the character as registered. */
  function IsRegistered(h: Handler, c: Char): (r: bool)
    ensures r <==> exists a :: a in h.battlefields && c.id in h.battlefields[a].state.registered
  {
    First(h.battlefields, Registers(c.id)).Some?
  }

  /** Whether the character is inside some battlefield. */
  function IsEntered(h: Handler, c: Char): (r: bool)
    ensures r <==> exists a :: a in h.battlefields && c.id in h.battlefields[a].state.entered
  {
    First(h.battlefields, HasEntered(c.id)).Some?
  }

  /* ---------------------------------------------------------------------- */
  /* Registration and removal                                                */
  /* ---------------------------------------------------------------------- */

  /** Replaces the state of the battlefield at `a`. */
  function Update(h: Handler, a: u8, s: BfState): (r: Handler)
    requires a in h.battlefields
    ensures r.maxBattlefields == h.maxBattlefields
    ensures r.battlefields.Keys == h.battlefields.Keys
    ensures r.battlefields[a] == h.battlefields[a].(state := s)
    ensures forall b :: b in h.battlefields && b != a ==> r.battlefields[b] == h.battlefields[b]
    ensures Valid(h) ==> Valid(r)
  {
    h.(battlefields := h.battlefields[a := h.battlefields[a].(state := s)])
  }

  /** A character joins the existing battlefield at `a`: refused once fighting
      has started, redirected when it asked for another area, and otherwise
      let in unless the battlefield is full. */
  function Join(h: Handler, c: Char, a: u8, area: u8, hooks: Hooks): (r: Outcome)
    requires a in h.battlefields
    ensures r.handler.maxBattlefields == h.maxBattlefields
    ensures r.handler.battlefields.Keys == h.battlefields.Keys
    ensures forall b :: b in h.battlefields && b != a ==> r.handler.battlefields[b] == h.battlefields[b]
    ensures r.handler.battlefields[a].(state := h.battlefields[a].state) == h.battlefields[a]
    ensures r.code in {Locked, IncrementRequest, Cutscene, BattlefieldFull}
    ensures r.code == Locked <==> h.battlefields[a].state.inProgress
    ensures r.code == IncrementRequest <==> !h.battlefields[a].state.inProgress && area != h.battlefields[a].area
    ensures r.code in {Locked, IncrementRequest} ==> r.handler == h
    ensures r.code == BattlefieldFull ==> !IsEntered(h, c)
    ensures var bf := h.battlefields[a];
            !bf.state.inProgress && area == bf.area && IsEntered(h, c) ==> r == Outcome(h, Cutscene)
    ensures var bf := h.battlefields[a];
            var joined := hooks.insertEntity(bf, c, false);
            !bf.state.inProgress && area == bf.area && !IsEntered(h, c) ==>
              && r.handler == Update(h, a, joined.state)
              && (r.code == Cutscene <==> joined.ok)
              && (r.code == BattlefieldFull <==> !joined.ok)
    ensures Valid(h) ==> Valid(r.handler)
  {
    var bf := h.battlefields[a];
    if !bf.state.inProgress then
      if area != bf.area then
        Outcome(h, IncrementRequest)
      else if IsEntered(h, c) then
        Outcome(h, Cutscene)
      else
        var joined := hooks.insertEntity(bf, c, false);
        Outcome(Update(h, a, joined.state), if joined.ok then Cutscene else BattlefieldFull)
    else
      Outcome(h, Locked)
  }

  /** A character registered to a battlefield started by someone other than
      a (non-zero) `initiator` is asking to join a second one. */
  predicate Conflicts(h: Handler, c: Char, initiator: u32)
  {
    var registered := GetBattlefield(h, c, true);
    initiator != 0 && registered.Some? && h.battlefields[registered.value].initiator != initiator
  }

  /** The battlefield a registration request is about: the one the character
      is registered to, else the lowest one of kind `id` started by
      `initiator`. */
  function Resolve(h: Handler, c: Char, id: u16, initiator: u32): (r: Option<u8>)
    ensures r.Some? ==> r.value in h.battlefields
    ensures First(h.battlefields, Registers(c.id)).Some? ==> r == First(h.battlefields, Registers(c.id))
    ensures First(h.battlefields, Registers(c.id)).None? ==>
              IsLowestMatch(h.battlefields, InitiatedFor(initiator, id), r)
    ensures r.None? <==>
              forall a :: a in h.battlefields ==>
                c.id !in h.battlefields[a].state.registered
                && !(h.battlefields[a].initiator == initiator && h.battlefields[a].id == id)
  {
    var registered := GetBattlefield(h, c, true);
    if registered.Some? then registered else First(h.battlefields, InitiatedFor(initiator, id))
  }

  /** A character asks to enter battlefield `id` at `area` on behalf of
      `initiator`: it joins the battlefield it is registered to or the one
      `initiator` started, and a new battlefield is loaded only when there is
      neither. */
  function RegisterBattlefield(h: Handler, c: Char, id: u16, area: u8, initiator: u32, cfg: Config, hooks: Hooks): (r: Outcome)
    ensures r.handler.maxBattlefields == h.maxBattlefields
    ensures Conflicts(h, c, initiator) ==> r == Outcome(h, Wait)
    ensures var reg := First(h.battlefields, Registers(c.id));
            reg.Some? && initiator != 0 && h.battlefields[reg.value].initiator != initiator ==>
              r == Outcome(h, Wait)
    ensures var reg := First(h.battlefields, Registers(c.id));
            reg.Some? && (initiator == 0 || h.battlefields[reg.value].initiator == initiator) ==>
              r == Join(h, c, reg.value, area, hooks)
    ensures Resolve(h, c, id, initiator).Some? ==> r.handler.battlefields.Keys == h.battlefields.Keys
    ensures !Conflicts(h, c, initiator) && Resolve(h, c, id, initiator).Some? ==>
              r == Join(h, c, Resolve(h, c, id, initiator).value, area, hooks)
    ensures Resolve(h, c, id, initiator).None? ==> r == LoadBattlefield(h, c, id, cfg, hooks)
    ensures Valid(h) ==> Valid(r.handler)
  {
    if Conflicts(h, c, initiator) then
      Outcome(h, Wait)
    else
      match Resolve(h, c, id, initiator)
      case Some(a) => Join(h, c, a, area, hooks)
      case None => LoadBattlefield(h, c, id, cfg, hooks)
  }

  /** Takes an entity out of the battlefield given as `hint`, or else out of
      the lowest battlefield holding it. Never erases a battlefield. */
  function RemoveFromBattlefield(h: Handler, e: Entity, hint: Option<u8>, leaveCode: u8, hooks: Hooks): (r: Removal)
    requires hint.Some? ==> hint.value in h.battlefields
    ensures r.handler.maxBattlefields == h.maxBattlefields
    ensures r.handler.battlefields.Keys == h.battlefields.Keys
    ensures forall a :: a in h.battlefields ==>
              r.handler.battlefields[a].(state := h.battlefields[a].state) == h.battlefields[a]
    ensures hint.Some? ==>
              forall a :: a in h.battlefields && a != hint.value ==> r.handler.battlefields[a] == h.battlefields[a]
    ensures hint.None? && GetBattlefield(h, e, false).None? ==> r == Removal(h, false)
    ensures var target := if hint.Some? then hint else GetBattlefield(h, e, false);
            target.Some? ==>
              var left := hooks.removeEntity(h.battlefields[target.value], e, leaveCode);
              && r.removed == left.ok
              && r.handler.battlefields[target.value].state == left.state
              && forall a :: a in h.battlefields && a != target.value ==>
                   r.handler.battlefields[a] == h.battlefields[a]
    ensures Valid(h) ==> Valid(r.handler)
  {
    var target := if hint.Some? then hint else GetBattlefield(h, e, false);
    match target
    case None => Removal(h, false)
    case Some(a) =>
      var left := hooks.removeEntity(h.battlefields[a], e, leaveCode);
      Removal(Update(h, a, left.state), left.ok)
  }

  /* ---------------------------------------------------------------------- */
  /* Tick                                                                    */
  /* ---------------------------------------------------------------------- */

  /** A battlefield after the update pass: ticked unless marked for cleanup. */
  function Ticked(bf: Battlefield, tick: Tick, hooks: Hooks): (t: Battlefield)
    ensures t.(state := bf.state) == bf
    ensures bf.state.canCleanup ==> t == bf
  {
    if bf.state.canCleanup then bf else bf.(state := hooks.onTick(bf, tick))
  }

  /** The update pass from area `k` upwards. */
  function TickFrom(bfs: map<u8, Battlefield>, tick: Tick, hooks: Hooks, k: nat): (t: map<u8, Battlefield>)
    requires k <= 0x100
    ensures t.Keys == bfs.Keys
    ensures forall a :: a in bfs && a < k ==> t[a] == bfs[a]
    ensures forall a :: a in bfs && k <= a ==> t[a] == Ticked(bfs[a], tick, hooks)
    decreases 0x100 - k
  {
    if k == 0x100 then bfs
    else if k in bfs then TickFrom(bfs[k := Ticked(bfs[k], tick, hooks)], tick, hooks, k + 1)
    else TickFrom(bfs, tick, hooks, k + 1)
  }

  /** The sweep pass from area `k` upwards: erases what is marked for cleanup. */
  function EraseFrom(bfs: map<u8, Battlefield>, k: nat): (t: map<u8, Battlefield>)
    requires k <= 0x100
    ensures forall a :: a in t <==> a in bfs && (a < k || !bfs[a].state.canCleanup)
    ensures forall a :: a in t ==> t[a] == bfs[a]
    decreases 0x100 - k
  {
    if k == 0x100 then bfs
    else if k in bfs && bfs[k].state.canCleanup then EraseFrom(bfs - {k}, k + 1)
    else EraseFrom(bfs, k + 1)
  }

  /** One tick: every battlefield not yet marked for cleanup is updated, then
      every battlefield marked for cleanup is erased, under unchanged keys. */
  function HandleBattlefields(h: Handler, tick: Tick, hooks: Hooks): (r: Handler)
    ensures r.maxBattlefields == h.maxBattlefields
    ensures r.battlefields.Keys <= h.battlefields.Keys
    ensures forall a :: a in h.battlefields && h.battlefields[a].state.canCleanup ==> a !in r.battlefields
    ensures forall a :: a in h.battlefields && !h.battlefields[a].state.canCleanup ==>
              && (a in r.battlefields <==> !hooks.onTick(h.battlefields[a], tick).canCleanup)
              && (a in r.battlefields ==>
                    r.battlefields[a] == h.battlefields[a].(state := hooks.onTick(h.battlefields[a], tick)))
    ensures forall a :: a in r.battlefields ==> !r.battlefields[a].state.canCleanup
    ensures Valid(h) ==> Valid(r)
  {
    var r := Handler(h.maxBattlefields, EraseFrom(TickFrom(h.battlefields, tick, hooks, 0), 0));
    assert |r.battlefields.Keys| <= |h.battlefields.Keys| by {
      SubsetCard(r.battlefields.Keys, h.battlefields.Keys);
    }
    r
  }

  /** A subset is no larger than its superset. */
  lemma {:induction false} SubsetCard<T>(s: set<T>, t: set<T>)
    requires s <= t
    ensures |s| <= |t|
    decreases t
  {
    if s != {} {
      var x :| x in s;
      SubsetCard(s - {x}, t - {x});
    }
  }
}
