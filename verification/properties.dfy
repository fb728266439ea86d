/** Properties of the battlefield handler that relate an operation's result to
    its inputs case by case, or relate several operations. */
module HandlerProperties {
  import opened Battlefields
  import opened BattlefieldHandler

  /* ---------------------------------------------------------------------- */
  /* Loading                                                                 */
  /* ---------------------------------------------------------------------- */

  /** A character that already has a battlefield, or a pool at its maximum,
      gets WAIT and the handler is left as it was. */
  lemma LoadWaitsWhenBusyOrFull(h: Handler, c: Char, id: u16, cfg: Config, hooks: Hooks)
    requires c.inBattlefield || |h.battlefields| >= h.maxBattlefields
    ensures LoadBattlefield(h, c, id, cfg, hooks) == Outcome(h, Wait)
  {
  }

  /** A load adds at most one battlefield, at the lowest listed area that was
      free, so it never collides with a live one and never exceeds the
      maximum; the new battlefield is of the requested kind and started by
      the requesting character. */
  lemma LoadPicksLowestFreeArea(h: Handler, c: Char, id: u16, cfg: Config, hooks: Hooks)
    requires Valid(h)
    ensures var r := LoadBattlefield(h, c, id, cfg, hooks);
            r.handler.battlefields.Keys != h.battlefields.Keys ==>
              exists a: AreaNo ::
                && IsLowestFreeArea(h.battlefields.Keys, cfg.areas(id), a)
                && r.handler.battlefields.Keys == h.battlefields.Keys + {a}
                && r.handler.battlefields[a].area == a
                && r.handler.battlefields[a].id == id
                && r.handler.battlefields[a].initiator == c.id
    ensures |LoadBattlefield(h, c, id, cfg, hooks).handler.battlefields| <= h.maxBattlefields
  {
    var r := LoadBattlefield(h, c, id, cfg, hooks);
    if r.handler.battlefields.Keys != h.battlefields.Keys {
      var a := LowestFreeArea(h.battlefields.Keys, cfg.areas(id));
      assert IsLowestFreeArea(h.battlefields.Keys, cfg.areas(id), a);
      assert r.handler.battlefields.Keys == h.battlefields.Keys + {a};
    }
  }

  /** The ways a load that got past the character and pool checks ends with
      the handler unchanged: every listed area occupied, no area rows, the
      probe id, and a missing info row. */
  lemma LoadLeavesPoolUnchanged(h: Handler, c: Char, id: u16, cfg: Config, hooks: Hooks)
    requires !c.inBattlefield && |h.battlefields| < h.maxBattlefields
    ensures !HasFreeArea(h.battlefields.Keys, cfg.areas(id)) ==>
              LoadBattlefield(h, c, id, cfg, hooks) == Outcome(h, Wait)
    ensures |cfg.areas(id)| == 0 ==> LoadBattlefield(h, c, id, cfg, hooks) == Outcome(h, Wait)
    ensures id == ProbeId && HasFreeArea(h.battlefields.Keys, cfg.areas(id)) ==>
              var area := LowestFreeArea(h.battlefields.Keys, cfg.areas(id));
              LoadBattlefield(h, c, id, cfg, hooks)
                == Outcome(h, if area > 1 then IncrementRequest else Cutscene)
    ensures id != ProbeId && HasFreeArea(h.battlefields.Keys, cfg.areas(id)) && cfg.info(id).None? ==>
              LoadBattlefield(h, c, id, cfg, hooks) == Outcome(h, ReqsNotMet)
  {
  }

  /** The probe id is not special to the capacity check: it is looked up
      like any other id, so with no area rows for it the probe answers WAIT
      however much room the pool has. */
  lemma ProbeNeedsAreaRows(h: Handler, c: Char, cfg: Config, hooks: Hooks)
    requires cfg.areas(ProbeId) == []
    ensures ReachedMaxCapacity(h, ProbeId, cfg)
    ensures LoadBattlefield(h, c, ProbeId, cfg, hooks) == Outcome(h, Wait)
  {
  }

  /** The battlefield a load files when everything up to its info row
      succeeded. */
  function Built(h: Handler, c: Char, id: u16, cfg: Config, hooks: Hooks): (bf: Battlefield)
    requires HasFreeArea(h.battlefields.Keys, cfg.areas(id)) && cfg.info(id).Some?
    ensures bf.area !in h.battlefields
    ensures 1 <= bf.area && IsLowestFreeArea(h.battlefields.Keys, cfg.areas(id), bf.area)
    ensures bf.id == id && bf.initiator == c.id && bf.info == cfg.info(id).value
  {
    var area := LowestFreeArea(h.battlefields.Keys, cfg.areas(id));
    Battlefield(id, area, c.id, cfg.info(id).value, hooks.construct(id, area, c.id))
  }

  /** When the mobs fail to load the new battlefield stays filed, lost and
      marked for cleanup but otherwise as constructed (the character was not
      put into it), and the caller is told to WAIT. */
  lemma LoadMobsFailureKeepsLostBattlefield(h: Handler, c: Char, id: u16, cfg: Config, hooks: Hooks)
    requires !c.inBattlefield && |h.battlefields| < h.maxBattlefields && id != ProbeId
    requires HasFreeArea(h.battlefields.Keys, cfg.areas(id)) && cfg.info(id).Some?
    requires !hooks.loadMobs(Built(h, c, id, cfg, hooks))
    ensures var bf := Built(h, c, id, cfg, hooks);
            var r := LoadBattlefield(h, c, id, cfg, hooks);
            && r.code == Wait
            && r.handler.battlefields.Keys == h.battlefields.Keys + {bf.area}
            && r.handler.battlefields[bf.area].state.status == Lost
            && r.handler.battlefields[bf.area].state.canCleanup
            && r.handler.battlefields[bf.area].state == Abandon(hooks.construct(id, bf.area, c.id))
  {
  }

  /** When the mobs load, the character is put in as initiator, the loot
      table is recorded exactly when it is non-zero, and the caller is sent
      to the cutscene for area 1 and to the next area otherwise. */
  lemma LoadSuccessEntersInitiator(h: Handler, c: Char, id: u16, cfg: Config, hooks: Hooks)
    requires !c.inBattlefield && |h.battlefields| < h.maxBattlefields && id != ProbeId
    requires HasFreeArea(h.battlefields.Keys, cfg.areas(id)) && cfg.info(id).Some?
    requires hooks.loadMobs(Built(h, c, id, cfg, hooks))
    ensures var bf := Built(h, c, id, cfg, hooks);
            var r := LoadBattlefield(h, c, id, cfg, hooks);
            var entered := hooks.insertEntity(bf, c, true).state;
            var lootId := cfg.info(id).value.lootId;
            && r.code == (if bf.area == 1 then Cutscene else IncrementRequest)
            && r.handler.battlefields.Keys == h.battlefields.Keys + {bf.area}
            && r.handler.battlefields[bf.area].state.(localVars := entered.localVars) == entered
            && (LootVar in r.handler.battlefields[bf.area].state.localVars <==>
                  LootVar in entered.localVars || lootId != 0)
            && (lootId != 0 ==> r.handler.battlefields[bf.area].state.localVars[LootVar] == lootId)
            && (lootId == 0 ==> r.handler.battlefields[bf.area].state == entered)
            && forall k :: k != LootVar ==>
                 && (k in r.handler.battlefields[bf.area].state.localVars <==> k in entered.localVars)
                 && (k in entered.localVars ==>
                       r.handler.battlefields[bf.area].state.localVars[k] == entered.localVars[k])
  {
  }

  /* ---------------------------------------------------------------------- */
  /* Registration                                                            */
  /* ---------------------------------------------------------------------- */

  /** A character registered to a battlefield whose initiator differs from a
      non-zero `initiator` is turned away with WAIT and nothing changes. */
  lemma RegisterRefusesSecondBattlefield(h: Handler, c: Char, id: u16, area: u8, initiator: u32, cfg: Config, hooks: Hooks, a: u8)
    requires initiator != 0
    requires a in h.battlefields && c.id in h.battlefields[a].state.registered
    requires forall b :: b in h.battlefields && c.id in h.battlefields[b].state.registered ==>
               h.battlefields[b].initiator != initiator
    ensures RegisterBattlefield(h, c, id, area, initiator, cfg, hooks) == Outcome(h, Wait)
  {
    var reg := GetBattlefield(h, c, true);
    assert Registers(c.id)(h.battlefields[a]);
    assert reg.Some?;
    assert Registers(c.id)(h.battlefields[reg.value]);
    assert Conflicts(h, c, initiator);
  }

  /** The converse: a character whose lowest registered battlefield was
      started by `initiator`, or who asks with initiator 0, is never turned
      away but joins that battlefield. */
  lemma RegisterJoinsOwnBattlefield(h: Handler, c: Char, id: u16, area: u8, initiator: u32, cfg: Config, hooks: Hooks)
    requires First(h.battlefields, Registers(c.id)).Some?
    requires var a := First(h.battlefields, Registers(c.id)).value;
             initiator == 0 || h.battlefields[a].initiator == initiator
    ensures RegisterBattlefield(h, c, id, area, initiator, cfg, hooks)
            == Join(h, c, First(h.battlefields, Registers(c.id)).value, area, hooks)
    ensures RegisterBattlefield(h, c, id, area, initiator, cfg, hooks).code != Wait
  {
  }

  /** Once fighting has started in the battlefield the request resolves to,
      the answer is LOCKED and nothing changes. */
  lemma RegisterLockedWhenInProgress(h: Handler, c: Char, id: u16, area: u8, initiator: u32, cfg: Config, hooks: Hooks)
    requires !Conflicts(h, c, initiator)
    requires Resolve(h, c, id, initiator).Some?
    requires h.battlefields[Resolve(h, c, id, initiator).value].state.inProgress
    ensures RegisterBattlefield(h, c, id, area, initiator, cfg, hooks) == Outcome(h, Locked)
  {
  }

  /** A character already inside some battlefield that asks again for the
      open battlefield it resolves to, at its area, is sent to the cutscene
      and nothing changes. */
  lemma RegisterReentryLeavesHandler(h: Handler, c: Char, id: u16, area: u8, initiator: u32, cfg: Config, hooks: Hooks)
    requires !Conflicts(h, c, initiator)
    requires Resolve(h, c, id, initiator).Some?
    requires !h.battlefields[Resolve(h, c, id, initiator).value].state.inProgress
    requires h.battlefields[Resolve(h, c, id, initiator).value].area == area
    requires IsEntered(h, c)
    ensures RegisterBattlefield(h, c, id, area, initiator, cfg, hooks) == Outcome(h, Cutscene)
  {
  }

  /** A request that finds a battlefield never creates one, and a new
      battlefield appears only when neither a registration nor a battlefield
      of the requested kind by `initiator` exists. */
  lemma RegisterCreatesOnlyWhenNothingMatches(h: Handler, c: Char, id: u16, area: u8, initiator: u32, cfg: Config, hooks: Hooks)
    ensures var r := RegisterBattlefield(h, c, id, area, initiator, cfg, hooks);
            r.handler.battlefields.Keys != h.battlefields.Keys ==>
              && r == LoadBattlefield(h, c, id, cfg, hooks)
              && forall a :: a in h.battlefields ==>
                   && c.id !in h.battlefields[a].state.registered
                   && !(h.battlefields[a].initiator == initiator && h.battlefields[a].id == id)
  {
  }

  /* ---------------------------------------------------------------------- */
  /* Sequences of calls                                                      */
  /* ---------------------------------------------------------------------- */

  /** One call the zone makes into its handler. */
  datatype Request =
    | LoadReq(c: Char, id: u16)
    | RegisterReq(c: Char, id: u16, area: u8, initiator: u32)
    | RemoveReq(e: Entity, leaveCode: u8)
    | TickReq(t: Tick)

  function Step(h: Handler, req: Request, cfg: Config, hooks: Hooks): Handler
  {
    match req
    case LoadReq(c, id) => LoadBattlefield(h, c, id, cfg, hooks).handler
    case RegisterReq(c, id, area, initiator) => RegisterBattlefield(h, c, id, area, initiator, cfg, hooks).handler
    case RemoveReq(e, leaveCode) => RemoveFromBattlefield(h, e, None, leaveCode, hooks).handler
    case TickReq(t) => HandleBattlefields(h, t, hooks)
  }

  /** The handler after the zone's calls, made one after another. */
  function Run(h: Handler, reqs: seq<Request>, cfg: Config, hooks: Hooks): Handler
    decreases |reqs|
  {
    if |reqs| == 0 then h else Run(Step(h, reqs[0], cfg, hooks), reqs[1..], cfg, hooks)
  }

  /** However the zone's calls are interleaved, the pool never holds more
      battlefields than its maximum and every battlefield stays filed under
      its own area. */
  lemma {:induction false} RunKeepsHandlerValid(h: Handler, reqs: seq<Request>, cfg: Config, hooks: Hooks)
    requires Valid(h)
    ensures Valid(Run(h, reqs, cfg, hooks))
    ensures |Run(h, reqs, cfg, hooks).battlefields| <= h.maxBattlefields
    ensures Run(h, reqs, cfg, hooks).maxBattlefields == h.maxBattlefields
    decreases |reqs|
  {
    if |reqs| > 0 {
      RunKeepsHandlerValid(Step(h, reqs[0], cfg, hooks), reqs[1..], cfg, hooks);
    }
  }

  /** Area reuse: with room for one battlefield and one listed area, a first
      load takes area 1, a load of another kind has to wait, and once the
      first battlefield has ended and been swept the other load gets area 1. */
  lemma AreaIsReusedAfterSweep(p: Char, q: Char, d: u16, e: u16, t: Tick, cfg: Config, hooks: Hooks)
    requires !p.inBattlefield && !q.inBattlefield
    requires d != ProbeId && e != ProbeId
    requires cfg.areas(d) == [1] && cfg.areas(e) == [1]
    requires cfg.info(d).Some? && cfg.info(e).Some?
    requires forall bf :: hooks.loadMobs(bf)
    requires forall bf :: hooks.onTick(bf, t).canCleanup
    ensures var first := LoadBattlefield(NewHandler(1), p, d, cfg, hooks);
            && first.code == Cutscene
            && first.handler.battlefields.Keys == {1}
            && LoadBattlefield(first.handler, q, e, cfg, hooks) == Outcome(first.handler, Wait)
            && HandleBattlefields(first.handler, t, hooks).battlefields == map[]
            && var second := LoadBattlefield(HandleBattlefields(first.handler, t, hooks), q, e, cfg, hooks);
               second.code == Cutscene && second.handler.battlefields.Keys == {1}
  {
    var h0 := NewHandler(1);
    assert HasFreeArea(h0.battlefields.Keys, cfg.areas(d)) by {
      assert (1 as AreaNo) in cfg.areas(d);
    }
    var first := LoadBattlefield(h0, p, d, cfg, hooks);
    var a := LowestFreeArea(h0.battlefields.Keys, cfg.areas(d));
    assert a == 1;
    assert first.handler.battlefields.Keys == {1};
    var swept := HandleBattlefields(first.handler, t, hooks);
    assert swept.battlefields == map[] by {
      assert swept.battlefields.Keys <= {1};
      assert 1 !in swept.battlefields;
    }
    assert HasFreeArea(swept.battlefields.Keys, cfg.areas(e)) by {
      assert (1 as AreaNo) in cfg.areas(e);
    }
    var b := LowestFreeArea(swept.battlefields.Keys, cfg.areas(e));
    assert b == 1;
  }
}
