/**
 * The Astrologian rules: four decisions, each a nested test of the attempted
 * action, the character level and the snapshot that returns an action id.
 * None of them restricts its trigger actions, so each one filters on the
 * attempted action itself and hands that action back when it does not apply.
 */
module AST {
  import opened Wrappers
  import opened GameState
  import opened CustomCombo

  /** The Astrologian job id. */
  const JobId: Byte := 33

  const Ascend: ActionId := 3603
  const Benefic: ActionId := 3594
  const Benefic2: ActionId := 3610
  const Draw: ActionId := 3590
  const Balance: ActionId := 4401
  const Bole: ActionId := 4404
  const Arrow: ActionId := 4402
  const Spear: ActionId := 4403
  const Ewer: ActionId := 4405
  const Spire: ActionId := 4406
  const MinorArcana: ActionId := 7443
  const SleeveDraw: ActionId := 7448
  const Play: ActionId := 17055

  /** The role action Swiftcast, shared by all casters (the game's action id). */
  const Swiftcast: ActionId := 7561

  /** The Lost Chainspell buff. */
  const LostChainspellBuff: EffectId := 2560

  /** The levels at which actions unlock. */
  const Benefic2Level: Byte := 26
  const MinorArcanaLevel: Byte := 50
  const SleeveDrawLevel: Byte := 70

  // ---------------------------------------------------------------------
  // The four decisions
  // ---------------------------------------------------------------------

  /** Ascend becomes Swiftcast while Swiftcast has no time left and Lost Chainspell is not up. */
  function SwiftcastRaiser(req: Request, snap: Snapshot): (r: ActionId)
    ensures r == req.actionId || r == Swiftcast
    ensures r != req.actionId <==>
              req.actionId == Ascend
              && GetCooldown(snap, Swiftcast).remaining == 0.0
              && !SelfHasEffect(snap, LostChainspellBuff)
  {
    if req.actionId == Ascend && GetCooldown(snap, Swiftcast).remaining == 0.0
       && !SelfHasEffect(snap, LostChainspellBuff)
    then Swiftcast
    else req.actionId
  }

  /** Play becomes Draw while no card is drawn. */
  function CardsOnDraw(req: Request, snap: Snapshot): (r: ActionId)
    ensures r == req.actionId || r == Draw
    ensures r != req.actionId <==> req.actionId == Play && snap.drawnCard == NoCard
  {
    if req.actionId == Play && snap.drawnCard == NoCard then Draw else req.actionId
  }

  /** Minor Arcana becomes Sleeve Draw while no card is drawn, once Sleeve Draw is unlocked. */
  function SleeveDrawRule(req: Request, snap: Snapshot): (r: ActionId)
    ensures r == req.actionId || r == SleeveDraw
    ensures r != req.actionId <==>
              req.actionId == MinorArcana && snap.drawnCard == NoCard && req.level >= SleeveDrawLevel
  {
    if req.actionId == MinorArcana && snap.drawnCard == NoCard && req.level >= SleeveDrawLevel
    then SleeveDraw
    else req.actionId
  }

  /** Benefic II falls back to Benefic below the level that unlocks Benefic II. */
  function BeneficRule(req: Request, snap: Snapshot): (r: ActionId)
    ensures r == req.actionId || r == Benefic
    ensures r != req.actionId <==> req.actionId == Benefic2 && req.level < Benefic2Level
  {
    if req.actionId == Benefic2 && req.level < Benefic2Level then Benefic else req.actionId
  }

  // ---------------------------------------------------------------------
  // The four rules, as registered combos
  // ---------------------------------------------------------------------

  /** A rule of this job, with the given preset, that declares no trigger actions. */
  predicate IsAstRule(c: Combo, preset: int) {
    c.preset == preset && c.jobId == JobId && c.actionIds == []
  }

  /** The Swiftcast-raiser rule; its decision never throws. */
  function SwiftcastRaiserFeature(preset: int): (c: Combo)
    ensures IsAstRule(c, preset)
    ensures forall req, snap :: c.invoke(req, snap) == Returned(SwiftcastRaiser(req, snap))
  {
    Combo(preset, JobId, [], (req, snap) => Returned(SwiftcastRaiser(req, snap)))
  }

  /** The cards-on-draw rule; its decision never throws. */
  function CardsOnDrawFeature(preset: int): (c: Combo)
    ensures IsAstRule(c, preset)
    ensures forall req, snap :: c.invoke(req, snap) == Returned(CardsOnDraw(req, snap))
  {
    Combo(preset, JobId, [], (req, snap) => Returned(CardsOnDraw(req, snap)))
  }

  /** The sleeve-draw rule; its decision never throws. */
  function SleeveDrawFeature(preset: int): (c: Combo)
    ensures IsAstRule(c, preset)
    ensures forall req, snap :: c.invoke(req, snap) == Returned(SleeveDrawRule(req, snap))
  {
    Combo(preset, JobId, [], (req, snap) => Returned(SleeveDrawRule(req, snap)))
  }

  /** The Benefic downgrade rule; its decision never throws. */
  function BeneficFeature(preset: int): (c: Combo)
    ensures IsAstRule(c, preset)
    ensures forall req, snap :: c.invoke(req, snap) == Returned(BeneficRule(req, snap))
  {
    Combo(preset, JobId, [], (req, snap) => Returned(BeneficRule(req, snap)))
  }

  // ---------------------------------------------------------------------
  // What the rules do once wrapped in the guard
  // ---------------------------------------------------------------------

  /** The guard, for an Astrologian rule: an Astrologian player and an enabled preset. */
  predicate AstGuard(preset: int, snap: Snapshot) {
    snap.localPlayerJob == Some(JobId as UInt32) && IsEnabled(preset, snap.enabledPresets)
  }

  /** An Astrologian rule is eligible exactly when the player is an Astrologian and its preset is on. */
  lemma AstEligible(c: Combo, preset: int, req: Request, snap: Snapshot)
    requires IsAstRule(c, preset)
    ensures Eligible(c, req.actionId, snap) <==> AstGuard(preset, snap)
  {
  }

  /** Through the guard: exactly when Swiftcast replaces Ascend. */
  lemma SwiftcastRaiserSubstitution(preset: int, req: Request, snap: Snapshot)
    ensures Substitution(SwiftcastRaiserFeature(preset), req, snap)
            == if AstGuard(preset, snap) && req.actionId == Ascend
                  && GetCooldown(snap, Swiftcast).remaining == 0.0
                  && !SelfHasEffect(snap, LostChainspellBuff)
               then Some(Swiftcast) else None
  {
  }

  /** Through the guard: exactly when Draw replaces Play. */
  lemma CardsOnDrawSubstitution(preset: int, req: Request, snap: Snapshot)
    ensures Substitution(CardsOnDrawFeature(preset), req, snap)
            == if AstGuard(preset, snap) && req.actionId == Play && snap.drawnCard == NoCard
               then Some(Draw) else None
  {
  }

  /** Through the guard: exactly when Sleeve Draw replaces Minor Arcana. */
  lemma SleeveDrawSubstitution(preset: int, req: Request, snap: Snapshot)
    ensures Substitution(SleeveDrawFeature(preset), req, snap)
            == if AstGuard(preset, snap) && req.actionId == MinorArcana && snap.drawnCard == NoCard
                  && req.level >= SleeveDrawLevel
               then Some(SleeveDraw) else None
  {
  }

  /** Through the guard: exactly when Benefic replaces Benefic II. */
  lemma BeneficSubstitution(preset: int, req: Request, snap: Snapshot)
    ensures Substitution(BeneficFeature(preset), req, snap)
            == if AstGuard(preset, snap) && req.actionId == Benefic2 && req.level < Benefic2Level
               then Some(Benefic) else None
  {
  }

  /** Benefic II at level 20 becomes Benefic; at level 26 it is left alone. */
  lemma BeneficDowngradeExamples(preset: int, snap: Snapshot, last: ActionId, time: real)
    requires AstGuard(preset, snap)
    ensures Substitution(BeneficFeature(preset), Request(Benefic2, last, time, 20), snap) == Some(Benefic)
    ensures Substitution(BeneficFeature(preset), Request(Benefic2, last, time, 26), snap) == None
  {
  }

  /** No Astrologian rule looks at the combo history: the last move and the combo timer change nothing. */
  lemma IgnoreComboHistory(req: Request, snap: Snapshot, last: ActionId, time: real)
    ensures SwiftcastRaiser(req.(lastComboMove := last, comboTime := time), snap) == SwiftcastRaiser(req, snap)
    ensures CardsOnDraw(req.(lastComboMove := last, comboTime := time), snap) == CardsOnDraw(req, snap)
    ensures SleeveDrawRule(req.(lastComboMove := last, comboTime := time), snap) == SleeveDrawRule(req, snap)
    ensures BeneficRule(req.(lastComboMove := last, comboTime := time), snap) == BeneficRule(req, snap)
  {
  }

  /** Every Astrologian rule passes an action other than its own trigger through, and so substitutes nothing. */
  lemma OtherActionsPassThrough(preset: int, req: Request, snap: Snapshot)
    ensures req.actionId != Ascend ==> Substitution(SwiftcastRaiserFeature(preset), req, snap) == None
    ensures req.actionId != Play ==> Substitution(CardsOnDrawFeature(preset), req, snap) == None
    ensures req.actionId != MinorArcana ==> Substitution(SleeveDrawFeature(preset), req, snap) == None
    ensures req.actionId != Benefic2 ==> Substitution(BeneficFeature(preset), req, snap) == None
  {
  }
}
