/**
 * The state snapshot the decision core reads at one action attempt.
 *
 * In the plugin every query goes through a process-wide service locator
 * (cooldown cache, status lookup, job gauge, configuration, client state);
 * here those answers are gathered into one explicit value that the caller
 * passes in.
 */
module GameState {
  import opened Wrappers

  /** The game's unsigned 8-bit integers: job ids and character levels. */
  newtype Byte = x: int | 0 <= x < 0x100

  /** The game's unsigned 32-bit integers. */
  newtype UInt32 = x: int | 0 <= x < 0x1_0000_0000

  /** Action (skill) identifiers are unsigned 32-bit integers; 0 means "no action". */
  type ActionId = UInt32

  /** Status-effect identifiers are 16-bit. */
  newtype EffectId = x: int | 0 <= x < 0x1_0000

  /** What the cooldown cache reports for one action. */
  datatype Cooldown = Cooldown(isCooldown: bool, remaining: real)

  /** The card an Astrologian currently holds; only the comparison with NoCard is used. */
  datatype CardType = NoCard | Balance | Bole | Arrow | Spear | Ewer | Spire

  /**
   * One point-in-time view of the host:
   *  - localPlayerJob: the local player's class/job id, or None when there is no player;
   *  - cooldowns: cooldown data per action;
   *  - selfEffects: the status effects currently on the local player;
   *  - drawnCard: the Astrologian gauge's drawn card;
   *  - enabledPresets: the presets the user has switched on in the configuration.
   */
  datatype Snapshot = Snapshot(
    localPlayerJob: Option<UInt32>,
    cooldowns: map<ActionId, Cooldown>,
    selfEffects: set<EffectId>,
    drawnCard: CardType,
    enabledPresets: set<int>)

  /** The cooldown of an action; an action the cache has no entry for is ready. */
  function GetCooldown(snap: Snapshot, actionId: ActionId): (cd: Cooldown)
    ensures actionId in snap.cooldowns ==> cd == snap.cooldowns[actionId]
    ensures actionId !in snap.cooldowns ==> !cd.isCooldown && cd.remaining == 0.0
  {
    if actionId in snap.cooldowns then snap.cooldowns[actionId] else Cooldown(false, 0.0)
  }

  /** Whether the local player carries the given status effect. */
  predicate SelfHasEffect(snap: Snapshot, effectId: EffectId) {
    effectId in snap.selfEffects
  }
}
