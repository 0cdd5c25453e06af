/**
 * The base of every substitution rule ("combo"): job/class normalisation,
 * the guard-and-invoke wrapper, the enablement threshold, and the two shared
 * decision algorithms (cooldown tie-break and combo-chain inference).
 */
module CustomCombo {
  import opened Wrappers
  import opened GameState

  // ---------------------------------------------------------------------
  // Rules and their results
  // ---------------------------------------------------------------------

  /** The arguments of one action attempt. */
  datatype Request = Request(actionId: ActionId, lastComboMove: ActionId, comboTime: real, level: Byte)

  /** What a rule's decision does: return an action id, or throw. */
  datatype Outcome = Returned(id: ActionId) | Threw

  /**
   * One rule: its preset (the enum value that identifies it), the job it
   * belongs to, its trigger actions (empty = any action), and its decision.
   */
  datatype Combo = Combo(
    preset: int,
    jobId: Byte,
    actionIds: seq<ActionId>,
    invoke: (Request, Snapshot) -> Outcome)

  // ---------------------------------------------------------------------
  // Job to class normalisation
  // ---------------------------------------------------------------------

  /** Jobs that are advanced versions of a base class. */
  const AdvancedJobs: set<Byte> := {19, 20, 21, 22, 23, 24, 25, 27, 28, 30}

  /** The advanced jobs derived from a class, listed from the class's side. */
  function AdvancedJobsOf(classId: Byte): set<Byte> {
    if 1 <= classId <= 7 then {classId + 18}
    else if classId == 26 then {27, 28}
    else if classId == 29 then {30}
    else {}
  }

  /** The base class of a job; a job that is not an advanced job is its own class. */
  function ClassId(jobId: Byte): (classId: Byte)
    ensures classId <= jobId
    ensures classId == jobId <==> jobId !in AdvancedJobs
    ensures classId != jobId ==> jobId in AdvancedJobsOf(classId)
  {
    if 19 <= jobId <= 25 then jobId - 18
    else if jobId == 27 || jobId == 28 then 26
    else if jobId == 30 then 29
    else jobId
  }

  /** ClassId and AdvancedJobsOf describe the same grouping of jobs under classes. */
  lemma ClassIdGroupsJobs(jobId: Byte, classId: Byte)
    ensures ClassId(jobId) == classId
      <==> jobId in AdvancedJobsOf(classId) || (jobId == classId && jobId !in AdvancedJobs)
  {
  }

  /** A class is its own class: normalising twice changes nothing. */
  lemma ClassIdIdempotent(jobId: Byte)
    ensures ClassId(ClassId(jobId)) == ClassId(jobId)
  {
  }

  // ---------------------------------------------------------------------
  // Enablement
  // ---------------------------------------------------------------------

  /** Presets numbered below this value are built in and never switched off. */
  const AlwaysEnabledBelow: int := 100

  /** Whether a preset is active, given the set of presets the user enabled. */
  function IsEnabled(preset: int, enabledPresets: set<int>): (enabled: bool)
    ensures preset < AlwaysEnabledBelow ==> enabled
    ensures preset >= AlwaysEnabledBelow ==> (enabled <==> preset in enabledPresets)
  {
    preset < AlwaysEnabledBelow || preset in enabledPresets
  }

  /** Switching more presets on never switches a preset off. */
  lemma IsEnabledMonotone(preset: int, enabledPresets: set<int>, more: set<int>)
    requires enabledPresets <= more
    ensures IsEnabled(preset, enabledPresets) ==> IsEnabled(preset, more)
  {
  }

  // ---------------------------------------------------------------------
  // The guarded invocation of one rule
  // ---------------------------------------------------------------------

  /** The guards a rule must pass before its decision runs. */
  predicate Eligible(combo: Combo, actionId: ActionId, snap: Snapshot) {
    && snap.localPlayerJob.Some?
    && (combo.jobId as UInt32 == snap.localPlayerJob.value
        || ClassId(combo.jobId) as UInt32 == snap.localPlayerJob.value)
    && (|combo.actionIds| == 0 || actionId in combo.actionIds)
    && IsEnabled(combo.preset, snap.enabledPresets)
  }

  /**
   * The substitution one rule makes for one attempt, if any: the rule must be
   * eligible, its decision must return rather than throw, and what it returns
   * must be neither 0 nor the attempted action.
   */
  function Substitution(combo: Combo, req: Request, snap: Snapshot): (r: Option<ActionId>)
    ensures r.Some? ==> Eligible(combo, req.actionId, snap)
    ensures r.Some? ==> r.value != 0 && r.value != req.actionId
    ensures r.Some? ==> combo.invoke(req, snap) == Returned(r.value)
    ensures Eligible(combo, req.actionId, snap) && combo.invoke(req, snap).Returned?
            && combo.invoke(req, snap).id != 0 && combo.invoke(req, snap).id != req.actionId
            ==> r.Some?
  {
    if !Eligible(combo, req.actionId, snap) then None
    else match combo.invoke(req, snap)
      case Threw => None
      case Returned(id) => if id == 0 || req.actionId == id then None else Some(id)
  }

  /**
   * Runs one rule for one attempt. The out-value is 0 unless the rule makes a
   * substitution; a throwing decision is caught and counts as no substitution.
   */
  method TryInvoke(combo: Combo, req: Request, snap: Snapshot) returns (replaced: bool, newActionId: ActionId)
    ensures snap.localPlayerJob.None? ==> !replaced
    ensures (snap.localPlayerJob.Some? && combo.jobId as UInt32 != snap.localPlayerJob.value
             && ClassId(combo.jobId) as UInt32 != snap.localPlayerJob.value) ==> !replaced
    ensures |combo.actionIds| > 0 && req.actionId !in combo.actionIds ==> !replaced
    ensures !IsEnabled(combo.preset, snap.enabledPresets) ==> !replaced
    ensures combo.invoke(req, snap).Threw? ==> !replaced
    ensures replaced <==> Eligible(combo, req.actionId, snap) && combo.invoke(req, snap).Returned?
                          && combo.invoke(req, snap).id != 0 && combo.invoke(req, snap).id != req.actionId
    ensures replaced ==> newActionId == combo.invoke(req, snap).id
    ensures !replaced ==> newActionId == 0
    ensures replaced == Substitution(combo, req, snap).Some?
    ensures replaced ==> newActionId == Substitution(combo, req, snap).value
  {
    newActionId := 0;
    if snap.localPlayerJob.None?
      || (combo.jobId as UInt32 != snap.localPlayerJob.value
          && ClassId(combo.jobId) as UInt32 != snap.localPlayerJob.value)
      || (|combo.actionIds| > 0 && req.actionId !in combo.actionIds)
      || !IsEnabled(combo.preset, snap.enabledPresets)
    {
      return false, newActionId;
    }
    var outcome := combo.invoke(req, snap);
    match outcome {
      case Threw =>
        // the failure boundary: the fault is contained and nothing is substituted
        return false, newActionId;
      case Returned(resultingActionId) =>
        if resultingActionId == 0 || req.actionId == resultingActionId {
          return false, newActionId;
        }
        newActionId := resultingActionId;
        return true, newActionId;
    }
  }

  /** A rule that hands back the attempted action makes no substitution. */
  lemma UnchangedIsNoSubstitution(combo: Combo, req: Request, snap: Snapshot)
    requires combo.invoke(req, snap) == Returned(req.actionId)
    ensures Substitution(combo, req, snap) == None
  {
  }

  /** A rule whose decision throws makes no substitution. */
  lemma FaultIsNoSubstitution(combo: Combo, req: Request, snap: Snapshot)
    requires combo.invoke(req, snap) == Threw
    ensures Substitution(combo, req, snap) == None
  {
  }

  // ---------------------------------------------------------------------
  // Cooldown tie-break
  // ---------------------------------------------------------------------

  /** An action paired with its cooldown data. */
  datatype Candidate = Candidate(actionId: ActionId, data: Cooldown)

  /** The candidate list: each action with its cooldown taken from the snapshot. */
  function Select(snap: Snapshot, actions: seq<ActionId>): (cands: seq<Candidate>)
    ensures |cands| == |actions|
    ensures forall i :: 0 <= i < |actions| ==> cands[i].actionId == actions[i] && Consistent(snap, cands[i])
  {
    seq(|actions|, i requires 0 <= i < |actions| => Candidate(actions[i], GetCooldown(snap, actions[i])))
  }

  /** A candidate whose cooldown data is the snapshot's for its action. */
  predicate Consistent(snap: Snapshot, c: Candidate) {
    c.data == GetCooldown(snap, c.actionId)
  }

  /**
   * The binary choice between two candidates: a ready action beats one on
   * cooldown; of two on cooldown the one with strictly less time left wins
   * (ties go to the second); of two ready ones the first is kept only when it
   * is the original action.
   */
  function Compare(original: ActionId, a1: Candidate, a2: Candidate): (choice: Candidate)
    ensures choice == a1 || choice == a2
    ensures !a1.data.isCooldown || !a2.data.isCooldown ==> !choice.data.isCooldown
    ensures !a1.data.isCooldown && !a2.data.isCooldown ==> choice == (if original == a1.actionId then a1 else a2)
    ensures a1.data.isCooldown && a2.data.isCooldown ==>
              choice.data.remaining <= a1.data.remaining && choice.data.remaining <= a2.data.remaining
    ensures a1.data.isCooldown && a2.data.isCooldown ==>
              (choice == a1 <==> a1.data.remaining < a2.data.remaining || a1 == a2)
  {
    if !a1.data.isCooldown && !a2.data.isCooldown then
      if original == a1.actionId then a1 else a2
    else if a1.data.isCooldown && a2.data.isCooldown then
      if a1.data.remaining < a2.data.remaining then a1 else a2
    else if a1.data.isCooldown then a2
    else a1
  }

  /** The left fold of Compare over the candidates, starting from acc. */
  function Aggregate(original: ActionId, acc: Candidate, rest: seq<Candidate>): (r: Candidate)
    ensures r == acc || r in rest
    decreases |rest|
  {
    if rest == [] then acc
    else Aggregate(original, Compare(original, acc, rest[0]), rest[1..])
  }

  /**
   * Picks among several actions by their cooldowns. An empty action list makes
   * the fold throw, as aggregating an empty sequence without a seed does.
   */
  function PickByCooldown(original: ActionId, actions: seq<ActionId>, snap: Snapshot): (r: Outcome)
    ensures r.Threw? <==> |actions| == 0
    ensures r.Returned? ==> r.id in actions
    ensures |actions| == 1 ==> r == Returned(actions[0])
  {
    if |actions| == 0 then Threw
    else
      var cands := Select(snap, actions);
      var picked := Aggregate(original, cands[0], cands[1..]);
      assert picked in cands;
      Returned(picked.actionId)
  }

  /** The fold only ever yields candidates that agree with the snapshot. */
  lemma {:induction false} AggregateConsistent(snap: Snapshot, original: ActionId, acc: Candidate, rest: seq<Candidate>)
    requires Consistent(snap, acc)
    requires forall k :: 0 <= k < |rest| ==> Consistent(snap, rest[k])
    ensures Consistent(snap, Aggregate(original, acc, rest))
  {
  }

  /** Once a ready candidate has been seen, the fold's result is ready. */
  lemma {:induction false} AggregateReady(original: ActionId, acc: Candidate, rest: seq<Candidate>)
    requires !acc.data.isCooldown || exists k :: 0 <= k < |rest| && !rest[k].data.isCooldown
    ensures !Aggregate(original, acc, rest).data.isCooldown
    decreases |rest|
  {
    if rest != [] {
      var next := Compare(original, acc, rest[0]);
      if next.data.isCooldown {
        var k :| 0 <= k < |rest| && !rest[k].data.isCooldown;
        assert k != 0;
        assert !rest[1..][k - 1].data.isCooldown;
      }
      AggregateReady(original, next, rest[1..]);
    }
  }

  /**
   * When every candidate is on cooldown, the fold yields one with the least
   * time left, and of several with that time the last: either the seed, with
   * every candidate strictly longer, or some rest[i] with every later
   * candidate strictly longer.
   */
  lemma {:induction false} AggregateShortest(original: ActionId, acc: Candidate, rest: seq<Candidate>)
    requires acc.data.isCooldown
    requires forall k :: 0 <= k < |rest| ==> rest[k].data.isCooldown
    ensures Aggregate(original, acc, rest).data.remaining <= acc.data.remaining
    ensures forall k :: 0 <= k < |rest| ==> Aggregate(original, acc, rest).data.remaining <= rest[k].data.remaining
    ensures || (Aggregate(original, acc, rest) == acc
                && forall k :: 0 <= k < |rest| ==> acc.data.remaining < rest[k].data.remaining)
            || (exists i :: 0 <= i < |rest| && Aggregate(original, acc, rest) == rest[i]
                              && forall k :: i < k < |rest| ==> rest[i].data.remaining < rest[k].data.remaining)
    decreases |rest|
  {
    if rest != [] {
      var next := Compare(original, acc, rest[0]);
      AggregateShortest(original, next, rest[1..]);
      var r := Aggregate(original, acc, rest);
      forall k | 0 <= k < |rest|
        ensures r.data.remaining <= rest[k].data.remaining
      {
        if k > 0 {
          assert rest[k] == rest[1..][k - 1];
        }
      }
      if r == next && forall k :: 0 <= k < |rest[1..]| ==> next.data.remaining < rest[1..][k].data.remaining {
        if next == rest[0] {
          forall k | 0 < k < |rest|
            ensures rest[0].data.remaining < rest[k].data.remaining
          {
            assert rest[k] == rest[1..][k - 1];
          }
        } else {
          forall k | 0 <= k < |rest|
            ensures acc.data.remaining < rest[k].data.remaining
          {
            if k > 0 {
              assert rest[k] == rest[1..][k - 1];
            }
          }
        }
      } else {
        var i :| 0 <= i < |rest[1..]| && r == rest[1..][i]
                 && forall k :: i < k < |rest[1..]| ==> rest[1..][i].data.remaining < rest[1..][k].data.remaining;
        forall k | i + 1 < k < |rest|
          ensures rest[i + 1].data.remaining < rest[k].data.remaining
        {
          assert rest[k] == rest[1..][k - 1];
        }
      }
    }
  }

  /** A ready seed survives a run of candidates that are all on cooldown. */
  lemma {:induction false} AggregateKeepsReady(original: ActionId, acc: Candidate, rest: seq<Candidate>)
    requires !acc.data.isCooldown
    requires forall k :: 0 <= k < |rest| ==> rest[k].data.isCooldown
    ensures Aggregate(original, acc, rest) == acc
    decreases |rest|
  {
    if rest != [] {
      AggregateKeepsReady(original, acc, rest[1..]);
    }
  }

  /**
   * With no ready candidate being the original, the last ready candidate wins:
   * if rest[i] is ready and everything after it is on cooldown, it is the result.
   */
  lemma {:induction false} AggregateLastReady(original: ActionId, acc: Candidate, rest: seq<Candidate>, i: nat)
    requires i < |rest|
    requires !rest[i].data.isCooldown
    requires forall k :: i < k < |rest| ==> rest[k].data.isCooldown
    requires !acc.data.isCooldown ==> acc.actionId != original
    requires forall k :: 0 <= k < |rest| && !rest[k].data.isCooldown ==> rest[k].actionId != original
    ensures Aggregate(original, acc, rest) == rest[i]
    decreases |rest|
  {
    var next := Compare(original, acc, rest[0]);
    if i == 0 {
      assert next == rest[0];
      AggregateKeepsReady(original, next, rest[1..]);
    } else {
      AggregateLastReady(original, next, rest[1..], i - 1);
    }
  }

  /** A ready original action, once it is in the running, is never given up. */
  lemma {:induction false} AggregateKeepsOriginal(snap: Snapshot, original: ActionId, acc: Candidate, rest: seq<Candidate>)
    requires !GetCooldown(snap, original).isCooldown
    requires Consistent(snap, acc)
    requires forall k :: 0 <= k < |rest| ==> Consistent(snap, rest[k])
    requires acc.actionId == original || exists k :: 0 <= k < |rest| && rest[k].actionId == original
    ensures Aggregate(original, acc, rest).actionId == original
    decreases |rest|
  {
    if rest != [] {
      var next := Compare(original, acc, rest[0]);
      assert next.actionId == original || exists k :: 0 <= k < |rest[1..]| && rest[1..][k].actionId == original by {
        if acc.actionId != original && rest[0].actionId != original {
          var k :| 0 <= k < |rest| && rest[k].actionId == original;
          assert rest[1..][k - 1].actionId == original;
        }
      }
      assert Consistent(snap, next);
      AggregateKeepsOriginal(snap, original, next, rest[1..]);
    }
  }

  /** When every candidate is ready and none is the original, the last one wins. */
  lemma {:induction false} AggregateLastWhenAllReady(original: ActionId, acc: Candidate, rest: seq<Candidate>)
    requires |rest| > 0
    requires !acc.data.isCooldown && acc.actionId != original
    requires forall k :: 0 <= k < |rest| ==> !rest[k].data.isCooldown && rest[k].actionId != original
    ensures Aggregate(original, acc, rest) == rest[|rest| - 1]
    decreases |rest|
  {
    if |rest| > 1 {
      AggregateLastWhenAllReady(original, rest[0], rest[1..]);
    }
  }

  /** If any candidate is ready, PickByCooldown picks a ready one. */
  lemma PickByCooldownPrefersReady(original: ActionId, actions: seq<ActionId>, snap: Snapshot)
    requires exists i :: 0 <= i < |actions| && !GetCooldown(snap, actions[i]).isCooldown
    ensures PickByCooldown(original, actions, snap).Returned?
    ensures !GetCooldown(snap, PickByCooldown(original, actions, snap).id).isCooldown
  {
    var cands := Select(snap, actions);
    var i :| 0 <= i < |actions| && !GetCooldown(snap, actions[i]).isCooldown;
    if i > 0 {
      assert !cands[1..][i - 1].data.isCooldown;
    }
    AggregateReady(original, cands[0], cands[1..]);
    AggregateConsistent(snap, original, cands[0], cands[1..]);
  }

  /**
   * If every candidate is on cooldown, PickByCooldown picks one with the
   * least time left, and of several with that time the last one listed.
   */
  lemma PickByCooldownShortest(original: ActionId, actions: seq<ActionId>, snap: Snapshot)
    requires |actions| > 0
    requires forall i :: 0 <= i < |actions| ==> GetCooldown(snap, actions[i]).isCooldown
    ensures PickByCooldown(original, actions, snap).Returned?
    ensures forall i :: 0 <= i < |actions| ==>
              GetCooldown(snap, PickByCooldown(original, actions, snap).id).remaining
              <= GetCooldown(snap, actions[i]).remaining
    ensures exists i :: 0 <= i < |actions| && PickByCooldown(original, actions, snap) == Returned(actions[i])
              && forall j :: i < j < |actions| ==>
                   GetCooldown(snap, actions[i]).remaining < GetCooldown(snap, actions[j]).remaining
  {
    var cands := Select(snap, actions);
    AggregateShortest(original, cands[0], cands[1..]);
    AggregateConsistent(snap, original, cands[0], cands[1..]);
    var r := Aggregate(original, cands[0], cands[1..]);
    forall i | 0 <= i < |actions|
      ensures r.data.remaining <= GetCooldown(snap, actions[i]).remaining
    {
      if i > 0 {
        assert cands[i] == cands[1..][i - 1];
      }
    }
    if r == cands[0] && forall k :: 0 <= k < |cands[1..]| ==> cands[0].data.remaining < cands[1..][k].data.remaining {
      forall j | 0 < j < |actions|
        ensures GetCooldown(snap, actions[0]).remaining < GetCooldown(snap, actions[j]).remaining
      {
        assert cands[j] == cands[1..][j - 1];
      }
    } else {
      var i :| 0 <= i < |cands[1..]| && r == cands[1..][i]
               && forall k :: i < k < |cands[1..]| ==> cands[1..][i].data.remaining < cands[1..][k].data.remaining;
      assert r == cands[i + 1];
      forall j | i + 1 < j < |actions|
        ensures GetCooldown(snap, actions[i + 1]).remaining < GetCooldown(snap, actions[j]).remaining
      {
        assert cands[j] == cands[1..][j - 1];
      }
    }
  }

  /**
   * When the original is not a ready candidate, PickByCooldown picks the last
   * ready action listed: actions[i] when it is ready and every later action is
   * on cooldown.
   */
  lemma PickByCooldownLastReady(original: ActionId, actions: seq<ActionId>, snap: Snapshot, i: nat)
    requires i < |actions|
    requires !GetCooldown(snap, actions[i]).isCooldown
    requires forall k :: i < k < |actions| ==> GetCooldown(snap, actions[k]).isCooldown
    requires original !in actions || GetCooldown(snap, original).isCooldown
    ensures PickByCooldown(original, actions, snap) == Returned(actions[i])
  {
    var cands := Select(snap, actions);
    if i == 0 {
      AggregateKeepsReady(original, cands[0], cands[1..]);
    } else {
      assert cands[1..][i - 1] == cands[i];
      AggregateLastReady(original, cands[0], cands[1..], i - 1);
    }
  }

  /** A ready original action among the candidates is always kept. */
  lemma PickByCooldownKeepsReadyOriginal(original: ActionId, actions: seq<ActionId>, snap: Snapshot)
    requires original in actions
    requires !GetCooldown(snap, original).isCooldown
    ensures PickByCooldown(original, actions, snap) == Returned(original)
  {
    var cands := Select(snap, actions);
    var i :| 0 <= i < |actions| && actions[i] == original;
    if i > 0 {
      assert cands[1..][i - 1].actionId == original;
    }
    AggregateKeepsOriginal(snap, original, cands[0], cands[1..]);
  }

  /** With every candidate ready and the original not among them, the last candidate is picked. */
  lemma PickByCooldownLastWhenAllReady(original: ActionId, actions: seq<ActionId>, snap: Snapshot)
    requires |actions| > 0
    requires original !in actions
    requires forall i :: 0 <= i < |actions| ==> !GetCooldown(snap, actions[i]).isCooldown
    ensures PickByCooldown(original, actions, snap) == Returned(actions[|actions| - 1])
  {
    var cands := Select(snap, actions);
    if |actions| > 1 {
      AggregateLastWhenAllReady(original, cands[0], cands[1..]);
    }
  }

  // ---------------------------------------------------------------------
  // Combo-chain inference
  // ---------------------------------------------------------------------

  /** One step of a combo chain: the level it unlocks at and its action. */
  datatype Step = Step(lvl: Byte, id: ActionId)

  /** Step i can follow: the level gate is met and the previous step was the last action. */
  predicate Advances(level: Byte, last: ActionId, sequence: seq<Step>, i: int)
    requires 1 <= i < |sequence|
  {
    level >= sequence[i].lvl && sequence[i - 1].id == last
  }

  /** The furthest step below n (and at least 1) that can follow, if any. */
  function LatestStep(level: Byte, last: ActionId, sequence: seq<Step>, n: nat): (k: Option<nat>)
    requires n <= |sequence|
    ensures k.Some? ==> 1 <= k.value < n && Advances(level, last, sequence, k.value)
    ensures k.Some? ==> forall j :: k.value < j < n ==> !Advances(level, last, sequence, j)
    ensures k.None? ==> forall j :: 1 <= j < n ==> !Advances(level, last, sequence, j)
    decreases n
  {
    if n <= 1 then None
    else if Advances(level, last, sequence, n - 1) then Some(n - 1)
    else LatestStep(level, last, sequence, n - 1)
  }

  /**
   * The chain step to use: with the chain running (time > 0), the furthest
   * step whose predecessor was just used and whose level gate is met;
   * otherwise, or when there is none, the first step. An empty sequence
   * makes the indexing of its first element throw.
   */
  function ChainStep(level: Byte, last: ActionId, time: real, sequence: seq<Step>): (r: Outcome)
    ensures r.Threw? <==> |sequence| == 0
    ensures r.Returned? ==> exists i :: 0 <= i < |sequence| && sequence[i].id == r.id
    ensures |sequence| > 0 && time <= 0.0 ==> r == Returned(sequence[0].id)
    ensures time > 0.0 ==>
              forall i :: (1 <= i < |sequence| && Advances(level, last, sequence, i)
                           && (forall j :: i < j < |sequence| ==> !Advances(level, last, sequence, j)))
                          ==> r == Returned(sequence[i].id)
    ensures (|sequence| > 0 && forall i :: 1 <= i < |sequence| ==> !Advances(level, last, sequence, i))
              ==> r == Returned(sequence[0].id)
  {
    if |sequence| == 0 then Threw
    else if time > 0.0 then
      match LatestStep(level, last, sequence, |sequence|)
      case Some(i) => Returned(sequence[i].id)
      case None => Returned(sequence[0].id)
    else Returned(sequence[0].id)
  }

  /** Scans the chain backwards for the step to use, as the plugin's loop does. */
  method SimpleChainCombo(level: Byte, last: ActionId, time: real, sequence: seq<Step>) returns (r: Outcome)
    ensures r == ChainStep(level, last, time, sequence)
  {
    if time > 0.0 {
      var i := |sequence| - 1;
      while i > 0
        invariant -1 <= i < |sequence|
        invariant LatestStep(level, last, sequence, |sequence|) == LatestStep(level, last, sequence, i + 1)
        decreases i
      {
        var step := sequence[i];
        var prev := sequence[i - 1].id;
        if level >= step.lvl && prev == last {
          return Returned(step.id);
        }
        i := i - 1;
      }
    }
    if |sequence| == 0 {
      return Threw;
    }
    return Returned(sequence[0].id);
  }

  /** The three chain examples: advance to the third step, reset, and a failed level gate. */
  lemma ChainStepExamples(x: ActionId, y: ActionId, z: ActionId)
    requires x != y && y != z && x != z
    ensures ChainStep(30, y, 2.0, [Step(1, x), Step(2, y), Step(18, z)]) == Returned(z)
    ensures ChainStep(30, y, 0.0, [Step(1, x), Step(2, y), Step(18, z)]) == Returned(x)
    ensures ChainStep(10, y, 2.0, [Step(1, x), Step(2, y), Step(18, z)]) == Returned(x)
  {
  }
}
