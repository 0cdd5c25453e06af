/**
 * A harness around the rules: the plugin walks its registered rules in order
 * and keeps the first substitution any of them makes. That registration loop
 * is not modelled; this module states it as a fold over Substitution so
 * that what a rule's guard and failure boundary mean for a whole list of
 * rules can be proved.
 */
module Dispatcher {
  import opened Wrappers
  import opened GameState
  import opened CustomCombo

  /** The first substitution made by any rule in registration order, if one is made. */
  function Dispatch(combos: seq<Combo>, req: Request, snap: Snapshot): (r: Option<ActionId>)
    ensures r.Some? ==> exists i :: 0 <= i < |combos| && Substitution(combos[i], req, snap) == r
                                   && forall j :: 0 <= j < i ==> Substitution(combos[j], req, snap).None?
    ensures r.None? ==> forall i :: 0 <= i < |combos| ==> Substitution(combos[i], req, snap).None?
  {
    if combos == [] then None
    else
      var first := Substitution(combos[0], req, snap);
      if first.Some? then first
      else
        var r := Dispatch(combos[1..], req, snap);
        assert forall i :: 1 <= i < |combos| ==> combos[i] == combos[1..][i - 1];
        r
  }

  /** The earliest rule that substitutes decides the result; later rules never override it. */
  lemma FirstMatchWins(combos: seq<Combo>, i: nat, req: Request, snap: Snapshot)
    requires i < |combos|
    requires Substitution(combos[i], req, snap).Some?
    requires forall j :: 0 <= j < i ==> Substitution(combos[j], req, snap).None?
    ensures Dispatch(combos, req, snap) == Substitution(combos[i], req, snap)
  {
  }

  /** A rule whose decision throws is skipped as if it were not registered. */
  lemma {:induction false} FaultContained(before: seq<Combo>, faulty: Combo, after: seq<Combo>, req: Request, snap: Snapshot)
    requires faulty.invoke(req, snap) == Threw
    ensures Dispatch(before + [faulty] + after, req, snap) == Dispatch(before + after, req, snap)
    decreases |before|
  {
    FaultIsNoSubstitution(faulty, req, snap);
    if before == [] {
      var withFaulty := before + [faulty] + after;
      assert withFaulty[0] == faulty && withFaulty[1..] == after;
      assert before + after == after;
      assert Dispatch(withFaulty, req, snap) == Dispatch(after, req, snap);
    } else {
      FaultContained(before[1..], faulty, after, req, snap);
      assert (before + [faulty] + after)[0] == before[0];
      assert (before + [faulty] + after)[1..] == before[1..] + [faulty] + after;
      assert (before + after)[0] == before[0];
      assert (before + after)[1..] == before[1..] + after;
    }
  }

  /** Without a local player no rule substitutes anything. */
  lemma NoPlayerNoSubstitution(combos: seq<Combo>, req: Request, snap: Snapshot)
    requires snap.localPlayerJob.None?
    ensures Dispatch(combos, req, snap) == None
  {
  }
}
