/** Properties of Mine that relate several calls: runs of the progress
    callback, the menus' shape, and the value semantics of the record. */
module MineRuns {
  import opened Cards
  import opened Seqs
  import opened MineAction

  /** The record after the progress callback has been told of each action in
      turn. */
  function Run(m: Mine, actions: seq<Action>): Mine
    decreases |actions|
  {
    if |actions| == 0 then m else Run(RegisterActionTaken(m, actions[0]), actions[1..])
  }

  /** One decision of a run: the hand and buyable kinds when the menu was
      built, and the action chosen from it. */
  datatype Step = Step(hand: seq<CardType>, supply: seq<CardType>, chosen: Action)

  function Chosen(steps: seq<Step>): (r: seq<Action>)
    ensures |r| == |steps|
    ensures forall i :: 0 <= i < |steps| ==> r[i] == steps[i].chosen
  {
    seq(|steps|, i requires 0 <= i < |steps| => steps[i].chosen)
  }

  /** The executor's protocol: before every step the action is not complete,
      and the chosen action is one the menu offered. */
  predicate MenuDriven(m: Mine, steps: seq<Step>)
    decreases |steps|
  {
    |steps| == 0
    || (&& !ExecutionComplete(m)
        && steps[0].chosen in FollowOnActions(m, steps[0].hand, steps[0].supply)
        && MenuDriven(RegisterActionTaken(m, steps[0].chosen), steps[1..]))
  }

  /** Over any run the player is fixed, both flags only go from false to true,
      and a captured trash value is never overwritten. */
  lemma {:induction false} RunMonotone(m: Mine, actions: seq<Action>)
    ensures Run(m, actions).player == m.player
    ensures m.trashedCard ==> Run(m, actions).trashedCard
    ensures m.gainedCard ==> Run(m, actions).gainedCard
    ensures m.trashedCard ==> Run(m, actions).trashValue == m.trashValue
    ensures ExecutionComplete(m) ==> ExecutionComplete(Run(m, actions))
    decreases |actions|
  {
    if |actions| > 0 {
      RunMonotone(RegisterActionTaken(m, actions[0]), actions[1..]);
    }
  }

  /** The whole sequence is played by the player who played Mine: from the
      entry test through any run, the current player never changes. */
  lemma {:induction false} CurrentPlayerIsActingPlayer(player: int, hand: seq<CardType>, actions: seq<Action>)
    ensures CurrentPlayer(Run(Execute(NewMine(player), hand).mine, actions)) == player
  {
    RunMonotone(Execute(NewMine(player), hand).mine, actions);
  }

  /** The first trash by the acting player fixes the captured value: if the
      action at position `k` is that player's first trash, the value after the
      whole run is the cost of the card trashed at `k`. */
  lemma {:induction false} FirstTrashWins(m: Mine, actions: seq<Action>, k: nat)
    requires !m.trashedCard
    requires k < |actions|
    requires IsOwnTrash(m.player, actions[k])
    requires forall i :: 0 <= i < k ==> !IsOwnTrash(m.player, actions[i])
    ensures Run(m, actions).trashedCard
    ensures Run(m, actions).trashValue == actions[k].trashedCard.cost
    decreases |actions|
  {
    var next := RegisterActionTaken(m, actions[0]);
    if k == 0 {
      RunMonotone(next, actions[1..]);
    } else {
      assert !next.trashedCard;
      assert forall i :: 0 <= i < k - 1 ==> actions[1..][i] == actions[i + 1];
      FirstTrashWins(next, actions[1..], k - 1);
    }
  }

  /** Without any trash by the acting player the trash flag stays clear and
      the captured value stays what it was. */
  lemma {:induction false} NoOwnTrashKeepsValue(m: Mine, actions: seq<Action>)
    requires !m.trashedCard
    requires forall i :: 0 <= i < |actions| ==> !IsOwnTrash(m.player, actions[i])
    ensures !Run(m, actions).trashedCard
    ensures Run(m, actions).trashValue == m.trashValue
    decreases |actions|
  {
    if |actions| > 0 {
      assert !IsOwnTrash(m.player, actions[0]);
      NoOwnTrashKeepsValue(RegisterActionTaken(m, actions[0]), actions[1..]);
    }
  }

  /** Actions by other players, and actions that are neither a trash nor a
      gain, never change the record however many of them come. */
  lemma {:induction false} ForeignActionsChangeNothing(m: Mine, actions: seq<Action>)
    requires forall i :: 0 <= i < |actions| ==> !IsOwnStep(m.player, actions[i])
    ensures Run(m, actions) == m
    decreases |actions|
  {
    if |actions| > 0 {
      ForeignActionsChangeNothing(m, actions[1..]);
    }
  }

  /** Two copies of one treasure kind in hand give exactly one trash choice
      for that kind, and no other card is offered. */
  lemma TrashMenuOneEntryPerKind(m: Mine, hand: seq<CardType>, supply: seq<CardType>, c: CardType)
    requires !m.trashedCard
    ensures c in hand && IsTreasureCard(c) ==>
      multiset(FollowOnActions(m, hand, supply))[TrashCard(c, m.player)] == 1
    ensures !(c in hand && IsTreasureCard(c)) ==>
      forall p :: TrashCard(c, p) !in FollowOnActions(m, hand, supply)
  {
    if c in hand && IsTreasureCard(c) {
      NoDuplicatesCountsOne(FollowOnActions(m, hand, supply), TrashCard(c, m.player));
    }
  }

  /** The gain menu is not de-duplicated: each affordable treasure is offered
      as many times as it appears among the buyable kinds. */
  lemma GainMenuKeepsRepeats(m: Mine, hand: seq<CardType>, supply: seq<CardType>, c: CardType)
    requires m.trashedCard && !m.gainedCard
    requires AffordableTreasure(c, GainCeiling(m))
    ensures multiset(FollowOnActions(m, hand, supply))[GainCard(c, m.player, Hand)] == multiset(supply)[c]
  {
    GainOptionsCounts(supply, m.player, GainCeiling(m), c);
    if c in supply {
      assert GainCard(c, m.player, Hand) in GainOptions(supply, m.player, GainCeiling(m));
    }
  }

  /** Every choice on the menu is of the step that is pending: before the
      trash only the acting player's trash of a treasure in hand, after it
      only the acting player's gain of a treasure within the ceiling. */
  lemma MenuChoiceMatchesPendingStep(m: Mine, hand: seq<CardType>, supply: seq<CardType>, a: Action)
    requires !ExecutionComplete(m)
    requires a in FollowOnActions(m, hand, supply)
    ensures a.TrashCard? ==>
      !m.trashedCard && a.player == m.player && IsTreasureCard(a.trashedCard) && a.trashedCard in hand
    ensures a.GainCard? ==>
      m.trashedCard && a.buyingPlayer == m.player && AffordableTreasure(a.cardType, GainCeiling(m))
    ensures a.DoNothing? || a.TrashCard? || a.GainCard?
  {
  }

  /** The executor's protocol, one step at a time: the first choice came from
      the menu of a state that was not complete, and the rest of the run
      follows the menu from the successor. */
  lemma MenuDrivenStep(m: Mine, steps: seq<Step>)
    requires MenuDriven(m, steps)
    requires |steps| > 0
    ensures !ExecutionComplete(m)
    ensures steps[0].chosen in FollowOnActions(m, steps[0].hand, steps[0].supply)
    ensures MenuDriven(RegisterActionTaken(m, steps[0].chosen), steps[1..])
  {
  }

  /** Under the executor's protocol the trash accepted at position `i` is of
      a treasure that was in hand when it was chosen. */
  lemma {:induction false} MenuDrivenTrashesTreasures(m: Mine, steps: seq<Step>, i: nat)
    requires MenuDriven(m, steps)
    requires i < |steps| && steps[i].chosen.TrashCard?
    ensures IsTreasureCard(steps[i].chosen.trashedCard) && steps[i].chosen.trashedCard in steps[i].hand
    decreases i
  {
    MenuDrivenStep(m, steps);
    if i == 0 {
      MenuChoiceMatchesPendingStep(m, steps[0].hand, steps[0].supply, steps[0].chosen);
    } else {
      assert steps[i] == steps[1..][i - 1];
      MenuDrivenTrashesTreasures(RegisterActionTaken(m, steps[0].chosen), steps[1..], i - 1);
    }
  }

  /** Following the menu, the run from a state is the run from its successor. */
  lemma RunOfSteps(m: Mine, steps: seq<Step>)
    requires |steps| > 0
    ensures Run(m, Chosen(steps)) == Run(RegisterActionTaken(m, steps[0].chosen), Chosen(steps[1..]))
  {
    assert Chosen(steps)[1..] == Chosen(steps[1..]);
  }

  /** Under the executor's protocol a gain never comes before the trash. */
  lemma {:induction false} MenuDrivenGainsAfterTrash(m: Mine, steps: seq<Step>)
    requires MenuDriven(m, steps)
    requires m.gainedCard ==> m.trashedCard
    ensures Run(m, Chosen(steps)).gainedCard ==> Run(m, Chosen(steps)).trashedCard
    decreases |steps|
  {
    if |steps| > 0 {
      var next := RegisterActionTaken(m, steps[0].chosen);
      MenuChoiceMatchesPendingStep(m, steps[0].hand, steps[0].supply, steps[0].chosen);
      MenuDrivenGainsAfterTrash(next, steps[1..]);
      RunOfSteps(m, steps);
    }
  }

  /** Under the executor's protocol the gain accepted at position `i` respects
      the ceiling set by the trash that came before it. */
  lemma {:induction false} MenuDrivenRespectsCeiling(m: Mine, steps: seq<Step>, i: nat)
    requires MenuDriven(m, steps)
    requires i < |steps| && steps[i].chosen.GainCard?
    ensures AffordableTreasure(steps[i].chosen.cardType, GainCeiling(Run(m, Chosen(steps))))
    decreases i
  {
    var next := RegisterActionTaken(m, steps[0].chosen);
    RunOfSteps(m, steps);
    if i == 0 {
      MenuChoiceMatchesPendingStep(m, steps[0].hand, steps[0].supply, steps[0].chosen);
      RunMonotone(next, Chosen(steps[1..]));
    } else {
      assert steps[i] == steps[1..][i - 1];
      MenuDrivenRespectsCeiling(next, steps[1..], i - 1);
    }
  }

  /** Equality is value equality of the record, and never holds against
      something that is not a Mine. */
  lemma EqualsIsValueEquality(a: Mine, b: Mine)
    ensures Equals(a, AMine(b)) <==> a == b
    ensures !Equals(a, NotAMine)
  {
  }

  /** Equality is reflexive, symmetric and transitive. */
  lemma EqualsIsEquivalence(a: Mine, b: Mine, c: Mine)
    ensures Equals(a, AMine(a))
    ensures Equals(a, AMine(b)) ==> Equals(b, AMine(a))
    ensures Equals(a, AMine(b)) && Equals(b, AMine(c)) ==> Equals(a, AMine(c))
  {
  }

  /** Equal records hash equally, whatever hash the MINE tag has. */
  lemma HashConsistentWithEquals(a: Mine, b: Mine, mineTagHash: int)
    requires Equals(a, AMine(b))
    ensures HashCode(a, mineTagHash) == HashCode(b, mineTagHash)
  {
  }
}
