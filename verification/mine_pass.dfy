/** What happens when the only choice offered is `DoNothing`.

    The menu offers a lone `DoNothing` so that the player is never left
    without a choice, but the progress callback ignores `DoNothing`. In the
    gain step, when no buyable treasure is within the ceiling, the record is
    therefore unchanged after the pass, the next menu is again `[DoNothing]`,
    and the sequence never reaches completion. This module shows that for the
    callback as written, and gives a callback in which a pass resolves the
    pending step, with the completion property the protocol intends proved
    about it. */
module MinePass {
  import opened Cards
  import opened MineAction
  import opened MineRuns

  /** The number of steps still outstanding. */
  function Pending(m: Mine): (n: nat)
    ensures n <= 2
    ensures n == 0 <==> ExecutionComplete(m)
  {
    (if m.trashedCard then 0 else 1) + (if m.gainedCard then 0 else 1)
  }

  /** `n` passes in a row, each chosen from a menu built with `supply`. */
  function Passes(supply: seq<CardType>, n: nat): (steps: seq<Step>)
    ensures |steps| == n
    ensures forall i :: 0 <= i < n ==> steps[i] == Step([], supply, DoNothing)
  {
    seq(n, _ => Step([], supply, DoNothing))
  }

  /** As written: once a card is trashed and nothing buyable is an affordable
      treasure, the executor can follow the menu for any number of steps and
      the record never changes, so the sequence never completes. */
  lemma {:induction false} AsWrittenPassStalls(m: Mine, supply: seq<CardType>, n: nat)
    requires m.trashedCard && !m.gainedCard
    requires forall c :: c in supply ==> !AffordableTreasure(c, GainCeiling(m))
    ensures MenuDriven(m, Passes(supply, n))
    ensures Run(m, Chosen(Passes(supply, n))) == m
    ensures !ExecutionComplete(Run(m, Chosen(Passes(supply, n))))
    decreases n
  {
    if n > 0 {
      var steps := Passes(supply, n);
      assert FollowOnActions(m, [], supply) == [DoNothing];
      assert RegisterActionTaken(m, DoNothing) == m;
      AsWrittenPassStalls(m, supply, n - 1);
      assert steps[1..] == Passes(supply, n - 1);
      assert steps[0].chosen == DoNothing;
      RunOfSteps(m, steps);
    }
  }

  /** A concrete instance: player 0 has trashed a Copper (value 0), and the
      only buyable treasure is a Gold (cost 6 > 0 + 3). */
  lemma AsWrittenPassStallsOnGoldOnly()
    ensures var m := Mine(0, true, false, 0);
      var supply := [CardType("Gold", 6, true)];
      && FollowOnActions(m, [], supply) == [DoNothing]
      && RegisterActionTaken(m, DoNothing) == m
      && !ExecutionComplete(RegisterActionTaken(m, DoNothing))
  {
  }

  /** The callback with the pass resolving the step it was offered for: in the
      trash step (nothing to trash) the action ends, in the gain step (nothing
      to gain) the gain step ends. Every other action is handled as written. */
  function RegisterActionTakenResolvingPass(m: Mine, action: Action): (r: Mine)
    ensures action != DoNothing ==> r == RegisterActionTaken(m, action)
    ensures action == DoNothing && !ExecutionComplete(m) ==> Pending(r) < Pending(m)
    ensures r.player == m.player && r.trashValue == RegisterActionTaken(m, action).trashValue
    ensures m.trashedCard ==> r.trashedCard
    ensures m.gainedCard ==> r.gainedCard
  {
    if action != DoNothing then RegisterActionTaken(m, action)
    else if !m.trashedCard then m.(trashedCard := true, gainedCard := true)
    else m.(gainedCard := true)
  }

  function RunResolvingPass(m: Mine, actions: seq<Action>): Mine
    decreases |actions|
  {
    if |actions| == 0 then m
    else RunResolvingPass(RegisterActionTakenResolvingPass(m, actions[0]), actions[1..])
  }

  /** The executor's protocol with the corrected callback. */
  predicate MenuDrivenResolvingPass(m: Mine, steps: seq<Step>)
    decreases |steps|
  {
    |steps| == 0
    || (&& !ExecutionComplete(m)
        && steps[0].chosen in FollowOnActions(m, steps[0].hand, steps[0].supply)
        && MenuDrivenResolvingPass(RegisterActionTakenResolvingPass(m, steps[0].chosen), steps[1..]))
  }

  /** With the corrected callback, every choice taken from the menu resolves
      at least one outstanding step. */
  lemma MenuChoiceMakesProgress(m: Mine, hand: seq<CardType>, supply: seq<CardType>, a: Action)
    requires !ExecutionComplete(m)
    requires a in FollowOnActions(m, hand, supply)
    ensures Pending(RegisterActionTakenResolvingPass(m, a)) < Pending(m)
  {
  }

  /** With the corrected callback the sequence always ends: a run that follows
      the menu has at most as many steps as were outstanding (so at most two),
      and each step resolves at least one of them. */
  lemma {:induction false} ResolvingPassCompletes(m: Mine, steps: seq<Step>)
    requires MenuDrivenResolvingPass(m, steps)
    ensures |steps| <= Pending(m)
    ensures Pending(RunResolvingPass(m, Chosen(steps))) + |steps| <= Pending(m)
    decreases |steps|
  {
    if |steps| > 0 {
      var next := RegisterActionTakenResolvingPass(m, steps[0].chosen);
      MenuChoiceMakesProgress(m, steps[0].hand, steps[0].supply, steps[0].chosen);
      ResolvingPassCompletes(next, steps[1..]);
      assert Chosen(steps)[1..] == Chosen(steps[1..]);
    }
  }

  /** In particular, every run from a newly played Mine that follows the menu
      for two steps leaves the action complete. */
  lemma ResolvingPassCompletesAfterTwoSteps(player: int, steps: seq<Step>)
    requires MenuDrivenResolvingPass(NewMine(player), steps)
    requires |steps| == 2
    ensures ExecutionComplete(RunResolvingPass(NewMine(player), Chosen(steps)))
  {
    ResolvingPassCompletes(NewMine(player), steps);
  }
}
