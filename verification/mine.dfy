/** The Mine card as an extended action sequence: first trash a treasure from
    the acting player's hand, then gain a treasure costing at most the trashed
    card's cost plus a bonus, straight into that hand.

    The action's progress is an immutable record; the engine's in-place
    updates become functions returning the updated record. The game state is
    reduced to the two things Mine reads: the acting player's hand and the
    kinds currently offered for purchase. */
module MineAction {
  import opened Cards
  import opened Seqs
  import opened Hashing

  /** How much more than the trashed card the gained treasure may cost. */
  const BonusOverTrashedValue: int := 3

  /** Progress of one Mine played by `player`. `trashValue` is the cost of the
      trashed card once `trashedCard` is set (0 before). */
  datatype Mine = Mine(player: int, trashedCard: bool, gainedCard: bool, trashValue: int)

  /** A freshly played Mine: nothing trashed, nothing gained. */
  function NewMine(player: int): (m: Mine)
    ensures m.player == player
    ensures !m.trashedCard && !m.gainedCard && m.trashValue == 0
  {
    Mine(player, false, false, 0)
  }

  /** The sequence is over once both steps have happened; from then on the
      progress callback leaves the record as it is. */
  function ExecutionComplete(m: Mine): (done: bool)
    ensures done <==> m.trashedCard && m.gainedCard
    ensures done ==> forall a :: RegisterActionTaken(m, a) == m
  {
    m.trashedCard && m.gainedCard
  }

  /** The player who chooses the next step: always the one who played Mine,
      whatever the entry test or the progress callback does. */
  function CurrentPlayer(m: Mine): (p: int)
    ensures p == m.player
    ensures forall hand :: Execute(m, hand).mine.player == p
    ensures forall a :: RegisterActionTaken(m, a).player == p
  {
    m.player
  }

  /** The most the gained treasure may cost. */
  function GainCeiling(m: Mine): int
  {
    m.trashValue + BonusOverTrashedValue
  }

  // ---------------------------------------------------------------------
  // Entry test

  /** What playing Mine did: whether more steps follow, whether the action
      registered itself with the game as the action in progress, and the
      updated progress record. */
  datatype Execution = Execution(moreSteps: bool, registeredInProgress: bool, mine: Mine)

  /** The entry test. With a treasure in hand Mine becomes the action in
      progress and asks for more steps; without one it marks both steps done
      and finishes at once. */
  function Execute(m: Mine, hand: seq<CardType>): (r: Execution)
    ensures r.registeredInProgress == r.moreSteps
    ensures r.moreSteps <==> (exists c :: c in hand && IsTreasureCard(c))
    ensures r.moreSteps <==> TrashOptions(hand, m.player) != []
    ensures r.moreSteps ==> r.mine == m
    ensures !r.moreSteps ==> ExecutionComplete(r.mine)
    ensures r.mine.player == m.player && r.mine.trashValue == m.trashValue
  {
    if exists c :: c in hand && IsTreasureCard(c) then
      Execution(true, true, m)
    else
      Execution(false, false, m.(trashedCard := true, gainedCard := true))
  }

  // ---------------------------------------------------------------------
  // Menus

  /** One trash choice per treasure card in hand, in hand order, repeats kept. */
  function TrashCandidates(hand: seq<CardType>, player: int): (r: seq<Action>)
    ensures forall a :: a in r ==>
      a.TrashCard? && a.player == player && IsTreasureCard(a.trashedCard) && a.trashedCard in hand
    ensures forall c :: c in hand && IsTreasureCard(c) ==> TrashCard(c, player) in r
    ensures r == [] <==> forall c :: c in hand ==> !IsTreasureCard(c)
  {
    if |hand| == 0 then []
    else
      var last := hand[|hand| - 1];
      TrashCandidates(hand[..|hand| - 1], player)
        + (if IsTreasureCard(last) then [TrashCard(last, player)] else [])
  }

  /** The trash step's choices: the trash candidates with repeats removed. */
  function TrashOptions(hand: seq<CardType>, player: int): (r: seq<Action>)
    ensures NoDuplicates(r)
    ensures forall a :: a in r ==>
      a.TrashCard? && a.player == player && IsTreasureCard(a.trashedCard) && a.trashedCard in hand
    ensures forall c :: c in hand && IsTreasureCard(c) ==> TrashCard(c, player) in r
    ensures r == [] <==> forall c :: c in hand ==> !IsTreasureCard(c)
  {
    Distinct(TrashCandidates(hand, player))
  }

  /** The gain step's choices: every buyable treasure whose cost is within
      `ceiling`, into the hand, in supply order. Repeats are not removed. */
  function GainOptions(supply: seq<CardType>, player: int, ceiling: int): (r: seq<Action>)
    ensures forall a :: a in r ==>
      a.GainCard? && a.buyingPlayer == player && a.destination == Hand
      && AffordableTreasure(a.cardType, ceiling) && a.cardType in supply
    ensures r == [] <==> forall c :: c in supply ==> !AffordableTreasure(c, ceiling)
  {
    if |supply| == 0 then []
    else
      var last := supply[|supply| - 1];
      GainOptions(supply[..|supply| - 1], player, ceiling)
        + (if AffordableTreasure(last, ceiling) then [GainCard(last, player, Hand)] else [])
  }

  /** The menu for the next step: the trash choices while nothing is trashed,
      then the gain choices; a lone `DoNothing` when there is no choice.
      Asking once both steps are done is a defect of the caller. */
  function FollowOnActions(m: Mine, hand: seq<CardType>, supply: seq<CardType>): (r: seq<Action>)
    requires !ExecutionComplete(m)
    ensures r != []
    ensures DoNothing in r ==> r == [DoNothing]
    ensures !m.trashedCard ==>
      && (r == [DoNothing] <==> forall c :: c in hand ==> !IsTreasureCard(c))
      && (r != [DoNothing] ==> r == TrashOptions(hand, m.player))
    ensures m.trashedCard ==>
      && (r == [DoNothing] <==> forall c :: c in supply ==> !AffordableTreasure(c, GainCeiling(m)))
      && (r != [DoNothing] ==> r == GainOptions(supply, m.player, GainCeiling(m)))
  {
    var candidates :=
      if !m.trashedCard then TrashOptions(hand, m.player)
      else GainOptions(supply, m.player, GainCeiling(m));
    if candidates == [] then [DoNothing]
    else
      assert candidates[0] in candidates;
      candidates
  }

  // ---------------------------------------------------------------------
  // Progress callback

  /** Whether `action` is a trash carried out by `player`. */
  predicate IsOwnTrash(player: int, action: Action)
  {
    action.TrashCard? && action.player == player
  }

  /** Whether `action` is a gain carried out by `player`. */
  predicate IsOwnGain(player: int, action: Action)
  {
    action.GainCard? && action.buyingPlayer == player
  }

  /** Whether `action` is one of `player`'s own trash or gain steps. */
  predicate IsOwnStep(player: int, action: Action)
  {
    IsOwnTrash(player, action) || IsOwnGain(player, action)
  }

  /** Told that `action` has just been carried out. The acting player's first
      trash sets `trashedCard` and records the trashed card's cost; the acting
      player's gain sets `gainedCard`. Nothing else changes anything. */
  function RegisterActionTaken(m: Mine, action: Action): (r: Mine)
    ensures r.player == m.player
    ensures m.trashedCard ==> r.trashedCard
    ensures m.gainedCard ==> r.gainedCard
    ensures m.trashedCard ==> r.trashValue == m.trashValue
    ensures IsOwnTrash(m.player, action) ==>
      r.trashedCard && (!m.trashedCard ==> r.trashValue == action.trashedCard.cost)
    ensures IsOwnGain(m.player, action) ==> r.gainedCard
    ensures r.trashedCard != m.trashedCard || r.trashValue != m.trashValue ==>
      IsOwnTrash(m.player, action) && !m.trashedCard
    ensures r.gainedCard != m.gainedCard ==> IsOwnGain(m.player, action)
    ensures !IsOwnStep(m.player, action) ==> r == m
  {
    var afterTrash :=
      if !m.trashedCard && IsOwnTrash(m.player, action)
      then m.(trashedCard := true, trashValue := action.trashedCard.cost)
      else m;
    if !afterTrash.gainedCard && IsOwnGain(m.player, action)
    then afterTrash.(gainedCard := true)
    else afterTrash
  }

  // ---------------------------------------------------------------------
  // Copy, equality, hash

  /** An independent copy of the progress record. */
  function Copy(m: Mine): (r: Mine)
    ensures Equals(r, AMine(m)) && Equals(m, AMine(r))
    ensures r.player == m.player && r.trashedCard == m.trashedCard
    ensures r.gainedCard == m.gainedCard && r.trashValue == m.trashValue
  {
    Mine(m.player, m.trashedCard, m.gainedCard, m.trashValue)
  }

  /** What a Mine can be compared with: another Mine, or anything else. */
  datatype Comparand = AMine(mine: Mine) | NotAMine

  /** Value equality: only another Mine can be equal, and only when the
      player, the captured value and both flags agree. */
  function Equals(m: Mine, other: Comparand): (eq: bool)
    ensures eq <==> other == AMine(m)
  {
    other.AMine?
    && other.mine.player == m.player
    && other.mine.trashValue == m.trashValue
    && other.mine.trashedCard == m.trashedCard
    && other.mine.gainedCard == m.gainedCard
  }

  /** The hash: `Objects.hash(player, trashedCard, trashValue, gainedCard,
      MINE)`. The hash of the enumeration constant MINE is an identity hash
      fixed per run of the engine, so it is a parameter. */
  function HashCode(m: Mine, mineTagHash: int): (h: int)
    ensures IsInt32(h)
  {
    ArraysHashCode([m.player, BooleanHash(m.trashedCard), m.trashValue,
                    BooleanHash(m.gainedCard), mineTagHash])
  }

  // ---------------------------------------------------------------------
  // Menu order

  /** The trash candidates of a hand extended by one card: the old
      candidates, then that card when it is a treasure. */
  lemma TrashCandidatesSnoc(hand: seq<CardType>, player: int)
    requires |hand| > 0
    ensures var prefix := hand[..|hand| - 1];
      var last := hand[|hand| - 1];
      && TrashCandidates(hand, player) == TrashCandidates(prefix, player)
           + (if IsTreasureCard(last) then [TrashCard(last, player)] else [])
      && Positions(hand, IsTreasureCard) == Positions(prefix, IsTreasureCard)
           + (if IsTreasureCard(last) then [|hand| - 1] else [])
  {
  }

  /** The trash candidates follow the hand: the k-th candidate trashes the
      card at the k-th treasure position of the hand. */
  lemma {:induction false} TrashCandidatesInHandOrder(hand: seq<CardType>, player: int)
    ensures |TrashCandidates(hand, player)| == |Positions(hand, IsTreasureCard)|
    ensures forall k :: 0 <= k < |TrashCandidates(hand, player)| ==>
      TrashCandidates(hand, player)[k] == TrashCard(hand[Positions(hand, IsTreasureCard)[k]], player)
  {
    if |hand| > 0 {
      var prefix := hand[..|hand| - 1];
      var last := hand[|hand| - 1];
      TrashCandidatesInHandOrder(prefix, player);
      var c := TrashCandidates(prefix, player);
      var p := Positions(prefix, IsTreasureCard);
      TrashCandidatesSnoc(hand, player);
      forall k | 0 <= k < |TrashCandidates(hand, player)|
        ensures TrashCandidates(hand, player)[k] == TrashCard(hand[Positions(hand, IsTreasureCard)[k]], player)
      {
        if k < |c| {
          assert hand[p[k]] == prefix[p[k]];
        }
      }
    }
  }

  /** The gain menu is not de-duplicated: it offers each kind exactly as many
      times as the supply holds it when it is an affordable treasure, and
      never otherwise. */
  lemma {:induction false} GainOptionsCounts(supply: seq<CardType>, player: int, ceiling: int, c: CardType)
    ensures multiset(GainOptions(supply, player, ceiling))[GainCard(c, player, Hand)]
            == (if AffordableTreasure(c, ceiling) then multiset(supply)[c] else 0)
    decreases |supply|
  {
    if |supply| > 0 {
      var rest := supply[..|supply| - 1];
      var last := supply[|supply| - 1];
      assert supply == rest + [last];
      GainOptionsCounts(rest, player, ceiling, c);
    }
  }

  /** The gain menu of a supply extended by one kind: the old menu, then that
      kind when it is an affordable treasure. */
  lemma GainOptionsSnoc(supply: seq<CardType>, player: int, ceiling: int)
    requires |supply| > 0
    ensures var rest := supply[..|supply| - 1];
      var last := supply[|supply| - 1];
      && GainOptions(supply, player, ceiling) == GainOptions(rest, player, ceiling)
           + (if AffordableTreasure(last, ceiling) then [GainCard(last, player, Hand)] else [])
      && Positions(supply, AffordableUnder(ceiling)) == Positions(rest, AffordableUnder(ceiling))
           + (if AffordableTreasure(last, ceiling) then [|supply| - 1] else [])
  {
  }

  /** The gain menu follows the supply: its k-th choice gains the kind at the
      k-th position of the supply that holds an affordable treasure. */
  lemma {:induction false} GainOptionsInOrder(supply: seq<CardType>, player: int, ceiling: int)
    ensures |GainOptions(supply, player, ceiling)| == |Positions(supply, AffordableUnder(ceiling))|
    ensures forall k :: 0 <= k < |GainOptions(supply, player, ceiling)| ==>
      GainOptions(supply, player, ceiling)[k]
        == GainCard(supply[Positions(supply, AffordableUnder(ceiling))[k]], player, Hand)
    decreases |supply|
  {
    if |supply| > 0 {
      var rest := supply[..|supply| - 1];
      GainOptionsSnoc(supply, player, ceiling);
      GainOptionsInOrder(rest, player, ceiling);
      var g := GainOptions(rest, player, ceiling);
      var p := Positions(rest, AffordableUnder(ceiling));
      forall k | 0 <= k < |GainOptions(supply, player, ceiling)|
        ensures GainOptions(supply, player, ceiling)[k]
          == GainCard(supply[Positions(supply, AffordableUnder(ceiling))[k]], player, Hand)
      {
        if k < |g| {
          assert supply[p[k]] == rest[p[k]];
        }
      }
    }
  }

  /** One choice of the gain menu: the k-th choice gains the kind at the k-th
      affordable-treasure position of the supply. */
  lemma GainOptionsInSupplyOrder(supply: seq<CardType>, player: int, ceiling: int, k: nat)
    requires k < |GainOptions(supply, player, ceiling)|
    ensures |GainOptions(supply, player, ceiling)| == |Positions(supply, AffordableUnder(ceiling))|
    ensures GainOptions(supply, player, ceiling)[k]
            == GainCard(supply[Positions(supply, AffordableUnder(ceiling))[k]], player, Hand)
  {
    GainOptionsInOrder(supply, player, ceiling);
  }

  /** The gain menu has one choice per affordable-treasure position. */
  lemma {:induction false} GainOptionsLength(supply: seq<CardType>, player: int, ceiling: int)
    ensures |GainOptions(supply, player, ceiling)| == |Positions(supply, AffordableUnder(ceiling))|
    decreases |supply|
  {
    if |supply| > 0 {
      GainOptionsSnoc(supply, player, ceiling);
      GainOptionsLength(supply[..|supply| - 1], player, ceiling);
    }
  }

  // ---------------------------------------------------------------------
  // Loop form of the trash menu

  /** The trash menu computed as the engine's stream does it: walk the hand,
      keep treasures, and skip a choice already emitted (tracked in a set). */
  method ComputeTrashOptions(hand: seq<CardType>, player: int) returns (menu: seq<Action>)
    ensures menu == TrashOptions(hand, player)
  {
    menu := [];
    var seen: set<Action> := {};
    for i := 0 to |hand|
      invariant menu == Distinct(TrashCandidates(hand[..i], player))
      invariant forall a :: a in seen <==> a in menu
    {
      assert hand[..i + 1][..i] == hand[..i];
      ghost var candidates := TrashCandidates(hand[..i], player);
      if IsTreasureCard(hand[i]) {
        var a := TrashCard(hand[i], player);
        assert TrashCandidates(hand[..i + 1], player) == candidates + [a];
        assert (candidates + [a])[..|candidates|] == candidates;
        if a !in seen {
          menu := menu + [a];
          seen := seen + {a};
        }
      } else {
        assert TrashCandidates(hand[..i + 1], player) == candidates;
      }
    }
    assert hand[..|hand|] == hand;
  }
}
