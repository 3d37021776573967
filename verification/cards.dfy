/** Cards, zones and the actions that the Mine sequence offers or is told about. */
module Cards {

  /** A kind of card. The engine's card kinds form a closed enumeration in which
      every kind carries a fixed cost and a treasure flag, so two cards of one
      kind are interchangeable. Cards in a hand and entries of the buyable
      supply are both described by their kind. */
  datatype CardType = CardType(name: string, cost: nat, isTreasure: bool)

  /** Where a gained card is put. Mine only ever names the hand; every other
      zone is one value here. */
  datatype DeckType = Hand | OtherZone

  /** The closed set of actions that can be chosen while Mine is in progress.
      `OtherAction` stands for every action kind that Mine does not look at. */
  datatype Action =
    | TrashCard(trashedCard: CardType, player: int)
    | GainCard(cardType: CardType, buyingPlayer: int, destination: DeckType)
    | DoNothing
    | OtherAction(kind: CardType, actor: int)

  /** Whether a card kind is a treasure (the filter of Mine's trash step). */
  predicate IsTreasureCard(c: CardType)
  {
    c.isTreasure
  }

  /** A treasure whose cost does not exceed `ceiling`. */
  predicate AffordableTreasure(c: CardType, ceiling: int)
  {
    IsTreasureCard(c) && c.cost <= ceiling
  }

  /** The filter of the gain step, as a predicate on card kinds. */
  function AffordableUnder(ceiling: int): (keep: CardType -> bool)
    ensures forall c :: keep(c) == AffordableTreasure(c, ceiling)
  {
    c => AffordableTreasure(c, ceiling)
  }
}
