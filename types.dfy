/** The card record of the game and the small wrappers the engine uses. */
module Types {

  /** Whether a card shows its symbol. */
  datatype CardStatus = FaceUp | FaceDown

  /** One card of the grid: a stable id, its symbol, how it lies and whether its pair was found. */
  datatype Card = Card(id: int, symbol: string, status: CardStatus, matched: bool)

  /** A value that may be absent (the source's `null`). */
  datatype Option<T> = None | Some(value: T)

  /** The outcome of an operation that may throw. */
  datatype Result<T, E> = Ok(value: T) | Err(error: E)

  /** The symbols of a list of cards, in order (`cardsState.map((card) => card.symbol)`). */
  function Symbols(cards: seq<Card>): (r: seq<string>)
  {
    seq(|cards|, i requires 0 <= i < |cards| => cards[i].symbol)
  }

  /** No two cards carry the same id. */
  predicate DistinctIds(cards: seq<Card>)
  {
    forall i, j :: 0 <= i < j < |cards| ==> cards[i].id != cards[j].id
  }

  /** Every card's id is its position in the list. */
  predicate IdsArePositions(cards: seq<Card>)
  {
    forall i :: 0 <= i < |cards| ==> cards[i].id == i
  }

  lemma PositionsAreDistinct(cards: seq<Card>)
    requires IdsArePositions(cards)
    ensures DistinctIds(cards)
  {
  }
}
