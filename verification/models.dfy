/** The records of the flashcards service (the pydantic models of main.py)
    and the identifier invariants the deck collection is meant to keep. */
module Models {
  import opened Wrappers

  /** Identifiers are generated UUID strings; their format plays no part here. */
  type Id = string

  /** A card as a request supplies it: text only, no identifier. */
  datatype CardBase = CardBase(front: string, back: string)

  /** A stored card: the request text plus a generated identifier. */
  datatype Card = Card(id: Id, front: string, back: string)

  /** Deck metadata as a PUT body supplies it; an omitted description is None. */
  datatype DeckBase = DeckBase(name: string, description: Option<string>)

  /** The body of an import request: metadata plus the cards, without identifiers. */
  datatype DeckCreate = DeckCreate(name: string, description: Option<string>, cards: seq<CardBase>)

  /** A stored deck with its ordered cards. */
  datatype Deck = Deck(id: Id, name: string, description: Option<string>, cards: seq<Card>)

  /** The one error the handlers raise: HTTP 404 with a detail text. */
  datatype ApiError = NotFound(detail: string)

  /** The text of a card without its identifier. */
  function Strip(c: Card): CardBase
  {
    CardBase(c.front, c.back)
  }

  /** The texts of a card list, in order. */
  function Contents(cards: seq<Card>): seq<CardBase>
  {
    seq(|cards|, i requires 0 <= i < |cards| => Strip(cards[i]))
  }

  /** The identifiers of a card list, in order. */
  function CardIds(cards: seq<Card>): seq<Id>
  {
    seq(|cards|, i requires 0 <= i < |cards| => cards[i].id)
  }

  /** The identifiers of a deck collection, in order. */
  function DeckIds(decks: seq<Deck>): seq<Id>
  {
    seq(|decks|, i requires 0 <= i < |decks| => decks[i].id)
  }

  /** No value occurs twice. */
  predicate Distinct<T(==)>(s: seq<T>)
  {
    forall i, j :: 0 <= i < j < |s| ==> s[i] != s[j]
  }

  /** Deck ids are unique across the collection and card ids are unique
      within each deck. */
  predicate WellFormed(decks: seq<Deck>)
  {
    && Distinct(DeckIds(decks))
    && forall i :: 0 <= i < |decks| ==> Distinct(CardIds(decks[i].cards))
  }

  /** Some deck of the collection carries the identifier. */
  predicate HasDeck(decks: seq<Deck>, deckId: Id)
  {
    exists i :: 0 <= i < |decks| && decks[i].id == deckId
  }

  /** Position i holds the first deck carrying the identifier. */
  predicate IsFirstMatch(decks: seq<Deck>, deckId: Id, i: int)
  {
    && 0 <= i < |decks|
    && decks[i].id == deckId
    && forall j :: 0 <= j < i ==> decks[j].id != deckId
  }
}
