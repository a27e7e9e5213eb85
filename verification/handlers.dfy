/** The handler bodies of the flashcards service as pure transitions of the
    deck collection. PUT, add-card and delete-card look the deck up by
    identifier, change it and answer together with the collection to write
    back; a missing deck raises NotFound before anything is written. Import
    appends a new deck and cannot fail. Generated identifiers are parameters. */
module Handlers {
  import opened Wrappers
  import opened Models

  /** A successful answer together with the collection written back. */
  datatype Outcome<+A> = Outcome(answer: A, store: seq<Deck>)

  /** Detail text of the 404 raised by the PUT, add-card and delete-card handlers. */
  const DeckNotFound: string := "Deck not found"

  /** Message answered by the delete-card handler. */
  const CardDeleted: string := "Card deleted"

  /** Detail text of the 404 raised by the get-deck handler. */
  function DeckIdNotFound(deckId: Id): string
  {
    "Deck with id " + deckId + " not found"
  }

  /** The collection after a handler ran: the written collection on success,
      the untouched one when the handler raised before writing. */
  function Persisted<A>(decks: seq<Deck>, r: Result<Outcome<A>, ApiError>): seq<Deck>
  {
    match r
    case Ok(o) => o.store
    case Err(_) => decks
  }

  /** The lookup `next((deck for deck in decks if deck.id == deck_id), None)`:
      the position of the first deck with the identifier, if any. */
  function FindDeck(decks: seq<Deck>, deckId: Id): (r: Option<nat>)
    ensures r.None? <==> !HasDeck(decks, deckId)
    ensures r.Some? ==> IsFirstMatch(decks, deckId, r.value)
  {
    if |decks| == 0 then None
    else if decks[0].id == deckId then Some(0)
    else
      match FindDeck(decks[1..], deckId)
      case None => None
      case Some(i) => Some(i + 1)
  }

  /** GET /decks/{deck_id}: the first deck with the identifier, or 404. */
  function GetDeck(decks: seq<Deck>, deckId: Id): (r: Result<Deck, ApiError>)
    ensures r.Ok? <==> HasDeck(decks, deckId)
    ensures forall i :: IsFirstMatch(decks, deckId, i) ==> r == Ok(decks[i])
    ensures r.Err? ==> r.error == NotFound(DeckIdNotFound(deckId))
  {
    match FindDeck(decks, deckId)
    case None => Err(NotFound(DeckIdNotFound(deckId)))
    case Some(i) => Ok(decks[i])
  }

  /** Cards built from request texts and freshly generated identifiers, in order. */
  function MintCards(cards: seq<CardBase>, ids: seq<Id>): (r: seq<Card>)
    requires |ids| == |cards|
    ensures Contents(r) == cards
    ensures CardIds(r) == ids
  {
    seq(|cards|, i requires 0 <= i < |cards| => Card(ids[i], cards[i].front, cards[i].back))
  }

  /** POST /decks/import: a new deck with the generated deck id `deckId` and
      card ids `cardIds`, appended to the collection and answered. */
  function ImportDeck(decks: seq<Deck>, input: DeckCreate, deckId: Id, cardIds: seq<Id>): (r: Outcome<Deck>)
    requires |cardIds| == |input.cards|
    ensures r.store == decks + [r.answer]
    ensures r.answer.id == deckId
    ensures r.answer.name == input.name && r.answer.description == input.description
    ensures Contents(r.answer.cards) == input.cards
    ensures CardIds(r.answer.cards) == cardIds
  {
    var created := Deck(deckId, input.name, input.description, MintCards(input.cards, cardIds));
    Outcome(created, decks + [created])
  }

  /** PUT /decks/{deck_id}: overwrite name and description of the first
      matching deck and answer the updated deck, or 404. */
  function UpdateDeck(decks: seq<Deck>, deckId: Id, update: DeckBase): (r: Result<Outcome<Deck>, ApiError>)
    ensures r.Err? <==> !HasDeck(decks, deckId)
    ensures r.Err? ==> r.error == NotFound(DeckNotFound)
    ensures r.Ok? ==> |r.value.store| == |decks|
    ensures r.Ok? ==> forall i :: IsFirstMatch(decks, deckId, i) ==>
              && r.value.answer == r.value.store[i]
              && r.value.answer.id == decks[i].id
              && r.value.answer.cards == decks[i].cards
              && r.value.answer.name == update.name
              && r.value.answer.description == update.description
              && forall j :: 0 <= j < |decks| && j != i ==> r.value.store[j] == decks[j]
  {
    match FindDeck(decks, deckId)
    case None => Err(NotFound(DeckNotFound))
    case Some(i) =>
      var updated := decks[i].(name := update.name, description := update.description);
      Ok(Outcome(updated, decks[i := updated]))
  }

  /** POST /decks/{deck_id}/cards: append a card with the generated id
      `cardId` to the first matching deck and answer the card, or 404. */
  function AddCard(decks: seq<Deck>, deckId: Id, card: CardBase, cardId: Id): (r: Result<Outcome<Card>, ApiError>)
    ensures r.Err? <==> !HasDeck(decks, deckId)
    ensures r.Err? ==> r.error == NotFound(DeckNotFound)
    ensures r.Ok? ==> r.value.answer.id == cardId && Strip(r.value.answer) == card
    ensures r.Ok? ==> |r.value.store| == |decks|
    ensures r.Ok? ==> forall i :: IsFirstMatch(decks, deckId, i) ==>
              && r.value.store[i] == decks[i].(cards := decks[i].cards + [r.value.answer])
              && forall j :: 0 <= j < |decks| && j != i ==> r.value.store[j] == decks[j]
  {
    match FindDeck(decks, deckId)
    case None => Err(NotFound(DeckNotFound))
    case Some(i) =>
      var created := Card(cardId, card.front, card.back);
      Ok(Outcome(created, decks[i := decks[i].(cards := decks[i].cards + [created])]))
  }

  /** The comprehension `[card for card in cards if card.id != card_id]`. */
  function RemoveCard(cards: seq<Card>, cardId: Id): (r: seq<Card>)
    ensures forall c :: c in r <==> c in cards && c.id != cardId
    ensures (forall k :: 0 <= k < |cards| ==> cards[k].id != cardId) ==> r == cards
  {
    if |cards| == 0 then []
    else if cards[0].id == cardId then RemoveCard(cards[1..], cardId)
    else [cards[0]] + RemoveCard(cards[1..], cardId)
  }

  /** DELETE /decks/{deck_id}/cards/{card_id}: drop every card with the id
      from the first matching deck and acknowledge, or 404. A card id that
      is absent is not an error. */
  function DeleteCard(decks: seq<Deck>, deckId: Id, cardId: Id): (r: Result<Outcome<string>, ApiError>)
    ensures r.Err? <==> !HasDeck(decks, deckId)
    ensures r.Err? ==> r.error == NotFound(DeckNotFound)
    ensures r.Ok? ==> r.value.answer == CardDeleted
    ensures r.Ok? ==> |r.value.store| == |decks|
    ensures r.Ok? ==> forall i :: IsFirstMatch(decks, deckId, i) ==>
              && r.value.store[i] == decks[i].(cards := RemoveCard(decks[i].cards, cardId))
              && forall j :: 0 <= j < |decks| && j != i ==> r.value.store[j] == decks[j]
  {
    match FindDeck(decks, deckId)
    case None => Err(NotFound(DeckNotFound))
    case Some(i) =>
      Ok(Outcome(CardDeleted, decks[i := decks[i].(cards := RemoveCard(decks[i].cards, cardId))]))
  }
}
