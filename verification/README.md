# Flashcards deck store — a Dafny model

The flashcards API (`main.py`) keeps a list of decks, each with an ordered
list of cards. PUT, add-card and delete-card read the whole list, find the
first deck with the id (`next((deck for deck in decks if deck.id == deck_id), None)`),
change it and write the whole list back. Import appends a new deck and
writes. The two GETs only read. This project models those handlers
as pure transitions of a `seq<Deck>`:

- `Wrappers` (`wrappers.dfy`): `Option` for `Optional[...]`, and `Result` for
  a handler that answers or raises.
- `Models` (`models.dfy`): the pydantic records `CardBase`, `Card`,
  `DeckBase`, `DeckCreate` and `Deck`, plus the 404 error. It also defines the
  identifier invariant `WellFormed`: deck ids are unique in the collection,
  and card ids are unique within each deck.
- `Handlers` (`handlers.dfy`): the lookup `FindDeck`, and one function per
  handler: `GetDeck`, `ImportDeck`, `UpdateDeck` (PUT), `AddCard` and
  `DeleteCard`, with the card filter `RemoveCard`. PUT, add-card and
  delete-card return `Ok(Outcome(answer, store))`, where `store` is the list
  written back, or `Err(NotFound(detail))` when the deck is missing, and then
  nothing is written. Import cannot fail, so `ImportDeck` returns a bare
  `Outcome`. `Persisted` gives the collection after either result.
- `Api` (`api.dfy`): one `Request` per route, including `GET /decks`.
  `Handle` runs a request and returns the reply with the collection as it
  stands afterwards. The identifiers a request generates are drawn from a
  supply `ids` in the order the source calls `uuid.uuid4()`: the deck id
  first, then one id per card.
- `Properties` (`properties.dfy`): lemmas that relate several calls. They
  cover lookup after a write, the delete filter (order, count, idempotence),
  and preservation of `WellFormed` when the generated ids are fresh. They
  also replay the test suite's end-to-end workflow.

`uuid.uuid4()` becomes a parameter. The handlers accept any ids, because the
source never checks them. Freshness is a hypothesis only of the lemmas that
need it: `ImportThenGet`, `ImportKeepsWellFormed`, `AddCardKeepsWellFormed`
and `HandleKeepsWellFormed`.

Points where the program's own files settle a question:
- `Card` has no `order` field (main.py:22-23), so nothing computes a display position.
- main.py has no PATCH route, although test_main.py:172-213 calls one.
- `add_card` answers the created card: its route has `response_model=Card` (main.py:82).
- The 404 detail is "Deck with id {id} not found" for `get_deck` (main.py:54) and
  "Deck not found" for the other handlers (main.py:75, 87, 99).

## Model

| member | source | states |
|---|---|---|
| Handlers.FindDeck | main.py:52 | The lookup answers None exactly when no deck has the id. Otherwise it answers the position of the first deck with that id. |
| Handlers.GetDeck | main.py:49-55 | The fetch succeeds iff some deck has the id, and then answers the first such deck. Otherwise it fails with NotFound("Deck with id {id} not found"). |
| Handlers.MintCards | main.py:64 | The minted cards keep the request's texts in order: stripping their ids gives back the input. Their ids are exactly the supplied ids, in order. |
| Handlers.ImportDeck | main.py:57-68 | The new collection is the old one plus one deck at the end, and that deck is the answer. It has the given id, the input's name and description (None stays None), the input's card texts in order, and the generated card ids. |
| Handlers.UpdateDeck | main.py:70-80 | PUT fails with NotFound("Deck not found") iff no deck has the id. Otherwise the first match gets the new name and description, and an omitted description becomes None. Its id and cards are kept, and the answer is the stored deck. The deck count and every other deck are unchanged. |
| Handlers.AddCard | main.py:82-92 | Add-card fails with NotFound iff the deck is missing. Otherwise the answer has the generated id and the request's front and back. That card goes at the end of the first match's cards, and the deck's other fields are kept. The deck count and every other deck are unchanged. |
| Handlers.RemoveCard | main.py:101 | A card is kept iff it was present and its id differs from the deleted id. With no matching id the list comes back unchanged. |
| Handlers.DeleteCard | main.py:94-103 | Delete fails with NotFound iff the deck is missing. Otherwise it answers "Card deleted" and replaces only the first match's cards by the filtered list. The deck count and every other deck are unchanged. |
| Api.Handle | main.py:45-103 | `GET /decks` answers the whole collection, and `GET /decks/{id}` answers the first match. A request fails iff it names a deck that is missing, with "Deck with id {id} not found" for a fetch and "Deck not found" otherwise. Reads and failed requests leave the collection unchanged, and only an import changes the deck count, by exactly one. Per route, a successful write stores its handler's change. Import appends the answered deck, built from the request with the drawn ids. PUT replaces only the first match's name and description. Add-card appends the answered card, which has the drawn id, to the first match. Delete-card filters only the first match's cards and answers "Card deleted". |
| Properties.FirstMatchExists | main.py:52 | Whenever some deck has the id, a first deck with it exists. |
| Properties.ImportThenGet | main.py:50-68 | Fetching an imported deck by its fresh id answers exactly the deck the import returned. |
| Properties.AddCardThenGet | main.py:84-92 | After add-card, fetching the deck shows its old cards plus the answered card at the end: exactly one more card, and nothing else changed. |
| Properties.UpdateThenGet | main.py:72-80 | After PUT, fetching the deck shows the old deck with only its name and description replaced. |
| Properties.RemoveCardAppend | main.py:101 | Filtering a concatenation is the concatenation of the filtered parts, so the kept cards stay in their original order. |
| Properties.RemoveCardCount | main.py:101 | The filtered list is shorter by exactly the number of cards that carry the id. |
| Properties.RemoveUniqueCard | main.py:101 | When the id is unique among the deck's cards, the filter drops exactly one card and the id no longer appears. |
| Properties.RemoveCardIdempotent | main.py:101 | Filtering twice by the same id is the same as filtering once. |
| Properties.RemoveCardKeepsDistinct | main.py:101 | Filtering never introduces a duplicate card id. |
| Properties.DeleteCardIdempotent | main.py:96-103 | Deleting the same (deck id, card id) twice gives the same answer both times and leaves the collection as one delete did. This holds for a missing deck too. |
| Properties.DeleteAbsentCard | main.py:96-103 | Deleting a card id that the deck lacks succeeds and writes back the collection unchanged. |
| Properties.DeleteUniqueCardThenGet | main.py:96-103 | When the deleted card id is present and unique among the target deck's cards, the fetched deck afterwards has one card fewer and no card with that id. |
| Properties.ImportKeepsWellFormed | main.py:59-66 | Import keeps ids unique if the new deck id is unused and the new card ids are distinct. |
| Properties.UpdateKeepsWellFormed | main.py:72-79 | PUT never creates a duplicate id. |
| Properties.AddCardKeepsWellFormed | main.py:84-91 | Add-card keeps ids unique if the new card id is unused in the target deck. |
| Properties.DeleteKeepsWellFormed | main.py:96-102 | Delete-card never creates a duplicate id. |
| Properties.HandleKeepsWellFormed | main.py:45-103 | Every request keeps ids unique when the identifiers it generates are fresh. |
| Properties.DeckLifecycle | test_main.py:301-347 | For any generated ids in which the first card's id differs from the other two, as fresh UUIDs do: the end-to-end workflow imports "French Basics" with two cards, adds a card and renames the deck to "French Animals". A fetch then shows three cards. Deleting the first card answers "Card deleted" and leaves two. |

## Left out

- File persistence: creating the data directory and `decks.json`, `read_decks`, `write_decks` and JSON serialisation (main.py:10-15, 36-43). These are file I/O and library code. The store is a plain `seq<Deck>` value, and a write is the collection a handler returns.
- `uuid.uuid4()`: generated ids are inputs. The model has no randomness, and it does not model the UUID format.
- FastAPI routing, pydantic validation of request bodies (the 422 answers), and turning `HTTPException` into a 404 response. These are framework code. The model keeps only the error and its detail text.
- Handlers.ImportDeck: requires exactly one supplied card id per input card. This only states the shape of the id supply and does not restrict the source's behaviour.
- A PATCH partial update: main.py has no such route. The tests call it, but there is no behaviour to model.
- A card `order` field: main.py has none.
- Concurrent requests: a read-modify-write race between requests can lose a write. Each request here is one atomic transition.
- test.py: an EdgeDB client script with database I/O and no logic of the service.
