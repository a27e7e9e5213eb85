/** The HTTP surface of the service: one request of each route, answered by
    its handler, with the collection as it stands after the request. The
    generated identifiers a request consumes come from a supply `ids`, in the
    order the handler draws them (deck id first, then one per card). */
module Api {
  import opened Models
  import H = Handlers

  datatype Request =
    | ListDecks                                  // GET /decks
    | FetchDeck(deckId: Id)                      // GET /decks/{deck_id}
    | Import(deck: DeckCreate)                   // POST /decks/import
    | Replace(deckId: Id, update: DeckBase)      // PUT /decks/{deck_id}
    | PostCard(deckId: Id, card: CardBase)       // POST /decks/{deck_id}/cards
    | DeleteCard(deckId: Id, cardId: Id)         // DELETE /decks/{deck_id}/cards/{card_id}
  {
    /** The request names a deck that must exist. */
    predicate TargetsDeck()
    {
      FetchDeck? || Replace? || PostCard? || DeleteCard?
    }

    /** The request writes the collection back when it succeeds. */
    predicate Writes()
    {
      Import? || Replace? || PostCard? || DeleteCard?
    }

    /** How many identifiers the handler generates. */
    function IdsNeeded(): nat
    {
      match this
      case Import(d) => 1 + |d.cards|
      case PostCard(_, _) => 1
      case _ => 0
    }
  }

  /** The response body, or the raised error. */
  datatype Reply =
    | DeckList(decks: seq<Deck>)
    | DeckBody(deck: Deck)
    | CardBody(card: Card)
    | Message(text: string)
    | Failed(error: ApiError)

  /** The reply to a request and the collection after it. */
  datatype Exchange = Exchange(reply: Reply, store: seq<Deck>)

  /** `store` equals `decks` except possibly at position i. */
  predicate OnlyChangedAt(decks: seq<Deck>, store: seq<Deck>, i: int)
  {
    && |store| == |decks|
    && forall j :: 0 <= j < |decks| && j != i ==> store[j] == decks[j]
  }

  /** Run one request against the collection `decks`. */
  function Handle(decks: seq<Deck>, req: Request, ids: seq<Id>): (x: Exchange)
    requires |ids| >= req.IdsNeeded()
    ensures req.ListDecks? ==> x.reply == DeckList(decks)
    ensures x.reply.Failed? <==> req.TargetsDeck() && !HasDeck(decks, req.deckId)
    ensures x.reply.Failed? ==>
              x.reply.error == NotFound(if req.FetchDeck? then H.DeckIdNotFound(req.deckId) else H.DeckNotFound)
    ensures !req.Writes() || x.reply.Failed? ==> x.store == decks
    ensures |x.store| == |decks| + (if req.Import? then 1 else 0)
    ensures req.FetchDeck? && !x.reply.Failed? ==>
              && x.reply.DeckBody?
              && forall i :: IsFirstMatch(decks, req.deckId, i) ==> x.reply.deck == decks[i]
    ensures req.Import? ==>
              && x.reply.DeckBody?
              && x.store == decks + [x.reply.deck]
              && x.reply.deck.id == ids[0]
              && x.reply.deck.name == req.deck.name
              && x.reply.deck.description == req.deck.description
              && Contents(x.reply.deck.cards) == req.deck.cards
              && CardIds(x.reply.deck.cards) == ids[1..1 + |req.deck.cards|]
    ensures req.Replace? && !x.reply.Failed? ==>
              && x.reply.DeckBody?
              && forall i :: IsFirstMatch(decks, req.deckId, i) ==>
                   && x.reply.deck == decks[i].(name := req.update.name, description := req.update.description)
                   && x.store[i] == x.reply.deck
                   && OnlyChangedAt(decks, x.store, i)
    ensures req.PostCard? && !x.reply.Failed? ==>
              && x.reply.CardBody?
              && x.reply.card.id == ids[0]
              && Strip(x.reply.card) == req.card
              && forall i :: IsFirstMatch(decks, req.deckId, i) ==>
                   && x.store[i] == decks[i].(cards := decks[i].cards + [x.reply.card])
                   && OnlyChangedAt(decks, x.store, i)
    ensures req.DeleteCard? && !x.reply.Failed? ==>
              && x.reply == Message(H.CardDeleted)
              && forall i :: IsFirstMatch(decks, req.deckId, i) ==>
                   && x.store[i] == decks[i].(cards := H.RemoveCard(decks[i].cards, req.cardId))
                   && OnlyChangedAt(decks, x.store, i)
  {
    match req
    case ListDecks => Exchange(DeckList(decks), decks)
    case FetchDeck(deckId) =>
      (match H.GetDeck(decks, deckId)
       case Ok(d) => Exchange(DeckBody(d), decks)
       case Err(e) => Exchange(Failed(e), decks))
    case Import(d) =>
      var o := H.ImportDeck(decks, d, ids[0], ids[1..1 + |d.cards|]);
      Exchange(DeckBody(o.answer), o.store)
    case Replace(deckId, update) =>
      (match H.UpdateDeck(decks, deckId, update)
       case Ok(o) => Exchange(DeckBody(o.answer), o.store)
       case Err(e) => Exchange(Failed(e), decks))
    case PostCard(deckId, card) =>
      (match H.AddCard(decks, deckId, card, ids[0])
       case Ok(o) => Exchange(CardBody(o.answer), o.store)
       case Err(e) => Exchange(Failed(e), decks))
    case DeleteCard(deckId, cardId) =>
      (match H.DeleteCard(decks, deckId, cardId)
       case Ok(o) => Exchange(Message(o.answer), o.store)
       case Err(e) => Exchange(Failed(e), decks))
  }
}
