/** What the handlers promise across calls: lookups after a write, the card
    filter of delete, idempotent delete, and preservation of identifier
    uniqueness when the generated identifiers are fresh. */
module Properties {
  import opened Wrappers
  import opened Models
  import opened Handlers
  import Api

  /** Number of cards carrying the identifier. */
  function CountId(cards: seq<Card>, cardId: Id): nat
  {
    if |cards| == 0 then 0
    else (if cards[0].id == cardId then 1 else 0) + CountId(cards[1..], cardId)
  }

  // ---------------------------------------------------------------------
  // Lookup

  /** Two collections whose decks carry the same identifiers position by
      position resolve every lookup to the same position. */
  lemma SameIdsSameLookup(a: seq<Deck>, b: seq<Deck>, deckId: Id)
    requires DeckIds(a) == DeckIds(b)
    ensures HasDeck(a, deckId) <==> HasDeck(b, deckId)
    ensures forall i :: IsFirstMatch(a, deckId, i) <==> IsFirstMatch(b, deckId, i)
  {
    assert |a| == |DeckIds(a)| == |b|;
    forall j | 0 <= j < |a|
      ensures a[j].id == b[j].id
    {
      assert DeckIds(a)[j] == a[j].id && DeckIds(b)[j] == b[j].id;
    }
  }

  /** A collection that differs from another only at position i, by a deck
      with the same identifier, has the same identifiers. */
  lemma PointUpdateKeepsIds(decks: seq<Deck>, store: seq<Deck>, i: int)
    requires 0 <= i < |decks| == |store|
    requires store[i].id == decks[i].id
    requires forall j :: 0 <= j < |decks| && j != i ==> store[j] == decks[j]
    ensures DeckIds(store) == DeckIds(decks)
  {
  }

  /** Every lookup that finds a deck finds the first match. */
  lemma {:induction false} FirstMatchExists(decks: seq<Deck>, deckId: Id)
    requires HasDeck(decks, deckId)
    ensures exists i :: IsFirstMatch(decks, deckId, i)
  {
    var r := FindDeck(decks, deckId);
    assert IsFirstMatch(decks, deckId, r.value);
  }

  /** Fetching the imported deck by its fresh identifier answers exactly the
      deck the import returned. */
  lemma ImportThenGet(decks: seq<Deck>, input: DeckCreate, deckId: Id, cardIds: seq<Id>)
    requires |cardIds| == |input.cards|
    requires !HasDeck(decks, deckId)
    ensures var o := ImportDeck(decks, input, deckId, cardIds);
            GetDeck(o.store, deckId) == Ok(o.answer)
  {
    var o := ImportDeck(decks, input, deckId, cardIds);
    assert IsFirstMatch(o.store, deckId, |decks|);
  }

  /** After a card is added, fetching the deck shows its cards grown by
      exactly the answered card, at the end; name and description are kept. */
  lemma AddCardThenGet(decks: seq<Deck>, deckId: Id, card: CardBase, cardId: Id)
    requires HasDeck(decks, deckId)
    ensures var r := AddCard(decks, deckId, card, cardId);
            && r.Ok?
            && GetDeck(r.value.store, deckId).Ok?
            && var before := GetDeck(decks, deckId).value;
               var after := GetDeck(r.value.store, deckId).value;
               && after.cards == before.cards + [r.value.answer]
               && |after.cards| == |before.cards| + 1
               && after.(cards := before.cards) == before
  {
    var r := AddCard(decks, deckId, card, cardId);
    FirstMatchExists(decks, deckId);
    var i :| IsFirstMatch(decks, deckId, i);
    PointUpdateKeepsIds(decks, r.value.store, i);
    SameIdsSameLookup(decks, r.value.store, deckId);
  }

  /** After a PUT, fetching the deck shows the new metadata with the old
      identifier and cards. */
  lemma UpdateThenGet(decks: seq<Deck>, deckId: Id, update: DeckBase)
    requires HasDeck(decks, deckId)
    ensures var r := UpdateDeck(decks, deckId, update);
            && r.Ok?
            && var before := GetDeck(decks, deckId).value;
               GetDeck(r.value.store, deckId)
                 == Ok(before.(name := update.name, description := update.description))
  {
    var r := UpdateDeck(decks, deckId, update);
    FirstMatchExists(decks, deckId);
    var i :| IsFirstMatch(decks, deckId, i);
    PointUpdateKeepsIds(decks, r.value.store, i);
    SameIdsSameLookup(decks, r.value.store, deckId);
  }

  // ---------------------------------------------------------------------
  // The card filter of delete

  /** The filter commutes with concatenation: it keeps the surviving cards
      in their original order. */
  lemma {:induction false} RemoveCardAppend(a: seq<Card>, b: seq<Card>, cardId: Id)
    ensures RemoveCard(a + b, cardId) == RemoveCard(a, cardId) + RemoveCard(b, cardId)
  {
    if |a| == 0 {
      assert a + b == b;
    } else {
      assert (a + b)[1..] == a[1..] + b;
      RemoveCardAppend(a[1..], b, cardId);
    }
  }

  /** The filter drops exactly as many cards as carry the identifier. */
  lemma {:induction false} RemoveCardCount(cards: seq<Card>, cardId: Id)
    ensures |RemoveCard(cards, cardId)| == |cards| - CountId(cards, cardId)
  {
    if |cards| > 0 {
      RemoveCardCount(cards[1..], cardId);
    }
  }

  /** An identifier absent from the cards is counted zero times. */
  lemma {:induction false} CountAbsent(cards: seq<Card>, cardId: Id)
    requires cardId !in CardIds(cards)
    ensures CountId(cards, cardId) == 0
  {
    if |cards| > 0 {
      assert CardIds(cards)[0] == cards[0].id;
      assert CardIds(cards[1..]) == CardIds(cards)[1..];
      CountAbsent(cards[1..], cardId);
    }
  }

  /** In a deck with unique card ids, a present identifier is counted once. */
  lemma {:induction false} CountUnique(cards: seq<Card>, cardId: Id)
    requires Distinct(CardIds(cards))
    requires cardId in CardIds(cards)
    ensures CountId(cards, cardId) == 1
  {
    var ids := CardIds(cards);
    assert ids[0] == cards[0].id;
    assert CardIds(cards[1..]) == ids[1..];
    if cards[0].id == cardId {
      assert cardId !in ids[1..] by {
        forall k | 0 <= k < |ids[1..]|
          ensures ids[1..][k] != cardId
        {
          assert ids[1..][k] == ids[k + 1];
        }
      }
      CountAbsent(cards[1..], cardId);
    } else {
      CountUnique(cards[1..], cardId);
    }
  }

  /** Prepending a card whose id is new keeps card identifiers unique. */
  lemma ConsKeepsDistinct(c: Card, rest: seq<Card>)
    requires Distinct(CardIds(rest))
    requires forall d :: d in rest ==> d.id != c.id
    ensures Distinct(CardIds([c] + rest))
  {
    var ids := CardIds([c] + rest);
    forall i, j | 0 <= i < j < |ids|
      ensures ids[i] != ids[j]
    {
      assert ids[j] == rest[j - 1].id && rest[j - 1] in rest;
      if i > 0 {
        assert ids[i] == CardIds(rest)[i - 1] && ids[j] == CardIds(rest)[j - 1];
      }
    }
  }

  /** The filter keeps card identifiers unique. */
  lemma {:induction false} RemoveCardKeepsDistinct(cards: seq<Card>, cardId: Id)
    requires Distinct(CardIds(cards))
    ensures Distinct(CardIds(RemoveCard(cards, cardId)))
  {
    if |cards| > 0 {
      var ids := CardIds(cards);
      assert CardIds(cards[1..]) == ids[1..];
      RemoveCardKeepsDistinct(cards[1..], cardId);
      if cards[0].id != cardId {
        var rest := RemoveCard(cards[1..], cardId);
        forall d | d in rest
          ensures d.id != cards[0].id
        {
          var k :| 0 <= k < |cards[1..]| && cards[1..][k] == d;
          assert ids[k + 1] == d.id && ids[0] == cards[0].id;
        }
        ConsKeepsDistinct(cards[0], rest);
      }
    }
  }

  /** Filtering twice is filtering once. */
  lemma RemoveCardIdempotent(cards: seq<Card>, cardId: Id)
    ensures RemoveCard(RemoveCard(cards, cardId), cardId) == RemoveCard(cards, cardId)
  {
    var r := RemoveCard(cards, cardId);
    forall k | 0 <= k < |r|
      ensures r[k].id != cardId
    {
      assert r[k] in r;
    }
  }

  /** Deleting a card whose id is unique in the deck removes exactly that
      card: the deck shrinks by one and the id no longer appears. */
  lemma RemoveUniqueCard(cards: seq<Card>, cardId: Id)
    requires Distinct(CardIds(cards))
    requires cardId in CardIds(cards)
    ensures |RemoveCard(cards, cardId)| == |cards| - 1
    ensures cardId !in CardIds(RemoveCard(cards, cardId))
  {
    CountUnique(cards, cardId);
    RemoveCardCount(cards, cardId);
    var r := RemoveCard(cards, cardId);
    forall k | 0 <= k < |r|
      ensures CardIds(r)[k] != cardId
    {
      assert r[k] in r;
    }
  }

  // ---------------------------------------------------------------------
  // Delete at the level of the collection

  /** Deleting the same card of the same deck twice leaves the collection as
      deleting it once did, and both calls answer alike. */
  lemma DeleteCardIdempotent(decks: seq<Deck>, deckId: Id, cardId: Id)
    ensures var first := DeleteCard(decks, deckId, cardId);
            var once := Persisted(decks, first);
            var second := DeleteCard(once, deckId, cardId);
            && second.Ok? == first.Ok?
            && Persisted(once, second) == once
  {
    var first := DeleteCard(decks, deckId, cardId);
    if first.Ok? {
      var once := first.value.store;
      FirstMatchExists(decks, deckId);
      var i :| IsFirstMatch(decks, deckId, i);
      PointUpdateKeepsIds(decks, once, i);
      SameIdsSameLookup(decks, once, deckId);
      RemoveCardIdempotent(decks[i].cards, cardId);
      var second := DeleteCard(once, deckId, cardId);
      assert second.value.store == once;
    }
  }

  /** Deleting a card id the deck does not hold succeeds and writes back the
      collection unchanged. */
  lemma DeleteAbsentCard(decks: seq<Deck>, deckId: Id, cardId: Id)
    requires HasDeck(decks, deckId)
    requires forall i :: IsFirstMatch(decks, deckId, i) ==> cardId !in CardIds(decks[i].cards)
    ensures var r := DeleteCard(decks, deckId, cardId);
            r.Ok? && r.value.store == decks
  {
    FirstMatchExists(decks, deckId);
    var i :| IsFirstMatch(decks, deckId, i);
    var cards := decks[i].cards;
    forall k | 0 <= k < |cards|
      ensures cards[k].id != cardId
    {
      assert CardIds(cards)[k] == cards[k].id;
    }
    var r := DeleteCard(decks, deckId, cardId);
    assert r.value.store == decks;
  }

  /** Deleting a card whose id is unique in the deck: fetching the deck
      afterwards shows one card fewer and no card with that id. */
  lemma DeleteUniqueCardThenGet(decks: seq<Deck>, deckId: Id, cardId: Id)
    requires HasDeck(decks, deckId)
    requires Distinct(CardIds(GetDeck(decks, deckId).value.cards))
    requires cardId in CardIds(GetDeck(decks, deckId).value.cards)
    ensures var r := DeleteCard(decks, deckId, cardId);
            && r.Ok?
            && GetDeck(r.value.store, deckId).Ok?
            && var before := GetDeck(decks, deckId).value;
               var after := GetDeck(r.value.store, deckId).value;
               && |after.cards| == |before.cards| - 1
               && cardId !in CardIds(after.cards)
  {
    var r := DeleteCard(decks, deckId, cardId);
    FirstMatchExists(decks, deckId);
    var i :| IsFirstMatch(decks, deckId, i);
    PointUpdateKeepsIds(decks, r.value.store, i);
    SameIdsSameLookup(decks, r.value.store, deckId);
    RemoveUniqueCard(decks[i].cards, cardId);
  }

  // ---------------------------------------------------------------------
  // Identifier uniqueness

  /** Import keeps the collection well formed when its deck id is new and
      its card ids are distinct. */
  lemma ImportKeepsWellFormed(decks: seq<Deck>, input: DeckCreate, deckId: Id, cardIds: seq<Id>)
    requires WellFormed(decks)
    requires |cardIds| == |input.cards|
    requires !HasDeck(decks, deckId)
    requires Distinct(cardIds)
    ensures WellFormed(ImportDeck(decks, input, deckId, cardIds).store)
  {
    var store := ImportDeck(decks, input, deckId, cardIds).store;
    var ids := DeckIds(store);
    forall i, j | 0 <= i < j < |ids|
      ensures ids[i] != ids[j]
    {
      if j < |decks| {
        assert DeckIds(decks)[i] == decks[i].id && DeckIds(decks)[j] == decks[j].id;
      }
    }
  }

  /** A collection that differs from a well-formed one at one position only,
      by a deck with the same id and unique card ids, is well formed. */
  lemma PointUpdateKeepsWellFormed(decks: seq<Deck>, store: seq<Deck>, i: int)
    requires WellFormed(decks)
    requires 0 <= i < |decks| == |store|
    requires store[i].id == decks[i].id
    requires Distinct(CardIds(store[i].cards))
    requires forall j :: 0 <= j < |decks| && j != i ==> store[j] == decks[j]
    ensures WellFormed(store)
  {
    PointUpdateKeepsIds(decks, store, i);
  }

  /** A PUT never creates a duplicate identifier. */
  lemma UpdateKeepsWellFormed(decks: seq<Deck>, deckId: Id, update: DeckBase)
    requires WellFormed(decks)
    ensures WellFormed(Persisted(decks, UpdateDeck(decks, deckId, update)))
  {
    var r := UpdateDeck(decks, deckId, update);
    if r.Ok? {
      FirstMatchExists(decks, deckId);
      var i :| IsFirstMatch(decks, deckId, i);
      PointUpdateKeepsWellFormed(decks, r.value.store, i);
    }
  }

  /** Adding a card keeps the collection well formed when its id is new to
      the target deck. */
  lemma AddCardKeepsWellFormed(decks: seq<Deck>, deckId: Id, card: CardBase, cardId: Id)
    requires WellFormed(decks)
    requires forall i :: IsFirstMatch(decks, deckId, i) ==> cardId !in CardIds(decks[i].cards)
    ensures WellFormed(Persisted(decks, AddCard(decks, deckId, card, cardId)))
  {
    var r := AddCard(decks, deckId, card, cardId);
    if r.Ok? {
      FirstMatchExists(decks, deckId);
      var i :| IsFirstMatch(decks, deckId, i);
      var before := decks[i].cards;
      var cards := r.value.store[i].cards;
      assert cards == before + [r.value.answer];
      var ids := CardIds(cards);
      forall a, b | 0 <= a < b < |ids|
        ensures ids[a] != ids[b]
      {
        assert ids[a] == CardIds(before)[a];
        if b < |before| {
          assert ids[b] == CardIds(before)[b];
        } else {
          assert ids[b] == cardId;
        }
      }
      PointUpdateKeepsWellFormed(decks, r.value.store, i);
    }
  }

  /** Deleting a card never creates a duplicate identifier. */
  lemma DeleteKeepsWellFormed(decks: seq<Deck>, deckId: Id, cardId: Id)
    requires WellFormed(decks)
    ensures WellFormed(Persisted(decks, DeleteCard(decks, deckId, cardId)))
  {
    var r := DeleteCard(decks, deckId, cardId);
    if r.Ok? {
      FirstMatchExists(decks, deckId);
      var i :| IsFirstMatch(decks, deckId, i);
      RemoveCardKeepsDistinct(decks[i].cards, cardId);
      PointUpdateKeepsWellFormed(decks, r.value.store, i);
    }
  }

  /** The identifiers drawn from the supply are distinct and none of them is
      already used by a deck or a card of the collection. */
  predicate FreshIds(decks: seq<Deck>, ids: seq<Id>)
  {
    && Distinct(ids)
    && forall k :: 0 <= k < |ids| ==>
         && !HasDeck(decks, ids[k])
         && forall i :: 0 <= i < |decks| ==> ids[k] !in CardIds(decks[i].cards)
  }

  /** Every request keeps the collection well formed when the identifiers it
      generates are fresh. */
  lemma HandleKeepsWellFormed(decks: seq<Deck>, req: Api.Request, ids: seq<Id>)
    requires |ids| >= req.IdsNeeded()
    requires WellFormed(decks)
    requires FreshIds(decks, ids)
    ensures WellFormed(Api.Handle(decks, req, ids).store)
  {
    match req
    case ListDecks =>
    case FetchDeck(_) =>
    case Import(d) =>
      var cardIds := ids[1..1 + |d.cards|];
      forall a, b | 0 <= a < b < |cardIds|
        ensures cardIds[a] != cardIds[b]
      {
        assert cardIds[a] == ids[a + 1] && cardIds[b] == ids[b + 1];
      }
      ImportKeepsWellFormed(decks, d, ids[0], cardIds);
    case Replace(deckId, update) =>
      UpdateKeepsWellFormed(decks, deckId, update);
    case PostCard(deckId, card) =>
      AddCardKeepsWellFormed(decks, deckId, card, ids[0]);
    case DeleteCard(deckId, cardId) =>
      DeleteKeepsWellFormed(decks, deckId, cardId);
  }

  // ---------------------------------------------------------------------
  // A complete workflow

  /** The deck of the workflow below after each step, with generated deck id
      `d` and card ids `c1`, `c2`, `c3`. */
  function Lifecycle(step: nat, d: Id, c1: Id, c2: Id, c3: Id): Deck
  {
    var cat := Card(c1, "Cat", "Chat");
    var dog := Card(c2, "Dog", "Chien");
    var bird := Card(c3, "Bird", "Oiseau");
    if step == 0 then Deck(d, "French Basics", Some("Basic French vocabulary"), [cat, dog])
    else if step == 1 then Deck(d, "French Basics", Some("Basic French vocabulary"), [cat, dog, bird])
    else if step == 2 then Deck(d, "French Animals", Some("French vocabulary for animals"), [cat, dog, bird])
    else Deck(d, "French Animals", Some("French vocabulary for animals"), [dog, bird])
  }

  /** The import request of the workflow below. */
  function FrenchBasics(): DeckCreate
  {
    DeckCreate("French Basics", Some("Basic French vocabulary"), [CardBase("Cat", "Chat"), CardBase("Dog", "Chien")])
  }

  /** Step 1: importing the two-card deck stores it with the generated ids. */
  lemma LifecycleImport(d: Id, c1: Id, c2: Id, c3: Id)
    ensures Api.Handle([], Api.Import(FrenchBasics()), [d, c1, c2])
            == Api.Exchange(Api.DeckBody(Lifecycle(0, d, c1, c2, c3)), [Lifecycle(0, d, c1, c2, c3)])
  {
    assert [d, c1, c2][1..3] == [c1, c2];
    var cards := MintCards(FrenchBasics().cards, [c1, c2]);
    var want := Lifecycle(0, d, c1, c2, c3).cards;
    assert cards[0] == want[0] && cards[1] == want[1];
    assert cards == want;
  }

  /** Step 2: adding "Bird" appends it as the third card. */
  lemma LifecycleAddCard(d: Id, c1: Id, c2: Id, c3: Id)
    ensures Api.Handle([Lifecycle(0, d, c1, c2, c3)], Api.PostCard(d, CardBase("Bird", "Oiseau")), [c3])
            == Api.Exchange(Api.CardBody(Card(c3, "Bird", "Oiseau")), [Lifecycle(1, d, c1, c2, c3)])
  {
    assert IsFirstMatch([Lifecycle(0, d, c1, c2, c3)], d, 0);
    assert Lifecycle(0, d, c1, c2, c3).cards + [Card(c3, "Bird", "Oiseau")] == Lifecycle(1, d, c1, c2, c3).cards;
  }

  /** Step 3: the PUT renames the deck and keeps its three cards. */
  lemma LifecycleReplace(d: Id, c1: Id, c2: Id, c3: Id)
    ensures Api.Handle([Lifecycle(1, d, c1, c2, c3)],
                       Api.Replace(d, DeckBase("French Animals", Some("French vocabulary for animals"))), [])
            == Api.Exchange(Api.DeckBody(Lifecycle(2, d, c1, c2, c3)), [Lifecycle(2, d, c1, c2, c3)])
  {
    assert IsFirstMatch([Lifecycle(1, d, c1, c2, c3)], d, 0);
  }

  /** Steps 4 and 6: fetching the deck answers it unchanged. */
  lemma LifecycleFetch(deck: Deck)
    ensures Api.Handle([deck], Api.FetchDeck(deck.id), []) == Api.Exchange(Api.DeckBody(deck), [deck])
  {
    assert IsFirstMatch([deck], deck.id, 0);
  }

  /** Step 5: deleting the first card answers "Card deleted" and keeps the
      other two, whose ids differ from it. */
  lemma LifecycleDelete(d: Id, c1: Id, c2: Id, c3: Id)
    requires c1 != c2 && c1 != c3
    ensures Api.Handle([Lifecycle(2, d, c1, c2, c3)], Api.DeleteCard(d, c1), [])
            == Api.Exchange(Api.Message(CardDeleted), [Lifecycle(3, d, c1, c2, c3)])
  {
    assert IsFirstMatch([Lifecycle(2, d, c1, c2, c3)], d, 0);
    var cards := Lifecycle(2, d, c1, c2, c3).cards;
    assert cards[1..][1..][1..] == [];
    assert RemoveCard(cards[1..][1..], c1) == [cards[2]];
    assert RemoveCard(cards[1..], c1) == [cards[1], cards[2]];
    assert RemoveCard(cards, c1) == Lifecycle(3, d, c1, c2, c3).cards;
  }

  /** Steps 1 to 3 of the workflow below: import, add "Bird", rename. */
  lemma LifecycleRenamed(d: Id, c1: Id, c2: Id, c3: Id)
    ensures
      var x1 := Api.Handle([], Api.Import(FrenchBasics()), [d, c1, c2]);
      var x2 := Api.Handle(x1.store, Api.PostCard(d, CardBase("Bird", "Oiseau")), [c3]);
      var x3 := Api.Handle(x2.store, Api.Replace(d, DeckBase("French Animals", Some("French vocabulary for animals"))), []);
      x3.store == [Lifecycle(2, d, c1, c2, c3)]
  {
    var x1 := Api.Handle([], Api.Import(FrenchBasics()), [d, c1, c2]);
    assert x1.store == [Lifecycle(0, d, c1, c2, c3)] by {
      LifecycleImport(d, c1, c2, c3);
    }
    var x2 := Api.Handle(x1.store, Api.PostCard(d, CardBase("Bird", "Oiseau")), [c3]);
    assert x2.store == [Lifecycle(1, d, c1, c2, c3)] by {
      LifecycleAddCard(d, c1, c2, c3);
    }
    LifecycleReplace(d, c1, c2, c3);
  }

  /** Import a two-card deck, add a card, rename it, then delete its first
      card: the renamed deck holds three cards, then two. The first card's
      generated id differs from the others', as fresh UUIDs do. */
  lemma DeckLifecycle(d: Id, c1: Id, c2: Id, c3: Id)
    requires c1 != c2 && c1 != c3
    ensures
      var x1 := Api.Handle([], Api.Import(FrenchBasics()), [d, c1, c2]);
      var x2 := Api.Handle(x1.store, Api.PostCard(d, CardBase("Bird", "Oiseau")), [c3]);
      var x3 := Api.Handle(x2.store, Api.Replace(d, DeckBase("French Animals", Some("French vocabulary for animals"))), []);
      var x4 := Api.Handle(x3.store, Api.FetchDeck(d), []);
      && x4.reply.DeckBody?
      && x4.reply.deck.name == "French Animals"
      && x4.reply.deck.description == Some("French vocabulary for animals")
      && |x4.reply.deck.cards| == 3
      && var x5 := Api.Handle(x4.store, Api.DeleteCard(d, x4.reply.deck.cards[0].id), []);
         var x6 := Api.Handle(x5.store, Api.FetchDeck(d), []);
         && x5.reply == Api.Message(CardDeleted)
         && x6.reply.DeckBody?
         && |x6.reply.deck.cards| == 2
  {
    LifecycleRenamed(d, c1, c2, c3);
    LifecycleFetch(Lifecycle(2, d, c1, c2, c3));
    LifecycleDelete(d, c1, c2, c3);
    LifecycleFetch(Lifecycle(3, d, c1, c2, c3));
  }
}
