/**
 * The app's single state record `{ decks, activeDeckId }` and the bodies of
 * its event handlers. The handlers' prompts and confirmations arrive as
 * parameters: `None` for a cancelled prompt, `false` for a declined
 * confirmation. Fresh identifiers, which the app draws from the clock and
 * `Math.random`, arrive as parameters too, and the random draws of the
 * shuffle as a sequence `js`.
 */
module Flashcards {
  import opened Wrappers
  import opened Seqs
  import opened Text
  import opened Shuffle
  import opened Model

  class Store {
    var decks: seq<Deck>
    var activeDeckId: Option<string>

    /** Identifiers are unique: decks in the store, cards in each deck. */
    ghost predicate Valid()
      reads this
    {
      ValidDecks(decks)
    }

    /** The active reference is unset or names a deck that exists. */
    ghost predicate ActiveResolves()
      reads this
    {
      activeDeckId.None? || ActiveDeckIndex().Some?
    }

    /** The initial state: no decks, no active deck. */
    constructor ()
      ensures decks == [] && activeDeckId == None
      ensures Valid() && ActiveResolves()
    {
      decks := [];
      activeDeckId := None;
    }

    /** `getActiveDeck`, as the position of the deck it returns. */
    function ActiveDeckIndex(): Option<nat>
      reads this
    {
      DeckIndex(decks, activeDeckId)
    }

    /** `setActiveDeck`: records the identifier without checking that a deck has it. */
    method SetActiveDeck(id: string)
      modifies this
      ensures decks == old(decks) && activeDeckId == Some(id)
    {
      activeDeckId := Some(id);
    }

    /** The new-deck handler; `newId` stands for the fresh `uid()`. */
    method CreateDeck(newId: string, name: Option<string>)
      requires newId != "" && forall k :: 0 <= k < |decks| ==> decks[k].id != newId
      modifies this
      ensures Falsy(name) ==> decks == old(decks) && activeDeckId == old(activeDeckId)
      ensures !Falsy(name) ==> decks == old(decks) + [Deck(newId, Trim(name.value), [])]
      ensures !Falsy(name) ==> activeDeckId == Some(newId) && ActiveDeckIndex() == Some(|old(decks)|)
      ensures old(Valid()) ==> Valid()
      ensures old(ActiveResolves()) ==> ActiveResolves()
    {
      if Falsy(name) {
        return;
      }
      var deck := Deck(newId, Trim(name.value), []);
      DeckIndexOfAppended(decks, deck);
      decks := decks + [deck];
      SetActiveDeck(deck.id);
    }

    /** The edit-deck handler: renames the active deck in place. */
    method RenameActiveDeck(name: Option<string>)
      modifies this
      ensures activeDeckId == old(activeDeckId)
      ensures old(ActiveDeckIndex()).None? || Falsy(name) ==> decks == old(decks)
      ensures var i := old(ActiveDeckIndex());
        i.Some? && !Falsy(name) ==> decks == old(decks)[i.value := old(decks)[i.value].(name := Trim(name.value))]
      ensures old(Valid()) ==> Valid()
      ensures old(ActiveResolves()) ==> ActiveResolves()
    {
      var i := ActiveDeckIndex();
      if i.None? {
        return;
      }
      if Falsy(name) {
        return;
      }
      var renamed := decks[i.value := decks[i.value].(name := Trim(name.value))];
      DeckIndexReadsIds(decks, renamed, activeDeckId);
      assert forall k :: 0 <= k < |renamed| ==> DeckId(renamed[k]) == DeckId(decks[k]);
      decks := renamed;
    }

    /**
     * The delete-deck handler: drops the active deck's identifier from the
     * store and makes the first remaining deck active, or none.
     */
    method DeleteActiveDeck(confirmed: bool)
      modifies this
      ensures old(ActiveDeckIndex()).None? || !confirmed ==> decks == old(decks) && activeDeckId == old(activeDeckId)
      ensures var i := old(ActiveDeckIndex());
        i.Some? && confirmed ==> decks == WithoutDeck(old(decks), old(decks)[i.value].id)
      ensures old(ActiveDeckIndex()).Some? && confirmed ==>
        activeDeckId == if decks == [] then None else Some(decks[0].id)
      ensures var i := old(ActiveDeckIndex());
        i.Some? && confirmed && old(Valid()) ==> decks == old(decks)[..i.value] + old(decks)[i.value + 1..]
      ensures old(Valid()) ==> Valid()
      ensures old(ActiveResolves()) ==> ActiveResolves()
    {
      var i := ActiveDeckIndex();
      if i.None? {
        return;
      }
      if !confirmed {
        return;
      }
      var id := decks[i.value].id;
      if Valid() {
        WithoutDeckRemovesOne(decks, i.value);
        WithoutDeckKeepsValid(decks, id);
      }
      decks := WithoutDeck(decks, id);
      activeDeckId := if |decks| > 0 then Some(decks[0].id) else None;
    }

    /** The new-card handler: appends a card to the active deck; `cardId` stands for the fresh `uid()`. */
    method AddCard(cardId: string, front: Option<string>, back: Option<string>)
      requires forall k, m :: 0 <= k < |decks| && 0 <= m < |decks[k].cards| ==> decks[k].cards[m].id != cardId
      modifies this
      ensures activeDeckId == old(activeDeckId)
      ensures old(ActiveDeckIndex()).None? || front.None? || back.None? ==> decks == old(decks)
      ensures var i := old(ActiveDeckIndex());
        i.Some? && front.Some? && back.Some? ==>
          var d := old(decks)[i.value];
          decks == old(decks)[i.value := d.(cards := d.cards + [Card(cardId, Trim(front.value), Trim(back.value))])]
      ensures old(Valid()) ==> Valid()
      ensures old(ActiveResolves()) ==> ActiveResolves()
    {
      var i := ActiveDeckIndex();
      if i.None? {
        return;
      }
      if front.None? {
        return;
      }
      if back.None? {
        return;
      }
      var d := decks[i.value];
      var cards := d.cards + [Card(cardId, Trim(front.value), Trim(back.value))];
      AppendFreshCardKeepsUnique(d.cards, Card(cardId, Trim(front.value), Trim(back.value)));
      ReplaceCards(decks, i.value, cards, activeDeckId);
      decks := decks[i.value := d.(cards := cards)];
    }

    /** The card edit handler: rewrites the first card with `cardId` in the active deck, in place. */
    method EditCard(cardId: string, front: Option<string>, back: Option<string>)
      modifies this
      ensures activeDeckId == old(activeDeckId)
      ensures var i := old(ActiveDeckIndex());
        i.None? || CardIndex(old(decks)[i.value].cards, cardId).None? || front.None? || back.None? ==>
          decks == old(decks)
      ensures var i := old(ActiveDeckIndex());
        i.Some? && CardIndex(old(decks)[i.value].cards, cardId).Some? && front.Some? && back.Some? ==>
          var d := old(decks)[i.value];
          var k := CardIndex(d.cards, cardId).value;
          decks == old(decks)[i.value := d.(cards := d.cards[k := Card(cardId, Trim(front.value), Trim(back.value))])]
      ensures old(Valid()) ==> Valid()
      ensures old(ActiveResolves()) ==> ActiveResolves()
    {
      var i := ActiveDeckIndex();
      if i.None? {
        return;
      }
      var d := decks[i.value];
      var k := CardIndex(d.cards, cardId);
      if k.None? {
        return;
      }
      if front.None? {
        return;
      }
      if back.None? {
        return;
      }
      var card := d.cards[k.value];
      var cards := d.cards[k.value := card.(front := Trim(front.value), back := Trim(back.value))];
      UpdateCardKeepsUnique(d.cards, k.value, card.(front := Trim(front.value), back := Trim(back.value)));
      ReplaceCards(decks, i.value, cards, activeDeckId);
      decks := decks[i.value := d.(cards := cards)];
    }

    /** The card delete handler: drops every card with `cardId` from the active deck. */
    method DeleteCard(cardId: string, confirmed: bool)
      modifies this
      ensures activeDeckId == old(activeDeckId)
      ensures old(ActiveDeckIndex()).None? || !confirmed ==> decks == old(decks)
      ensures var i := old(ActiveDeckIndex());
        i.Some? && confirmed ==>
          var d := old(decks)[i.value];
          decks == old(decks)[i.value := d.(cards := WithoutCard(d.cards, cardId))]
      ensures old(Valid()) ==> Valid()
      ensures old(ActiveResolves()) ==> ActiveResolves()
    {
      var i := ActiveDeckIndex();
      if i.None? {
        return;
      }
      if !confirmed {
        return;
      }
      var d := decks[i.value];
      var cards := WithoutCard(d.cards, cardId);
      if UniqueKeys(d.cards, CardId) {
        SubseqKeepsUniqueKeys(cards, d.cards, CardId);
      }
      ReplaceCards(decks, i.value, cards, activeDeckId);
      decks := decks[i.value := d.(cards := cards)];
    }

    /** The shuffle handler: runs the shuffle loop over the active deck's cards. */
    method ShuffleActiveDeck(js: seq<nat>)
      requires ActiveDeckIndex().Some? ==> |js| == |decks[ActiveDeckIndex().value].cards| && ValidDraws(js)
      modifies this
      ensures activeDeckId == old(activeDeckId)
      ensures old(ActiveDeckIndex()).None? ==> decks == old(decks)
      ensures var i := old(ActiveDeckIndex());
        i.Some? ==>
          var d := old(decks)[i.value];
          decks == old(decks)[i.value := d.(cards := Shuffled(d.cards, js, |d.cards| - 1))]
      ensures var i := old(ActiveDeckIndex());
        i.Some? ==> multiset(decks[i.value].cards) == multiset(old(decks)[i.value].cards)
      ensures old(Valid()) ==> Valid()
      ensures old(ActiveResolves()) ==> ActiveResolves()
    {
      var i := ActiveDeckIndex();
      if i.None? {
        return;
      }
      var d := decks[i.value];
      var a := new Card[|d.cards|](k requires 0 <= k < |d.cards| => d.cards[k]);
      assert a[..] == d.cards;
      ShuffleInPlace(a, js);
      var cards := a[..];
      assert cards == Shuffled(d.cards, js, |d.cards| - 1);
      if UniqueKeys(d.cards, CardId) {
        ShuffledKeepsUniqueKeys(d.cards, js, |d.cards| - 1, CardId);
      }
      ReplaceCards(decks, i.value, cards, activeDeckId);
      decks := decks[i.value := d.(cards := cards)];
    }

    /** Start-up: with no (or an empty) active identifier and some decks, the first deck becomes active. */
    method PickFirstDeckIfUnset()
      modifies this
      ensures decks == old(decks)
      ensures Falsy(old(activeDeckId)) && |decks| > 0 ==> activeDeckId == Some(decks[0].id) && ActiveDeckIndex() == Some(0)
      ensures !(Falsy(old(activeDeckId)) && |decks| > 0) ==> activeDeckId == old(activeDeckId)
      ensures old(ActiveResolves()) ==> ActiveResolves()
    {
      if Falsy(activeDeckId) && |decks| > 0 {
        activeDeckId := Some(decks[0].id);
      }
    }
  }
}
