/**
 * Client code: short sessions with the store, each checked from the
 * operations' contracts alone, as a caller of the store would.
 */
module Scenarios {
  import opened Wrappers
  import opened Seqs
  import opened Text
  import opened Model
  import opened Flashcards

  /** Two decks; the one created last is active; deleting it makes the other active. */
  method DeleteNewestDeck()
  {
    var store := new Store();
    store.CreateDeck("a", Some("A"));
    store.CreateDeck("b", Some("B"));
    assert store.ActiveDeckIndex() == Some(1);
    store.DeleteActiveDeck(true);
    assert |store.decks| == 1 && store.decks[0].id == "a";
    assert store.activeDeckId == Some("a");
  }

  /** A deck with one card; deleting the active deck leaves no deck and no active deck. */
  method AddCardThenDeleteDeck()
  {
    var store := new Store();
    store.CreateDeck("d", Some("D"));
    assert store.decks == [Deck("d", Trim("D"), [])] && store.ActiveDeckIndex() == Some(0);
    store.AddCard("c", Some("Q"), Some("A"));
    assert |store.decks| == 1 && |store.decks[0].cards| == 1 && store.decks[0].cards[0].id == "c";
    store.DeleteActiveDeck(true);
    assert store.decks == [] && store.activeDeckId == None;
  }

  /** The lower-case query "q" finds the card whose front is "Q". */
  method SearchIgnoresCase()
  {
    var card := Card("c", "Q", "A");
    assert NormalizeQuery("q") == "q" by {
      TrimUnique([], "q", []);
      assert [] + "q" + [] == "q";
    }
    assert CardMatches(card, "q") by {
      assert OccursAt(ToLower(card.front + " " + card.back), "q", 0);
    }
    var found := Search([card], "q");
    assert found == [card];
  }

  /** A whitespace-only front is not refused: the card is stored with an empty front. */
  method BlankFrontIsStored()
  {
    var store := new Store();
    store.CreateDeck("d", Some("D"));
    store.AddCard("c", Some("  "), Some("x"));
    TrimEmptyIffBlank("  ");
    assert |store.decks[0].cards| == 1 && store.decks[0].cards[0].front == "";
  }
}
