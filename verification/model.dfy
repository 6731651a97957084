/**
 * The store's data: decks of front/back cards. The handlers find a deck or
 * card with `find`, drop one with `filter`, and narrow the card grid with a
 * search `filter`; those steps are the functions below.
 */
module Model {
  import opened Wrappers
  import opened Seqs
  import opened Text

  datatype Card = Card(id: string, front: string, back: string)

  datatype Deck = Deck(id: string, name: string, cards: seq<Card>)

  function DeckId(d: Deck): string { d.id }

  function CardId(c: Card): string { c.id }

  /** JavaScript's `!v` for a string-or-null value: true for `null` and for `""` only. */
  predicate Falsy(v: Option<string>)
  {
    v.None? || v.value == ""
  }

  /** Deck identifiers are unique in the store, card identifiers within each deck. */
  ghost predicate ValidDecks(decks: seq<Deck>)
  {
    && UniqueKeys(decks, DeckId)
    && forall k :: 0 <= k < |decks| ==> UniqueKeys(decks[k].cards, CardId)
  }

  function HasDeckId(id: Option<string>): Deck -> bool
  {
    (d: Deck) => Some(d.id) == id
  }

  /**
   * `decks.find(d => d.id === id)`, as a position: the first deck whose
   * identifier is `id`. A `null` id matches no deck.
   */
  function DeckIndex(decks: seq<Deck>, id: Option<string>): (r: Option<nat>)
    ensures r.Some? ==> r.value < |decks| && Some(decks[r.value].id) == id
    ensures r.Some? ==> forall k :: 0 <= k < r.value ==> Some(decks[k].id) != id
    ensures r.None? <==> forall k :: 0 <= k < |decks| ==> Some(decks[k].id) != id
  {
    Find(decks, HasDeckId(id))
  }

  /** Which deck is found depends on the decks' identifiers only. */
  lemma DeckIndexReadsIds(a: seq<Deck>, b: seq<Deck>, id: Option<string>)
    requires |a| == |b| && forall k :: 0 <= k < |a| ==> a[k].id == b[k].id
    ensures DeckIndex(a, id) == DeckIndex(b, id)
  {
    var ra, rb := DeckIndex(a, id), DeckIndex(b, id);
    if ra.Some? && rb.Some? {
      assert !(ra.value < rb.value) && !(rb.value < ra.value);
    }
  }

  /** A deck appended with a fresh identifier is the one found by that identifier. */
  lemma DeckIndexOfAppended(decks: seq<Deck>, d: Deck)
    requires forall k :: 0 <= k < |decks| ==> decks[k].id != d.id
    ensures DeckIndex(decks + [d], Some(d.id)) == Some(|decks|)
  {
    assert (decks + [d])[|decks|] == d;
  }

  function HasCardId(id: string): Card -> bool
  {
    (c: Card) => c.id == id
  }

  /** `deck.cards.find(c => c.id === id)`, as a position: the first card whose identifier is `id`. */
  function CardIndex(cards: seq<Card>, id: string): (r: Option<nat>)
    ensures r.Some? ==> r.value < |cards| && cards[r.value].id == id
    ensures r.Some? ==> forall k :: 0 <= k < r.value ==> cards[k].id != id
    ensures r.None? <==> forall k :: 0 <= k < |cards| ==> cards[k].id != id
  {
    Find(cards, HasCardId(id))
  }

  function OtherDeck(id: string): Deck -> bool
  {
    (d: Deck) => d.id != id
  }

  /** `decks.filter(d => d.id !== id)`: every deck but those with that identifier, in order. */
  function WithoutDeck(decks: seq<Deck>, id: string): (r: seq<Deck>)
    ensures IsSubseq(r, decks)
    ensures forall d :: d in r <==> d in decks && d.id != id
  {
    FilterIsSubseq(decks, OtherDeck(id));
    Filter(decks, OtherDeck(id))
  }

  function OtherCard(id: string): Card -> bool
  {
    (c: Card) => c.id != id
  }

  /** `cards.filter(c => c.id !== id)`: every card but those with that identifier, in order. */
  function WithoutCard(cards: seq<Card>, id: string): (r: seq<Card>)
    ensures IsSubseq(r, cards)
    ensures forall c :: c in r <==> c in cards && c.id != id
  {
    FilterIsSubseq(cards, OtherCard(id));
    Filter(cards, OtherCard(id))
  }

  /** With unique identifiers, removing a deck by its identifier removes exactly that deck. */
  lemma WithoutDeckRemovesOne(decks: seq<Deck>, i: nat)
    requires UniqueKeys(decks, DeckId) && i < |decks|
    ensures WithoutDeck(decks, decks[i].id) == decks[..i] + decks[i + 1..]
  {
    FilterRemovesOne(decks, OtherDeck(decks[i].id), i);
  }

  /** With unique identifiers, removing a card by its identifier removes exactly that card. */
  lemma WithoutCardRemovesOne(cards: seq<Card>, i: nat)
    requires UniqueKeys(cards, CardId) && i < |cards|
    ensures WithoutCard(cards, cards[i].id) == cards[..i] + cards[i + 1..]
  {
    FilterRemovesOne(cards, OtherCard(cards[i].id), i);
  }

  /** Removing an identifier that no card carries leaves the cards as they were. */
  lemma WithoutAbsentCard(cards: seq<Card>, id: string)
    requires CardIndex(cards, id).None?
    ensures WithoutCard(cards, id) == cards
  {
    FilterKeepsAll(cards, OtherCard(id));
  }

  lemma WithoutDeckKeepsValid(decks: seq<Deck>, id: string)
    requires ValidDecks(decks)
    ensures ValidDecks(WithoutDeck(decks, id))
  {
    var r := WithoutDeck(decks, id);
    SubseqKeepsUniqueKeys(r, decks, DeckId);
    forall k | 0 <= k < |r|
      ensures UniqueKeys(r[k].cards, CardId)
    {
      assert r[k] in decks;
    }
  }

  /**
   * Giving one deck new cards changes no identifier: the same deck is found
   * for every identifier, and unique card identifiers stay unique.
   */
  lemma ReplaceCards(decks: seq<Deck>, i: nat, cards: seq<Card>, id: Option<string>)
    requires i < |decks|
    ensures DeckIndex(decks[i := decks[i].(cards := cards)], id) == DeckIndex(decks, id)
    ensures ValidDecks(decks) && UniqueKeys(cards, CardId) ==> ValidDecks(decks[i := decks[i].(cards := cards)])
  {
    var r := decks[i := decks[i].(cards := cards)];
    assert forall k :: 0 <= k < |r| ==> DeckId(r[k]) == DeckId(decks[k]);
    DeckIndexReadsIds(r, decks, id);
  }

  lemma AppendFreshCardKeepsUnique(cards: seq<Card>, c: Card)
    requires forall m :: 0 <= m < |cards| ==> cards[m].id != c.id
    ensures UniqueKeys(cards, CardId) ==> UniqueKeys(cards + [c], CardId)
  {
  }

  lemma UpdateCardKeepsUnique(cards: seq<Card>, k: nat, c: Card)
    requires k < |cards| && cards[k].id == c.id
    ensures UniqueKeys(cards, CardId) ==> UniqueKeys(cards[k := c], CardId)
  {
    assert forall m :: 0 <= m < |cards| ==> CardId(cards[k := c][m]) == CardId(cards[m]);
  }

  /** The search box's text as the filter uses it: lower-cased, then trimmed. */
  function NormalizeQuery(input: string): string
  {
    Trim(ToLower(input))
  }

  /** A card passes when the query is empty or occurs in its lower-cased `front + ' ' + back`. */
  predicate CardMatches(c: Card, q: string)
  {
    q == [] || Contains(ToLower(c.front + " " + c.back), q)
  }

  function MatchesQuery(q: string): Card -> bool
  {
    (c: Card) => CardMatches(c, q)
  }

  /** The cards the grid shows for the search box's text `input`. */
  function Search(cards: seq<Card>, input: string): (r: seq<Card>)
    ensures IsSubseq(r, cards)
    ensures forall c :: c in r <==> c in cards && CardMatches(c, NormalizeQuery(input))
    ensures NormalizeQuery(input) == [] ==> r == cards
    ensures (forall k :: 0 <= k < |cards| ==> CardMatches(cards[k], NormalizeQuery(input))) ==> r == cards
    ensures (forall k :: 0 <= k < |cards| ==> !CardMatches(cards[k], NormalizeQuery(input))) ==> r == []
  {
    var q := NormalizeQuery(input);
    var r := Filter(cards, MatchesQuery(q));
    assert (forall k :: 0 <= k < |cards| ==> CardMatches(cards[k], q)) ==> r == cards by {
      if forall k :: 0 <= k < |cards| ==> CardMatches(cards[k], q) {
        FilterKeepsAll(cards, MatchesQuery(q));
      }
    }
    FilterIsSubseq(cards, MatchesQuery(q));
    assert r != [] ==> r[0] in r;
    r
  }

  /** Search keeps every matching card as many times as the deck holds it. */
  lemma SearchKeepsMultiplicity(cards: seq<Card>, input: string)
    ensures forall c ::
      multiset(Search(cards, input))[c] == if CardMatches(c, NormalizeQuery(input)) then multiset(cards)[c] else 0
  {
    FilterCount(cards, MatchesQuery(NormalizeQuery(input)));
  }

  /** Search ignores the letter case of the query. */
  lemma SearchIgnoresQueryCase(cards: seq<Card>, input: string)
    ensures Search(cards, ToLower(input)) == Search(cards, input)
  {
    ToLowerIdempotent(input);
  }
}
