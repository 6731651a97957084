# Flashcards store, modelled in Dafny

The flashcards app (`app.js`) is a single-page deck manager. Its whole state
is one record `{ decks, activeDeckId }`. A deck has an identifier, a name and
an ordered list of cards. A card has an identifier, a front text and a back
text. Event handlers change this state:

- create, rename, delete and select a deck;
- add, edit and delete a card of the active deck;
- shuffle the active deck.

The card grid shows the cards that match the search box. Card text passes
through `escapeHtml` before it goes into the grid's markup.

The model follows the source's own form:

- `wrappers.dfy`: `Option`, standing for a value that may be `null`.
- `seqs.dfy`: `Array.prototype.find` and `Array.prototype.filter` as
  functions over sequences, with the facts the store relies on. These are:
  order kept, multiplicities kept, exactly one element removed, and unique
  keys kept.
- `text.dfy`: `String.prototype.trim`, which strips exactly the ECMAScript
  whitespace set. Also `toLowerCase` and `includes`.
- `escape.dfy`: `escapeHtml` as the source writes it, three chained global
  `replace` calls. Proved to escape each character once. Decoding the three
  entities `escapeHtml` emits recovers the text.
- `shuffle.dfy`: the shuffle button's loop, in place on an array, proved
  against a specification function `Shuffled`. The random draws are a
  parameter `js`: `js[i]` is the `j` drawn when the loop is at `i`, so
  `0 <= js[i] <= i`.
- `model.dfy`: `Card` and `Deck` values, the `find` and `filter` steps the
  handlers use, and the search filter of `renderCards`.
- `store.dfy`: class `Store` with the two fields of `state`. Each handler is
  a method whose `ensures` gives the complete new state. Two invariants are
  stated: identifiers stay unique, and a non-null active reference names an
  existing deck. Every method except `SetActiveDeck` keeps both.
  `SetActiveDeck` keeps the first and may break the second, because
  `setActiveDeck` (app.js:39) does not check the identifier.
- `scenarios.dfy`: short client sessions, checked from the contracts alone.

A prompt's answer is an `Option<string>` parameter, where `None` is a
cancelled prompt. A `confirm` answer is a `bool` parameter. The fresh
identifier that `uid()` would produce is a parameter, as are the shuffle's
draws.

The handlers accept more than one might expect; the model follows the code
as written:

- `if(!name) return` refuses only `null` and `""`. A whitespace-only deck
  name is therefore accepted and stored as `""` after `trim`.
- A card front or back is refused only when it is `null`. A whitespace-only
  text is accepted and stored as `""` (`Scenarios.BlankFrontIsStored`).
- The handlers act on the active deck found by `getActiveDeck`. They do not
  take a deck identifier.
- `setActiveDeck` records any identifier without checking that a deck has it.
  The deck-list click passes the clicked item's identifier.
- Deleting a deck always deletes the active deck. Afterwards the first
  remaining deck becomes active, or none.
- The search text is lower-cased and then trimmed.
- A card matches when the query occurs in `front + ' ' + back`. A query can
  therefore match across the space between front and back.

## Model

| member | source | states |
|---|---|---|
| Seqs.Find | app.js:37 | the result is the first position whose element satisfies the predicate; it is none exactly when no element does |
| Seqs.Filter | app.js:53 | a value is in the result exactly when it is in the input and passes the predicate |
| Seqs.FilterIsSubseq | app.js:53 | filter keeps the kept elements in their original order (the result is a subsequence of the input) |
| Seqs.FilterCount | app.js:53 | each passing value is kept as many times as it occurs; each failing value occurs zero times |
| Seqs.FilterKeepsAll | app.js:53 | when every element passes, filter returns the input unchanged |
| Seqs.FilterRemovesOne | app.js:105 | when exactly one element fails, filter returns the input with that one element cut out |
| Seqs.SubseqKeepsUniqueKeys | app.js:105 | dropping elements cannot make two identifiers collide |
| Text.TrimSpec | app.js:85 | `Text.Trim` (`trim` at app.js:85, 99, 114 and 137) strips the characters of `Text.IsWhitespace`, ECMAScript's WhiteSpace and LineTerminator set: trim's result has no whitespace at either end, and only whitespace surrounds it in the input |
| Text.TrimUnique | app.js:85 | for `Text.Trim`: any trimmed string padded with whitespace trims back to exactly that string, so trim is fully determined by TrimSpec |
| Text.TrimIdempotent | app.js:85 | trimming twice equals trimming once |
| Text.TrimEmptyIffBlank | app.js:84-85 | trim yields "" exactly when the input is all whitespace; such a name passes `!name` and is stored as "" |
| Text.ToLower | app.js:52 | same length; every character is lower-cased; no ASCII capital remains |
| Text.ToLowerIdempotent | app.js:52 | lower-casing twice equals lower-casing once |
| Text.Contains | app.js:53 | `includes` is true exactly when the needle occurs at some position of the text |
| Escape.ReplaceAllChar | app.js:79 | on a single character, `replace(/c/g, rep)` gives `rep` when the character is `c` and the character itself otherwise |
| Escape.ReplaceAllAppend | app.js:79 | a global `replace` works piecewise: replacing in `a + b` is replacing in `a` followed by replacing in `b`; with `Escape.ReplaceAllChar` this fixes `ReplaceAll` on every string as "each `c` becomes `rep`, every other character stays" |
| Escape.ReplaceAll | app.js:79 | a global replace produces only characters of the replacement or characters of the input other than the one replaced; without an occurrence the input is unchanged |
| Escape.EscapeHtml | app.js:79 | the escaped text contains no `<` and no `>`; text without `&`, `<` or `>` is unchanged |
| Escape.EscapeHtmlIsCharwise | app.js:79 | the three chained replacements escape each character exactly once, because `&` is replaced first |
| Escape.UnescapeEscapeHtml | app.js:69-79 | decoding the three entities `escapeHtml` emits (`Escape.Unescape`) recovers exactly the card's text, for every text |
| Shuffle.ShuffledPermutes | app.js:120 | `Shuffle.Shuffled` is the loop at app.js:120 written as a function (the swaps for `i`, `i - 1`, ..., `1` in that order); whatever the draws, the shuffle returns the same cards, each as often |
| Shuffle.ShuffleInPlace | app.js:120 | the in-place loop leaves the array equal to `Shuffled` of its old contents; it is a permutation; arrays of fewer than two cards are untouched |
| Shuffle.EveryPermutationReachable | app.js:120 | for every rearrangement of the cards, some valid draws produce it |
| Shuffle.DrawsDetermineShuffle | app.js:120 | on cards with distinct identifiers, different draws give different orders; with the previous row, draws and orders correspond one to one, so uniform draws give a uniform shuffle |
| Shuffle.ShuffledKeepsUniqueKeys | app.js:120 | shuffling cannot make two card identifiers collide |
| Model.DeckIndex | app.js:37 | `getActiveDeck`'s `find`, which `Flashcards.Store.ActiveDeckIndex` applies to the store's fields: the first deck whose identifier is the active one; none when no deck has it, including a null id |
| Model.DeckIndexReadsIds | app.js:37 | which deck is found depends only on the decks' identifiers |
| Model.DeckIndexOfAppended | app.js:86-87 | a deck pushed with a fresh identifier is the deck that `setActiveDeck` then makes active |
| Model.CardIndex | app.js:134 | the first card with the identifier, or none when no card has it |
| Model.WithoutDeck | app.js:105 | the decks without the given identifier, in their order; a deck is kept exactly when its identifier differs |
| Model.WithoutDeckRemovesOne | app.js:105 | with unique identifiers, the filter removes exactly the deleted deck and keeps the others in order |
| Model.WithoutDeckKeepsValid | app.js:105 | deleting a deck keeps deck and card identifiers unique |
| Model.WithoutCard | app.js:145 | the cards without the given identifier, in their order; a card is kept exactly when its identifier differs |
| Model.WithoutCardRemovesOne | app.js:145 | with unique identifiers, the filter removes exactly the deleted card |
| Model.WithoutAbsentCard | app.js:145 | deleting an identifier that no card has leaves the cards as they were |
| Model.ReplaceCards | app.js:114 | replacing one deck's cards changes which deck any identifier finds in no way, and keeps identifiers unique when the new cards' identifiers are unique |
| Model.AppendFreshCardKeepsUnique | app.js:114 | pushing a card with a fresh identifier keeps card identifiers unique |
| Model.UpdateCardKeepsUnique | app.js:137 | editing a card's texts keeps card identifiers unique |
| Model.Search | app.js:52-53 | with `Model.NormalizeQuery` (the search text lower-cased, then trimmed, app.js:52) and `Model.CardMatches` (`!q` or the query occurs in the lower-cased `front + ' ' + back`, app.js:53): the shown cards are a subsequence of the deck; a card is shown exactly when it matches the normalised query; an empty query, or a query every card matches, shows the whole deck; a query no card matches shows nothing |
| Model.SearchKeepsMultiplicity | app.js:53 | search keeps each matching card as many times as the deck holds it, and no other card |
| Model.SearchIgnoresQueryCase | app.js:52 | lower-casing the search text first does not change the result |
| Flashcards.Store.constructor | app.js:17 | the initial state has no decks and no active deck |
| Flashcards.Store.SetActiveDeck | app.js:39 | the active identifier becomes the given one; the decks are unchanged |
| Flashcards.Store.CreateDeck | app.js:82-89 | a name for which `Model.Falsy` holds (`!name` at app.js:84: null or "") changes nothing; otherwise a deck with the trimmed name and no cards is appended and becomes the active deck; identifiers stay unique and the active reference resolves |
| Flashcards.Store.RenameActiveDeck | app.js:96-100 | with an active deck and a name that is not `Model.Falsy` (app.js:98), only that deck's name changes, to the trimmed name; otherwise nothing changes |
| Flashcards.Store.DeleteActiveDeck | app.js:102-108 | with an active deck and a confirmation, the decks become the old decks without that identifier (exactly that one deck removed when identifiers are unique), and the active reference becomes the first remaining deck or null; otherwise nothing changes |
| Flashcards.Store.AddCard | app.js:110-116 | with an active deck and both texts given, a card with the trimmed texts is appended to that deck only; otherwise nothing changes |
| Flashcards.Store.EditCard | app.js:131-139 | with an active deck holding the card and both texts given, that card's texts become the trimmed texts in place; otherwise nothing changes |
| Flashcards.Store.DeleteCard | app.js:141-147 | with an active deck and a confirmation, that deck's cards become its cards without the identifier; otherwise nothing changes |
| Flashcards.Store.ShuffleActiveDeck | app.js:118-122 | the active deck's cards become `Shuffled` of its old cards under the given draws, a permutation of them; the other decks and the active reference are unchanged |
| Flashcards.Store.PickFirstDeckIfUnset | app.js:159 | at start-up, a `Model.Falsy` (null or "") active reference with at least one deck becomes the first deck's identifier, which then resolves; otherwise nothing changes |

## Left out

- Rendering is not modelled: `renderDeckList`, `renderAll`, the markup built by `renderCards`, button enabling and the "No cards" message. Only the card list that `renderCards` computes is modelled, as `Model.Search`.
- Event wiring and the DOM lookups (`closest`, `dataset`) are not modelled. Each handler is modelled from the point where it has the identifier or the prompt answer.
- The `is-flipped` toggle on card click is presentation only and is not modelled.
- `save` and `load` are persistence I/O and are not modelled. This includes `load`'s unguarded `JSON.parse`, which throws on malformed stored data.
- `prompt` and `confirm` are user input. They are parameters: `Option<string>` and `bool`.
- `uid()` reads the clock and `Math.random`. Its result is a parameter.
- Flashcards.Store.CreateDeck: requires the new identifier to be non-empty and unused by any deck. The source relies on `uid()` for this but does not check it.
- Flashcards.Store.AddCard: requires the new card identifier to be unused in every deck, for the same reason.
- `Math.random` in the shuffle is replaced by the draw sequence `js`. Uniformity is a probability statement and is not stated. The model proves what it rests on: every permutation is reachable, and on cards with distinct identifiers distinct draws give distinct orders.
- Text.ToLower: lower-cases the ASCII letters only. JavaScript's full Unicode case mapping, including mappings that change a string's length, is not modelled.
- JavaScript strings are sequences of UTF-16 code units. The model's strings are sequences of Dafny characters.
- Escape.Unescape: decodes only `&amp;`, `&lt;` and `&gt;`. The other steps of a browser's HTML parser are not modelled, so the model does not say what a browser shows. Examples are turning CR and CR LF into LF, dropping U+0000, and decoding other character references.
- `escapeHtml`'s `String(s)` conversion is not modelled, because card texts are always strings here.
- `searchInput.value` is modelled as the `input` parameter of `Model.Search`. The `searchInput &&` guards for a missing box are not modelled.
