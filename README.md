# Book catalogue filter

A Dafny model of the book catalogue page of `src/components/Books.tsx`. The page
fetches a list of books and a list of genres. It shows a genre sidebar, a search
box, a count and a grid of book cards. Its behaviour is a small state machine
over three pieces of view state:

- the books on display (`filteredBooks`, here `Catalog.filtered`);
- the selected genre (`type`, here `Catalog.selected`);
- the search text (`searchQuery`, here `Catalog.query`).

Two event handlers change that state, and each one resets the other's criterion:

- a click on a genre tile (`Catalog.SelectGenre`) filters by exact genre name;
  the reserved name "All Genres" shows every book;
- a change in the search box (`Catalog.Search`) filters by a case-insensitive
  title prefix.

An effect (`Catalog.OnBooksChanged`) depends on the book list. It runs when the
query delivers a list that differs from the previous one, and then puts the whole
list on display. A result equal to the previous one changes nothing. A gate
(`Gate`) shows a loading message while either fetch is pending, then an error
message if either failed, and otherwise the page (`Catalog.Render`).

Layout:

- `wrappers.dfy`: `Option`, for values that may be absent.
- `sequences.dfy`: `Filter`, the semantics of `Array.prototype.filter`, and
  `IsSubsequence`, order-preserving selection. It also proves that the filter is
  the longest, and the only longest, subsequence whose elements all pass the test.
- `text.dfy`: `Lower` (`toLowerCase` on ASCII letters) and `StartsWith`.
- `books.dfy`: the records, the two filters, the gate, the highlight test, the
  `Catalog` class with its handlers, the rendered page and worked examples.

The class invariant `Catalog.Valid` says that the books on display are always an
order-preserving selection from the last list that arrived. `Replay` runs the
handlers and the effect over any sequence of events and proves what the invariant
buys: every book on display comes from the last list, and nothing is on display
before the first list.

`Catalog.ShowsCriteria` says that the display agrees with the sidebar and the
search box. Both handlers establish it. The effect at lines 78-82 establishes it
only when the current criteria keep every book. The case that happens on the page
is a refetch that brings a changed list after a genre click or a search: the new
list is shown whole while the tile stays highlighted or the text stays in the box
(`ChangedListAfterGenre`). A refetch that brings an equal list keeps the filtered
display (`SameListAfterGenre`).

A handler called before any list has arrived leaves the display unchanged. It
still records its criterion and clears the other one. On the page the tiles and
the search box appear only once the gate at lines 110-111 has passed. So this
happens only when a fetch succeeded without delivering a list (a `null` response
body) and a later refetch brings one (`SearchBeforeLoad`).

A query of `" "` is not a reset: it keeps only the titles that start with a
space. Only the empty query `""` shows every book.

## Model

| member | source | states |
|---|---|---|
| Sequences.Filter | src/components/Books.tsx:89 | every element kept passes the test and comes from the input; every input element that passes is kept; never longer than the input |
| Sequences.FilterIsSubsequence | src/components/Books.tsx:102-104 | the filter keeps the relative order of what it keeps |
| Sequences.FilterIsLongest | src/components/Books.tsx:89 | no order-preserving selection of passing elements is longer than the filter |
| Sequences.FilterIsUnique | src/components/Books.tsx:89 | an order-preserving selection of passing elements as long as the filter is the filter |
| Text.LowerChar | src/components/Books.tsx:103 | the result is never an upper-case letter; upper-case ASCII letters map to their lower-case letter and every other character is kept |
| Text.Lower | src/components/Books.tsx:103 | same length; no upper-case letter remains; each character equals the original up to case |
| Text.StartsWith | src/components/Books.tsx:103 | true exactly when the prefix is no longer than the string and the string's leading characters of that length equal it |
| Text.LowerIdempotent | src/components/Books.tsx:103 | lower-casing an already lower-cased string changes nothing |
| Text.LowerKeepsPrefix | src/components/Books.tsx:103 | under the ASCII lowering of this model, a prefix of a string lowers to a prefix of the lowered string |
| Books.FilterByGenre | src/components/Books.tsx:88-90 | an order-preserving subsequence of the books holding exactly the books whose genre is the given name |
| Books.FilterByPrefix | src/components/Books.tsx:101-105 | an order-preserving subsequence of the books holding exactly the books whose lower-cased title starts with the lower-cased query |
| Books.GenreFilterIsExact | src/components/Books.tsx:87-90 | any order-preserving selection of books of the genre is no longer than the genre filter, and equals it when as long |
| Books.PrefixFilterIsExact | src/components/Books.tsx:100-105 | any order-preserving selection of matching books is no longer than the search result, and equals it when as long |
| Books.EmptySearchKeepsAll | src/components/Books.tsx:102-103 | the empty query shows every book in order |
| Books.SearchIgnoresCase | src/components/Books.tsx:103 | two queries equal up to case give the same result |
| Books.LongerQueryNarrows | src/components/Books.tsx:98-105 | under the ASCII lowering of this model, extending the query gives an order-preserving subsequence of the previous result |
| Books.Gate | src/components/Books.tsx:110-111 | Loading exactly when either fetch is pending, even when an error is also present; otherwise Failed exactly when either fetch failed; otherwise Ready |
| Books.IsHighlighted | src/components/Books.tsx:131 | a tile is highlighted exactly when a genre is selected and its id equals the tile's id; nothing is highlighted without a selection, and the selected genre's own tile always is |
| Books.ClickedTileAloneHighlighted | src/components/Books.tsx:126-131 | with distinct genre ids, after clicking a tile that tile is highlighted and no other |
| Books.Tiles | src/components/Books.tsx:125-137 | one tile per genre, in order, highlighted exactly when its id is the selected genre's id |
| Books.Catalog.constructor | src/components/Books.tsx:74-76 | nothing loaded, nothing on display, no genre selected, empty search text |
| Books.Catalog.OnBooksChanged | src/components/Books.tsx:78-82 | a result equal to the previous one changes nothing; a changed list replaces the display and the criteria stay; no list leaves the display; after a changed list the display agrees with the criteria exactly when they keep every book |
| Books.Catalog.SelectGenre | src/components/Books.tsx:84-96 | selects the genre and clears the search text; with books loaded, shows exactly that genre's books in order, or all books for "All Genres"; without books, the display is unchanged |
| Books.Catalog.Search | src/components/Books.tsx:98-108 | records the query and clears the selection so no tile is highlighted; with books loaded, shows exactly the title-prefix matches in order; without books, the display is unchanged |
| Books.Catalog.Render | src/components/Books.tsx:110-148 | loading message while a fetch is pending, error message after a failure, otherwise the tiles with their highlights, a count equal to the number of books on display, the search text and one card per book on display |
| Books.FictionExample | src/components/Books.tsx:88-90 | of two "Fiction" books and one "Poetry" book, the "Fiction" filter shows the first two in order |
| Books.DuneExample | src/components/Books.tsx:101-105 | of the titles "Dune", "Dusk" and "Moby Dick", the query "du" shows the first two in order |
| Books.SearchAfterGenre | src/components/Books.tsx:84-108 | a search after a genre click leaves no genre selected and shows the search result |
| Books.GenreAfterSearch | src/components/Books.tsx:84-108 | a genre click after a search empties the search box and shows the genre's books |
| Books.SearchBeforeLoad | src/components/Books.tsx:78-108 | a search before the list arrives shows nothing, and the list that then arrives is shown whole under the old query |
| Books.SameListAfterGenre | src/components/Books.tsx:78-96 | a refetch returning the same list after a genre click keeps the genre and that genre's books on display |
| Books.ChangedListAfterGenre | src/components/Books.tsx:78-96 | a refetch returning a changed list after a genre click shows the new list whole while the genre stays selected |
| Books.Replay | src/components/Books.tsx:74-108 | after any sequence of query results, genre clicks and searches, the display is an order-preserving selection from the last list that arrived, and empty before the first |

## Left out

- Fetching (`fetchBooks`, `fetchGenres` and their `response.ok` checks, lines 44-58) is network I/O. Its outcome enters the model as parameters: the list passed to `OnBooksChanged`, and the loading flags and optional errors passed to `Gate` and `Render`.
- `useQuery` from react-query (lines 60-61) is a foreign library. Caching, refetching and the timing of its results are not modelled. Its outputs are inputs to the model.
- React's `useState`/`useEffect` scheduling and batching are not modelled. Each handler and the effect is one atomic state change, and the model's state is the state after all of its setter calls.
- JSX, Chakra UI components, router links and the image path (lines 115-169) are presentation. `Render` keeps only what the page shows: the tiles and their highlight, the count, the search text and the list of cards.
- `OnBooksChanged` compares the new list with the previous one by value. React compares the dependency by reference, and react-query keeps the previous array when a refetch returns equal data, so the two agree except for a refetch that returns an equal list in a new array.
- Text.Lower: lower-cases only the ASCII letters 'A' to 'Z', where JavaScript's `toLowerCase` applies the full Unicode case mapping. That mapping can depend on context (the Greek final sigma) and can change the length (`"İ"` lowers to two UTF-16 code units).
- Text.LowerChar: changes only 'A' to 'Z'; the ASCII restriction is what makes lowering work one character at a time.
- Text.LowerKeepsPrefix: holds for the ASCII lowering only. Under JavaScript's `toLowerCase`, `"ΑΣ"` lowers to `"ας"` but `"ΑΣΑ"` lowers to `"ασα"`, so a prefix need not lower to a prefix.
- Books.LongerQueryNarrows: holds for the ASCII lowering only. With JavaScript's lowering, a book titled "ΑΣΑ" is hidden for the query "ΑΣ" and shown for the longer query "ΑΣΑ".
- `price` and `publisherRRP` are JavaScript numbers (floating point); they are modelled as `real` and play no part in the behaviour. `pages` is modelled as `int`.
