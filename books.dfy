/**
 * The book catalogue page: the `Book` and `Genre` records, the genre and
 * title filters, the loading/error gate, the genre highlight, and the view
 * state the page keeps (`Catalog`) with its two event handlers and the
 * effect that runs when the book list arrives.
 */
module Books {
  import opened Wrappers
  import opened Sequences
  import opened Text

  /** A book as the catalogue endpoint delivers it. `genreName` is the record's `type` field. */
  datatype Book = Book(
    id: string,
    title: string,
    subtitle: string,
    genreName: string,
    format: string,
    releaseDate: string,
    author: string,
    price: real,
    publisherRRP: real,
    pages: int,
    description: string,
    dimensions: string,
    wishList: bool,
    isbn: string,
    publisher: string)

  datatype Genre = Genre(id: string, name: string)

  /** The reserved genre name that means "do not filter". */
  const AllGenres: string := "All Genres"

  /** The error a failed fetch reports; its content plays no part in the page's behaviour. */
  datatype FetchError = FetchError(message: string)

  /** What the page shows before its content: in priority order. */
  datatype Phase = Loading | Failed | Ready

  // ---------------------------------------------------------------------
  // Filters

  function HasGenre(name: string): Book -> bool {
    (b: Book) => b.genreName == name
  }

  /** The case-insensitive title-prefix test of the search box. */
  function TitleMatches(query: string): Book -> bool {
    (b: Book) => StartsWith(Lower(b.title), Lower(query))
  }

  /** `books.filter(book => book.type === name)`. */
  function FilterByGenre(books: seq<Book>, name: string): (r: seq<Book>)
    ensures IsSubsequence(r, books)
    ensures forall b :: b in r <==> b in books && b.genreName == name
  {
    FilterIsSubsequence(books, HasGenre(name));
    Filter(books, HasGenre(name))
  }

  /** `books.filter(book => book.title.toLowerCase().startsWith(query.toLowerCase()))`. */
  function FilterByPrefix(books: seq<Book>, query: string): (r: seq<Book>)
    ensures IsSubsequence(r, books)
    ensures forall b :: b in r <==> b in books && TitleMatches(query)(b)
  {
    FilterIsSubsequence(books, TitleMatches(query));
    Filter(books, TitleMatches(query))
  }

  /**
   * The genre filter keeps every book of that genre: any other order-preserving
   * selection of books of that genre is shorter, or is the filter itself.
   */
  lemma {:induction false} GenreFilterIsExact(books: seq<Book>, name: string, r: seq<Book>)
    requires IsSubsequence(r, books)
    requires forall b :: b in r ==> b.genreName == name
    ensures |r| <= |FilterByGenre(books, name)|
    ensures |r| == |FilterByGenre(books, name)| ==> r == FilterByGenre(books, name)
  {
    FilterIsLongest(books, HasGenre(name), r);
    if |r| == |FilterByGenre(books, name)| {
      FilterIsUnique(books, HasGenre(name), r);
    }
  }

  /** The same for the title search. */
  lemma {:induction false} PrefixFilterIsExact(books: seq<Book>, query: string, r: seq<Book>)
    requires IsSubsequence(r, books)
    requires forall b :: b in r ==> TitleMatches(query)(b)
    ensures |r| <= |FilterByPrefix(books, query)|
    ensures |r| == |FilterByPrefix(books, query)| ==> r == FilterByPrefix(books, query)
  {
    FilterIsLongest(books, TitleMatches(query), r);
    if |r| == |FilterByPrefix(books, query)| {
      FilterIsUnique(books, TitleMatches(query), r);
    }
  }

  /** An empty search box shows every book. */
  lemma EmptySearchKeepsAll(books: seq<Book>)
    ensures FilterByPrefix(books, "") == books
  {
    forall b | b in books
      ensures TitleMatches("")(b)
    {
      assert StartsWith(Lower(b.title), Lower(""));
    }
    FilterKeepsAll(books, TitleMatches(""));
  }

  /** The search ignores the case of the query. */
  lemma SearchIgnoresCase(books: seq<Book>, q1: string, q2: string)
    requires Lower(q1) == Lower(q2)
    ensures FilterByPrefix(books, q1) == FilterByPrefix(books, q2)
  {
    FilterCongruent(books, TitleMatches(q1), TitleMatches(q2));
  }

  /** Typing more characters can only narrow the result, and keeps its order. */
  lemma LongerQueryNarrows(books: seq<Book>, q1: string, q2: string)
    requires StartsWith(q2, q1)
    ensures IsSubsequence(FilterByPrefix(books, q2), FilterByPrefix(books, q1))
  {
    LowerKeepsPrefix(q1, q2);
    forall b | b in books && TitleMatches(q2)(b)
      ensures TitleMatches(q1)(b)
    {
      assert StartsWith(Lower(b.title), Lower(q2));
    }
    FilterNarrows(books, TitleMatches(q1), TitleMatches(q2));
  }

  /**
   * The list the page should show for the given criteria: a selected genre
   * (the reserved name keeps everything), otherwise the title search.
   */
  ghost function Expected(books: seq<Book>, selected: Option<Genre>, query: string): seq<Book> {
    match selected
    case Some(g) => if g.name != AllGenres then FilterByGenre(books, g.name) else books
    case None => FilterByPrefix(books, query)
  }

  // ---------------------------------------------------------------------
  // Gate and highlight

  /** The page shows "Loading" while either fetch is pending, else the error if either failed. */
  function Gate(booksLoading: bool, genresLoading: bool,
                booksError: Option<FetchError>, genresError: Option<FetchError>): (v: Phase)
    ensures v == Loading <==> booksLoading || genresLoading
    ensures v == Failed <==> !booksLoading && !genresLoading && (booksError.Some? || genresError.Some?)
    ensures v == Ready <==> !booksLoading && !genresLoading && booksError == None && genresError == None
  {
    if booksLoading || genresLoading then Loading
    else if booksError.Some? || genresError.Some? then Failed
    else Ready
  }

  /** `type?.id === genre.id`: the selected genre's tile, matched by id. */
  predicate IsHighlighted(selected: Option<Genre>, g: Genre): (r: bool)
    ensures selected == None ==> !r
    ensures selected == Some(g) ==> r
    ensures r <==> selected.Some? && selected.value.id == g.id
  {
    selected.Some? && selected.value.id == g.id
  }

  ghost predicate DistinctIds(genres: seq<Genre>) {
    forall i, j :: 0 <= i < j < |genres| ==> genres[i].id != genres[j].id
  }

  /** With distinct genre ids, clicking a tile highlights that tile and no other. */
  lemma ClickedTileAloneHighlighted(genres: seq<Genre>, k: int)
    requires DistinctIds(genres)
    requires 0 <= k < |genres|
    ensures forall j :: 0 <= j < |genres| ==> (IsHighlighted(Some(genres[k]), genres[j]) <==> j == k)
  {
    forall j | 0 <= j < |genres|
      ensures IsHighlighted(Some(genres[k]), genres[j]) ==> j == k
    {
      if j < k {
        assert genres[j].id != genres[k].id;
      } else if k < j {
        assert genres[k].id != genres[j].id;
      }
    }
  }

  // ---------------------------------------------------------------------
  // The rendered page

  datatype GenreTile = GenreTile(genre: Genre, highlighted: bool)

  datatype Screen =
    | LoadingMessage
    | ErrorMessage
    | Page(tiles: seq<GenreTile>, count: nat, query: string, cards: seq<Book>)

  function Tiles(genres: seq<Genre>, selected: Option<Genre>): (ts: seq<GenreTile>)
    ensures |ts| == |genres|
    ensures forall i :: 0 <= i < |ts| ==>
      ts[i].genre == genres[i] && (ts[i].highlighted <==> IsHighlighted(selected, genres[i]))
  {
    if genres == [] then []
    else [GenreTile(genres[0], IsHighlighted(selected, genres[0]))] + Tiles(genres[1..], selected)
  }

  // ---------------------------------------------------------------------
  // The page's view state

  class Catalog {
    /** The fetched book list; `None` until it has arrived. */
    var books: Option<seq<Book>>
    /** The books on display. */
    var filtered: seq<Book>
    /** The selected genre (`type` in the page), `None` for no selection. */
    var selected: Option<Genre>
    /** The text in the search box. */
    var query: string

    /** The last book list that arrived, `[]` before the first. */
    ghost var lastLoaded: seq<Book>

    /** What is on display is always drawn, in order, from the last list that arrived. */
    ghost predicate Valid()
      reads this
    {
      (books.Some? ==> lastLoaded == books.value) &&
      IsSubsequence(filtered, lastLoaded)
    }

    /** The display agrees with the criteria in the genre sidebar and search box. */
    ghost predicate ShowsCriteria()
      reads this
    {
      books.Some? ==> filtered == Expected(books.value, selected, query)
    }

    /** The initial state: nothing loaded, nothing on display, no criteria. */
    constructor ()
      ensures Valid() && ShowsCriteria()
      ensures books == None && filtered == [] && selected == None && query == ""
      ensures lastLoaded == []
    {
      books := None;
      filtered := [];
      selected := None;
      query := "";
      lastLoaded := [];
    }

    /**
     * A new result of the book query. The effect depending on the list runs
     * only when the list differs from the previous one: a list that has
     * arrived then replaces what is on display; the criteria are left as
     * they are. A result equal to the previous one changes nothing.
     */
    method OnBooksChanged(data: Option<seq<Book>>)
      requires Valid()
      modifies this
      ensures Valid()
      ensures books == data
      ensures filtered == (if data.Some? && data != old(books) then data.value else old(filtered))
      ensures selected == old(selected) && query == old(query)
      ensures lastLoaded == (if data.Some? then data.value else old(lastLoaded))
      ensures data.Some? && data != old(books) ==>
        (ShowsCriteria() <==> Expected(data.value, selected, query) == data.value)
      ensures data == old(books) ==> (ShowsCriteria() <==> old(ShowsCriteria()))
    {
      if data != books {
        books := data;
        if books.Some? {
          filtered := books.value;
          lastLoaded := books.value;
          SubsequenceReflexive(filtered);
        }
      }
    }

    /** A click on a genre tile. */
    method SelectGenre(genre: Genre)
      requires Valid()
      modifies this
      ensures Valid() && ShowsCriteria()
      ensures selected == Some(genre) && query == "" && books == old(books)
      ensures lastLoaded == old(lastLoaded)
      ensures books.Some? && genre.name != AllGenres ==>
        filtered == FilterByGenre(books.value, genre.name) &&
        forall b :: b in filtered ==> b.genreName == genre.name
      ensures books.Some? && genre.name == AllGenres ==> filtered == books.value
      ensures books == None ==> filtered == old(filtered)
    {
      selected := Some(genre);
      if books.Some? {
        if genre.name != AllGenres {
          filtered := FilterByGenre(books.value, genre.name);
        } else {
          filtered := books.value;
          SubsequenceReflexive(filtered);
        }
      }
      query := "";
    }

    /** A change of the text in the search box. */
    method Search(q: string)
      requires Valid()
      modifies this
      ensures Valid() && ShowsCriteria()
      ensures query == q && selected == None && books == old(books)
      ensures lastLoaded == old(lastLoaded)
      ensures forall g :: !IsHighlighted(selected, g)
      ensures books.Some? ==> filtered == FilterByPrefix(books.value, q)
      ensures books == None ==> filtered == old(filtered)
    {
      query := q;
      if books.Some? {
        filtered := FilterByPrefix(books.value, q);
      }
      selected := None;
    }

    /**
     * The page for the fetch status and the fetched genres: a message while
     * loading or after a failure, otherwise the genre tiles, the count of
     * books on display, the search box and one card per book on display.
     */
    function Render(booksLoading: bool, genresLoading: bool,
                    booksError: Option<FetchError>, genresError: Option<FetchError>,
                    genres: Option<seq<Genre>>): (s: Screen)
      reads this
      ensures s == LoadingMessage <==> booksLoading || genresLoading
      ensures s == ErrorMessage <==> Gate(booksLoading, genresLoading, booksError, genresError) == Failed
      ensures s.Page? ==> s.count == |filtered| && s.cards == filtered && s.query == query
      ensures s.Page? && genres == None ==> s.tiles == []
      ensures s.Page? && genres.Some? ==>
        |s.tiles| == |genres.value| &&
        forall i :: 0 <= i < |s.tiles| ==>
          s.tiles[i].genre == genres.value[i] &&
          (s.tiles[i].highlighted <==> IsHighlighted(selected, genres.value[i]))
    {
      match Gate(booksLoading, genresLoading, booksError, genresError)
      case Loading => LoadingMessage
      case Failed => ErrorMessage
      case Ready =>
        Page(if genres.Some? then Tiles(genres.value, selected) else [],
             |filtered|, query, filtered)
    }
  }

  // ---------------------------------------------------------------------
  // Worked examples

  /** A book that differs from others only in id, title and genre. */
  function SampleBook(id: string, title: string, genreName: string): Book {
    Book(id, title, "", genreName, "", "", "", 0.0, 0.0, 0, "", "", false, "", "")
  }

  /** Two "Fiction" books and one "Poetry" book: the "Fiction" tile shows the first two, in order. */
  lemma FictionExample()
    ensures var list := [SampleBook("1", "A", "Fiction"), SampleBook("2", "B", "Fiction"),
                         SampleBook("3", "C", "Poetry")];
            FilterByGenre(list, "Fiction") == list[..2]
  {
    var list := [SampleBook("1", "A", "Fiction"), SampleBook("2", "B", "Fiction"),
                 SampleBook("3", "C", "Poetry")];
    assert list[1..][1..][1..] == [];
  }

  /** Which of the titles "Dune", "Dusk" and "Moby Dick" start with "du", ignoring case. */
  lemma DuneTitles()
    ensures StartsWith(Lower("Dune"), Lower("du"))
    ensures StartsWith(Lower("Dusk"), Lower("du"))
    ensures !StartsWith(Lower("Moby Dick"), Lower("du"))
  {
    LowerAt("du", 0); LowerAt("du", 1);
    LowerAt("Dune", 0); LowerAt("Dune", 1);
    LowerAt("Dusk", 0); LowerAt("Dusk", 1);
    LowerAt("Moby Dick", 0);
  }

  /** Filtering three books of which the first two pass keeps those two, in order. */
  lemma KeepsFirstTwo(list: seq<Book>, p: Book -> bool)
    requires |list| == 3 && p(list[0]) && p(list[1]) && !p(list[2])
    ensures Filter(list, p) == list[..2]
  {
    assert list[1..][1..][1..] == [];
  }

  /** Titles "Dune", "Dusk", "Moby Dick": the query "du" matches the first two. */
  lemma DuneExample()
    ensures var list := [SampleBook("1", "Dune", "Fiction"), SampleBook("2", "Dusk", "Fiction"),
                         SampleBook("3", "Moby Dick", "Fiction")];
            FilterByPrefix(list, "du") == list[..2]
  {
    var list := [SampleBook("1", "Dune", "Fiction"), SampleBook("2", "Dusk", "Fiction"),
                 SampleBook("3", "Moby Dick", "Fiction")];
    DuneTitles();
    KeepsFirstTwo(list, TitleMatches("du"));
  }

  // ---------------------------------------------------------------------
  // Sequences of events

  /** Searching after a genre click drops the genre: no tile stays highlighted. */
  method SearchAfterGenre(list: seq<Book>, genre: Genre, q: string)
    returns (selected: Option<Genre>, query: string, shown: seq<Book>)
    ensures selected == None && query == q
    ensures shown == FilterByPrefix(list, q)
  {
    var page := new Catalog();
    page.OnBooksChanged(Some(list));
    page.SelectGenre(genre);
    page.Search(q);
    selected, query, shown := page.selected, page.query, page.filtered;
  }

  /** A genre click after a search clears the search box. */
  method GenreAfterSearch(list: seq<Book>, q: string, genre: Genre)
    returns (selected: Option<Genre>, query: string, shown: seq<Book>)
    ensures selected == Some(genre) && query == ""
    ensures shown == (if genre.name != AllGenres then FilterByGenre(list, genre.name) else list)
  {
    var page := new Catalog();
    page.OnBooksChanged(Some(list));
    page.Search(q);
    page.SelectGenre(genre);
    selected, query, shown := page.selected, page.query, page.filtered;
  }

  /** A refetch that returns the same list leaves a genre click's display in place. */
  method SameListAfterGenre(list: seq<Book>, genre: Genre)
    returns (selected: Option<Genre>, shown: seq<Book>)
    ensures selected == Some(genre)
    ensures shown == (if genre.name != AllGenres then FilterByGenre(list, genre.name) else list)
  {
    var page := new Catalog();
    page.OnBooksChanged(Some(list));
    page.SelectGenre(genre);
    page.OnBooksChanged(Some(list));
    selected, shown := page.selected, page.filtered;
  }

  /**
   * A refetch that returns a changed list after a genre click shows the new
   * list whole, while the clicked tile stays highlighted.
   */
  method ChangedListAfterGenre(list: seq<Book>, genre: Genre, next: seq<Book>)
    returns (selected: Option<Genre>, shown: seq<Book>)
    requires next != list
    ensures selected == Some(genre) && shown == next
  {
    var page := new Catalog();
    page.OnBooksChanged(Some(list));
    page.SelectGenre(genre);
    page.OnBooksChanged(Some(next));
    selected, shown := page.selected, page.filtered;
  }

  /**
   * Criteria set before the book list arrives show nothing, and are not
   * applied when it arrives: the whole list is shown under them.
   */
  method SearchBeforeLoad(list: seq<Book>, q: string)
    returns (shownBefore: seq<Book>, query: string, shownAfter: seq<Book>)
    ensures shownBefore == []
    ensures query == q && shownAfter == list
  {
    var page := new Catalog();
    page.Search(q);
    shownBefore := page.filtered;
    page.OnBooksChanged(Some(list));
    query, shownAfter := page.query, page.filtered;
  }

  /** An event the page reacts to: a result of the book query, a genre click, a search. */
  datatype Event = BooksResult(data: Option<seq<Book>>) | Click(genre: Genre) | Typed(text: string)

  /** The last book list among the events, `[]` when none has arrived. */
  function LastList(events: seq<Event>): seq<Book> {
    if events == [] then []
    else match events[|events| - 1]
      case BooksResult(Some(list)) => list
      case _ => LastList(events[..|events| - 1])
  }

  /**
   * Whatever the events, the books on display are an order-preserving
   * selection from the last list that arrived; in particular nothing is on
   * display before the first list.
   */
  method Replay(events: seq<Event>) returns (shown: seq<Book>)
    ensures IsSubsequence(shown, LastList(events))
    ensures |shown| <= |LastList(events)|
    ensures forall b :: b in shown ==> b in LastList(events)
  {
    var page := new Catalog();
    var i := 0;
    while i < |events|
      invariant 0 <= i <= |events|
      invariant page.Valid()
      invariant page.lastLoaded == LastList(events[..i])
      decreases |events| - i
    {
      assert events[..i + 1][..i] == events[..i];
      match events[i] {
        case BooksResult(data) => page.OnBooksChanged(data);
        case Click(g) => page.SelectGenre(g);
        case Typed(q) => page.Search(q);
      }
      i := i + 1;
    }
    assert events[..|events|] == events;
    shown := page.filtered;
    SubsequenceMembers(shown, page.lastLoaded);
  }
}
