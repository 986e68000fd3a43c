/** The page-level state of scripts.js: the current `matches` and `page`, the
    initial load into `#bookList`, the search-form handler that replaces the
    matches and redraws `[data-list-items]`, and the selection handler that
    fills the detail overlay. */
module Scripts {
  import opened Text
  import opened Books
  import opened Search
  import opened PreviewComponents

  /** `s.find(b => b.id === id)`: the first book carrying `id`, if any. */
  function FindFirst(s: seq<Book>, id: string): (r: Option<Book>)
    ensures r.None? <==> forall i :: 0 <= i < |s| ==> s[i].id != id
    ensures r.Some? ==> exists i :: FirstWithId(s, id, i) && s[i] == r.value
    decreases |s|
  {
    if s == [] then None
    else if s[0].id == id then
      assert FirstWithId(s, id, 0);
      Some(s[0])
    else
      var r := FindFirst(s[1..], id);
      FirstWithIdShift(s, id);
      r
  }

  /** Past a first book without `id`, first occurrences move up by one. */
  lemma FirstWithIdShift(s: seq<Book>, id: string)
    requires s != [] && s[0].id != id
    ensures forall i :: FirstWithId(s[1..], id, i) ==> FirstWithId(s, id, i + 1) && s[i + 1] == s[1..][i]
  {
  }

  /** `i` is the index of the first book of `s` carrying `id`. */
  ghost predicate FirstWithId(s: seq<Book>, id: string, i: int) {
    0 <= i < |s| && s[i].id == id && forall j :: 0 <= j < i ==> s[j].id != id
  }

  /** The overlay's subtitle, "<author> (<year>)". */
  function Subtitle(authorName: string, year: int): string {
    authorName + " (" + IntToString(year) + ")"
  }

  /** The subtitle starts with the author's name and the year can be read back
      from between the parentheses. */
  lemma SubtitleRoundTrip(authorName: string, year: int)
    ensures var t := Subtitle(authorName, year);
      && |t| >= |authorName| + 3
      && t[..|authorName|] == authorName
      && t[|authorName|..|authorName| + 2] == " ("
      && t[|t| - 1] == ')'
      && ParseInt(t[|authorName| + 2..|t| - 1]) == year
  {
    var d := IntToString(year);
    var t := Subtitle(authorName, year);
    var n := |authorName|;
    assert t == authorName + " (" + d + ")";
    assert |t| == n + 2 + |d| + 1;
    assert t[..n] == authorName;
    assert t[n..n + 2] == " (";
    assert t[n + 2..|t| - 1] == d;
    IntToStringRoundTrip(year);
  }

  class Catalog {
    /** The dataset: books, author names and the page size, all read-only. */
    const books: seq<Book>
    const authors: Authors
    const booksPerPage: nat
    /** The `previewDetails` element. */
    const preview: BookPreviewDetails
    var page: int
    var matches: seq<Book>
    /** The children appended to `#bookList` by the initial load. */
    var bookList: seq<Preview>
    /** The children of `[data-list-items]`, replaced by every search. */
    var listItems: seq<Preview>
    /** Whether `[data-list-message]` carries `list__message_show`. */
    var noResultsShown: bool
    var buttonDisabled: bool
    /** The number inside `.list__remaining` of `[data-list-button]`. */
    var remainingLabel: nat

    /** Module start-up: `page = 1`, `matches = books`, and the first 36 books
        loaded into `#bookList`. */
    constructor (books: seq<Book>, authors: Authors, booksPerPage: nat, preview: BookPreviewDetails)
      ensures this.books == books && this.authors == authors
      ensures this.booksPerPage == booksPerPage && this.preview == preview
      ensures page == 1 && matches == books
      ensures bookList == Previews(books[..Min(36, |books|)], authors)
      ensures listItems == [] && !noResultsShown
      ensures remainingLabel == 0 && !buttonDisabled
    {
      this.books := books;
      this.authors := authors;
      this.booksPerPage := booksPerPage;
      this.preview := preview;
      page := 1;
      matches := books;
      var initial := BuildPreviews(Slice(books, 0, 36), authors);
      SliceFromStart(books, 36);
      bookList := initial;
      listItems := [];
      noResultsShown := false;
      buttonDisabled := false;
      remainingLabel := 0;
    }

    /** The search form's submit handler: the matches become the filtered
        dataset, the counter returns to 1, the no-results message shows
        exactly when nothing matched, the list shows the first page of the
        result, and the button reports the matches beyond that page. */
    method SubmitSearch(c: Criteria)
      modifies this
      ensures page == 1 && matches == Filter(books, c)
      ensures noResultsShown <==> matches == []
      ensures listItems == Previews(matches[..Min(booksPerPage, |matches|)], authors)
      ensures remainingLabel == Remaining(|matches|, 1, booksPerPage)
      ensures remainingLabel == |matches| - |listItems|
      ensures buttonDisabled <==> remainingLabel == 0
      ensures bookList == old(bookList)
    {
      var result := CollectMatches(books, c);
      page := 1;
      matches := result;
      noResultsShown := |result| < 1;
      var newItems := BuildPreviews(Slice(result, 0, booksPerPage), authors);
      SliceFromStart(result, booksPerPage);
      listItems := newItems;
      buttonDisabled := |matches| - page * booksPerPage < 1;
      remainingLabel := if |matches| - page * booksPerPage > 0 then |matches| - page * booksPerPage else 0;
    }

    /** The selection handler: with no book of `matches` carrying `bookId` the
        overlay is left alone; otherwise the first such book's fields are
        written to it and it is marked open. `yearOf` stands for the year
        `Date` reads from the publication date. */
    method Select(bookId: string, yearOf: string -> int)
      modifies preview
      ensures FindFirst(matches, bookId).None? ==> preview.attributes == old(preview.attributes)
      ensures FindFirst(matches, bookId).Some? ==>
        var b := FindFirst(matches, bookId).value;
        && b.id == bookId
        && preview.IsOpen()
        && preview.attributes == old(preview.attributes)
             ["open" := "true"]
             ["image" := b.image]
             ["title" := b.title]
             ["subtitle" := Subtitle(AuthorName(authors, b.author), yearOf(b.published))]
             ["description" := b.description]
      ensures preview.shownOpen == old(preview.shownOpen)
    {
      var book := FindFirst(matches, bookId);
      if book.Some? {
        var b := book.value;
        preview.SetAttribute("open", "true");
        preview.SetAttribute("image", b.image);
        preview.SetAttribute("title", b.title);
        preview.SetAttribute("subtitle", Subtitle(AuthorName(authors, b.author), yearOf(b.published)));
        preview.SetAttribute("description", b.description);
      }
    }
  }
}
