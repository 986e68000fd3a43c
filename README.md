# Book catalog browser: catalog state, search filter and pagination

A Dafny model of the logic inside a client-side book-catalog page. The page shows a grid of
book previews, filters the books by title, author and genre, pages through the result 36
books at a time behind a "Show more" button, opens a detail overlay for a selected book, and
switches between a day and a night colour theme.

The model follows the two core files:

- `scripts.js` becomes the modules `Search` (the search-form filter), `Theme` (the colour
  choice of `ThemeManager`) and `Scripts`. `Scripts.Catalog` is a class holding the
  page-level state: `page`, `matches`, the previews in `#bookList` and `[data-list-items]`,
  the no-results flag, and the Show-more label and disabled flag. Its methods are the start-up
  code, the search submit handler and the selection handler.
- `book-preview-component.js` becomes the module `PreviewComponents`.
  `BookPreviewList` is a class with a mutable `page` counter and a growing sequence of
  displayed previews. `BookPreviewDetails` is a class holding the overlay's attribute map.
- `Text` holds ASCII lower-casing, ECMAScript `trim`, `includes` and the decimal rendering of
  a year. `Books` holds the book record, the four-field preview, `Array.prototype.slice` on
  non-negative bounds and the "remaining" figure both lists show.

The dataset (books, author names, page size) is a parameter, never a constant. The search
result is specified by `Search.Filter`, a stable filter written as the generic `Search.Keep`
over the condition `Matches(_, c)`. The properties of the result are proved as lemmas about
`Keep` and hold for `Filter` by instantiation.

Behaviour kept as written, although a reader might expect otherwise:

- `BookPreviewList` computes the remaining count after it increments the page. After the first
  load the label therefore shows `max(len - 72, 0)` rather than `len - 36`, and a list of 37 to
  72 matches shows its first 36 with the button already disabled. See "## Findings".
- The title query is lower-cased but not trimmed. Only the "is it blank?" test uses `trim`.
- A missing author id renders as the text `undefined`.
- `BookPreviewDetails` declares no observed attributes, so its attribute-change callback never
  runs. Setting `open` changes the attribute and `IsOpen()`, but the drawn overlay
  (`shownOpen`) changes only when `render` runs.
- `BookPreviewList.render` does not reset `page`. Only a first render starts from the top.
- The start-up load into `#bookList` slices 36 books. The search handler slices with the
  configured page size instead.

## Model

| member | source | states |
|---|---|---|
| `Text.Lower` | scripts.js:119 | `toLowerCase` keeps the length and maps each character on its own, lower-casing exactly the ASCII capitals |
| `Text.Trim` | scripts.js:119 | `trim()` returns the slice `s[a..b]` whose prefix `s[..a]` and suffix `s[b..]` are all whitespace and which neither starts nor ends with whitespace; it is empty exactly when the query is all whitespace |
| `Text.Contains` | scripts.js:119 | `includes` holds exactly when the substring occurs at some index |
| `Text.NatToString` | scripts.js:29 | a number renders as at least one character, every one a decimal digit, and the first is `0` only for the number 0, so there is no leading zero |
| `Text.IntToStringRoundTrip` | scripts.js:29 | the year rendered into the subtitle reads back as the same integer |
| `Books.AuthorName` | book-preview-component.js:162 | `authors[book.author]` as written into an attribute: the mapped name, or the text "undefined" for a missing key (defined, no contract) |
| `Books.ToPreview` | book-preview-component.js:158-162 | one list entry carries the book's id as `data-preview`, its image, its title and `AuthorName` of its author (defined, no contract) |
| `Books.Previews` | book-preview-component.js:157-164 | one preview per book |
| `Books.PreviewsAt` | book-preview-component.js:157-164 | entry `i` of the previews carries book `i`'s id, image and title and the author name looked up from its `author`, so order is kept |
| `Books.PreviewsAppend` | book-preview-component.js:157-164 | the previews of two lists in turn are the previews of their concatenation |
| `Books.BuildPreviews` | scripts.js:10-19 | the `forEach` that creates a preview per book builds exactly `Previews` of its input |
| `Books.PreviewsKeepDistinct` | book-preview-component.js:157-164 | books with distinct ids give previews with distinct ids |
| `Books.Slice` | book-preview-component.js:150-152 | `slice(start, end)` has length `max(min(end, len) - min(start, len), 0)`, and is empty once the start reaches the length |
| `Books.SliceAt` | book-preview-component.js:150-152 | entry `i` of `slice(start, end)` is entry `start + i` of the list |
| `Books.SliceFromStart` | scripts.js:139 | `slice(0, n)` is the prefix of length `min(n, len)` |
| `Books.PrefixThenSlice` | book-preview-component.js:150-164 | a prefix followed by the next slice is the longer prefix |
| `Books.Remaining` | book-preview-component.js:172 | `max(len - page * per, 0)` is never negative, is zero exactly when `page * per` reaches the length, and otherwise equals `len - page * per` |
| `Search.TitleMatches` | scripts.js:119 | a query that is all whitespace matches every title; otherwise the title matches exactly when the lower-cased query occurs at some index of the lower-cased title |
| `Search.AuthorMatches` | scripts.js:120 | the author condition: "any", or the book's author id equals the wanted one (defined, no contract) |
| `Search.GenreMatches` | scripts.js:111-116 | the genre condition the loop computes: "any", or the wanted genre is one of the book's genres (defined, no contract) |
| `Search.Matches` | scripts.js:118-122 | a book is pushed when the title, author and genre conditions all hold (defined, no contract) |
| `Search.Filter` | scripts.js:108-125 | the search result: the books of the dataset that satisfy `Matches`, in dataset order, as the stable filter `Keep`; its properties are the `Keep` lemmas below (defined, no contract) |
| `Search.GenreLoop` | scripts.js:111-116 | the genre loop with its early `break` yields true exactly when the genre is "any" or is a member of `book.genres` |
| `Search.CollectMatches` | scripts.js:108-125 | the loop that pushes matching books builds exactly `Filter(books, c)` |
| `Search.KeepMembership` | scripts.js:110-125 | a book is in the result iff it is in the dataset and satisfies all three conditions |
| `Search.KeepPositions` | scripts.js:110-125 | the result is the dataset restricted to exactly the matching positions, in increasing order |
| `Search.KeepMultiplicity` | scripts.js:110-125 | each book occurs in the result as often as in the dataset if it matches, otherwise not at all |
| `Search.KeepIdempotent` | scripts.js:110-125 | filtering the result again with the same criteria returns it unchanged |
| `Search.KeepAll` | scripts.js:110-125 | when every book satisfies the condition, the result is the dataset |
| `Search.FilterKeepsDistinct` | scripts.js:110-125 | a dataset with distinct ids gives a result with distinct ids |
| `Search.FilterDefaultsIsIdentity` | scripts.js:110-125 | empty title, author "any" and genre "any" return the dataset unchanged, in order |
| `Search.BlankQueryMatchesAll` | scripts.js:119 | a query that is all whitespace matches every title |
| `Search.UntrimmedQueryMustOccur` | scripts.js:119 | the query is compared untrimmed: "dune" matches the title "Dune" and " dune" does not |
| `Search.TitleMatchIgnoresCase` | scripts.js:119 | the title condition is unchanged when title and query are lower-cased first |
| `Theme.ApplyTheme` | scripts.js:71-79 | "night" sets dark to "255, 255, 255" and light to "10, 10, 20"; any other name sets the reverse |
| `Theme.InitTheme` | scripts.js:82-87 | the initial theme is "night" iff dark mode is preferred, and the settings field shows the theme whose palette was applied |
| `Theme.NightSwapsDayRoles` | scripts.js:71-79 | every name other than "night" acts as "day", and "night" swaps the two colour roles of "day" |
| `PreviewComponents.PagesArePrefix` | book-preview-component.js:149-166 | loading pages 1 to k in turn shows the prefix of length `min(k * per, len)`, each match once and in order |
| `PreviewComponents.PagesCoverAll` | book-preview-component.js:149-166 | enough pages reconstruct the whole list exactly |
| `PreviewComponents.BookPreviewList.constructor` | book-preview-component.js:104-109 | a new list starts with `page == 1`, 36 books per page and nothing displayed |
| `PreviewComponents.BookPreviewList.SetMatches` | book-preview-component.js:112-125 | a new `matches` attribute changes only the matches; nothing is re-rendered |
| `PreviewComponents.BookPreviewList.SetAuthors` | book-preview-component.js:127-130 | a new `authors` attribute changes only the author map |
| `PreviewComponents.BookPreviewList.Render` | book-preview-component.js:184-261 | render clears the items, resets the button and loads one page; on a fresh list the display is then the first `min(36, len)` matches |
| `PreviewComponents.BookPreviewList.LoadMoreBooks` | book-preview-component.js:149-168 | appends exactly `matches[(page-1)*36 .. page*36)` clamped, in order, and nothing once the start is past the end; increments `page` by exactly 1; keeps the display equal to the previews of every page loaded |
| `PreviewComponents.BookPreviewList.AppendPreviews` | book-preview-component.js:157-164 | the `forEach` appends exactly the previews of the books to load, in order, after the items already shown |
| `PreviewComponents.InSyncIsPages` | book-preview-component.js:149-166 | while in sync, the display is the previews of pages 1 to `page - 1` concatenated in load order |
| `PreviewComponents.BookPreviewList.UpdateShowMoreButton` | book-preview-component.js:171-181 | the label is `max(len - page * 36, 0)` for the already incremented page, and the button is disabled iff the label is 0 |
| `PreviewComponents.ItemsShowEachMatchOnce` | book-preview-component.js:149-166 | with distinct match ids, no match is displayed twice |
| `PreviewComponents.CorrectedRemainingCountsHidden` | book-preview-component.js:172 | computed with `page - 1`, the figure is exactly the number of undisplayed matches, and zero iff all are displayed |
| `PreviewComponents.ShowMoreClicks` | book-preview-component.js:149-181 | after the first render and k clicks, the display is the first `min((k + 1) * 36, len)` matches, the label is `max(len - (k + 2) * 36, 0)`, and the button is disabled iff the label is 0 |
| `PreviewComponents.FortyMatches` | book-preview-component.js:166-180 | with 40 matches the first render shows 36 with label 0 and the button disabled; one more load shows all 40, and a further one still 40 |
| `PreviewComponents.BookPreviewDetails.IsOpen` | book-preview-component.js:288 | the overlay counts as open exactly when the `open` attribute is present and equal to "true" (defined, no contract) |
| `PreviewComponents.BookPreviewDetails.Render` | book-preview-component.js:287-293 | the overlay is drawn open exactly when `open` is "true" |
| `PreviewComponents.BookPreviewDetails.SetAttribute` | book-preview-component.js:419-423 | an attribute write changes that attribute only and does not redraw |
| `PreviewComponents.BookPreviewDetails.Close` | book-preview-component.js:281-283 | close sets `open` to "false", so the overlay is not open, and keeps every other attribute |
| `Scripts.FindFirst` | scripts.js:23 | `find` returns nothing iff no book has the id, and otherwise the book at the first index carrying it |
| `Scripts.Subtitle` | scripts.js:28-29 | the subtitle text: author name, " (", the year in decimal, ")" (defined; its meaning is stated by `SubtitleRoundTrip`) |
| `Scripts.SubtitleRoundTrip` | scripts.js:28-29 | the subtitle is the author name, " (", the year, ")", and the year reads back |
| `Scripts.Catalog.constructor` | scripts.js:3-35 | start-up sets `page` to 1 and `matches` to the dataset, and loads the previews of the first 36 books |
| `Scripts.Catalog.SubmitSearch` | scripts.js:104-165 | `page == 1`; `matches` is the filter result; no-results is shown iff the result is empty; the list shows the result's first `min(BOOKS_PER_PAGE, len)` previews; the label is `max(len - BOOKS_PER_PAGE, 0)`, equal to the number not shown; the button is disabled iff the label is 0 |
| `Scripts.Catalog.Select` | scripts.js:22-32 | an id absent from `matches` leaves every overlay attribute unchanged; a present id writes the first match's image, title, "author (year)" subtitle and description and sets `open` to "true" |

## Findings

| source | as written | input that shows it | evidently intended | confidence | as-written member | corrected member |
|---|---|---|---|---|---|---|
| book-preview-component.js:166-172 | `remaining = max(len - page * 36, 0)` is computed after `page += 1`, so it counts the matches beyond the next page rather than beyond those displayed | 40 matches: the first render displays 36, the label reads 0 and the button is disabled, so the last 4 books cannot be reached | `max(len - (page - 1) * 36, 0)`, the number of matches not yet displayed, as the search handler computes it (`Scripts.Catalog.SubmitSearch`) | not executed; high | `PreviewComponents.FortyMatches` | `PreviewComponents.CorrectedRemainingCountsHidden` |

The list component keeps the as-written formula, because its label and button are observable
state. The corrected figure is proved to equal the number of undisplayed matches. The search
handler in `scripts.js` already computes that figure.

## Left out

- Markup, CSS, shadow DOM, `innerHTML` templates and `createElement`/`appendChild`: displayed entries are a sequence of `Preview` values.
- `BookPreviewItem` (book-preview-component.js:4-100) is only markup and a click event. Its event, its re-dispatch as `show-preview-details` (book-preview-component.js:133-146) and the click listener are event plumbing. `Scripts.Catalog.Select` takes the selected id as a parameter.
- The open and close handlers of the search and settings overlays (scripts.js:39-58), `scrollTo` and `focus`: UI toggles with no state of the catalog.
- `ThemeManager.event` (scripts.js:90-97) applies `ApplyTheme` to the submitted form value and closes the overlay. The form parsing is browser input, so only `ApplyTheme` is modelled.
- `FormData`, `Object.fromEntries`, `window.matchMedia` and `JSON.parse`: the criteria, the dark-mode flag, `matches` and `authors` are given as values.
- Date parsing: `Scripts.Catalog.Select` takes `yearOf`, the year `new Date(...).getFullYear()` gives in the local time zone. An invalid date, which renders as `NaN`, is not modelled.
- `toLowerCase` is modelled for ASCII letters only. Unicode case mapping is not modelled.
- `data.js` is not part of this model: books, author names and `BOOKS_PER_PAGE` are parameters, and the page size is a natural number.
- The page's markup is not part of this model. `#bookList` and `[data-list-items]` are taken to be different elements, so `Scripts.Catalog.SubmitSearch` leaves `bookList` unchanged.
- The page's initial markup is not part of this model. Before the first search, `[data-list-items]` is taken as empty, with the message hidden and the button enabled at 0.
- JavaScript numbers are doubles. Lengths and page counters are modelled as unbounded integers, which agree for any list a page can hold.
