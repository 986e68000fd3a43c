/** The custom elements of book-preview-component.js that hold state:
    `BookPreviewList`, which pages through its `matches` attribute 36 books at
    a time, and `BookPreviewDetails`, the detail overlay driven by its `open`
    attribute. Markup, styling and event re-dispatching are not modelled; the
    list's children are kept as a sequence of previews. */
module PreviewComponents {
  import opened Books

  /** The first `k` pages of `per` books, concatenated in load order: the
      reference for what `loadMoreBooks` has appended after `k` calls. */
  function Pages<T>(s: seq<T>, per: nat, k: nat): seq<T>
    decreases k
  {
    if k == 0 then [] else Pages(s, per, k - 1) + Slice(s, (k - 1) * per, k * per)
  }

  /** Loading pages one after another shows a prefix of the list: after `k`
      pages, the first `min(k * per, |s|)` entries, each once, in order. */
  lemma {:induction false} PagesArePrefix<T>(s: seq<T>, per: nat, k: nat)
    ensures Pages(s, per, k) == s[..Min(k * per, |s|)]
    decreases k
  {
    if k > 0 {
      PagesArePrefix(s, per, k - 1);
      assert (k - 1) * per <= k * per by {
        assert k * per == (k - 1) * per + per;
      }
      PrefixThenSlice(s, (k - 1) * per, k * per);
    }
  }

  /** Enough pages cover the whole list exactly. */
  lemma PagesCoverAll<T>(s: seq<T>, per: nat, k: nat)
    requires |s| <= k * per
    ensures Pages(s, per, k) == s
  {
    PagesArePrefix(s, per, k);
  }

  /** `<book-preview-list>`: a page counter and the previews appended so far. */
  class BookPreviewList {
    /** The parsed `matches` attribute (`[]` when it is absent). */
    var matches: seq<Book>
    /** The parsed `authors` attribute (`{}` when it is absent). */
    var authors: Authors
    var page: int
    const booksPerPage: nat := 36
    /** The children of `.list__items`, in order. */
    var items: seq<Preview>
    /** The number inside `.list__remaining`. */
    var remainingLabel: nat
    var buttonDisabled: bool

    ghost predicate Valid()
      reads this
    {
      page >= 1
    }

    /** The displayed items are the previews of every page loaded so far. */
    ghost predicate InSync()
      reads this
    {
      Valid() && items == Previews(matches[..Min(PageStart(page, booksPerPage), |matches|)], authors)
    }

    constructor (matches: seq<Book>, authors: Authors)
      ensures this.matches == matches && this.authors == authors
      ensures page == 1 && booksPerPage == 36
      ensures items == [] && InSync()
    {
      this.matches := matches;
      this.authors := authors;
      page := 1;
      items := [];
      remainingLabel := 0;
      buttonDisabled := false;
    }

    /** A new `matches` attribute. The element has no attribute-change
        callback, so nothing is re-rendered and the page counter is kept. */
    method SetMatches(m: seq<Book>)
      modifies this`matches
      ensures matches == m
    {
      matches := m;
    }

    /** A new `authors` attribute; as with `matches`, only the field changes. */
    method SetAuthors(a: Authors)
      modifies this`authors
      ensures authors == a
    {
      authors := a;
    }

    /** `render`, run when the element is connected: the list markup is
        rebuilt (no children, a fresh enabled button showing 0) and one page is
        loaded. The page counter is not reset, so only a first render starts
        from the top. */
    method Render()
      requires Valid()
      modifies this`items, this`page, this`remainingLabel, this`buttonDisabled
      ensures Valid() && page == old(page) + 1
      ensures items == Previews(Slice(matches, PageStart(old(page), booksPerPage), PageStart(page, booksPerPage)), authors)
      ensures remainingLabel == Remaining(|matches|, page, booksPerPage)
      ensures buttonDisabled <==> remainingLabel == 0
      ensures old(page) == 1 ==> InSync()
    {
      items := [];
      remainingLabel := 0;
      buttonDisabled := false;
      LoadMoreBooks();
      if old(page) == 1 {
        SliceFromStart(matches, booksPerPage);
      }
    }

    /** `loadMoreBooks`: appends the current page's slice of `matches`, then
        advances the counter by one and refreshes the button from the advanced
        counter. Past the end the slice is empty and only the counter moves. */
    method LoadMoreBooks()
      requires Valid()
      modifies this`items, this`page, this`remainingLabel, this`buttonDisabled
      ensures Valid() && page == old(page) + 1
      ensures items == old(items) + Previews(Slice(matches, PageStart(old(page), booksPerPage), PageStart(page, booksPerPage)), authors)
      ensures PageStart(old(page), booksPerPage) >= |matches| ==> items == old(items)
      ensures remainingLabel == Remaining(|matches|, page, booksPerPage)
      ensures buttonDisabled <==> remainingLabel == 0
      ensures old(InSync()) ==> InSync()
    {
      var startIndex: nat := (page - 1) * booksPerPage;
      var endIndex: nat := startIndex + booksPerPage;
      PageEnd(page, booksPerPage);
      var booksToLoad := Slice(matches, startIndex, endIndex);
      ghost var wasInSync := InSync();
      AppendPreviews(booksToLoad);
      page := page + 1;
      UpdateShowMoreButton();
      if wasInSync {
        NextPageKeepsSync(matches, authors, startIndex, booksPerPage);
      }
    }

    /** The `forEach` that creates one preview per book to load and appends it
        to `.list__items`. */
    method AppendPreviews(booksToLoad: seq<Book>)
      modifies this`items
      ensures items == old(items) + Previews(booksToLoad, authors)
    {
      var i := 0;
      while i < |booksToLoad|
        invariant 0 <= i <= |booksToLoad|
        invariant items == old(items) + Previews(booksToLoad[..i], authors)
      {
        assert booksToLoad[..i + 1][..i] == booksToLoad[..i];
        items := items + [ToPreview(booksToLoad[i], authors)];
        i := i + 1;
      }
      assert booksToLoad[..i] == booksToLoad;
    }

    /** `updateShowMoreButton`: the label shows `max(len - page * 36, 0)` for
        the current counter and the button is disabled exactly when it is 0. */
    method UpdateShowMoreButton()
      modifies this`remainingLabel, this`buttonDisabled
      ensures remainingLabel == Remaining(|matches|, page, booksPerPage)
      ensures buttonDisabled <==> remainingLabel == 0
    {
      var remaining := Remaining(|matches|, page, booksPerPage);
      remainingLabel := remaining;
      buttonDisabled := remaining == 0;
    }
  }

  /** The previews of a prefix followed by those of the next page are the
      previews of the longer prefix. */
  lemma NextPageKeepsSync(m: seq<Book>, authors: Authors, start: nat, per: nat)
    ensures Previews(m[..Min(start, |m|)], authors) + Previews(Slice(m, start, start + per), authors)
         == Previews(m[..Min(start + per, |m|)], authors)
  {
    PrefixThenSlice(m, start, start + per);
    PreviewsAppend(m[..Min(start, |m|)], Slice(m, start, start + per), authors);
  }

  /** While in sync, the display is the previews of the pages loaded so far,
      concatenated in load order. */
  lemma InSyncIsPages(list: BookPreviewList)
    requires list.InSync()
    ensures list.items == Previews(Pages(list.matches, list.booksPerPage, list.page - 1), list.authors)
  {
    PagesArePrefix(list.matches, list.booksPerPage, list.page - 1);
  }

  /** While in sync, every match is shown at most once, provided the ids of
      `matches` are distinct. */
  lemma ItemsShowEachMatchOnce(list: BookPreviewList)
    requires list.InSync() && DistinctIds(list.matches)
    ensures DistinctPreviewIds(list.items)
  {
    var n := Min((list.page - 1) * list.booksPerPage, |list.matches|);
    var prefix := list.matches[..n];
    assert forall i :: 0 <= i < n ==> prefix[i] == list.matches[i];
    PreviewsKeepDistinct(prefix, list.authors);
  }

  /** What the button would show if it were computed before the counter
      advances (`page - 1` pages loaded): exactly the number of matches not
      yet displayed, zero only when all of them are. */
  lemma CorrectedRemainingCountsHidden(list: BookPreviewList)
    requires list.InSync()
    ensures Remaining(|list.matches|, list.page - 1, list.booksPerPage) == |list.matches| - |list.items|
    ensures Remaining(|list.matches|, list.page - 1, list.booksPerPage) == 0 <==> |list.items| == |list.matches|
  {
  }

  /** The element connected with `matches` and `authors`, then the Show-more
      button pressed `clicks` times: the first `(clicks + 1) * 36` matches are
      displayed, and the label and button follow the advanced counter. */
  method ShowMoreClicks(matches: seq<Book>, authors: Authors, clicks: nat)
    returns (shown: seq<Preview>, remaining: nat, disabled: bool)
    ensures shown == Previews(matches[..Min((clicks + 1) * 36, |matches|)], authors)
    ensures remaining == Remaining(|matches|, clicks + 2, 36)
    ensures disabled <==> remaining == 0
  {
    var list := new BookPreviewList(matches, authors);
    list.Render();
    var k := 0;
    while k < clicks
      invariant 0 <= k <= clicks
      invariant list.InSync() && list.page == k + 2
      invariant list.matches == matches && list.authors == authors
      invariant list.remainingLabel == Remaining(|matches|, k + 2, 36)
      invariant list.buttonDisabled <==> list.remainingLabel == 0
    {
      list.LoadMoreBooks();
      k := k + 1;
    }
    shown, remaining, disabled := list.items, list.remainingLabel, list.buttonDisabled;
  }

  /** Forty matches: the first render shows 36, yet the label already reads 0
      and the button is disabled, because the count uses the advanced counter;
      the four remaining books appear only through a further load. */
  method FortyMatches(matches: seq<Book>, authors: Authors)
    returns (firstShown: nat, firstRemaining: nat, firstDisabled: bool, secondShown: nat, thirdShown: nat)
    requires |matches| == 40
    ensures firstShown == 36 && firstRemaining == 0 && firstDisabled
    ensures secondShown == 40 && thirdShown == 40
  {
    var s0, r0, d0 := ShowMoreClicks(matches, authors, 0);
    var s1, _, _ := ShowMoreClicks(matches, authors, 1);
    var s2, _, _ := ShowMoreClicks(matches, authors, 2);
    firstShown, firstRemaining, firstDisabled := |s0|, r0, d0;
    secondShown, thirdShown := |s1|, |s2|;
  }

  /** `<book-preview-details>`: its attributes and whether the overlay was
      drawn open by the last render. */
  class BookPreviewDetails {
    var attributes: map<string, string>
    /** The `display` chosen by the last `render`. */
    var shownOpen: bool

    constructor (attributes: map<string, string>)
      ensures this.attributes == attributes && !shownOpen
    {
      this.attributes := attributes;
      shownOpen := false;
    }

    /** The overlay counts as open only when `open` is exactly "true". */
    predicate IsOpen()
      reads this
    {
      "open" in attributes && attributes["open"] == "true"
    }

    /** `render`: draws the overlay open exactly when `IsOpen()`. */
    method Render()
      modifies this`shownOpen
      ensures shownOpen == IsOpen()
    {
      shownOpen := "open" in attributes && attributes["open"] == "true";
    }

    /** `setAttribute`. The element observes no attributes, so its change
        callback never fires and nothing is redrawn. */
    method SetAttribute(name: string, value: string)
      modifies this`attributes
      ensures attributes == old(attributes)[name := value]
    {
      attributes := attributes[name := value];
    }

    /** The close button: `open` becomes "false", every other attribute is kept. */
    method Close()
      modifies this`attributes
      ensures attributes == old(attributes)["open" := "false"]
      ensures !IsOpen()
      ensures forall k :: k in old(attributes) && k != "open" ==> k in attributes && attributes[k] == old(attributes)[k]
    {
      SetAttribute("open", "false");
    }
  }
}
