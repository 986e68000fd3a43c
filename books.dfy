/** The catalog's records and the arithmetic both list views share: book
    records, author lookup, the four-field preview item, `Array.prototype.slice`
    and the "remaining" count shown on the Show-more button. */
module Books {

  datatype Option<T> = None | Some(value: T)

  /** A book record of the dataset. `published` is the raw date text; the year
      shown in the detail overlay is computed from it by the caller. */
  datatype Book = Book(
    id: string,
    title: string,
    author: string,
    image: string,
    description: string,
    published: string,
    genres: seq<string>)

  /** Author id to display name. */
  type Authors = map<string, string>

  /** `authors[id]` as it lands in an attribute or a template literal: a missing
      key reads `undefined`, which renders as the text "undefined". */
  function AuthorName(authors: Authors, id: string): string {
    if id in authors then authors[id] else "undefined"
  }

  /** One rendered list entry: the `data-preview` id, the cover image, the title
      and the author's display name. */
  datatype Preview = Preview(id: string, image: string, title: string, author: string)

  function ToPreview(b: Book, authors: Authors): Preview {
    Preview(b.id, b.image, b.title, AuthorName(authors, b.author))
  }

  /** The previews of `s`, one per book and in the same order. */
  function Previews(s: seq<Book>, authors: Authors): (r: seq<Preview>)
    ensures |r| == |s|
  {
    seq(|s|, i requires 0 <= i < |s| => ToPreview(s[i], authors))
  }

  /** Entry `i` of the previews is the preview of book `i`. */
  lemma PreviewsAt(s: seq<Book>, authors: Authors)
    ensures forall i :: 0 <= i < |s| ==> Previews(s, authors)[i] == ToPreview(s[i], authors)
  {
  }

  lemma PreviewsAppend(a: seq<Book>, b: seq<Book>, authors: Authors)
    ensures Previews(a + b, authors) == Previews(a, authors) + Previews(b, authors)
  {
    var l, r := Previews(a + b, authors), Previews(a, authors) + Previews(b, authors);
    PreviewsAt(a + b, authors);
    PreviewsAt(a, authors);
    PreviewsAt(b, authors);
    assert forall i :: 0 <= i < |l| ==> l[i] == r[i];
  }

  /** Builds the previews of `s` one book at a time, as the page's `forEach`
      and `for ... of` loops do. */
  method BuildPreviews(s: seq<Book>, authors: Authors) returns (items: seq<Preview>)
    ensures items == Previews(s, authors)
  {
    items := [];
    var i := 0;
    while i < |s|
      invariant 0 <= i <= |s|
      invariant items == Previews(s[..i], authors)
    {
      assert s[..i + 1][..i] == s[..i];
      items := items + [ToPreview(s[i], authors)];
      i := i + 1;
    }
    assert s[..i] == s;
  }

  predicate DistinctIds(s: seq<Book>) {
    forall i, j :: 0 <= i < j < |s| ==> s[i].id != s[j].id
  }

  predicate DistinctPreviewIds(s: seq<Preview>) {
    forall i, j :: 0 <= i < j < |s| ==> s[i].id != s[j].id
  }

  /** A preview list shows a book at most once when the books it was built
      from have distinct ids. */
  lemma PreviewsKeepDistinct(s: seq<Book>, authors: Authors)
    requires DistinctIds(s)
    ensures DistinctPreviewIds(Previews(s, authors))
  {
    var r := Previews(s, authors);
    PreviewsAt(s, authors);
    forall i, j | 0 <= i < j < |r| ensures r[i].id != r[j].id {
      assert r[i].id == s[i].id && r[j].id == s[j].id;
    }
  }

  function Min(a: int, b: int): int { if a <= b then a else b }

  function Max(a: int, b: int): int { if a >= b then a else b }

  /** `s.slice(start, end)` for non-negative bounds: both bounds are clamped
      to the length, and a start at or past the end yields nothing. */
  function Slice<T>(s: seq<T>, start: nat, end: nat): (r: seq<T>)
    ensures |r| == Max(Min(end, |s|) - Min(start, |s|), 0)
    ensures start >= |s| ==> r == []
  {
    var lo, hi := Min(start, |s|), Min(end, |s|);
    if lo < hi then s[lo..hi] else []
  }

  /** The slice keeps order: its entry `i` is entry `start + i` of `s`. */
  lemma SliceAt<T>(s: seq<T>, start: nat, end: nat)
    ensures forall i :: 0 <= i < |Slice(s, start, end)| ==> Slice(s, start, end)[i] == s[start + i]
  {
  }

  /** `slice(0, n)` is the prefix of length `min(n, |s|)`. */
  lemma SliceFromStart<T>(s: seq<T>, n: nat)
    ensures Slice(s, 0, n) == s[..Min(n, |s|)]
  {
  }

  /** Appending the next slice to a prefix gives the longer prefix. */
  lemma PrefixThenSlice<T>(s: seq<T>, start: nat, end: nat)
    requires start <= end
    ensures s[..Min(start, |s|)] + Slice(s, start, end) == s[..Min(end, |s|)]
  {
    var p, q := s[..Min(start, |s|)] + Slice(s, start, end), s[..Min(end, |s|)];
    SliceAt(s, start, end);
    assert |p| == |q|;
    forall i | 0 <= i < |p| ensures p[i] == q[i] {
      if i >= Min(start, |s|) {
        assert p[i] == Slice(s, start, end)[i - start];
      }
    }
  }

  /** Where page `p` (counted from 1) of `per` entries starts. */
  function PageStart(p: int, per: nat): nat
    requires p >= 1
  {
    (p - 1) * per
  }

  /** Page `p` ends where page `p + 1` starts, at `p * per`. */
  lemma PageEnd(p: int, per: nat)
    requires p >= 1
    ensures PageStart(p, per) + per == PageStart(p + 1, per) == p * per
  {
  }

  /** The "remaining" figure shown on the Show-more button once `shown` pages
      of `per` books are accounted for: never negative, and zero exactly when
      those pages reach the end of the list. */
  function Remaining(len: nat, shown: int, per: nat): (r: nat)
    ensures r == 0 <==> len <= shown * per
    ensures r > 0 ==> r == len - shown * per
  {
    Max(len - shown * per, 0)
  }
}
