/** The search-form filter of scripts.js: a stable filter over the dataset
    keeping the books that satisfy the title, author and genre conditions. */
module Search {
  import opened Text
  import opened Books

  /** The submitted search form: title query, author id or "any", genre id or "any". */
  datatype Criteria = Criteria(title: string, author: string, genre: string)

  const Any: string := "any"

  /** Title condition: a query that trims to nothing matches every title;
      otherwise the lower-cased title must contain the lower-cased query as
      typed (untrimmed). */
  predicate TitleMatches(title: string, query: string)
    ensures IsBlank(query) ==> TitleMatches(title, query)
    ensures !IsBlank(query) ==> (TitleMatches(title, query) <==> exists k :: OccursAt(Lower(title), Lower(query), k))
  {
    Trim(query) == [] || Contains(Lower(title), Lower(query))
  }

  predicate AuthorMatches(author: string, wanted: string) {
    wanted == Any || author == wanted
  }

  predicate GenreMatches(genres: seq<string>, wanted: string) {
    wanted == Any || wanted in genres
  }

  predicate Matches(b: Book, c: Criteria) {
    TitleMatches(b.title, c.title) && AuthorMatches(b.author, c.author) && GenreMatches(b.genres, c.genre)
  }

  /** The elements of `s` that satisfy `keep`, in their original order. */
  function Keep<T>(s: seq<T>, keep: T -> bool): seq<T>
    decreases |s|
  {
    if s == [] then []
    else Keep(s[..|s| - 1], keep) + (if keep(s[|s| - 1]) then [s[|s| - 1]] else [])
  }

  /** The books of `books` that match `c`, in dataset order. */
  function Filter(books: seq<Book>, c: Criteria): seq<Book> {
    Keep(books, b => Matches(b, c))
  }

  /** The genre loop: starts from `genre === 'any'`, breaks as soon as the flag
      is set, and sets it on the first genre equal to the wanted one. */
  method GenreLoop(genres: seq<string>, wanted: string) returns (genreMatch: bool)
    ensures genreMatch == GenreMatches(genres, wanted)
  {
    genreMatch := wanted == Any;
    var i := 0;
    while i < |genres|
      invariant 0 <= i <= |genres|
      invariant genreMatch == (wanted == Any || wanted in genres[..i])
    {
      if genreMatch {
        break;
      }
      if genres[i] == wanted {
        genreMatch := true;
      }
      assert genres[..i + 1] == genres[..i] + [genres[i]];
      i := i + 1;
    }
    assert genreMatch ==> GenreMatches(genres, wanted) by {
      if genreMatch && wanted != Any {
        assert wanted in genres[..i];
      }
    }
    assert i == |genres| ==> genres[..i] == genres;
  }

  /** The submit handler's loop: pushes each matching book onto `result`. */
  method CollectMatches(books: seq<Book>, c: Criteria) returns (result: seq<Book>)
    ensures result == Filter(books, c)
  {
    result := [];
    for i := 0 to |books|
      invariant result == Filter(books[..i], c)
    {
      var book := books[i];
      var genreMatch := GenreLoop(book.genres, c.genre);
      FilterSnoc(books, c, i);
      var titleMatch := Trim(c.title) == [] || Contains(Lower(book.title), Lower(c.title));
      assert titleMatch == TitleMatches(book.title, c.title);
      if titleMatch && (c.author == Any || book.author == c.author) && genreMatch {
        result := result + [book];
      }
    }
    assert books[..|books|] == books;
  }

  /** Extending the input by one book extends the result by that book exactly
      when it matches. */
  lemma FilterSnoc(books: seq<Book>, c: Criteria, i: nat)
    requires i < |books|
    ensures Filter(books[..i + 1], c) == Filter(books[..i], c) + (if Matches(books[i], c) then [books[i]] else [])
  {
    assert books[..i + 1][..i] == books[..i];
  }

  /** Membership: an element is kept exactly when it is in the input and
      satisfies the condition. For `Filter`, the condition is `Matches(_, c)`. */
  lemma {:induction false} KeepMembership<T>(s: seq<T>, keep: T -> bool, x: T)
    ensures x in Keep(s, keep) <==> x in s && keep(x)
    decreases |s|
  {
    if s != [] {
      var init := s[..|s| - 1];
      KeepMembership(init, keep, x);
      assert s == init + [s[|s| - 1]];
    }
  }

  /** Order and exactness: the result is the input restricted to the positions
      whose element satisfies the condition, taken in increasing order. */
  lemma {:induction false} KeepPositions<T>(s: seq<T>, keep: T -> bool) returns (idx: seq<nat>)
    ensures |idx| == |Keep(s, keep)|
    ensures forall i :: 0 <= i < |idx| ==> idx[i] < |s| && s[idx[i]] == Keep(s, keep)[i]
    ensures forall i, j :: 0 <= i < j < |idx| ==> idx[i] < idx[j]
    ensures forall k :: 0 <= k < |s| ==> (keep(s[k]) <==> k in idx)
    decreases |s|
  {
    if s == [] {
      idx := [];
    } else {
      var n := |s| - 1;
      var init := s[..n];
      var prev := KeepPositions(init, keep);
      var r, rp := Keep(s, keep), Keep(init, keep);
      if keep(s[n]) {
        assert r == rp + [s[n]];
        idx := prev + [n];
        assert forall i :: 0 <= i < |prev| ==> idx[i] == prev[i] && r[i] == rp[i];
        assert forall i, j :: 0 <= i < j < |idx| ==> idx[i] < idx[j];
      } else {
        assert r == rp + [] == rp;
        idx := prev;
      }
      forall i | 0 <= i < |prev| ensures s[prev[i]] == init[prev[i]] {
      }
      forall k | 0 <= k < n ensures s[k] == init[k] {
      }
    }
  }

  /** Multiplicity: an element occurs in the result as often as in the input
      when it satisfies the condition, and not at all otherwise. */
  lemma {:induction false} KeepMultiplicity<T>(s: seq<T>, keep: T -> bool, x: T)
    ensures multiset(Keep(s, keep))[x] == if keep(x) then multiset(s)[x] else 0
    decreases |s|
  {
    if s != [] {
      var init := s[..|s| - 1];
      KeepMultiplicity(init, keep, x);
      assert s == init + [s[|s| - 1]];
    }
  }

  /** Filtering a filtered list again with the same condition changes nothing. */
  lemma {:induction false} KeepIdempotent<T>(s: seq<T>, keep: T -> bool)
    ensures Keep(Keep(s, keep), keep) == Keep(s, keep)
    decreases |s|
  {
    if s != [] {
      var n := |s| - 1;
      var init, last := s[..n], s[n];
      KeepIdempotent(init, keep);
      var r := Keep(init, keep);
      if keep(last) {
        var rl := r + [last];
        assert rl[..|rl| - 1] == r && rl[|rl| - 1] == last;
      } else {
        assert Keep(s, keep) == r + [] == r;
      }
    }
  }

  /** When every element satisfies the condition, nothing is dropped. */
  lemma {:induction false} KeepAll<T>(s: seq<T>, keep: T -> bool)
    requires forall i :: 0 <= i < |s| ==> keep(s[i])
    ensures Keep(s, keep) == s
    decreases |s|
  {
    if s != [] {
      var n := |s| - 1;
      KeepAll(s[..n], keep);
      assert s == s[..n] + [s[n]];
    }
  }

  /** A dataset with distinct ids gives a search result with distinct ids. */
  lemma FilterKeepsDistinct(books: seq<Book>, c: Criteria)
    requires DistinctIds(books)
    ensures DistinctIds(Filter(books, c))
  {
    var r := Filter(books, c);
    var idx := KeepPositions(books, b => Matches(b, c));
    forall i, j | 0 <= i < j < |r| ensures r[i].id != r[j].id {
      assert r[i] == books[idx[i]] && r[j] == books[idx[j]];
    }
  }

  /** The form's defaults — empty title, author "any", genre "any" — give the
      dataset back unchanged. */
  lemma FilterDefaultsIsIdentity(books: seq<Book>)
    ensures Filter(books, Criteria("", Any, Any)) == books
  {
    KeepAll(books, b => Matches(b, Criteria("", Any, Any)));
  }

  /** A blank query (only whitespace) matches every title. */
  lemma BlankQueryMatchesAll(title: string, query: string)
    requires IsBlank(query)
    ensures TitleMatches(title, query)
  {
  }

  /** The query is lower-cased but not trimmed: " dune" does not match the
      title "Dune", although "dune" does. */
  lemma UntrimmedQueryMustOccur()
    ensures TitleMatches("Dune", "dune")
    ensures !TitleMatches("Dune", " dune")
  {
    assert OccursAt(Lower("Dune"), Lower("dune"), 0);
    assert !IsBlank(" dune") by { assert !IsWhitespace(" dune"[1]); }
    assert |Lower(" dune")| > |Lower("Dune")|;
  }

  /** The title condition ignores ASCII case on both sides. */
  lemma TitleMatchIgnoresCase(title: string, query: string)
    ensures TitleMatches(title, query) <==> TitleMatches(Lower(title), Lower(query))
  {
    LowerIdempotent(title);
    LowerIdempotent(query);
    assert Trim(query) == [] <==> Trim(Lower(query)) == [] by {
      assert IsBlank(query) <==> IsBlank(Lower(query)) by {
        forall i | 0 <= i < |query| ensures IsWhitespace(query[i]) <==> IsWhitespace(Lower(query)[i]) {
          assert Lower(query)[i] == LowerChar(query[i]);
        }
      }
    }
  }
}
