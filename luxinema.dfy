/**
 * The package version of the scraper (luxinema/luxinema.py): the search query with
 * punctuation stripped, the movie-ID lookup, and the schedule that keeps only the
 * target date's items and skips items without showtimes.
 */
module Luxinema {
  import opened Results
  import opened Text
  import opened Dates
  import opened Schedule
  import Imdb

  /** The characters deleted from the query, one `replace` each; '+' is deliberately absent. */
  const Punctuation: string := "!\"#$%&'()*,-./:;<=>?@[\\]^_`{|}~"

  /** The title as it appears in the query: a space becomes '+', punctuation disappears. */
  function EncodeTitle(title: string): (r: string)
    ensures |r| <= |title|
  {
    if title == [] then []
    else
      (if title[0] == ' ' then "+" else if title[0] in Punctuation then "" else [title[0]])
      + EncodeTitle(title[1..])
  }

  /** Letters, digits, the space and '+' are not punctuation. */
  lemma PunctuationChars()
    ensures forall c :: c in Punctuation ==>
      c != ' ' && c != '+' && !IsDigit(c) && !('a' <= c <= 'z') && !('A' <= c <= 'Z')
  {
  }

  /** The encoding drops spaces and punctuation and keeps every other character of the title. */
  lemma {:induction false} EncodeTitleIsClean(title: string)
    ensures forall c :: c in EncodeTitle(title) ==> c != ' ' && c !in Punctuation
    ensures forall c :: c in title && c != ' ' && c !in Punctuation ==> c in EncodeTitle(title)
  {
    if title != [] {
      EncodeTitleIsClean(title[1..]);
      PunctuationChars();
    }
  }

  /** The query the search is run with: encoded title, `+imdb+`, the current year. */
  function SearchQuery(title: string, year: nat): string {
    EncodeTitle(title) + "+imdb+" + NatToString(year)
  }

  /** No space and no punctuation character survives into the query; the title's other characters do. */
  lemma SearchQueryIsClean(title: string, year: nat)
    ensures ' ' !in SearchQuery(title, year)
    ensures forall c :: c in Punctuation ==> c !in SearchQuery(title, year)
    ensures forall c :: c in title && c != ' ' && c !in Punctuation ==> c in SearchQuery(title, year)
  {
    EncodeTitleIsClean(title);
    PunctuationChars();
    var digits := NatToString(year);
    assert forall c :: c in digits ==> IsDigit(c);
  }

  /** Replacing spaces and then deleting punctuation is the per-character encoding. */
  lemma {:induction false} StrippedTitle(title: string)
    ensures Without(Replace(title, ' ', "+"), Punctuation) == EncodeTitle(title)
  {
    if title != [] {
      StrippedTitle(title[1..]);
      var head := if title[0] == ' ' then "+" else [title[0]];
      var tail := Replace(title[1..], ' ', "+");
      assert Replace(title, ' ', "+") == head + tail;
      WithoutAppend(head, tail, Punctuation);
      assert Without(head, Punctuation) == (if title[0] == ' ' then "+" else if title[0] in Punctuation then "" else [title[0]]) by {
        PunctuationChars();
      }
    }
  }

  /** The query before the deletions, with the punctuation deleted, is the search query. */
  lemma RawQueryStripped(title: string, year: nat)
    ensures Without(Replace(title, ' ', "+") + "+imdb+" + NatToString(year), Punctuation) == SearchQuery(title, year)
  {
    StrippedTitle(title);
    WithoutAppend(Replace(title, ' ', "+") + "+imdb+", NatToString(year), Punctuation);
    WithoutAppend(Replace(title, ' ', "+"), "+imdb+", Punctuation);
    MarkerSurvives();
    DigitsSurvive(NatToString(year));
  }

  lemma MarkerSurvives()
    ensures Without("+imdb+", Punctuation) == "+imdb+"
  {
    PunctuationChars();
    WithoutNothing("+imdb+", Punctuation);
  }

  lemma DigitsSurvive(digits: string)
    requires AllDigits(digits)
    ensures Without(digits, Punctuation) == digits
  {
    PunctuationChars();
    assert forall c :: c in digits ==> IsDigit(c);
    WithoutNothing(digits, Punctuation);
  }

  /** The query `get_movie_id` builds, by the same replace-then-delete loop. */
  method BuildQuery(title: string, year: nat) returns (query: string)
    ensures query == SearchQuery(title, year)
  {
    query := Replace(title, ' ', "+") + "+imdb+" + NatToString(year);
    ghost var raw := query;
    WithoutNothing(raw, Punctuation[..0]);
    for i := 0 to |Punctuation|
      invariant query == Without(raw, Punctuation[..i])
    {
      StripStep(raw, i);
      query := Replace(query, Punctuation[i], "");
    }
    StripAll(title, year);
  }

  /** One more pass of the loop deletes one more punctuation character. */
  lemma StripStep(raw: string, i: nat)
    requires i < |Punctuation|
    ensures Replace(Without(raw, Punctuation[..i]), Punctuation[i], "") == Without(raw, Punctuation[..i + 1])
  {
    DeleteOneMore(raw, Punctuation[..i], Punctuation[i]);
    assert Punctuation[..i + 1] == Punctuation[..i] + [Punctuation[i]];
  }

  /** After the last pass every punctuation character is gone from the raw query. */
  lemma StripAll(title: string, year: nat)
    ensures Without(Replace(title, ' ', "+") + "+imdb+" + NatToString(year), Punctuation[..|Punctuation|]) == SearchQuery(title, year)
  {
    assert Punctuation[..|Punctuation|] == Punctuation;
    RawQueryStripped(title, year);
  }

  /** `get_movie_id(title)`: the search response for the query, with the first IMDb ID in it. */
  method GetMovieId(title: string, year: nat, search: string -> string) returns (r: Result<string>)
    ensures r == Imdb.ExtractId(search(SearchQuery(title, year)))
  {
    var query := BuildQuery(title, year);
    r := Imdb.ExtractId(search(query));
  }

  /** The page's `li` items whose `data-date` is `date`, in page order. */
  function OnDate(page: seq<Item>, date: string): (items: seq<Item>)
    ensures |items| <= |page|
    ensures forall it :: it in items <==> it in page && it.date == date
  {
    if page == [] then []
    else
      assert page == [page[0]] + page[1..];
      (if page[0].date == date then [page[0]] else []) + OnDate(page[1..], date)
  }

  /** Every item on the date is kept as many times as it occurs on the page; no other item is kept. */
  lemma {:induction false} OnDateCounts(page: seq<Item>, date: string)
    ensures forall it :: multiset(OnDate(page, date))[it] == (if it.date == date then multiset(page)[it] else 0)
  {
    if page != [] {
      OnDateCounts(page[1..], date);
      assert page == [page[0]] + page[1..];
    }
  }

  /** Filtering a page in two parts filters each part and keeps their order. */
  lemma {:induction false} OnDateAppend(a: seq<Item>, b: seq<Item>, date: string)
    ensures OnDate(a + b, date) == OnDate(a, date) + OnDate(b, date)
  {
    if a == [] {
      assert a + b == b;
    } else {
      var head := if a[0].date == date then [a[0]] else [];
      assert (a + b)[0] == a[0] && (a + b)[1..] == a[1..] + b;
      assert OnDate(a + b, date) == head + OnDate(a[1..] + b, date);
      assert OnDate(a, date) == head + OnDate(a[1..], date);
      OnDateAppend(a[1..], b, date);
    }
  }

  /**
   * One pass of the loop body. An item without a `div.times` raises AttributeError;
   * one whose first `div.times` holds no span is skipped (`Ok(None)`, the `continue`).
   */
  function ProcessItem(item: Item, year: nat, search: string -> string, fetch: string -> Option<Metadata>): (r: Result<Option<Movie>>)
    ensures item.timesDivs == [] ==> r == Err(AttributeError)
    ensures r == Ok(None) <==> item.timesDivs != [] && item.timesDivs[0] == []
    ensures r.Ok? && r.value.Some? ==> HasShowtimes(item) && r.value.value.title == item.title && r.value.value.showtime == item.timesDivs[0]
  {
    if item.timesDivs == [] then Err(AttributeError)
    else if item.timesDivs[0] == [] then Ok(None)
    else match Imdb.ExtractId(search(SearchQuery(item.title, year)))
      case Err(e) => Err(e)
      case Ok(id) =>
        match fetch(id)
        case None => Err(MetadataError)
        case Some(md) => Ok(Some(Movie(item.title, item.timesDivs[0], md.rating, Imdb.MovieUrl(id), md.description)))
  }

  /** The rows appended by the loop over `items`, or the first exception it raises. */
  function Assemble(items: seq<Item>, year: nat, search: string -> string, fetch: string -> Option<Metadata>): (r: Result<seq<Movie>>)
    ensures r.Ok? ==> |r.value| <= |items|
    decreases |items|
  {
    if items == [] then Ok([])
    else match Assemble(items[..|items| - 1], year, search, fetch)
      case Err(e) => Err(e)
      case Ok(rows) =>
        match ProcessItem(items[|items| - 1], year, search, fetch)
        case Err(e) => Err(e)
        case Ok(None) => Ok(rows)
        case Ok(Some(m)) => Ok(rows + [m])
  }

  predicate HasShowtimes(item: Item) {
    item.timesDivs != [] && item.timesDivs[0] != []
  }

  /** The items that get a row: those with at least one showtime, in order. */
  function Listed(items: seq<Item>): seq<Item>
    decreases |items|
  {
    if items == [] then []
    else Listed(items[..|items| - 1]) + (if HasShowtimes(items[|items| - 1]) then [items[|items| - 1]] else [])
  }

  /** `m` is the row the loop builds for `item`. */
  ghost predicate RowFor(item: Item, m: Movie, year: nat, search: string -> string, fetch: string -> Option<Metadata>) {
    var id := Imdb.ExtractId(search(SearchQuery(item.title, year)));
    && m.title == item.title
    && item.timesDivs != [] && m.showtime == item.timesDivs[0] && m.showtime != []
    && id.Ok? && m.url == Imdb.MovieUrl(id.value)
    && fetch(id.value) == Some(Metadata(m.rating, m.description))
  }

  /** Once the loop has raised, the rest of the items do not matter. */
  lemma {:induction false} AssembleErrPersists(items: seq<Item>, k: nat, year: nat, search: string -> string, fetch: string -> Option<Metadata>)
    requires k <= |items|
    requires Assemble(items[..k], year, search, fetch).Err?
    ensures Assemble(items, year, search, fetch) == Assemble(items[..k], year, search, fetch)
    decreases |items| - k
  {
    if k < |items| {
      var next := items[..k + 1];
      assert next[..|next| - 1] == items[..k];
      AssembleErrPersists(items, k + 1, year, search, fetch);
    } else {
      assert items[..k] == items;
    }
  }

  /** The loop completes exactly when no item's pass raises. */
  lemma {:induction false} AssembleSucceeds(items: seq<Item>, year: nat, search: string -> string, fetch: string -> Option<Metadata>)
    ensures Assemble(items, year, search, fetch).Ok? <==>
      forall k :: 0 <= k < |items| ==> ProcessItem(items[k], year, search, fetch).Ok?
    decreases |items|
  {
    if items != [] {
      var front := items[..|items| - 1];
      var last := items[|items| - 1];
      AssembleSucceeds(front, year, search, fetch);
      assert Assemble(items, year, search, fetch).Ok? <==>
        Assemble(front, year, search, fetch).Ok? && ProcessItem(last, year, search, fetch).Ok?;
      assert forall k :: 0 <= k < |front| ==> front[k] == items[k];
    }
  }

  /** The rows are, in order, one per item with showtimes, each built from that item. */
  lemma {:induction false} AssembleRows(items: seq<Item>, year: nat, search: string -> string, fetch: string -> Option<Metadata>)
    requires Assemble(items, year, search, fetch).Ok?
    ensures var rows := Assemble(items, year, search, fetch).value;
      && |rows| == |Listed(items)|
      && forall k :: 0 <= k < |rows| ==> RowFor(Listed(items)[k], rows[k], year, search, fetch)
    decreases |items|
  {
    if items != [] {
      var front := items[..|items| - 1];
      var last := items[|items| - 1];
      assert Assemble(front, year, search, fetch).Ok?;
      AssembleRows(front, year, search, fetch);
      var prev := Assemble(front, year, search, fetch).value;
      var rows := Assemble(items, year, search, fetch).value;
      if HasShowtimes(last) {
        var m := ProcessItem(last, year, search, fetch).value.value;
        assert rows == prev + [m];
        assert Listed(items) == Listed(front) + [last];
        assert RowFor(last, m, year, search, fetch);
      } else {
        assert rows == prev;
        assert Listed(items) == Listed(front);
      }
    }
  }

  /** One more pass of the loop: the item's outcome decides the next state. */
  lemma AssembleNext(items: seq<Item>, i: nat, rows: seq<Movie>, year: nat, search: string -> string, fetch: string -> Option<Metadata>)
    requires i < |items| && Assemble(items[..i], year, search, fetch) == Ok(rows)
    ensures Assemble(items[..i + 1], year, search, fetch) ==
      match ProcessItem(items[i], year, search, fetch)
      case Err(e) => Err(e)
      case Ok(None) => Ok(rows)
      case Ok(Some(m)) => Ok(rows + [m])
  {
    var upto := items[..i + 1];
    assert upto[..|upto| - 1] == items[..i];
  }

  /**
   * `get_lux_schedule(date)`: `date` defaults to today's string; only the target date's
   * items are visited, rows are appended in page order, then sorted by descending rating.
   */
  method GetLuxSchedule(page: seq<Item>, date: Option<string>, today: Date,
                        search: string -> string, fetch: string -> Option<Metadata>)
    returns (r: Result<seq<Movie>>)
    requires Valid(today)
    ensures var target := if date.None? then GetToday(today) else date.value;
      match Assemble(OnDate(page, target), today.year, search, fetch)
      case Err(e) => r == Err(e)
      case Ok(rows) => r.Ok? && SortedByRating(r.value) && multiset(r.value) == multiset(rows)
    ensures r.Ok? ==> forall m :: m in r.value ==> m.showtime != []
  {
    var target := if date.None? then GetToday(today) else date.value;
    var movies := OnDate(page, target);
    var year: nat := today.year;
    var rows: seq<Movie> := [];
    for i := 0 to |movies|
      invariant Assemble(movies[..i], year, search, fetch) == Ok(rows)
      invariant forall m :: m in rows ==> m.showtime != []
    {
      var item := movies[i];
      AssembleNext(movies, i, rows, year, search, fetch);
      if item.timesDivs == [] {
        AssembleErrPersists(movies, i + 1, year, search, fetch);
        return Err(AttributeError);
      }
      var showtime := item.timesDivs[0];
      if showtime == [] {
        continue;
      }
      var movieId := GetMovieId(item.title, year, search);
      if movieId.Err? {
        AssembleErrPersists(movies, i + 1, year, search, fetch);
        return Err(movieId.error);
      }
      var metadata := fetch(movieId.value);
      if metadata.None? {
        AssembleErrPersists(movies, i + 1, year, search, fetch);
        return Err(MetadataError);
      }
      var movie := Movie(item.title, showtime, metadata.value.rating, Imdb.MovieUrl(movieId.value), metadata.value.description);
      rows := rows + [movie];
    }
    assert movies[..|movies|] == movies;
    var sorted := SortByRating(rows);
    assert forall m :: m in sorted ==> m in multiset(rows);
    r := Ok(sorted);
  }
}
