/**
 * The older copy of the scraper at the top of the repository (luxinema.py): the query
 * keeps its punctuation, and the schedule takes every `content-wrap` item with no date
 * check and no skipping, one showtime per `div.times`.
 */
module LuxinemaRoot {
  import opened Results
  import opened Text
  import opened Dates
  import opened Schedule
  import Imdb
  import Luxinema

  /** `title.replace(" ", "+") + '+imdb+' + str(year)`. */
  function RootQuery(title: string, year: nat): string {
    Replace(title, ' ', "+") + "+imdb+" + NatToString(year)
  }

  /** The query has the title's length plus six plus the year's digits, and ends in `+imdb+<year>`. */
  lemma RootQueryShape(title: string, year: nat)
    ensures var q := RootQuery(title, year);
      && |q| == |title| + 6 + |NatToString(year)|
      && q[|title|..] == "+imdb+" + NatToString(year)
      && forall i :: 0 <= i < |title| ==> q[i] == (if title[i] == ' ' then '+' else title[i])
  {
    ReplaceByChar(title, ' ', '+');
  }

  /** No space is left, and every other character of the title is kept, punctuation included. */
  lemma RootQueryKeepsTitle(title: string, year: nat)
    ensures ' ' !in RootQuery(title, year)
    ensures forall c :: c in title && c != ' ' ==> c in RootQuery(title, year)
  {
    var digits := NatToString(year);
    assert forall c :: c in digits ==> IsDigit(c);
  }

  /** A punctuation character of the title reaches this query but not the package's one. */
  lemma RootKeepsPunctuation(title: string, year: nat, c: char)
    requires c in title && c in Luxinema.Punctuation
    ensures c in RootQuery(title, year)
    ensures c !in Luxinema.SearchQuery(title, year)
    ensures RootQuery(title, year) != Luxinema.SearchQuery(title, year)
  {
    Luxinema.PunctuationChars();
    RootQueryKeepsTitle(title, year);
    Luxinema.SearchQueryIsClean(title, year);
  }

  /** Without punctuation in the title both versions send the same query. */
  lemma SameQueryWithoutPunctuation(title: string, year: nat)
    requires forall c :: c in title ==> c !in Luxinema.Punctuation
    ensures RootQuery(title, year) == Luxinema.SearchQuery(title, year)
  {
    Luxinema.PunctuationChars();
    Luxinema.RawQueryStripped(title, year);
    var raw := RootQuery(title, year);
    assert forall c :: c in raw ==> c !in Luxinema.Punctuation by {
      RootQueryKeepsTitle(title, year);
      var digits := NatToString(year);
      assert forall c :: c in digits ==> IsDigit(c);
    }
    WithoutNothing(raw, Luxinema.Punctuation);
  }

  /** `get_movie_id(title)`: the first IMDb ID in the response to the unstripped query. */
  function GetMovieId(title: string, year: nat, search: string -> string): (r: Result<string>)
    ensures r.Ok? ==> '/' !in r.value && '\n' !in r.value
    ensures r.Err? ==> r.error == AttributeError
  {
    Imdb.ExtractId(search(RootQuery(title, year)))
  }

  /** `[time.find('span').text for time in times]`: AttributeError if a `div.times` has no span. */
  function FirstSpans(divs: seq<seq<string>>): (r: Result<seq<string>>)
    ensures r.Ok? <==> forall k :: 0 <= k < |divs| ==> divs[k] != []
    ensures r.Err? ==> r.error == AttributeError
    ensures r.Ok? ==> |r.value| == |divs| && forall k :: 0 <= k < |divs| ==> r.value[k] == divs[k][0]
  {
    if divs == [] then Ok([])
    else if divs[0] == [] then Err(AttributeError)
    else match FirstSpans(divs[1..])
      case Err(e) => Err(e)
      case Ok(rest) => Ok([divs[0][0]] + rest)
  }

  /** One pass of the loop body: every item gives a row. */
  function ProcessItem(item: Item, year: nat, search: string -> string, fetch: string -> Option<Metadata>): (r: Result<Movie>)
    ensures r.Ok? ==> r.value.title == item.title && |r.value.showtime| == |item.timesDivs|
    ensures (exists k :: 0 <= k < |item.timesDivs| && item.timesDivs[k] == []) ==> r == Err(AttributeError)
  {
    match FirstSpans(item.timesDivs)
    case Err(e) => Err(e)
    case Ok(showtime) =>
      match GetMovieId(item.title, year, search)
      case Err(e) => Err(e)
      case Ok(id) =>
        match fetch(id)
        case None => Err(MetadataError)
        case Some(md) => Ok(Movie(item.title, showtime, md.rating, Imdb.MovieUrl(id), md.description))
  }

  /** The rows appended by the loop over `items`, or the first exception it raises. */
  function Assemble(items: seq<Item>, year: nat, search: string -> string, fetch: string -> Option<Metadata>): (r: Result<seq<Movie>>)
    ensures r.Ok? ==> |r.value| == |items|
    decreases |items|
  {
    if items == [] then Ok([])
    else match Assemble(items[..|items| - 1], year, search, fetch)
      case Err(e) => Err(e)
      case Ok(rows) =>
        match ProcessItem(items[|items| - 1], year, search, fetch)
        case Err(e) => Err(e)
        case Ok(m) => Ok(rows + [m])
  }

  /** `m` is the row the loop builds for `item`. */
  ghost predicate RowFor(item: Item, m: Movie, year: nat, search: string -> string, fetch: string -> Option<Metadata>) {
    var id := GetMovieId(item.title, year, search);
    && m.title == item.title
    && |m.showtime| == |item.timesDivs|
    && (forall k :: 0 <= k < |item.timesDivs| ==> item.timesDivs[k] != [] && m.showtime[k] == item.timesDivs[k][0])
    && id.Ok? && m.url == Imdb.MovieUrl(id.value)
    && fetch(id.value) == Some(Metadata(m.rating, m.description))
  }

  lemma {:induction false} AssembleErrPersists(items: seq<Item>, k: nat, year: nat, search: string -> string, fetch: string -> Option<Metadata>)
    requires k <= |items|
    requires Assemble(items[..k], year, search, fetch).Err?
    ensures Assemble(items, year, search, fetch) == Assemble(items[..k], year, search, fetch)
    decreases |items| - k
  {
    if k < |items| {
      var next := items[..k + 1];
      assert next[..|next| - 1] == items[..k];
      AssembleErrPersists(items, k + 1, year, search, fetch);
    } else {
      assert items[..k] == items;
    }
  }

  /** No filtering: exactly one row per item, in item order, each built from its item. */
  lemma {:induction false} AssembleRows(items: seq<Item>, year: nat, search: string -> string, fetch: string -> Option<Metadata>)
    requires Assemble(items, year, search, fetch).Ok?
    ensures var rows := Assemble(items, year, search, fetch).value;
      && |rows| == |items|
      && forall k :: 0 <= k < |rows| ==> RowFor(items[k], rows[k], year, search, fetch)
    decreases |items|
  {
    if items != [] {
      var front := items[..|items| - 1];
      AssembleRows(front, year, search, fetch);
    }
  }

  /** An item with no showtimes still gets its row, with an empty showtime list. */
  lemma KeepsItemsWithoutShowtimes(items: seq<Item>, k: nat, year: nat, search: string -> string, fetch: string -> Option<Metadata>)
    requires Assemble(items, year, search, fetch).Ok?
    requires k < |items| && items[k].timesDivs == []
    ensures |Assemble(items, year, search, fetch).value| == |items|
    ensures Assemble(items, year, search, fetch).value[k].showtime == []
  {
    AssembleRows(items, year, search, fetch);
  }

  /**
   * `get_lux_schedule(date)`: every item of the page is visited, whatever its date;
   * rows are appended in page order, then sorted by descending rating.
   */
  method GetLuxSchedule(page: seq<Item>, search: string -> string, fetch: string -> Option<Metadata>, year: nat)
    returns (r: Result<seq<Movie>>)
    ensures match Assemble(page, year, search, fetch)
      case Err(e) => r == Err(e)
      case Ok(rows) => r.Ok? && SortedByRating(r.value) && multiset(r.value) == multiset(rows)
  {
    var rows: seq<Movie> := [];
    for i := 0 to |page|
      invariant Assemble(page[..i], year, search, fetch) == Ok(rows)
    {
      var item := page[i];
      var upto := page[..i + 1];
      assert upto[..|upto| - 1] == page[..i];
      var showtime := FirstSpans(item.timesDivs);
      if showtime.Err? {
        AssembleErrPersists(page, i + 1, year, search, fetch);
        return Err(showtime.error);
      }
      var movieId := GetMovieId(item.title, year, search);
      if movieId.Err? {
        AssembleErrPersists(page, i + 1, year, search, fetch);
        return Err(movieId.error);
      }
      var metadata := fetch(movieId.value);
      if metadata.None? {
        AssembleErrPersists(page, i + 1, year, search, fetch);
        return Err(MetadataError);
      }
      var movie := Movie(item.title, showtime.value, metadata.value.rating, Imdb.MovieUrl(movieId.value), metadata.value.description);
      rows := rows + [movie];
    }
    assert page[..|page|] == page;
    r := Ok(SortByRating(rows));
  }
}
