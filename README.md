# luxinema in Dafny

A model of the string and list handling in luxinema, a scraper for the LUX Nijmegen
cinema's daily schedule. The scraper:

- formats dates as hyphen-free ISO strings (`YYYYMMDD`) for today, tomorrow and any given date;
- builds a Google query from a film title and the current year;
- takes the first IMDb title ID out of the search response;
- builds the IMDb URL for that ID;
- assembles one schedule row per listed film and sorts the rows by rating, highest first.

Two versions are modelled side by side:

- the package version, `luxinema/luxinema.py`. Its query has punctuation deleted. Its schedule
  keeps only the items whose `data-date` is the target date, and it skips items without showtimes.
- the older copy at the top level, `luxinema.py`. Its query keeps the punctuation. Its schedule
  takes every item and skips nothing.

The model also covers the version lookup at the top of `setup.py`.

Modules, one per concern:

- `Results` (results.dfy): the Python exceptions, as `Result` and `Option` values.
- `Text` (text.dfy): the `str` operations the code relies on. These are `replace` with a
  one-character pattern, `str(n)`, `'%0Nd'` padding, `strip(chars)`, `split` and `join`.
- `Dates` (dates.dfy): `datetime.date` for years 1 to 9999. It covers validity, the leap rule,
  `isoformat`, CPython's `toordinal`, and the next day. It also holds `get_today` and
  `get_tomorrow`, which both versions define identically, and `get_date`, which only the
  package version has.
- `Imdb` (imdb.dfy): `re.search('imdb.com/title/(.*?)/', text).group(1)` with
  Python's regex semantics written out, and `get_movie_url`.
- `Schedule` (schedule.dfy): page items, metadata, rows, and the sort by rating.
- `Luxinema` (luxinema.dfy): the package version's `get_movie_id` and `get_lux_schedule`.
- `LuxinemaRoot` (luxinema_root.dfy): the older copy's `get_movie_id` and `get_lux_schedule`.
- `Setup` (setup.dfy): the `for`/`else` scan for `__version__`.

Inputs that come from outside the program are parameters:

- the clock reading `datetime.date.today()` is `today: Date`;
- the Google search is `search: string -> string`, which maps a query to the response text;
- the rating/description lookup is `fetch: string -> Option<Metadata>`, where `None` means it failed;
- the parsed listing page is a `seq<Item>`. Each item holds the `data-date` attribute, the `h3`
  title, and each `div.times` as the texts of its spans.

The code has no check that the IMDb match is the right film, no metadata cache and no placeholder
values: a failed lookup raises and ends `get_lux_schedule`. Nothing is claimed about the order
of equal ratings.

## Model

| member | source | states |
|---|---|---|
| `Dates.Valid` | luxinema/luxinema.py:47 | the range checks `datetime.date(year, month, day)` makes: year 1..9999, month 1..12, day 1 up to the month's length with the Gregorian leap rule |
| `Dates.IsoFormat` | luxinema/luxinema.py:28 | `isoformat()`: the year zero-padded to 4 digits, month and day to 2, joined by '-' |
| `Dates.Compact` | luxinema/luxinema.py:28 | `isoformat().replace('-', '')`; `CompactFields` and `CompactRoundTrip` state what it is |
| `Dates.GetDate` | luxinema/luxinema.py:41-47 | ValueError exactly when (year, month, day) is not a date of years 1..9999 with the Gregorian month lengths; otherwise 8 digits that read back as (year, month, day) |
| `Dates.GetDateLeapExamples` | luxinema/luxinema.py:47 | 2017-02-29 and year 0 are rejected; 2016-02-29 is accepted |
| `Dates.CompactRoundTrip` | luxinema/luxinema.py:28 | `isoformat().replace('-', '')` of a valid date is 8 digits and parses back to the same date |
| `Dates.CompactFields` | luxinema.py:29-30 | the hyphen-free string is the zero-padded 4-digit year, 2-digit month and 2-digit day side by side |
| `Dates.GetToday` | luxinema/luxinema.py:21-28 | today's string is 8 digits, hence hyphen-free, and reads back as today's date |
| `Dates.NextDay` | luxinema/luxinema.py:37 | the next day of a valid date before 9999-12-31 is again a valid date |
| `Dates.NextDayOrdinal` | luxinema/luxinema.py:37 | the next day's CPython ordinal is one more, so it agrees with `date + timedelta(days=1)` |
| `Dates.OrdinalInjective` | luxinema/luxinema.py:37 | two valid dates with the same ordinal are equal, so the next day is the only date one day later |
| `Dates.YearRollover` | luxinema/luxinema.py:37 | December 31 is followed by January 1 of the next year |
| `Dates.LeapDay` | luxinema/luxinema.py:37 | February 28 is followed by February 29 in leap years and by March 1 otherwise |
| `Dates.GetTomorrow` | luxinema/luxinema.py:31-38 | OverflowError exactly when today is 9999-12-31, the last representable date |
| `Dates.TomorrowIsSuccessor` | luxinema.py:33-40 | tomorrow's string is 8 digits and reads back as the one valid date whose ordinal is today's plus one |
| `Text.ZeroPadValue` | luxinema/luxinema.py:47 | a field below 10^width, zero-padded to `width` digits, reads back as itself |
| `Text.NatToString` | luxinema/luxinema.py:59 | `str(year)` is a non-empty run of digits with no leading zero |
| `Text.NatToStringValue` | luxinema/luxinema.py:59 | `str(year)` reads back as the year |
| `Text.Replace` | luxinema/luxinema.py:59 | after `replace(c, t)`, `c` is gone unless `t` brings it back; every other character of the input remains |
| `Text.DeleteOneMore` | luxinema/luxinema.py:60-61 | `replace(c, '')` after deleting a set of characters deletes that set plus `c` |
| `Luxinema.PunctuationChars` | luxinema/luxinema.py:60 | the deleted set holds no letter, digit, space or '+' |
| `Luxinema.StrippedTitle` | luxinema/luxinema.py:59-61 | spaces-to-'+' followed by the deletions equals the per-character encoding (space to '+', punctuation dropped, rest kept) |
| `Luxinema.RawQueryStripped` | luxinema/luxinema.py:59-61 | deleting punctuation from the whole raw query leaves the encoded title, `+imdb+` and the year's digits intact |
| `Luxinema.BuildQuery` | luxinema/luxinema.py:58-61 | the replace-then-delete loop yields the encoded title followed by `+imdb+` and `str(year)` |
| `Luxinema.EncodeTitleIsClean` | luxinema/luxinema.py:59-61 | the encoded title has no space and no punctuation, and keeps every other character of the title |
| `Luxinema.SearchQueryIsClean` | luxinema/luxinema.py:58-61 | the query holds no space and no character of the punctuation set, for any title, including 'Thelma & Louise' and 'Apocalypse Now!' |
| `Luxinema.EncodeTitle` | luxinema/luxinema.py:59-61 | the title as it ends up in the query, character by character: a space becomes '+', punctuation is dropped, anything else is kept; never longer than the title |
| `Luxinema.SearchQuery` | luxinema/luxinema.py:58-61 | the query that is searched: the encoded title, `+imdb+` and `str(year)`; `BuildQuery` and `SearchQueryIsClean` state what it is and holds |
| `Luxinema.GetMovieId` | luxinema/luxinema.py:49-66 | the result is the regex extraction applied to the search response for the stripped query |
| `Imdb.GroupEnd` | luxinema/luxinema.py:65 | the lazy group stops at the first '/' and contains no '/' or newline |
| `Imdb.FirstMatch` | luxinema/luxinema.py:65 | the search returns the first start position where the whole pattern matches, and reports none when no position matches |
| `Imdb.ExtractId` | luxinema/luxinema.py:65 | an extracted ID has no '/' and no newline; no match raises AttributeError (`None.group`) |
| `Imdb.MatchesAtGroupEnd` | luxinema/luxinema.py:65 | the scanner's match at a position coincides with the reference reading of the pattern (prefix with '.' as wildcard, group, closing '/') |
| `Imdb.ExtractIdFindsLeftmost` | luxinema/luxinema.py:65 | the extracted ID is the group of a match at some position, and no match starts earlier |
| `Imdb.ExtractIdOfLeftmost` | luxinema.py:55 | the group of the leftmost match is what is extracted |
| `Imdb.ExtractIdFails` | luxinema/luxinema.py:65 | extraction fails exactly when the pattern matches nowhere in the text |
| `Imdb.WildcardExample` | luxinema/luxinema.py:65 | the unescaped '.' of `imdb.com` matches any other character |
| `Imdb.EmptyGroupExample` | luxinema/luxinema.py:65 | the group may be empty |
| `Imdb.NewlineExample` | luxinema/luxinema.py:65 | a newline before the closing '/' leaves no match and raises |
| `Imdb.MovieUrl` | luxinema.py:59-66 | the URL is `https://imdb.com/title/` followed by the ID |
| `Imdb.UrlRoundTrip` | luxinema/luxinema.py:69-76 | extracting from a built URL followed by '/' gives back any ID without '/' or newline |
| `Luxinema.OnDate` | luxinema/luxinema.py:113 | an item is kept exactly when it is on the page and its `data-date` equals the target date; the result is no longer than the page |
| `Luxinema.OnDateCounts` | luxinema/luxinema.py:113 | every item on the target date is kept as many times as it occurs on the page, and no other item is kept |
| `Luxinema.OnDateAppend` | luxinema/luxinema.py:113 | filtering keeps page order: the filter of two concatenated parts is the concatenation of their filters |
| `Luxinema.ProcessItem` | luxinema/luxinema.py:117-125 | one pass of the loop body: no `div.times` raises AttributeError; an empty first `div.times` is skipped exactly then; a built row carries the item's title and its first `div.times` spans |
| `Luxinema.Assemble` | luxinema/luxinema.py:116-127 | the rows appended by the loop, or the first exception raised; never more rows than items |
| `Luxinema.AssembleErrPersists` | luxinema/luxinema.py:116-127 | an exception raised for one item ends the loop with that exception |
| `Luxinema.AssembleSucceeds` | luxinema/luxinema.py:116-127 | the loop completes exactly when no item's pass raises |
| `Luxinema.AssembleRows` | luxinema/luxinema.py:116-127 | rows are, in order, one per item with a non-empty first `div.times`; each row carries its item's title and spans, the URL of the ID extracted for its title, and that ID's rating and description |
| `Luxinema.GetLuxSchedule` | luxinema/luxinema.py:94-129 | date defaults to today's string; the result is the first exception, or the appended rows sorted by descending rating as a permutation; every row has a showtime |
| `Schedule.Insert` | luxinema/luxinema.py:129 | inserting into a list sorted by descending rating keeps it sorted and adds exactly that row |
| `Schedule.SortByRating` | luxinema.py:116 | the sorted rows are in non-increasing rating order and are a permutation of the input rows |
| `LuxinemaRoot.RootQuery` | luxinema.py:52 | the unstripped query: spaces replaced by '+', then `+imdb+` and `str(year)`; `RootQueryShape` states its characters position by position |
| `LuxinemaRoot.RootQueryShape` | luxinema.py:52 | the query is as long as the title plus 6 plus the year's digits; it matches the title position by position with spaces turned to '+', and it ends with `+imdb+` and the year |
| `LuxinemaRoot.RootQueryKeepsTitle` | luxinema.py:52 | no space is left, and every other character of the title, punctuation included, is in the query |
| `LuxinemaRoot.RootKeepsPunctuation` | luxinema.py:52 | a punctuation character of the title is in this query but not in the package's, so the two queries differ |
| `LuxinemaRoot.SameQueryWithoutPunctuation` | luxinema.py:52 | for a title without punctuation both versions send the same query |
| `LuxinemaRoot.GetMovieId` | luxinema.py:42-56 | the ID from the unstripped query's response has no '/' or newline; no match raises AttributeError |
| `LuxinemaRoot.FirstSpans` | luxinema.py:106-107 | one showtime per `div.times`, in order, each the first span's text; AttributeError exactly when some `div.times` has no span |
| `LuxinemaRoot.ProcessItem` | luxinema.py:105-112 | one pass of the loop body: a row carries the item's title and one showtime per `div.times`; a `div.times` without a span raises AttributeError |
| `LuxinemaRoot.Assemble` | luxinema.py:104-114 | the rows appended by the loop, or the first exception raised; exactly one row per item |
| `LuxinemaRoot.AssembleErrPersists` | luxinema.py:104-114 | an exception raised for one item ends the loop with that exception |
| `LuxinemaRoot.AssembleRows` | luxinema.py:101-114 | no date filter and no skipping: exactly one row per item, in page order, each built from its item |
| `LuxinemaRoot.KeepsItemsWithoutShowtimes` | luxinema.py:104-114 | an item with no `div.times` still gets a row, with an empty showtime list |
| `LuxinemaRoot.GetLuxSchedule` | luxinema.py:86-116 | the result is the first exception, or every item's row sorted by descending rating as a permutation |
| `Setup.ParseVersion` | setup.py:3-9 | the first line starting with `__version__` decides and later ones are ignored; with no such line the version is `0.0.1` |
| `Setup.IsVersionLine` | setup.py:5 | `line.startswith('__version__')` on the line as read, leading whitespace included |
| `Setup.IndentedLineIgnored` | setup.py:5 | a line with whitespace before `__version__` is not a version line |
| `Setup.VersionValue` | setup.py:6 | the value neither starts nor ends with a space, `'` or `"`; a missing second piece is an IndexError |
| `Setup.VersionValueFails` | setup.py:6 | the IndexError happens exactly when the line has no '=' |
| `Setup.VersionValueIsSecondPiece` | setup.py:6 | the value is the piece between the first and second '=' of the whitespace-stripped line, trimmed of spaces and quotes |
| `Text.Trim` | setup.py:6 | `strip(chars)` leaves no trimmed character at either end, adds no character, and every input character outside the trimmed set is still present |
| `Text.Split` | setup.py:6 | `split(sep)`: at least one piece, and no piece contains `sep`; `JoinSplit` and `SplitJoin` make it the inverse of `join` |
| `Text.SplitSecond` | setup.py:6 | `split('=')[1]` is the text between the first '=' and the next '=' or the end |
| `Text.SplitHasSecond` | setup.py:6 | `split('=')` has a second piece exactly when '=' occurs |
| `Text.JoinSplit` | setup.py:6 | joining the pieces of `split(sep)` with `sep` gives back the string |
| `Text.SplitJoin` | setup.py:6 | splitting pieces without `sep` that were joined with `sep` gives back the pieces |

## Left out

- HTTP requests to the listing page, Google and the IMDb metadata API are left out because they are network I/O. The search response and the metadata lookup are parameters, and the listing URL (`LUXAPI`), the request headers and the `api` argument are not modelled.
- HTML parsing with BeautifulSoup is left out because it is library code. The page is a list of items. A missing `ul.items`, `h3` or `content-wrap` element is not modelled; a missing `div.times` or span is.
- `datetime.date.today()` is a clock read, so today's date is a parameter.
- The pandas DataFrame is a list of rows. `sort_values` is a sort by descending rating; because pandas' default sort is not stable, nothing is claimed about the order of equal ratings.
- Ratings are integers. The metadata API returns JSON values, and no float or string comparison is modelled.
- The metadata lookup is `fetch`, and any failure of it (network error, missing `rating` or `description` key) is the single MetadataError.
- `LuxinemaRoot.GetLuxSchedule` has no `date` argument, because in the older copy the date only shapes the listing URL. It takes the year of today's date.
- `get_today` and `get_tomorrow` are modelled once, in `Dates`, because the two versions define them identically; `get_date` exists only in the package version.
- The rest of setup.py is left out: reading the files, the `setup(...)` call and its metadata. `for line in f` is a list of lines that keep their line endings.
- Concrete query examples for the test titles are covered by the general lemmas `SearchQueryIsClean` and `RootKeepsPunctuation` rather than evaluated on the literal strings. tests/tests.py's `tt\d{7}` check depends on Google's live response.
