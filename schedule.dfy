/** The records a schedule is made of and the final sort by rating, shared by both versions. */
module Schedule {

  /** One `li`/`content-wrap` item of the parsed listing page. */
  datatype Item = Item(
    date: string,                  // the `li` element's `data-date` attribute
    title: string,                 // the text of the item's `h3`
    timesDivs: seq<seq<string>>)   // each `div.times` in order, as the texts of the spans inside it

  /** What the rating/description lookup returns for a movie ID. */
  datatype Metadata = Metadata(rating: int, description: string)

  /** One row of the schedule: the `Movie` namedtuple. */
  datatype Movie = Movie(title: string, showtime: seq<string>, rating: int, url: string, description: string)

  predicate SortedByRating(s: seq<Movie>) {
    forall i, j :: 0 <= i < j < |s| ==> s[i].rating >= s[j].rating
  }

  /** A row rated at least as high as the head of a sorted list can go in front of it. */
  lemma SortedCons(m: Movie, s: seq<Movie>)
    requires SortedByRating(s)
    requires s == [] || m.rating >= s[0].rating
    ensures SortedByRating([m] + s)
  {
    var r := [m] + s;
    forall i, j | 0 <= i < j < |r| ensures r[i].rating >= r[j].rating {
      if i > 0 {
        assert r[i] == s[i - 1] && r[j] == s[j - 1];
      } else {
        assert r[j] == s[j - 1] && s[0].rating >= s[j - 1].rating;
      }
    }
  }

  /** Puts `m` into a list already sorted by descending rating. */
  function Insert(m: Movie, s: seq<Movie>): (r: seq<Movie>)
    requires SortedByRating(s)
    ensures SortedByRating(r)
    ensures multiset(r) == multiset(s) + multiset{m}
    ensures r[0] == m || (s != [] && r[0] == s[0])
  {
    if s == [] || m.rating >= s[0].rating then
      SortedCons(m, s);
      [m] + s
    else
      assert s == [s[0]] + s[1..];
      var tail := Insert(m, s[1..]);
      assert tail[0].rating <= s[0].rating;
      SortedCons(s[0], tail);
      [s[0]] + tail
  }

  /** `sort_values('Rating', ascending=False)`: the rows reordered by descending rating. */
  function SortByRating(s: seq<Movie>): (r: seq<Movie>)
    ensures SortedByRating(r)
    ensures multiset(r) == multiset(s)
  {
    if s == [] then []
    else
      assert s == [s[0]] + s[1..];
      Insert(s[0], SortByRating(s[1..]))
  }
}
