/**
 * The IMDb side of the identity lookup: `re.search('imdb.com/title/(.*?)/', text).group(1)`
 * and the title URL built from an ID.
 */
module Imdb {
  import opened Results

  /** The literal part of the pattern; its '.' is the regex wildcard, not a dot. */
  const Prefix: string := "imdb.com/title/"

  const UrlBase: string := "https://imdb.com/title/"

  /** How one pattern character matches one text character: `.` is anything but a newline. */
  predicate CharMatches(p: char, c: char) {
    if p == '.' then c != '\n' else c == p
  }

  /** The pattern's prefix matches the text starting at `i`. */
  predicate PrefixAt(t: string, i: nat) {
    i + |Prefix| <= |t| && forall k :: 0 <= k < |Prefix| ==> CharMatches(Prefix[k], t[i + k])
  }

  /**
   * The lazy group `(.*?)/` started at `j`: it grows one non-newline character at a
   * time until the next character is '/', and fails at a newline or the end of the text.
   */
  function GroupEnd(t: string, j: nat): (e: Option<nat>)
    ensures e.Some? ==> j <= e.value < |t| && t[e.value] == '/'
    ensures e.Some? ==> forall k :: j <= k < e.value ==> t[k] != '/' && t[k] != '\n'
    decreases |t| - j
  {
    if j >= |t| then None
    else if t[j] == '/' then Some(j)
    else if t[j] == '\n' then None
    else GroupEnd(t, j + 1)
  }

  /** `re.search` from position `i`: the first start where the whole pattern matches. */
  function FirstMatch(t: string, i: nat): (m: Option<(nat, nat)>)
    ensures m.Some? ==> i <= m.value.0 && PrefixAt(t, m.value.0) && GroupEnd(t, m.value.0 + |Prefix|) == Some(m.value.1)
    ensures m.Some? ==> forall p :: i <= p < m.value.0 ==> !(PrefixAt(t, p) && GroupEnd(t, p + |Prefix|).Some?)
    ensures m.None? ==> forall p :: i <= p ==> !(PrefixAt(t, p) && GroupEnd(t, p + |Prefix|).Some?)
    decreases |t| - i
  {
    if i + |Prefix| > |t| then None
    else if PrefixAt(t, i) && GroupEnd(t, i + |Prefix|).Some? then Some((i, GroupEnd(t, i + |Prefix|).value))
    else
      var m := FirstMatch(t, i + 1);
      assert forall p :: i <= p < i + 1 ==> !(PrefixAt(t, p) && GroupEnd(t, p + |Prefix|).Some?);
      m
  }

  /** The movie ID in a search response; AttributeError (`None.group`) when nothing matches. */
  function ExtractId(text: string): (r: Result<string>)
    ensures r.Ok? ==> '/' !in r.value && '\n' !in r.value
    ensures r.Err? ==> r.error == AttributeError
  {
    match FirstMatch(text, 0)
    case None => Err(AttributeError)
    case Some((start, end)) => Ok(text[start + |Prefix|..end])
  }

  /** `get_movie_url(movie_id)`. */
  function MovieUrl(id: string): (url: string)
    ensures |url| == |UrlBase| + |id|
    ensures url[..|UrlBase|] == UrlBase && url[|UrlBase|..] == id
  {
    UrlBase + id
  }

  /** The whole pattern matches at `i` with `g` as its group: the reference reading of the regex. */
  ghost predicate MatchesAt(t: string, i: nat, g: string) {
    && PrefixAt(t, i)
    && i + |Prefix| + |g| < |t|
    && t[i + |Prefix|..i + |Prefix| + |g|] == g
    && t[i + |Prefix| + |g|] == '/'
    && '/' !in g && '\n' !in g
  }

  /** A match at `i` is exactly what GroupEnd finds from the end of the prefix. */
  lemma MatchesAtGroupEnd(t: string, i: nat, g: string)
    ensures MatchesAt(t, i, g) <==>
      && PrefixAt(t, i)
      && GroupEnd(t, i + |Prefix|) == Some(i + |Prefix| + |g|)
      && t[i + |Prefix|..i + |Prefix| + |g|] == g
  {
    var j := i + |Prefix|;
    if MatchesAt(t, i, g) {
      forall k | j <= k < j + |g| ensures t[k] != '/' && t[k] != '\n' {
        assert t[k] == g[k - j];
      }
      GroupEndFinds(t, j, j + |g|);
    }
    if PrefixAt(t, i) && GroupEnd(t, j) == Some(j + |g|) && t[j..j + |g|] == g {
      assert forall c :: c in g ==> c != '/' && c != '\n';
    }
  }

  /** GroupEnd stops at the first '/' when no newline comes before it. */
  lemma {:induction false} GroupEndFinds(t: string, j: nat, e: nat)
    requires j <= e < |t| && t[e] == '/'
    requires forall k :: j <= k < e ==> t[k] != '/' && t[k] != '\n'
    ensures GroupEnd(t, j) == Some(e)
    decreases e - j
  {
    if j < e {
      GroupEndFinds(t, j + 1, e);
    }
  }

  /** What ExtractId returns is the group of the leftmost match. */
  lemma ExtractIdFindsLeftmost(t: string, g: string) returns (start: nat)
    requires ExtractId(t) == Ok(g)
    ensures MatchesAt(t, start, g)
    ensures forall p, h :: 0 <= p < start ==> !MatchesAt(t, p, h)
  {
    var m := FirstMatch(t, 0).value;
    start := m.0;
    var end := m.1;
    assert |g| == end - start - |Prefix|;
    MatchesAtGroupEnd(t, start, g);
    forall p, h | 0 <= p < start ensures !MatchesAt(t, p, h) {
      MatchesAtGroupEnd(t, p, h);
    }
  }

  /** The group of the leftmost match is what ExtractId returns. */
  lemma ExtractIdOfLeftmost(t: string, i: nat, g: string)
    requires MatchesAt(t, i, g)
    requires forall p, h :: 0 <= p < i ==> !MatchesAt(t, p, h)
    ensures ExtractId(t) == Ok(g)
  {
    MatchesAtGroupEnd(t, i, g);
    var m := FirstMatch(t, 0).value;
    if m.0 < i {
      MatchesAtGroupEnd(t, m.0, t[m.0 + |Prefix|..m.1]);
    }
    assert m.0 == i;
  }

  /** The extraction fails exactly when the pattern matches nowhere. */
  lemma ExtractIdFails(t: string)
    ensures ExtractId(t).Err? <==> forall i, g :: !MatchesAt(t, i, g)
  {
    if ExtractId(t).Ok? {
      var (start, end) := FirstMatch(t, 0).value;
      MatchesAtGroupEnd(t, start, ExtractId(t).value);
    } else {
      forall i, g ensures !MatchesAt(t, i, g) {
        MatchesAtGroupEnd(t, i, g);
      }
    }
  }

  /** Extracting from a built URL followed by '/' gives the ID back. */
  lemma UrlRoundTrip(id: string, rest: string)
    requires '/' !in id && '\n' !in id
    ensures ExtractId(MovieUrl(id) + "/" + rest) == Ok(id)
  {
    var t := MovieUrl(id) + "/" + rest;
    var start := |UrlBase| - |Prefix|;
    assert t[start..start + |Prefix|] == Prefix;
    assert t[start + |Prefix|..start + |Prefix| + |id|] == id;
    assert MatchesAt(t, start, id);
    forall p, h | 0 <= p < start ensures !MatchesAt(t, p, h) {
      assert t[p + 0] == UrlBase[p];
      assert !CharMatches(Prefix[0], t[p + 0]);
    }
    ExtractIdOfLeftmost(t, start, id);
  }

  /** The '.' of the pattern is a wildcard. */
  lemma WildcardExample()
    ensures ExtractId("imdbXcom/title/tt0103074/") == Ok("tt0103074")
  {
    var t := "imdbXcom/title/tt0103074/";
    assert MatchesAt(t, 0, "tt0103074");
    ExtractIdOfLeftmost(t, 0, "tt0103074");
  }

  /** The group may be empty. */
  lemma EmptyGroupExample()
    ensures ExtractId("imdb.com/title//") == Ok("")
  {
    var t := "imdb.com/title//";
    assert MatchesAt(t, 0, "");
    ExtractIdOfLeftmost(t, 0, "");
  }

  /** A newline before the closing '/' leaves no match. */
  lemma NewlineExample()
    ensures ExtractId("imdb.com/title/tt01\n/") == Err(AttributeError)
  {
    var t := "imdb.com/title/tt01\n/";
    forall i: nat, g: string ensures !MatchesAt(t, i, g) {
      NewlineNoMatchAt(i, g);
    }
    ExtractIdFails(t);
  }

  /** No position of the newline example matches: only position 0 has the prefix, and its group meets the newline. */
  lemma NewlineNoMatchAt(i: nat, g: string)
    ensures !MatchesAt("imdb.com/title/tt01\n/", i, g)
  {
    var t := "imdb.com/title/tt01\n/";
    if i == 0 {
      MatchesAtGroupEnd(t, i, g);
      assert GroupEnd(t, 15) == None;
    } else if i + |Prefix| <= |t| {
      assert !CharMatches(Prefix[0], t[i + 0]);
    }
  }
}
