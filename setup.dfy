/** The version lookup at the top of setup.py: the first `__version__` line of the package's `__init__.py`. */
module Setup {
  import opened Results
  import opened Text

  const VersionKey: string := "__version__"

  const DefaultVersion: string := "0.0.1"

  /** The characters `str.strip()` removes: those for which Python's `str.isspace()` holds. */
  const Whitespace: set<char> := {
    '\t', '\n', '\U{0B}', '\U{0C}', '\r', '\U{1C}', '\U{1D}', '\U{1E}', '\U{1F}', ' ',
    '\U{85}', '\U{A0}', '\U{1680}', '\U{2000}', '\U{2001}', '\U{2002}', '\U{2003}', '\U{2004}',
    '\U{2005}', '\U{2006}', '\U{2007}', '\U{2008}', '\U{2009}', '\U{200A}', '\U{2028}', '\U{2029}',
    '\U{202F}', '\U{205F}', '\U{3000}'}

  /** The characters `strip(' \'"')` removes from the value. */
  const QuoteChars: set<char> := {' ', '\'', '"'}

  /** `line.startswith('__version__')`, tested on the line as read, leading blanks included. */
  predicate IsVersionLine(line: string) {
    |VersionKey| <= |line| && line[..|VersionKey|] == VersionKey
  }

  /** `line.strip().split('=')[1].strip(' \'"')`; IndexError when the line has no '='. */
  function VersionValue(line: string): (r: Result<string>)
    ensures r.Ok? ==> r.value == [] || (r.value[0] !in QuoteChars && r.value[|r.value| - 1] !in QuoteChars)
    ensures r.Err? ==> r.error == IndexError
  {
    var parts := Split(Trim(line, Whitespace), '=');
    if |parts| < 2 then Err(IndexError) else Ok(Trim(parts[1], QuoteChars))
  }

  /** The value is missing exactly when the line has no '='. */
  lemma VersionValueFails(line: string)
    ensures VersionValue(line).Err? <==> '=' !in line
  {
    var stripped := Trim(line, Whitespace);
    assert '=' !in Whitespace;
    assert '=' in stripped <==> '=' in line;
    SplitHasSecond(stripped, '=');
  }

  /** The value is the piece between the first and second '=', trimmed of spaces and quotes. */
  lemma VersionValueIsSecondPiece(line: string, key: string, piece: string, rest: string)
    requires '=' !in key && '=' !in piece
    requires rest == [] || rest[0] == '='
    requires Trim(line, Whitespace) == key + "=" + piece + rest
    ensures VersionValue(line) == Ok(Trim(piece, QuoteChars))
  {
    SplitSecond(key, piece, rest, '=');
  }

  /**
   * The scan over the file's lines: the first line that starts with `__version__` decides,
   * later ones are never looked at, and without one the version is `0.0.1`.
   */
  method ParseVersion(lines: seq<string>) returns (version: Result<string>)
    ensures (forall i :: 0 <= i < |lines| ==> !IsVersionLine(lines[i])) ==> version == Ok(DefaultVersion)
    ensures forall i :: 0 <= i < |lines| && IsVersionLine(lines[i]) && (forall j :: 0 <= j < i ==> !IsVersionLine(lines[j]))
                        ==> version == VersionValue(lines[i])
  {
    for i := 0 to |lines|
      invariant forall j :: 0 <= j < i ==> !IsVersionLine(lines[j])
    {
      if IsVersionLine(lines[i]) {
        version := VersionValue(lines[i]);
        return;
      }
    }
    version := Ok(DefaultVersion);
  }

  /** A line indented before `__version__` is not a version line. */
  lemma IndentedLineIgnored(line: string)
    requires line != [] && line[0] in Whitespace
    ensures !IsVersionLine(line)
  {
    if |VersionKey| <= |line| {
      assert line[..|VersionKey|][0] == line[0];
      assert VersionKey[0] == '_';
    }
  }
}
