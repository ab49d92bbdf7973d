/** The parts of Python's `str` behaviour the modelled code relies on. */
module Text {

  predicate IsDigit(c: char) { '0' <= c <= '9' }

  predicate AllDigits(s: string) { forall i :: 0 <= i < |s| ==> IsDigit(s[i]) }

  function DigitChar(d: nat): (c: char)
    requires d < 10
    ensures IsDigit(c) && c as int - '0' as int == d
  {
    ('0' as int + d) as char
  }

  /** The number a string of decimal digits denotes. */
  function DigitsValue(s: string): nat
    requires AllDigits(s)
  {
    if s == [] then 0 else DigitsValue(s[..|s| - 1]) * 10 + (s[|s| - 1] as int - '0' as int)
  }

  function Pow10(n: nat): (r: nat)
    ensures r >= 1
  {
    if n == 0 then 1 else 10 * Pow10(n - 1)
  }

  /**
   * The last `width` decimal digits of `n`, zero-padded. This agrees with `'%0<width>d' % n`
   * only when `n < Pow10(width)`: Python pads but never truncates.
   */
  function ZeroPad(n: nat, width: nat): (s: string)
    ensures |s| == width && AllDigits(s)
  {
    if width == 0 then "" else ZeroPad(n / 10, width - 1) + [DigitChar(n % 10)]
  }

  lemma {:induction false} ZeroPadValue(n: nat, width: nat)
    requires n < Pow10(width)
    ensures DigitsValue(ZeroPad(n, width)) == n
  {
    if width > 0 {
      ZeroPadValue(n / 10, width - 1);
      var s := ZeroPad(n, width);
      assert s[..|s| - 1] == ZeroPad(n / 10, width - 1);
    }
  }

  /** `str(n)` for a non-negative int: decimal digits without leading zeros. */
  function NatToString(n: nat): (s: string)
    ensures |s| >= 1 && AllDigits(s)
    ensures s[0] == '0' ==> s == "0"
  {
    if n < 10 then [DigitChar(n)] else NatToString(n / 10) + [DigitChar(n % 10)]
  }

  lemma {:induction false} NatToStringValue(n: nat)
    ensures DigitsValue(NatToString(n)) == n
  {
    if n >= 10 {
      NatToStringValue(n / 10);
      var s := NatToString(n);
      assert s[..|s| - 1] == NatToString(n / 10);
    }
  }

  /** `s.replace(pat, sub)` where `pat` is one character. */
  function Replace(s: string, pat: char, sub: string): (r: string)
    ensures forall c :: c in r ==> (c in s && c != pat) || c in sub
    ensures forall c :: c in s && c != pat ==> c in r
  {
    if s == [] then [] else (if s[0] == pat then sub else [s[0]]) + Replace(s[1..], pat, sub)
  }

  lemma {:induction false} ReplaceAppend(a: string, b: string, pat: char, sub: string)
    ensures Replace(a + b, pat, sub) == Replace(a, pat, sub) + Replace(b, pat, sub)
  {
    if a == [] {
      assert a + b == b;
    } else {
      assert (a + b)[1..] == a[1..] + b;
      ReplaceAppend(a[1..], b, pat, sub);
    }
  }

  lemma {:induction false} ReplaceAbsent(s: string, pat: char, sub: string)
    requires pat !in s
    ensures Replace(s, pat, sub) == s
  {
    if s != [] {
      ReplaceAbsent(s[1..], pat, sub);
    }
  }

  /** Replacing one character by one character keeps the length and changes nothing else. */
  lemma {:induction false} ReplaceByChar(s: string, pat: char, c: char)
    ensures |Replace(s, pat, [c])| == |s|
    ensures forall i :: 0 <= i < |s| ==> Replace(s, pat, [c])[i] == (if s[i] == pat then c else s[i])
  {
    if s != [] {
      ReplaceByChar(s[1..], pat, c);
    }
  }

  /** `s` with every character that occurs in `cs` deleted, the rest kept in order. */
  function Without(s: string, cs: string): (r: string)
    ensures forall c :: c in r ==> c in s && c !in cs
    ensures forall c :: c in s && c !in cs ==> c in r
  {
    if s == [] then [] else (if s[0] in cs then [] else [s[0]]) + Without(s[1..], cs)
  }

  lemma {:induction false} WithoutAppend(a: string, b: string, cs: string)
    ensures Without(a + b, cs) == Without(a, cs) + Without(b, cs)
  {
    if a == [] {
      assert a + b == b;
    } else {
      assert (a + b)[1..] == a[1..] + b;
      WithoutAppend(a[1..], b, cs);
    }
  }

  lemma {:induction false} WithoutNothing(s: string, cs: string)
    requires forall c :: c in s ==> c !in cs
    ensures Without(s, cs) == s
  {
    if s != [] {
      WithoutNothing(s[1..], cs);
    }
  }

  /** Deleting one more character with `replace(c, '')` extends the deleted set by `c`. */
  lemma {:induction false} DeleteOneMore(s: string, cs: string, c: char)
    ensures Replace(Without(s, cs), c, "") == Without(s, cs + [c])
  {
    if s != [] {
      DeleteOneMore(s[1..], cs, c);
      var head := if s[0] in cs then [] else [s[0]];
      ReplaceAppend(head, Without(s[1..], cs), c, "");
    }
  }

  /** `s.lstrip(chars)` with `chars` given as a set. */
  function TrimLeft(s: string, cs: set<char>): (r: string)
    ensures |r| <= |s| && r == s[|s| - |r|..]
    ensures r != [] ==> r[0] !in cs
    ensures forall i :: 0 <= i < |s| - |r| ==> s[i] in cs
    ensures forall c :: c in s && c !in cs ==> c in r
  {
    if s != [] && s[0] in cs then
      var r := TrimLeft(s[1..], cs);
      assert s[1..][|s| - 1 - |r|..] == s[|s| - |r|..];
      r
    else s
  }

  /** `s.rstrip(chars)` with `chars` given as a set. */
  function TrimRight(s: string, cs: set<char>): (r: string)
    ensures |r| <= |s| && r == s[..|r|]
    ensures r != [] ==> r[|r| - 1] !in cs
    ensures forall i :: |r| <= i < |s| ==> s[i] in cs
    ensures forall c :: c in s && c !in cs ==> c in r
  {
    if s != [] && s[|s| - 1] in cs then
      var r := TrimRight(s[..|s| - 1], cs);
      assert s[..|s| - 1][..|r|] == s[..|r|];
      r
    else s
  }

  /** `s.strip(chars)`: both ends trimmed of characters in `cs`, nothing else removed. */
  function Trim(s: string, cs: set<char>): (r: string)
    ensures r != [] ==> r[0] !in cs && r[|r| - 1] !in cs
    ensures forall c :: c in r ==> c in s
    ensures forall c :: c in s && c !in cs ==> c in r
  {
    TrimRight(TrimLeft(s, cs), cs)
  }

  /** `s.split(sep)`: the pieces between occurrences of `sep`. */
  function Split(s: string, sep: char): (parts: seq<string>)
    ensures |parts| >= 1
    ensures forall k :: 0 <= k < |parts| ==> sep !in parts[k]
  {
    if s == [] then [""]
    else
      var rest := Split(s[1..], sep);
      if s[0] == sep then [""] + rest else [[s[0]] + rest[0]] + rest[1..]
  }

  /** `sep.join(parts)`. */
  function Join(parts: seq<string>, sep: char): string
    requires |parts| >= 1
  {
    if |parts| == 1 then parts[0] else parts[0] + [sep] + Join(parts[1..], sep)
  }

  lemma {:induction false} JoinSplit(s: string, sep: char)
    ensures Join(Split(s, sep), sep) == s
  {
    if s != [] {
      JoinSplit(s[1..], sep);
      var rest := Split(s[1..], sep);
      if s[0] != sep && |rest| > 1 {
        assert Split(s, sep)[1..] == rest[1..];
      }
    }
  }

  lemma {:induction false} SplitJoin(parts: seq<string>, sep: char)
    requires |parts| >= 1
    requires forall k :: 0 <= k < |parts| ==> sep !in parts[k]
    ensures Split(Join(parts, sep), sep) == parts
  {
    if |parts| == 1 {
      SplitNoSep(parts[0], sep);
    } else {
      SplitJoin(parts[1..], sep);
      SplitPrefix(parts[0], Join(parts[1..], sep), sep);
      assert [parts[0]] + parts[1..] == parts;
    }
  }

  lemma {:induction false} SplitNoSep(s: string, sep: char)
    requires sep !in s
    ensures Split(s, sep) == [s]
  {
    if s != [] {
      assert sep !in s[1..];
      SplitNoSep(s[1..], sep);
      assert [s[0]] + s[1..] == s;
    }
  }

  /** A piece free of `sep` followed by `sep` becomes the first piece. */
  lemma {:induction false} SplitPrefix(a: string, b: string, sep: char)
    requires sep !in a
    ensures Split(a + [sep] + b, sep) == [a] + Split(b, sep)
  {
    if a == [] {
      assert ([sep] + b)[1..] == b;
      assert a + [sep] + b == [sep] + b;
    } else {
      assert (a + [sep] + b)[1..] == a[1..] + [sep] + b;
      SplitPrefix(a[1..], b, sep);
      assert [a[0]] + a[1..] == a;
    }
  }

  /** There is a second piece exactly when the separator occurs. */
  lemma {:induction false} SplitHasSecond(s: string, sep: char)
    ensures |Split(s, sep)| >= 2 <==> sep in s
  {
    if s != [] {
      SplitHasSecond(s[1..], sep);
    }
  }

  /** A piece free of `sep` that ends at `sep` or at the end of the text is the first piece. */
  lemma SplitFirst(first: string, rest: string, sep: char)
    requires sep !in first
    requires rest == [] || rest[0] == sep
    ensures Split(first + rest, sep)[0] == first
  {
    if rest == [] {
      assert first + rest == first;
      SplitNoSep(first, sep);
    } else {
      assert first + rest == first + [sep] + rest[1..];
      SplitPrefix(first, rest[1..], sep);
    }
  }

  /** The second piece is what lies between the first and the second separator. */
  lemma SplitSecond(first: string, second: string, rest: string, sep: char)
    requires sep !in first && sep !in second
    requires rest == [] || rest[0] == sep
    ensures |Split(first + [sep] + second + rest, sep)| >= 2
    ensures Split(first + [sep] + second + rest, sep)[1] == second
  {
    var tail := second + rest;
    assert first + [sep] + second + rest == first + [sep] + tail;
    SplitPrefix(first, tail, sep);
    SplitFirst(second, rest, sep);
  }
}
