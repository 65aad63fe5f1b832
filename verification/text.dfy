/**
 * Strings as fabrix sees them: `str.split(sep)`, `sep.join(parts)`,
 * `str.strip(chars)`, `str.split()` and `str.startswith`, with the laws the
 * editors and parsers rely on.
 */
module Text {

  /** The characters Python 2's `str.strip()` and `str.split()` treat as whitespace. */
  const Whitespace: set<char> := {' ', '\t', '\n', '\r', 11 as char, 12 as char}

  // ---------------------------------------------------------------------------
  // str.split(sep) and sep.join(parts)
  // ---------------------------------------------------------------------------

  /** `s.split(sep)` for a one-character separator: never empty, no part holds `sep`. */
  function Split(s: string, sep: char): (parts: seq<string>)
    ensures |parts| > 0
    ensures forall i :: 0 <= i < |parts| ==> sep !in parts[i]
    decreases |s|
  {
    if |s| == 0 then [""]
    else
      var rest := Split(s[1..], sep);
      if s[0] == sep then [""] + rest
      else [[s[0]] + rest[0]] + rest[1..]
  }

  /** `sep.join(parts)`; joining nothing gives the empty string. */
  function Join(parts: seq<string>, sep: char): string
  {
    if |parts| == 0 then ""
    else if |parts| == 1 then parts[0]
    else parts[0] + [sep] + Join(parts[1..], sep)
  }

  /** No part of `parts` contains the separator. */
  predicate NoSep(parts: seq<string>, sep: char)
  {
    forall i :: 0 <= i < |parts| ==> sep !in parts[i]
  }

  lemma {:induction false} JoinConsChar(c: char, rest: seq<string>, sep: char)
    requires |rest| > 0
    ensures Join([[c] + rest[0]] + rest[1..], sep) == [c] + Join(rest, sep)
  {
    var parts := [[c] + rest[0]] + rest[1..];
    if |rest| == 1 {
      assert parts == [[c] + rest[0]];
    } else {
      assert parts[1..] == rest[1..];
    }
  }

  /** Joining the parts of a split gives the original text back. */
  lemma {:induction false} JoinSplit(s: string, sep: char)
    ensures Join(Split(s, sep), sep) == s
    decreases |s|
  {
    if |s| > 0 {
      JoinSplit(s[1..], sep);
      var rest := Split(s[1..], sep);
      if s[0] == sep {
        var parts := [""] + rest;
        assert parts[1..] == rest;
        assert Join(parts, sep) == "" + [sep] + Join(rest, sep);
        assert s == [s[0]] + s[1..];
      } else {
        JoinConsChar(s[0], rest, sep);
        assert s == [s[0]] + s[1..];
      }
    }
  }

  lemma {:induction false} SplitNoSepString(a: string, sep: char)
    requires sep !in a
    ensures Split(a, sep) == [a]
    decreases |a|
  {
    if |a| > 0 {
      SplitNoSepString(a[1..], sep);
      assert [a[0]] + a[1..] == a;
    }
  }

  lemma {:induction false} SplitAtSep(a: string, t: string, sep: char)
    requires sep !in a
    ensures Split(a + [sep] + t, sep) == [a] + Split(t, sep)
    decreases |a|
  {
    var s := a + [sep] + t;
    if |a| == 0 {
      assert s[0] == sep && s[1..] == t;
    } else {
      assert s[0] == a[0] && s[1..] == a[1..] + [sep] + t;
      SplitAtSep(a[1..], t, sep);
      assert [a[0]] + a[1..] == a;
    }
  }

  /** Splitting a join gives the parts back, provided no part holds the separator. */
  lemma {:induction false} SplitJoin(parts: seq<string>, sep: char)
    requires |parts| > 0
    requires NoSep(parts, sep)
    ensures Split(Join(parts, sep), sep) == parts
    decreases |parts|
  {
    if |parts| == 1 {
      SplitNoSepString(parts[0], sep);
    } else {
      SplitJoin(parts[1..], sep);
      SplitAtSep(parts[0], Join(parts[1..], sep), sep);
      assert [parts[0]] + parts[1..] == parts;
    }
  }

  /** Joining two non-empty lists puts one separator between their joins. */
  lemma {:induction false} JoinAppend(a: seq<string>, b: seq<string>, sep: char)
    requires |a| > 0 && |b| > 0
    ensures Join(a + b, sep) == Join(a, sep) + [sep] + Join(b, sep)
    decreases |a|
  {
    if |a| == 1 {
      assert (a + b)[1..] == b;
    } else {
      JoinAppend(a[1..], b, sep);
      assert (a + b)[1..] == a[1..] + b;
    }
  }

  lemma JoinSnoc(a: seq<string>, x: string, sep: char)
    requires |a| > 0
    ensures Join(a + [x], sep) == Join(a, sep) + [sep] + x
  {
    JoinAppend(a, [x], sep);
  }

  lemma JoinCons(x: string, b: seq<string>, sep: char)
    requires |b| > 0
    ensures Join([x] + b, sep) == x + [sep] + Join(b, sep)
  {
    JoinAppend([x], b, sep);
  }

  /** The text ends with `sep` exactly when its last part is empty. */
  lemma {:induction false} SplitLastEmpty(s: string, sep: char)
    ensures (Split(s, sep)[|Split(s, sep)| - 1] == "") <==> (|s| == 0 || s[|s| - 1] == sep)
    decreases |s|
  {
    if |s| > 0 {
      SplitLastEmpty(s[1..], sep);
      var rest := Split(s[1..], sep);
      if s[0] != sep && |rest| == 1 {
        JoinSplit(s[1..], sep);
        assert s[1..] == rest[0];
      }
    }
  }

  /** `s.split(sep)` has one part more than `s` has separators. */
  function CountChar(s: string, c: char): nat
  {
    if |s| == 0 then 0 else (if s[0] == c then 1 else 0) + CountChar(s[1..], c)
  }

  // ---------------------------------------------------------------------------
  // str.strip(chars)
  // ---------------------------------------------------------------------------

  function StripLeft(s: string, cs: set<char>): (r: string)
    ensures |r| <= |s| && r == s[|s| - |r|..]
    ensures forall i :: 0 <= i < |s| - |r| ==> s[i] in cs
    ensures |r| > 0 ==> r[0] !in cs
    decreases |s|
  {
    if |s| > 0 && s[0] in cs then StripLeft(s[1..], cs) else s
  }

  function StripRight(s: string, cs: set<char>): (r: string)
    ensures |r| <= |s| && r == s[..|r|]
    ensures forall i :: |r| <= i < |s| ==> s[i] in cs
    ensures |r| > 0 ==> r[|r| - 1] !in cs
    decreases |s|
  {
    if |s| > 0 && s[|s| - 1] in cs then StripRight(s[..|s| - 1], cs) else s
  }

  /** `s.strip(chars)` where `cs` is the set of characters in `chars`. */
  function Strip(s: string, cs: set<char>): (r: string)
  {
    StripRight(StripLeft(s, cs), cs)
  }

  /** How many characters `Strip` cuts from the front of `s`. */
  function StripOffset(s: string, cs: set<char>): nat
  {
    |s| - |StripLeft(s, cs)|
  }

  /** What `Strip` keeps: a run of `s`, with only `cs` characters cut off either end. */
  lemma StripShape(s: string, cs: set<char>)
    ensures var r, k := Strip(s, cs), StripOffset(s, cs);
      && k + |r| <= |s| && r == s[k..k + |r|]
      && (forall i :: 0 <= i < k ==> s[i] in cs)
      && (forall i :: k + |r| <= i < |s| ==> s[i] in cs)
      && (|r| > 0 ==> r[0] !in cs && r[|r| - 1] !in cs)
  {
    var l := StripLeft(s, cs);
    var r := StripRight(l, cs);
    StripRun(s, l, r, cs);
    assert Strip(s, cs) == r && StripOffset(s, cs) == |s| - |l|;
  }

  /** A left cut followed by a right cut leaves a run of `s` with cut characters on either side. */
  lemma StripRun(s: string, l: string, r: string, cs: set<char>)
    requires |l| <= |s| && l == s[|s| - |l|..]
    requires forall i :: 0 <= i < |s| - |l| ==> s[i] in cs
    requires |l| > 0 ==> l[0] !in cs
    requires |r| <= |l| && r == l[..|r|]
    requires forall i :: |r| <= i < |l| ==> l[i] in cs
    requires |r| > 0 ==> r[|r| - 1] !in cs
    ensures var k := |s| - |l|;
      && k + |r| <= |s| && r == s[k..k + |r|]
      && (forall i :: k + |r| <= i < |s| ==> s[i] in cs)
      && (|r| > 0 ==> r[0] !in cs)
  {
    var k := |s| - |l|;
    assert r == s[k..k + |r|];
    assert |r| > 0 ==> r[0] == l[0];
    forall i | k + |r| <= i < |s| ensures s[i] in cs {
      assert s[i] == l[i - k];
    }
  }

  /** Stripping twice strips no more than stripping once. */
  lemma StripIdempotent(s: string, cs: set<char>)
    ensures Strip(Strip(s, cs), cs) == Strip(s, cs)
  {
    var r := Strip(s, cs);
    StripShape(s, cs);
    assert StripLeft(r, cs) == r;
    assert StripRight(r, cs) == r;
  }

  /** A string with no strippable character at either end is its own strip. */
  lemma StripUnchanged(s: string, cs: set<char>)
    requires |s| > 0 ==> s[0] !in cs && s[|s| - 1] !in cs
    ensures StripLeft(s, cs) == s && StripRight(s, cs) == s && Strip(s, cs) == s
  {
  }

  /** `s.strip("")` changes nothing. */
  lemma StripNothing(s: string)
    ensures Strip(s, {}) == s
  {
  }

  /** A stripped string holds no character its source did not. */
  lemma StripKeepsOut(s: string, cs: set<char>, c: char)
    requires c !in s
    ensures c !in Strip(s, cs)
  {
    StripShape(s, cs);
  }

  // ---------------------------------------------------------------------------
  // str.split() with no argument
  // ---------------------------------------------------------------------------

  /** The longest prefix of `s` free of whitespace. */
  function WordPrefix(s: string): (w: string)
    ensures |w| <= |s| && w == s[..|w|]
    ensures forall i :: 0 <= i < |w| ==> w[i] !in Whitespace
    ensures |w| < |s| ==> s[|w|] in Whitespace
    decreases |s|
  {
    if |s| == 0 || s[0] in Whitespace then "" else [s[0]] + WordPrefix(s[1..])
  }

  /** `s.split()`: the maximal whitespace-free runs of `s`, in order. */
  function Words(s: string): (ws: seq<string>)
    ensures forall i :: 0 <= i < |ws| ==> |ws[i]| > 0
    ensures forall i, j :: 0 <= i < |ws| && 0 <= j < |ws[i]| ==> ws[i][j] !in Whitespace
    decreases |s|
  {
    if |s| == 0 then []
    else if s[0] in Whitespace then Words(s[1..])
    else
      var w := WordPrefix(s);
      [w] + Words(s[|w|..])
  }

  lemma {:induction false} WordPrefixExtend(a: string, t: string)
    requires |t| == 0 || t[0] in Whitespace
    ensures WordPrefix(a + t) == WordPrefix(a)
    decreases |a|
  {
    if |a| > 0 && a[0] !in Whitespace {
      assert (a + t)[1..] == a[1..] + t;
      WordPrefixExtend(a[1..], t);
    }
  }

  /** A whitespace character separates words: `(a + c + b).split() == a.split() + b.split()`. */
  lemma {:induction false} WordsAtSpace(a: string, c: char, b: string)
    requires c in Whitespace
    ensures Words(a + [c] + b) == Words(a) + Words(b)
    decreases |a|
  {
    var s := a + [c] + b;
    if |a| == 0 {
      assert s[1..] == b;
    } else if a[0] in Whitespace {
      assert s[1..] == a[1..] + [c] + b;
      WordsAtSpace(a[1..], c, b);
    } else {
      WordPrefixExtend(a, [c] + b);
      assert s == a + ([c] + b);
      var w := WordPrefix(a);
      assert s[|w|..] == a[|w|..] + [c] + b;
      WordsAtSpace(a[|w|..], c, b);
    }
  }

  lemma {:induction false} WordsOfSpaces(x: string)
    requires forall i :: 0 <= i < |x| ==> x[i] in Whitespace
    ensures Words(x) == []
    decreases |x|
  {
    if |x| > 0 {
      WordsOfSpaces(x[1..]);
    }
  }

  lemma {:induction false} WordsLeadingSpace(x: string, y: string)
    requires forall i :: 0 <= i < |x| ==> x[i] in Whitespace
    ensures Words(x + y) == Words(y)
    decreases |x|
  {
    if |x| > 0 {
      assert (x + y)[1..] == x[1..] + y;
      WordsLeadingSpace(x[1..], y);
    } else {
      assert x + y == y;
    }
  }

  lemma {:induction false} WordsTrailingSpace(x: string, y: string)
    requires forall i :: 0 <= i < |y| ==> y[i] in Whitespace
    ensures Words(x + y) == Words(x)
    decreases |x|
  {
    var s := x + y;
    if |x| == 0 {
      assert s == y;
      WordsOfSpaces(y);
    } else if x[0] in Whitespace {
      assert s[1..] == x[1..] + y;
      WordsTrailingSpace(x[1..], y);
    } else {
      WordPrefixExtend(x, y);
      var w := WordPrefix(x);
      assert s[|w|..] == x[|w|..] + y;
      WordsTrailingSpace(x[|w|..], y);
    }
  }

  /** Stripping whitespace does not change the words of a string. */
  lemma WordsOfStrip(s: string)
    ensures Words(Strip(s, Whitespace)) == Words(s)
  {
    WordsOfStripLeft(s);
    WordsOfStripRight(StripLeft(s, Whitespace));
  }

  lemma WordsOfStripLeft(s: string)
    ensures Words(StripLeft(s, Whitespace)) == Words(s)
  {
    var l := StripLeft(s, Whitespace);
    var front := s[..|s| - |l|];
    assert s == front + l;
    assert forall i :: 0 <= i < |front| ==> front[i] in Whitespace;
    WordsLeadingSpace(front, l);
  }

  lemma WordsOfStripRight(l: string)
    ensures Words(StripRight(l, Whitespace)) == Words(l)
  {
    var r := StripRight(l, Whitespace);
    var back := l[|r|..];
    assert l == r + back;
    assert forall i :: 0 <= i < |back| ==> back[i] in Whitespace;
    WordsTrailingSpace(r, back);
  }

  // ---------------------------------------------------------------------------
  // Line scans over command output
  // ---------------------------------------------------------------------------

  /** Whether some line of `text`, stripped of surrounding whitespace, is exactly `marker`. */
  predicate HasStrippedLine(text: string, marker: string)
  {
    exists i :: 0 <= i < |Split(text, '\n')| && Strip(Split(text, '\n')[i], Whitespace) == marker
  }

  /**
   * The scan the command wrappers run over captured output: walk the lines in
   * order, strip each, and stop at the first one equal to `marker`.
   */
  method ScanStrippedLines(text: string, marker: string) returns (found: bool)
    ensures found <==> HasStrippedLine(text, marker)
  {
    var lines := Split(text, '\n');
    found := false;
    var i := 0;
    while i < |lines|
      invariant 0 <= i <= |lines|
      invariant !found
      invariant forall j :: 0 <= j < i ==> Strip(lines[j], Whitespace) != marker
    {
      var line := Strip(lines[i], Whitespace);
      if line == marker {
        found := true;
        return;
      }
      i := i + 1;
    }
  }

  // ---------------------------------------------------------------------------
  // Small helpers
  // ---------------------------------------------------------------------------

  predicate StartsWith(s: string, prefix: string)
  {
    |prefix| <= |s| && s[..|prefix|] == prefix
  }

  /** Python's `needle in haystack` on two strings. */
  predicate IsSubstring(needle: string, haystack: string)
  {
    exists i :: 0 <= i <= |haystack| - |needle| && OccursAt(needle, haystack, i)
  }

  predicate OccursAt(needle: string, haystack: string, i: int)
    requires 0 <= i <= |haystack| - |needle|
  {
    haystack[i..i + |needle|] == needle
  }

  function DigitChar(d: nat): char
    requires d < 10
  {
    "0123456789"[d]
  }

  /** `'%d' % n` for a non-negative `n`. */
  function NatToString(n: nat): (r: string)
    ensures |r| > 0
  {
    if n < 10 then [DigitChar(n)] else NatToString(n / 10) + [DigitChar(n % 10)]
  }

  /** `'%d' % n` and `repr(n)` for any integer. */
  function IntToString(n: int): string
  {
    if n < 0 then "-" + NatToString(-n) else NatToString(n)
  }

  /** Octal digits of a non-negative `n`. */
  function OctDigits(n: nat): (r: string)
    ensures |r| > 0
  {
    if n < 8 then [DigitChar(n)] else OctDigits(n / 8) + [DigitChar(n % 8)]
  }

  /** Every character of `s` is one of `0` … `7`. */
  predicate IsOctal(s: string)
  {
    forall i :: 0 <= i < |s| ==> '0' <= s[i] <= '7'
  }

  /** Reference: the number a string of octal digits denotes, most significant first. */
  function OctValue(s: string): nat
    requires IsOctal(s)
  {
    if |s| == 0 then 0 else OctValue(s[..|s| - 1]) * 8 + (s[|s| - 1] as int - '0' as int)
  }

  lemma DigitCharOctal(d: nat)
    requires d < 8
    ensures '0' <= DigitChar(d) <= '7' && DigitChar(d) as int - '0' as int == d
  {
    if d == 0 {} else if d == 1 {} else if d == 2 {} else if d == 3 {}
    else if d == 4 {} else if d == 5 {} else if d == 6 {} else {}
  }

  /**
   * `OctDigits(n)` is written in octal digits only, has no leading zero unless
   * `n` is zero, and reads back in base 8 as `n`.
   */
  lemma {:induction false} OctDigitsRoundTrip(n: nat)
    ensures IsOctal(OctDigits(n))
    ensures OctValue(OctDigits(n)) == n
    ensures n > 0 ==> OctDigits(n)[0] != '0'
    decreases n
  {
    var r := OctDigits(n);
    if n < 8 {
      DigitCharOctal(n);
      assert r == [DigitChar(n)];
      assert r[..0] == [];
    } else {
      var head := OctDigits(n / 8);
      OctDigitsRoundTrip(n / 8);
      DigitCharOctal(n % 8);
      assert r == head + [DigitChar(n % 8)];
      assert r[..|r| - 1] == head;
      assert r[0] == head[0];
    }
  }
}
