/**
 * The `strip_text` helper: strip a whole text, strip each of its lines, and
 * end it with exactly one newline.
 */
module EditorStrip {
  import opened Results
  import opened Text
  import opened Values
  import opened EditorLines

  /**
   * `strip_text`: `None` gives `""`, a non-string aborts, and any other
   * non-empty string is stripped as a whole, every line is stripped, and a
   * single newline ends the result.
   */
  function StripText(v: Value): (r: Result<string>)
    ensures v.Null? || v == Str("") ==> r == Ok("")
    ensures !(v.Null? || v.Str?) <==> r == Fail("strip_text: string expected")
    ensures v.Str? && v.s != "" ==> r.Ok? && |r.value| > 0 && r.value[|r.value| - 1] == '\n'
    ensures v.Str? && v.s != "" ==> r.value == StripLinesOf(Strip(v.s, Whitespace)) + "\n"
  {
    match v
    case Null => Ok("")
    case Str(s) =>
      if s == "" then Ok("")
      else
        var stripped := Strip(s, Whitespace);
        StripTextShape(stripped);
        Ok(Join(StripLines(Whitespace, Split(stripped + "\n", '\n')), '\n'))
    case _ => Fail("strip_text: string expected")
  }

  /** Every line of `s` stripped, joined back. */
  function StripLinesOf(s: string): string
  {
    Join(StripLines(Whitespace, Split(s, '\n')), '\n')
  }

  /** The line loop of `strip_text` on `x + "\n"`: the stripped lines of `x`, then one newline. */
  lemma StripTextShape(x: string)
    ensures Join(StripLines(Whitespace, Split(x + "\n", '\n')), '\n') == StripLinesOf(x) + "\n"
  {
    var parts := StripLines(Whitespace, Split(x, '\n'));
    SplitSnocSep(x);
    assert StripLines(Whitespace, Split(x + "\n", '\n')) == parts + [""] by {
      StripSnoc(Split(x, '\n'));
    }
    JoinSnoc(parts, "", '\n');
  }

  lemma StripSnoc(lines: seq<string>)
    ensures StripLines(Whitespace, lines + [""]) == StripLines(Whitespace, lines) + [""]
  {
    StripUnchanged("", Whitespace);
  }

  lemma {:induction false} SplitSnocSep(s: string)
    ensures Split(s + "\n", '\n') == Split(s, '\n') + [""]
  {
    if |s| == 0 {
      assert "" + "\n" == "\n";
      assert Split("\n", '\n') == [""] + Split("", '\n');
    } else {
      SplitSnocSep(s[1..]);
      assert (s + "\n")[1..] == s[1..] + "\n";
    }
  }

  /** Stripping an already stripped text changes nothing. */
  lemma StripTextIdempotent(s: string)
    ensures StripText(Str(s)).Ok?
    ensures StripText(Str(StripText(Str(s)).value)) == StripText(Str(s))
  {
    if s != "" {
      var x := Strip(s, Whitespace);
      var y := StripLinesOf(x);
      assert StripText(Str(s)) == Ok(y + "\n");
      assert Strip(y + "\n", Whitespace) == y by {
        StrippedEnds(s);
        StripClean(y);
      }
      StripLinesOfIdempotent(x);
      StripTextFixed(y);
    }
  }

  /** A text whose lines are stripped and whose ends are clean comes back from `strip_text` as it is. */
  lemma StripTextFixed(y: string)
    requires Strip(y + "\n", Whitespace) == y
    requires StripLinesOf(y) == y
    ensures StripText(Str(y + "\n")) == Ok(y + "\n")
  {
    assert y + "\n" != "";
  }

  /** The stripped lines of a stripped text have no whitespace at either end. */
  lemma StrippedEnds(s: string)
    ensures var y := StripLinesOf(Strip(s, Whitespace));
      |y| == 0 || (y[0] !in Whitespace && y[|y| - 1] !in Whitespace)
  {
    StripShape(s, Whitespace);
    CleanEnds(Strip(s, Whitespace));
  }

  /** Stripping the lines of a text whose lines are stripped changes nothing. */
  lemma StripLinesOfIdempotent(x: string)
    ensures StripLinesOf(StripLinesOf(x)) == StripLinesOf(x)
  {
    var lines := Split(x, '\n');
    var parts := StripLines(Whitespace, lines);
    forall i | 0 <= i < |parts| ensures '\n' !in parts[i] {
      StripKeepsOut(lines[i], Whitespace, '\n');
    }
    SplitJoin(parts, '\n');
    StripIdempotentLines(Whitespace, lines);
  }

  /** A stripped text's stripped lines start and end with the text's own end characters. */
  lemma CleanEnds(x: string)
    requires |x| == 0 || (x[0] !in Whitespace && x[|x| - 1] !in Whitespace)
    ensures var y := StripLinesOf(x); |y| == 0 || (y[0] !in Whitespace && y[|y| - 1] !in Whitespace)
  {
    if |x| > 0 {
      StrippedLinesFirst(x);
      StrippedLinesLast(x);
    } else {
      StrippedLinesEmpty(x);
    }
  }

  lemma StrippedLinesFirst(x: string)
    requires |x| > 0 && x[0] !in Whitespace
    ensures var y := StripLinesOf(x); |y| > 0 && y[0] == x[0]
  {
    StrippedFirst(x);
    JoinFirst(StripLines(Whitespace, Split(x, '\n')), '\n');
  }

  lemma StrippedLinesLast(x: string)
    requires |x| > 0 && x[|x| - 1] !in Whitespace
    ensures var y := StripLinesOf(x); |y| > 0 && y[|y| - 1] == x[|x| - 1]
  {
    var lines := Split(x, '\n');
    var parts := StripLines(Whitespace, lines);
    StrippedLast(x);
    var tail := parts[|lines| - 1];
    JoinLast(parts, tail, '\n');
    assert StripLinesOf(x) == Join(parts, '\n');
  }

  lemma StrippedLinesEmpty(x: string)
    requires x == ""
    ensures StripLinesOf(x) == ""
  {
    assert Split(x, '\n') == [""];
    StripUnchanged("", Whitespace);
    assert StripLines(Whitespace, [""]) == [""];
  }

  lemma StrippedFirst(x: string)
    requires |x| > 0 && x[0] !in Whitespace
    ensures var parts := StripLines(Whitespace, Split(x, '\n'));
      |parts[0]| > 0 && parts[0][0] == x[0]
  {
    FirstLineStart(x);
    StripKeepsFirst(Split(x, '\n')[0], Whitespace);
  }

  lemma StrippedLast(x: string)
    requires |x| > 0 && x[|x| - 1] !in Whitespace
    ensures var lines := Split(x, '\n');
      var t := StripLines(Whitespace, lines)[|lines| - 1];
      |t| > 0 && t[|t| - 1] == x[|x| - 1]
  {
    var lines := Split(x, '\n');
    var last := lines[|lines| - 1];
    LastLineEnd(x, lines);
    StripLinesLast(lines, last);
  }

  lemma StripLinesLast(lines: seq<string>, last: string)
    requires |lines| > 0 && last == lines[|lines| - 1]
    requires |last| > 0 && last[|last| - 1] !in Whitespace
    ensures var t := StripLines(Whitespace, lines)[|lines| - 1]; |t| > 0 && t[|t| - 1] == last[|last| - 1]
  {
    StripKeepsLast(last, Whitespace);
  }

  lemma {:induction false} FirstLineStart(x: string)
    requires |x| > 0 && x[0] != '\n'
    ensures |Split(x, '\n')[0]| > 0 && Split(x, '\n')[0][0] == x[0]
  {
  }

  lemma LastLineEnd(x: string, ls: seq<string>)
    requires |x| > 0 && x[|x| - 1] != '\n'
    requires ls == Split(x, '\n')
    ensures |ls[|ls| - 1]| > 0 && ls[|ls| - 1][|ls[|ls| - 1]| - 1] == x[|x| - 1]
  {
    var last := ls[|ls| - 1];
    SplitLastEmpty(x, '\n');
    JoinSplit(x, '\n');
    JoinLast(ls, last, '\n');
  }

  /** Stripping a string whose first character is kept keeps that character first. */
  lemma StripKeepsFirst(s: string, cs: set<char>)
    requires |s| > 0 && s[0] !in cs
    ensures |Strip(s, cs)| > 0 && Strip(s, cs)[0] == s[0]
  {
    assert StripLeft(s, cs) == s;
  }

  /** Stripping a string whose last character is kept keeps that character last. */
  lemma StripKeepsLast(s: string, cs: set<char>)
    requires |s| > 0 && s[|s| - 1] !in cs
    ensures |Strip(s, cs)| > 0 && Strip(s, cs)[|Strip(s, cs)| - 1] == s[|s| - 1]
  {
    var l := StripLeft(s, cs);
    assert |l| > 0 && l[|l| - 1] == s[|s| - 1] by {
      assert |s| - 1 >= |s| - |l|;
      assert l == s[|s| - |l|..];
    }
    assert StripRight(l, cs) == l;
  }

  lemma JoinFirst(parts: seq<string>, sep: char)
    requires |parts| > 0 && |parts[0]| > 0
    ensures |Join(parts, sep)| > 0 && Join(parts, sep)[0] == parts[0][0]
  {
    if |parts| > 1 {
      JoinCons(parts[0], parts[1..], sep);
      assert parts == [parts[0]] + parts[1..];
    }
  }

  lemma JoinLast(parts: seq<string>, tail: string, sep: char)
    requires |parts| > 0 && tail == parts[|parts| - 1] && |tail| > 0
    ensures |Join(parts, sep)| > 0 && Join(parts, sep)[|Join(parts, sep)| - 1] == tail[|tail| - 1]
  {
    if |parts| > 1 {
      var init := parts[..|parts| - 1];
      JoinSnoc(init, tail, sep);
      assert parts == init + [tail];
    }
  }

  /** Stripping `y + "\n"` gives `y` back when `y` has no whitespace at either end. */
  lemma StripClean(y: string)
    requires |y| == 0 || (y[0] !in Whitespace && y[|y| - 1] !in Whitespace)
    ensures StripRight(y + "\n", Whitespace) == y
    ensures Strip(y + "\n", Whitespace) == y
  {
    var t := y + "\n";
    assert t[|t| - 1] == '\n' && t[..|t| - 1] == y;
    assert StripRight(t, Whitespace) == StripRight(y, Whitespace);
    StripUnchanged(y, Whitespace);
    if |y| == 0 {
      assert t == "\n" && t[1..] == "";
      assert StripLeft(t, Whitespace) == StripLeft("", Whitespace) == "";
    } else {
      assert t[0] == y[0];
      assert StripLeft(t, Whitespace) == t;
    }
  }
}
