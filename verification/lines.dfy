/**
 * The line editors of fabrix (`insert_line`, `prepend_line`, `append_line`,
 * `delete_line`, `replace_line`, `substitute_line`, `strip_line`) as functions
 * from a text to a text. Each splits the text on '\n', works on the lines and
 * joins them back with '\n'.
 *
 * Regular expressions are not modelled: an `Engine` supplies what Python's
 * `re` would answer (match at the start of a line, search anywhere, substitute).
 */
module EditorLines {
  import opened Results
  import opened Text

  /** A compiled pattern: the pattern text and the `re` flags. */
  datatype Regex = Regex(pattern: string, flags: int)

  /**
   * The regular-expression oracle: `matchStart(re, s)` is `re.match(s)` being
   * truthy, `search(re, s)` is `re.search(s)`, `sub(re, repl, s)` is `re.sub(repl, s)`.
   */
  datatype Engine = Engine(
    matchStart: (Regex, string) -> bool,
    search: (Regex, string) -> bool,
    sub: (Regex, string, string) -> string)

  datatype Side = Before | After

  // ---------------------------------------------------------------------------
  // Line editors
  // ---------------------------------------------------------------------------

  /** Number of lines the anchor matches. */
  function AnchorCount(eng: Engine, re: Regex, lines: seq<string>): (n: nat)
    ensures n <= |lines|
    ensures n == 0 <==> forall i :: 0 <= i < |lines| ==> !eng.matchStart(re, lines[i])
  {
    if |lines| == 0 then 0
    else
      var rest := AnchorCount(eng, re, lines[1..]);
      assert forall i :: 1 <= i < |lines| ==> lines[i] == lines[1..][i - 1];
      (if eng.matchStart(re, lines[0]) then 1 else 0) + rest
  }

  lemma {:induction false} AnchorCountAppend(eng: Engine, re: Regex, a: seq<string>, b: seq<string>)
    ensures AnchorCount(eng, re, a + b) == AnchorCount(eng, re, a) + AnchorCount(eng, re, b)
  {
    if |a| > 0 {
      assert (a + b)[1..] == a[1..] + b;
      AnchorCountAppend(eng, re, a[1..], b);
    } else {
      assert a + b == b;
    }
  }

  /** Index of the first line the anchor matches, `|lines|` if none. */
  function FirstMatch(eng: Engine, re: Regex, lines: seq<string>): (k: nat)
    ensures k <= |lines|
    ensures k < |lines| ==> eng.matchStart(re, lines[k])
    ensures forall j :: 0 <= j < k ==> !eng.matchStart(re, lines[j])
    ensures AnchorCount(eng, re, lines) > 0 ==> k < |lines|
  {
    if |lines| == 0 then 0
    else if eng.matchStart(re, lines[0]) then 0
    else 1 + FirstMatch(eng, re, lines[1..])
  }

  /** The insertion loop of `insert_line`: the new line goes next to every anchor line. */
  function InsertAround(eng: Engine, re: Regex, line: string, side: Side, lines: seq<string>): (out: seq<string>)
    ensures |out| == |lines| + AnchorCount(eng, re, lines)
  {
    if |lines| == 0 then []
    else
      var here :=
        if !eng.matchStart(re, lines[0]) then [lines[0]]
        else if side == Before then [line, lines[0]]
        else [lines[0], line];
      here + InsertAround(eng, re, line, side, lines[1..])
  }

  lemma {:induction false} InsertAroundNone(eng: Engine, re: Regex, line: string, side: Side, lines: seq<string>)
    requires AnchorCount(eng, re, lines) == 0
    ensures InsertAround(eng, re, line, side, lines) == lines
  {
    if |lines| > 0 {
      InsertAroundNone(eng, re, line, side, lines[1..]);
    }
  }

  /** With a unique anchor the line lands right before or right after it. */
  lemma {:induction false} InsertAroundUnique(eng: Engine, re: Regex, line: string, side: Side, lines: seq<string>)
    requires AnchorCount(eng, re, lines) == 1
    ensures InsertAround(eng, re, line, side, lines) == Splice(lines, FirstMatch(eng, re, lines), line, side)
  {
    if eng.matchStart(re, lines[0]) {
      assert AnchorCount(eng, re, lines[1..]) == 0;
      InsertAroundHead(eng, re, line, side, lines);
    } else {
      var tail := lines[1..];
      assert AnchorCount(eng, re, tail) == 1;
      InsertAroundUnique(eng, re, line, side, tail);
      InsertAroundStep(eng, re, line, side, lines);
    }
  }

  /** A unique anchor on the first line: the new line goes right next to it. */
  lemma InsertAroundHead(eng: Engine, re: Regex, line: string, side: Side, lines: seq<string>)
    requires |lines| > 0 && eng.matchStart(re, lines[0]) && AnchorCount(eng, re, lines[1..]) == 0
    ensures InsertAround(eng, re, line, side, lines) == Splice(lines, 0, line, side)
  {
    var tail := lines[1..];
    var here := if side == Before then [line, lines[0]] else [lines[0], line];
    assert InsertAround(eng, re, line, side, lines) == here + tail by {
      InsertAroundNone(eng, re, line, side, tail);
    }
    assert Splice(lines, 0, line, side) == here + tail by {
      if side == Before {
        assert lines == [lines[0]] + tail;
      } else {
        assert lines[..1] == [lines[0]];
      }
    }
  }

  /** A unique anchor past the first line: the first line stays in front of the rest's insertion. */
  lemma InsertAroundStep(eng: Engine, re: Regex, line: string, side: Side, lines: seq<string>)
    requires AnchorCount(eng, re, lines) == 1 && |lines| > 0 && !eng.matchStart(re, lines[0])
    requires InsertAround(eng, re, line, side, lines[1..]) == Splice(lines[1..], FirstMatch(eng, re, lines[1..]), line, side)
    ensures InsertAround(eng, re, line, side, lines) == Splice(lines, FirstMatch(eng, re, lines), line, side)
  {
    var tail := lines[1..];
    var j := FirstMatch(eng, re, tail);
    assert FirstMatch(eng, re, lines) == j + 1;
    assert InsertAround(eng, re, line, side, lines) == [lines[0]] + InsertAround(eng, re, line, side, tail);
    assert lines == [lines[0]] + tail;
    ConsSplice(lines[0], tail, j, line, side);
  }

  /** Putting `x` in front of a spliced sequence splices one position further in. */
  lemma ConsSplice(x: string, tail: seq<string>, j: nat, line: string, side: Side)
    requires j < |tail|
    ensures [x] + Splice(tail, j, line, side) == Splice([x] + tail, j + 1, line, side)
  {
    var k := if side == Before then j else j + 1;
    assert ([x] + tail)[..k + 1] == [x] + tail[..k];
    assert ([x] + tail)[k + 1..] == tail[k..];
  }

  /** `lines` with `line` put right before (`Before`) or right after (`After`) line `k`. */
  function Splice(lines: seq<string>, k: nat, line: string, side: Side): seq<string>
    requires k < |lines|
  {
    if side == Before then lines[..k] + [line] + lines[k..] else lines[..k + 1] + [line] + lines[k + 1..]
  }

  function AnchorNotFound(re: Regex): string
  {
    "insert_line: anchor pattern '" + re.pattern + "' not found"
  }

  function AnchorAmbiguous(re: Regex, n: int): string
  {
    "insert_line: anchor pattern '" + re.pattern + "' found " + IntToString(n) + " times, must be only one"
  }

  /** The `insert_line` editor applied to `text`. */
  function InsertText(eng: Engine, line: string, side: Side, anchor: Regex, text: string): (r: Result<string>)
    ensures var n := AnchorCount(eng, anchor, Split(text, '\n'));
      && (n == 0 <==> r == Fail(AnchorNotFound(anchor)))
      && (n > 1 <==> r == Fail(AnchorAmbiguous(anchor, n)))
      && (r.Ok? <==> n == 1)
    ensures var lines := Split(text, '\n');
      AnchorCount(eng, anchor, lines) == 1 && line in lines ==> r == Ok(text)
    ensures var lines := Split(text, '\n');
      AnchorCount(eng, anchor, lines) == 1 && line !in lines ==>
        r == Ok(Join(Splice(lines, FirstMatch(eng, anchor, lines), line, side), '\n'))
  {
    var lines := Split(text, '\n');
    var n := AnchorCount(eng, anchor, lines);
    if n == 0 then
      AnchorMessagesDiffer(anchor, n);
      Fail(AnchorNotFound(anchor))
    else if n > 1 then
      AnchorMessagesDiffer(anchor, n);
      Fail(AnchorAmbiguous(anchor, n))
    else if line in lines then
      // joining the unchanged lines gives the text back
      JoinSplit(text, '\n');
      Ok(text)
    else
      InsertAroundUnique(eng, anchor, line, side, lines);
      Ok(Join(InsertAround(eng, anchor, line, side, lines), '\n'))
  }

  lemma AnchorMessagesDiffer(re: Regex, n: int)
    ensures AnchorNotFound(re) != AnchorAmbiguous(re, n)
  {
    var a, b := AnchorNotFound(re), AnchorAmbiguous(re, n);
    var i := |"insert_line: anchor pattern '" + re.pattern + "' "|;
    assert a[i] == 'n' && b[i] == 'f';
  }

  /** The `prepend_line` editor: put the line (and optionally a blank line) in front, unless present. */
  function PrependText(line: string, blankAfter: bool, text: string): (r: string)
    ensures line in Split(text, '\n') ==> r == text
    ensures line !in Split(text, '\n') ==> r == line + "\n" + (if blankAfter then "\n" else "") + text
  {
    var lines := Split(text, '\n');
    if line in lines then text
    else
      var out := [line] + (if blankAfter then [""] else []) + lines;
      JoinSplit(text, '\n');
      if blankAfter then
        JoinCons("", lines, '\n');
        JoinCons(line, [""] + lines, '\n');
        assert out == [line] + ([""] + lines);
        Join(out, '\n')
      else
        JoinCons(line, lines, '\n');
        Join(out, '\n')
  }

  /** The `append_line` editor: put the line (and optionally a blank line before it) at the end, unless present. */
  function AppendText(line: string, blankBefore: bool, text: string): (r: string)
    ensures line in Split(text, '\n') ==> r == text
    ensures line !in Split(text, '\n') && (text == "" || text[|text| - 1] == '\n') ==>
      r == text + (if blankBefore then "\n" else "") + line + "\n"
    ensures line !in Split(text, '\n') && !(text == "" || text[|text| - 1] == '\n') ==>
      r == text + "\n" + (if blankBefore then "\n" else "") + line + "\n"
  {
    var lines := Split(text, '\n');
    if line in lines then text
    else
      var n := |lines|;
      var out :=
        if lines[n - 1] == "" then
          if blankBefore then lines + [line] else lines[..n - 1] + [line]
        else
          (if blankBefore then lines + [""] else lines) + [line];
      SplitLastEmpty(text, '\n');
      if lines[n - 1] == "" then
        AppendAfterNewline(line, blankBefore, text);
        Join(out + [""], '\n')
      else
        AppendAfterPartial(line, blankBefore, text);
        Join(out + [""], '\n')
  }

  /** `AppendText` when the text is empty or ends with a newline (its last line is empty). */
  lemma AppendAfterNewline(line: string, blankBefore: bool, text: string)
    requires line !in Split(text, '\n')
    requires text == "" || text[|text| - 1] == '\n'
    ensures var lines := Split(text, '\n');
      var n := |lines|;
      var out := if blankBefore then lines + [line] else lines[..n - 1] + [line];
      Join(out + [""], '\n') == text + (if blankBefore then "\n" else "") + line + "\n"
  {
    var lines := Split(text, '\n');
    var n := |lines|;
    JoinSplit(text, '\n');
    SplitLastEmpty(text, '\n');
    if blankBefore {
      JoinSnoc(lines, line, '\n');
      JoinSnoc(lines + [line], "", '\n');
    } else if n == 1 {
      assert lines == [""];
      assert lines[..n - 1] + [line] + [""] == [line, ""];
      JoinSnoc([line], "", '\n');
    } else {
      var init := lines[..n - 1];
      assert lines == init + [""];
      JoinSnoc(init, "", '\n');
      assert text == Join(init, '\n') + "\n";
      JoinSnoc(init, line, '\n');
      JoinSnoc(init + [line], "", '\n');
    }
  }

  /** `AppendText` when the text does not end with a newline. */
  lemma AppendAfterPartial(line: string, blankBefore: bool, text: string)
    ensures var lines := Split(text, '\n');
      var out := (if blankBefore then lines + [""] else lines) + [line];
      Join(out + [""], '\n') == text + "\n" + (if blankBefore then "\n" else "") + line + "\n"
  {
    var lines := Split(text, '\n');
    var tail := if blankBefore then ["", line, ""] else [line, ""];
    var out := (if blankBefore then lines + [""] else lines) + [line];
    assert out + [""] == lines + tail;
    assert Join(lines + tail, '\n') == text + "\n" + Join(tail, '\n') by {
      JoinSplit(text, '\n');
      JoinAppend(lines, tail, '\n');
    }
    var pre := if blankBefore then "\n" else "";
    assert Join(tail, '\n') == pre + line + "\n" by {
      JoinNewTail(line, blankBefore);
    }
    assert text + "\n" + (pre + line + "\n") == text + "\n" + pre + line + "\n";
  }

  /** The lines `append_line` adds, joined: an optional blank line, the line, and the final newline. */
  lemma JoinNewTail(line: string, blankBefore: bool)
    ensures Join(if blankBefore then ["", line, ""] else [line, ""], '\n')
      == (if blankBefore then "\n" else "") + line + "\n"
  {
    assert Join([line, ""], '\n') == line + "\n";
    if blankBefore {
      assert Join(["", line, ""], '\n') == "" + "\n" + Join([line, ""], '\n');
    }
  }

  /**
   * The `delete_line` editor on lines: keep exactly the lines the pattern does
   * not match, in their order. A single line is dropped iff it matches, and
   * `DeleteLinesConcat` extends this to any split of the text.
   */
  function DeleteLines(eng: Engine, re: Regex, lines: seq<string>): (out: seq<string>)
    ensures |out| <= |lines|
    ensures forall i :: 0 <= i < |out| ==> out[i] in lines && !eng.matchStart(re, out[i])
    ensures forall i :: 0 <= i < |lines| && !eng.matchStart(re, lines[i]) ==> lines[i] in out
    ensures |lines| == 1 ==> (out == [] <==> eng.matchStart(re, lines[0])) && (out != [] ==> out == lines)
  {
    if |lines| == 0 then []
    else
      var rest := DeleteLines(eng, re, lines[1..]);
      assert forall i :: 1 <= i < |lines| ==> lines[i] == lines[1..][i - 1];
      if eng.matchStart(re, lines[0]) then rest else [lines[0]] + rest
  }

  /** Deleting from two runs of lines deletes from each run and keeps them in order. */
  lemma {:induction false} DeleteLinesConcat(eng: Engine, re: Regex, a: seq<string>, b: seq<string>)
    ensures DeleteLines(eng, re, a + b) == DeleteLines(eng, re, a) + DeleteLines(eng, re, b)
    decreases |a|
  {
    if |a| > 0 {
      assert (a + b)[0] == a[0];
      assert (a + b)[1..] == a[1..] + b;
      DeleteLinesConcat(eng, re, a[1..], b);
    } else {
      assert a + b == b;
    }
  }

  /** Lines that no pattern hit survive a deletion untouched. */
  lemma {:induction false} DeleteLinesKeepsClean(eng: Engine, re: Regex, lines: seq<string>)
    requires forall i :: 0 <= i < |lines| ==> !eng.matchStart(re, lines[i])
    ensures DeleteLines(eng, re, lines) == lines
  {
    if |lines| > 0 {
      DeleteLinesKeepsClean(eng, re, lines[1..]);
    }
  }

  /**
   * The `replace_line` (anchored: match at the start) and `substitute_line`
   * (unanchored: search) editors on lines: every hit line is rewritten by `sub`,
   * every other line is kept.
   */
  function SubLines(eng: Engine, re: Regex, repl: string, anchored: bool, lines: seq<string>): (out: seq<string>)
    ensures |out| == |lines|
    ensures forall i :: 0 <= i < |lines| ==>
      out[i] == if (if anchored then eng.matchStart(re, lines[i]) else eng.search(re, lines[i]))
                then eng.sub(re, repl, lines[i]) else lines[i]
  {
    if |lines| == 0 then []
    else
      var hit := if anchored then eng.matchStart(re, lines[0]) else eng.search(re, lines[0]);
      [if hit then eng.sub(re, repl, lines[0]) else lines[0]] + SubLines(eng, re, repl, anchored, lines[1..])
  }

  /** The `strip_line` editor on lines: `str.strip(chars)` on every line, whitespace when `chars` is `None`. */
  function StripLines(cs: set<char>, lines: seq<string>): (out: seq<string>)
    ensures |out| == |lines|
    ensures forall i :: 0 <= i < |lines| ==> out[i] == Strip(lines[i], cs)
  {
    seq(|lines|, i requires 0 <= i < |lines| => Strip(lines[i], cs))
  }

  function StripSet(chars: Option<string>): set<char>
  {
    match chars
    case None => Whitespace
    case Some(s) => set i | 0 <= i < |s| :: s[i]
  }

  /** The `delete_line` editor applied to a text. */
  function DeleteText(eng: Engine, re: Regex, text: string): string
  {
    Join(DeleteLines(eng, re, Split(text, '\n')), '\n')
  }

  /** The `replace_line` editor applied to a text. */
  function ReplaceText(eng: Engine, re: Regex, repl: string, text: string): string
  {
    Join(SubLines(eng, re, repl, true, Split(text, '\n')), '\n')
  }

  /** The `substitute_line` editor applied to a text. */
  function SubstituteText(eng: Engine, re: Regex, repl: string, text: string): string
  {
    Join(SubLines(eng, re, repl, false, Split(text, '\n')), '\n')
  }

  /** The `strip_line` editor applied to a text. */
  function StripLineText(chars: Option<string>, text: string): string
  {
    Join(StripLines(StripSet(chars), Split(text, '\n')), '\n')
  }

  // ---------------------------------------------------------------------------
  // Idempotence of the line editors
  // ---------------------------------------------------------------------------

  predicate NoNewline(s: string)
  {
    '\n' !in s
  }

  lemma SplitLinesNoNewline(text: string)
    ensures NoSep(Split(text, '\n'), '\n')
  {
  }

  lemma DeleteIdempotent(eng: Engine, re: Regex, text: string)
    ensures DeleteText(eng, re, DeleteText(eng, re, text)) == DeleteText(eng, re, text)
  {
    var lines := Split(text, '\n');
    var out := DeleteLines(eng, re, lines);
    SplitLinesNoNewline(text);
    if |out| == 0 {
      assert Join(out, '\n') == "";
      assert Split("", '\n') == [""];
      var again := DeleteLines(eng, re, [""]);
      assert again == [] || again == [""];
    } else {
      SplitJoin(out, '\n');
      DeleteLinesKeepsClean(eng, re, out);
    }
  }

  lemma StripIdempotentLines(cs: set<char>, lines: seq<string>)
    ensures StripLines(cs, StripLines(cs, lines)) == StripLines(cs, lines)
  {
    forall i | 0 <= i < |lines| {
      StripIdempotent(lines[i], cs);
    }
  }

  lemma StripLineIdempotent(chars: Option<string>, text: string)
    ensures StripLineText(chars, StripLineText(chars, text)) == StripLineText(chars, text)
  {
    var cs := StripSet(chars);
    var lines := Split(text, '\n');
    var out := StripLines(cs, lines);
    forall i | 0 <= i < |out| ensures '\n' !in out[i] {
      StripKeepsOut(lines[i], cs, '\n');
    }
    SplitJoin(out, '\n');
    StripIdempotentLines(cs, lines);
  }

  /** `strip_line("")` strips no character, so it gives the text back. */
  lemma StripLineNoChars(text: string)
    ensures StripLineText(Some(""), text) == text
  {
    var lines := Split(text, '\n');
    assert StripSet(Some("")) == {};
    forall i | 0 <= i < |lines| ensures StripLines({}, lines)[i] == lines[i] {
      StripNothing(lines[i]);
    }
    assert StripLines({}, lines) == lines;
    JoinSplit(text, '\n');
  }

  lemma PrependIdempotent(line: string, blankAfter: bool, text: string)
    requires NoNewline(line)
    ensures var once := PrependText(line, blankAfter, text);
      PrependText(line, blankAfter, once) == once
  {
    var once := PrependText(line, blankAfter, text);
    if line !in Split(text, '\n') {
      assert once == line + "\n" + ((if blankAfter then "\n" else "") + text);
      SplitAtSep(line, (if blankAfter then "\n" else "") + text, '\n');
      assert line in Split(once, '\n');
    }
  }

  lemma AppendIdempotent(line: string, blankBefore: bool, text: string)
    requires NoNewline(line)
    ensures var once := AppendText(line, blankBefore, text);
      AppendText(line, blankBefore, once) == once
  {
    if line !in Split(text, '\n') {
      AppendedLineIn(line, blankBefore, text);
    }
  }

  /** After an append, the line is one of the lines of the text. */
  lemma AppendedLineIn(line: string, blankBefore: bool, text: string)
    requires NoNewline(line) && line !in Split(text, '\n')
    ensures line in Split(AppendText(line, blankBefore, text), '\n')
  {
    var once := AppendText(line, blankBefore, text);
    var lines := Split(text, '\n');
    var n := |lines|;
    SplitLastEmpty(text, '\n');
    SplitLinesNoNewline(text);
    var keep := if lines[n - 1] == "" && !blankBefore then lines[..n - 1] else lines;
    var tail := if lines[n - 1] != "" && blankBefore then ["", line, ""] else [line, ""];
    var out := keep + tail[..|tail| - 1];
    assert out + [""] == keep + tail;
    if lines[n - 1] == "" {
      assert out == if blankBefore then lines + [line] else lines[..n - 1] + [line];
      AppendAfterNewline(line, blankBefore, text);
    } else {
      assert out == (if blankBefore then lines + [""] else lines) + [line];
      AppendAfterPartial(line, blankBefore, text);
    }
    assert once == Join(keep + tail, '\n');
    assert NoSep(keep, '\n');
    JoinedLineIn(line, once, keep, tail);
  }

  /** Lines without separators come back from a split of their join. */
  lemma JoinedLineIn(line: string, joined: string, keep: seq<string>, tail: seq<string>)
    requires NoNewline(line) && NoSep(keep, '\n')
    requires tail == [line, ""] || tail == ["", line, ""]
    requires joined == Join(keep + tail, '\n')
    ensures line in Split(joined, '\n')
  {
    assert NoSep(keep + tail, '\n');
    SplitJoin(keep + tail, '\n');
    assert (keep + tail)[|keep + tail| - 2] == line;
  }

  /** Splicing a line the anchor does not match keeps the anchor count and the separator-free shape. */
  lemma InsertSplice(eng: Engine, anchor: Regex, line: string, lines: seq<string>, j: nat)
    requires j <= |lines| && NoNewline(line) && !eng.matchStart(anchor, line)
    requires NoSep(lines, '\n')
    ensures var out := lines[..j] + [line] + lines[j..];
      && AnchorCount(eng, anchor, out) == AnchorCount(eng, anchor, lines)
      && line in out
      && NoSep(out, '\n')
  {
    var out := lines[..j] + [line] + lines[j..];
    assert lines == lines[..j] + lines[j..];
    AnchorCountAppend(eng, anchor, lines[..j], [line]);
    AnchorCountAppend(eng, anchor, lines[..j] + [line], lines[j..]);
    AnchorCountAppend(eng, anchor, lines[..j], lines[j..]);
    assert AnchorCount(eng, anchor, [line]) == 0;
    assert out[j] == line;
  }

  lemma InsertIdempotent(eng: Engine, line: string, side: Side, anchor: Regex, text: string)
    requires NoNewline(line) && !eng.matchStart(anchor, line)
    requires InsertText(eng, line, side, anchor, text).Ok?
    ensures var once := InsertText(eng, line, side, anchor, text).value;
      InsertText(eng, line, side, anchor, once) == Ok(once)
  {
    var lines := Split(text, '\n');
    if line !in lines {
      var k := FirstMatch(eng, anchor, lines);
      var j := if side == Before then k else k + 1;
      var out := lines[..j] + [line] + lines[j..];
      SplitLinesNoNewline(text);
      InsertSplice(eng, anchor, line, lines, j);
      SplitJoin(out, '\n');
    }
  }

}
