/**
 * The sectioning of an ini text done by `edit_ini_section`: lines are grouped
 * under the header that precedes them (the lines before the first header form
 * an unnamed section), and the sections are written back under canonical
 * `[name]` headers.
 *
 * The grouping is stated for any header recogniser `header`; the editor uses
 * `HeaderName`, the model of the pattern `^\s*\[(.*)\]\s*$`.
 */
module EditorIni {
  import opened Results
  import opened Text

  /** A run of lines under a header; the lines before the first header have no name. */
  datatype Section = Section(name: Option<string>, lines: seq<string>)

  /** The text between a leading `[` and a trailing `]`, if `s` has that shape. */
  function Unbracket(s: string): (r: Option<string>)
    ensures r.Some? ==> s == "[" + r.value + "]"
    ensures r.None? ==> !(exists n :: s == "[" + n + "]")
  {
    if |s| >= 2 && s[0] == '[' && s[|s| - 1] == ']' then
      assert s == "[" + s[1..|s| - 1] + "]";
      Some(s[1..|s| - 1])
    else
      assert forall n :: s != "[" + n + "]" by {
        forall n ensures s != "[" + n + "]" {
          var b := "[" + n + "]";
          assert |b| >= 2 && b[0] == '[' && b[|b| - 1] == ']';
        }
      }
      None
  }

  /** The section name a line declares, per `^\s*\[(.*)\]\s*$` (Python 2 `\s` is `Whitespace`). */
  function HeaderName(line: string): (r: Option<string>)
    ensures r.Some? ==> |r.value| + 2 <= |line|
    ensures r.Some? ==> Strip(line, Whitespace) == "[" + r.value + "]"
    ensures r.None? ==> !(exists n :: Strip(line, Whitespace) == "[" + n + "]")
  {
    var s := Strip(line, Whitespace);
    assert |s| <= |line|;
    Unbracket(s)
  }

  /** The header line the editor writes for a section name. */
  function HeaderLine(name: string): (h: string)
    ensures |h| == |name| + 2 && h[0] == '[' && h[|h| - 1] == ']' && h[1..|h| - 1] == name
  {
    "[" + name + "]"
  }

  /** A recogniser that reads back every header the editor writes. */
  ghost predicate ReadsHeaders(header: string -> Option<string>)
  {
    forall n :: header(HeaderLine(n)) == Some(n)
  }

  lemma HeaderOfHeaderLine(name: string)
    ensures HeaderName(HeaderLine(name)) == Some(name)
  {
    var h := HeaderLine(name);
    StripUnchanged(h, Whitespace);
  }

  lemma HeaderNameReadsHeaders()
    ensures ReadsHeaders(HeaderName)
  {
    forall n ensures HeaderName(HeaderLine(n)) == Some(n) {
      HeaderOfHeaderLine(n);
    }
  }

  predicate NoHeaders(header: string -> Option<string>, lines: seq<string>)
  {
    forall i :: 0 <= i < |lines| ==> header(lines[i]).None?
  }

  /** Every header line is written exactly as the editor would write it. */
  predicate CanonicalHeaders(header: string -> Option<string>, lines: seq<string>)
  {
    forall i :: 0 <= i < |lines| && header(lines[i]).Some? ==> lines[i] == HeaderLine(header(lines[i]).value)
  }

  /** The sectioning loop of `edit_ini_section`, starting inside section `name`. */
  function GroupFrom(header: string -> Option<string>, name: Option<string>, lines: seq<string>): (ss: seq<Section>)
    ensures |ss| > 0 && ss[0].name == name
    ensures forall i :: 1 <= i < |ss| ==> ss[i].name.Some?
    ensures forall i :: 0 <= i < |ss| ==> NoHeaders(header, ss[i].lines)
    decreases |lines|
  {
    if |lines| == 0 then [Section(name, [])]
    else match header(lines[0])
      case Some(n) => [Section(name, [])] + GroupFrom(header, Some(n), lines[1..])
      case None =>
        var rest := GroupFrom(header, name, lines[1..]);
        [Section(name, [lines[0]] + rest[0].lines)] + rest[1..]
  }

  function HeaderLines(name: Option<string>): seq<string>
  {
    match name
    case None => []
    case Some(n) => [HeaderLine(n)]
  }

  /** The output loop of `edit_ini_section`: each named section under a canonical header. */
  function Render(ss: seq<Section>): seq<string>
  {
    if |ss| == 0 then [] else HeaderLines(ss[0].name) + ss[0].lines + Render(ss[1..])
  }

  /** Rendering the sections of a text with canonical headers gives the text's lines back. */
  lemma {:induction false} RenderGroup(header: string -> Option<string>, name: Option<string>, lines: seq<string>)
    requires CanonicalHeaders(header, lines)
    ensures Render(GroupFrom(header, name, lines)) == HeaderLines(name) + lines
    decreases |lines|
  {
    if |lines| > 0 {
      var tail := lines[1..];
      CanonicalTail(header, lines);
      match header(lines[0])
      case Some(n) =>
        RenderGroup(header, Some(n), tail);
        RenderHeaderStep(header, name, n, lines);
      case None =>
        RenderGroup(header, name, tail);
        RenderBodyStep(header, name, lines);
    }
  }

  lemma CanonicalTail(header: string -> Option<string>, lines: seq<string>)
    requires CanonicalHeaders(header, lines) && |lines| > 0
    ensures CanonicalHeaders(header, lines[1..])
    ensures header(lines[0]).Some? ==> lines[0] == HeaderLine(header(lines[0]).value)
  {
    forall i | 0 <= i < |lines[1..]| && header(lines[1..][i]).Some?
      ensures lines[1..][i] == HeaderLine(header(lines[1..][i]).value)
    {
      assert lines[1..][i] == lines[i + 1];
    }
  }

  /** A header line opens a new section and renders as itself. */
  lemma RenderHeaderStep(header: string -> Option<string>, name: Option<string>, n: string, lines: seq<string>)
    requires |lines| > 0 && header(lines[0]) == Some(n) && lines[0] == HeaderLine(n)
    requires Render(GroupFrom(header, Some(n), lines[1..])) == HeaderLines(Some(n)) + lines[1..]
    ensures Render(GroupFrom(header, name, lines)) == HeaderLines(name) + lines
  {
    var rest := GroupFrom(header, Some(n), lines[1..]);
    var h := HeaderLines(name);
    assert GroupFrom(header, name, lines) == [Section(name, [])] + rest;
    RenderCons(Section(name, []), rest);
    assert h + [] == h;
    assert HeaderLines(Some(n)) == [lines[0]];
    assert [lines[0]] + lines[1..] == lines;
  }

  /** A body line joins the section it is in and renders in place. */
  lemma RenderBodyStep(header: string -> Option<string>, name: Option<string>, lines: seq<string>)
    requires |lines| > 0 && header(lines[0]).None?
    requires Render(GroupFrom(header, name, lines[1..])) == HeaderLines(name) + lines[1..]
    ensures Render(GroupFrom(header, name, lines)) == HeaderLines(name) + lines
  {
    var rest := GroupFrom(header, name, lines[1..]);
    assert GroupFrom(header, name, lines) == [Section(name, [lines[0]] + rest[0].lines)] + rest[1..];
    assert rest == [rest[0]] + rest[1..];
    RenderMerge(rest[0], lines[0], rest[1..], lines[1..]);
    assert lines == [lines[0]] + lines[1..];
  }

  /** Putting one more body line in front of the first section of a rendering. */
  lemma RenderMerge(first: Section, line: string, rest: seq<Section>, after: seq<string>)
    requires Render([first] + rest) == HeaderLines(first.name) + after
    ensures Render([Section(first.name, [line] + first.lines)] + rest)
      == HeaderLines(first.name) + ([line] + after)
  {
    var h := HeaderLines(first.name);
    var more := Render(rest);
    RenderCons(Section(first.name, [line] + first.lines), rest);
    RenderCons(first, rest);
    ConcatAssoc(h, first.lines, more);
    PrefixCancel(h, first.lines + more, after);
    ConcatAssoc(h, [line] + first.lines, more);
    ConcatAssoc([line], first.lines, more);
  }

  lemma RenderCons(s: Section, rest: seq<Section>)
    ensures Render([s] + rest) == HeaderLines(s.name) + s.lines + Render(rest)
  {
    assert ([s] + rest)[1..] == rest;
  }

  lemma ConcatAssoc<T>(a: seq<T>, b: seq<T>, c: seq<T>)
    ensures a + b + c == a + (b + c)
  {
  }

  lemma PrefixCancel<T>(h: seq<T>, a: seq<T>, b: seq<T>)
    requires h + a == h + b
    ensures a == b
  {
    assert (h + a)[|h|..] == a;
    assert (h + b)[|h|..] == b;
  }

  /** Body lines without headers stay in the current section. */
  lemma {:induction false} GroupBody(header: string -> Option<string>, name: Option<string>, body: seq<string>, tail: seq<string>)
    requires NoHeaders(header, body)
    requires |tail| == 0 || header(tail[0]).Some?
    ensures GroupFrom(header, name, body + tail) == [Section(name, body)] + GroupFrom(header, name, tail)[1..]
    decreases |body|
  {
    if |body| == 0 {
      assert body + tail == tail;
    } else {
      assert (body + tail)[1..] == body[1..] + tail;
      assert NoHeaders(header, body[1..]) by {
        forall i | 0 <= i < |body[1..]| ensures header(body[1..][i]).None? {
          assert body[1..][i] == body[i + 1];
        }
      }
      GroupBody(header, name, body[1..], tail);
      assert [body[0]] + body[1..] == body;
    }
  }

  /** Sections whose bodies hold no header lines, all named after the first. */
  predicate WellFormed(header: string -> Option<string>, ss: seq<Section>)
  {
    && (forall i :: 1 <= i < |ss| ==> ss[i].name.Some?)
    && (forall i :: 0 <= i < |ss| ==> NoHeaders(header, ss[i].lines))
  }

  /** Sectioning a rendered section list gives the list back. */
  lemma {:induction false} GroupRender(header: string -> Option<string>, ss: seq<Section>)
    requires ReadsHeaders(header)
    requires |ss| > 0 && WellFormed(header, ss)
    ensures GroupFrom(header, ss[0].name, ss[0].lines + Render(ss[1..])) == ss
    decreases |ss|
  {
    var tail := Render(ss[1..]);
    if |ss| == 1 {
      GroupBody(header, ss[0].name, ss[0].lines, []);
      assert ss[0].lines + tail == ss[0].lines + [];
    } else {
      assert WellFormed(header, ss[1..]);
      GroupRender(header, ss[1..]);
      GroupRenderStep(header, ss);
    }
  }

  /** A rendered section followed by the rendering of the sections after it. */
  lemma GroupRenderStep(header: string -> Option<string>, ss: seq<Section>)
    requires ReadsHeaders(header)
    requires |ss| > 1 && WellFormed(header, ss)
    requires GroupFrom(header, ss[1..][0].name, ss[1..][0].lines + Render(ss[1..][1..])) == ss[1..]
    ensures GroupFrom(header, ss[0].name, ss[0].lines + Render(ss[1..])) == ss
  {
    var tail := Render(ss[1..]);
    var n := ss[1].name.value;
    assert tail == [HeaderLine(n)] + (ss[1].lines + Render(ss[2..]));
    assert header(HeaderLine(n)) == Some(n);
    GroupBody(header, ss[0].name, ss[0].lines, tail);
    assert tail[1..] == ss[1].lines + Render(ss[2..]);
    assert ss[1..][1..] == ss[2..];
    assert ss == [ss[0]] + ss[1..];
  }

  function SectionNames(ss: seq<Section>): (names: seq<Option<string>>)
    ensures |names| == |ss|
    ensures forall i :: 0 <= i < |ss| ==> names[i] == ss[i].name
  {
    if |ss| == 0 then [] else [ss[0].name] + SectionNames(ss[1..])
  }

  /** The first section (by position) whose name already appeared, scanning from `i`. */
  function FirstDuplicate(names: seq<Option<string>>, i: nat): (r: Option<nat>)
    requires i <= |names|
    requires forall j :: 0 <= j < i ==> names[j] !in names[..j]
    ensures r.Some? ==> r.value < |names| && names[r.value] in names[..r.value]
    ensures r.Some? ==> forall j :: 0 <= j < r.value ==> names[j] !in names[..j]
    ensures r.None? ==> forall j :: 0 <= j < |names| ==> names[j] !in names[..j]
    decreases |names| - i
  {
    if i == |names| then None
    else if names[i] in names[..i] then Some(i)
    else FirstDuplicate(names, i + 1)
  }

  /** Position of the section called `target`, `|names|` if there is none. */
  function FindSection(names: seq<Option<string>>, target: Option<string>): (k: nat)
    ensures k <= |names|
    ensures k < |names| ==> names[k] == target
    ensures k == |names| <==> target !in names
    ensures forall j :: 0 <= j < k ==> names[j] != target
  {
    if |names| == 0 then 0
    else if names[0] == target then 0
    else 1 + FindSection(names[1..], target)
  }

  /** How `'[%s]' % name` prints a section name; Python prints the absent name as `None`. */
  function Bracketed(name: Option<string>): string
  {
    "[" + (if name.Some? then name.value else "None") + "]"
  }

  /** The section list written back: only the target section's lines can differ. */
  function Reassemble(ss: seq<Section>, k: nat, edited: (bool, string)): (ss': seq<Section>)
    requires k < |ss|
    ensures |ss'| == |ss|
    ensures forall i :: 0 <= i < |ss| ==> ss'[i].name == ss[i].name
    ensures forall i :: 0 <= i < |ss| && i != k ==> ss'[i] == ss[i]
    ensures edited.0 ==> ss'[k].lines == Split(edited.1, '\n')
    ensures !edited.0 ==> ss' == ss
  {
    if edited.0 then ss[k := Section(ss[k].name, Split(edited.1, '\n'))] else ss
  }

  lemma {:induction false} RenderNoNewline(ss: seq<Section>)
    requires forall i, j :: 0 <= i < |ss| && 0 <= j < |ss[i].lines| ==> '\n' !in ss[i].lines[j]
    requires forall i :: 0 <= i < |ss| && ss[i].name.Some? ==> '\n' !in ss[i].name.value
    ensures NoSep(Render(ss), '\n')
    decreases |ss|
  {
    if |ss| > 0 {
      RenderNoNewline(ss[1..]);
      var h := HeaderLines(ss[0].name);
      assert NoSep(h, '\n');
      assert Render(ss) == h + ss[0].lines + Render(ss[1..]);
    }
  }

  lemma {:induction false} RenderMember(ss: seq<Section>, i: nat, j: nat)
    requires i < |ss| && j < |ss[i].lines|
    ensures ss[i].lines[j] in Render(ss)
    decreases i
  {
    if i == 0 {
      assert Render(ss)[|HeaderLines(ss[0].name)| + j] == ss[0].lines[j];
    } else {
      RenderMember(ss[1..], i - 1, j);
      assert Render(ss) == HeaderLines(ss[0].name) + ss[0].lines + Render(ss[1..]);
    }
  }

  lemma {:induction false} RenderHeaderMember(ss: seq<Section>, i: nat)
    requires i < |ss| && ss[i].name.Some?
    ensures HeaderLine(ss[i].name.value) in Render(ss)
    decreases i
  {
    if i == 0 {
      assert Render(ss)[0] == HeaderLine(ss[0].name.value);
    } else {
      RenderHeaderMember(ss[1..], i - 1);
      assert Render(ss) == HeaderLines(ss[0].name) + ss[0].lines + Render(ss[1..]);
    }
  }

  /** The sections of a text split on newlines hold no newline, in their lines or their names. */
  lemma SectionsNoNewline(header: string -> Option<string>, text: string)
    requires CanonicalHeaders(header, Split(text, '\n'))
    ensures var ss := GroupFrom(header, None, Split(text, '\n'));
      && (forall i, j :: 0 <= i < |ss| && 0 <= j < |ss[i].lines| ==> '\n' !in ss[i].lines[j])
      && (forall i :: 0 <= i < |ss| && ss[i].name.Some? ==> '\n' !in ss[i].name.value)
  {
    var lines := Split(text, '\n');
    var ss := GroupFrom(header, None, lines);
    RenderGroup(header, None, lines);
    forall i, j | 0 <= i < |ss| && 0 <= j < |ss[i].lines| ensures '\n' !in ss[i].lines[j] {
      RenderMember(ss, i, j);
    }
    forall i | 0 <= i < |ss| && ss[i].name.Some? ensures '\n' !in ss[i].name.value {
      RenderHeaderMember(ss, i);
      var h := HeaderLine(ss[i].name.value);
      assert h in lines;
      assert h[1..|h| - 1] == ss[i].name.value;
    }
  }

  /**
   * On a text whose headers are canonical, replacing one section's body by
   * header-free lines and writing the sections back changes only that
   * section: re-reading the output gives the same sections in the same order,
   * the others with the same lines.
   */
  lemma ReassembleLocal(header: string -> Option<string>, text: string, k: nat, edited: (bool, string))
    requires ReadsHeaders(header)
    requires CanonicalHeaders(header, Split(text, '\n'))
    requires k < |GroupFrom(header, None, Split(text, '\n'))|
    requires NoHeaders(header, Split(edited.1, '\n'))
    ensures var ss := GroupFrom(header, None, Split(text, '\n'));
      var out := Join(Render(Reassemble(ss, k, edited)), '\n');
      GroupFrom(header, None, Split(out, '\n')) == Reassemble(ss, k, edited)
  {
    var ss := GroupFrom(header, None, Split(text, '\n'));
    var ss' := Reassemble(ss, k, edited);
    ReassembleShape(header, text, k, edited);
    GroupRender(header, ss');
    RenderCons(ss'[0], ss'[1..]);
    assert [ss'[0]] + ss'[1..] == ss';
    assert ss'[0].name == None;
    assert Render(ss') == ss'[0].lines + Render(ss'[1..]) by {
      assert HeaderLines(ss'[0].name) == [];
      assert [] + ss'[0].lines == ss'[0].lines;
    }
    SplitJoin(Render(ss'), '\n');
  }

  /** What the sections written back look like: well formed, newline free, and not empty. */
  lemma ReassembleShape(header: string -> Option<string>, text: string, k: nat, edited: (bool, string))
    requires CanonicalHeaders(header, Split(text, '\n'))
    requires k < |GroupFrom(header, None, Split(text, '\n'))|
    requires NoHeaders(header, Split(edited.1, '\n'))
    ensures var ss' := Reassemble(GroupFrom(header, None, Split(text, '\n')), k, edited);
      && WellFormed(header, ss')
      && NoSep(Render(ss'), '\n')
      && |Render(ss')| > 0
  {
    var lines := Split(text, '\n');
    var ss := GroupFrom(header, None, lines);
    var ss' := Reassemble(ss, k, edited);
    assert WellFormed(header, ss') by {
      assert WellFormed(header, ss);
      forall i | 0 <= i < |ss'| ensures NoHeaders(header, ss'[i].lines) {
        if i != k || !edited.0 {
          assert ss'[i] == ss[i];
        }
      }
    }
    assert NoSep(Render(ss'), '\n') by {
      SectionsNoNewline(header, text);
      assert forall i, j :: 0 <= i < |ss'| && 0 <= j < |ss'[i].lines| ==> '\n' !in ss'[i].lines[j];
      assert forall i :: 0 <= i < |ss'| && ss'[i].name.Some? ==> '\n' !in ss'[i].name.value;
      RenderNoNewline(ss');
    }
    assert |Render(ss')| > 0 by {
      if edited.0 {
        RenderMember(ss', k, 0);
      } else {
        RenderGroup(header, None, lines);
      }
    }
  }
}
