/**
 * The text editors of fabrix. An editor turns a text into a new text (or
 * aborts); `ApplyEditors` runs a list of them twice, refuses a list whose
 * second pass changes the text again, and reports whether the text changed.
 * The line editors themselves are in `EditorLines`, the sectioning of ini
 * texts in `EditorIni`.
 */
module Editor {
  import opened Results
  import opened Text
  import opened StringOrder
  import opened IoUtil
  import opened EditorLines
  import opened EditorIni

  /** The editors `insert_line` … `edit_ini_section` return, plus any user-supplied text function. */
  datatype Editor =
    | InsertLine(line: string, side: Side, anchor: Regex)
    | PrependLine(line: string, blankAfter: bool)
    | AppendLine(line: string, blankBefore: bool)
    | DeleteLine(pattern: Regex)
    | ReplaceLine(pattern: Regex, repl: string)
    | SubstituteLine(pattern: Regex, repl: string)
    | StripLine(chars: Option<string>)
    | IniSection(section: Option<string>, editors: seq<Editor>)
    | Custom(run: string -> Result<string>)

  // ---------------------------------------------------------------------------
  // Building editors
  // ---------------------------------------------------------------------------

  /** `_full_line`: anchor a pattern at both ends unless it already is. */
  function FullLine(pattern: string): (r: Result<string>)
    ensures pattern == "" <==> r == Raise("IndexError")
    ensures r.Ok? ==> |r.value| >= 2 && r.value[0] == '^' && r.value[|r.value| - 1] == '$'
    ensures r.Ok? ==> var start := if pattern[0] == '^' then 0 else 1;
      start + |pattern| <= |r.value| <= start + |pattern| + 1 && r.value[start..start + |pattern|] == pattern
  {
    if pattern == "" then Raise("IndexError")
    else
      var p := if pattern[0] != '^' then "^" + pattern else pattern;
      var q := if p[|p| - 1] != '$' then p + "$" else p;
      assert q[..|p|] == p;
      Ok(q)
  }

  /** Anchoring twice changes nothing more. */
  lemma FullLineIdempotent(pattern: string)
    requires pattern != ""
    ensures FullLine(FullLine(pattern).value) == FullLine(pattern)
  {
  }

  /** A pattern anchored at both ends is kept as is. */
  lemma FullLineKeepsAnchored(pattern: string)
    requires |pattern| >= 2 && pattern[0] == '^' && pattern[|pattern| - 1] == '$'
    ensures FullLine(pattern) == Ok(pattern)
  {
  }

  /** Keyword names of a call, in order of appearance. */
  function Names(kwargs: seq<(string, string)>): seq<string>
  {
    if |kwargs| == 0 then [] else [kwargs[0].0] + Names(kwargs[1..])
  }

  lemma NamesMembers(kwargs: seq<(string, string)>)
    ensures |Names(kwargs)| == |kwargs|
    ensures forall i :: 0 <= i < |kwargs| ==> Names(kwargs)[i] == kwargs[i].0
  {
  }

  predicate DistinctNames(kwargs: seq<(string, string)>)
  {
    forall i, j :: 0 <= i < j < |kwargs| ==> kwargs[i].0 != kwargs[j].0
  }

  /** The value passed for keyword `name`. */
  function Kwarg(kwargs: seq<(string, string)>, name: string): (v: string)
    requires name in Names(kwargs)
    ensures exists i :: 0 <= i < |kwargs| && kwargs[i] == (name, v)
  {
    if kwargs[0].0 == name then kwargs[0].1 else Kwarg(kwargs[1..], name)
  }

  /**
   * `insert_line(line, **kwargs)`: exactly one keyword, `before` or `after`,
   * naming the anchor. Keywords are examined in sorted order, so the first of
   * them decides between "unknown" and the anchor, and a second one aborts.
   */
  function InsertLineOf(line: string, kwargs: seq<(string, string)>): (r: Result<Editor>)
    requires DistinctNames(kwargs)
    ensures |kwargs| == 0 ==> r == Fail("insert_line: must be defined 'before' or 'after' argument")
    ensures |kwargs| > 0 ==> |SortUnique(Names(kwargs))| > 0 && SortUnique(Names(kwargs))[0] in Names(kwargs)
    ensures |kwargs| > 0 ==> var names := SortUnique(Names(kwargs));
      && (names[0] !in {"before", "after"} ==> r == Fail("insert_line: unknown insert_type '" + names[0] + "'"))
      && (names[0] in {"before", "after"} && Kwarg(kwargs, names[0]) == "" ==> r == Raise("IndexError"))
      && (names[0] in {"before", "after"} && Kwarg(kwargs, names[0]) != "" && |names| > 1 ==>
            r == Fail("insert_line: already defined insert_type '" + names[0] + "', unexpected '" + names[1] + "'"))
    ensures r.Ok? <==> |kwargs| == 1 && kwargs[0].0 in {"before", "after"} && kwargs[0].1 != ""
    ensures r.Ok? ==>
      && r.value.InsertLine? && r.value.line == line
      && r.value.side == (if kwargs[0].0 == "before" then Before else After)
      && r.value.anchor == Regex(FullLine(kwargs[0].1).value, 0)
  {
    if |kwargs| == 0 then Fail("insert_line: must be defined 'before' or 'after' argument")
    else
      NamesMembers(kwargs);
      InsertTypeOf(line, kwargs, SortUnique(Names(kwargs)))
  }

  /** The keyword decision of `insert_line`, given the sorted keyword names. */
  function InsertTypeOf(line: string, kwargs: seq<(string, string)>, names: seq<string>): (r: Result<Editor>)
    requires DistinctNames(kwargs) && |kwargs| > 0
    requires |Names(kwargs)| == |kwargs|
    requires forall i :: 0 <= i < |kwargs| ==> Names(kwargs)[i] == kwargs[i].0
    requires StrictlySorted(names)
    requires forall y :: y in names <==> y in Names(kwargs)
    ensures r.Ok? <==> |kwargs| == 1 && kwargs[0].0 in {"before", "after"} && kwargs[0].1 != ""
    ensures r.Ok? ==>
      && r.value.InsertLine? && r.value.line == line
      && r.value.side == (if kwargs[0].0 == "before" then Before else After)
      && r.value.anchor == Regex(FullLine(kwargs[0].1).value, 0)
  {
    assert kwargs[0].0 in names;
    var first := names[0];
    assert first in Names(kwargs);
    if first != "before" && first != "after" then
      Fail("insert_line: unknown insert_type '" + first + "'")
    else
      var anchor :- FullLine(Kwarg(kwargs, first));
      if |names| > 1 then
        LessIrreflexive(names[0]);
        assert names[0] in Names(kwargs) && names[1] in Names(kwargs) && names[0] != names[1];
        Fail("insert_line: already defined insert_type '" + first + "', unexpected '" + names[1] + "'")
      else
        SingleName(kwargs, names);
        Ok(InsertLine(line, if first == "before" then Before else After, Regex(anchor, 0)))
  }

  lemma SingleName(kwargs: seq<(string, string)>, names: seq<string>)
    requires DistinctNames(kwargs)
    requires |Names(kwargs)| == |kwargs|
    requires forall i :: 0 <= i < |kwargs| ==> Names(kwargs)[i] == kwargs[i].0
    requires forall x :: x in names <==> x in Names(kwargs)
    requires |names| == 1
    ensures |kwargs| == 1 && kwargs[0].0 == names[0]
  {
    assert names[0] in Names(kwargs);
    forall j | 0 <= j < |kwargs| ensures kwargs[j].0 == names[0] {
      assert Names(kwargs)[j] == kwargs[j].0;
      assert kwargs[j].0 in names;
    }
  }

  /** Both `before` and `after` given: `after` sorts first, so `before` is the unexpected one. */
  lemma InsertLineBothSides(line: string, a: string, b: string)
    requires b != ""
    ensures InsertLineOf(line, [("before", a), ("after", b)])
      == Fail("insert_line: already defined insert_type 'after', unexpected 'before'")
  {
    var kwargs := [("before", a), ("after", b)];
    NamesMembers(kwargs);
    var names := SortUnique(Names(kwargs));
    assert Less("after", "before") by {
      assert "after"[0] == 'a' && "before"[0] == 'b';
    }
    assert names == ["after", "before"] by {
      assert StrictlySorted(["after", "before"]);
      StrictlySortedUnique(names, ["after", "before"]);
    }
    assert Kwarg(kwargs, "after") == b;
    AlreadyDefinedMessage();
  }

  lemma AlreadyDefinedMessage()
    ensures "insert_line: already defined insert_type '" + "after" + "', unexpected '" + "before" + "'"
      == "insert_line: already defined insert_type 'after', unexpected 'before'"
  {
  }

  /** `delete_line(pattern)`: delete every line the full-line pattern matches. */
  function DeleteLineOf(pattern: string): (r: Result<Editor>)
    ensures r.Ok? <==> pattern != ""
    ensures r.Ok? ==> r == Ok(DeleteLine(Regex(FullLine(pattern).value, 0)))
  {
    var p :- FullLine(pattern);
    Ok(DeleteLine(Regex(p, 0)))
  }

  /** `replace_line(pattern, repl, flags)`: rewrite every whole line the full-line pattern matches. */
  function ReplaceLineOf(pattern: string, repl: string, flags: int): (r: Result<Editor>)
    ensures r.Ok? <==> pattern != ""
    ensures r.Ok? ==> r == Ok(ReplaceLine(Regex(FullLine(pattern).value, flags), repl))
  {
    var p :- FullLine(pattern);
    Ok(ReplaceLine(Regex(p, flags), repl))
  }

  /**
   * `edit_ini_section(name, *editors)`: `name` must look like `[section]` and
   * the editors then apply to that section; `None` selects the lines before the
   * first header.
   */
  function IniSectionOf(name: Option<string>, editors: seq<Editor>): (r: Result<Editor>)
    ensures name == Some("") ==> r == Raise("IndexError")
    ensures name.Some? && name.value != "" && (name.value[0] != '[' || name.value[|name.value| - 1] != ']') ==>
      r == Fail("edit_ini_section: section name must be in form [section_name]")
    ensures name.None? ==> r == Ok(IniSection(None, editors))
    ensures r.Ok? && name.Some? ==>
      r.value.IniSection? && r.value.editors == editors && r.value.section.Some?
      && name.value == "[" + r.value.section.value + "]"
  {
    match name
    case None => Ok(IniSection(None, editors))
    case Some(n) =>
      if n == "" then Raise("IndexError")
      else if n[0] != '[' || n[|n| - 1] != ']' then
        Fail("edit_ini_section: section name must be in form [section_name]")
      else
        assert n == "[" + n[1..|n| - 1] + "]";
        Ok(IniSection(Some(n[1..|n| - 1]), editors))
  }


  // ---------------------------------------------------------------------------
  // Applying editors
  // ---------------------------------------------------------------------------

  function Size(e: Editor): (n: nat)
    ensures n >= 1
  {
    match e
    case IniSection(_, es) => 1 + SizeAll(es)
    case _ => 1
  }

  function SizeAll(es: seq<Editor>): nat
  {
    if |es| == 0 then 0 else Size(es[0]) + SizeAll(es[1..])
  }

  /** One editor applied to a text. */
  function Apply(eng: Engine, e: Editor, text: string): Result<string>
    decreases Size(e), 0
  {
    match e
    case InsertLine(line, side, anchor) => InsertText(eng, line, side, anchor, text)
    case PrependLine(line, blank) => Ok(PrependText(line, blank, text))
    case AppendLine(line, blank) => Ok(AppendText(line, blank, text))
    case DeleteLine(re) => Ok(DeleteText(eng, re, text))
    case ReplaceLine(re, repl) => Ok(ReplaceText(eng, re, repl, text))
    case SubstituteLine(re, repl) => Ok(SubstituteText(eng, re, repl, text))
    case StripLine(chars) => Ok(StripLineText(chars, text))
    case IniSection(name, es) => IniEdit(eng, name, es, text)
    case Custom(f) => f(text)
  }

  /** The editors applied one after another. */
  function RunPass(eng: Engine, es: seq<Editor>, text: string): Result<string>
    decreases SizeAll(es), 1
  {
    if |es| == 0 then Ok(text)
    else
      var t :- Apply(eng, es[0], text);
      RunPass(eng, es[1..], t)
  }

  /**
   * `_apply_editors`: `(changed, new text)`. The list must be non-empty, and a
   * second pass over the result must leave it unchanged.
   */
  function ApplyEditors(eng: Engine, text: string, es: seq<Editor>): (r: Result<(bool, string)>)
    decreases SizeAll(es), 2
  {
    if |es| == 0 then Fail("editors can't be empty")
    else
      var first :- RunPass(eng, es, text);
      var second :- RunPass(eng, es, first);
      if first != second then Fail("editors is not idempotent")
      else Ok((second != text, second))
  }

  /**
   * The outcome of `_apply_editors`: it aborts on an empty list, its text is
   * the first pass's result, that text is a fixed point of a further pass, and
   * it reports a change exactly when the text differs from the input.
   */
  lemma ApplyEditorsOutcome(eng: Engine, text: string, es: seq<Editor>)
    ensures |es| == 0 ==> ApplyEditors(eng, text, es) == Fail("editors can't be empty")
    ensures ApplyEditors(eng, text, es).Ok? ==>
      var (changed, result) := ApplyEditors(eng, text, es).value;
      && RunPass(eng, es, text) == Ok(result)
      && RunPass(eng, es, result) == Ok(result)
      && (changed <==> result != text)
    ensures (&& |es| > 0 && RunPass(eng, es, text).Ok? && RunPass(eng, es, RunPass(eng, es, text).value).Ok?
             && RunPass(eng, es, RunPass(eng, es, text).value) != RunPass(eng, es, text)) ==>
      ApplyEditors(eng, text, es) == Fail("editors is not idempotent")
  {
  }

  /** Applying the same editors to their own result finds nothing left to change. */
  lemma ApplyEditorsStable(eng: Engine, text: string, es: seq<Editor>)
    requires ApplyEditors(eng, text, es).Ok?
    ensures var result := ApplyEditors(eng, text, es).value.1;
      ApplyEditors(eng, result, es) == Ok((false, result))
  {
    ApplyEditorsOutcome(eng, text, es);
  }

  /** A single editor whose second application is a no-op never trips the idempotence check. */
  lemma ApplyEditorsSingle(eng: Engine, text: string, e: Editor)
    requires Apply(eng, e, text).Ok?
    requires Apply(eng, e, Apply(eng, e, text).value) == Apply(eng, e, text)
    ensures ApplyEditors(eng, text, [e]) ==
      Ok((Apply(eng, e, text).value != text, Apply(eng, e, text).value))
  {
    assert [e][1..] == [];
    assert RunPass(eng, [e], text) == Apply(eng, e, text);
    assert RunPass(eng, [e], Apply(eng, e, text).value) == Apply(eng, e, text);
  }

  /** The line editors the idempotence check accepts on their own, whatever the text. */
  predicate SelfStable(eng: Engine, e: Editor, text: string)
  {
    match e
    case PrependLine(line, _) => NoNewline(line)
    case AppendLine(line, _) => NoNewline(line)
    case DeleteLine(_) => true
    case StripLine(_) => true
    case InsertLine(line, side, anchor) =>
      NoNewline(line) && !eng.matchStart(anchor, line) && InsertText(eng, line, side, anchor, text).Ok?
    case _ => false
  }

  /**
   * Run alone, `prepend_line`, `append_line`, `delete_line`, `strip_line` and a
   * successful `insert_line` whose line is not itself an anchor pass the
   * idempotence check of `_apply_editors`.
   */
  lemma SingleLineEditor(eng: Engine, e: Editor, text: string)
    requires SelfStable(eng, e, text)
    ensures Apply(eng, e, text).Ok?
    ensures ApplyEditors(eng, text, [e]) == Ok((Apply(eng, e, text).value != text, Apply(eng, e, text).value))
  {
    match e {
      case PrependLine(line, blank) => PrependIdempotent(line, blank, text);
      case AppendLine(line, blank) => AppendIdempotent(line, blank, text);
      case DeleteLine(re) => DeleteIdempotent(eng, re, text);
      case StripLine(chars) => StripLineIdempotent(chars, text);
      case InsertLine(line, side, anchor) => InsertIdempotent(eng, line, side, anchor, text);
    }
    ApplyEditorsSingle(eng, text, e);
  }

  // ---------------------------------------------------------------------------
  // edit_ini_section
  // ---------------------------------------------------------------------------

  /** The sections of a text, as the `edit_ini_section` loop reads them. */
  function Sections(text: string): (ss: seq<Section>)
    ensures |ss| > 0 && ss[0].name.None?
  {
    GroupFrom(HeaderName, None, Split(text, '\n'))
  }

  /**
   * The `edit_ini_section` editor: split the text into sections, refuse a
   * repeated header and a missing target, run the editors over the target
   * section's text, and write the sections back under canonical headers.
   */
  function IniEdit(eng: Engine, target: Option<string>, es: seq<Editor>, text: string): (r: Result<string>)
    decreases SizeAll(es), 3
  {
    var ss := Sections(text);
    var names := SectionNames(ss);
    match FirstDuplicate(names, 0)
    case Some(i) => Fail("edit_ini_section: bad ini file, section '" + Bracketed(names[i]) + "' duplicated")
    case None =>
      var k := FindSection(names, target);
      if k == |ss| then Fail("edit_ini_section: section '" + Bracketed(target) + "' not found")
      else
        var edited :- ApplyEditors(eng, Join(ss[k].lines, '\n'), es);
        Ok(Join(Render(Reassemble(ss, k, edited)), '\n'))
  }

  /** The outcomes of `edit_ini_section`, in the order it checks them. */
  lemma IniEditOutcome(eng: Engine, target: Option<string>, es: seq<Editor>, text: string)
    ensures var ss := Sections(text);
      var names := SectionNames(ss);
      var dup := FirstDuplicate(names, 0);
      && (dup.Some? ==>
            IniEdit(eng, target, es, text)
              == Fail("edit_ini_section: bad ini file, section '" + Bracketed(names[dup.value]) + "' duplicated"))
      && (dup.None? && target !in names ==>
            IniEdit(eng, target, es, text) == Fail("edit_ini_section: section '" + Bracketed(target) + "' not found"))
      && (target.None? ==> target in names)
      && (dup.None? && target in names ==>
            var k := FindSection(names, target);
            match ApplyEditors(eng, Join(ss[k].lines, '\n'), es)
            case Err(e) => IniEdit(eng, target, es, text) == Err(e)
            case Ok(edited) => IniEdit(eng, target, es, text) == Ok(Join(Render(Reassemble(ss, k, edited)), '\n')))
  {
    assert SectionNames(Sections(text))[0] == None;
    IniEditRefused(eng, target, es, text);
    IniEditFound(eng, target, es, text);
  }

  lemma IniEditRefused(eng: Engine, target: Option<string>, es: seq<Editor>, text: string)
    ensures var names := SectionNames(Sections(text));
      var dup := FirstDuplicate(names, 0);
      && (dup.Some? ==>
            IniEdit(eng, target, es, text)
              == Fail("edit_ini_section: bad ini file, section '" + Bracketed(names[dup.value]) + "' duplicated"))
      && (dup.None? && target !in names ==>
            IniEdit(eng, target, es, text) == Fail("edit_ini_section: section '" + Bracketed(target) + "' not found"))
  {
  }

  lemma IniEditFound(eng: Engine, target: Option<string>, es: seq<Editor>, text: string)
    ensures var ss := Sections(text);
      var names := SectionNames(ss);
      FirstDuplicate(names, 0).None? && target in names ==>
        var k := FindSection(names, target);
        match ApplyEditors(eng, Join(ss[k].lines, '\n'), es)
        case Err(e) => IniEdit(eng, target, es, text) == Err(e)
        case Ok(edited) => IniEdit(eng, target, es, text) == Ok(Join(Render(Reassemble(ss, k, edited)), '\n'))
  {
    var ss := Sections(text);
    var names := SectionNames(ss);
    if FirstDuplicate(names, 0).None? && target in names {
      var k := FindSection(names, target);
      assert k < |ss|;
      var applied := ApplyEditors(eng, Join(ss[k].lines, '\n'), es);
      if applied.Err? {
        assert IniEdit(eng, target, es, text) == Err(applied.error);
      } else {
        assert IniEdit(eng, target, es, text) == Ok(Join(Render(Reassemble(ss, k, applied.value)), '\n'));
      }
    }
  }

  /**
   * On a text whose headers are canonical, an edit that introduces no header
   * line changes only the target section: re-reading the result gives the same
   * sections in the same order, the others with the same lines.
   */
  lemma IniEditLocal(eng: Engine, target: Option<string>, es: seq<Editor>, text: string)
    requires CanonicalHeaders(HeaderName, Split(text, '\n'))
    requires IniEdit(eng, target, es, text).Ok?
    requires var ss := Sections(text);
      var k := FindSection(SectionNames(ss), target);
      k < |ss| && ApplyEditors(eng, Join(ss[k].lines, '\n'), es).Ok? &&
      NoHeaders(HeaderName, Split(ApplyEditors(eng, Join(ss[k].lines, '\n'), es).value.1, '\n'))
    ensures var ss := Sections(text);
      var ss2 := Sections(IniEdit(eng, target, es, text).value);
      && |ss2| == |ss|
      && (forall i :: 0 <= i < |ss| ==> ss2[i].name == ss[i].name)
      && (forall i :: 0 <= i < |ss| && ss[i].name != target ==> ss2[i] == ss[i])
  {
    var ss := Sections(text);
    var k := FindSection(SectionNames(ss), target);
    var edited := ApplyEditors(eng, Join(ss[k].lines, '\n'), es).value;
    IniEditOutcome(eng, target, es, text);
    HeaderNameReadsHeaders();
    ReassembleLocal(HeaderName, text, k, edited);
  }

  // ---------------------------------------------------------------------------
  // Texts and files
  // ---------------------------------------------------------------------------

  /** `edit_text`: the edited text. */
  function EditText(eng: Engine, text: string, es: seq<Editor>): (r: Result<string>)
    ensures r.Ok? <==> ApplyEditors(eng, text, es).Ok?
    ensures r.Ok? ==> RunPass(eng, es, text) == Ok(r.value) && RunPass(eng, es, r.value) == Ok(r.value)
  {
    ApplyEditorsOutcome(eng, text, es);
    var edited :- ApplyEditors(eng, text, es);
    Ok(edited.1)
  }

  /**
   * `edit_local_file`: read the file (aborting if it cannot be read), edit it,
   * and replace it atomically only when the text changed.
   */
  function EditLocalFile(eng: Engine, fs: FileSystem, p: string, es: seq<Editor>, hex: string,
                         creator: Owner, createMode: int): (r: Result<(bool, FileSystem)>)
    ensures !IsFile(fs, p) ==> r == Fail(OpenErrorText(fs, p))
    ensures r.Ok? ==> IsFile(fs, p) && ApplyEditors(eng, Stat(fs, p).entry.content, es).Ok?
    ensures r.Ok? && !r.value.0 ==> r.value.1 == fs
    ensures r.Ok? && r.value.0 ==> var text := ApplyEditors(eng, Stat(fs, p).entry.content, es).value.1;
      text != Stat(fs, p).entry.content && AtomicWriteLocal(fs, p, text, hex, creator, createMode) == Ok(r.value.1)
  {
    var current :- ReadLocalFile(fs, p, true);
    var edited :- ApplyEditors(eng, current.value, es);
    ApplyEditorsOutcome(eng, current.value, es);
    if edited.0 then
      var fs' :- AtomicWriteLocal(fs, p, edited.1, hex, creator, createMode);
      Ok((true, fs'))
    else Ok((false, fs))
  }

  /** `edit_file`: the remote counterpart of `EditLocalFile`. */
  function EditFile(eng: Engine, fs: FileSystem, p: string, es: seq<Editor>, hex: string, host: string,
                    uploaded: bool, creator: Owner, createMode: int): (r: Result<(bool, FileSystem)>)
    ensures !IsFile(fs, p) ==> r == Fail("downloading file " + p + " from host " + host + " failed")
    ensures r.Ok? ==> IsFile(fs, p) && ApplyEditors(eng, Stat(fs, p).entry.content, es).Ok?
    ensures r.Ok? && !r.value.0 ==> r.value.1 == fs
    ensures r.Ok? && r.value.0 ==> var text := ApplyEditors(eng, Stat(fs, p).entry.content, es).value.1;
      text != Stat(fs, p).entry.content
      && AtomicWriteRemote(fs, p, text, hex, host, uploaded, creator, createMode) == Ok(r.value.1)
  {
    var current :- ReadFile(fs, p, host, true);
    var edited :- ApplyEditors(eng, current.value, es);
    ApplyEditorsOutcome(eng, current.value, es);
    if edited.0 then
      var fs' :- AtomicWriteRemote(fs, p, edited.1, hex, host, uploaded, creator, createMode);
      Ok((true, fs'))
    else Ok((false, fs))
  }

  /** Editing a local file a second time with the same editors changes nothing. */
  lemma EditLocalFileTwice(eng: Engine, fs: FileSystem, p: string, es: seq<Editor>, hex1: string, hex2: string,
                           creator: Owner, createMode: int)
    requires EditLocalFile(eng, fs, p, es, hex1, creator, createMode).Ok?
    ensures var fs' := EditLocalFile(eng, fs, p, es, hex1, creator, createMode).value.1;
      EditLocalFile(eng, fs', p, es, hex2, creator, createMode) == Ok((false, fs'))
  {
    var content := Stat(fs, p).entry.content;
    ApplyEditorsStable(eng, content, es);
    var r := EditLocalFile(eng, fs, p, es, hex1, creator, createMode);
    var fs' := r.value.1;
    if r.value.0 {
      var text := ApplyEditors(eng, content, es).value.1;
      assert Stat(fs', p) == Found(fs'[p]);
    }
  }

}
