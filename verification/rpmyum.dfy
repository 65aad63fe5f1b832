/**
 * The `yum` wrappers of fabrix: the package arguments (strings of names,
 * or any nesting of iterables of them) are flattened into one sorted,
 * duplicate-free list, the command is built from it, and the captured output
 * is scanned for the line saying nothing changed.
 *
 * Python iterables are `List` values (and `Dict` values, which iterate their
 * keys); the command runner is a parameter.
 */
module RpmYum {
  import opened Results
  import opened Text
  import opened StringOrder
  import opened Values
  import IoUtil

  // ---------------------------------------------------------------------------
  // _parse_packages
  // ---------------------------------------------------------------------------

  function Size(v: Value): (n: nat)
    ensures n >= 1
  {
    match v
    case List(items) => 1 + SizeAll(items)
    case Dict(pairs) => 1 + |pairs|
    case _ => 1
  }

  function SizeAll(vs: seq<Value>): nat
  {
    if |vs| == 0 then 0 else Size(vs[0]) + SizeAll(vs[1..])
  }

  lemma SizeFirst(vs: seq<Value>)
    requires |vs| > 0
    ensures SizeAll(vs) == Size(vs[0]) + SizeAll(vs[1..])
    ensures SizeAll(vs[1..]) < SizeAll(vs)
    ensures vs[0].List? ==> SizeAll(vs[0].items) < SizeAll(vs)
    ensures vs[0].Dict? ==> |vs[0].pairs| < SizeAll(vs)
  {
  }

  /** What iterating a dictionary yields: its keys. */
  function KeyValues(pairs: seq<(string, Value)>): (vs: seq<Value>)
    ensures SizeAll(vs) == |pairs|
    ensures forall i :: 0 <= i < |vs| ==> vs[i].Str?
  {
    if |pairs| == 0 then [] else [Str(pairs[0].0)] + KeyValues(pairs[1..])
  }

  /** The names one string argument adds: `line.split()` of each non-blank stripped line. */
  function LineTokens(lines: seq<string>): seq<string>
  {
    if |lines| == 0 then []
    else
      var line := Strip(lines[0], Whitespace);
      (if line == "" then [] else Words(line)) + LineTokens(lines[1..])
  }

  function UnexpectedObject(caller: string, v: Value): string
  {
    caller + ": unexpected object '" + Repr(v) + "' in list of packages"
  }

  function EmptyList(caller: string): string
  {
    caller + ": unexpected empty list of packages"
  }

  /** What one argument that is not a list adds: a string its words, a dictionary its keys'. */
  function Head(caller: string, v: Value): (r: Result<seq<string>>)
    requires !v.List?
    decreases Size(v), 0
  {
    match v
    case Str(s) => Ok(LineTokens(Split(s, '\n')))
    case Dict(pairs) => ParsePackages(caller, KeyValues(pairs), true)
    case _ => Fail(UnexpectedObject(caller, v))
  }

  /** The loop over the arguments: the names they add, in argument order. */
  function Collect(caller: string, args: seq<Value>): (r: Result<seq<string>>)
    decreases SizeAll(args), 1
  {
    if |args| == 0 then Ok([])
    else
      SizeFirst(args);
      var first :- if args[0].List? then ParsePackages(caller, args[0].items, true) else Head(caller, args[0]);
      var rest :- Collect(caller, args[1..]);
      Ok(first + rest)
  }

  /**
   * `_parse_packages`: the names of all arguments, sorted and without
   * duplicates; nested iterables may be empty, the top level only when
   * `allowEmpty`. `caller` is the wrapper that called it.
   */
  function ParsePackages(caller: string, args: seq<Value>, allowEmpty: bool): (r: Result<seq<string>>)
    ensures r.Ok? ==> StrictlySorted(r.value)
    ensures r.Ok? && !allowEmpty ==> |r.value| > 0
    decreases SizeAll(args), 2
  {
    var names :- Collect(caller, args);
    var result := SortUnique(names);
    if |result| == 0 && !allowEmpty then Fail(EmptyList(caller)) else Ok(result)
  }

  // ---------------------------------------------------------------------------
  // Reference definitions
  // ---------------------------------------------------------------------------

  function HeadRefused(v: Value): Option<Value>
  {
    if v.Str? || v.Dict? || v.List? then None else Some(v)
  }

  function HeadWords(v: Value): seq<string>
  {
    match v
    case Str(s) => Words(s)
    case Dict(pairs) => KeyWords(pairs)
    case _ => []
  }

  /** `s.split()` of every dictionary key. */
  function KeyWords(pairs: seq<(string, Value)>): seq<string>
  {
    if |pairs| == 0 then [] else Words(pairs[0].0) + KeyWords(pairs[1..])
  }

  /** Reference: the whitespace-separated words of every string reachable from the arguments. */
  function LeafWords(vs: seq<Value>): seq<string>
    decreases SizeAll(vs)
  {
    if |vs| == 0 then []
    else
      SizeFirst(vs);
      (if vs[0].List? then LeafWords(vs[0].items) else HeadWords(vs[0])) + LeafWords(vs[1..])
  }

  /** Reference: the first argument, depth first, that is neither a string nor iterable. */
  function FirstRefused(vs: seq<Value>): Option<Value>
    decreases SizeAll(vs)
  {
    if |vs| == 0 then None
    else
      SizeFirst(vs);
      var here := if vs[0].List? then FirstRefused(vs[0].items) else HeadRefused(vs[0]);
      if here.Some? then here else FirstRefused(vs[1..])
  }

  // ---------------------------------------------------------------------------
  // Laws
  // ---------------------------------------------------------------------------

  /** Joined lines: the tokens of the non-blank stripped lines are the words of the text. */
  lemma {:induction false} LineTokensJoin(lines: seq<string>)
    requires |lines| > 0
    ensures LineTokens(lines) == Words(Join(lines, '\n'))
    decreases |lines|
  {
    var line := lines[0];
    LineTokensCons(lines);
    if |lines| == 1 {
      assert LineTokens(lines[1..]) == [];
      assert Words(line) + [] == Words(line);
    } else {
      LineTokensJoin(lines[1..]);
      JoinCons(line, lines[1..], '\n');
      assert [line] + lines[1..] == lines;
      WordsAtSpace(line, '\n', Join(lines[1..], '\n'));
    }
  }

  /** The first line adds the words of the line itself: stripping does not change them. */
  lemma LineTokensCons(lines: seq<string>)
    requires |lines| > 0
    ensures LineTokens(lines) == Words(lines[0]) + LineTokens(lines[1..])
  {
    var line := lines[0];
    WordsOfStrip(line);
    if Strip(line, Whitespace) == "" {
      assert Words(Strip(line, Whitespace)) == [];
    }
  }

  /** A string argument adds exactly `s.split()`. */
  lemma TextTokens(s: string)
    ensures LineTokens(Split(s, '\n')) == Words(s)
  {
    LineTokensJoin(Split(s, '\n'));
    JoinSplit(s, '\n');
  }

  lemma {:induction false} KeyValuesWords(pairs: seq<(string, Value)>)
    ensures LeafWords(KeyValues(pairs)) == KeyWords(pairs)
    ensures FirstRefused(KeyValues(pairs)) == None
    decreases |pairs|
  {
    if |pairs| > 0 {
      KeyValuesWords(pairs[1..]);
      assert KeyValues(pairs)[1..] == KeyValues(pairs[1..]);
    }
  }

  /**
   * The argument loop refuses exactly the first argument (depth first) that
   * is neither a string nor iterable, and otherwise collects exactly the words
   * of the strings.
   */
  lemma {:induction false} CollectSpec(caller: string, args: seq<Value>)
    ensures Collect(caller, args).Ok? <==> FirstRefused(args).None?
    ensures FirstRefused(args).Some? ==> Collect(caller, args) == Fail(UnexpectedObject(caller, FirstRefused(args).value))
    ensures Collect(caller, args).Ok? ==> forall t :: t in Collect(caller, args).value <==> t in LeafWords(args)
    decreases SizeAll(args), 1
  {
    if |args| > 0 {
      SizeFirst(args);
      CollectSpec(caller, args[1..]);
      if args[0].List? {
        ParseSpec(caller, args[0].items, true);
        CollectStep(caller, args, ParsePackages(caller, args[0].items, true), FirstRefused(args[0].items), LeafWords(args[0].items));
      } else {
        HeadSpec(caller, args[0]);
        CollectStep(caller, args, Head(caller, args[0]), HeadRefused(args[0]), HeadWords(args[0]));
      }
    }
  }

  lemma HeadSpec(caller: string, v: Value)
    requires !v.List?
    decreases Size(v), 0
    ensures Head(caller, v).Ok? <==> HeadRefused(v).None?
    ensures HeadRefused(v).Some? ==> Head(caller, v) == Fail(UnexpectedObject(caller, HeadRefused(v).value))
    ensures Head(caller, v).Ok? ==> forall t :: t in Head(caller, v).value <==> t in HeadWords(v)
  {
    match v {
      case Str(s) => TextTokens(s);
      case Dict(pairs) =>
        KeyValuesWords(pairs);
        ParseSpec(caller, KeyValues(pairs), true);
      case _ =>
    }
  }

  /** One step of the argument loop, given what the first argument contributes. */
  lemma CollectStep(caller: string, args: seq<Value>, first: Result<seq<string>>, refused: Option<Value>, words: seq<string>)
    requires |args| > 0
    requires first == if args[0].List? then ParsePackages(caller, args[0].items, true) else Head(caller, args[0])
    requires refused == if args[0].List? then FirstRefused(args[0].items) else HeadRefused(args[0])
    requires words == if args[0].List? then LeafWords(args[0].items) else HeadWords(args[0])
    requires first.Ok? <==> refused.None?
    requires refused.Some? ==> first == Fail(UnexpectedObject(caller, refused.value))
    requires first.Ok? ==> forall t :: t in first.value <==> t in words
    requires Collect(caller, args[1..]).Ok? <==> FirstRefused(args[1..]).None?
    requires FirstRefused(args[1..]).Some? ==> Collect(caller, args[1..]) == Fail(UnexpectedObject(caller, FirstRefused(args[1..]).value))
    requires Collect(caller, args[1..]).Ok? ==> forall t :: t in Collect(caller, args[1..]).value <==> t in LeafWords(args[1..])
    ensures Collect(caller, args).Ok? <==> FirstRefused(args).None?
    ensures FirstRefused(args).Some? ==> Collect(caller, args) == Fail(UnexpectedObject(caller, FirstRefused(args).value))
    ensures Collect(caller, args).Ok? ==> forall t :: t in Collect(caller, args).value <==> t in LeafWords(args)
  {
    assert Collect(caller, args) == (if first.Err? then Err(first.error) else
      var rest := Collect(caller, args[1..]); if rest.Err? then Err(rest.error) else Ok(first.value + rest.value));
    assert FirstRefused(args) == if refused.Some? then refused else FirstRefused(args[1..]);
    assert LeafWords(args) == words + LeafWords(args[1..]);
  }

  /**
   * `_parse_packages` succeeds exactly when no argument is refused and, at a
   * level that does not allow it, some name was given; its result is then the
   * sorted set of all the words of the strings.
   */
  lemma {:induction false} ParseSpec(caller: string, args: seq<Value>, allowEmpty: bool)
    ensures ParsePackages(caller, args, allowEmpty).Ok? <==> FirstRefused(args).None? && (allowEmpty || |LeafWords(args)| > 0)
    ensures FirstRefused(args).Some? ==> ParsePackages(caller, args, allowEmpty) == Fail(UnexpectedObject(caller, FirstRefused(args).value))
    ensures FirstRefused(args).None? && !allowEmpty && |LeafWords(args)| == 0 ==> ParsePackages(caller, args, allowEmpty) == Fail(EmptyList(caller))
    ensures ParsePackages(caller, args, allowEmpty).Ok? ==>
      forall t :: t in ParsePackages(caller, args, allowEmpty).value <==> t in LeafWords(args)
    decreases SizeAll(args), 2
  {
    CollectSpec(caller, args);
    if FirstRefused(args).None? {
      var names := Collect(caller, args).value;
      var result := SortUnique(names);
      assert |result| == 0 <==> |LeafWords(args)| == 0 by {
        if |LeafWords(args)| > 0 {
          assert LeafWords(args)[0] in names;
          assert LeafWords(args)[0] in result;
        }
        if |result| > 0 {
          assert result[0] in names;
          assert result[0] in LeafWords(args);
        }
      }
    }
  }

  /** The names do not depend on how the arguments are grouped into iterables. */
  lemma GroupingIrrelevant(caller: string, args: seq<Value>)
    ensures ParsePackages(caller, [List(args)], true) == ParsePackages(caller, args, true)
  {
    ParseSpec(caller, args, true);
    ParseSpec(caller, [List(args)], true);
    assert LeafWords([List(args)]) == LeafWords(args) + LeafWords([]);
    assert FirstRefused([List(args)]) == (if FirstRefused(args).Some? then FirstRefused(args) else FirstRefused([]));
    if ParsePackages(caller, args, true).Ok? {
      StrictlySortedUnique(ParsePackages(caller, [List(args)], true).value, ParsePackages(caller, args, true).value);
    }
  }

  // ---------------------------------------------------------------------------
  // _is_changed and the wrappers
  // ---------------------------------------------------------------------------

  function ScanFrom(lines: seq<string>, i: nat, marker: string): (changed: bool)
    requires i <= |lines|
    ensures changed <==> forall j :: i <= j < |lines| ==> Strip(lines[j], Whitespace) != marker
    decreases |lines| - i
  {
    if i == |lines| then true
    else if Strip(lines[i], Whitespace) == marker then false
    else ScanFrom(lines, i + 1, marker)
  }

  /**
   * `_is_changed`: false as soon as a stripped output line matches the
   * not-changed pattern. The patterns the wrappers pass are `^text$` with no
   * other special characters, which on a stripped line match exactly the line
   * equal to `text`.
   */
  function IsChanged(stdout: string, marker: string): (changed: bool)
    ensures changed <==> !HasStrippedLine(stdout, marker)
  {
    ScanFrom(Split(stdout, '\n'), 0, marker)
  }

  const NothingToDo := "Nothing to do"
  const NothingToRemove := "No Packages marked for removal"
  const NothingToUpdate := "No packages marked for update"

  /** `yum_install`: at least one package; changed unless yum says there is nothing to do. */
  function YumInstall(args: seq<Value>, run: string -> string): (r: Result<IoUtil.Ran>)
    ensures r.Ok? <==> ParsePackages("yum_install", args, false).Ok?
    ensures r.Err? ==> r == ParsePackages("yum_install", args, false).PropagateFailure()
    ensures r.Ok? ==> var packages := ParsePackages("yum_install", args, false).value;
      && |packages| > 0
      && r.value.command == "yum -y install " + Join(packages, ' ')
      && (r.value.changed <==> !HasStrippedLine(run(r.value.command), NothingToDo))
  {
    var packages :- ParsePackages("yum_install", args, false);
    var command := "yum -y install " + Join(packages, ' ');
    Ok(IoUtil.Ran(command, IsChanged(run(command), NothingToDo)))
  }

  /** `yum_remove`: at least one package; changed unless yum marked nothing for removal. */
  function YumRemove(args: seq<Value>, run: string -> string): (r: Result<IoUtil.Ran>)
    ensures r.Ok? <==> ParsePackages("yum_remove", args, false).Ok?
    ensures r.Err? ==> r == ParsePackages("yum_remove", args, false).PropagateFailure()
    ensures r.Ok? ==> var packages := ParsePackages("yum_remove", args, false).value;
      && |packages| > 0
      && r.value.command == "yum -y remove " + Join(packages, ' ')
      && (r.value.changed <==> !HasStrippedLine(run(r.value.command), NothingToRemove))
  {
    var packages :- ParsePackages("yum_remove", args, false);
    var command := "yum -y remove " + Join(packages, ' ');
    Ok(IoUtil.Ran(command, IsChanged(run(command), NothingToRemove)))
  }

  /** `yum_update`: no arguments (or no names) updates everything. */
  function YumUpdate(args: seq<Value>, run: string -> string): (r: Result<IoUtil.Ran>)
    ensures args == [] ==> r.Ok? && r.value.command == "yum -y update "
    ensures r.Ok? <==> ParsePackages("yum_update", args, true).Ok?
    ensures r.Ok? ==> var packages := ParsePackages("yum_update", args, true).value;
      && r.value.command == "yum -y update " + Join(packages, ' ')
      && (r.value.changed <==> !HasStrippedLine(run(r.value.command), NothingToUpdate))
  {
    var packages :- if |args| == 0 then Ok([]) else ParsePackages("yum_update", args, true);
    var command := "yum -y update " + Join(packages, ' ');
    Ok(IoUtil.Ran(command, IsChanged(run(command), NothingToUpdate)))
  }
}
