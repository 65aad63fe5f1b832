/**
 * The older `yum` wrappers of fabrix: the same package parsing as the newer
 * ones (the two `_parse_packages` are the same code, modelled once as
 * `RpmYum.ParsePackages`), with the not-changed scan written out inline in
 * every wrapper instead of calling `_is_changed`.
 */
module Yum {
  import opened Results
  import opened Text
  import opened Values
  import opened RpmYum
  import IoUtil

  /** The inline scan: `changed` stays true until a stripped line equals `marker`. */
  method ScanOutput(stdout: string, marker: string) returns (changed: bool)
    ensures changed <==> !HasStrippedLine(stdout, marker)
    ensures changed == IsChanged(stdout, marker)
  {
    var lines := Split(stdout, '\n');
    changed := true;
    var i := 0;
    while i < |lines|
      invariant 0 <= i <= |lines|
      invariant changed
      invariant forall j :: 0 <= j < i ==> Strip(lines[j], Whitespace) != marker
    {
      if Strip(lines[i], Whitespace) == marker {
        changed := false;
        break;
      }
      i := i + 1;
    }
  }

  /** `yum_install`: the same command and outcome as the `_is_changed` version. */
  method Install(args: seq<Value>, run: string -> string) returns (r: Result<IoUtil.Ran>)
    ensures r.Ok? <==> ParsePackages("yum_install", args, false).Ok?
    ensures r.Ok? ==> r.value.command == "yum -y install " + Join(ParsePackages("yum_install", args, false).value, ' ')
    ensures r.Ok? ==> (r.value.changed <==> !HasStrippedLine(run(r.value.command), NothingToDo))
    ensures r == YumInstall(args, run)
  {
    var parsed := ParsePackages("yum_install", args, false);
    if parsed.Err? {
      return Err(parsed.error);
    }
    var command := "yum -y install " + Join(parsed.value, ' ');
    var changed := ScanOutput(run(command), NothingToDo);
    r := Ok(IoUtil.Ran(command, changed));
  }

  /** `yum_remove`: the same command and outcome as the `_is_changed` version. */
  method Remove(args: seq<Value>, run: string -> string) returns (r: Result<IoUtil.Ran>)
    ensures r.Ok? <==> ParsePackages("yum_remove", args, false).Ok?
    ensures r.Ok? ==> r.value.command == "yum -y remove " + Join(ParsePackages("yum_remove", args, false).value, ' ')
    ensures r.Ok? ==> (r.value.changed <==> !HasStrippedLine(run(r.value.command), NothingToRemove))
    ensures r == YumRemove(args, run)
  {
    var parsed := ParsePackages("yum_remove", args, false);
    if parsed.Err? {
      return Err(parsed.error);
    }
    var command := "yum -y remove " + Join(parsed.value, ' ');
    var changed := ScanOutput(run(command), NothingToRemove);
    r := Ok(IoUtil.Ran(command, changed));
  }

  /** `yum_update`: no arguments updates everything; the same outcome as the `_is_changed` version. */
  method Update(args: seq<Value>, run: string -> string) returns (r: Result<IoUtil.Ran>)
    ensures args == [] ==> r.Ok? && r.value.command == "yum -y update "
    ensures r.Ok? <==> ParsePackages("yum_update", args, true).Ok?
    ensures r.Ok? ==> (r.value.changed <==> !HasStrippedLine(run(r.value.command), NothingToUpdate))
    ensures r == YumUpdate(args, run)
  {
    var packages: seq<string>;
    if |args| == 0 {
      packages := [];
    } else {
      var parsed := ParsePackages("yum_update", args, true);
      if parsed.Err? {
        return Err(parsed.error);
      }
      packages := parsed.value;
    }
    var command := "yum -y update " + Join(packages, ' ');
    var changed := ScanOutput(run(command), NothingToUpdate);
    r := Ok(IoUtil.Ran(command, changed));
  }
}
