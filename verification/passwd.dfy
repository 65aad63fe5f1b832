/**
 * User and group helpers of fabrix: lookups in the output of `getent passwd`
 * and `getent group`, commands issued only when the system is not already in
 * the wanted state, and the appending of ssh keys to `authorized_keys`.
 *
 * The `getent` output is a parameter; the helpers return the commands they
 * would run instead of running them.
 */
module Passwd {
  import opened Results
  import opened Text
  import opened PosixPath
  import opened IoUtil
  import opened EditorLines
  import opened Editor

  // ---------------------------------------------------------------------------
  // getent lookups
  // ---------------------------------------------------------------------------

  /**
   * The name a `getent` line gives: the first `:` field of its stripped
   * form, or `None` for a blank line, which the loops skip.
   */
  function EntryName(line: string): Option<string>
  {
    var l := Strip(line, Whitespace);
    if l == "" then None else Some(Split(l, ':')[0])
  }

  /** The entry names of all lines, in order. */
  function EntryNames(lines: seq<string>): (names: seq<Option<string>>)
    ensures |names| == |lines|
    ensures forall i :: 0 <= i < |lines| ==> names[i] == EntryName(lines[i])
  {
    if |lines| == 0 then [] else [EntryName(lines[0])] + EntryNames(lines[1..])
  }

  /** `k` is the first line, from `i` on, that names `name`. */
  predicate FirstFrom(names: seq<Option<string>>, name: string, i: nat, k: nat)
  {
    i <= k < |names| && names[k] == Some(name) && forall j :: i <= j < k ==> names[j] != Some(name)
  }

  /** The scan of the `getent` loops: the first line from `i` on that names `name`. */
  function FindEntry(names: seq<Option<string>>, name: string, i: nat): (k: Option<nat>)
    requires i <= |names|
    ensures k.Some? ==> FirstFrom(names, name, i, k.value)
    ensures k.None? <==> forall j :: i <= j < |names| ==> names[j] != Some(name)
    decreases |names| - i
  {
    if i == |names| then None
    else if names[i] == Some(name) then Some(i)
    else FindEntry(names, name, i + 1)
  }

  /** The `:` field `n` of the stripped line, `IndexError` when the line has fewer fields. */
  function Field(line: string, n: nat): (r: Result<string>)
    ensures r.Ok? <==> n < |Split(Strip(line, Whitespace), ':')|
    ensures r.Err? ==> r == Raise("IndexError")
  {
    var fields := Split(Strip(line, Whitespace), ':');
    if n < |fields| then Ok(fields[n]) else Raise("IndexError")
  }

  /** Whether some line of the `getent` output names `name`. */
  ghost predicate HasEntry(getent: string, name: string)
  {
    var names := EntryNames(Split(getent, '\n'));
    exists i :: 0 <= i < |names| && names[i] == Some(name)
  }

  /** The line of the first entry for `name`, if any. */
  function Entry(getent: string, name: string): (k: Option<nat>)
    ensures k.None? <==> !HasEntry(getent, name)
    ensures k.Some? ==> FirstFrom(EntryNames(Split(getent, '\n')), name, 0, k.value)
  {
    FindEntry(EntryNames(Split(getent, '\n')), name, 0)
  }

  /**
   * Field `n` of the first entry for `name`: `None` without an entry,
   * `IndexError` when that entry is too short.
   */
  function EntryField(getent: string, name: string, n: nat): (r: Result<Option<string>>)
    ensures r == Ok(None) <==> !HasEntry(getent, name)
    ensures Entry(getent, name).Some? ==> var line := Split(getent, '\n')[Entry(getent, name).value];
      (r.Err? <==> Field(line, n).Err?) && (r.Ok? ==> r == Ok(Some(Field(line, n).value)))
    ensures r.Err? ==> r == Raise("IndexError")
  {
    match Entry(getent, name)
    case None => Ok(None)
    case Some(k) =>
      var field :- Field(Split(getent, '\n')[k], n);
      Ok(Some(field))
  }

  /** `get_user_home_directory`: the sixth field of the user's first `passwd` line, or `None`. */
  function GetUserHomeDirectory(passwd: string, name: string): (r: Result<Option<string>>)
    ensures r == Ok(None) <==> !HasEntry(passwd, name)
    ensures r.Ok? && r.value.Some? ==> Field(Split(passwd, '\n')[Entry(passwd, name).value], 5) == Ok(r.value.value)
    ensures r.Err? <==> Entry(passwd, name).Some? && Field(Split(passwd, '\n')[Entry(passwd, name).value], 5).Err?
    ensures r.Err? ==> r == Raise("IndexError")
  {
    EntryField(passwd, name, 5)
  }

  /** `is_user_exists`: some `passwd` line names the user. */
  function IsUserExists(passwd: string, name: string): (r: bool)
    ensures r <==> HasEntry(passwd, name)
  {
    Entry(passwd, name).Some?
  }

  /** `is_group_exists`: some `group` line names the group. */
  function IsGroupExists(group: string, name: string): (r: bool)
    ensures r <==> HasEntry(group, name)
  {
    Entry(group, name).Some?
  }

  function IsUserNotExists(passwd: string, name: string): (r: bool)
    ensures r <==> !HasEntry(passwd, name)
  {
    !IsUserExists(passwd, name)
  }

  function IsGroupNotExists(group: string, name: string): (r: bool)
    ensures r <==> !HasEntry(group, name)
  {
    !IsGroupExists(group, name)
  }

  /**
   * `is_user_in_group`: decided by the group's first line alone, whose fourth
   * field is the comma-separated member list; a missing group is `False`.
   */
  function IsUserInGroup(group: string, username: string, groupname: string): (r: Result<bool>)
    ensures !HasEntry(group, groupname) ==> r == Ok(false)
    ensures r.Err? <==> Entry(group, groupname).Some? && Field(Split(group, '\n')[Entry(group, groupname).value], 3).Err?
    ensures r.Err? ==> r == Raise("IndexError")
    ensures r.Ok? && HasEntry(group, groupname) ==>
      r.value == (username in Split(Field(Split(group, '\n')[Entry(group, groupname).value], 3).value, ','))
  {
    var members :- EntryField(group, groupname, 3);
    if members.None? then Ok(false) else Ok(username in Split(members.value, ','))
  }

  function IsUserNotInGroup(group: string, username: string, groupname: string): (r: Result<bool>)
    ensures r.Ok? <==> IsUserInGroup(group, username, groupname).Ok?
    ensures r.Ok? ==> r.value == !IsUserInGroup(group, username, groupname).value
  {
    var member :- IsUserInGroup(group, username, groupname);
    Ok(!member)
  }

  // ---------------------------------------------------------------------------
  // Commands issued only when needed
  // ---------------------------------------------------------------------------

  /** `create_user`: `useradd` only for a user `getent passwd` does not list. */
  function CreateUser(passwd: string, name: string): (commands: seq<string>)
    ensures HasEntry(passwd, name) ==> commands == []
    ensures !HasEntry(passwd, name) ==> commands == ["useradd " + name + " --comment " + name]
  {
    if IsUserNotExists(passwd, name) then ["useradd " + name + " --comment " + name] else []
  }

  /** `remove_user`: `userdel` only for a listed user. */
  function RemoveUser(passwd: string, name: string): (commands: seq<string>)
    ensures HasEntry(passwd, name) ==> commands == ["userdel " + name]
    ensures !HasEntry(passwd, name) ==> commands == []
  {
    if IsUserExists(passwd, name) then ["userdel " + name] else []
  }

  /** `create_group`: `groupadd` only for a group `getent group` does not list. */
  function CreateGroup(group: string, name: string): (commands: seq<string>)
    ensures HasEntry(group, name) ==> commands == []
    ensures !HasEntry(group, name) ==> commands == ["groupadd " + name]
  {
    if IsGroupNotExists(group, name) then ["groupadd " + name] else []
  }

  /** `remove_group`: `groupdel` only for a listed group. */
  function RemoveGroup(group: string, name: string): (commands: seq<string>)
    ensures HasEntry(group, name) ==> commands == ["groupdel " + name]
    ensures !HasEntry(group, name) ==> commands == []
  {
    if IsGroupExists(group, name) then ["groupdel " + name] else []
  }

  /** `add_user_to_group`: `gpasswd --add` only when the user is not a member yet. */
  function AddUserToGroup(group: string, username: string, groupname: string): (r: Result<seq<string>>)
    ensures r.Ok? <==> IsUserInGroup(group, username, groupname).Ok?
    ensures r.Ok? && IsUserInGroup(group, username, groupname).value ==> r.value == []
    ensures r.Ok? && !IsUserInGroup(group, username, groupname).value ==>
      r.value == ["gpasswd --add " + username + " " + groupname]
  {
    var missing :- IsUserNotInGroup(group, username, groupname);
    if missing then Ok(["gpasswd --add " + username + " " + groupname]) else Ok([])
  }

  /** `delete_user_from_group`: `gpasswd --delete` only for a member. */
  function DeleteUserFromGroup(group: string, username: string, groupname: string): (r: Result<seq<string>>)
    ensures r.Ok? <==> IsUserInGroup(group, username, groupname).Ok?
    ensures r.Ok? && IsUserInGroup(group, username, groupname).value ==>
      r.value == ["gpasswd --delete " + username + " " + groupname]
    ensures r.Ok? && !IsUserInGroup(group, username, groupname).value ==> r.value == []
  {
    var member :- IsUserInGroup(group, username, groupname);
    if member then Ok(["gpasswd --delete " + username + " " + groupname]) else Ok([])
  }

  /** For any state, exactly one of `create_user` and `remove_user` issues a command. */
  lemma CreateRemoveUserComplementary(passwd: string, name: string)
    ensures |CreateUser(passwd, name)| + |RemoveUser(passwd, name)| == 1
  {
  }

  lemma CreateRemoveGroupComplementary(group: string, name: string)
    ensures |CreateGroup(group, name)| + |RemoveGroup(group, name)| == 1
  {
  }

  /** Once membership is known, exactly one of adding and deleting issues a command. */
  lemma AddDeleteMemberComplementary(group: string, username: string, groupname: string)
    requires IsUserInGroup(group, username, groupname).Ok?
    ensures |AddUserToGroup(group, username, groupname).value| + |DeleteUserFromGroup(group, username, groupname).value| == 1
  {
  }

  /** A group that lists nobody has no members to delete, and `gpasswd --add` is issued. */
  lemma MissingGroupAddsMember(group: string, username: string, groupname: string)
    requires !HasEntry(group, groupname)
    ensures AddUserToGroup(group, username, groupname) == Ok(["gpasswd --add " + username + " " + groupname])
    ensures DeleteUserFromGroup(group, username, groupname) == Ok([])
  {
  }

  // ---------------------------------------------------------------------------
  // add_user_ssh_authorized_keys
  // ---------------------------------------------------------------------------

  /**
   * The keys of a key file: its non-blank stripped lines, in file order. A
   * single line gives its stripped form unless that is blank, and
   * `KeyLinesConcat` extends this to the whole file.
   */
  function KeyLines(lines: seq<string>): (keys: seq<string>)
    requires NoSep(lines, '\n')
    ensures forall i :: 0 <= i < |keys| ==> keys[i] != "" && NoNewline(keys[i])
    ensures |lines| == 1 ==> (keys == [] <==> Strip(lines[0], Whitespace) == "")
    ensures |lines| == 1 && keys != [] ==> keys == [Strip(lines[0], Whitespace)]
  {
    if |lines| == 0 then []
    else
      var key := Strip(lines[0], Whitespace);
      StripKeepsOut(lines[0], Whitespace, '\n');
      (if key == "" then [] else [key]) + KeyLines(lines[1..])
  }

  /** The keys of two runs of lines are the keys of the first run, then those of the second. */
  lemma {:induction false} KeyLinesConcat(a: seq<string>, b: seq<string>)
    requires NoSep(a, '\n') && NoSep(b, '\n')
    ensures NoSep(a + b, '\n')
    ensures KeyLines(a + b) == KeyLines(a) + KeyLines(b)
    decreases |a|
  {
    if |a| > 0 {
      assert (a + b)[0] == a[0];
      assert (a + b)[1..] == a[1..] + b;
      KeyLinesConcat(a[1..], b);
    } else {
      assert a + b == b;
    }
  }

  /** Reference: `append_line(key, insert_empty_line_before=True)` applied to the text once per key, in order. */
  function AppendAll(text: string, keys: seq<string>): string
    decreases |keys|
  {
    if |keys| == 0 then text else AppendAll(AppendText(keys[0], true, text), keys[1..])
  }

  /** One `edit_file(authorized_keys, append_line(key, insert_empty_line_before=True))` per key, in order. */
  function AddKeys(eng: Engine, text: string, keys: seq<string>): (r: Result<string>)
    decreases |keys|
  {
    if |keys| == 0 then Ok(text)
    else
      var edited :- ApplyEditors(eng, text, [AppendLine(keys[0], true)]);
      AddKeys(eng, edited.1, keys[1..])
  }

  /** An appended line joins the lines of the text, all of which stay. */
  lemma AppendKeepsLines(line: string, text: string)
    requires NoNewline(line)
    ensures line in Split(AppendText(line, true, text), '\n')
    ensures forall x :: x in Split(text, '\n') ==> x in Split(AppendText(line, true, text), '\n')
  {
    var lines := Split(text, '\n');
    if line !in lines {
      var n := |lines|;
      var out := if lines[n - 1] == "" then lines + [line] else (lines + [""]) + [line];
      assert NoSep(out + [""], '\n');
      SplitJoin(out + [""], '\n');
      assert AppendText(line, true, text) == Join(out + [""], '\n');
    }
  }

  /**
   * Adding the keys never fails the idempotence check, and afterwards every
   * key, and every line the file had, is a line of the file.
   */
  lemma {:induction false} AddKeysSpec(eng: Engine, text: string, keys: seq<string>)
    requires forall i :: 0 <= i < |keys| ==> NoNewline(keys[i])
    ensures AddKeys(eng, text, keys) == Ok(AppendAll(text, keys))
    ensures forall i :: 0 <= i < |keys| ==> keys[i] in Split(AddKeys(eng, text, keys).value, '\n')
    ensures forall x :: x in Split(text, '\n') ==> x in Split(AddKeys(eng, text, keys).value, '\n')
    decreases |keys|
  {
    if |keys| > 0 {
      var e := AppendLine(keys[0], true);
      SingleLineEditor(eng, e, text);
      var once := AppendText(keys[0], true, text);
      assert ApplyEditors(eng, text, [e]).value.1 == once;
      AppendKeepsLines(keys[0], text);
      AddKeysSpec(eng, once, keys[1..]);
      forall i | 0 <= i < |keys| ensures keys[i] in Split(AddKeys(eng, text, keys).value, '\n') {
        if i > 0 {
          assert keys[i] == keys[1..][i - 1];
        }
      }
    }
  }

  /** Keys that are already lines of the file leave it as it is. */
  lemma {:induction false} AddPresentKeys(eng: Engine, text: string, keys: seq<string>)
    requires forall i :: 0 <= i < |keys| ==> NoNewline(keys[i]) && keys[i] in Split(text, '\n')
    ensures AddKeys(eng, text, keys) == Ok(text)
    decreases |keys|
  {
    if |keys| > 0 {
      var e := AppendLine(keys[0], true);
      SingleLineEditor(eng, e, text);
      assert Apply(eng, e, text) == Ok(text);
      AddPresentKeys(eng, text, keys[1..]);
    }
  }

  /** Running the key upload a second time changes nothing. */
  lemma AddKeysIdempotent(eng: Engine, text: string, keys: seq<string>)
    requires forall i :: 0 <= i < |keys| ==> NoNewline(keys[i])
    ensures AddKeys(eng, text, keys).Ok?
    ensures AddKeys(eng, AddKeys(eng, text, keys).value, keys) == AddKeys(eng, text, keys)
  {
    AddKeysSpec(eng, text, keys);
    AddPresentKeys(eng, AddKeys(eng, text, keys).value, keys);
  }

  /**
   * `add_user_ssh_authorized_keys`: the key file is `~user/.ssh/authorized_keys`
   * under the home directory `getent passwd` gives, and it ends up holding
   * every key of the local key file. `current` is that file's text before.
   */
  function AddUserSshAuthorizedKeys(eng: Engine, passwd: string, username: string, local: FileSystem,
                                    keysFile: string, current: string): (r: Result<(string, string)>)
    ensures GetUserHomeDirectory(passwd, username) == Ok(None) ==> r == Raise("AttributeError")
    ensures r.Ok? ==> GetUserHomeDirectory(passwd, username).Ok? && GetUserHomeDirectory(passwd, username).value.Some?
    ensures r.Ok? ==> r.value.0 == PathJoin(PathJoin(GetUserHomeDirectory(passwd, username).value.value, ".ssh"), "authorized_keys")
    ensures r.Ok? ==> IsFile(local, keysFile)
    ensures r.Ok? ==> var keys := KeyLines(Split(Stat(local, keysFile).entry.content, '\n'));
      forall i :: 0 <= i < |keys| ==> keys[i] in Split(r.value.1, '\n')
    ensures r.Ok? ==> forall x :: x in Split(current, '\n') ==> x in Split(r.value.1, '\n')
    ensures r.Ok? ==> r.value.1 == AppendAll(current, KeyLines(Split(Stat(local, keysFile).entry.content, '\n')))
  {
    var home :- GetUserHomeDirectory(passwd, username);
    if home.None? then Raise("AttributeError")
    else
      var sshDirectory := PathJoin(home.value, ".ssh");
      var authorizedKeys := PathJoin(sshDirectory, "authorized_keys");
      var keysText :- ReadLocalFile(local, keysFile, true);
      var keys := KeyLines(Split(keysText.value, '\n'));
      AddKeysSpec(eng, current, keys);
      // the appends always pass the idempotence check
      Ok((authorizedKeys, AddKeys(eng, current, keys).value))
  }
}
