# fabrix, modelled in Dafny

fabrix is a small library of idempotent server-configuration helpers built on
Fabric. This project models its pure cores and proves what their
documentation promises:

- **Text editors** (`fabrix/editor.py`). `insert_line`, `prepend_line`,
  `append_line`, `delete_line`, `replace_line`, `substitute_line` and
  `strip_line` turn a text into a new text. `_apply_editors` runs a list of
  editors twice, refuses a list whose second pass changes the text again, and
  reports whether anything changed. `edit_ini_section` applies editors to one
  `[section]` of an ini text. `strip_text` normalises heredoc blocks.
  `edit_file`/`edit_local_file` write the result back only when it changed.
- **Inventory resolver** (`fabrix/config.py`). `parse_config` runs over an
  already-loaded YAML value. It validates the `hosts`/`roles`/`host_vars`/
  `role_vars`/`defaults`/`local_vars` schema in the source's order, with the
  source's messages, and layers every host's variables: defaults, then role
  variables in roles order, then host variables. `read_config` resolves the
  config path. The `conf` view is keyed by an explicit host.
- **File helpers** (`fabrix/ioutil.py`). Reading, write-if-changed and the
  atomic replace. The filesystem is a map from path to a regular file (content,
  link count, owner, mode), a symlink or a directory. Also modelled are the
  pure parts of `copy_file`, `rsync`, `chown` and `chmod`.
- **Package helpers** (`fabrix/rpmyum.py`, `fabrix/yum.py`). Nested package
  arguments are flattened into a sorted, duplicate-free list. `yum` commands
  are built from it, and the "nothing changed" markers are detected in yum's
  output.
- **Account helpers** (`fabrix/passwd.py`). `getent` output is parsed, the
  `useradd`/`userdel`/`groupadd`/`groupdel`/`gpasswd` commands are emitted
  only when the account state requires them, and keys are appended to
  `authorized_keys`.
- **Partition layout** (`Parted` and the probes in both
  `contrib/create-server-partitions*/fabfile.py`). GPT sector arithmetic:
  mdraid and LVM metadata sizing, contiguous partitions and alignment checks.

Modules follow the source:

| module | file | models |
|---|---|---|
| `Results` | results.dfy | `abort(...)` as `Abort(message)`, uncaught exceptions as `Crash(kind)` |
| `Text` | text.dfy | `str.split`/`join`/`strip`/`split()` and scans over stripped lines |
| `Values` | values.dfy | loaded YAML values |
| `PosixPath` | posixpath.dfy | `os.path` |
| `StringOrder` | order.dfy | `sorted(set(...))` |
| `EditorLines`, `EditorStrip`, `EditorIni`, `Editor` | lines.dfy, strip.dfy, ini.dfy, editor.dfy | the editors |
| `Config` | config.dfy | the inventory resolver |
| `IoUtil` | ioutil.dfy | the file helpers |
| `RpmYum`, `Yum` | rpmyum.dfy, yum.dfy | the package helpers |
| `Passwd` | passwd.dfy | the account helpers |
| `Partitions` | partitions.dfy | the partition layout |

Regular expressions are an abstract `Engine`: a full-line match, a "contains
a match" search, and a substitution. Only `_full_line`'s anchoring and the
ini header pattern `^\s*\[(.*)\]\s*$` are concrete. Command output (`run`,
`mount`, `lsblk`, `getent`), the random temp-file suffix and YAML loading are
parameters.

## Model

| member | source | states |
|---|---|---|
| Editor.FullLine | fabrix/editor.py:7-12 | An empty pattern crashes with IndexError. Otherwise the result starts with `^`, ends with `$`, and contains the pattern verbatim; `^`/`$` are added only where missing. |
| Editor.FullLineIdempotent | fabrix/editor.py:7-12 | Anchoring an anchored pattern again changes nothing. |
| Editor.FullLineKeepsAnchored | fabrix/editor.py:7-12 | A pattern that already starts with `^` and ends with `$` is returned unchanged. |
| Editor.InsertLineOf | fabrix/editor.py:32-50 | No keyword aborts with "must be defined". Otherwise the first name in sorted order decides. If it is neither `before` nor `after`, the call aborts "unknown insert_type" naming it. If its pattern is empty, the call crashes with IndexError. If a second name follows, the call aborts "already defined insert_type" naming both. Success holds iff exactly one keyword is given, it is `before` or `after`, and its pattern is non-empty; the editor then inserts on that side of the anchored pattern. |
| Editor.InsertLineBothSides | fabrix/editor.py:34-46 | Given both `before` and `after`, the keywords are visited in sorted order, so the call aborts with "already defined insert_type 'after', unexpected 'before'". |
| Editor.DeleteLineOf | fabrix/editor.py:146-159 | Fails exactly on an empty pattern; otherwise deletes by the anchored pattern. |
| Editor.ReplaceLineOf | fabrix/editor.py:171-195 | Fails exactly on an empty pattern; otherwise replaces by the anchored pattern with the given flags. |
| Editor.IniSectionOf | fabrix/editor.py:302-307 | `None` selects the preamble. An empty name crashes. A name not of the form `[x]` aborts. Otherwise the target is the name between the brackets. |
| Editor.ApplyEditorsOutcome | fabrix/editor.py:264-283 | An empty list aborts. On success the result is the first pass's text, and a further pass leaves it unchanged. `changed` holds iff the result differs from the input. A second pass that differs aborts with "editors is not idempotent". |
| Editor.ApplyEditorsStable | fabrix/editor.py:264-283 | Applying the same list to a successful result succeeds again, reports no change, and returns the same text. |
| Editor.ApplyEditorsSingle | fabrix/editor.py:264-283 | A single editor that is a fixed point of itself passes the idempotence check; the reported change is "output differs from input". |
| Editor.SingleLineEditor | fabrix/editor.py:103-260 | Run alone, prepend, append (line without newline), delete, strip and insert (inserted line not an anchor) always pass `_apply_editors`'s idempotence check. |
| Editor.IniEditOutcome | fabrix/editor.py:309-347 | A repeated header aborts naming the first duplicate. A missing target aborts "not found". The preamble always exists. Otherwise the editors run over the target section's text, and their result or error decides the outcome. |
| Editor.IniEditLocal | fabrix/editor.py:309-347 | If every header is written canonically and the edit introduces no header, the output has the same sections, in the same order, under the same names, and every section other than the target is unchanged. |
| Editor.EditText | fabrix/editor.py:419-420 | Succeeds exactly when `_apply_editors` does. The result is what one pass produces, and a further pass leaves it unchanged. |
| Editor.EditLocalFile | fabrix/editor.py:370-374 | A missing file aborts with the open error. When nothing changed the filesystem is untouched; otherwise the edited text differs from the old one and is written once through the atomic replace. |
| Editor.EditFile | fabrix/editor.py:396-400 | The remote variant: a missing file aborts with the download message, an unchanged text writes nothing, and a changed text is written once through the remote atomic replace. |
| Editor.EditLocalFileTwice | fabrix/editor.py:370-374 | Editing a file a second time with the same editors reports no change and leaves the filesystem as the first edit left it. |
| EditorLines.AnchorCount | fabrix/editor.py:57-70 | The count is at most the number of lines, and it is zero iff no line fully matches the anchor. |
| EditorLines.FirstMatch | fabrix/editor.py:71-85 | The position of the first line matching the anchor: no earlier line matches, and it exists whenever the count is positive. |
| EditorLines.InsertAroundUnique | fabrix/editor.py:71-85 | With exactly one anchor line, the insertion loop equals splicing the line immediately before or after that anchor; every other line keeps its order. |
| EditorLines.InsertText | fabrix/editor.py:52-85 | Zero anchors aborts "not found"; n > 1 anchors aborts "found n times"; success holds iff there is exactly one anchor. A line already present returns the text unchanged. Otherwise the result is the original lines with the new line spliced next to the anchor. |
| EditorLines.InsertIdempotent | fabrix/editor.py:52-85 | Inserting a newline-free line that is not itself an anchor a second time returns the text unchanged. |
| EditorLines.PrependText | fabrix/editor.py:103-110 | A line already present leaves the text unchanged. Otherwise the result is the line, a newline, an optional blank line, then the original text verbatim. |
| EditorLines.PrependIdempotent | fabrix/editor.py:103-110 | Prepending the same newline-free line twice equals prepending it once. |
| EditorLines.AppendText | fabrix/editor.py:128-142 | A line already present leaves the text unchanged. Otherwise the original text is kept, a newline is added if it did not end in one, then an optional blank line and the line, and the result ends in a newline. |
| EditorLines.AppendIdempotent | fabrix/editor.py:128-142 | Appending the same newline-free line twice equals appending it once. |
| EditorLines.AppendedLineIn | fabrix/editor.py:128-142 | After appending, a newline-free line is one of the text's lines. |
| EditorLines.DeleteLines | fabrix/editor.py:159-167 | A single line is dropped iff it fully matches, and otherwise kept as it is. No output line matches, and every non-matching input line appears in the output. |
| EditorLines.DeleteLinesConcat | fabrix/editor.py:159-167 | Deleting from two runs of lines gives the deletion from the first run followed by the deletion from the second. With the one-line case this fixes the output: the non-matching lines, in their order and with their repeats. |
| EditorLines.DeleteIdempotent | fabrix/editor.py:157-167 | Deleting with the same pattern twice equals deleting once. |
| EditorLines.SubLines | fabrix/editor.py:194-235 | Line by line, in place: a line that fully matches (replace) or contains a match (substitute) is rewritten by the substitution; every other line is returned unchanged. |
| EditorLines.StripLines | fabrix/editor.py:256-260 | Every line is stripped independently, and the number of lines is kept. |
| EditorLines.StripLineIdempotent | fabrix/editor.py:255-260 | Stripping twice equals stripping once. |
| EditorLines.StripLineNoChars | fabrix/editor.py:255-260 | `chars=""` leaves the text unchanged. |
| EditorStrip.StripText | fabrix/editor.py:438-452 | `None` and `''` give `''`. Any other non-string aborts "string expected". Otherwise the result ends in a newline and is the stripped text with each line stripped. |
| EditorStrip.StripTextIdempotent | fabrix/editor.py:438-452 | `strip_text` succeeds on every string, and applying it to its own result changes nothing. |
| EditorStrip.StrippedEnds | fabrix/editor.py:447-451 | Before the final newline, the result neither starts nor ends with whitespace, so there are no leading or trailing blank lines. |
| EditorStrip.StripTextFixed | fabrix/editor.py:438-452 | A text that is already clean plus one newline is a fixed point. |
| EditorIni.HeaderName | fabrix/editor.py:316-319 | A line is a header named `n` iff its stripped form is `[n]`. |
| EditorIni.HeaderOfHeaderLine | fabrix/editor.py:341-347 | Reading back a header written as `[n]` gives `n`. |
| EditorIni.GroupFrom | fabrix/editor.py:313-326 | Grouping starts with the preamble, every later section is named, and no section body contains a header line. |
| EditorIni.RenderGroup | fabrix/editor.py:313-347 | If every header line is written exactly `[name]`, rendering the grouped sections gives back the original lines. |
| EditorIni.GroupRender | fabrix/editor.py:313-347 | Grouping the rendering of well-formed sections gives back the same sections. |
| EditorIni.FirstDuplicate | fabrix/editor.py:320-323 | The first section name that repeats an earlier one; none exactly when all names are distinct. |
| EditorIni.FindSection | fabrix/editor.py:328-340 | The first section with the target name, and "past the end" iff there is no such section. |
| EditorIni.Reassemble | fabrix/editor.py:331-336 | Only the target section's body can change, and only when the editors report a change. The names and order of all sections are kept. |
| EditorIni.ReassembleLocal | fabrix/editor.py:341-347 | Re-reading the written text gives back exactly the reassembled sections. |
| EditorIni.ReassembleShape | fabrix/editor.py:341-347 | Reassembled sections are well formed and render to newline-free lines. |
| Text.JoinSplit | fabrix/editor.py:104-110 | Joining the split lines gives back the text. |
| Text.SplitJoin | fabrix/editor.py:336-347 | Splitting joined newline-free lines gives back the lines. |
| Text.Split | fabrix/editor.py:54 | Never empty, and no part contains the separator. |
| Text.StripShape | fabrix/editor.py:449 | The stripped string is a contiguous slice of the input; everything cut away on either side is in the strip set, and the kept ends are not. |
| Text.StripIdempotent | fabrix/editor.py:449 | Stripping twice equals stripping once. |
| Text.Words | fabrix/rpmyum.py:16 | The words are non-empty and contain no whitespace. |
| Text.WordsOfStrip | fabrix/rpmyum.py:13-16 | Stripping a line before splitting it into words changes nothing. |
| Text.ScanStrippedLines | fabrix/rpmyum.py:36-41 | The scan finds the marker iff some stripped line equals it. |
| Text.OctDigitsRoundTrip | fabrix/ioutil.py:264-265 | The octal digits of any number use only `0`–`7`, have no leading zero unless the number is zero, and read back in base 8 as the number. |
| Config.RequiredField | fabrix/config.py:87-98 | A present key gives its value, a missing key aborts with the given message, and a scalar entry crashes with TypeError. |
| Config.HostList | fabrix/config.py:68-75 | Accepted iff no entry is None or empty, a non-string, or a repeat. On failure the message belongs to the first offending entry. On success the list is the entries' strings. |
| Config.HostListDistinct | fabrix/config.py:68-75 | An accepted host list has no repeats. |
| Config.RoleEntry | fabrix/config.py:86-117 | An accepted role entry appends the role and host list the entry itself declares. The role is new and non-empty, and it is recorded for each of its hosts. |
| Config.AddRoleConsistent | fabrix/config.py:113-117 | Adding a role keeps the host-to-roles index, the host union and the roles list consistent with each other. |
| Config.RolesFrom | fabrix/config.py:86-117 | The roles table is the entries' declarations in document order, each role distinct, and the role tables stay consistent. |
| Config.ParseRoles | fabrix/config.py:78-120 | A non-list aborts, and an empty list aborts. On success the roles table is the declarations of the entries, in document order, one distinct role per entry, and the union of role hosts is non-empty. |
| Config.RoleEntryAccepts | fabrix/config.py:87-117 | An entry of the form `{role: <name>, hosts: [...]}` is accepted when the name is non-empty and new and the host list passes the host checks. An empty host list passes. |
| Config.RolesFromAccepts | fabrix/config.py:86-117 | The roles loop accepts a run of such entries when all role names are distinct and none was declared before. |
| Config.ParseRolesAccepts | fabrix/config.py:81-120 | The converse of Config.ParseRoles for entries of that form: a non-empty list with distinct role names and at least one host among all the roles is accepted. |
| Config.ParseRolesEmptyHostList | fabrix/config.py:99-119 | A role with `hosts: []` next to a role with hosts is accepted, and both declarations are kept in order. The same role alone is refused with "roles hosts must not be empty". |
| Config.RoleDefsValues | fabrix/config.py:201-216 | `roledefs` maps each role to exactly its hosts list. |
| Config.RoleDefsHosts | fabrix/config.py:201-216 | The hosts that get scopes in roles mode are exactly the hosts named in `roledefs`. |
| Config.HostVarsEntry | fabrix/config.py:125-146 | An accepted `host_vars` entry binds one declared host that had no binding before to the entry's own `vars` dictionary, and changes nothing else. |
| Config.HostVarsFrom | fabrix/config.py:125-145 | The `host_vars` loop from an entry on adds the table of the remaining entries to what is already bound, and binds declared hosts only. |
| Config.ParseHostVars | fabrix/config.py:121-146 | A non-list aborts. On success every entry names a declared host, and the result is the table the entries describe: each entry's host bound to its `vars` dictionary. |
| Config.RoleVarsEntry | fabrix/config.py:151-172 | An accepted `role_vars` entry binds one declared role that had no binding before to the entry's own `vars` dictionary, and changes nothing else. |
| Config.RoleVarsFrom | fabrix/config.py:153-171 | The `role_vars` loop from an entry on adds the table of the remaining entries to what is already bound, and binds declared roles only. |
| Config.ParseRoleVars | fabrix/config.py:147-172 | `role_vars` in hosts mode aborts, and a non-list aborts. On success only declared roles get variables, and the result is the table the entries describe: each entry's role bound to its `vars` dictionary. |
| Config.OptionalDict | fabrix/config.py:173-184 | A missing section is empty, a non-dict aborts with the section's message, and a dict gives its bindings. |
| Config.ParseSections | fabrix/config.py:121-186 | On success no unexpected top-level key is left, host variables name declared hosts, hosts mode has no role variables, and the host variables, role variables, `defaults` and `local_vars` are exactly the document's own sections. |
| Config.HostVarsSection | fabrix/config.py:121-146 | A document without `host_vars` has no host variables; otherwise they are the table of its `host_vars` entries, naming declared hosts only. |
| Config.RoleVarsSection | fabrix/config.py:147-172 | A document without `role_vars` has no role variables; otherwise they are the table of its `role_vars` entries, and hosts mode has none. |
| Config.RoleVarsOnward | fabrix/config.py:147-186 | Once `host_vars` is taken out, success leaves no unexpected key, and the role variables, `defaults` and `local_vars` are the document's own. |
| Config.DefaultsOnward | fabrix/config.py:173-186 | After `defaults` and `local_vars` are taken out, any leftover key has aborted. On success `defaults` and `local_vars` are the document's dictionaries, empty when absent. |
| Config.StackLastBinding | fabrix/config.py:189-216 | Layering scopes with later ones replacing earlier ones: a key is bound iff some layer binds it, to the value of the last layer that does. |
| Config.Build | fabrix/config.py:187-216 | Every declared host gets a scope and `local_conf` gets `local_vars`. In hosts mode `env.hosts` is the host list and roledefs is empty; in roles mode `env.hosts` is empty and roledefs is the roles table. |
| Config.Precedence | fabrix/config.py:189-216 | A host's variable comes from its `host_vars`, else from the last of its roles (in roles order) that binds it, else from `defaults`. It is bound iff one of these binds it. |
| Config.RoleLayersConcat | fabrix/config.py:209-212 | A role contributes its `role_vars` layer if it has one and nothing otherwise, and a list of roles contributes the layers of its parts in order. |
| Config.HostsConfig | fabrix/config.py:62-77 | A non-list and an empty list abort with their messages. On success `env.hosts` is the validated host list, roledefs is empty, the scopes are exactly those hosts, and the inventory is built from the document's own `defaults`, `host_vars` and `local_vars`. |
| Config.RolesConfig | fabrix/config.py:78-120 | On success `env.hosts` is empty, the scopes are exactly the hosts named in `roledefs`, and the inventory is built from the parsed roles and the document's own `defaults`, `role_vars`, `host_vars` and `local_vars`. |
| Config.Mode | fabrix/config.py:57-60 | Hosts mode or roles mode exactly when one of the two is present; both or neither abort with their messages. |
| Config.ParseConfigModeErrors | fabrix/config.py:57-60 | Both `hosts` and `roles` aborts "can't be simultaneously defined"; neither aborts "must be defined". |
| Config.ParseConfigModes | fabrix/config.py:57-77 | With only `hosts` the config is parsed in hosts mode, with only `roles` in roles mode. |
| Config.ParseConfig | fabrix/config.py:53-216 | A scalar document crashes with TypeError at the first `in` check, and only a dict can succeed. On success the hosts with a scope are exactly the hosts the document declares, and `local_conf` holds the document's `local_vars`. |
| Config.ParseConfigAcceptsHosts | fabrix/config.py:53-216 | A document holding an acceptable non-empty `hosts` list and a `defaults` dict is accepted. `env.hosts` is the list in document order, `local_conf` is empty, and every host's scope is the defaults. |
| Config.ParseConfigAcceptsRoles | fabrix/config.py:53-216 | A document whose only key is a `roles` list that the roles checks accept is accepted, with an empty `env.hosts` and one scope per role host. |
| Config.ParseConfigPrecedence | fabrix/config.py:187-216 | Over the document itself: a host's variable comes from its `host_vars` entry, else from the last of its roles, in the order the document declares them, whose `role_vars` entry binds it, else from `defaults`. It is bound iff one of these binds it. |
| Config.ConfigPath | fabrix/config.py:227-236 | With no argument the path lies in the fabfile's directory (same `dirname`), and its `basename` is the fabfile's name without extension plus `.yaml`. An absolute argument is used as is. A relative argument follows the fabfile's directory, with one slash between them unless the directory is empty or ends in one. |
| Config.JoinFileName | fabrix/config.py:228-231 | Joining a directory as `dirname` returns it with a slash-free name gives back that directory as `dirname` and that name as `basename`. |
| Config.DefaultConfigPath | fabrix/config.py:227-231 | The default path has the fabfile's directory as `dirname`, the fabfile's stem plus `.yaml` as `basename`, and ends in `.yaml`. |
| Config.ReadConfig | fabrix/config.py:224-244 | No fabfile is a no-op. A missing default file is a silent no-op, and a missing explicit file aborts "not exists". An inventory results iff the file exists, loads and parses, and it is the parse of that file. |
| Config.ConfGetAttr | fabrix/config.py:12-20 | A name the `dict` itself has (`items`, `keys`, `get`, `super__getitem__`, the special names…) is found by ordinary lookup and never reaches `__getattr__`. Any other name gives the current host's value, or crashes with AttributeError when there is no host, no scope or no key. |
| Config.ConfGetItem | fabrix/config.py:25-26 | Every key reads the current host's variable, failing with KeyError. For names the `dict` does not have, it agrees with attribute access. |
| Config.ConfSet | fabrix/config.py:22-29 | Attribute and item assignment both bind in the current host's scope, whatever the name. Succeeds iff the current host has a scope, keeps the set of hosts, and crashes with KeyError otherwise. |
| Config.ConfSetIsolated | fabrix/config.py:12-29 | After setting a key, `conf[key]` gives the value, and so does `conf.key` unless the key is a `dict` attribute name, which still resolves to the attribute. Every other host and key reads as before. |
| IoUtil.ReadLocalFile | fabrix/ioutil.py:28-37 | Content iff a regular file is found (following symlinks). A missing file gives `None`, or an abort when `abort_on_error` is set. |
| IoUtil.ReadFile | fabrix/ioutil.py:40-53 | The remote read: the same outcome, with the download failure message. |
| IoUtil.AtomicWriteLocal | fabrix/ioutil.py:74-103 | A relative path aborts; a symlink or a non-regular file aborts "must be regular file". When those checks pass but the parent directory is missing, opening the temporary file raises IOError. Success holds iff the path is absolute, any existing file is regular with at most one link, and the parent directory exists. Afterwards the path holds the new content with the old owner and mode (or the creator's for a new file), the temp name is gone, and no other path changed. |
| IoUtil.AtomicWriteRemote | fabrix/ioutil.py:128-151 | The remote replace: a relative path and a non-file abort, the upload must succeed, and a link count above one is refused. A symlink is followed only by the checks and for the owner and mode that are copied. The rename then replaces the link itself by a regular file, as in the local replace. |
| IoUtil.WriteLocalFile | fabrix/ioutil.py:56-62 | Unchanged content (file present and equal) returns "not changed" and leaves the filesystem untouched. Anything else is one atomic write. |
| IoUtil.WriteFile | fabrix/ioutil.py:65-71 | The remote write-if-changed, with the same outcome. |
| IoUtil.WriteLocalThenRead | fabrix/ioutil.py:28-62 | After a successful write, reading the path gives the written content. |
| IoUtil.WriteLocalTwice | fabrix/ioutil.py:56-62 | Writing the same content again reports no change and writes nothing. |
| IoUtil.WriteRemoteTwice | fabrix/ioutil.py:65-71 | The same for the remote write. |
| IoUtil.SymlinkLocalVersusRemote | fabrix/ioutil.py:79-84 | A symlink path is refused by the local replace. The remote replace accepts it and replaces the link by a regular file with the new content and the target's owner and mode. The target itself is unchanged. |
| IoUtil.AtomicWriteLocalMissingDirectory | fabrix/ioutil.py:88-89 | Writing /nodir/f with no /nodir raises IOError at the open of the temporary file. The same write succeeds once /nodir is a directory. |
| IoUtil.CopyFile | fabrix/ioutil.py:183-196 | A missing files directory or a missing source file aborts with its message; otherwise this is a remote write-if-changed of the file's content. |
| IoUtil.RemotePrefix | fabrix/ioutil.py:228-233 | `user@[host]` iff the host has more than one colon, else `user@host`. |
| IoUtil.Rsync | fabrix/ioutil.py:200-245 | A missing files directory, a missing local path or a relative remote path each abort with their message, in that order; success holds iff none applies. The destination is prefix `:` path. "Changed" holds iff no stripped output line is the zero-transfer line. |
| IoUtil.Chown | fabrix/ioutil.py:248-256 | A relative path aborts. The command is `chown --changes owner:group -- path`, and "changed" holds iff the command printed something. |
| IoUtil.Chmod | fabrix/ioutil.py:259-269 | A relative path aborts. An integer mode is written as Python 2's `oct` does, and a string mode is used as given. "Changed" holds iff the command printed something. |
| IoUtil.Oct | fabrix/ioutil.py:264-265 | Zero is `0`. A positive number is `0` followed by octal digits with no leading zero that read back in base 8 as the number; a negative one is `-0` followed by those of its magnitude. |
| IoUtil.OctModes | fabrix/ioutil.py:259-269 | The usual modes are rendered as Python 2's `oct` does: 0644, 0755, 0600, 0. |
| StringOrder.SortUnique | fabrix/rpmyum.py:24 | The result is strictly ascending and has exactly the input's members. |
| StringOrder.StrictlySortedUnique | fabrix/rpmyum.py:24 | Two strictly ascending lists with the same members are equal, so the sorted package list is determined by its set. |
| RpmYum.ParsePackages | fabrix/rpmyum.py:8-30 | The result is strictly ascending, so it is sorted and duplicate-free, and it is non-empty whenever empty is not allowed. |
| RpmYum.ParseSpec | fabrix/rpmyum.py:8-30 | Succeeds iff no leaf is refused and (empty allowed or some word exists). The first refused leaf aborts "unexpected object", and an empty top level aborts "empty list". The packages are exactly the words of all string leaves. |
| RpmYum.CollectSpec | fabrix/rpmyum.py:10-23 | Flattening nested lists succeeds iff no leaf is refused, and it collects exactly the leaf words. |
| RpmYum.TextTokens | fabrix/rpmyum.py:12-16 | Tokenising line by line, after stripping and skipping blank lines, gives the words of the whole string. |
| RpmYum.GroupingIrrelevant | fabrix/rpmyum.py:17-18 | Wrapping the arguments in one more list gives the same packages (nested levels allow empty). |
| RpmYum.IsChanged | fabrix/rpmyum.py:33-41 | "Changed" holds iff no stripped output line is the not-changed marker. |
| RpmYum.YumInstall | fabrix/rpmyum.py:57-60 | Fails iff the package parse fails (empty not allowed). The command is `yum -y install ` plus the sorted packages joined by spaces, and "changed" holds iff no line is "Nothing to do". |
| RpmYum.YumRemove | fabrix/rpmyum.py:76-79 | The same, with `yum -y remove ` and "No Packages marked for removal". |
| RpmYum.YumUpdate | fabrix/rpmyum.py:95-101 | No arguments gives `yum -y update `; empty package lists are allowed; "changed" holds iff no line is "No packages marked for update". |
| Yum.ScanOutput | fabrix/yum.py:37-44 | The inline scan gives the same verdict as `_is_changed`: changed iff no stripped line equals the marker. |
| Yum.Install | fabrix/yum.py:32-44 | Same command and outcome as the `_is_changed` version of `yum_install`. |
| Yum.Remove | fabrix/yum.py:47-59 | Same command and outcome as the `_is_changed` version of `yum_remove`. |
| Yum.Update | fabrix/yum.py:62-77 | No arguments updates everything; otherwise the same as the `_is_changed` version. |
| Passwd.GetUserHomeDirectory | fabrix/passwd.py:15-22 | `None` iff no non-blank line names the user. Otherwise it is the sixth colon field of the first such line, and a line with too few fields crashes with IndexError. |
| Passwd.IsUserExists | fabrix/passwd.py:58-65 | Holds iff some non-blank stripped passwd line has the user as its first field. |
| Passwd.IsUserNotExists | fabrix/passwd.py:77 | Exactly the negation of the user existing. |
| Passwd.IsGroupExists | fabrix/passwd.py:103-110 | Holds iff some non-blank stripped group line has the group as its first field. |
| Passwd.IsGroupNotExists | fabrix/passwd.py:122 | Exactly the negation of the group existing. |
| Passwd.IsUserInGroup | fabrix/passwd.py:142-150 | A missing group gives false. Otherwise membership in the comma-split fourth field of the first line for the group decides. A line with too few fields crashes. |
| Passwd.IsUserNotInGroup | fabrix/passwd.py:156 | Exactly the negation of membership, failing when membership fails. |
| Passwd.CreateUser | fabrix/passwd.py:83-84 | `useradd name --comment name` iff the user does not exist, else nothing. |
| Passwd.RemoveUser | fabrix/passwd.py:90-91 | `userdel name` iff the user exists, else nothing. |
| Passwd.CreateGroup | fabrix/passwd.py:128-129 | `groupadd name` iff the group does not exist, else nothing. |
| Passwd.RemoveGroup | fabrix/passwd.py:135-136 | `groupdel name` iff the group exists, else nothing. |
| Passwd.AddUserToGroup | fabrix/passwd.py:162-163 | `gpasswd --add` iff the user is not in the group, else nothing. |
| Passwd.DeleteUserFromGroup | fabrix/passwd.py:169-170 | `gpasswd --delete` iff the user is in the group, else nothing. |
| Passwd.CreateRemoveUserComplementary | fabrix/passwd.py:83-91 | For any state, exactly one of `create_user` and `remove_user` emits a command. |
| Passwd.CreateRemoveGroupComplementary | fabrix/passwd.py:128-136 | For any state, exactly one of `create_group` and `remove_group` emits a command. |
| Passwd.AddDeleteMemberComplementary | fabrix/passwd.py:162-170 | For any state, exactly one of `add_user_to_group` and `delete_user_from_group` emits a command. |
| Passwd.MissingGroupAddsMember | fabrix/passwd.py:142-170 | For a group that does not exist, membership is false, so `gpasswd --add` is emitted anyway and delete emits nothing. |
| Passwd.KeyLines | fabrix/passwd.py:41-44 | A single line gives its stripped form unless that is blank. No key is empty or holds a newline. |
| Passwd.KeyLinesConcat | fabrix/passwd.py:41-44 | The keys of two runs of lines are those of the first run followed by those of the second. With the one-line case, the keys are the non-blank stripped lines in file order. |
| Passwd.AddKeysSpec | fabrix/passwd.py:41-46 | Appending the keys one by one always passes the idempotence check. The result is exactly `append_line(key, insert_empty_line_before=True)` applied once per key, in order. Every key ends up as a line, and every original line is kept. |
| Passwd.AddPresentKeys | fabrix/passwd.py:41-46 | Keys that are all present already leave the text unchanged. |
| Passwd.AddKeysIdempotent | fabrix/passwd.py:41-46 | Adding the same keys a second time changes nothing. |
| Passwd.AddUserSshAuthorizedKeys | fabrix/passwd.py:32-46 | A user without a passwd entry crashes with AttributeError. On success the target is `home/.ssh/authorized_keys` and the local keys file exists. The new text is the current text with `append_line(key, insert_empty_line_before=True)` applied once per key of the local file, in order, so every key is a line and every current line is kept. |
| Partitions.Headroom | contrib/create-server-partitions/fabfile.py:70-72 | After the halving loop, headroom·1024 ≤ size (the 0.1% rule), headroom ≤ 128 MiB, and it is the largest such halving. |
| Partitions.MdraidMetadata | contrib/create-server-partitions/fabfile.py:64-79 | A multiple of 2048 sectors, at least 2048 and at most 262144 (128 MiB), within one MiB of headroom plus the 24-sector superblock area. |
| Partitions.MdraidMetadataSectors | contrib/create-server-partitions-6-devices/fabfile.py:68-83 | The loop as written terminates and computes the same size: a multiple of 2048 between 2048 and 262144. |
| Partitions.FirstFit | contrib/create-server-partitions/fabfile.py:70-72 | The loop stops at the first halving that fits, and that halving is the headroom. |
| Partitions.NewParted | contrib/create-server-partitions/fabfile.py:57-62 | A new plan is empty, starts at sector 34, and numbers partitions from 1. |
| Partitions.Footprint | contrib/create-server-partitions/fabfile.py:90-97 | A plain partition takes its size. With mdraid or LVM metadata the size must be positive (else AssertionError), and the metadata sizes are added. |
| Partitions.Mkpart | contrib/create-server-partitions/fabfile.py:85-100 | The new partition gets the next number and starts at the current offset. A finite one ends at offset + footprint − 1 and the offset moves just past it; `-1` ends at −34 and exhausts the offset (2^128 − 1). Earlier partitions are unchanged. |
| Partitions.MkpartContiguous | contrib/create-server-partitions-6-devices/fabfile.py:89-104 | A finite partition keeps the plan contiguous: each next start is the previous end plus one. |
| Partitions.ContiguousDisjoint | contrib/create-server-partitions/fabfile.py:85-100 | In a contiguous plan every partition ends before any later one starts. |
| Partitions.CloseContiguous | contrib/create-server-partitions/fabfile.py:85-100 | The open-ended last partition starts right after the previous one, or at sector 34 when it is the first. |
| Partitions.CheckAlignment | contrib/create-server-partitions/fabfile.py:102-111 | One report per device and partition, aligned iff start mod alignment is 0. A zero alignment with something to check crashes with ZeroDivisionError. |
| Partitions.Commit | contrib/create-server-partitions/fabfile.py:113-127 | One `mklabel gpt` per device first, then one `mkpart` per device and partition, in order. |
| Partitions.LayoutMetadata | contrib/create-server-partitions/fabfile.py:146-148 | The 1 GiB boot mirror carries 2048 sectors of metadata, and the 32 GiB LVM mirror 65536. |
| Partitions.CreatePartitionsLayout | contrib/create-server-partitions/fabfile.py:144-149 | The layout is bios_grub (34–2047), boot, LVM and an open-ended zpool, on the given devices. |
| Partitions.CreatePartitionsAligned | contrib/create-server-partitions-6-devices/fabfile.py:149-154 | Alignment to 2048 sectors reports partitions 2–4 aligned and partition 1 not. |
| Partitions.IsLiveCd | contrib/create-server-partitions/fabfile.py:42-48 | Live iff some `mount` line starts with `overlay on / type overlay`. |
| Partitions.IsLiveCdSix | contrib/create-server-partitions-6-devices/fabfile.py:46-52 | Live iff some `mount` line starts with the overlay root or with the aufs root. |
| Partitions.DeviceNames | contrib/create-server-partitions/fabfile.py:136-140 | A name is collected iff it is the stripped form of some `lsblk` line; a blank line contributes the empty name. |
| Partitions.IsDisksHasNoPartitions | contrib/create-server-partitions/fabfile.py:136-141 | Holds iff the listed names are exactly loop0, sda and sdb. |
| Partitions.IsDisksHasNoPartitionsSix | contrib/create-server-partitions-6-devices/fabfile.py:140-146 | Holds iff the names other than loop0 are exactly sda…sdf. |

## Left out

- YAML parsing and the `yaml.dump` text inside messages: `read_config` takes the loader as a parameter. Messages that embed a dumped value use an abstract printer.
- The ` in file X line Y` suffix that fabrix appends to abort messages from `inspect.stack()`, and `debug()` output.
- Regular-expression semantics. Patterns go through an abstract engine, so `_full_line`'s anchoring is not shown to be a true full match for alternations such as `a|b`.
- `replace_line` and `substitute_line` are not idempotent in general (for example `substitute_line("a", "aa")`), so no idempotence lemma is stated for them. `_apply_editors` rejects them at run time instead.
- Config.ParseRoleVars: the "not defined in roles" message at fabrix/config.py:161 formats the whole roles dict. Only the condition is modelled, and the payload goes through the abstract printer.
- Config.RoleEntry, Config.HostVarsEntry and Config.RoleVarsEntry: their contracts state what an accepted entry adds, read off the entry. The order of the per-entry checks and the messages of a refused entry (fabrix/config.py:86-117, 125-145, 153-171) are followed by the bodies but not restated as contracts; `Config.HostList` does state the first-offending-host message.
- Accumulation of the module globals `conf`/`local_conf` across repeated calls: `parse_config` returns a fresh inventory. Python deep copies are values here, so scopes cannot share state.
- Dict and set iteration order: YAML dicts are ordered lists of pairs. Only `insert_line`'s keyword check depends on order, and it sorts the names.
- ACL, extended-attribute and SELinux-context copying (fabrix/ioutil.py:106-125), which run external commands.
- Fabric's `get`/`put` transport for remote reads and writes: it becomes an `uploaded` flag and a download failure.
- The random temp-file suffix (`uuid4().hex`) is a parameter.
- IoUtil.AtomicWriteLocal and IoUtil.AtomicWriteRemote: the temporary name is taken to be unused. Whatever already sits there is overwritten, whereas Python's `open` would fail on a directory or write through a symbolic link. A collision needs a repeated 128-bit `uuid4` suffix.
- `rsync`'s ssh-key, port and option assembly, and running the command: its output is a parameter.
- `create_directory` and `create_file`, which `fabrix/passwd.py` imports, do not exist in this revision of `fabrix/ioutil.py` and are not part of this model.
- Passwd.AddUserSshAuthorizedKeys: modelled up to the new text of `authorized_keys`. The `.ssh` directory and file creation and the `chown`/`chmod` calls (fabrix/passwd.py:34-40) are left out, since the first two call functions this revision does not define.
- `run`, `mount`, `lsblk` and `getent` are parameters holding their output, so host state is not modelled.
- The yum `_parse_packages` in `fabrix/yum.py` is the same code as in `fabrix/rpmyum.py`, so it is modelled once (`RpmYum.ParsePackages`).
- `create_partitions`' follow-up commands (`parted set`, `mdadm`, `pvcreate`, `vgcreate`, `lvcreate`), the `server_*` tasks and their prompts. `check_alignment`'s printed report is modelled as a list of records.
- `fabrix/render.py`, `fabrix/system.py`, `fabrix/api.py`, `setup.py` and `contrib/infrastructure-as-code/fabfile.py` are thin wrappers or orchestration, so they are outside this model.
