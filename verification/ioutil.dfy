/**
 * File helpers of fabrix: reads that report absence, writes that happen only
 * when the content changes, the atomic replace (write a temporary sibling,
 * copy owner and mode, rename over), and the argument checks and output scans
 * of `rsync`, `chown` and `chmod`.
 *
 * A filesystem (local or remote) is a map from absolute path to entry.
 * Symbolic links are resolved the way `stat` does, giving up after 40 hops.
 */
module IoUtil {
  import opened Results
  import opened Text
  import opened PosixPath
  import opened Values

  datatype Owner = Owner(uid: int, gid: int)

  datatype Entry =
    | Regular(content: string, nlink: nat, owner: Owner, mode: int)
    | Symlink(target: string)
    | Directory

  type FileSystem = map<string, Entry>

  /** Linux gives up resolving a path (ELOOP) after this many symbolic links. */
  const MaxSymlinkHops: nat := 40

  datatype Resolved = Found(entry: Entry) | Missing | Loop

  /** What `stat` (which follows links) sees at `p`. */
  function Resolve(fs: FileSystem, p: string, hops: nat): (r: Resolved)
    ensures r.Found? ==> !r.entry.Symlink?
    ensures p in fs && !fs[p].Symlink? ==> r == Found(fs[p])
    ensures p !in fs ==> r == Missing
    decreases hops
  {
    if p !in fs then Missing
    else match fs[p]
      case Symlink(target) => if hops == 0 then Loop else Resolve(fs, target, hops - 1)
      case e => Found(e)
  }

  function Stat(fs: FileSystem, p: string): Resolved
  {
    Resolve(fs, p, MaxSymlinkHops)
  }

  /** `os.path.exists` and the shell's `[ -e p ]`: false for a dangling link or a loop. */
  predicate PathExists(fs: FileSystem, p: string)
  {
    Stat(fs, p).Found?
  }

  /** `os.path.isfile` and `[ -f p ]`: the path resolves to a regular file. */
  predicate IsFile(fs: FileSystem, p: string)
  {
    Stat(fs, p).Found? && Stat(fs, p).entry.Regular?
  }

  predicate IsDir(fs: FileSystem, p: string)
  {
    Stat(fs, p).Found? && Stat(fs, p).entry.Directory?
  }

  /** `os.path.islink`: the path itself is a symbolic link. */
  predicate IsLink(fs: FileSystem, p: string)
  {
    p in fs && fs[p].Symlink?
  }

  /** The link count `stat --format %h` prints without `-L`: that of the path's own inode. */
  function OwnLinkCount(fs: FileSystem, p: string): nat
  {
    if p in fs && fs[p].Regular? then fs[p].nlink else 1
  }

  /** Name of the temporary sibling an atomic write creates; `hex` stands for `uuid4().hex`. */
  function TempName(p: string, hex: string): string
  {
    p + ".tmp." + hex + ".tmp"
  }

  // ---------------------------------------------------------------------------
  // Reading
  // ---------------------------------------------------------------------------

  /** The text of the `IOError` that `open(p)` raises for a path that is not a readable file. */
  function OpenErrorText(fs: FileSystem, p: string): string
  {
    match Stat(fs, p)
    case Found(_) => "[Errno 21] Is a directory: '" + p + "'"
    case Missing => "[Errno 2] No such file or directory: '" + p + "'"
    case Loop => "[Errno 40] Too many levels of symbolic links: '" + p + "'"
  }

  /** `read_local_file`: the content, or `None` / an abort when the file cannot be opened. */
  function ReadLocalFile(fs: FileSystem, p: string, abortOnError: bool): (r: Result<Option<string>>)
    ensures r.Ok? && r.value.Some? <==> IsFile(fs, p)
    ensures r.Ok? && r.value.Some? ==> r.value.value == Stat(fs, p).entry.content
    ensures r.Err? <==> !IsFile(fs, p) && abortOnError
    ensures r.Err? ==> r.error.Abort?
  {
    if IsFile(fs, p) then Ok(Some(Stat(fs, p).entry.content))
    else if abortOnError then Fail(OpenErrorText(fs, p))
    else Ok(None)
  }

  /** `read_file`: a download from `host`, which fails unless the remote path is a regular file. */
  function ReadFile(fs: FileSystem, p: string, host: string, abortOnError: bool): (r: Result<Option<string>>)
    ensures r.Ok? && r.value.Some? <==> IsFile(fs, p)
    ensures r.Ok? && r.value.Some? ==> r.value.value == Stat(fs, p).entry.content
    ensures r.Err? <==> !IsFile(fs, p) && abortOnError
    ensures r.Err? ==> r.error == Abort("downloading file " + p + " from host " + host + " failed")
  {
    if IsFile(fs, p) then Ok(Some(Stat(fs, p).entry.content))
    else if abortOnError then Fail("downloading file " + p + " from host " + host + " failed")
    else Ok(None)
  }

  // ---------------------------------------------------------------------------
  // Atomic replacement
  // ---------------------------------------------------------------------------

  /**
   * What a successful atomic write leaves behind: the temporary file renamed
   * over `p`, carrying the copied owner and mode.
   */
  ghost predicate Replaced(fs: FileSystem, fs': FileSystem, p: string, tmp: string, content: string, owner: Owner, mode: int)
  {
    && p in fs' && fs'[p] == Regular(content, 1, owner, mode)
    && (tmp !in fs' || tmp == p)
    && forall q :: q != p && q != tmp ==> (q in fs' <==> q in fs) && (q in fs ==> fs'[q] == fs[q])
  }

  function HardlinksMessage(p: string, nlink: int): string
  {
    "file \"" + p + "\" has " + IntToString(nlink) + " hardlinks, it can't be atomically written"
  }

  /**
   * `_atomic_write_local_file`. `hex` stands for the random temporary suffix
   * (hex digits, so the temporary file lies in the directory of `p`, and
   * `open` of it raises `IOError` when that directory is missing);
   * `creator` and `createMode` are the owner and mode a freshly created file gets.
   */
  function AtomicWriteLocal(fs: FileSystem, p: string, content: string, hex: string,
                            creator: Owner, createMode: int): (r: Result<FileSystem>)
    ensures !IsAbs(p) ==> r == Fail("local filename must be absolute, \"" + p + "\" given")
    ensures IsAbs(p) && PathExists(fs, p) && (!IsFile(fs, p) || IsLink(fs, p)) ==>
      r == Fail("local filename must be regular file, \"" + p + "\" given")
    ensures (&& IsAbs(p) && (PathExists(fs, p) ==> !IsLink(fs, p) && IsFile(fs, p) && fs[p].nlink <= 1)
             && !IsDir(fs, Dirname(p))) ==> r == Raise("IOError")
    ensures r.Ok? <==>
      && IsAbs(p) && (PathExists(fs, p) ==> !IsLink(fs, p) && IsFile(fs, p) && fs[p].nlink <= 1)
      && IsDir(fs, Dirname(p))
    ensures r.Ok? && PathExists(fs, p) ==>
      Replaced(fs, r.value, p, TempName(p, hex), content, fs[p].owner, fs[p].mode)
    ensures r.Ok? && !PathExists(fs, p) ==>
      Replaced(fs, r.value, p, TempName(p, hex), content, creator, createMode)
  {
    if !IsAbs(p) then Fail("local filename must be absolute, \"" + p + "\" given")
    else
      var present := PathExists(fs, p);
      if present && (!IsFile(fs, p) || IsLink(fs, p)) then
        Fail("local filename must be regular file, \"" + p + "\" given")
      else if present && fs[p].nlink > 1 then
        Fail(HardlinksMessage(p, fs[p].nlink))
      else if !IsDir(fs, Dirname(p)) then
        Raise("IOError")
      else
        var tmp := TempName(p, hex);
        var written := fs[tmp := Regular(content, 1, creator, createMode)];
        var copied := if present then written[tmp := Regular(content, 1, fs[p].owner, fs[p].mode)] else written;
        Ok(Rename(copied, tmp, p))
  }

  /** `os.rename(src, dst)` and `mv -f -- src dst`: `dst` (even a symbolic link) is replaced by `src`'s entry. */
  function Rename(fs: FileSystem, src: string, dst: string): (r: FileSystem)
    requires src in fs
    ensures dst in r && r[dst] == fs[src]
    ensures src != dst ==> src !in r
    ensures forall q :: q != src && q != dst ==> (q in r <==> q in fs) && (q in fs ==> r[q] == fs[q])
  {
    (fs - {src})[dst := fs[src]]
  }

  /**
   * `_atomic_write_file`, on the remote filesystem. `uploaded` is whether the
   * upload of the temporary file succeeded. Unlike the local variant the checks
   * are shell tests that follow symbolic links, so a link to a regular file is
   * accepted and then replaced by the rename.
   */
  function AtomicWriteRemote(fs: FileSystem, p: string, content: string, hex: string, host: string,
                             uploaded: bool, creator: Owner, createMode: int): (r: Result<FileSystem>)
    ensures !IsAbs(p) ==> r == Fail("remote filename must be absolute, \"" + p + "\" given")
    ensures IsAbs(p) && PathExists(fs, p) && !IsFile(fs, p) ==>
      r == Fail("remote filename must be regular file, \"" + p + "\" given")
    ensures r.Ok? <==>
      IsAbs(p) && uploaded && (PathExists(fs, p) ==> IsFile(fs, p) && OwnLinkCount(fs, p) <= 1)
    ensures r.Ok? && PathExists(fs, p) ==>
      Replaced(fs, r.value, p, TempName(p, hex), content, Stat(fs, p).entry.owner, Stat(fs, p).entry.mode)
    ensures r.Ok? && !PathExists(fs, p) ==>
      Replaced(fs, r.value, p, TempName(p, hex), content, creator, createMode)
  {
    if !IsAbs(p) then Fail("remote filename must be absolute, \"" + p + "\" given")
    else
      var present := PathExists(fs, p);
      if present && !IsFile(fs, p) then
        Fail("remote filename must be regular file, \"" + p + "\" given")
      else if present && OwnLinkCount(fs, p) > 1 then
        Fail(HardlinksMessage(p, OwnLinkCount(fs, p)))
      else
        var tmp := TempName(p, hex);
        if !uploaded then Fail("uploading file " + tmp + " to host " + host + " failed")
        else
          var written := fs[tmp := Regular(content, 1, creator, createMode)];
          var copied :=
            if present then written[tmp := Regular(content, 1, Stat(fs, p).entry.owner, Stat(fs, p).entry.mode)]
            else written;
          Ok(Rename(copied, tmp, p))
  }

  // ---------------------------------------------------------------------------
  // Write if changed
  // ---------------------------------------------------------------------------

  /** `write_local_file`: `(changed, filesystem after)`; nothing is written when the content is already there. */
  function WriteLocalFile(fs: FileSystem, p: string, content: string, hex: string,
                          creator: Owner, createMode: int): (r: Result<(bool, FileSystem)>)
    ensures IsFile(fs, p) && Stat(fs, p).entry.content == content <==> r == Ok((false, fs))
    ensures r.Ok? && r.value.0 ==> AtomicWriteLocal(fs, p, content, hex, creator, createMode) == Ok(r.value.1)
    ensures r.Err? ==> AtomicWriteLocal(fs, p, content, hex, creator, createMode) == Err(r.error)
  {
    var current := ReadLocalFile(fs, p, false);
    if current == Ok(Some(content)) then Ok((false, fs))
    else
      var fs' :- AtomicWriteLocal(fs, p, content, hex, creator, createMode);
      Ok((true, fs'))
  }

  /** `write_file`: the remote counterpart of `WriteLocalFile`. */
  function WriteFile(fs: FileSystem, p: string, content: string, hex: string, host: string,
                     uploaded: bool, creator: Owner, createMode: int): (r: Result<(bool, FileSystem)>)
    ensures IsFile(fs, p) && Stat(fs, p).entry.content == content <==> r == Ok((false, fs))
    ensures r.Ok? && r.value.0 ==>
      AtomicWriteRemote(fs, p, content, hex, host, uploaded, creator, createMode) == Ok(r.value.1)
    ensures r.Err? ==> AtomicWriteRemote(fs, p, content, hex, host, uploaded, creator, createMode) == Err(r.error)
  {
    var current := ReadFile(fs, p, host, false);
    if current == Ok(Some(content)) then Ok((false, fs))
    else
      var fs' :- AtomicWriteRemote(fs, p, content, hex, host, uploaded, creator, createMode);
      Ok((true, fs'))
  }

  /** After a successful local write the path reads back as exactly the new content. */
  lemma WriteLocalThenRead(fs: FileSystem, p: string, content: string, hex: string, creator: Owner, createMode: int)
    requires WriteLocalFile(fs, p, content, hex, creator, createMode).Ok?
    ensures var fs' := WriteLocalFile(fs, p, content, hex, creator, createMode).value.1;
            ReadLocalFile(fs', p, true) == Ok(Some(content))
  {
  }

  /** Writing the same content twice: the second write reports no change and leaves the filesystem alone. */
  lemma WriteLocalTwice(fs: FileSystem, p: string, content: string, hex1: string, hex2: string,
                        creator: Owner, createMode: int)
    requires WriteLocalFile(fs, p, content, hex1, creator, createMode).Ok?
    ensures var fs' := WriteLocalFile(fs, p, content, hex1, creator, createMode).value.1;
            WriteLocalFile(fs', p, content, hex2, creator, createMode) == Ok((false, fs'))
  {
  }

  /** The remote counterpart of `WriteLocalTwice`. */
  lemma WriteRemoteTwice(fs: FileSystem, p: string, content: string, hex1: string, hex2: string, host: string,
                         uploaded: bool, creator: Owner, createMode: int)
    requires WriteFile(fs, p, content, hex1, host, uploaded, creator, createMode).Ok?
    ensures var fs' := WriteFile(fs, p, content, hex1, host, uploaded, creator, createMode).value.1;
            WriteFile(fs', p, content, hex2, host, true, creator, createMode) == Ok((false, fs'))
  {
  }

  /**
   * The two atomic writes disagree on a symbolic link to a regular file: the
   * local one refuses it, the remote one replaces the link itself by a regular
   * file holding the new content and the link target's owner and mode, and
   * leaves the target untouched.
   */
  lemma SymlinkLocalVersusRemote(content: string, hex: string, creator: Owner, createMode: int)
    ensures var fs := map["/etc/real" := Regular("old\n", 1, Owner(0, 0), 420), "/etc/link" := Symlink("/etc/real")];
            && AtomicWriteLocal(fs, "/etc/link", content, hex, creator, createMode)
                 == Fail("local filename must be regular file, \"/etc/link\" given")
            && AtomicWriteRemote(fs, "/etc/link", content, hex, "h", true, creator, createMode).Ok?
            && AtomicWriteRemote(fs, "/etc/link", content, hex, "h", true, creator, createMode).value["/etc/link"]
                 == Regular(content, 1, Owner(0, 0), 420)
            && AtomicWriteRemote(fs, "/etc/link", content, hex, "h", true, creator, createMode).value["/etc/real"]
                 == fs["/etc/real"]
  {
    var fs := map["/etc/real" := Regular("old\n", 1, Owner(0, 0), 420), "/etc/link" := Symlink("/etc/real")];
    assert IsAbs("/etc/link") && IsLink(fs, "/etc/link");
    assert Stat(fs, "/etc/link") == Found(Regular("old\n", 1, Owner(0, 0), 420));
    assert PathExists(fs, "/etc/link");
    assert "local filename must be regular file, \"" + "/etc/link" + "\" given"
      == "local filename must be regular file, \"/etc/link\" given";
  }

  /** A write into a directory that does not exist fails when the temporary file is opened. */
  lemma AtomicWriteLocalMissingDirectory(content: string, hex: string, creator: Owner, createMode: int)
    ensures AtomicWriteLocal(map[], "/nodir/f", content, hex, creator, createMode) == Raise("IOError")
    ensures AtomicWriteLocal(map["/nodir" := Directory], "/nodir/f", content, hex, creator, createMode).Ok?
  {
    assert IsAbs("/nodir/f");
    assert Dirname("/nodir/f") == "/nodir" by {
      assert RFind("/nodir/f", '/') == 6;
      assert "/nodir/f"[..7] == "/nodir/" && "/nodir/"[..6] == "/nodir";
      assert !AllSlashes("/nodir/") by { assert "/nodir/"[1] != '/'; }
      assert StripRight("/nodir/", {'/'}) == StripRight("/nodir", {'/'}) == "/nodir";
    }
  }

  /** `copy_file`: copy `files/<name>` next to the fabfile to a remote path, writing only if it differs. */
  function CopyFile(local: FileSystem, remote: FileSystem, realFabfile: string, name: string, remotePath: string,
                    hex: string, host: string, uploaded: bool, creator: Owner, createMode: int): (r: Result<(bool, FileSystem)>)
    ensures var filesDir := PathJoin(Dirname(realFabfile), "files");
      && (!IsDir(local, filesDir) ==> r == Fail("copy_file: files dir '" + filesDir + "' not exists"))
      && (IsDir(local, filesDir) && !IsFile(local, PathJoin(filesDir, name)) ==>
            r == Fail("copy_file: file '" + PathJoin(filesDir, name) + "' not exists"))
      && (IsDir(local, filesDir) && IsFile(local, PathJoin(filesDir, name)) ==>
            r == WriteFile(remote, remotePath, Stat(local, PathJoin(filesDir, name)).entry.content,
                           hex, host, uploaded, creator, createMode))
  {
    var filesDir := PathJoin(Dirname(realFabfile), "files");
    if !IsDir(local, filesDir) then Fail("copy_file: files dir '" + filesDir + "' not exists")
    else
      var source := PathJoin(filesDir, name);
      if !IsFile(local, source) then Fail("copy_file: file '" + source + "' not exists")
      else
        var read := ReadLocalFile(local, source, true);
        WriteFile(remote, remotePath, read.value.value, hex, host, uploaded, creator, createMode)
  }

  // ---------------------------------------------------------------------------
  // rsync, chown, chmod
  // ---------------------------------------------------------------------------

  /** The rsync statistics line that says nothing was transferred. */
  const ZeroTransferLine := "Total transferred file size: 0 bytes"

  /** The `user@host` rsync destination prefix; an IPv6 address (two or more colons) is bracketed. */
  function RemotePrefix(user: string, host: string): (r: string)
    ensures CountChar(host, ':') > 1 <==> r == user + "@[" + host + "]"
    ensures CountChar(host, ':') <= 1 <==> r == user + "@" + host
  {
    if CountChar(host, ':') > 1 then
      assert (user + "@[" + host + "]")[|user| + 1] == '[';
      assert |user + "@" + host| != |user + "@[" + host + "]"|;
      user + "@[" + host + "]"
    else
      assert |user + "@" + host| != |user + "@[" + host + "]"|;
      user + "@" + host
  }

  datatype Synced = Synced(destination: string, changed: bool)

  /**
   * `rsync(local_path, remote_path)`: the argument checks in order, the
   * destination argument, and whether the transfer changed anything, given
   * the captured output `stdout` of the rsync run.
   */
  method Rsync(local: FileSystem, realFabfile: string, localPath: string, remotePath: string,
               user: string, host: string, stdout: string) returns (r: Result<Synced>)
    ensures var filesDir := PathJoin(Dirname(realFabfile), "files");
      && (!IsDir(local, filesDir) ==> r == Fail("rsync: files dir '" + filesDir + "' not exists"))
      && (IsDir(local, filesDir) && !PathExists(local, PathJoin(filesDir, localPath)) ==>
            r == Fail("rsync: local path '" + PathJoin(filesDir, localPath) + "' not exists"))
      && (IsDir(local, filesDir) && PathExists(local, PathJoin(filesDir, localPath)) && !IsAbs(remotePath) ==>
            r == Fail("rsync: remote path '" + remotePath + "' must be absolute"))
      && (r.Ok? <==> IsDir(local, filesDir) && PathExists(local, PathJoin(filesDir, localPath)) && IsAbs(remotePath))
    ensures r.Ok? ==> r.value.destination == RemotePrefix(user, host) + ":" + remotePath
    ensures r.Ok? ==> (r.value.changed <==> !HasStrippedLine(stdout, ZeroTransferLine))
  {
    var filesDir := PathJoin(Dirname(realFabfile), "files");
    if !IsDir(local, filesDir) {
      return Fail("rsync: files dir '" + filesDir + "' not exists");
    }
    var localAbsPath := PathJoin(filesDir, localPath);
    if !PathExists(local, localAbsPath) {
      return Fail("rsync: local path '" + localAbsPath + "' not exists");
    }
    if !IsAbs(remotePath) {
      return Fail("rsync: remote path '" + remotePath + "' must be absolute");
    }
    var zero := ScanStrippedLines(stdout, ZeroTransferLine);
    return Ok(Synced(RemotePrefix(user, host) + ":" + remotePath, !zero));
  }

  /** A remote command and whether it reported a change (non-empty output). */
  datatype Ran = Ran(command: string, changed: bool)

  /** `chown(path, owner, group)`; `run` gives the output of a remote command. */
  function Chown(p: string, owner: string, group: string, run: string -> string): (r: Result<Ran>)
    ensures !IsAbs(p) <==> r == Fail("chown: remote path '" + p + "' must be absolute")
    ensures r.Ok? ==>
      r.value.command == "chown --changes " + Strip(owner, Whitespace) + ":" + Strip(group, Whitespace) + " -- " + p
    ensures r.Ok? ==> (r.value.changed <==> run(r.value.command) != "")
  {
    if !IsAbs(p) then Fail("chown: remote path '" + p + "' must be absolute")
    else
      var command := "chown --changes " + Strip(owner, Whitespace) + ":" + Strip(group, Whitespace) + " -- " + p;
      Ok(Ran(command, run(command) != ""))
  }

  /** Python 2's `oct(n)`: a leading `0` before the octal digits, `0` itself for zero. */
  function Oct(n: int): (r: string)
    ensures |r| > 0
    ensures n == 0 <==> r == "0"
    ensures n > 0 ==> |r| >= 2 && r[0] == '0' && r[1] != '0' && IsOctal(r[1..]) && OctValue(r[1..]) == n
    ensures n < 0 ==> |r| >= 3 && r[..2] == "-0" && r[2] != '0' && IsOctal(r[2..]) && OctValue(r[2..]) == -n
  {
    if n == 0 then "0"
    else if n > 0 then
      OctDigitsRoundTrip(n);
      var r := "0" + OctDigits(n);
      assert r[1..] == OctDigits(n);
      r
    else
      OctDigitsRoundTrip(-n);
      var r := "-0" + OctDigits(-n);
      assert r[2..] == OctDigits(-n);
      r
  }

  /** `chmod(path, mode)`: a number (a bool counts as one) is written in octal; a string is passed as is. */
  function Chmod(p: string, mode: Value, run: string -> string): (r: Result<Ran>)
    ensures !IsAbs(p) ==> r == Fail("chmod: remote path '" + p + "' must be absolute")
    ensures IsAbs(p) && mode.Int? ==> r.Ok? && r.value.command == "chmod --changes " + Oct(mode.i) + " -- " + p
    ensures IsAbs(p) && mode.Bool? ==>
      r.Ok? && r.value.command == "chmod --changes " + (if mode.b then "01" else "0") + " -- " + p
    ensures IsAbs(p) && mode.Str? ==> r.Ok? && r.value.command == "chmod --changes " + mode.s + " -- " + p
    ensures IsAbs(p) && !(mode.Int? || mode.Bool? || mode.Str?) ==> r == Raise("TypeError")
    ensures r.Ok? ==> (r.value.changed <==> run(r.value.command) != "")
  {
    if !IsAbs(p) then Fail("chmod: remote path '" + p + "' must be absolute")
    else
      var text: Result<string> := match mode
        case Int(i) => Ok(Oct(i))
        case Bool(b) => Ok(Oct(if b then 1 else 0))
        case Str(s) => Ok(s)
        case _ => Raise("TypeError");
      var m :- text;
      var command := "chmod --changes " + m + " -- " + p;
      Ok(Ran(command, run(command) != ""))
  }

  /** The octal form `chmod` passes for the usual file modes. */
  lemma OctModes()
    ensures Oct(420) == "0644" && Oct(493) == "0755" && Oct(384) == "0600" && Oct(0) == "0"
  {
    assert OctDigits(420) == "644" by {
      assert OctDigits(52) == "64" by { assert OctDigits(6) == "6"; }
    }
    assert OctDigits(493) == "755" by {
      assert OctDigits(61) == "75" by { assert OctDigits(7) == "7"; }
    }
    assert OctDigits(384) == "600" by {
      assert OctDigits(48) == "60" by { assert OctDigits(6) == "6"; }
    }
  }
}
