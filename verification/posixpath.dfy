/**
 * The `os.path` functions (POSIX flavour, Python 2.7) that the inventory loader
 * and the file helpers use to build paths.
 */
module PosixPath {
  import opened Text

  /** `os.path.isabs(p)`. */
  predicate IsAbs(p: string)
  {
    |p| > 0 && p[0] == '/'
  }

  /** `s.rfind(c)`: the last index of `c` in `s`, or -1. */
  function RFind(s: string, c: char): (r: int)
    ensures -1 <= r < |s|
    ensures r >= 0 ==> s[r] == c
    ensures forall i :: r < i < |s| ==> s[i] != c
  {
    if |s| == 0 then -1
    else if s[|s| - 1] == c then |s| - 1
    else RFind(s[..|s| - 1], c)
  }

  predicate AllSlashes(s: string)
  {
    forall i :: 0 <= i < |s| ==> s[i] == '/'
  }

  /** `os.path.dirname(p)`: the text before the last slash, trailing slashes trimmed unless all slashes. */
  function Dirname(p: string): string
  {
    var head := p[..RFind(p, '/') + 1];
    if |head| > 0 && !AllSlashes(head) then StripRight(head, {'/'}) else head
  }

  /** `os.path.basename(p)`: the text after the last slash. */
  function Basename(p: string): string
  {
    p[RFind(p, '/') + 1..]
  }

  /** Whether `p[from..upto]` holds a character other than a dot. */
  predicate HasNonDot(p: string, from: int, upto: int)
    requires 0 <= from <= upto <= |p|
  {
    exists i :: from <= i < upto && p[i] != '.'
  }

  /** `os.path.splitext(p)`: the root and the extension (from the last dot of the last component, leading dots excepted). */
  function Splitext(p: string): (r: (string, string))
    ensures r.0 + r.1 == p
  {
    var sepIndex := RFind(p, '/');
    var dotIndex := RFind(p, '.');
    if dotIndex > sepIndex && HasNonDot(p, sepIndex + 1, dotIndex) then
      assert p[..dotIndex] + p[dotIndex..] == p;
      (p[..dotIndex], p[dotIndex..])
    else (p, "")
  }

  /** `os.path.join(a, b)`. */
  function PathJoin(a: string, b: string): (r: string)
    ensures IsAbs(b) ==> r == b
  {
    if IsAbs(b) then b
    else if |a| == 0 || a[|a| - 1] == '/' then a + b
    else a + "/" + b
  }
}
