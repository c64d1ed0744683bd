/** The helpers of Node's `path` module that the plugin calls, with POSIX
    separators: `basename`, `dirname`, the `name`/`ext` fields of `parse`, and
    `join` (followed by the host's `normalizePath`), the last one simplified.
    `dirname` and `join` are the `path.posix` ones the plugin names; `basename`
    and `parse` are the platform's, modelled here as on POSIX. */
module PosixPath {
  import opened Wrappers
  import opened JsText

  /** Length of `s` once its trailing `c` characters are removed. */
  function StripTrailing(s: string, c: char): (n: nat)
    ensures n <= |s| && forall k :: n <= k < |s| ==> s[k] == c
    ensures n > 0 ==> s[n - 1] != c
  {
    if |s| == 0 || s[|s| - 1] != c then |s| else StripTrailing(s[..|s| - 1], c)
  }

  /** `path.basename(p)` on POSIX: the last segment, trailing separators ignored. */
  function BaseName(p: string): (b: string)
    ensures Absent(b, '/', 0, |b|)
  {
    var e := StripTrailing(p, '/');
    match LastIndexBefore(p, '/', e)
    case Some(k) => p[k + 1..e]
    case None => p[..e]
  }

  /** The base name of a separator-free, non-empty segment joined under a directory
      is that segment. */
  lemma BaseNameOfJoin(dir: string, name: string)
    requires name != "" && Absent(name, '/', 0, |name|)
    ensures BaseName(JoinPath(dir, name)) == name
  {
    var p := JoinPath(dir, name);
    var e := StripTrailing(p, '/');
    assert p[|p| - 1] == name[|name| - 1];
    assert e == |p|;
    if p != name {
      assert p[|dir|] == '/';
      assert forall k :: |dir| < k < |p| ==> p[k] == name[k - |dir| - 1];
      LastIndexBeforeLast(p, '/', e, |dir|);
      assert p[|dir| + 1..] == name;
    }
  }

  /** Where `path.parse` starts the extension of a separator-free name: at its
      last `.`, unless that dot is the first character or the name is `..`. */
  function ExtStart(base: string): (i: nat)
    ensures i <= |base|
    ensures i < |base| ==> 0 < i && base[i] == '.' && Absent(base, '.', i + 1, |base|)
    ensures i == |base| <==> Absent(base, '.', 1, |base|) || base == ".."
  {
    match LastIndexBefore(base, '.', |base|)
    case None => |base|
    case Some(d) => if d == 0 || base == ".." then |base| else d
  }

  /** `path.parse(p)` on POSIX, reduced to its `name` and `ext` fields; together
      they spell the base name. The extension is empty exactly when the base name
      has no dot after its first character or is `..`; otherwise it runs from
      the last dot to the end. */
  function ParseName(p: string): (r: (string, string))
    ensures r.0 + r.1 == BaseName(p)
    ensures r.1 == "" <==> Absent(BaseName(p), '.', 1, |BaseName(p)|) || BaseName(p) == ".."
    ensures r.1 != "" ==> r.0 != "" && r.1[0] == '.' && Absent(r.1, '.', 1, |r.1|)
    ensures Absent(r.0, '/', 0, |r.0|) && Absent(r.1, '/', 0, |r.1|)
  {
    var base := BaseName(p);
    var i := ExtStart(base);
    var name, ext := base[..i], base[i..];
    assert name + ext == base;
    assert forall k :: 0 <= k < |name| ==> name[k] == base[k];
    assert forall k :: 0 <= k < |ext| ==> ext[k] == base[i + k];
    (name, ext)
  }

  /** `path.posix.dirname(p)`: everything before the last segment, `.` when there
      is no separator, and `/` or `//` for the rooted corner cases. */
  function DirName(p: string): (d: string)
    ensures d != ""
    ensures Absent(p, '/', 0, |p|) ==> d == "."
  {
    if |p| == 0 then "."
    else
      var e := StripTrailing(p, '/');
      var cut := if e >= 2 then LastIndexBefore(p, '/', e) else None;
      if cut.None? || cut.value == 0 then (if p[0] == '/' then "/" else ".")
      else if p[0] == '/' && cut.value == 1 then "//"
      else p[..cut.value]
  }

  /** The directory of a segment joined under a folder path (one that neither
      is the vault root nor ends with a separator) is that folder. */
  lemma DirNameOfJoin(dir: string, name: string)
    requires dir != "" && dir != "." && dir[|dir| - 1] != '/'
    requires name != "" && Absent(name, '/', 0, |name|)
    ensures DirName(JoinPath(dir, name)) == dir
  {
    var p := JoinPath(dir, name);
    assert p[|p| - 1] == name[|name| - 1];
    assert StripTrailing(p, '/') == |p|;
    assert p[|dir|] == '/';
    assert forall k :: |dir| < k < |p| ==> p[k] == name[k - |dir| - 1];
    LastIndexBeforeLast(p, '/', |p|, |dir|);
    assert p[..|dir|] == dir;
  }

  /** `normalizePath(path.posix.join(dir, name))` for a normalized `dir` and a
      relative `name`: the vault root (`""` or `.`) adds no prefix, and an empty
      name leaves `dir` itself (`path.posix.join` skips empty segments). */
  function JoinPath(dir: string, name: string): string {
    if dir == "" || dir == "." then name
    else if name == "" then dir
    else dir + "/" + name
  }
}
