/** Saving one image into the vault: `getUniqueFilename` over the set of paths
    that exist, and `saveImage`, which classifies the source, fetches its bytes
    and writes them under a fresh name. The vault, the link index and the
    network are values and oracles here. */
module ImageStore {
  import opened Wrappers
  import opened JsText
  import opened PosixPath

  type Bytes = seq<bv8>

  /** The vault's files by path; a path exists exactly when it is a key. */
  datatype Vault = Vault(files: map<string, Bytes>)

  /** What the host supplies: the link index (`getFirstLinkpathDest`, from a
      link text and the path of the note holding it to the path of the file it
      resolves to), the HTTP fetch (`requestUrl`, bytes or the message of its
      error), and the message a failed local read raises. */
  datatype Env = Env(
    linkIndex: (string, string) -> Option<string>,
    http: string -> Result<Bytes>,
    readError: string -> string)

  // ---------------------------------------------------------------------------
  // Unique file names

  /** The `i`-th alternative name for a taken file name: `name (i)ext` in `dir`. */
  function Candidate(dir: string, name: string, ext: string, i: nat): string {
    JoinPath(dir, name + " (" + Decimal(i) + ")" + ext)
  }

  /** Joining under the same directory is injective. */
  lemma JoinPathInjective(dir: string, x: string, y: string)
    requires JoinPath(dir, x) == JoinPath(dir, y)
    ensures x == y
  {
    if dir != "" && dir != "." && x != "" && y != "" {
      assert x == JoinPath(dir, x)[|dir| + 1..];
      assert y == JoinPath(dir, y)[|dir| + 1..];
    }
  }

  /** Distinct indices give distinct alternative names. */
  lemma CandidateInjective(dir: string, name: string, ext: string, i: nat, j: nat)
    requires Candidate(dir, name, ext, i) == Candidate(dir, name, ext, j)
    ensures i == j
  {
    var x := name + " (" + Decimal(i) + ")" + ext;
    var y := name + " (" + Decimal(j) + ")" + ext;
    JoinPathInjective(dir, x, y);
    var di, dj := Decimal(i), Decimal(j);
    var b := |name| + 2;
    assert forall k :: 0 <= k < |di| ==> x[b + k] == di[k];
    assert forall k :: 0 <= k < |dj| ==> y[b + k] == dj[k];
    assert x[b + |di|] == ')' && y[b + |dj|] == ')';
    assert |di| == |dj|;
    assert di == x[b..b + |di|] == y[b..b + |dj|] == dj;
    DecimalInjective(i, j);
  }

  /** The first `n` alternative names are `n` distinct paths. */
  lemma {:induction false} CandidateCount(dir: string, name: string, ext: string, n: nat)
    ensures |set j | 1 <= j <= n :: Candidate(dir, name, ext, j)| == n
  {
    if n > 0 {
      var before := set j | 1 <= j <= n - 1 :: Candidate(dir, name, ext, j);
      var after := set j | 1 <= j <= n :: Candidate(dir, name, ext, j);
      CandidateCount(dir, name, ext, n - 1);
      assert after == before + {Candidate(dir, name, ext, n)};
      if Candidate(dir, name, ext, n) in before {
        var j :| 1 <= j <= n - 1 && Candidate(dir, name, ext, j) == Candidate(dir, name, ext, n);
        CandidateInjective(dir, name, ext, j, n);
      }
    }
  }

  /** A finite set of existing paths holds at most as many alternative names as
      it has elements: the search for a free one ends. */
  lemma CandidatesBound(existing: set<string>, dir: string, name: string, ext: string, n: nat)
    requires forall j :: 1 <= j <= n ==> Candidate(dir, name, ext, j) in existing
    ensures n <= |existing|
  {
    CandidateCount(dir, name, ext, n);
    var taken := set j | 1 <= j <= n :: Candidate(dir, name, ext, j);
    SubsetCardinality(taken, existing);
  }

  /** A subset is no larger than its superset. */
  lemma {:induction false} SubsetCardinality<T>(a: set<T>, b: set<T>)
    requires a <= b
    ensures |a| <= |b|
    decreases |a|
  {
    if a != {} {
      var x :| x in a;
      SubsetCardinality(a - {x}, b - {x});
    }
  }

  /** The least index `k >= i` whose alternative name is free, given that those
      below `i` are all taken. */
  function FirstFree(existing: set<string>, dir: string, name: string, ext: string, i: nat): (k: nat)
    requires 1 <= i
    requires forall j :: 1 <= j < i ==> Candidate(dir, name, ext, j) in existing
    ensures i <= k && Candidate(dir, name, ext, k) !in existing
    ensures forall j :: 1 <= j < k ==> Candidate(dir, name, ext, j) in existing
    decreases |existing| + 1 - i
  {
    if Candidate(dir, name, ext, i) !in existing then i
    else
      CandidatesBound(existing, dir, name, ext, i);
      FirstFree(existing, dir, name, ext, i + 1)
  }

  /** `getUniqueFilename` over the set of paths that exist (files and folders):
      `dir/base` when it is free, otherwise `dir/name (i)ext` for the least
      `i >= 1` that is free, where `name` and `ext` are the parts `path.parse`
      gives of `base`. */
  function GetUniqueFilename(existing: set<string>, dir: string, base: string): (r: string)
    ensures r !in existing
    ensures JoinPath(dir, base) !in existing ==> r == JoinPath(dir, base)
    ensures JoinPath(dir, base) in existing ==>
              exists i :: 1 <= i && r == Candidate(dir, ParseName(base).0, ParseName(base).1, i)
                && forall j :: 1 <= j < i ==> Candidate(dir, ParseName(base).0, ParseName(base).1, j) in existing
  {
    if JoinPath(dir, base) !in existing then JoinPath(dir, base)
    else
      var (name, ext) := ParseName(base);
      Candidate(dir, name, ext, FirstFree(existing, dir, name, ext, 1))
  }

  /** An alternative name built from single-segment parts is a non-empty single segment. */
  lemma CandidateNameSlashFree(name: string, ext: string, i: nat)
    requires Absent(name, '/', 0, |name|) && Absent(ext, '/', 0, |ext|)
    ensures var n := name + " (" + Decimal(i) + ")" + ext; n != "" && Absent(n, '/', 0, |n|)
  {
    var d := Decimal(i);
    var n := name + " (" + d + ")" + ext;
    assert forall k :: |name| + 2 <= k < |name| + 2 + |d| ==> n[k] == d[k - |name| - 2];
    assert forall k :: |name| + 3 + |d| <= k < |n| ==> n[k] == ext[k - |name| - 3 - |d|];
  }

  /** The chosen path is `dir` joined with its own base name: `base` itself, or
      `base` with ` (i)` put before its extension. The one exception is an empty
      `base` while `dir` itself is free: then the path chosen is `dir`. */
  lemma UniqueNameShape(existing: set<string>, dir: string, base: string)
    requires Absent(base, '/', 0, |base|)
    ensures var r := GetUniqueFilename(existing, dir, base);
            (base != "" || JoinPath(dir, base) in existing) ==>
            && r == JoinPath(dir, BaseName(r))
            && (|| BaseName(r) == base
                || exists i :: 1 <= i && BaseName(r) == ParseName(base).0 + " (" + Decimal(i) + ")" + ParseName(base).1)
  {
    var r := GetUniqueFilename(existing, dir, base);
    var (name, ext) := ParseName(base);
    if base == "" && JoinPath(dir, base) !in existing {
    } else if r == JoinPath(dir, base) {
      BaseNameOfJoin(dir, base);
    } else {
      var i :| 1 <= i && r == Candidate(dir, name, ext, i);
      CandidateNameSlashFree(name, ext, i);
      BaseNameOfJoin(dir, name + " (" + Decimal(i) + ")" + ext);
    }
  }

  /** When `dir/base` is taken and its first alternative is free, the first
      alternative is chosen. */
  lemma FirstAlternative(existing: set<string>, dir: string, base: string)
    requires JoinPath(dir, base) in existing
    requires Candidate(dir, ParseName(base).0, ParseName(base).1, 1) !in existing
    ensures GetUniqueFilename(existing, dir, base) == Candidate(dir, ParseName(base).0, ParseName(base).1, 1)
  {
  }

  /** When `dir/base` and its first alternative are taken and the second is
      free, the second alternative is chosen. */
  lemma SecondAlternative(existing: set<string>, dir: string, base: string)
    requires JoinPath(dir, base) in existing
    requires Candidate(dir, ParseName(base).0, ParseName(base).1, 1) in existing
    requires Candidate(dir, ParseName(base).0, ParseName(base).1, 2) !in existing
    ensures GetUniqueFilename(existing, dir, base) == Candidate(dir, ParseName(base).0, ParseName(base).1, 2)
  {
    var (name, ext) := ParseName(base);
    assert FirstFree(existing, dir, name, ext, 2) == 2;
  }

  /** The first free name for a taken `img.png` puts the counter before the
      extension, and the counter counts up past the names already taken. */
  lemma NumberedBeforeExtension()
    ensures GetUniqueFilename({"d/img.png"}, "d", "img.png") == "d/img (1).png"
    ensures GetUniqueFilename({"d/img.png", "d/img (1).png"}, "d", "img.png") == "d/img (2).png"
  {
    ImgPngParts();
    FirstCandidate();
    SecondCandidate();
    NumberedNamesDiffer();
    assert JoinPath("d", "img.png") == "d/img.png";
    FirstAlternative({"d/img.png"}, "d", "img.png");
    SecondAlternative({"d/img.png", "d/img (1).png"}, "d", "img.png");
  }

  /** The first alternative name for `img.png` in folder `d`. */
  lemma FirstCandidate()
    ensures Candidate("d", "img", ".png", 1) == "d/img (1).png"
  {
    assert Decimal(1) == "1";
    assert "img" + " (" + "1" + ")" + ".png" == "img (1).png";
  }

  /** The second alternative name for `img.png` in folder `d`. */
  lemma SecondCandidate()
    ensures Candidate("d", "img", ".png", 2) == "d/img (2).png"
  {
    assert Decimal(2) == "2";
    assert "img" + " (" + "2" + ")" + ".png" == "img (2).png";
  }

  /** The numbered names differ from each other and from `img.png`. */
  lemma NumberedNamesDiffer()
    ensures "d/img (2).png" !in {"d/img.png", "d/img (1).png"}
    ensures "d/img (1).png" != "d/img.png"
  {
    assert "d/img (2).png"[7] != "d/img (1).png"[7];
  }

  /** `img.png` is its own base name, and `path.parse` splits it at its dot. */
  lemma ImgPngParts()
    ensures BaseName("img.png") == "img.png" && ParseName("img.png") == ("img", ".png")
  {
    var s := "img.png";
    assert Absent(s, '/', 0, 7) && Absent(s, '.', 4, 7);
    assert StripTrailing(s, '/') == 7;
    LastIndexBeforeLast(s, '.', 7, 3);
    assert s != ".." && ExtStart(s) == 3;
    assert s[..3] == "img" && s[3..] == ".png";
  }

  /** An empty base name (a reference whose path trims to nothing) names the
      folder itself, which exists, so the first alternative ` (1)` is chosen. */
  lemma EmptyBaseName()
    ensures GetUniqueFilename({"d"}, "d", "") == "d/ (1)"
  {
    assert BaseName("") == "" && ParseName("") == ("", "");
    assert Decimal(1) == "1";
    assert Candidate("d", "", "", 1) == "d/ (1)";
  }

  // ---------------------------------------------------------------------------
  // Saving an image

  /** Where the bytes of an image come from. */
  datatype Source = Remote(url: string) | Local(path: string)

  /** `src` starts with `http://` or `https://`, letters in either case. */
  predicate IsRemoteUrl(src: string) {
    StartsWithIgnoreCase(src, "http://") || StartsWithIgnoreCase(src, "https://")
  }

  /** How `saveImage` finds the bytes of `src`, referenced from the note at
      `fromPath`: remote URLs are fetched; otherwise the link index decides, and
      when it knows nothing the path is taken relative to the note's folder. */
  function Classify(env: Env, src: string, fromPath: string): (s: Source)
    ensures IsRemoteUrl(src) <==> s == Remote(src)
    ensures !IsRemoteUrl(src) && env.linkIndex(src, fromPath).Some? ==> s == Local(env.linkIndex(src, fromPath).value)
    ensures !IsRemoteUrl(src) && env.linkIndex(src, fromPath).None? ==> s == Local(JoinPath(DirName(fromPath), src))
  {
    if IsRemoteUrl(src) then Remote(src)
    else
      match env.linkIndex(src, fromPath)
      case Some(p) => Local(p)
      case None => Local(JoinPath(DirName(fromPath), src))
  }

  /** The bytes of a source: the HTTP oracle's answer, or the vault's file
      (reading a path that does not exist fails). */
  function Fetch(env: Env, vault: Vault, source: Source): (r: Result<Bytes>)
    ensures source.Local? ==> (r.Success? <==> source.path in vault.files)
    ensures source.Local? && r.Success? ==> r.value == vault.files[source.path]
    ensures source.Remote? ==> r == env.http(source.url)
  {
    match source
    case Remote(url) => env.http(url)
    case Local(p) => if p in vault.files then Success(vault.files[p]) else Failure(env.readError(p))
  }

  /** What a successful save leaves behind: the path written, its base name
      (what `saveImage` returns) and the vault with the new file. */
  datatype Saved = Saved(dest: string, filename: string, vault: Vault)

  /** The paths that exist when an image is saved into `dir`: the vault's files
      and the download folder, which the settings create before any save. */
  function Existing(vault: Vault, dir: string): set<string> {
    vault.files.Keys + {dir}
  }

  /** `saveImage(src, srcFile, dir)`: choose a free destination in `dir` named
      after the base name of `src`, fetch the bytes, write them there and return
      the destination's base name. A failed fetch fails the save and writes
      nothing. */
  function SaveImage(env: Env, vault: Vault, src: string, fromPath: string, dir: string): (r: Result<Saved>)
    ensures r.Success? ==> r.value.dest !in vault.files && r.value.dest != dir
    ensures r.Success? ==> r.value.dest in r.value.vault.files
    ensures r.Success? ==> r.value.vault.files == vault.files[r.value.dest := r.value.vault.files[r.value.dest]]
    ensures r.Success? ==> r.value.filename == BaseName(r.value.dest)
    ensures r.Success? <==> Fetch(env, vault, Classify(env, src, fromPath)).Success?
    ensures r.Failure? ==> r.message == Fetch(env, vault, Classify(env, src, fromPath)).message
  {
    var dest := GetUniqueFilename(Existing(vault, dir), dir, BaseName(src));
    match Fetch(env, vault, Classify(env, src, fromPath))
    case Failure(msg) => Failure(msg)
    case Success(data) => Success(Saved(dest, BaseName(dest), Vault(vault.files[dest := data])))
  }

  /** A successful save writes the fetched bytes at the unique name chosen for
      the base name of `src`, and no other file changes. */
  lemma SaveImageWrites(env: Env, vault: Vault, src: string, fromPath: string, dir: string)
    requires SaveImage(env, vault, src, fromPath, dir).Success?
    ensures var s := SaveImage(env, vault, src, fromPath, dir).value;
            && s.dest == GetUniqueFilename(Existing(vault, dir), dir, BaseName(src))
            && s.vault.files[s.dest] == Fetch(env, vault, Classify(env, src, fromPath)).value
            && s.vault.files.Keys == vault.files.Keys + {s.dest}
            && forall p :: p in vault.files ==> s.vault.files[p] == vault.files[p]
  {
  }

  /** The name returned, put back under a download folder other than the vault
      root, is the path written: the plugin can link to `dir/filename`. This
      holds for an empty base name too, since the folder itself is taken. */
  lemma SavedUnderDir(env: Env, vault: Vault, src: string, fromPath: string, dir: string)
    requires SaveImage(env, vault, src, fromPath, dir).Success?
    requires dir != "" && dir != "."
    ensures var s := SaveImage(env, vault, src, fromPath, dir).value;
            dir + "/" + s.filename == s.dest
  {
    var s := SaveImage(env, vault, src, fromPath, dir).value;
    UniqueNameShape(Existing(vault, dir), dir, BaseName(src));
    assert s.dest == JoinPath(dir, s.filename);
    assert s.filename != "";
  }
}
