/** The plugin's per-note rewrite (`processFile`), its vault-wide aggregate and
    the summary it shows. A note's references are walked from the last to the
    first; each one is skipped, rewritten to point at a saved copy, or reported
    as an error. */
module DownloadPlugin {
  import opened Wrappers
  import opened JsText
  import opened ImageLinks
  import opened ImageStore

  /** What happened to one reference. */
  datatype Outcome = Skipped | Rewritten(filename: string) | Failed(message: string)

  /** The walk's state: the note's current text, the vault, the counters, and
      the outcomes of the references handled so far (first reference first). */
  datatype WalkState = WalkState(content: string, vault: Vault, success: nat, errors: seq<string>, outcomes: seq<Outcome>)

  /** The result of `processFile`: the counters it returns, the new text of the
      note if it was written, the vault after the saves, and each reference's
      outcome (in reference order). */
  datatype FileReport = FileReport(total: nat, success: nat, errors: seq<string>, written: Option<string>, vault: Vault, outcomes: seq<Outcome>)

  /** `content.slice(0, start) + piece + content.slice(end)`, with the clamping of
      `slice` for indices past the end. */
  function Splice(content: string, start: nat, end: nat, piece: string): (r: string)
    ensures start <= end <= |content| ==>
              |r| == |content| - (end - start) + |piece| && r[..start] == content[..start]
              && r[start..start + |piece|] == piece && r[start + |piece|..] == content[end..]
  {
    var a := if start <= |content| then start else |content|;
    var b := if end <= |content| then end else |content|;
    var r := content[..a] + piece + content[b..];
    assert r[..a] == content[..a] && r[a..a + |piece|] == piece && r[a + |piece|..] == content[b..];
    r
  }

  /** The save operation the walk calls: from the vault and a reference's path
      to a failure or to what was saved. */
  type Saver = (Vault, string) -> Result<Saved>

  /** `saveImage` for the references of the note at `fromPath`, into `dir`. */
  function SaverFor(env: Env, fromPath: string, dir: string): (save: Saver)
    ensures forall v, src :: save(v, src) == SaveImage(env, v, src, fromPath, dir)
  {
    (v: Vault, src: string) => SaveImage(env, v, src, fromPath, dir)
  }

  /** A save that succeeds adds one file at a path that did not exist and
      changes no other file. */
  ghost predicate AddsOneFile(save: Saver) {
    forall v: Vault, src: string :: save(v, src).Success? ==>
      && save(v, src).value.dest !in v.files
      && save(v, src).value.vault.files.Keys == v.files.Keys + {save(v, src).value.dest}
      && (forall p :: p in v.files ==> save(v, src).value.vault.files[p] == v.files[p])
  }

  /** `saveImage` adds one file and overwrites none. */
  lemma SaveImageAddsOneFile(env: Env, fromPath: string, dir: string)
    ensures AddsOneFile(SaverFor(env, fromPath, dir))
  {
    forall v: Vault, src: string | SaveImage(env, v, src, fromPath, dir).Success?
      ensures var s := SaveImage(env, v, src, fromPath, dir).value;
              && s.dest !in v.files && s.vault.files.Keys == v.files.Keys + {s.dest}
              && (forall p :: p in v.files ==> s.vault.files[p] == v.files[p])
    {
      SaveImageWrites(env, v, src, fromPath, dir);
    }
  }

  /** A reference is already in the download folder when its path starts with
      the folder and a separator. */
  predicate AlreadyDownloaded(link: ImageLink, dir: string) {
    StartsWith(link.path, dir + "/")
  }

  /** One iteration of the loop of `processFile` on `link`: skip it when it is
      already in the download folder; otherwise save it, and on success splice
      a link to `dir/filename` over its span, on failure record the error. */
  function Step(save: Saver, dir: string, link: ImageLink, st: WalkState): (r: WalkState)
    ensures |r.outcomes| == |st.outcomes| + 1 && r.outcomes[1..] == st.outcomes
    ensures r.outcomes[0].Skipped? <==> AlreadyDownloaded(link, dir)
    ensures !AlreadyDownloaded(link, dir) ==> (r.outcomes[0].Rewritten? <==> save(st.vault, link.path).Success?)
    ensures r.outcomes[0].Rewritten? ==>
              && save(st.vault, link.path).Success?
              && r.outcomes[0].filename == save(st.vault, link.path).value.filename
              && r.vault == save(st.vault, link.path).value.vault
              && r.content == Splice(st.content, link.start, link.end, BuildMarkdownLink(link, dir + "/" + r.outcomes[0].filename))
    ensures r.outcomes[0].Failed? ==> save(st.vault, link.path) == Failure(r.outcomes[0].message)
    ensures r.outcomes[0].Rewritten? ==> r.success == st.success + 1 && r.errors == st.errors
    ensures !r.outcomes[0].Rewritten? ==> r.success == st.success && r.content == st.content && r.vault == st.vault
    ensures r.outcomes[0].Skipped? ==> r.errors == st.errors
    ensures r.outcomes[0].Failed? ==> r.errors == st.errors + [link.path + ": " + r.outcomes[0].message]
  {
    if AlreadyDownloaded(link, dir) then st.(outcomes := [Skipped] + st.outcomes)
    else
      match save(st.vault, link.path)
      case Success(saved) =>
        WalkState(
          Splice(st.content, link.start, link.end, BuildMarkdownLink(link, dir + "/" + saved.filename)),
          saved.vault, st.success + 1, st.errors, [Rewritten(saved.filename)] + st.outcomes)
      case Failure(msg) =>
        st.(errors := st.errors + [link.path + ": " + msg], outcomes := [Failed(msg)] + st.outcomes)
  }

  /** The loop of `processFile` over `links[..i]`, from index `i - 1` down to 0. */
  function Walk(save: Saver, dir: string, links: seq<ImageLink>, i: nat, st: WalkState): (r: WalkState)
    requires i <= |links|
    ensures |r.outcomes| == |st.outcomes| + i && r.outcomes[i..] == st.outcomes
    decreases i
  {
    if i == 0 then st
    else Walk(save, dir, links, i - 1, Step(save, dir, links[i - 1], st))
  }

  /** The body of `processFile` once the references of the note are found:
      nothing to do without references, otherwise the walk from the last
      reference to the first, and a write only when the text changed. */
  function Process(save: Saver, dir: string, vault: Vault, text: string, links: seq<ImageLink>): (r: FileReport)
    ensures r.total == |links| == |r.outcomes|
    ensures |links| == 0 ==> r == FileReport(0, 0, [], None, vault, [])
    ensures r.written.Some? ==> r.written.value != text
  {
    if |links| == 0 then FileReport(0, 0, [], None, vault, [])
    else
      var st := Walk(save, dir, links, |links|, WalkState(text, vault, 0, [], []));
      FileReport(|links|, st.success, st.errors, if st.content != text then Some(st.content) else None, st.vault, st.outcomes)
  }

  /** `processFile(file)` for the note at `fromPath` whose text is `text`, with
      `dir` the download folder: the references are those `findImageLinks` finds
      and each is saved with `saveImage`. */
  function ProcessFile(env: Env, dir: string, vault: Vault, fromPath: string, text: string): (r: FileReport)
    ensures r.total == |FindImageLinks(text)| == |r.outcomes|
    ensures r.total == 0 ==> r == FileReport(0, 0, [], None, vault, [])
    ensures r.written.Some? ==> r.written.value != text
  {
    Process(SaverFor(env, fromPath, dir), dir, vault, text, FindImageLinks(text))
  }

  // ---------------------------------------------------------------------------
  // Which references are skipped, and the counters

  /** Number of outcomes of each kind. */
  function Rewrites(os: seq<Outcome>): nat {
    if |os| == 0 then 0 else (if os[0].Rewritten? then 1 else 0) + Rewrites(os[1..])
  }

  function Failures(os: seq<Outcome>): nat {
    if |os| == 0 then 0 else (if os[0].Failed? then 1 else 0) + Failures(os[1..])
  }

  function Skips(os: seq<Outcome>): nat {
    if |os| == 0 then 0 else (if os[0].Skipped? then 1 else 0) + Skips(os[1..])
  }

  /** Every outcome is of exactly one kind. */
  lemma {:induction false} KindsPartition(os: seq<Outcome>)
    ensures Rewrites(os) + Failures(os) + Skips(os) == |os|
  {
    if |os| > 0 {
      KindsPartition(os[1..]);
    }
  }

  /** The walk skips exactly the references already in the download folder. */
  lemma {:induction false} WalkSkips(save: Saver, dir: string, links: seq<ImageLink>, i: nat, st: WalkState)
    requires i <= |links|
    ensures var r := Walk(save, dir, links, i, st);
            forall j :: 0 <= j < i ==> (r.outcomes[j].Skipped? <==> AlreadyDownloaded(links[j], dir))
    decreases i
  {
    if i > 0 {
      var st' := Step(save, dir, links[i - 1], st);
      var r := Walk(save, dir, links, i, st);
      assert r == Walk(save, dir, links, i - 1, st');
      WalkSkips(save, dir, links, i - 1, st');
      assert r.outcomes[i - 1] == r.outcomes[i - 1..][0] == st'.outcomes[0];
      ExtendSkips(dir, links, r.outcomes, i);
    }
  }

  /** The skip property of the first `i - 1` outcomes and of outcome `i - 1`
      together give it for the first `i`. */
  lemma ExtendSkips(dir: string, links: seq<ImageLink>, os: seq<Outcome>, i: nat)
    requires 0 < i <= |links| && i <= |os|
    requires forall j :: 0 <= j < i - 1 ==> (os[j].Skipped? <==> AlreadyDownloaded(links[j], dir))
    requires os[i - 1].Skipped? <==> AlreadyDownloaded(links[i - 1], dir)
    ensures forall j :: 0 <= j < i ==> (os[j].Skipped? <==> AlreadyDownloaded(links[j], dir))
  {
  }

  /** The walk adds one success per rewritten reference and one error per failed one. */
  lemma {:induction false} WalkCounts(save: Saver, dir: string, links: seq<ImageLink>, i: nat, st: WalkState)
    requires i <= |links|
    ensures var r := Walk(save, dir, links, i, st);
            && r.success == st.success + Rewrites(r.outcomes[..i])
            && |r.errors| == |st.errors| + Failures(r.outcomes[..i])
    decreases i
  {
    if i > 0 {
      var st' := Step(save, dir, links[i - 1], st);
      var r := Walk(save, dir, links, i, st);
      assert r == Walk(save, dir, links, i - 1, st');
      WalkCounts(save, dir, links, i - 1, st');
      assert r.outcomes[i - 1] == st'.outcomes[0];
      ExtendCounts(r.outcomes, i, st.success, st'.success, r.success, |st.errors|, |st'.errors|, |r.errors|);
    }
  }

  /** The counters after one more outcome in front of the rest of a walk's. */
  lemma ExtendCounts(os: seq<Outcome>, i: nat, s0: int, s1: int, s2: int, e0: int, e1: int, e2: int)
    requires 0 < i <= |os|
    requires s1 == s0 + (if os[i - 1].Rewritten? then 1 else 0) && e1 == e0 + (if os[i - 1].Failed? then 1 else 0)
    requires s2 == s1 + Rewrites(os[..i - 1]) && e2 == e1 + Failures(os[..i - 1])
    ensures s2 == s0 + Rewrites(os[..i]) && e2 == e0 + Failures(os[..i])
  {
    CountsSplit(os[..i], i - 1);
    assert os[..i][..i - 1] == os[..i - 1];
  }

  /** Counting the kinds of `os` with its last element split off. */
  lemma {:induction false} CountsSplit(os: seq<Outcome>, k: nat)
    requires k + 1 == |os|
    ensures Rewrites(os) == Rewrites(os[..k]) + (if os[k].Rewritten? then 1 else 0)
    ensures Failures(os) == Failures(os[..k]) + (if os[k].Failed? then 1 else 0)
    decreases k
  {
    if k > 0 {
      CountsSplit(os[1..], k - 1);
      assert os[1..][..k - 1] == os[..k][1..];
    }
  }

  /** The rewritten, the failed and the skipped references add up to `total`. */
  lemma ProcessCounts(save: Saver, dir: string, vault: Vault, text: string, links: seq<ImageLink>)
    ensures var r := Process(save, dir, vault, text, links);
            && r.success == Rewrites(r.outcomes) && |r.errors| == Failures(r.outcomes)
            && r.success + |r.errors| + Skips(r.outcomes) == r.total
            && forall j :: 0 <= j < r.total ==> (r.outcomes[j].Skipped? <==> AlreadyDownloaded(links[j], dir))
  {
    var r := Process(save, dir, vault, text, links);
    if |links| > 0 {
      var st0 := WalkState(text, vault, 0, [], []);
      WalkCounts(save, dir, links, |links|, st0);
      WalkSkips(save, dir, links, |links|, st0);
      assert r.outcomes[..|links|] == r.outcomes;
    }
    KindsPartition(r.outcomes);
  }

  /** `processFile` reports every reference found in `total`, skipped ones
      included: the rewritten, the failed and the skipped add up to it. */
  lemma ProcessFileCounts(env: Env, dir: string, vault: Vault, fromPath: string, text: string)
    ensures var r := ProcessFile(env, dir, vault, fromPath, text);
            && r.success == Rewrites(r.outcomes) && |r.errors| == Failures(r.outcomes)
            && r.success + |r.errors| + Skips(r.outcomes) == r.total
            && forall j :: 0 <= j < r.total ==> (r.outcomes[j].Skipped? <==> AlreadyDownloaded(FindImageLinks(text)[j], dir))
  {
    ProcessCounts(SaverFor(env, fromPath, dir), dir, vault, text, FindImageLinks(text));
  }

  // ---------------------------------------------------------------------------
  // The errors

  /** The error line of one reference: `path: message` when it failed. */
  function ErrorLine(link: ImageLink, o: Outcome): seq<string> {
    if o.Failed? then [link.path + ": " + o.message] else []
  }

  /** The error lines of the failed references among `links[..i]`, highest
      index first: `path: message`. */
  function ErrorLines(links: seq<ImageLink>, os: seq<Outcome>, i: nat): (lines: seq<string>)
    requires i <= |links| && i <= |os|
    ensures |lines| <= i
  {
    if i == 0 then [] else ErrorLine(links[i - 1], os[i - 1]) + ErrorLines(links, os, i - 1)
  }

  /** One step appends the error line of its reference. */
  lemma StepErrors(save: Saver, dir: string, link: ImageLink, st: WalkState)
    ensures var st' := Step(save, dir, link, st);
            st'.errors == st.errors + ErrorLine(link, st'.outcomes[0])
  {
  }

  /** The walk appends the error lines in the order it meets the failures: from
      the last reference to the first. */
  lemma {:induction false} WalkErrors(save: Saver, dir: string, links: seq<ImageLink>, i: nat, st: WalkState)
    requires i <= |links|
    ensures var r := Walk(save, dir, links, i, st);
            r.errors == st.errors + ErrorLines(links, r.outcomes, i)
    decreases i
  {
    if i > 0 {
      var st' := Step(save, dir, links[i - 1], st);
      var r := Walk(save, dir, links, i, st);
      assert r == Walk(save, dir, links, i - 1, st');
      WalkErrors(save, dir, links, i - 1, st');
      StepErrors(save, dir, links[i - 1], st);
      assert r.outcomes[i - 1] == st'.outcomes[0];
      assert ErrorLines(links, r.outcomes, i) == ErrorLine(links[i - 1], r.outcomes[i - 1]) + ErrorLines(links, r.outcomes, i - 1);
      AppendAssoc(st.errors, ErrorLine(links[i - 1], st'.outcomes[0]), ErrorLines(links, r.outcomes, i - 1));
    }
  }

  /** Concatenation is associative. */
  lemma AppendAssoc<T>(a: seq<T>, b: seq<T>, c: seq<T>)
    ensures (a + b) + c == a + (b + c)
  {
  }

  /** The errors are the failed references' lines, last reference first. */
  lemma ProcessErrors(save: Saver, dir: string, vault: Vault, text: string, links: seq<ImageLink>)
    ensures var r := Process(save, dir, vault, text, links);
            r.errors == ErrorLines(links, r.outcomes, r.total)
  {
    if |links| > 0 {
      var st0 := WalkState(text, vault, 0, [], []);
      var st := Walk(save, dir, links, |links|, st0);
      WalkErrors(save, dir, links, |links|, st0);
      assert [] + ErrorLines(links, st.outcomes, |links|) == ErrorLines(links, st.outcomes, |links|);
    }
  }

  /** The errors `processFile` returns are the failed references' lines, last
      reference first. */
  lemma ProcessFileErrors(env: Env, dir: string, vault: Vault, fromPath: string, text: string)
    ensures var r := ProcessFile(env, dir, vault, fromPath, text);
            r.errors == ErrorLines(FindImageLinks(text), r.outcomes, r.total)
  {
    ProcessErrors(SaverFor(env, fromPath, dir), dir, vault, text, FindImageLinks(text));
  }

  // ---------------------------------------------------------------------------
  // The vault

  /** The walk only adds files: every file that existed keeps its bytes, and each
      rewritten reference added exactly one new file. */
  lemma {:induction false} WalkVault(save: Saver, dir: string, links: seq<ImageLink>, i: nat, st: WalkState)
    requires i <= |links| && AddsOneFile(save)
    ensures var r := Walk(save, dir, links, i, st);
            && st.success <= r.success
            && (forall p :: p in st.vault.files ==> p in r.vault.files && r.vault.files[p] == st.vault.files[p])
            && |r.vault.files.Keys| == |st.vault.files.Keys| + (r.success - st.success)
    decreases i
  {
    if i > 0 {
      var st' := Step(save, dir, links[i - 1], st);
      assert Walk(save, dir, links, i, st) == Walk(save, dir, links, i - 1, st');
      WalkVault(save, dir, links, i - 1, st');
      StepVault(save, dir, links[i - 1], st);
      var r := Walk(save, dir, links, i - 1, st');
      ExtendVault(st.vault.files, st'.vault.files, r.vault.files, st.success, st'.success, r.success);
    }
  }

  /** One step keeps every file, and adds one exactly when it rewrites. */
  lemma StepVault(save: Saver, dir: string, link: ImageLink, st: WalkState)
    requires AddsOneFile(save)
    ensures var st' := Step(save, dir, link, st);
            && st.success <= st'.success
            && (forall p :: p in st.vault.files ==> p in st'.vault.files && st'.vault.files[p] == st.vault.files[p])
            && |st'.vault.files.Keys| == |st.vault.files.Keys| + (st'.success - st.success)
  {
    var st' := Step(save, dir, link, st);
    if st'.outcomes[0].Rewritten? {
      var saved := save(st.vault, link.path).value;
      assert st'.vault == saved.vault;
      assert |st'.vault.files.Keys| == |st.vault.files.Keys| + 1;
    }
  }

  /** Keeping every file and counting one added file per success compose. */
  lemma ExtendVault(f0: map<string, Bytes>, f1: map<string, Bytes>, f2: map<string, Bytes>, s0: int, s1: int, s2: int)
    requires s0 <= s1 <= s2
    requires forall p :: p in f0 ==> p in f1 && f1[p] == f0[p]
    requires forall p :: p in f1 ==> p in f2 && f2[p] == f1[p]
    requires |f1.Keys| == |f0.Keys| + (s1 - s0) && |f2.Keys| == |f1.Keys| + (s2 - s1)
    ensures forall p :: p in f0 ==> p in f2 && f2[p] == f0[p]
    ensures |f2.Keys| == |f0.Keys| + (s2 - s0)
  {
  }

  /** With a save that adds one file, no file is overwritten and one file is
      added per success. */
  lemma ProcessVault(save: Saver, dir: string, vault: Vault, text: string, links: seq<ImageLink>)
    requires AddsOneFile(save)
    ensures var r := Process(save, dir, vault, text, links);
            && (forall p :: p in vault.files ==> p in r.vault.files && r.vault.files[p] == vault.files[p])
            && |r.vault.files.Keys| == |vault.files.Keys| + r.success
  {
    if |links| > 0 {
      WalkVault(save, dir, links, |links|, WalkState(text, vault, 0, [], []));
    }
  }

  /** `processFile` never overwrites a file, and it adds one file per success. */
  lemma ProcessFileVault(env: Env, dir: string, vault: Vault, fromPath: string, text: string)
    ensures var r := ProcessFile(env, dir, vault, fromPath, text);
            && (forall p :: p in vault.files ==> p in r.vault.files && r.vault.files[p] == vault.files[p])
            && |r.vault.files.Keys| == |vault.files.Keys| + r.success
  {
    SaveImageAddsOneFile(env, fromPath, dir);
    ProcessVault(SaverFor(env, fromPath, dir), dir, vault, text, FindImageLinks(text));
  }

  // ---------------------------------------------------------------------------
  // The copies the rewritten references link to

  /** A save that succeeds writes the path `dir/filename` of the name it returns. */
  ghost predicate SavesUnder(save: Saver, dir: string) {
    forall v: Vault, src: string :: save(v, src).Success? ==>
      dir + "/" + save(v, src).value.filename == save(v, src).value.dest
  }

  /** `saveImage` into a download folder other than the vault root writes the
      path the plugin links to. */
  lemma SaveImageSavesUnder(env: Env, fromPath: string, dir: string)
    requires dir != "" && dir != "."
    ensures SavesUnder(SaverFor(env, fromPath, dir), dir)
  {
    forall v: Vault, src: string | SaveImage(env, v, src, fromPath, dir).Success?
      ensures var s := SaveImage(env, v, src, fromPath, dir).value; dir + "/" + s.filename == s.dest
    {
      SavedUnderDir(env, v, src, fromPath, dir);
    }
  }

  /** Each of the first `n` outcomes that is a rewrite names a file `dir/filename`
      that is in `after` and not in `before`. */
  predicate LinksToNewCopies(dir: string, os: seq<Outcome>, n: nat, before: map<string, Bytes>, after: map<string, Bytes>)
    requires n <= |os|
  {
    forall j :: 0 <= j < n && os[j].Rewritten? ==>
      dir + "/" + os[j].filename in after && dir + "/" + os[j].filename !in before
  }

  /** Every reference the walk rewrote links to a file that the walk added and
      that is still there at the end. */
  lemma {:induction false} WalkCopies(save: Saver, dir: string, links: seq<ImageLink>, i: nat, st: WalkState)
    requires i <= |links| && AddsOneFile(save) && SavesUnder(save, dir)
    ensures var r := Walk(save, dir, links, i, st);
            LinksToNewCopies(dir, r.outcomes, i, st.vault.files, r.vault.files)
    decreases i
  {
    if i > 0 {
      var st' := Step(save, dir, links[i - 1], st);
      var r := Walk(save, dir, links, i, st);
      assert r == Walk(save, dir, links, i - 1, st');
      WalkCopies(save, dir, links, i - 1, st');
      WalkVault(save, dir, links, i - 1, st');
      StepCopy(save, dir, links[i - 1], st);
      assert r.outcomes[i - 1] == r.outcomes[i - 1..][0] == st'.outcomes[0];
      ExtendCopies(dir, r.outcomes, i, st.vault.files, st'.vault.files, r.vault.files);
    }
  }

  /** One more outcome in front of a walk's: when it is a rewrite linking to a
      file the step added and the rest of the walk kept, the earlier outcomes'
      property extends to it. */
  lemma ExtendCopies(dir: string, os: seq<Outcome>, i: nat, before: map<string, Bytes>, mid: map<string, Bytes>, after: map<string, Bytes>)
    requires 0 < i <= |os|
    requires LinksToNewCopies(dir, os, i - 1, mid, after)
    requires before.Keys <= mid.Keys && mid.Keys <= after.Keys
    requires os[i - 1].Rewritten? ==> dir + "/" + os[i - 1].filename in mid && dir + "/" + os[i - 1].filename !in before
    ensures LinksToNewCopies(dir, os, i, before, after)
  {
    forall j | 0 <= j < i && os[j].Rewritten?
      ensures dir + "/" + os[j].filename in after && dir + "/" + os[j].filename !in before
    {
      if j < i - 1 {
        assert dir + "/" + os[j].filename !in mid;
      }
    }
  }

  /** A step keeps every file, and a rewrite links to the one it added. */
  lemma StepCopy(save: Saver, dir: string, link: ImageLink, st: WalkState)
    requires AddsOneFile(save) && SavesUnder(save, dir)
    ensures var st' := Step(save, dir, link, st);
            && st.vault.files.Keys <= st'.vault.files.Keys
            && (st'.outcomes[0].Rewritten? ==>
                  && dir + "/" + st'.outcomes[0].filename in st'.vault.files
                  && dir + "/" + st'.outcomes[0].filename !in st.vault.files)
  {
    var st' := Step(save, dir, link, st);
    if st'.outcomes[0].Rewritten? {
      var saved := save(st.vault, link.path).value;
      assert dir + "/" + saved.filename == saved.dest;
    }
  }

  /** For a save that adds one file under `dir`, every rewritten reference links
      to a file that did not exist before and exists afterwards. */
  lemma ProcessCopies(save: Saver, dir: string, vault: Vault, text: string, links: seq<ImageLink>)
    requires AddsOneFile(save) && SavesUnder(save, dir)
    ensures var r := Process(save, dir, vault, text, links);
            LinksToNewCopies(dir, r.outcomes, r.total, vault.files, r.vault.files)
  {
    if |links| > 0 {
      WalkCopies(save, dir, links, |links|, WalkState(text, vault, 0, [], []));
    }
  }

  /** `processFile` links every rewritten reference to a new copy in the
      download folder. */
  lemma ProcessFileCopies(env: Env, dir: string, vault: Vault, fromPath: string, text: string)
    requires dir != "" && dir != "."
    ensures var r := ProcessFile(env, dir, vault, fromPath, text);
            LinksToNewCopies(dir, r.outcomes, r.total, vault.files, r.vault.files)
  {
    SaveImageAddsOneFile(env, fromPath, dir);
    SaveImageSavesUnder(env, fromPath, dir);
    ProcessCopies(SaverFor(env, fromPath, dir), dir, vault, text, FindImageLinks(text));
  }

  // ---------------------------------------------------------------------------
  // The note's new text

  /** A walk that rewrites nothing leaves the text as it was. */
  lemma {:induction false} WalkUnchanged(save: Saver, dir: string, links: seq<ImageLink>, i: nat, st: WalkState)
    requires i <= |links|
    ensures var r := Walk(save, dir, links, i, st);
            st.success <= r.success && (r.success == st.success ==> r.content == st.content)
    decreases i
  {
    if i > 0 {
      var st' := Step(save, dir, links[i - 1], st);
      assert Walk(save, dir, links, i, st) == Walk(save, dir, links, i - 1, st');
      WalkUnchanged(save, dir, links, i - 1, st');
    }
  }

  /** Without a success the note is not written. */
  lemma ProcessUnchanged(save: Saver, dir: string, vault: Vault, text: string, links: seq<ImageLink>)
    ensures var r := Process(save, dir, vault, text, links);
            r.success == 0 ==> r.written == None
  {
    if |links| > 0 {
      WalkUnchanged(save, dir, links, |links|, WalkState(text, vault, 0, [], []));
    }
  }

  /** A note in which nothing was downloaded is not written. */
  lemma NoSuccessNoWrite(env: Env, dir: string, vault: Vault, fromPath: string, text: string)
    ensures var r := ProcessFile(env, dir, vault, fromPath, text);
            r.success == 0 ==> r.written == None
  {
    ProcessUnchanged(SaverFor(env, fromPath, dir), dir, vault, text, FindImageLinks(text));
  }

  /** The spans of `links` lie inside `text` in ascending order and do not overlap. */
  predicate Layout(text: string, links: seq<ImageLink>) {
    && (forall i :: 0 <= i < |links| ==> links[i].start <= links[i].end <= |text|)
    && (forall i, j :: 0 <= i < j < |links| ==> links[i].end <= links[j].start)
  }

  /** Where the text after `links[..i]` ends: the start of `links[i]`, or the
      end of the text. */
  function Bound(text: string, links: seq<ImageLink>, i: nat): (b: nat)
    requires Layout(text, links) && i <= |links|
    ensures b <= |text|
    ensures forall j :: 0 <= j < i ==> links[j].end <= b
  {
    if i == |links| then |text| else links[i].start
  }

  /** What a reference's span becomes: the new reference when it was rewritten,
      its original text otherwise. */
  function Replacement(text: string, link: ImageLink, o: Outcome, dir: string): string
    requires link.start <= link.end <= |text|
  {
    if o.Rewritten? then BuildMarkdownLink(link, dir + "/" + o.filename) else text[link.start..link.end]
  }

  /** The text read left to right from `from`: the gaps between the spans of
      `links[i..]` as they were, and each span replaced as its outcome (`os[k]`
      for `links[i + k]`) says. */
  function Assemble(text: string, links: seq<ImageLink>, dir: string, os: seq<Outcome>, i: nat, from: nat): (r: string)
    requires Layout(text, links) && i <= |links| && |os| == |links| - i && from <= Bound(text, links, i)
    decreases |links| - i
  {
    if i == |links| then text[from..]
    else
      text[from..links[i].start] + (Replacement(text, links[i], os[0], dir)
      + Assemble(text, links, dir, os[1..], i + 1, links[i].end))
  }

  /** Starting the assembly earlier only adds the untouched text before the next span. */
  lemma AssembleShift(text: string, links: seq<ImageLink>, dir: string, os: seq<Outcome>, i: nat, from: nat)
    requires Layout(text, links) && i <= |links| && |os| == |links| - i && from <= Bound(text, links, i)
    ensures Assemble(text, links, dir, os, i, from)
            == text[from..Bound(text, links, i)] + Assemble(text, links, dir, os, i, Bound(text, links, i))
  {
    if i < |links| {
      var s := links[i].start;
      assert text[s..s] == [];
    }
  }

  /** The walk's invariant: after handling `links[i..]`, the text is the original
      up to the next span followed by the assembly of the handled spans. */
  lemma {:induction false} WalkContent(save: Saver, dir: string, text: string, links: seq<ImageLink>, i: nat, st: WalkState)
    requires Layout(text, links) && i <= |links| && |st.outcomes| == |links| - i
    requires st.content == text[..Bound(text, links, i)] + Assemble(text, links, dir, st.outcomes, i, Bound(text, links, i))
    ensures var r := Walk(save, dir, links, i, st);
            r.content == Assemble(text, links, dir, r.outcomes, 0, 0)
    decreases i
  {
    if i == 0 {
      AssembleShift(text, links, dir, st.outcomes, 0, 0);
      assert text[..Bound(text, links, 0)] == text[0..Bound(text, links, 0)];
    } else {
      var st' := Step(save, dir, links[i - 1], st);
      assert Walk(save, dir, links, i, st) == Walk(save, dir, links, i - 1, st');
      StepContent(save, dir, text, links, i, st);
      WalkContent(save, dir, text, links, i - 1, st');
    }
  }

  /** One step keeps the walk's invariant. */
  lemma StepContent(save: Saver, dir: string, text: string, links: seq<ImageLink>, i: nat, st: WalkState)
    requires Layout(text, links) && 0 < i <= |links| && |st.outcomes| == |links| - i
    requires st.content == text[..Bound(text, links, i)] + Assemble(text, links, dir, st.outcomes, i, Bound(text, links, i))
    ensures var st' := Step(save, dir, links[i - 1], st);
            st'.content == text[..Bound(text, links, i - 1)] + Assemble(text, links, dir, st'.outcomes, i - 1, Bound(text, links, i - 1))
  {
    var link := links[i - 1];
    var st' := Step(save, dir, link, st);
    var s, e, b := link.start, link.end, Bound(text, links, i);
    var rest := Assemble(text, links, dir, st.outcomes, i, b);
    var piece := Replacement(text, link, st'.outcomes[0], dir);
    AssembleShift(text, links, dir, st.outcomes, i, e);
    assert Assemble(text, links, dir, st'.outcomes, i - 1, s) == text[s..s] + (piece + (text[e..b] + rest));
    if st'.outcomes[0].Rewritten? {
      SpliceInto(text, st.content, s, e, b, rest, piece);
    } else {
      SpanKept(text, s, e, b, rest);
    }
  }

  /** Splicing a piece into a span of the untouched prefix of the text. */
  lemma SpliceInto(text: string, content: string, s: nat, e: nat, b: nat, rest: string, piece: string)
    requires s <= e <= b <= |text| && content == text[..b] + rest
    ensures Splice(content, s, e, piece) == text[..s] + (text[s..s] + (piece + (text[e..b] + rest)))
  {
    assert content[..s] == text[..s];
    assert content[e..] == text[e..b] + rest;
  }

  /** Leaving a span of the untouched prefix as it is. */
  lemma SpanKept(text: string, s: nat, e: nat, b: nat, rest: string)
    requires s <= e <= b <= |text|
    ensures text[..b] + rest == text[..s] + (text[s..s] + (text[s..e] + (text[e..b] + rest)))
  {
    assert text[..b] == text[..s] + text[s..e] + text[e..b];
  }

  /** With non-overlapping references, the text written is the assembly of the
      outcomes, and it is written exactly when it differs. */
  lemma ProcessContent(save: Saver, dir: string, vault: Vault, text: string, links: seq<ImageLink>)
    requires Layout(text, links)
    ensures var r := Process(save, dir, vault, text, links);
            var content := Assemble(text, links, dir, r.outcomes, 0, 0);
            r.written == (if content != text then Some(content) else None)
  {
    if |links| == 0 {
      assert Assemble(text, links, dir, [], 0, 0) == text[0..] == text;
    } else {
      assert text == text[..|text|] + text[|text|..];
      WalkContent(save, dir, text, links, |links|, WalkState(text, vault, 0, [], []));
    }
  }

  /** `processFile` on a note whose references do not overlap: the new text is
      the old one with exactly the rewritten references' spans replaced by the
      links to their copies, everything else kept in order; it is written
      exactly when it differs from the old text. */
  lemma ProcessFileContent(env: Env, dir: string, vault: Vault, fromPath: string, text: string)
    requires Layout(text, FindImageLinks(text))
    ensures var r := ProcessFile(env, dir, vault, fromPath, text);
            var content := Assemble(text, FindImageLinks(text), dir, r.outcomes, 0, 0);
            r.written == (if content != text then Some(content) else None)
    ensures var r := ProcessFile(env, dir, vault, fromPath, text);
            dir != "" && dir != "." ==> LinksToNewCopies(dir, r.outcomes, r.total, vault.files, r.vault.files)
  {
    ProcessContent(SaverFor(env, fromPath, dir), dir, vault, text, FindImageLinks(text));
    if dir != "" && dir != "." {
      ProcessFileCopies(env, dir, vault, fromPath, text);
    }
  }

  // ---------------------------------------------------------------------------
  // The vault-wide command and the summary

  /** A note of the vault: its path and its text. */
  datatype Note = Note(path: string, text: string)

  /** The totals of the vault-wide command, the notes written with their new
      text, and the vault after all saves. */
  datatype VaultReport = VaultReport(total: nat, success: nat, errors: seq<string>, writes: seq<Note>, vault: Vault)

  /** `downloadImagesInVault` without its worker pool: the notes processed one
      after another, their counters summed and their errors concatenated. */
  function ProcessAll(env: Env, dir: string, vault: Vault, notes: seq<Note>): (r: VaultReport)
    ensures r.success + |r.errors| <= r.total
    ensures |notes| == 0 ==> r == VaultReport(0, 0, [], [], vault)
    decreases |notes|
  {
    if |notes| == 0 then VaultReport(0, 0, [], [], vault)
    else
      var f := ProcessFile(env, dir, vault, notes[0].path, notes[0].text);
      ProcessFileCounts(env, dir, vault, notes[0].path, notes[0].text);
      var rest := ProcessAll(env, dir, f.vault, notes[1..]);
      var written := if f.written.Some? then [Note(notes[0].path, f.written.value)] else [];
      VaultReport(f.total + rest.total, f.success + rest.success, f.errors + rest.errors, written + rest.writes, rest.vault)
  }

  /** The message shown after a run: `Downloaded <success>/<total> images.`,
      followed by ` Errors: ` and the errors joined by `; ` when there are any. */
  function Summary(success: nat, total: nat, errors: seq<string>): (msg: string)
    ensures StartsWith(msg, "Downloaded " + Decimal(success) + "/" + Decimal(total) + " images.")
    ensures |errors| == 0 <==> |msg| == 20 + |Decimal(success)| + |Decimal(total)|
  {
    var errorPart := if |errors| > 0 then " Errors: " + JoinWith(errors, "; ") else "";
    "Downloaded " + (Decimal(success) + ("/" + (Decimal(total) + (" images." + errorPart))))
  }

  /** After the counts come ` Errors: ` and the errors joined by `; `, when
      there are errors. */
  lemma SummaryErrorPart(success: nat, total: nat, errors: seq<string>)
    requires |errors| > 0
    ensures Summary(success, total, errors)[20 + |Decimal(success)| + |Decimal(total)|..]
            == " Errors: " + JoinWith(errors, "; ")
  {
    var head := "Downloaded " + (Decimal(success) + ("/" + (Decimal(total) + " images.")));
    assert Summary(success, total, errors) == head + (" Errors: " + JoinWith(errors, "; "));
  }

  /** One more error adds `; ` and its line at the end of the message. */
  lemma SummaryOneMoreError(success: nat, total: nat, errors: seq<string>, e: string)
    requires |errors| > 0
    ensures Summary(success, total, errors + [e]) == Summary(success, total, errors) + "; " + e
  {
    JoinWithSnoc(errors, e, "; ");
  }

  /** The counters can be read back from the summary: equal messages report
      equal counts. */
  lemma SummaryCounts(s: nat, t: nat, e: seq<string>, s': nat, t': nat, e': seq<string>)
    requires Summary(s, t, e) == Summary(s', t', e')
    ensures s == s' && t == t'
  {
    var tail := if |e| > 0 then " Errors: " + JoinWith(e, "; ") else "";
    var tail' := if |e'| > 0 then " Errors: " + JoinWith(e', "; ") else "";
    var x := Decimal(t) + (" images." + tail);
    var x' := Decimal(t') + (" images." + tail');
    assert Decimal(s) + ("/" + x) == Summary(s, t, e)[11..];
    assert Decimal(s') + ("/" + x') == Summary(s', t', e')[11..];
    LeadingNumber(s, s', '/', x, x');
    assert " images." + tail == [' '] + ("images." + tail);
    assert " images." + tail' == [' '] + ("images." + tail');
    LeadingNumber(t, t', ' ', "images." + tail, "images." + tail');
  }
}
