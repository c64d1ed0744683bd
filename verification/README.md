# Image download: the link-rewrite engine

This project models the core of the Obsidian plugin "image download" in Dafny.
The plugin finds the image references in a note, copies each image into a
download folder of the vault, and points the reference at the copy. The model
covers these parts:

- **`ImageLinks`** (`imageUtils.ts`). `findImageLinks` is modelled by two
  deterministic scanners and a merge. The scanners are
  `![alt](target)` with an optional ` "title"` and `![[path|alt]]`. The merge
  is the sort by start. `buildMarkdownLink` is also here.
- **`ImageStore`** (`imageUtils.ts`). `getUniqueFilename` searches a finite
  set of existing paths. `saveImage` classifies the source as a remote URL, a
  link-index hit or a path relative to the note. It then fetches the bytes,
  writes them under a fresh name and returns the base name.
- **`DownloadPlugin`** (`main.ts`). `processFile` is a fold over the
  references from last to first. Each reference is skipped, rewritten or
  recorded as an error. The vault-wide command is modelled as a sequential
  aggregate. The summary message is modelled too.
- **Support modules.** `JsText` covers the ECMAScript string operations the
  code relies on: the `\s` set, `trim`, `indexOf`, `split`, `join` and the
  decimal rendering of integers. `PosixPath` covers the Node `path` helpers
  (`basename`, `dirname`, `parse`, `join`). `Wrappers` holds `Option` and
  `Result`.

The host is passed in as values:

- the vault is a map from path to bytes;
- the link index (`getFirstLinkpathDest`) is a function parameter;
- the HTTP client (`requestUrl`) is a function parameter;
- the message of a failed local read is a function parameter.

The walk of `processFile` takes the save operation as a parameter. The results
about the skips, the counters, the errors and the new text hold for any save.
The results about the vault need a save that adds exactly one new file and
changes no other (`AddsOneFile`). The results about the copies also need a save
that writes `dir/filename` for the name it returns (`SavesUnder`). The results
about `processFile` instantiate the walk with `saveImage`, which has both
properties when the download folder is not the vault root.

Some facts about the code that the model keeps as written:

- `total` is `links.length`, set at main.ts:64 before the loop. So it counts
  every reference found, including the ones main.ts:69 skips because their
  path is already under the download folder.
- The only naming policy is `name (i)ext` (imageUtils.ts:45-55). There is no
  content-hash naming and no query or fragment stripping. The base name is
  `path.basename` of the whole reference path (imageUtils.ts:58).
- An embed is destructured as `[linkPath, alt] = inner.split('|')`
  (imageUtils.ts:32). Only the first two pieces are kept: the alt text runs
  from the first `|` to the second one, and anything after a second `|` is
  dropped.
- `buildMarkdownLink` writes the new path as it is (imageUtils.ts:39), and the
  inline pattern stops its target at the first `)` (imageUtils.ts:15). A
  numbered copy such as `d/img (1).png` therefore reads back as the reference
  `d/img (1` (`NumberedNameReadBack`). On a later run that reference still
  starts with `d/`, so main.ts:69 skips it.
- The download folder is created by the settings before any save
  (settings.ts:25-31), so `getUniqueFilename` sees it as an existing path.

## Model

| member | source | states |
|---|---|---|
| ImageLinks.InlineAtMatchesShape | imageUtils.ts:15-20 | `InlineAt`, the inline scanner at one position, finds a match at `p` exactly when `![alt](target)` stands there. The alt has no `]` and the target is non-empty with no `)`. The match then spans to that `)`, its alt is the raw text between `![` and `](`, and its target is the text between `(` and `)`. |
| ImageLinks.EmbedAtMatchesShape | imageUtils.ts:16 | `EmbedAt`, the embed scanner at one position, finds a match at `p` exactly when `![[inner]]` stands there with a non-empty, `]`-free inner text. The match then spans to the closing `]]` and captures the inner text. |
| ImageLinks.FormsNeverShareStart | imageUtils.ts:15-16 | No position starts both an inline and an embed match, so the order of the sort by start is strict. |
| ImageLinks.ScanDisjoint | imageUtils.ts:18 | The matches of one global scan never overlap, because each search resumes where the previous match ended. |
| ImageLinks.ScanComplete | imageUtils.ts:18 | `Scan`, the global `exec` loop that takes the leftmost match and resumes at its end, misses no match. Every position where the pattern matches lies inside a reported match. |
| ImageLinks.ScanAscending | imageUtils.ts:18 | The matches of one scan come in strictly ascending order of start. |
| ImageLinks.MergeAscending | imageUtils.ts:35 | `MergeByStart`, the stable sort by start of the two passes, keeps their elements as a multiset. Merging the two sorted passes, which share no start, gives a sequence in ascending order. |
| ImageLinks.FindMatches | imageUtils.ts:13-35 | The matches found are in ascending order. They are exactly the inline matches plus the embed matches, as a multiset. |
| ImageLinks.FoundAreMatches | imageUtils.ts:18-33 | Every match found is the inline or the embed match at its own start. |
| ImageLinks.FindImageLinks | imageUtils.ts:13-36 | One reference per match, sorted strictly by start. Each is the reference its match denotes. |
| ImageLinks.FoundSpans | imageUtils.ts:28-33 | Every reference found spans at least three characters inside the note. Its span starts with `![` and ends with `)` or `]]`. |
| ImageLinks.SplitTitleMatchesPattern | imageUtils.ts:23-27 | `SplitTitle`, the title match on the trimmed target, finds a title exactly when the title pattern can match. The path and title are then the pieces of a match whose path is the longest possible, as the greedy `.*` demands. Without a title the path is the whole target. |
| ImageLinks.TitleQuoteIsLast | imageUtils.ts:23 | Every way the title pattern matches opens the title at the last quote before the closing one. The path always ends within the whitespace run before that quote and at or before the first line break. |
| ImageLinks.InlineReference | imageUtils.ts:19-28 | An inline reference keeps its span, and its alt text is the raw alt capture. |
| ImageLinks.EmbedReference | imageUtils.ts:31-33 | An embed reference keeps its span and never has a title. |
| ImageLinks.EmbedFields | imageUtils.ts:31-33 | With no `\|` in the inner text, the path is the trimmed inner text and there is no alt. Otherwise the path is the trimmed piece before the first `\|` and the alt is the trimmed piece up to the next `\|` or the end. |
| ImageLinks.EmbedOnlyText | imageUtils.ts:30-34 | A text that is a single `![[inner]]` yields exactly one reference, for that embed. |
| ImageLinks.BuildMarkdownLink | imageUtils.ts:38-43 | The link written starts with `![`, the alt text (empty when absent), `](` and the new path, and ends with `)`. Its length leaves room for the title suffix and nothing else. |
| ImageLinks.SplitTitleOfSuffixed | imageUtils.ts:23-27 | For a non-empty path with no line break that does not end in whitespace, and a title with no `"`, the title pattern splits `path "title"` back into the same path and title. A path with a line break or a title with a quote is not split back this way. |
| ImageLinks.BuiltMatches | imageUtils.ts:38-43 | For a link whose alt text has no `]`, and whose new path is non-empty, has no surrounding whitespace, no `]`, no `)` and no line break (and, without a title, does not end in a quote), the written link holds one match of the two patterns: the inline match that spans all of it. |
| ImageLinks.SingleInlineText | imageUtils.ts:15-18 | A text that is one inline reference, with no `]` except the one closing its alt text, holds exactly that match. |
| ImageLinks.BuiltReference | imageUtils.ts:19-28 | Under the condition of `BuiltMatches` (in particular no `)` in the new path), the reference read off the target of a written link has the new path, the alt text and the kept title. |
| ImageLinks.BuildReadsBack | imageUtils.ts:13-43 | Under the same condition (in particular no `)` in the new path, which excludes every numbered ` (i)` name), reading back a written link finds exactly one reference spanning it. That reference has the new path, the alt text and the title, but only a non-empty title. |
| ImageLinks.OpeningCut | imageUtils.ts:15 | When the path written after `](` has its first `)` at `k`, the inline match at the start ends at that `)` and its target is the path's first `k` characters. |
| ImageLinks.ParenCutsPath | imageUtils.ts:13-43 | For a new path whose first `)` is at `k`, with no whitespace at either end of the first `k` characters and no quote at their end, the first reference read back from the written link has only those `k` characters as its path. |
| ImageLinks.NumberedNameReadBack | imageUtils.ts:13-43 | The link written for the numbered copy `d/img (1).png` reads back with path `d/img (1`. |
| ImageLinks.MarkdownImageExample | tests/imageUtils.test.ts:4-11 | `![alt](http://example.com/a.png "title")` yields one reference with alt `alt`, the URL as path and title `title`. |
| ImageLinks.WikiImageExample | tests/imageUtils.test.ts:13-19 | `![[images/pic.png\|desc]]` yields one reference with path `images/pic.png` and alt `desc`. |
| ImageLinks.BuildLinkExample | tests/imageUtils.test.ts:21-25 | The link for alt `a`, title `t` and new path `folder/img.png` is `![a](folder/img.png "t")`. |
| ImageLinks.PipeJoinedFields | imageUtils.ts:31-33 | Two `\|`-free pieces without surrounding whitespace, joined by `\|`, are read back as the path and the alt text. |
| JsText.TrimPads | imageUtils.ts:20 | `trim` returns the core of the string: whitespace surrounds it in the input, and it neither starts nor ends with whitespace. |
| JsText.TrimNoSpace | imageUtils.ts:33 | Trimming a string without surrounding whitespace returns it unchanged. |
| JsText.SplitFirstTwo | imageUtils.ts:32 | The first piece is the prefix before the first separator. The second piece is absent exactly when there is no separator. Otherwise it is the separator-free text after the first separator, up to the next separator or the end. |
| JsText.SplitFirstTwoAt | imageUtils.ts:32 | A string whose first separator is at `i` and whose next separator, or end, is at `j` splits into the text before `i` and the text strictly between `i` and `j`. |
| JsText.JoinWithSnoc | main.ts:53 | For a non-empty list, joining one more element appends the separator and that element. (`JoinWith` itself gives a one-element list as that element alone.) |
| JsText.IndexOfFirst | imageUtils.ts:15-16 | `indexOf` finds the first occurrence at or after its start. |
| JsText.DecimalRoundTrip | main.ts:53 | Reading back the decimal rendering of a count gives the count. |
| JsText.LeadingNumber | main.ts:53 | A number rendered at the front of a string, followed by a non-digit, determines both itself and the rest of the string. |
| PosixPath.ParseName | imageUtils.ts:49 | `name` and `ext` spell the base name. The extension is empty exactly when the base name has no dot after its first character, or is `..`. Otherwise it starts at the last dot, which is never the first character. |
| PosixPath.BaseNameOfJoin | imageUtils.ts:75 | `BaseName`, modelling `path.basename`, applied to `JoinPath(dir, segment)` (`path.posix.join` then `normalizePath`) gives back the segment, for a non-empty segment without `/`. |
| PosixPath.DirNameOfJoin | imageUtils.ts:70 | `DirName`, modelling `path.posix.dirname`, applied to `JoinPath(folder, segment)` gives back the folder, for a folder other than the vault root that does not end in `/`, and a non-empty segment without `/`. |
| ImageStore.CandidateInjective | imageUtils.ts:51 | Distinct indices give distinct alternative names. |
| ImageStore.CandidatesBound | imageUtils.ts:50-53 | A finite set of existing paths holds at most as many alternative names as it has elements, so the search ends. |
| ImageStore.FirstFree | imageUtils.ts:50-53 | The loop stops at the least index, from its start on, whose alternative name is free. |
| ImageStore.GetUniqueFilename | imageUtils.ts:45-55 | Over the set of existing paths (files and folders), the name returned does not exist. It is `dir/base` when that is free. Otherwise it is `dir/name (i)ext` for the least `i >= 1` that is free. |
| ImageStore.UniqueNameShape | imageUtils.ts:47-54 | For a `/`-free base name, whenever a name is actually added (the base is non-empty, or the folder itself is taken), the chosen path is `dir` joined with its own base name. That base name is `base`, or `base` with ` (i)` put before its extension. |
| ImageStore.NumberedBeforeExtension | imageUtils.ts:45-55 | With `d/img.png` taken the name is `d/img (1).png`. With `d/img (1).png` taken as well it is `d/img (2).png`. |
| ImageStore.FirstAlternative | imageUtils.ts:48-54 | When `dir/base` exists and its first alternative does not, the first alternative `dir/name (1)ext` is returned. |
| ImageStore.SecondAlternative | imageUtils.ts:48-54 | When `dir/base` and its first alternative exist and the second does not, the second alternative is returned. |
| ImageStore.EmptyBaseName | imageUtils.ts:45-55 | An empty base name names the download folder itself, which exists, so `dir/ (1)` is returned. |
| ImageStore.Classify | imageUtils.ts:61-71 | A source that `IsRemoteUrl` accepts, that is one with an `http://` or `https://` prefix in any letter case, is fetched remotely. Otherwise the link index's answer is read, and when there is none, the path relative to the note's folder (`JoinPath` of `DirName` of the note and the source). |
| ImageStore.Fetch | imageUtils.ts:62-72 | A remote source gives the HTTP answer. A local read succeeds exactly when the file exists, and then gives its bytes. |
| ImageStore.SaveImage | imageUtils.ts:57-76 | The save succeeds exactly when the fetch does, and a failure carries the fetch's message. On success it writes one file at a path that was neither a file nor the download folder, changes nothing else, and returns that path's base name. |
| ImageStore.SaveImageWrites | imageUtils.ts:58-74 | A successful save writes the fetched bytes at the unique name for the base name of `src`. Every other file keeps its bytes. |
| ImageStore.SavedUnderDir | imageUtils.ts:58-75 | For every successful save into a download folder other than the vault root, the returned name put back under the folder is the path written. So the link main.ts:72 writes points at the new copy. |
| DownloadPlugin.Splice | main.ts:73 | Replacing `[start, end)` keeps the text before `start`, puts the piece in, and keeps the text from `end` on. |
| DownloadPlugin.SaveImageAddsOneFile | imageUtils.ts:74 | `saveImage` adds exactly one file and overwrites none. |
| DownloadPlugin.Step | main.ts:68-77 | A reference is skipped exactly when its path is under the download folder. Otherwise it is rewritten exactly when the save succeeds: the text gets the link to `dir/filename` with the returned name, the vault becomes the save's, and the count goes up by one. A failed save gives its message, appends `path: message` and changes neither the text nor the vault. A skip changes nothing. |
| DownloadPlugin.Walk | main.ts:67-77 | The loop over `links[..i]` from the last reference to the first adds exactly `i` outcomes, one per handled reference, in front of the outcomes it started with, which it keeps unchanged. |
| DownloadPlugin.Process | main.ts:63-82 | For any list of references and any save: `total` is the number of references and there is one outcome each. No references gives `{0, 0, []}` and no write. A written text differs from the input. |
| DownloadPlugin.ProcessFile | main.ts:61-83 | `total` is the number of references found. A note with no reference gives `{0, 0, []}` and is not written. A note that is written has changed. |
| DownloadPlugin.WalkSkips | main.ts:67-69 | The walk skips exactly the references already in the download folder. |
| DownloadPlugin.WalkCounts | main.ts:71-76 | The walk adds one success per rewritten reference and one error per failed one. |
| DownloadPlugin.KindsPartition | main.ts:69-77 | Every reference is rewritten, failed or skipped, and only one of these. |
| DownloadPlugin.ProcessCounts | main.ts:64-77 | For any references and any save: successes count the rewritten references, errors the failed ones, and with the skipped ones they add up to `total`. Exactly the references under the download folder are skipped. |
| DownloadPlugin.ProcessFileCounts | main.ts:63-77 | The successes count the rewritten references and the errors the failed ones. These plus the skipped references add up to `total`, skipped ones included. |
| DownloadPlugin.WalkErrors | main.ts:67-76 | The walk appends the error lines in the order it meets the failures. |
| DownloadPlugin.ProcessErrors | main.ts:67-76 | For any references and any save, the errors are the failed references' lines, last reference first. |
| DownloadPlugin.ProcessFileErrors | main.ts:67-76 | The errors returned are the `path: message` lines of the failed references, from the last reference to the first. |
| DownloadPlugin.WalkVault | main.ts:71-74 | For a save that adds exactly one new file and changes no other (`AddsOneFile`), the walk never changes an existing file, and it adds one file per success. |
| DownloadPlugin.ProcessVault | main.ts:71-74 | With a save that adds one file and overwrites none, no file is overwritten and one file is added per success. |
| DownloadPlugin.ProcessFileVault | main.ts:71 | `processFile` never overwrites a file, and it adds one file per success. |
| DownloadPlugin.SaveImageSavesUnder | imageUtils.ts:58-75 | Into a download folder other than the vault root, every successful `saveImage` writes `dir/filename` for the name it returns. |
| DownloadPlugin.WalkCopies | main.ts:67-77 | For a save that adds exactly one new file (`AddsOneFile`) and writes `dir/filename` for the name it returns (`SavesUnder`), every reference the walk rewrote links to `dir/filename`, a file the walk added and that is still there at the end. |
| DownloadPlugin.ProcessCopies | main.ts:66-78 | For a save that adds one file and writes under `dir`, every rewritten reference links to a file that did not exist before and exists afterwards. |
| DownloadPlugin.ProcessFileCopies | main.ts:71-73 | For a download folder other than the vault root, every reference `processFile` rewrote links to a copy that it created. |
| DownloadPlugin.WalkUnchanged | main.ts:70-77 | A walk without a success leaves the text as it was. |
| DownloadPlugin.ProcessUnchanged | main.ts:70-81 | For any references and any save, a run with no success writes nothing. |
| DownloadPlugin.NoSuccessNoWrite | main.ts:79-81 | A note where nothing was downloaded is not written. |
| DownloadPlugin.AssembleShift | main.ts:73 | Starting the assembly earlier adds only the untouched text before the next span. |
| DownloadPlugin.StepContent | main.ts:67-74 | Splicing the current reference keeps the invariant of the backward walk. The text is the original up to that reference, followed by the result for the references already handled. |
| DownloadPlugin.WalkContent | main.ts:66-78 | After the backward walk, the text is the original with each handled span replaced as its outcome says. |
| DownloadPlugin.ProcessContent | main.ts:66-81 | For non-overlapping references and any save, the new text is the original with each span replaced as its outcome says. It is written exactly when it differs. |
| DownloadPlugin.ProcessFileContent | main.ts:66-81 | References are handled from last to first, so the offsets of earlier ones stay valid. With non-overlapping references, the new text is the old one with exactly the rewritten spans replaced by links to the copies, everything else kept in order. The note is written exactly when that text differs. For a download folder other than the vault root, each link points at a file the run created. |
| DownloadPlugin.ProcessAll | main.ts:40-47 | The vault-wide totals are sums over the notes. Successes plus errors never exceed the total, and an empty vault reports zero. |
| DownloadPlugin.Summary | main.ts:53 | The message starts with `Downloaded <success>/<total> images.` and has an error part exactly when there are errors. |
| DownloadPlugin.SummaryErrorPart | main.ts:53 | With errors, the rest of the message after the counts is ` Errors: ` followed by the errors joined with `; `. |
| DownloadPlugin.SummaryOneMoreError | main.ts:53 | When there is already at least one error, one more error appends `; ` and that error to the message. The first error adds ` Errors: ` and the error instead (`SummaryErrorPart`). |
| DownloadPlugin.SummaryCounts | main.ts:53 | Equal summaries report equal counts, so the counts can be read back from the message. |

## Left out

- The worker pool of `downloadImagesInVault` (main.ts:38-52) is left out. Its purpose is concurrency, and the order of its errors depends on completion order. `ProcessAll` processes the notes one after another and concatenates their errors.
- Plugin lifecycle, command registration, the settings tab, `Notice` and settings.ts are host UI glue and are not modelled.
- `normalizePath` and `path.posix.join` are modelled by `JoinPath`. `JoinPath` drops the vault-root prefix, returns the folder for an empty name (`path.posix.join` skips empty segments), and otherwise joins with `/`. It does not collapse `..`, `.` or repeated separators inside either part.
- `path.basename` (imageUtils.ts:58,75) and `path.parse` (imageUtils.ts:49) are the platform's own functions, not the `path.posix` ones. On Windows they also split at `\`. `BaseName` and `ParseName` model them as on POSIX, where only `/` separates.
- Folder creation is not modelled. The vault is a map of files, and the only folder counted as an existing path is the download folder, which settings.ts:25-31 creates. Other folders that happen to have the name of a candidate are not modelled.
- A download folder at the vault root (`""` or `.` after normalization) is left out of `SavedUnderDir`, `SaveImageSavesUnder`, `ProcessFileCopies` and the copy clause of `ProcessFileContent`. For the folder `""` main.ts:72 writes the link `/name`, and for `.` it writes `./name`, while the file is saved at the vault path `name`. Neither link text is the path of the copy.
- Reading the note itself, and a failure of that read, are not modelled. The note's text is an input.
- Writing the note (`vault.modify`) is not modelled. The written text is returned instead.
- A failure of `createBinary` is not modelled. Every write succeeds, so a save fails only when its fetch fails.
- HTTP status handling is not modelled. The HTTP client is an oracle that returns bytes or an error message.
- Lengths and offsets are counted in `char`s. UTF-16 code units are not modelled, so characters outside the Basic Multilingual Plane count once rather than twice.
- Overlapping inline and embed spans, such as `![a](![[b]])`, are left out. The code would splice stale offsets there, so `ProcessFileContent` requires non-overlapping references.
- ImageLinks.BuildMarkdownLink: its exact output appears as `BuildLinkExample` and through `BuildReadsBack`. The function's own contract gives only the prefix, the closing `)` and the length, not the full string.
- PosixPath.BaseName: its contract states only that the result is free of separators. Its agreement with Node is shown only for joined paths, in `BaseNameOfJoin`.
- PosixPath.DirName: its contract states only the case with no separator. Its agreement with Node is shown for joined folders, in `DirNameOfJoin`.
- DownloadPlugin.Summary: its contract gives the counts prefix and when an error part is present. The error part's text is stated by `SummaryErrorPart`.
- DownloadPlugin.ProcessAll: its contract bounds the totals but does not restate each note's counts. The per-note results come from `ProcessFile`.
