/** Finding image references in a note and writing one back: `findImageLinks`
    and `buildMarkdownLink`. The two global regular expressions of the scanner
    are deterministic (each character class stops at the first closing
    delimiter), so each is reproduced exactly by a scanner over `seq<char>`. */
module ImageLinks {
  import opened Wrappers
  import opened JsText

  /** One image reference: the half-open span `[start, end)` it occupies in the
      note, its target path, and its optional alt text and title. */
  datatype ImageLink = ImageLink(start: nat, end: nat, path: string, alt: Option<string>, title: Option<string>)

  // ---------------------------------------------------------------------------
  // The title suffix of an inline target: /^(.*)\s+"([^"]*)"$/

  /** One way the title pattern can match `t`: `t[..k]` holds no line terminator
      (the `.*`), `t[k..o]` is non-empty whitespace (the `\s+`), `t[o]` and the
      last character are quotes, and no quote lies between them. */
  predicate TitleSplitAt(t: string, k: int, o: int) {
    && 0 <= k < o < |t| - 1
    && t[|t| - 1] == '"' && t[o] == '"'
    && Absent(t, '"', o + 1, |t| - 1)
    && (forall x :: k <= x < o ==> IsWhitespace(t[x]))
    && (forall x :: 0 <= x < k ==> !IsLineTerminator(t[x]))
  }

  /** Index of the first line terminator of `t` at or after `from`, or `|t|`. */
  function FirstLineBreak(t: string, from: nat): (n: nat)
    requires from <= |t|
    ensures from <= n <= |t|
    ensures forall x :: from <= x < n ==> !IsLineTerminator(t[x])
    ensures n < |t| ==> IsLineTerminator(t[n])
    decreases |t| - from
  {
    if from == |t| || IsLineTerminator(t[from]) then from else FirstLineBreak(t, from + 1)
  }

  /** Start of the run of whitespace that ends just before index `o`. */
  function SpaceRunStart(t: string, o: nat): (w: nat)
    requires o <= |t|
    ensures w <= o
    ensures forall x :: w <= x < o ==> IsWhitespace(t[x])
    ensures w > 0 ==> !IsWhitespace(t[w - 1])
  {
    if o == 0 || !IsWhitespace(t[o - 1]) then o else SpaceRunStart(t, o - 1)
  }

  /** The path and the optional title read off a trimmed inline target `t`:
      the closing quote must end `t`, the opening quote is the last one before
      it, and the greedy `.*` takes the path up to the whitespace before the
      opening quote, or up to the first line terminator if that comes earlier. */
  function SplitTitle(t: string): (r: (string, Option<string>))
    ensures r.1.None? ==> r.0 == t
  {
    if |t| < 2 || t[|t| - 1] != '"' then (t, None)
    else
      match LastIndexBefore(t, '"', |t| - 1)
      case None => (t, None)
      case Some(o) =>
        var w := SpaceRunStart(t, o);
        if w == o then (t, None)
        else
          var k := if FirstLineBreak(t, 0) < o - 1 then FirstLineBreak(t, 0) else o - 1;
          if w <= k then (t[..k], Some(t[o + 1..|t| - 1])) else (t, None)
  }

  /** `SplitTitle` is the title pattern: it finds a title exactly when the
      pattern matches, and then the path and title are the pieces of the match
      whose path is longest, as the greedy `.*` demands. */
  lemma SplitTitleMatchesPattern(t: string)
    ensures SplitTitle(t).1.None? <==> forall k, o :: !TitleSplitAt(t, k, o)
    ensures SplitTitle(t).1.Some? ==>
              var (path, title) := (SplitTitle(t).0, SplitTitle(t).1.value);
              && TitleSplitAt(t, |path|, |t| - |title| - 2)
              && path == t[..|path|] && title == t[|t| - |title| - 1..|t| - 1]
              && forall k, o :: TitleSplitAt(t, k, o) ==> k <= |path|
  {
    if |t| >= 2 && t[|t| - 1] == '"' {
      match LastIndexBefore(t, '"', |t| - 1)
      case None =>
      case Some(o) =>
        TitleQuoteIsLast(t, o);
        var w := SpaceRunStart(t, o);
        if w < o {
          var k := if FirstLineBreak(t, 0) < o - 1 then FirstLineBreak(t, 0) else o - 1;
          if w <= k {
            assert TitleSplitAt(t, k, o);
          }
        }
    }
  }

  /** Every title split of `t` uses the last quote before the closing one, and
      starts its whitespace no earlier than the run before that quote. */
  lemma TitleQuoteIsLast(t: string, o: nat)
    requires o < |t| - 1 && t[o] == '"' && Absent(t, '"', o + 1, |t| - 1)
    ensures forall k, o' :: TitleSplitAt(t, k, o') ==> o' == o
    ensures forall k, o' :: TitleSplitAt(t, k, o') ==> SpaceRunStart(t, o) <= k < o
    ensures forall k, o' :: TitleSplitAt(t, k, o') ==> k <= FirstLineBreak(t, 0)
  {
    var w := SpaceRunStart(t, o);
    var n := FirstLineBreak(t, 0);
    forall k, o' | TitleSplitAt(t, k, o')
      ensures o' == o && w <= k < o && k <= n
    {
    }
  }

  // ---------------------------------------------------------------------------
  // Raw matches of the two patterns

  /** The capture groups of a match: the alt text and the raw target of the
      inline form, or the text between the double brackets of the embed form. */
  datatype Form = InlineForm(alt: string, target: string) | EmbedForm(inner: string)

  /** A match of one of the two patterns: the half-open span `[start, end)` it
      occupies and its capture groups. */
  datatype Match = Match(start: nat, end: nat, form: Form)

  // ---------------------------------------------------------------------------
  // The inline form ![alt](target): /!\[([^\]]*)\]\(([^)]+)\)/g

  /** `text` holds `![alt](target)` at `p`: `q` is the `]` ending the alt text
      (which has no `]`) and `r` the `)` ending a non-empty target (which has no `)`). */
  predicate InlineShape(text: string, p: int, q: int, r: int) {
    && 0 <= p && p + 2 <= q && q + 2 < r < |text|
    && text[p] == '!' && text[p + 1] == '[' && text[q] == ']' && text[q + 1] == '(' && text[r] == ')'
    && Absent(text, ']', p + 2, q) && Absent(text, ')', q + 2, r)
  }

  /** The inline match starting exactly at `p`, if there is one: the first `]`
      after `![` must be followed by `(`, and the first `)` after that must leave
      a non-empty target. */
  function InlineAt(text: string, p: nat): (m: Option<Match>)
    ensures m.Some? ==> m.value.start == p && p + 5 <= m.value.end <= |text| && m.value.form.InlineForm?
    ensures m.Some? ==> SpanShape(text, p, m.value.end) && text[m.value.end - 1] == ')'
  {
    if p + 2 <= |text| && text[p] == '!' && text[p + 1] == '[' then
      match IndexOf(text, ']', p + 2)
      case None => None
      case Some(q) =>
        if q + 1 < |text| && text[q + 1] == '(' then
          match IndexOf(text, ')', q + 2)
          case Some(r) =>
            if r > q + 2 then Some(Match(p, r + 1, InlineForm(text[p + 2..q], text[q + 2..r]))) else None
          case None => None
        else None
    else None
  }

  /** The scanner and the pattern agree: there is an inline match at `p` exactly
      when `text` has the inline shape there, and then its span runs to the `)`,
      its alt text is what lies between `![` and `](`, and its target is what
      lies between `(` and `)` (the shape's delimiters are unique). */
  lemma InlineAtMatchesShape(text: string, p: nat)
    ensures InlineAt(text, p).Some? <==> exists q, r :: InlineShape(text, p, q, r)
    ensures forall q, r :: InlineShape(text, p, q, r) ==>
              InlineAt(text, p) == Some(Match(p, r + 1, InlineForm(text[p + 2..q], text[q + 2..r])))
  {
    forall q, r | InlineShape(text, p, q, r)
      ensures InlineAt(text, p) == Some(Match(p, r + 1, InlineForm(text[p + 2..q], text[q + 2..r])))
    {
      IndexOfFirst(text, ']', p + 2, q);
      IndexOfFirst(text, ')', q + 2, r);
    }
    if InlineAt(text, p).Some? {
      var q := IndexOf(text, ']', p + 2).value;
      var r := IndexOf(text, ')', q + 2).value;
      assert InlineShape(text, p, q, r);
    }
  }

  // ---------------------------------------------------------------------------
  // The embed form ![[inner]]: /!\[\[([^\]]+)\]\]/g

  /** `text` holds `![[inner]]` at `p`, with `inner` non-empty, free of `]`, and
      ending at `q`. */
  predicate EmbedShape(text: string, p: int, q: int) {
    && 0 <= p && p + 3 < q && q + 1 < |text|
    && text[p] == '!' && text[p + 1] == '[' && text[p + 2] == '['
    && text[q] == ']' && text[q + 1] == ']'
    && Absent(text, ']', p + 3, q)
  }

  /** The embed match starting exactly at `p`, if there is one: the first `]`
      after `![[` must leave a non-empty inner text and be followed by `]`. */
  function EmbedAt(text: string, p: nat): (m: Option<Match>)
    ensures m.Some? ==> m.value.start == p && p + 6 <= m.value.end <= |text| && m.value.form.EmbedForm?
    ensures m.Some? ==> SpanShape(text, p, m.value.end) && text[m.value.end - 2..m.value.end] == "]]"
  {
    if p + 3 <= |text| && text[p] == '!' && text[p + 1] == '[' && text[p + 2] == '[' then
      match IndexOf(text, ']', p + 3)
      case None => None
      case Some(q) =>
        if q > p + 3 && q + 1 < |text| && text[q + 1] == ']' then Some(Match(p, q + 2, EmbedForm(text[p + 3..q]))) else None
    else None
  }

  /** The scanner and the pattern agree for the embed form. */
  lemma EmbedAtMatchesShape(text: string, p: nat)
    ensures EmbedAt(text, p).Some? <==> exists q :: EmbedShape(text, p, q)
    ensures forall q :: EmbedShape(text, p, q) ==> EmbedAt(text, p) == Some(Match(p, q + 2, EmbedForm(text[p + 3..q])))
  {
    forall q | EmbedShape(text, p, q)
      ensures EmbedAt(text, p) == Some(Match(p, q + 2, EmbedForm(text[p + 3..q])))
    {
      IndexOfFirst(text, ']', p + 3, q);
    }
    if EmbedAt(text, p).Some? {
      var q := IndexOf(text, ']', p + 3).value;
      assert EmbedShape(text, p, q);
    }
  }

  /** No position starts both an inline and an embed match: after the first `]`
      the inline form needs `(` and the embed form needs `]`. */
  lemma FormsNeverShareStart(text: string, p: nat)
    ensures !(InlineAt(text, p).Some? && EmbedAt(text, p).Some?)
  {
    InlineAtMatchesShape(text, p);
    EmbedAtMatchesShape(text, p);
    if InlineAt(text, p).Some? && EmbedAt(text, p).Some? {
      var q, r :| InlineShape(text, p, q, r);
      var q' :| EmbedShape(text, p, q');
    }
  }

  // ---------------------------------------------------------------------------
  // The two global scans and their merge

  /** A matcher for a text of length `n`: a match reported at `p` starts at `p`
      and ends after it, inside the text. */
  ghost predicate Anchored(at: nat -> Option<Match>, n: nat) {
    forall p: nat :: at(p).Some? ==> at(p).value.start == p < at(p).value.end <= n
  }

  /** The successive matches of a global regular expression, searched from
      `from` in a text of length `n`: each search takes the leftmost match and
      resumes where that match ended. */
  function Scan(at: nat -> Option<Match>, n: nat, from: nat): (ms: seq<Match>)
    requires from <= n && Anchored(at, n)
    ensures forall i :: 0 <= i < |ms| ==> from <= ms[i].start && at(ms[i].start) == Some(ms[i])
    decreases n - from
  {
    if from == n then []
    else
      match at(from)
      case None => Scan(at, n, from + 1)
      case Some(m) => [m] + Scan(at, n, m.end)
  }

  /** Each span ends no later than the next one starts. */
  predicate NonOverlapping(ms: seq<Match>) {
    forall i, j :: 0 <= i < j < |ms| ==> ms[i].end <= ms[j].start
  }

  /** The matches of one scan never overlap: each starts where or after the
      previous one ended. */
  lemma {:induction false} ScanDisjoint(at: nat -> Option<Match>, n: nat, from: nat)
    requires from <= n && Anchored(at, n)
    ensures NonOverlapping(Scan(at, n, from))
    decreases n - from
  {
    if from < n {
      match at(from)
      case None =>
        ScanDisjoint(at, n, from + 1);
      case Some(m) =>
        var rest := Scan(at, n, m.end);
        assert Scan(at, n, from) == [m] + rest;
        ScanDisjoint(at, n, m.end);
    }
  }

  /** Position `p` lies inside one of the spans of `ms`. */
  predicate Covers(ms: seq<Match>, p: nat) {
    exists i :: 0 <= i < |ms| && ms[i].start <= p < ms[i].end
  }

  /** A scan misses no match: every position from `from` on where the pattern
      matches lies inside some reported match (it is reported itself, or an
      earlier match already consumed it). */
  lemma {:induction false} ScanComplete(at: nat -> Option<Match>, n: nat, from: nat)
    requires from <= n && Anchored(at, n)
    ensures forall p: nat :: from <= p && at(p).Some? ==> Covers(Scan(at, n, from), p)
    decreases n - from
  {
    if from < n {
      match at(from)
      case None =>
        ScanComplete(at, n, from + 1);
      case Some(m) =>
        var rest := Scan(at, n, m.end);
        var ms := [m] + rest;
        assert Scan(at, n, from) == ms;
        ScanComplete(at, n, m.end);
        forall p: nat | from <= p && at(p).Some?
          ensures Covers(ms, p)
        {
          CoversCons(m, rest, p);
        }
    }
  }

  /** A position inside the first span, or covered by the rest, is covered. */
  lemma CoversCons(m: Match, rest: seq<Match>, p: nat)
    requires m.start <= p < m.end || Covers(rest, p)
    ensures Covers([m] + rest, p)
  {
    var ms := [m] + rest;
    if m.start <= p < m.end {
      assert ms[0] == m;
    } else {
      var i :| 0 <= i < |rest| && rest[i].start <= p < rest[i].end;
      assert ms[i + 1] == rest[i];
    }
  }

  /** Starts strictly increase along `ms`. */
  predicate Ascending(ms: seq<Match>) {
    forall i, j :: 0 <= i < j < |ms| ==> ms[i].start < ms[j].start
  }

  /** The matches of one scan have ascending starts and lie inside the text. */
  lemma ScanAscending(at: nat -> Option<Match>, n: nat, from: nat)
    requires from <= n && Anchored(at, n)
    ensures Ascending(Scan(at, n, from))
  {
    var ms := Scan(at, n, from);
    ScanDisjoint(at, n, from);
    assert forall i :: 0 <= i < |ms| ==> at(ms[i].start) == Some(ms[i]);
  }

  /** The stable sort by `start` of `a + b`, for `a` and `b` already sorted. */
  function MergeByStart(a: seq<Match>, b: seq<Match>): (r: seq<Match>)
    ensures multiset(r) == multiset(a) + multiset(b)
    decreases |a| + |b|
  {
    if |a| == 0 then b
    else if |b| == 0 then a
    else if a[0].start <= b[0].start then
      assert a == [a[0]] + a[1..];
      [a[0]] + MergeByStart(a[1..], b)
    else
      assert b == [b[0]] + b[1..];
      [b[0]] + MergeByStart(a, b[1..])
  }

  /** Merging two ascending sequences that share no start gives an ascending sequence. */
  lemma {:induction false} MergeAscending(a: seq<Match>, b: seq<Match>)
    requires Ascending(a) && Ascending(b)
    requires forall i, j :: 0 <= i < |a| && 0 <= j < |b| ==> a[i].start != b[j].start
    ensures Ascending(MergeByStart(a, b))
    decreases |a| + |b|
  {
    var r := MergeByStart(a, b);
    if |a| > 0 && |b| > 0 {
      if a[0].start <= b[0].start {
        MergeAscending(a[1..], b);
        MergeAbove(a[1..], b, a[0].start);
        AscendingCons(a[0], MergeByStart(a[1..], b));
      } else {
        MergeAscending(a, b[1..]);
        MergeAbove(a, b[1..], b[0].start);
        AscendingCons(b[0], MergeByStart(a, b[1..]));
      }
    }
  }

  /** An ascending sequence stays ascending behind a match that starts before all of it. */
  lemma AscendingCons(m: Match, ms: seq<Match>)
    requires Ascending(ms) && forall k :: 0 <= k < |ms| ==> m.start < ms[k].start
    ensures Ascending([m] + ms)
  {
  }

  /** A bound below every start of `a` and of `b` is below every start of their merge. */
  lemma MergeAbove(a: seq<Match>, b: seq<Match>, x: int)
    requires forall i :: 0 <= i < |a| ==> x < a[i].start
    requires forall j :: 0 <= j < |b| ==> x < b[j].start
    ensures forall k :: 0 <= k < |MergeByStart(a, b)| ==> x < MergeByStart(a, b)[k].start
  {
    var r := MergeByStart(a, b);
    forall k | 0 <= k < |r|
      ensures x < r[k].start
    {
      FromOnePass(r[k], r, a, b);
    }
  }

  /** The inline pattern as a matcher over positions of `text`. */
  function InlineMatcher(text: string): (at: nat -> Option<Match>)
    ensures Anchored(at, |text|)
    ensures forall p: nat :: at(p) == InlineAt(text, p)
  {
    (p: nat) => InlineAt(text, p)
  }

  /** The embed pattern as a matcher over positions of `text`. */
  function EmbedMatcher(text: string): (at: nat -> Option<Match>)
    ensures Anchored(at, |text|)
    ensures forall p: nat :: at(p) == EmbedAt(text, p)
  {
    (p: nat) => EmbedAt(text, p)
  }

  /** The matches of the inline pass (`matchAll` of the inline pattern). */
  function InlineMatches(text: string): (ms: seq<Match>)
    ensures forall i :: 0 <= i < |ms| ==> InlineAt(text, ms[i].start) == Some(ms[i])
  {
    Scan(InlineMatcher(text), |text|, 0)
  }

  /** The matches of the embed pass. */
  function EmbedMatches(text: string): (ms: seq<Match>)
    ensures forall i :: 0 <= i < |ms| ==> EmbedAt(text, ms[i].start) == Some(ms[i])
  {
    Scan(EmbedMatcher(text), |text|, 0)
  }

  /** Inline and embed matches of one text never share a start. */
  lemma PassesShareNoStart(text: string)
    ensures forall i, j :: 0 <= i < |InlineMatches(text)| && 0 <= j < |EmbedMatches(text)| ==>
              InlineMatches(text)[i].start != EmbedMatches(text)[j].start
  {
    var inline, embed := InlineMatches(text), EmbedMatches(text);
    forall i, j | 0 <= i < |inline| && 0 <= j < |embed|
      ensures inline[i].start != embed[j].start
    {
      FormsNeverShareStart(text, inline[i].start);
    }
  }

  /** All matches of both passes, sorted by start. No two share a start, so the
      stable sort is the merge of the two passes and its order is strict. */
  function FindMatches(text: string): (ms: seq<Match>)
    ensures Ascending(ms)
    ensures multiset(ms) == multiset(InlineMatches(text)) + multiset(EmbedMatches(text))
  {
    ScanAscending(InlineMatcher(text), |text|, 0);
    ScanAscending(EmbedMatcher(text), |text|, 0);
    PassesShareNoStart(text);
    MergeAscending(InlineMatches(text), EmbedMatches(text));
    MergeByStart(InlineMatches(text), EmbedMatches(text))
  }

  /** Every match found is the inline or the embed match at its start. */
  lemma FoundAreMatches(text: string)
    ensures forall m :: m in FindMatches(text) ==> InlineAt(text, m.start) == Some(m) || EmbedAt(text, m.start) == Some(m)
  {
    var inline, embed := InlineMatches(text), EmbedMatches(text);
    forall m | m in FindMatches(text)
      ensures InlineAt(text, m.start) == Some(m) || EmbedAt(text, m.start) == Some(m)
    {
      FromOnePass(m, FindMatches(text), inline, embed);
      if m in inline {
        var i :| 0 <= i < |inline| && inline[i] == m;
      } else {
        var i :| 0 <= i < |embed| && embed[i] == m;
      }
    }
  }

  /** An element of a sequence that is a permutation of `a + b` is in `a` or in `b`. */
  lemma FromOnePass(m: Match, ms: seq<Match>, a: seq<Match>, b: seq<Match>)
    requires m in ms && multiset(ms) == multiset(a) + multiset(b)
    ensures m in a || m in b
  {
    assert m in multiset(ms);
  }

  // ---------------------------------------------------------------------------
  // From matches to references

  /** The reference an inline match denotes: the alt text as written, the
      target trimmed and split into path and title. */
  function InlineReference(start: nat, end: nat, alt: string, target: string): (l: ImageLink)
    ensures l.start == start && l.end == end && l.alt == Some(alt)
  {
    var split := SplitTitle(Trim(target));
    ImageLink(start, end, split.0, Some(alt), split.1)
  }

  /** The reference an embed match denotes: `inner` split on `|`, the first piece
      trimmed as the path, the second (if any) trimmed as the alt text, no title. */
  function EmbedReference(start: nat, end: nat, inner: string): (l: ImageLink)
    ensures l.start == start && l.end == end && l.title == None
  {
    var split := SplitFirstTwo(inner, '|');
    ImageLink(start, end, Trim(split.0), if split.1.Some? then Some(Trim(split.1.value)) else None, None)
  }

  /** The reference a match denotes; it keeps the match's span. */
  function Reference(m: Match): (l: ImageLink)
    ensures l.start == m.start && l.end == m.end
  {
    match m.form
    case InlineForm(alt, target) => InlineReference(m.start, m.end, alt, target)
    case EmbedForm(inner) => EmbedReference(m.start, m.end, inner)
  }

  /** Starts strictly increase along `ls`. */
  predicate SortedByStart(ls: seq<ImageLink>) {
    forall i, j :: 0 <= i < j < |ls| ==> ls[i].start < ls[j].start
  }

  /** `findImageLinks`: the reference of every match of either pattern, sorted
      by start. */
  function FindImageLinks(text: string): (links: seq<ImageLink>)
    ensures |links| == |FindMatches(text)|
    ensures SortedByStart(links)
    ensures forall i :: 0 <= i < |links| ==> links[i] == Reference(FindMatches(text)[i])
  {
    var ms := FindMatches(text);
    seq(|ms|, i requires 0 <= i < |ms| => Reference(ms[i]))
  }

  /** The span `[start, end)` lies inside `text`, starts with `![`, and ends with
      `)` or `]]`. */
  predicate SpanShape(text: string, start: int, end: int) {
    && 0 <= start && start + 2 < end <= |text|
    && text[start] == '!' && text[start + 1] == '['
    && (text[end - 1] == ')' || (text[end - 2] == ']' && text[end - 1] == ']'))
  }

  /** Every match found occupies a span of the shape above. */
  lemma FoundMatchSpans(text: string)
    ensures forall m :: m in FindMatches(text) ==> SpanShape(text, m.start, m.end)
  {
    FoundAreMatches(text);
  }

  /** Every reference found occupies a span of the note that starts with `![` and
      ends with `)` (inline form) or `]]` (embed form). */
  lemma FoundSpans(text: string)
    ensures forall l :: l in FindImageLinks(text) ==> SpanShape(text, l.start, l.end)
  {
    var links, ms := FindImageLinks(text), FindMatches(text);
    FoundMatchSpans(text);
    forall l | l in links
      ensures SpanShape(text, l.start, l.end)
    {
      var i :| 0 <= i < |links| && links[i] == l;
      assert ms[i] in ms;
    }
  }

  // ---------------------------------------------------------------------------
  // Writing a reference back

  /** The ` "title"` suffix `buildMarkdownLink` writes: only for a non-empty title. */
  function TitleSuffix(title: Option<string>): string {
    if title.Some? && title.value != "" then " \"" + title.value + "\"" else ""
  }

  /** The title that survives a rewrite: an empty title is dropped. */
  function KeptTitle(title: Option<string>): Option<string> {
    if title.Some? && title.value != "" then title else None
  }

  /** `buildMarkdownLink`: always the inline form, with the alt text (empty when
      absent) and, only when it is non-empty, the title. */
  function BuildMarkdownLink(link: ImageLink, newPath: string): (s: string)
    ensures StartsWith(s, "![" + link.alt.GetOr("") + "](" + newPath) && s[|s| - 1] == ')'
    ensures |s| == 5 + |link.alt.GetOr("")| + |newPath| + |TitleSuffix(link.title)|
  {
    "![" + link.alt.GetOr("") + "](" + newPath + TitleSuffix(link.title) + ")"
  }

  // ---------------------------------------------------------------------------
  // Reading a written reference back

  /** A scan that meets no match from `from` on reports nothing. */
  lemma {:induction false} ScanNone(at: nat -> Option<Match>, n: nat, from: nat)
    requires from <= n && Anchored(at, n)
    requires forall p: nat :: from <= p < n ==> at(p).None?
    ensures Scan(at, n, from) == []
    decreases n - from
  {
    if from < n {
      ScanNone(at, n, from + 1);
    }
  }

  /** The title pattern splits `path "title"` back into its two parts when the
      path has no line terminator and does not end in whitespace, and the title
      has no quote. */
  lemma SplitTitleOfSuffixed(path: string, title: string)
    requires path != "" && !IsWhitespace(path[|path| - 1])
    requires forall x :: 0 <= x < |path| ==> !IsLineTerminator(path[x])
    requires Absent(title, '"', 0, |title|)
    ensures SplitTitle(path + " \"" + title + "\"") == (path, Some(title))
  {
    var t := path + " \"" + title + "\"";
    var o := |path| + 1;
    SuffixedPieces(path, title);
    LastIndexBeforeLast(t, '"', |t| - 1, o);
    assert SpaceRunStart(t, o - 1) == o - 1;
    assert SpaceRunStart(t, o) == |path|;
    assert FirstLineBreak(t, 0) >= |path|;
  }

  /** The pieces of `path "title"`: the path, a space, the quotes around the
      title, and no quote inside it. */
  lemma SuffixedPieces(path: string, title: string)
    requires Absent(title, '"', 0, |title|)
    ensures var t, o := path + " \"" + title + "\"", |path| + 1;
            && |t| == |path| + |title| + 3
            && t[..|path|] == path && t[o - 1] == ' ' && t[o] == '"' && t[|t| - 1] == '"'
            && t[o + 1..|t| - 1] == title && Absent(t, '"', o + 1, |t| - 1)
            && (forall x :: 0 <= x < |path| ==> t[x] == path[x])
  {
    var t, o := path + " \"" + title + "\"", |path| + 1;
    assert forall x :: o + 1 <= x < |t| - 1 ==> t[x] == title[x - o - 1];
    assert t[o + 1..|t| - 1] == title;
  }

  /** What `buildMarkdownLink` writes can be read back: `alt` has no `]`; the new
      path is non-empty, has no `]`, `)` or line terminator, no surrounding
      whitespace, and (when no title is written) does not end in a quote; a
      written title has no `]`, `)` or quote. */
  predicate ReadableBack(link: ImageLink, newPath: string) {
    var alt := link.alt.GetOr("");
    && Absent(alt, ']', 0, |alt|)
    && newPath != "" && !IsWhitespace(newPath[0]) && !IsWhitespace(newPath[|newPath| - 1])
    && Absent(newPath, ']', 0, |newPath|) && Absent(newPath, ')', 0, |newPath|)
    && (forall x :: 0 <= x < |newPath| ==> !IsLineTerminator(newPath[x]))
    && (match KeptTitle(link.title)
        case None => newPath[|newPath| - 1] != '"'
        case Some(t) => Absent(t, ']', 0, |t|) && Absent(t, ')', 0, |t|) && Absent(t, '"', 0, |t|))
  }

  /** The only `]` of a written reference is the one closing its alt text. */
  lemma BuiltBrackets(link: ImageLink, newPath: string)
    requires ReadableBack(link, newPath)
    ensures var s, q := BuildMarkdownLink(link, newPath), 2 + |link.alt.GetOr("")|;
            && s[q] == ']' && s[q + 1] == '('
            && (forall k :: 0 <= k < |s| && s[k] == ']' ==> k == q)
            && Absent(s, ')', q + 2, |s| - 1)
            && s[2..q] == link.alt.GetOr("")
            && s[q + 2..|s| - 1] == newPath + TitleSuffix(link.title)
  {
    var alt, target := link.alt.GetOr(""), newPath + TitleSuffix(link.title);
    var s, q := BuildMarkdownLink(link, newPath), 2 + |alt|;
    WrittenTargetFree(link, newPath);
    assert s == "![" + alt + "](" + target + ")";
    assert forall k :: 2 <= k < q ==> s[k] == alt[k - 2];
    assert forall k :: q + 2 <= k < |s| - 1 ==> s[k] == target[k - q - 2];
    assert s[2..q] == alt;
    assert s[q + 2..|s| - 1] == target;
  }

  /** A written target has no `]` and no `)`. */
  lemma WrittenTargetFree(link: ImageLink, newPath: string)
    requires ReadableBack(link, newPath)
    ensures var target := newPath + TitleSuffix(link.title);
            Absent(target, ']', 0, |target|) && Absent(target, ')', 0, |target|)
  {
    var suffix := TitleSuffix(link.title);
    var target := newPath + suffix;
    if suffix != "" {
      var t := link.title.value;
      assert suffix == " \"" + t + "\"";
      assert forall k :: 2 <= k < |suffix| - 1 ==> suffix[k] == t[k - 2];
    }
    assert forall k :: |newPath| <= k < |target| ==> target[k] == suffix[k - |newPath|];
  }

  /** A written reference holds one match of the two patterns: the inline match
      spanning all of it. */
  lemma BuiltMatches(link: ImageLink, newPath: string)
    requires ReadableBack(link, newPath)
    ensures var s := BuildMarkdownLink(link, newPath);
            FindMatches(s) == [Match(0, |s|, InlineForm(link.alt.GetOr(""), newPath + TitleSuffix(link.title)))]
  {
    var s, q := BuildMarkdownLink(link, newPath), 2 + |link.alt.GetOr("")|;
    BuiltBrackets(link, newPath);
    SingleInlineText(s, q);
  }

  /** A text that is one inline reference, with no `]` but the one closing its
      alt text, holds that match and nothing else. */
  lemma SingleInlineText(s: string, q: nat)
    requires InlineShape(s, 0, q, |s| - 1)
    requires forall k :: 0 <= k < |s| && s[k] == ']' ==> k == q
    ensures FindMatches(s) == [Match(0, |s|, InlineForm(s[2..q], s[q + 2..|s| - 1]))]
  {
    var m := Match(0, |s|, InlineForm(s[2..q], s[q + 2..|s| - 1]));
    InlineAtMatchesShape(s, 0);
    assert InlineAt(s, 0) == Some(m);
    ScanNone(InlineMatcher(s), |s|, |s|);
    assert InlineMatches(s) == [m];
    forall p: nat | p < |s|
      ensures EmbedMatcher(s)(p).None?
    {
      EmbedAtMatchesShape(s, p);
    }
    ScanNone(EmbedMatcher(s), |s|, 0);
  }

  /** A written target has no surrounding whitespace, so trimming keeps it. */
  lemma WrittenTargetTrimmed(link: ImageLink, newPath: string)
    requires ReadableBack(link, newPath)
    ensures var target := newPath + TitleSuffix(link.title); Trim(target) == target
  {
    var target := newPath + TitleSuffix(link.title);
    assert target[0] == newPath[0] && target[|target| - 1] != ' ';
    TrimNoSpace(target);
  }

  /** The title pattern splits a written target into the new path and the kept title. */
  lemma WrittenTargetSplits(link: ImageLink, newPath: string)
    requires ReadableBack(link, newPath)
    ensures SplitTitle(newPath + TitleSuffix(link.title)) == (newPath, KeptTitle(link.title))
  {
    if KeptTitle(link.title).Some? {
      SplitTitleOfSuffixed(newPath, link.title.value);
      assert newPath + TitleSuffix(link.title) == newPath + " \"" + link.title.value + "\"";
    } else {
      assert newPath + TitleSuffix(link.title) == newPath;
    }
  }

  /** The reference an inline match of a written target denotes has the written
      path and title. */
  lemma BuiltReference(link: ImageLink, newPath: string, start: nat, end: nat)
    requires ReadableBack(link, newPath)
    ensures InlineReference(start, end, link.alt.GetOr(""), newPath + TitleSuffix(link.title))
            == ImageLink(start, end, newPath, Some(link.alt.GetOr("")), KeptTitle(link.title))
  {
    WrittenTargetTrimmed(link, newPath);
    WrittenTargetSplits(link, newPath);
  }

  /** Reading back what `buildMarkdownLink` wrote finds exactly one reference,
      spanning the whole text, with the new path, the alt text (empty when it was
      absent) and the title when a non-empty one was written. */
  lemma BuildReadsBack(link: ImageLink, newPath: string)
    requires ReadableBack(link, newPath)
    ensures var s := BuildMarkdownLink(link, newPath);
            FindImageLinks(s) == [ImageLink(0, |s|, newPath, Some(link.alt.GetOr("")), KeptTitle(link.title))]
  {
    var s := BuildMarkdownLink(link, newPath);
    BuiltMatches(link, newPath);
    BuiltReference(link, newPath, 0, |s|);
  }

  /** `s` starts with `![`, the alt text, `](`, then the path `p`: the opening
      of every link `buildMarkdownLink` writes. */
  predicate LinkOpening(s: string, alt: string, p: string) {
    var q := 2 + |alt|;
    && q + 2 + |p| <= |s|
    && s[0] == '!' && s[1] == '[' && s[q] == ']' && s[q + 1] == '('
    && s[2..q] == alt
    && (forall x :: 0 <= x < |alt| ==> s[2 + x] == alt[x])
    && (forall x :: 0 <= x < |p| ==> s[q + 2 + x] == p[x])
  }

  /** A `)` inside the path ends the target early: the inline match at the
      start of a link opening whose path has its first `)` at `k` has only the
      path's first `k` characters as its target. */
  lemma OpeningCut(s: string, alt: string, p: string, k: nat)
    requires LinkOpening(s, alt, p) && Absent(alt, ']', 0, |alt|)
    requires 0 < k < |p| && p[k] == ')' && Absent(p, ')', 0, k)
    ensures InlineAt(s, 0) == Some(Match(0, |alt| + 5 + k, InlineForm(alt, p[..k])))
  {
    var q := 2 + |alt|;
    forall j | 2 <= j < q
      ensures s[j] != ']'
    {
      assert s[2 + (j - 2)] == alt[j - 2];
    }
    IndexOfFirst(s, ']', 2, q);
    forall j | q + 2 <= j < q + 2 + k
      ensures s[j] != ')'
    {
      assert s[q + 2 + (j - q - 2)] == p[j - q - 2];
    }
    assert s[q + 2 + k] == p[k];
    IndexOfFirst(s, ')', q + 2, q + 2 + k);
    SliceCopies(s, p, q + 2, k);
  }

  /** A stretch of `s` that repeats `p` from `off` on also repeats its prefixes. */
  lemma SliceCopies(s: string, p: string, off: nat, k: nat)
    requires k <= |p| && off + |p| <= |s|
    requires forall x :: 0 <= x < |p| ==> s[off + x] == p[x]
    ensures s[off..off + k] == p[..k]
  {
    assert forall x :: 0 <= x < k ==> s[off..off + k][x] == p[..k][x];
  }

  /** What `buildMarkdownLink` writes opens with the alt text and the new path. */
  lemma BuiltOpening(link: ImageLink, newPath: string)
    ensures LinkOpening(BuildMarkdownLink(link, newPath), link.alt.GetOr(""), newPath)
  {
    var alt, suffix := link.alt.GetOr(""), TitleSuffix(link.title);
    var s, q := BuildMarkdownLink(link, newPath), 2 + |alt|;
    var head := "![" + alt + "](";
    assert s == head + (newPath + suffix + ")");
    assert |head| == q + 2 && head[0] == '!' && head[1] == '[' && head[q] == ']' && head[q + 1] == '(';
    assert forall x :: 0 <= x < |alt| ==> head[2 + x] == alt[x];
    assert head[2..q] == alt;
  }

  /** An inline match at the very start of a text is the first match found. */
  lemma FirstMatchAtZero(s: string, m: Match)
    requires InlineAt(s, 0) == Some(m)
    ensures |FindMatches(s)| > 0 && FindMatches(s)[0] == m
  {
    assert InlineMatches(s) == [m] + Scan(InlineMatcher(s), |s|, m.end);
    assert m in multiset(InlineMatches(s));
    var ms := FindMatches(s);
    assert m in multiset(ms);
    var idx :| 0 <= idx < |ms| && ms[idx] == m;
  }

  /** The name `getUniqueFilename` picks for a second `img.png`, written into a
      link, reads back with its path cut at the `)` of its counter. */
  lemma NumberedNameReadBack()
    ensures var links := FindImageLinks(BuildMarkdownLink(ImageLink(0, 0, "", Some("a"), None), "d/img (1).png"));
            |links| > 0 && links[0].path == "d/img (1"
  {
    var p := "d/img (1).png";
    assert Absent("a", ']', 0, 1) && Absent(p, ')', 0, 8);
    assert p[0] == 'd' && p[7] == '1' && p[8] == ')' && p[..8] == "d/img (1";
    ParenCutsPath(ImageLink(0, 0, "", Some("a"), None), p, 8);
  }

  /** The path read back from a link whose new path has its first `)` at `k`
      is the new path's first `k` characters, when those neither start nor end
      with whitespace and do not end in a quote. */
  lemma ParenCutsPath(link: ImageLink, newPath: string, k: nat)
    requires Absent(link.alt.GetOr(""), ']', 0, |link.alt.GetOr("")|)
    requires 0 < k < |newPath| && newPath[k] == ')' && Absent(newPath, ')', 0, k)
    requires !IsWhitespace(newPath[0]) && !IsWhitespace(newPath[k - 1]) && newPath[k - 1] != '"'
    ensures var links := FindImageLinks(BuildMarkdownLink(link, newPath));
            |links| > 0 && links[0].path == newPath[..k]
  {
    var alt, t := link.alt.GetOr(""), newPath[..k];
    assert t[0] == newPath[0] && t[|t| - 1] == newPath[k - 1];
    BuiltOpening(link, newPath);
    OpeningCut(BuildMarkdownLink(link, newPath), alt, newPath, k);
    FirstLinkPath(BuildMarkdownLink(link, newPath), Match(0, |alt| + 5 + k, InlineForm(alt, t)));
  }

  /** When a text starts with an inline match whose target has no surrounding
      whitespace and does not end in a quote, the first reference found has
      that target as its path. */
  lemma FirstLinkPath(text: string, m: Match)
    requires InlineAt(text, 0) == Some(m)
    requires var t := m.form.target; t != "" && !IsWhitespace(t[0]) && !IsWhitespace(t[|t| - 1]) && t[|t| - 1] != '"'
    ensures |FindImageLinks(text)| > 0 && FindImageLinks(text)[0].path == m.form.target
  {
    FirstMatchAtZero(text, m);
    PlainTargetPath(m.start, m.end, m.form.alt, m.form.target);
  }

  /** A target without surrounding whitespace that does not end in a quote is
      the reference's path as it stands. */
  lemma PlainTargetPath(start: nat, end: nat, alt: string, t: string)
    requires t != "" && !IsWhitespace(t[0]) && !IsWhitespace(t[|t| - 1]) && t[|t| - 1] != '"'
    ensures InlineReference(start, end, alt, t).path == t
  {
    TrimNoSpace(t);
  }

  /** `inner` splits on `|` with its first separator at `i` and the next one (or
      the end of `inner`) at `j`. */
  predicate PipeSplitAt(inner: string, i: int, j: int) {
    && 0 <= i < j <= |inner| && inner[i] == '|'
    && Absent(inner, '|', 0, i) && Absent(inner, '|', i + 1, j)
    && (j == |inner| || inner[j] == '|')
  }

  /** The fields of an embed reference: without `|` the trimmed inner text is the
      path and there is no alt text; otherwise the path is the trimmed piece
      before the first `|` and the alt text the trimmed piece between the first
      and the second `|` (or the end). */
  lemma EmbedFields(start: nat, end: nat, inner: string)
    ensures Absent(inner, '|', 0, |inner|) ==> EmbedReference(start, end, inner) == ImageLink(start, end, Trim(inner), None, None)
    ensures forall i, j :: PipeSplitAt(inner, i, j) ==>
              EmbedReference(start, end, inner) == ImageLink(start, end, Trim(inner[..i]), Some(Trim(inner[i + 1..j])), None)
    ensures !Absent(inner, '|', 0, |inner|) ==> exists i, j :: PipeSplitAt(inner, i, j)
  {
    forall i, j | PipeSplitAt(inner, i, j)
      ensures EmbedReference(start, end, inner) == ImageLink(start, end, Trim(inner[..i]), Some(Trim(inner[i + 1..j])), None)
    {
      SplitFirstTwoAt(inner, '|', i, j);
    }
    if !Absent(inner, '|', 0, |inner|) {
      var i := IndexOf(inner, '|', 0).value;
      var j := IndexOf(inner, '|', i + 1).GetOr(|inner|);
      assert PipeSplitAt(inner, i, j);
    }
  }

  /** A text that is one embed reference holds that match and nothing else. */
  lemma EmbedOnlyText(inner: string)
    requires inner != "" && Absent(inner, ']', 0, |inner|)
    ensures var s := "![[" + inner + "]]";
            FindImageLinks(s) == [EmbedReference(0, |s|, inner)]
  {
    var s := "![[" + inner + "]]";
    var q := |s| - 2;
    assert forall k :: 3 <= k < q ==> s[k] == inner[k - 3];
    assert EmbedShape(s, 0, q);
    EmbedAtMatchesShape(s, 0);
    assert s[3..q] == inner;
    var m := Match(0, |s|, EmbedForm(inner));
    assert EmbedAt(s, 0) == Some(m);
    ScanNone(EmbedMatcher(s), |s|, |s|);
    assert EmbedMatches(s) == [m];
    forall p: nat | p < |s|
      ensures InlineMatcher(s)(p).None?
    {
      InlineAtMatchesShape(s, p);
    }
    ScanNone(InlineMatcher(s), |s|, 0);
    assert FindMatches(s) == [m];
  }

  // ---------------------------------------------------------------------------
  // The behaviour the plugin's unit tests pin down

  /** A markdown image with a title yields its alt text, path and title. */
  lemma MarkdownImageExample()
    ensures var links := FindImageLinks("![alt](http://example.com/a.png \"title\")");
            |links| == 1 && links[0].alt == Some("alt")
            && links[0].path == "http://example.com/a.png" && links[0].title == Some("title")
  {
    MarkdownExampleReadable();
    BuildReadsBack(ImageLink(0, 0, "", Some("alt"), Some("title")), "http://example.com/a.png");
  }

  /** The text of the example above is a written reference that reads back:
      its path has no `]`, `)` or line terminator, and its alt text and title
      none of `]`, `)` and `"`. */
  lemma MarkdownExampleReadable()
    ensures BuildMarkdownLink(ImageLink(0, 0, "", Some("alt"), Some("title")), "http://example.com/a.png")
         == "![alt](http://example.com/a.png \"title\")"
    ensures ReadableBack(ImageLink(0, 0, "", Some("alt"), Some("title")), "http://example.com/a.png")
  {
    MarkdownExampleBuilt();
    var path := "http://example.com/a.png";
    assert forall x :: 0 <= x < 24 ==> !IsLineTerminator(path[x]);
    assert Absent(path, ']', 0, 24) && Absent(path, ')', 0, 24);
    assert Absent("alt", ']', 0, 3);
    assert Absent("title", ']', 0, 5) && Absent("title", ')', 0, 5) && Absent("title", '"', 0, 5);
  }

  lemma MarkdownExampleBuilt()
    ensures BuildMarkdownLink(ImageLink(0, 0, "", Some("alt"), Some("title")), "http://example.com/a.png")
         == "![alt](http://example.com/a.png \"title\")"
  {
  }

  /** A wiki embed with a `|` yields the path before it and the alt text after it. */
  lemma WikiImageExample()
    ensures var links := FindImageLinks("![[images/pic.png|desc]]");
            |links| == 1 && links[0].alt == Some("desc") && links[0].path == "images/pic.png"
  {
    assert Absent("images/pic.png|desc", ']', 0, 19);
    assert "![[images/pic.png|desc]]" == "![[" + "images/pic.png|desc" + "]]";
    WikiReference();
    EmbedOnlyText("images/pic.png|desc");
  }

  /** The fields of the embed in the example above. */
  lemma WikiReference()
    ensures EmbedReference(0, 24, "images/pic.png|desc") == ImageLink(0, 24, "images/pic.png", Some("desc"), None)
  {
    assert "images/pic.png|desc" == "images/pic.png" + "|" + "desc";
    assert Absent("images/pic.png", '|', 0, 14) && Absent("desc", '|', 0, 4);
    PipeJoinedFields(0, 24, "images/pic.png", "desc");
  }

  /** Two `|`-free pieces without surrounding whitespace, joined by `|`, are the
      path and the alt text of the embed. */
  lemma PipeJoinedFields(start: nat, end: nat, path: string, alt: string)
    requires path != "" && !IsWhitespace(path[0]) && !IsWhitespace(path[|path| - 1])
    requires alt != "" && !IsWhitespace(alt[0]) && !IsWhitespace(alt[|alt| - 1])
    requires Absent(path, '|', 0, |path|) && Absent(alt, '|', 0, |alt|)
    ensures EmbedReference(start, end, path + "|" + alt) == ImageLink(start, end, path, Some(alt), None)
  {
    var inner := path + "|" + alt;
    assert inner[..|path|] == path;
    assert inner[|path| + 1..|inner|] == alt;
    assert PipeSplitAt(inner, |path|, |inner|);
    EmbedFields(start, end, inner);
    TrimNoSpace(path);
    TrimNoSpace(alt);
  }

  /** The link builder writes the alt text, the new path and the title. */
  lemma BuildLinkExample()
    ensures BuildMarkdownLink(ImageLink(0, 0, "x", Some("a"), Some("t")), "folder/img.png") == "![a](folder/img.png \"t\")"
  {
  }
}
