/** The few ECMAScript string operations the plugin relies on, over `seq<char>`:
    the `\s` character class (also the set `String.prototype.trim` removes),
    `indexOf`, `split` keeping the first two pieces, `Array.prototype.join`,
    `startsWith` and the decimal rendering of a non-negative integer. */
module JsText {
  import opened Wrappers

  /** `\s`: WhiteSpace and LineTerminator of ECMAScript (sections 12.2 and 12.3 of ECMA-262). */
  predicate IsWhitespace(c: char) {
    c in WhitespaceChars || '\U{2000}' <= c <= '\U{200A}'
  }

  /** The whitespace characters outside the range U+2000 to U+200A. */
  const WhitespaceChars: set<char> :=
    {'\t', '\n', '\U{000B}', '\U{000C}', '\r', ' ', '\U{00A0}', '\U{1680}',
     '\U{2028}', '\U{2029}', '\U{202F}', '\U{205F}', '\U{3000}', '\U{FEFF}'}

  /** The characters a regular-expression `.` does not match (no `s` flag). */
  predicate IsLineTerminator(c: char) {
    c == '\n' || c == '\r' || c == '\U{2028}' || c == '\U{2029}'
  }

  predicate AllWhitespace(s: string) {
    forall k :: 0 <= k < |s| ==> IsWhitespace(s[k])
  }

  /** No occurrence of `c` in `s[lo..hi]`. */
  predicate Absent(s: string, c: char, lo: int, hi: int) {
    forall k :: lo <= k < hi && 0 <= k < |s| ==> s[k] != c
  }

  predicate StartsWith(s: string, prefix: string) {
    |prefix| <= |s| && s[..|prefix|] == prefix
  }

  /** `s.indexOf(c, from)`: the first occurrence of `c` at or after `from`. */
  function IndexOf(s: string, c: char, from: nat): (r: Option<nat>)
    requires from <= |s|
    ensures r.Some? ==> from <= r.value < |s| && s[r.value] == c && Absent(s, c, from, r.value)
    ensures r.None? ==> Absent(s, c, from, |s|)
    decreases |s| - from
  {
    if from == |s| then None
    else if s[from] == c then Some(from)
    else IndexOf(s, c, from + 1)
  }

  /** An occurrence with none of `c` before it, from `from` on, is what `IndexOf` finds. */
  lemma {:induction false} IndexOfFirst(s: string, c: char, from: nat, i: nat)
    requires from <= i < |s| && s[i] == c && Absent(s, c, from, i)
    ensures IndexOf(s, c, from) == Some(i)
    decreases i - from
  {
    if from < i {
      IndexOfFirst(s, c, from + 1, i);
    }
  }

  /** The last occurrence of `c` strictly before `bound`. */
  function LastIndexBefore(s: string, c: char, bound: nat): (r: Option<nat>)
    requires bound <= |s|
    ensures r.Some? ==> r.value < bound && s[r.value] == c && Absent(s, c, r.value + 1, bound)
    ensures r.None? ==> Absent(s, c, 0, bound)
  {
    if bound == 0 then None
    else if s[bound - 1] == c then Some(bound - 1)
    else LastIndexBefore(s, c, bound - 1)
  }

  /** An occurrence with none of `c` after it, before `bound`, is what
      `LastIndexBefore` finds. */
  lemma {:induction false} LastIndexBeforeLast(s: string, c: char, bound: nat, i: nat)
    requires i < bound <= |s| && s[i] == c && Absent(s, c, i + 1, bound)
    ensures LastIndexBefore(s, c, bound) == Some(i)
    decreases bound
  {
    if i < bound - 1 {
      LastIndexBeforeLast(s, c, bound - 1, i);
    }
  }

  /** Number of leading whitespace characters of `s`. */
  function LeadingSpace(s: string): (n: nat)
    ensures n <= |s| && AllWhitespace(s[..n])
    ensures n < |s| ==> !IsWhitespace(s[n])
  {
    if |s| == 0 || !IsWhitespace(s[0]) then 0
    else
      var n := 1 + LeadingSpace(s[1..]);
      assert s[..n] == [s[0]] + s[1..][..n - 1];
      n
  }

  /** Length of `s` once its trailing whitespace is removed. */
  function TrimmedEnd(s: string): (n: nat)
    ensures n <= |s| && AllWhitespace(s[n..])
    ensures n > 0 ==> !IsWhitespace(s[n - 1])
  {
    if |s| == 0 || !IsWhitespace(s[|s| - 1]) then |s|
    else
      var n := TrimmedEnd(s[..|s| - 1]);
      assert s[n..] == s[..|s| - 1][n..] + [s[|s| - 1]];
      n
  }

  /** `s` is `t` with whitespace added on either side. */
  ghost predicate PaddedBy(s: string, t: string) {
    exists i :: 0 <= i <= |s| - |t| && s[i..i + |t|] == t && AllWhitespace(s[..i]) && AllWhitespace(s[i + |t|..])
  }

  /** `s.trim()`: `s` without its leading and trailing whitespace. */
  function Trim(s: string): string {
    var i := LeadingSpace(s);
    s[i..i + TrimmedEnd(s[i..])]
  }

  /** What `trim` returns is the unique string that `s` pads with whitespace and
      that neither starts nor ends with whitespace. */
  lemma TrimPads(s: string)
    ensures PaddedBy(s, Trim(s))
    ensures var t := Trim(s); |t| > 0 ==> !IsWhitespace(t[0]) && !IsWhitespace(t[|t| - 1])
  {
    var i := LeadingSpace(s);
    var u := s[i..];
    var n := TrimmedEnd(u);
    TrimAsPrefix(s, i, u, n);
    assert u[n..] == s[i + n..];
    assert s[i..i + n] == u[..n];
    if n > 0 {
      assert u[..n][0] == u[0] && u[..n][n - 1] == u[n - 1];
    }
  }

  /** `trim` keeps the first `TrimmedEnd` characters after the leading whitespace. */
  lemma TrimAsPrefix(s: string, i: nat, u: string, n: nat)
    requires i == LeadingSpace(s) && u == s[i..] && n == TrimmedEnd(u)
    ensures Trim(s) == u[..n]
  {
    assert s[i..i + n] == u[..n];
  }

  /** Trimming a string that has no surrounding whitespace gives it back. */
  lemma TrimNoSpace(s: string)
    requires |s| > 0 ==> !IsWhitespace(s[0]) && !IsWhitespace(s[|s| - 1])
    ensures Trim(s) == s
  {
    var i := LeadingSpace(s);
    if |s| > 0 {
      assert i == 0;
      var n := TrimmedEnd(s);
      assert n == |s|;
    }
  }

  /** `s.split(sep)` destructured as `[first, second]`: the piece before the first
      separator, and the piece between the first and second one (absent when `s`
      holds no separator). */
  function SplitFirstTwo(s: string, sep: char): (r: (string, Option<string>))
    ensures StartsWith(s, r.0) && Absent(r.0, sep, 0, |r.0|)
    ensures r.1.None? <==> Absent(s, sep, 0, |s|)
    ensures r.1.None? ==> r.0 == s
    ensures r.1.Some? ==> StartsWith(s, r.0 + [sep] + r.1.value) && Absent(r.1.value, sep, 0, |r.1.value|)
    ensures r.1.Some? ==> |r.0| + 1 + |r.1.value| == |s| || s[|r.0| + 1 + |r.1.value|] == sep
  {
    match IndexOf(s, sep, 0)
    case None => (s, None)
    case Some(a) =>
      var b := match IndexOf(s, sep, a + 1) case Some(b) => b case None => |s|;
      var first, second := s[..a], s[a + 1..b];
      assert first + [sep] + second == s[..b];
      assert forall k :: 0 <= k < |second| ==> second[k] == s[a + 1 + k];
      (first, Some(second))
  }

  /** With its first separator at `i` and the next one (or the end) at `j`, `s`
      splits into `s[..i]` and `s[i + 1..j]`. */
  lemma SplitFirstTwoAt(s: string, sep: char, i: nat, j: nat)
    requires i < j <= |s| && s[i] == sep && Absent(s, sep, 0, i) && Absent(s, sep, i + 1, j)
    requires j == |s| || s[j] == sep
    ensures SplitFirstTwo(s, sep) == (s[..i], Some(s[i + 1..j]))
  {
    IndexOfFirst(s, sep, 0, i);
    if j < |s| {
      IndexOfFirst(s, sep, i + 1, j);
    }
  }

  /** `xs.join(sep)`. */
  function JoinWith(xs: seq<string>, sep: string): (r: string)
    ensures |xs| == 0 ==> r == ""
    ensures |xs| == 1 ==> r == xs[0]
    ensures |xs| > 0 ==> StartsWith(r, xs[0])
  {
    if |xs| == 0 then ""
    else if |xs| == 1 then xs[0]
    else xs[0] + sep + JoinWith(xs[1..], sep)
  }

  /** Joining one more element adds the separator and that element at the end. */
  lemma {:induction false} JoinWithSnoc(xs: seq<string>, x: string, sep: string)
    requires |xs| > 0
    ensures JoinWith(xs + [x], sep) == JoinWith(xs, sep) + sep + x
    decreases |xs|
  {
    if |xs| > 1 {
      assert (xs + [x])[1..] == xs[1..] + [x];
      JoinWithSnoc(xs[1..], x, sep);
    } else {
      assert (xs + [x])[1..] == [x];
    }
  }

  predicate IsDigit(c: char) {
    '0' <= c <= '9'
  }

  function DigitChar(d: nat): (c: char)
    requires d < 10
    ensures IsDigit(c) && c as int - '0' as int == d
  {
    (d + '0' as int) as char
  }

  /** `${n}` for a non-negative integer: its decimal digits, no leading zero. */
  function Decimal(n: nat): (r: string)
    ensures |r| > 0 && forall k :: 0 <= k < |r| ==> IsDigit(r[k])
    ensures |r| > 1 ==> r[0] != '0'
    decreases n
  {
    if n < 10 then [DigitChar(n)] else Decimal(n / 10) + [DigitChar(n % 10)]
  }

  function DigitValue(c: char): (d: nat)
    requires IsDigit(c)
    ensures d < 10
  {
    assert '0' as int <= c as int <= '9' as int;
    c as int - '0' as int
  }

  /** The number a string of decimal digits denotes. */
  function DecimalValue(s: string): nat
    requires forall k :: 0 <= k < |s| ==> IsDigit(s[k])
  {
    if |s| == 0 then 0 else 10 * DecimalValue(s[..|s| - 1]) + DigitValue(s[|s| - 1])
  }

  /** Reading back a rendered number gives the number. */
  lemma {:induction false} DecimalRoundTrip(n: nat)
    ensures DecimalValue(Decimal(n)) == n
    decreases n
  {
    if n >= 10 {
      var s := Decimal(n);
      assert s[..|s| - 1] == Decimal(n / 10);
      DecimalRoundTrip(n / 10);
    }
  }

  /** Distinct numbers render as distinct strings. */
  lemma DecimalInjective(m: nat, n: nat)
    requires Decimal(m) == Decimal(n)
    ensures m == n
  {
    DecimalRoundTrip(m);
    DecimalRoundTrip(n);
  }

  /** A number written in decimal and followed by a non-digit can be read back
      from the front of a string, and so can what follows it. */
  lemma LeadingNumber(m: nat, n: nat, c: char, x: string, y: string)
    requires !IsDigit(c) && Decimal(m) + ([c] + x) == Decimal(n) + ([c] + y)
    ensures m == n && x == y
  {
    var s := Decimal(m) + ([c] + x);
    var dm, dn := Decimal(m), Decimal(n);
    assert forall k :: 0 <= k < |dm| ==> s[k] == dm[k];
    assert forall k :: 0 <= k < |dn| ==> s[k] == dn[k];
    assert s[|dm|] == c && s[|dn|] == c;
    assert |dm| == |dn|;
    assert dm == s[..|dm|] == dn;
    DecimalInjective(m, n);
    assert x == s[|dm| + 1..] == y;
  }

  /** ASCII lower-casing: the only case folding a non-Unicode `/i` regular
      expression applies to the ASCII letters of its pattern. */
  function LowerAscii(c: char): (d: char)
    ensures 'A' <= c <= 'Z' ==> d as int == c as int + 32
    ensures !('A' <= c <= 'Z') ==> d == c
  {
    if 'A' <= c <= 'Z' then (c as int + 32) as char else c
  }

  /** `s` starts with the lower-case ASCII string `prefix`, ignoring ASCII case. */
  predicate StartsWithIgnoreCase(s: string, prefix: string) {
    |prefix| <= |s| && forall k :: 0 <= k < |prefix| ==> LowerAscii(s[k]) == prefix[k]
  }
}
