/**
  Character classes, substring search, trimming, split and join with the
  meaning JavaScript gives them: `\s` and `String.prototype.trim`, `\d`,
  the line terminators that `.` refuses, `indexOf`/`includes`,
  `split(sep)` and `join(sep)`.
 */
module TextSearch {

  datatype Option<+T> = None | Some(value: T)

  /** JavaScript WhiteSpace plus LineTerminator: the set `\s` matches and `trim` removes. */
  predicate IsWhitespace(c: char) {
    || c == '\t' || c == '\n' || c == '\U{000B}' || c == '\U{000C}' || c == '\r' || c == ' '
    || c == '\U{00A0}' || c == '\U{1680}' || ('\U{2000}' <= c <= '\U{200A}')
    || c == '\U{2028}' || c == '\U{2029}' || c == '\U{202F}' || c == '\U{205F}'
    || c == '\U{3000}' || c == '\U{FEFF}'
  }

  /** The characters a regular-expression `.` does not match. */
  predicate IsLineTerminator(c: char) {
    c == '\n' || c == '\r' || c == '\U{2028}' || c == '\U{2029}'
  }

  /** What `\d` matches: ASCII digits only. */
  predicate IsDigit(c: char) {
    '0' <= c <= '9'
  }

  predicate WhitespaceBetween(s: string, i: int, j: int)
    requires 0 <= i && j <= |s|
  {
    forall k :: i <= k < j ==> IsWhitespace(s[k])
  }

  predicate AllWhitespace(s: string) {
    WhitespaceBetween(s, 0, |s|)
  }

  predicate NoLineTerminatorFrom(s: string, i: int)
    requires 0 <= i
  {
    forall k :: i <= k < |s| ==> !IsLineTerminator(s[k])
  }

  /** The end of the longest run of whitespace starting at `i` (a greedy `\s*`). */
  function SkipWhitespace(s: string, i: nat): (j: nat)
    requires i <= |s|
    ensures i <= j <= |s|
    ensures WhitespaceBetween(s, i, j)
    ensures j < |s| ==> !IsWhitespace(s[j])
    decreases |s| - i
  {
    if i == |s| || !IsWhitespace(s[i]) then i else SkipWhitespace(s, i + 1)
  }

  /** The start of the longest run of whitespace ending at `j`, scanning backwards. */
  function SkipWhitespaceBack(s: string, j: nat): (i: nat)
    requires j <= |s|
    ensures i <= j
    ensures WhitespaceBetween(s, i, j)
    ensures 0 < i ==> !IsWhitespace(s[i - 1])
  {
    if j == 0 || !IsWhitespace(s[j - 1]) then j else SkipWhitespaceBack(s, j - 1)
  }

  /** The end of the longest run of digits starting at `i` (a greedy `\d*`). */
  function SkipDigits(s: string, i: nat): (j: nat)
    requires i <= |s|
    ensures i <= j <= |s|
    ensures forall k :: i <= k < j ==> IsDigit(s[k])
    ensures j < |s| ==> !IsDigit(s[j])
    decreases |s| - i
  {
    if i == |s| || !IsDigit(s[i]) then i else SkipDigits(s, i + 1)
  }

  /** The index of the next '\n' at or after `i`, or |s| when there is none (a greedy `[^\n]*`). */
  function LineEnd(s: string, i: nat): (j: nat)
    requires i <= |s|
    ensures i <= j <= |s|
    ensures forall k :: i <= k < j ==> s[k] != '\n'
    ensures j < |s| ==> s[j] == '\n'
    decreases |s| - i
  {
    if i == |s| || s[i] == '\n' then i else LineEnd(s, i + 1)
  }

  /** A whitespace run starting at `i` ends no later than `SkipWhitespace(s, i)`. */
  lemma {:induction false} SkipWhitespaceCoversRun(s: string, i: nat, j: nat)
    requires i <= j <= |s|
    requires WhitespaceBetween(s, i, j)
    ensures j <= SkipWhitespace(s, i)
    decreases j - i
  {
    if i < j {
      SkipWhitespaceCoversRun(s, i + 1, j);
    }
  }

  /** The greedy scans stop exactly at the end of the run they scan. */
  lemma {:induction false} SkipDigitsIsRunEnd(s: string, i: nat, j: nat)
    requires i <= j <= |s|
    requires forall k :: i <= k < j ==> IsDigit(s[k])
    requires j < |s| ==> !IsDigit(s[j])
    ensures SkipDigits(s, i) == j
    decreases j - i
  {
    if i < j {
      SkipDigitsIsRunEnd(s, i + 1, j);
    }
  }

  lemma {:induction false} SkipWhitespaceIsRunEnd(s: string, i: nat, j: nat)
    requires i <= j <= |s|
    requires WhitespaceBetween(s, i, j)
    requires j < |s| ==> !IsWhitespace(s[j])
    ensures SkipWhitespace(s, i) == j
    decreases j - i
  {
    if i < j {
      SkipWhitespaceIsRunEnd(s, i + 1, j);
    }
  }

  lemma {:induction false} LineEndIsNextBreak(s: string, i: nat, j: nat)
    requires i <= j <= |s|
    requires forall k :: i <= k < j ==> s[k] != '\n'
    requires j < |s| ==> s[j] == '\n'
    ensures LineEnd(s, i) == j
    decreases j - i
  {
    if i < j {
      LineEndIsNextBreak(s, i + 1, j);
    }
  }

  /** JavaScript `trim`: drop leading and trailing whitespace. */
  function Trim(s: string): (r: string)
    ensures |r| <= |s|
    ensures r == "" <==> AllWhitespace(s)
    ensures r != "" ==> !IsWhitespace(r[0]) && !IsWhitespace(r[|r| - 1])
    ensures forall c :: c in r ==> c in s
  {
    var a := SkipWhitespace(s, 0);
    if a == |s| then "" else
      var b := SkipWhitespaceBack(s, |s|);
      assert forall c :: c in s[a..b] ==> c in s by {
        forall c | c in s[a..b] ensures c in s {
          var k :| 0 <= k < b - a && s[a..b][k] == c;
          assert s[a + k] == c;
        }
      }
      s[a..b]
  }

  /** The trimmed string is the slice of `s` left once whitespace is cut from both ends. */
  lemma {:induction false} TrimIsSlice(s: string)
    ensures exists a :: 0 <= a <= |s| - |Trim(s)| && Trim(s) == s[a..a + |Trim(s)|]
                        && WhitespaceBetween(s, 0, a) && WhitespaceBetween(s, a + |Trim(s)|, |s|)
  {
    var a := SkipWhitespace(s, 0);
    if a == |s| {
      assert Trim(s) == s[a..a];
    } else {
      var b := SkipWhitespaceBack(s, |s|);
      assert Trim(s) == s[a..b];
    }
  }

  /** A string that has no whitespace at either end is left as it is. */
  lemma {:induction false} TrimOfTrimmed(s: string)
    requires s != "" ==> !IsWhitespace(s[0]) && !IsWhitespace(s[|s| - 1])
    ensures Trim(s) == s
  {
    if s != "" {
      assert SkipWhitespace(s, 0) == 0;
      assert SkipWhitespaceBack(s, |s|) == |s|;
      assert s[0..|s|] == s;
    }
  }

  /** A slice made only of whitespace trims to "". */
  lemma {:induction false} TrimOfWhitespaceRun(s: string, i: nat, j: nat)
    requires i <= j <= |s| && WhitespaceBetween(s, i, j)
    ensures Trim(s[i..j]) == ""
  {
    forall t | 0 <= t < j - i ensures IsWhitespace(s[i..j][t]) {
      assert s[i..j][t] == s[i + t];
    }
  }

  /** Trimming twice is trimming once. */
  lemma {:induction false} TrimIdempotent(s: string)
    ensures Trim(Trim(s)) == Trim(s)
  {
    TrimOfTrimmed(Trim(s));
  }

  /** `pat` occurs in `s` starting at index `k`. */
  predicate OccursAt(s: string, pat: string, k: int) {
    0 <= k && k + |pat| <= |s| && s[k..k + |pat|] == pat
  }

  /** `pat` occurs somewhere in `s`: the declarative meaning of `includes`. */
  ghost predicate Occurs(s: string, pat: string) {
    exists k :: OccursAt(s, pat, k)
  }

  /** The left-to-right scan behind `indexOf`: the first position from `from` on where `pat` occurs. */
  function ScanFrom(s: string, pat: string, from: nat): (r: Option<nat>)
    ensures r.Some? ==> from <= r.value && OccursAt(s, pat, r.value)
    decreases |s| - from
  {
    if from + |pat| > |s| then None
    else if OccursAt(s, pat, from) then Some(from)
    else ScanFrom(s, pat, from + 1)
  }

  /**
    `indexOf(pat, from)`: the first occurrence of `pat` at or after `from`. The
    specifications below speak of this non-recursive name only, so that a search
    result means the same term in every lemma that mentions it.
   */
  function FindFrom(s: string, pat: string, from: nat): (r: Option<nat>)
    ensures r.Some? ==> from <= r.value && OccursAt(s, pat, r.value)
  {
    ScanFrom(s, pat, from)
  }

  /** What `FindFrom` finds is the first occurrence at or after `from`; it finds nothing only when there is none. */
  lemma {:induction false} FindFromIsFirstOccurrence(s: string, pat: string, from: nat)
    ensures FindFrom(s, pat, from).Some? ==> forall k :: from <= k < FindFrom(s, pat, from).value ==> !OccursAt(s, pat, k)
    ensures FindFrom(s, pat, from).None? ==> forall k :: from <= k ==> !OccursAt(s, pat, k)
    decreases |s| - from
  {
    if from + |pat| <= |s| && !OccursAt(s, pat, from) {
      FindFromIsFirstOccurrence(s, pat, from + 1);
    }
  }

  /** An occurrence at or after `from` is found, there or earlier. */
  lemma {:induction false} FindFromNoLater(s: string, pat: string, from: nat, k: nat)
    requires from <= k && OccursAt(s, pat, k)
    ensures FindFrom(s, pat, from).Some? && FindFrom(s, pat, from).value <= k
  {
    FindFromIsFirstOccurrence(s, pat, from);
  }

  /** Any occurrence at or after `from` with none before it is the one `FindFrom` returns. */
  lemma {:induction false} FindFromIsFirst(s: string, pat: string, from: nat, k: nat)
    requires from <= k && OccursAt(s, pat, k)
    requires forall t :: from <= t < k ==> !OccursAt(s, pat, t)
    ensures FindFrom(s, pat, from).Some? && FindFrom(s, pat, from).value == k
    decreases k - from
  {
    if from < k {
      assert !OccursAt(s, pat, from);
      FindFromIsFirst(s, pat, from + 1, k);
    }
  }

  /** JavaScript `includes`. */
  function Contains(s: string, pat: string): (b: bool)
    ensures b <==> Occurs(s, pat)
  {
    FindFromIsFirstOccurrence(s, pat, 0);
    FindFrom(s, pat, 0).Some?
  }

  /**
    When `pat` is laid out after `body` and no occurrence of it starts inside `body`,
    the search from the start of `body` finds exactly that one.
   */
  lemma {:induction false} FindAfterBody(before: string, body: string, pat: string, after: string)
    requires |pat| > 0
    requires !Contains(body + pat[..|pat| - 1], pat)
    ensures FindFrom(before + body + pat + after, pat, |before|).Some? && FindFrom(before + body + pat + after, pat, |before|).value == |before| + |body|
  {
    var s := before + body + pat + after;
    var k := |before| + |body|;
    var w := body + pat[..|pat| - 1];
    assert s[k..k + |pat|] == pat;
    forall t | |before| <= t < k ensures !OccursAt(s, pat, t) {
      if t + |pat| <= |s| {
        var u := t - |before|;
        assert s[|before|..k + |pat| - 1] == w;
        forall q | u <= q < u + |pat| ensures w[q] == s[|before| + q] { }
        assert w[u..u + |pat|] == s[t..t + |pat|];
        assert !OccursAt(w, pat, u);
      }
    }
    FindFromIsFirst(s, pat, |before|, k);
  }

  /** A string that lacks one of the characters of `pat` does not contain `pat`. */
  lemma {:induction false} MissingCharNotContained(s: string, pat: string, c: char)
    requires c in pat && c !in s
    ensures !Contains(s, pat)
  {
    forall k | 0 <= k && k + |pat| <= |s| ensures !OccursAt(s, pat, k) {
      var i :| 0 <= i < |pat| && pat[i] == c;
      assert s[k..k + |pat|][i] == s[k + i];
    }
  }

  /** JavaScript `join(sep)`. */
  function Join(xs: seq<string>, sep: string): (joined: string)
  {
    if |xs| == 0 then "" else if |xs| == 1 then xs[0] else xs[0] + sep + Join(xs[1..], sep)
  }

  /** JavaScript `split(sep)` for a non-empty separator: cut at every occurrence, left to right. */
  function Split(s: string, sep: string): (parts: seq<string>)
    requires sep != ""
    ensures |parts| >= 1
    ensures forall i :: 0 <= i < |parts| ==> !Contains(parts[i], sep)
    ensures Join(parts, sep) == s
    decreases |s|
  {
    match FindFrom(s, sep, 0)
    case None => [s]
    case Some(k) =>
      var head, tail := s[..k], Split(s[k + |sep|..], sep);
      assert !Contains(head, sep) by {
        FindFromIsFirstOccurrence(s, sep, 0);
        assert FindFrom(s, sep, 0).value == k;
        forall t | 0 <= t && t + |sep| <= k ensures !OccursAt(head, sep, t) {
          forall q | t <= q < t + |sep| ensures head[q] == s[q] { }
          assert head[t..t + |sep|] == s[t..t + |sep|];
          assert !OccursAt(s, sep, t);
        }
      }
      assert Join([head] + tail, sep) == head + sep + Join(tail, sep) by {
        assert ([head] + tail)[1..] == tail;
      }
      assert s == head + sep + s[k + |sep|..];
      [head] + tail
  }

  lemma {:induction false} JoinAppend(xs: seq<string>, ys: seq<string>, sep: string)
    requires |xs| >= 1 && |ys| >= 1
    ensures Join(xs + ys, sep) == Join(xs, sep) + sep + Join(ys, sep)
  {
    if |xs| > 1 {
      assert (xs + ys)[1..] == xs[1..] + ys;
      JoinAppend(xs[1..], ys, sep);
    } else {
      assert (xs + ys)[1..] == ys;
    }
  }

  /** The summed length of the items, without separators. */
  function TotalLength(xs: seq<string>): (total: nat)
  {
    if |xs| == 0 then 0 else |xs[0]| + TotalLength(xs[1..])
  }

  lemma {:induction false} JoinLength(xs: seq<string>, sep: string)
    requires |xs| >= 1
    ensures |Join(xs, sep)| == TotalLength(xs) + |sep| * (|xs| - 1)
  {
    if |xs| > 1 {
      JoinLength(xs[1..], sep);
    }
  }

  /** No proper suffix of `sep` is also a prefix of it, so occurrences cannot overlap a boundary. */
  predicate NoBorder(sep: string) {
    forall k :: 0 < k < |sep| ==> sep[k..] != sep[..|sep| - k]
  }

  /**
    The first occurrence of a border-free `sep` in `x + sep + rest`, where `x`
    does not contain `sep`, is the one right after `x`.
   */
  lemma {:induction false} FindSeparatorAfterItem(x: string, sep: string, rest: string)
    requires sep != "" && NoBorder(sep) && !Contains(x, sep)
    ensures FindFrom(x + sep + rest, sep, 0).Some? && FindFrom(x + sep + rest, sep, 0).value == |x|
  {
    var s := x + sep + rest;
    assert s[|x|..|x| + |sep|] == sep;
    forall t | 0 <= t < |x| ensures !OccursAt(s, sep, t) {
      if t + |sep| <= |x| {
        assert x[t..t + |sep|] == s[t..t + |sep|];
        assert !OccursAt(x, sep, t);
      } else {
        var b := |x| - t;
        assert s[t..t + |sep|][b..] == sep[..|sep| - b];
        assert sep[b..] != sep[..|sep| - b];
      }
    }
    FindFromIsFirst(s, sep, 0, |x|);
  }

  /** Splitting a joined list gives the list back when no item contains the separator. */
  lemma {:induction false} SplitJoin(xs: seq<string>, sep: string)
    requires sep != "" && NoBorder(sep) && |xs| >= 1
    requires forall i :: 0 <= i < |xs| ==> !Contains(xs[i], sep)
    ensures Split(Join(xs, sep), sep) == xs
  {
    if |xs| == 1 {
      assert !Contains(xs[0], sep);
    } else {
      var rest := Join(xs[1..], sep);
      FindSeparatorAfterItem(xs[0], sep, rest);
      var s := xs[0] + sep + rest;
      assert s[..|xs[0]|] == xs[0];
      assert s[|xs[0]| + |sep|..] == rest;
      SplitJoin(xs[1..], sep);
      assert xs == [xs[0]] + xs[1..];
    }
  }

  /** Splitting distributes over a separator placed between two strings. */
  lemma {:induction false} SplitAround(a: string, sep: string, b: string)
    requires sep != "" && NoBorder(sep)
    ensures Split(a + sep + b, sep) == Split(a, sep) + Split(b, sep)
  {
    var pa, pb := Split(a, sep), Split(b, sep);
    JoinAppend(pa, pb, sep);
    SplitJoin(pa + pb, sep);
  }
}
