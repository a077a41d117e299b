/**
  `parseNumberedList`: split a region of the survey text on '\n' and keep,
  in order, the trimmed entry of every line that matches `^\d+\.\s+(.+)$`.
 */
module NumberedLists {
  import opened TextSearch

  /**
    `line` matches `^\d+\.\s+(.+)$` with the digits in [0, d), the period at d,
    the whitespace of `\s+` in [d + 1, j) and the captured entry in [j, |line|).
   */
  predicate LineMatch(line: string, d: int, j: int) {
    && 1 <= d < |line|
    && (forall k :: 0 <= k < d ==> IsDigit(line[k]))
    && line[d] == '.'
    && d + 1 < j < |line|
    && WhitespaceBetween(line, d + 1, j)
    && NoLineTerminatorFrom(line, j)
  }

  /**
    The trimmed entry of one line, or None when the line is not a numbered-list line.
    `\d+` is forced to stop at the period; `\s+` is greedy and gives back characters
    only when the rest of the line is whitespace, in which case `(.+)` captures the
    last of them.
   */
  function NumberedEntry(line: string): (entry: Option<string>)
    ensures |line| == 0 || !IsDigit(line[0]) ==> entry.None?
    ensures |line| > 0 && IsLineTerminator(line[|line| - 1]) ==> entry.None?
    ensures entry.Some? ==> forall c :: c in entry.value ==> !IsLineTerminator(c)
    ensures entry.Some? ==> Trim(entry.value) == entry.value
  {
    var d := SkipDigits(line, 0);
    if d == 0 || d == |line| || line[d] != '.' then None
    else
      var m := SkipWhitespace(line, d + 1);
      if m == d + 1 then None
      else if m < |line| then
        if NoLineTerminatorFrom(line, m) then
          TrimIdempotent(line[m..]);
          Some(Trim(line[m..]))
        else None
      else if d + 2 < m && !IsLineTerminator(line[m - 1]) then
        TrimIdempotent(line[m - 1..]);
        Some(Trim(line[m - 1..]))
      else None
  }

  /** Every match puts its period where the digits stop and ends its `\s+` inside the whitespace run. */
  lemma {:induction false} MatchBounds(line: string, d: int, j: int)
    requires LineMatch(line, d, j)
    ensures d == SkipDigits(line, 0)
    ensures j <= SkipWhitespace(line, d + 1)
  {
    SkipDigitsIsRunEnd(line, 0, d);
    SkipWhitespaceCoversRun(line, d + 1, j);
  }

  /** Whenever some split of the line matches, there is an entry. */
  lemma {:induction false} MatchHasEntry(line: string, d: int, j: int)
    requires LineMatch(line, d, j)
    ensures NumberedEntry(line).Some?
  {
    MatchBounds(line, d, j);
    var m := SkipWhitespace(line, d + 1);
    if m < |line| {
      assert NoLineTerminatorFrom(line, m);
    } else {
      assert d + 2 < m && !IsLineTerminator(line[m - 1]);
    }
  }

  /** Where the captured entry of a line with an entry starts: after the longest `\s+` that leaves `(.+)` a character. */
  function CaptureStart(line: string): (j: nat)
    requires NumberedEntry(line).Some?
    ensures j < |line|
  {
    var m := SkipWhitespace(line, SkipDigits(line, 0) + 1);
    if m < |line| then m else m - 1
  }

  /** The entry is the trimmed text from the capture start, which ends a match. */
  lemma {:induction false} CaptureStartMatches(line: string)
    requires NumberedEntry(line).Some?
    ensures LineMatch(line, SkipDigits(line, 0), CaptureStart(line))
    ensures NumberedEntry(line).value == Trim(line[CaptureStart(line)..])
  {
  }

  /** No match has a longer `\s+` than the one ending at the capture start. */
  lemma {:induction false} CaptureStartIsLongest(line: string, d: int, j: int)
    requires NumberedEntry(line).Some? && LineMatch(line, d, j)
    ensures j <= CaptureStart(line)
  {
    MatchBounds(line, d, j);
  }

  /** When there is an entry, it is the capture of the match with the longest `\s+`. */
  lemma {:induction false} EntryIsLongestMatch(line: string)
    requires NumberedEntry(line).Some?
    ensures exists j :: LineMatch(line, SkipDigits(line, 0), j) && NumberedEntry(line) == Some(Trim(line[j..]))
                        && forall d', j' :: LineMatch(line, d', j') ==> j' <= j
  {
    CaptureStartMatches(line);
    forall d', j' | LineMatch(line, d', j') ensures j' <= CaptureStart(line) {
      CaptureStartIsLongest(line, d', j');
    }
  }

  /**
    `NumberedEntry` is the regular expression's own answer: it finds an entry exactly
    when some split of the line matches, and then captures after the longest `\s+`.
   */
  lemma {:induction false} NumberedEntryIsGreedyMatch(line: string)
    ensures NumberedEntry(line).None? <==> forall d, j :: !LineMatch(line, d, j)
    ensures forall d, j :: LineMatch(line, d, j) && (forall d', j' :: LineMatch(line, d', j') ==> j' <= j)
                           ==> NumberedEntry(line) == Some(Trim(line[j..]))
  {
    forall d, j | LineMatch(line, d, j) ensures NumberedEntry(line).Some? {
      MatchHasEntry(line, d, j);
    }
    if NumberedEntry(line).Some? {
      CaptureStartMatches(line);
    }
    forall d, j | LineMatch(line, d, j) && (forall d', j' :: LineMatch(line, d', j') ==> j' <= j)
      ensures NumberedEntry(line) == Some(Trim(line[j..]))
    {
      LongestMatchCapture(line, d, j);
    }
  }

  /** The match with the longest `\s+` captures the entry. */
  lemma {:induction false} LongestMatchCapture(line: string, d: int, j: int)
    requires LineMatch(line, d, j) && forall d', j' :: LineMatch(line, d', j') ==> j' <= j
    ensures NumberedEntry(line).Some? && NumberedEntry(line).value == Trim(line[j..])
  {
    MatchHasEntry(line, d, j);
    CaptureStartIsLongest(line, d, j);
    CaptureStartMatches(line);
    var c := CaptureStart(line);
    assert LineMatch(line, SkipDigits(line, 0), c);
    assert c == j;
  }

  /** A line made of digits, a period, whitespace and an entry starting with a visible character. */
  lemma {:induction false} WellFormedLine(digits: string, gap: string, text: string)
    requires |digits| >= 1 && forall k :: 0 <= k < |digits| ==> IsDigit(digits[k])
    requires |gap| >= 1 && AllWhitespace(gap)
    requires |text| >= 1 && !IsWhitespace(text[0]) && NoLineTerminatorFrom(text, 0)
    ensures NumberedEntry(digits + "." + gap + text) == Some(Trim(text))
  {
    var line := digits + "." + gap + text;
    var d, j := |digits|, |digits| + 1 + |gap|;
    assert SkipDigits(line, 0) == d by {
      forall k | 0 <= k < d ensures IsDigit(line[k]) {
        assert line[k] == digits[k];
      }
      SkipDigitsIsRunEnd(line, 0, d);
    }
    assert SkipWhitespace(line, d + 1) == j by {
      forall k | d + 1 <= k < j ensures IsWhitespace(line[k]) {
        assert line[k] == gap[k - d - 1];
      }
      SkipWhitespaceIsRunEnd(line, d + 1, j);
    }
    assert line[j..] == text;
  }

  /** A period not followed by whitespace ("1.Foo") is not a list line. */
  lemma {:induction false} NoWhitespaceAfterPeriod(digits: string, rest: string)
    requires |digits| >= 1 && forall k :: 0 <= k < |digits| ==> IsDigit(digits[k])
    requires rest == "" || !IsWhitespace(rest[0])
    ensures NumberedEntry(digits + "." + rest).None?
  {
    var line := digits + "." + rest;
    var d := |digits|;
    forall k | 0 <= k < d ensures IsDigit(line[k]) {
      assert line[k] == digits[k];
    }
    SkipDigitsIsRunEnd(line, 0, d);
    if rest != "" {
      assert line[d + 1] == rest[0];
    }
  }

  /** The entries of the lines that qualify, in line order. */
  function NumberedItems(lines: seq<string>): (items: seq<string>)
    ensures |items| <= |lines|
  {
    if lines == [] then []
    else
      var last := NumberedEntry(lines[|lines| - 1]);
      NumberedItems(lines[..|lines| - 1]) + (if last.Some? then [last.value] else [])
  }

  /** An item is kept exactly when it is the entry of some line. */
  lemma {:induction false} NumberedItemsMembers(lines: seq<string>)
    ensures forall i :: 0 <= i < |lines| && NumberedEntry(lines[i]).Some? ==> NumberedEntry(lines[i]).value in NumberedItems(lines)
    ensures forall x :: x in NumberedItems(lines) ==> exists i :: 0 <= i < |lines| && NumberedEntry(lines[i]) == Some(x)
  {
    if lines != [] {
      var init := lines[..|lines| - 1];
      NumberedItemsMembers(init);
      assert forall i :: 0 <= i < |init| ==> init[i] == lines[i];
    }
  }

  lemma {:induction false} NumberedItemsAppend(a: seq<string>, b: seq<string>)
    ensures NumberedItems(a + b) == NumberedItems(a) + NumberedItems(b)
    decreases |b|
  {
    if b == [] {
      assert a + b == a;
    } else {
      var b' := b[..|b| - 1];
      assert (a + b)[..|a + b| - 1] == a + b';
      assert (a + b)[|a + b| - 1] == b[|b| - 1];
      NumberedItemsAppend(a, b');
    }
  }

  /** `parseNumberedList` as a value: the entries of the '\n'-separated lines of `text`. */
  function NumberedList(text: string): (items: seq<string>)
    ensures |items| <= |Split(text, "\n")|
    ensures forall i :: 0 <= i < |items| ==> Trim(items[i]) == items[i]
    ensures forall i :: 0 <= i < |items| ==> '\n' !in items[i] && '\r' !in items[i]
  {
    var lines := Split(text, "\n");
    var items := NumberedItems(lines);
    NumberedItemsMembers(lines);
    assert forall i :: 0 <= i < |items| ==> exists k :: 0 <= k < |lines| && NumberedEntry(lines[k]) == Some(items[i]) by {
      forall i | 0 <= i < |items| ensures exists k :: 0 <= k < |lines| && NumberedEntry(lines[k]) == Some(items[i]) {
        assert items[i] in items;
      }
    }
    items
  }

  /** Parsing more text after a region that ends with a line break keeps the region's entries as a prefix. */
  lemma {:induction false} NumberedListPrefix(a: string, b: string)
    requires a == "" || a[|a| - 1] == '\n'
    ensures NumberedList(a) <= NumberedList(a + b)
  {
    NumberedListOfEmpty();
    if a == "" {
      assert NumberedList(a) == [];
    } else {
      var a' := a[..|a| - 1];
      assert a == a' + "\n" + "";
      assert a + b == a' + "\n" + b;
      NumberedListAround(a', "");
      NumberedListAround(a', b);
    }
  }

  /** An empty region has no entries. */
  lemma {:induction false} NumberedListOfEmpty()
    ensures NumberedList("") == []
  {
    assert FindFrom("", "\n", 0).None?;
    assert Split("", "\n") == [""];
  }

  /** Parsing distributes over line concatenation. */
  lemma {:induction false} NumberedListAround(a: string, b: string)
    ensures NumberedList(a + "\n" + b) == NumberedList(a) + NumberedList(b)
  {
    SplitAround(a, "\n", b);
    NumberedItemsAppend(Split(a, "\n"), Split(b, "\n"));
  }

  /** Parsing lines joined with '\n' looks at exactly those lines. */
  lemma {:induction false} NumberedListOfLines(lines: seq<string>)
    requires |lines| >= 1 && forall i :: 0 <= i < |lines| ==> '\n' !in lines[i]
    ensures NumberedList(Join(lines, "\n")) == NumberedItems(lines)
  {
    forall i | 0 <= i < |lines| ensures !Contains(lines[i], "\n") {
      forall k | 0 <= k < |lines[i]| ensures !OccursAt(lines[i], "\n", k) {
        assert lines[i][k..k + 1] == [lines[i][k]];
      }
    }
    SplitJoin(lines, "\n");
  }

  /** `parseNumberedList`: the loop over the split lines that pushes each entry found. */
  method ParseNumberedList(text: string) returns (items: seq<string>)
    ensures items == NumberedList(text)
  {
    var lines := Split(text, "\n");
    items := [];
    for i := 0 to |lines|
      invariant items == NumberedItems(lines[..i])
    {
      var entry := NumberedEntry(lines[i]);
      assert lines[..i + 1][..i] == lines[..i];
      if entry.Some? {
        items := items + [entry.value];
      }
    }
    assert lines[..|lines|] == lines;
  }
}
