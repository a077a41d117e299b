/**
  `parseMedicalSurvey`: three single-line fields found after their labels and four
  numbered lists found between fixed section headings of a clinic-evaluation survey.
  Each of the seven regular expressions of the parser is written out as a
  first-occurrence search, and each search is proved to return what the regular
  expression's leftmost match returns.
 */
module SurveyParser {
  import opened TextSearch
  import opened NumberedLists

  datatype SurveyRecord = SurveyRecord(
    name: string,
    position: string,
    company: string,
    reputationUnder400: seq<string>,
    reputationOver400: seq<string>,
    marketingUnder400: seq<string>,
    marketingOver400: seq<string>)

  const NameLabel := "Имя:"
  const PositionLabel := "Должность:"
  const CompanyLabel := "Компания:"

  /** Section headings that bound the list regions. */
  const ReputationListOne := "ЧАСТЬ 1: РЕПУТАЦИЯ Список 1 (до 400 млн руб.):"
  const ListTwo := "Список 2 (свыше 400 млн руб.):"
  const MarketingPart := "ЧАСТЬ 2: МАРКЕТИНГ"
  const MarketingListOne := "ЧАСТЬ 2: МАРКЕТИНГ Список 1 (до 400 млн руб.):"

  /**
    `/label\s*([^\n]+)/`, with the label passed as `tag`, matches with the label
    at `i`, `\s*` ending at `k` and the group capturing [k, e); `[^\n]+` is
    greedy, so `e` is where the line ends.
   */
  predicate ScalarMatch(text: string, tag: string, i: int, k: int, e: int) {
    && OccursAt(text, tag, i)
    && i + |tag| <= k < e <= |text|
    && WhitespaceBetween(text, i + |tag|, k)
    && (forall t :: k <= t < e ==> text[t] != '\n')
    && (e == |text| || text[e] == '\n')
  }

  /**
    The value that starts at `p`: skip whitespace (line breaks included) and take
    the trimmed rest of that line; "" when only whitespace follows `p`.
   */
  function LineValue(text: string, p: nat): (value: string)
    requires p <= |text|
    ensures '\n' !in value
    ensures value != "" ==> !IsWhitespace(value[0]) && !IsWhitespace(value[|value| - 1])
  {
    var k := SkipWhitespace(text, p);
    var e := LineEnd(text, k);
    assert '\n' !in text[k..e] by {
      forall t | 0 <= t < e - k ensures text[k..e][t] != '\n' {
        assert text[k..e][t] == text[k + t];
      }
    }
    Trim(text[k..e])
  }

  /** The value read once the `\s*` run from `p` ends at `k` and the line at `e`. */
  lemma {:induction false} LineValueOfRun(text: string, p: nat, k: nat, e: nat)
    requires p <= k < e <= |text| && WhitespaceBetween(text, p, k) && !IsWhitespace(text[k])
    requires (forall t :: k <= t < e ==> text[t] != '\n') && (e == |text| || text[e] == '\n')
    ensures LineValue(text, p) == Trim(text[k..e])
  {
    SkipWhitespaceIsRunEnd(text, p, k);
    LineEndIsNextBreak(text, k, e);
  }

  /** A single-line field: the value after the first occurrence of `tag`, or "" when the tag is absent. */
  function ScalarField(text: string, tag: string): (value: string)
    ensures '\n' !in value
    ensures value != "" ==> !IsWhitespace(value[0]) && !IsWhitespace(value[|value| - 1])
    ensures !Contains(text, tag) ==> value == ""
  {
    match FindFrom(text, tag, 0)
    case None => ""
    case Some(i) => LineValue(text, i + |tag|)
  }

  /** The match the regular expression reports when the greedy `\s*` reaches a visible character. */
  lemma {:induction false} ScalarFieldMatch(text: string, tag: string)
    requires FindFrom(text, tag, 0).Some?
    ensures var i := FindFrom(text, tag, 0).value;
            var k := SkipWhitespace(text, i + |tag|);
            k < |text| ==> ScalarMatch(text, tag, i, k, LineEnd(text, k)) && ScalarField(text, tag) == Trim(text[k..LineEnd(text, k)])
  {
    var i := FindFrom(text, tag, 0).value;
  }

  /** Any match preferred by leftmost-then-greedy order captures what `ScalarField` trims. */
  lemma {:induction false} ScalarFieldOfPreferredMatch(text: string, tag: string, i: int, k: int, e: int)
    requires ScalarMatch(text, tag, i, k, e)
    requires forall i', k', e' :: ScalarMatch(text, tag, i', k', e') ==> i < i' || (i == i' && k' <= k)
    ensures ScalarField(text, tag) == Trim(text[k..e])
  {
    PreferredMatchValue(text, tag, i, k, e);
    ScalarFieldAt(text, tag);
  }

  /** With a first label, the field is the value that starts after it. */
  lemma {:induction false} ScalarFieldAt(text: string, tag: string)
    requires FindFrom(text, tag, 0).Some?
    ensures FindFrom(text, tag, 0).value + |tag| <= |text|
    ensures ScalarField(text, tag) == LineValue(text, FindFrom(text, tag, 0).value + |tag|)
  {
  }

  /** The value after the first label is the trimmed capture of the preferred match. */
  lemma {:induction false} PreferredMatchValue(text: string, tag: string, i: int, k: int, e: int)
    requires ScalarMatch(text, tag, i, k, e)
    requires forall i', k', e' :: ScalarMatch(text, tag, i', k', e') ==> i < i' || (i == i' && k' <= k)
    ensures FindFrom(text, tag, 0).Some? && FindFrom(text, tag, 0).value + |tag| <= |text|
    ensures LineValue(text, FindFrom(text, tag, 0).value + |tag|) == Trim(text[k..e])
  {
    FindFromNoLater(text, tag, 0, i);
    ValueAtOrBeforePreferredMatch(text, tag, i, k, e);
  }

  /** With the first label at or before the preferred match, the value after it is that match's trimmed capture. */
  lemma {:induction false} ValueAtOrBeforePreferredMatch(text: string, tag: string, i: int, k: int, e: int)
    requires FindFrom(text, tag, 0).Some? && FindFrom(text, tag, 0).value <= i
    requires ScalarMatch(text, tag, i, k, e)
    requires forall i', k', e' :: ScalarMatch(text, tag, i', k', e') ==> i < i' || (i == i' && k' <= k)
    ensures LineValue(text, FindFrom(text, tag, 0).value + |tag|) == Trim(text[k..e])
  {
    var i0 := FindFrom(text, tag, 0).value;
    if SkipWhitespace(text, i0 + |tag|) < |text| {
      PreferredMatchIsScan(text, tag, i0, i, k, e);
      FirstValueIsScan(text, tag, k, e);
    } else {
      BlankValueOfMatch(text, tag, i, k, e);
    }
  }

  /** The value after the first label, once the scans from it are known to stop at `k` and `e`. */
  lemma {:induction false} FirstValueIsScan(text: string, tag: string, k: int, e: int)
    requires FindFrom(text, tag, 0).Some?
    requires SkipWhitespace(text, FindFrom(text, tag, 0).value + |tag|) == k
    requires LineEnd(text, k) == e
    ensures LineValue(text, FindFrom(text, tag, 0).value + |tag|) == Trim(text[k..e])
  {
  }

  /** When a visible character follows the label at `i0`, the scans describe a match there. */
  lemma {:induction false} ScanMatch(text: string, tag: string, i0: nat)
    requires OccursAt(text, tag, i0) && SkipWhitespace(text, i0 + |tag|) < |text|
    ensures ScalarMatch(text, tag, i0, SkipWhitespace(text, i0 + |tag|), LineEnd(text, SkipWhitespace(text, i0 + |tag|)))
  {
  }

  /**
    When a visible character follows the label at `i0`, the preferred match starts
    there, its `\s*` is the whole run the scan skips, and its capture ends where the
    line does.
   */
  lemma {:induction false} PreferredMatchIsScan(text: string, tag: string, i0: nat, i: int, k: int, e: int)
    requires OccursAt(text, tag, i0) && i0 <= i && SkipWhitespace(text, i0 + |tag|) < |text|
    requires ScalarMatch(text, tag, i, k, e)
    requires forall i', k', e' :: ScalarMatch(text, tag, i', k', e') ==> i < i' || (i == i' && k' <= k)
    ensures i == i0 && SkipWhitespace(text, i0 + |tag|) == k && LineEnd(text, k) == e
  {
    var p0 := i0 + |tag|;
    ScanMatch(text, tag, i0);
    assert i == i0 && SkipWhitespace(text, p0) <= k;
    SkipWhitespaceCoversRun(text, p0, k);
    LineEndIsNextBreak(text, k, e);
  }

  /** Only whitespace follows the first label: its value is "", and so is the trimmed capture of any match after it. */
  lemma {:induction false} BlankValueOfMatch(text: string, tag: string, i: int, k: int, e: int)
    requires FindFrom(text, tag, 0).Some? && FindFrom(text, tag, 0).value <= i
    requires SkipWhitespace(text, FindFrom(text, tag, 0).value + |tag|) == |text|
    requires ScalarMatch(text, tag, i, k, e)
    ensures LineValue(text, FindFrom(text, tag, 0).value + |tag|) == Trim(text[k..e])
  {
    assert WhitespaceBetween(text, k, e);
    TrimOfWhitespaceRun(text, k, e);
    assert text[|text|..LineEnd(text, |text|)] == "";
  }

  /**
    `ScalarField` is what `text.match(/label\s*([^\n]+)/)` followed by `trim()` gives:
    "" when nothing matches, and otherwise the trimmed capture of the match that
    starts leftmost and, among those, has the longest `\s*`.
   */
  lemma {:induction false} ScalarFieldIsFirstGreedyMatch(text: string, tag: string)
    ensures (forall i, k, e :: !ScalarMatch(text, tag, i, k, e)) ==> ScalarField(text, tag) == ""
    ensures forall i, k, e :: ScalarMatch(text, tag, i, k, e)
                              && (forall i', k', e' :: ScalarMatch(text, tag, i', k', e') ==> i < i' || (i == i' && k' <= k))
                              ==> ScalarField(text, tag) == Trim(text[k..e])
  {
    if FindFrom(text, tag, 0).Some? {
      ScalarFieldMatch(text, tag);
    }
    forall i, k, e | ScalarMatch(text, tag, i, k, e)
                     && (forall i', k', e' :: ScalarMatch(text, tag, i', k', e') ==> i < i' || (i == i' && k' <= k))
      ensures ScalarField(text, tag) == Trim(text[k..e])
    {
      ScalarFieldOfPreferredMatch(text, tag, i, k, e);
    }
  }

  /** A label that first occurs right after `before` is found there. */
  lemma {:induction false} TagFound(before: string, tag: string, blank: string, value: string, after: string)
    requires |tag| > 0 && !Contains(before + tag[..|tag| - 1], tag)
    ensures FindFrom(before + tag + blank + value + after, tag, 0).Some? && FindFrom(before + tag + blank + value + after, tag, 0).value == |before|
  {
    assert before + tag + blank + value + after == "" + before + tag + (blank + value + after);
    FindAfterBody("", before, tag, blank + value + after);
  }

  /**
    The label `tag`, then whitespace (possibly several line breaks), then a
    value that starts with a visible character and runs to the end of its line.
   */
  lemma {:induction false} ScalarFieldLayout(before: string, tag: string, blank: string, value: string, after: string)
    requires |tag| > 0 && !Contains(before + tag[..|tag| - 1], tag)
    requires AllWhitespace(blank)
    requires |value| > 0 && !IsWhitespace(value[0]) && '\n' !in value
    requires after == "" || after[0] == '\n'
    ensures ScalarField(before + tag + blank + value + after, tag) == Trim(value)
  {
    var text := before + tag + blank + value + after;
    var k := |before| + |tag| + |blank|;
    ValueLineOfLayout(before, tag, blank, value, after);
    TagFound(before, tag, blank, value, after);
    ScalarFieldOfRun(text, tag, |before|, k, k + |value|);
  }

  /** The field read once the first label is at `i`, the `\s*` run ends at `k` and the line at `e`. */
  lemma {:induction false} ScalarFieldOfRun(text: string, tag: string, i: nat, k: nat, e: nat)
    requires FindFrom(text, tag, 0).Some? && FindFrom(text, tag, 0).value == i
    requires i + |tag| <= k < e <= |text| && WhitespaceBetween(text, i + |tag|, k) && !IsWhitespace(text[k])
    requires (forall t :: k <= t < e ==> text[t] != '\n') && (e == |text| || text[e] == '\n')
    ensures ScalarField(text, tag) == Trim(text[k..e])
  {
    ScalarFieldAt(text, tag);
    var p := FindFrom(text, tag, 0).value + |tag|;
    assert ScalarField(text, tag) == LineValue(text, p);
    LineValueOfRun(text, p, k, e);
  }

  /** Where the blank run and the value line lie in a laid-out text. */
  lemma {:induction false} ValueLineOfLayout(before: string, tag: string, blank: string, value: string, after: string)
    requires AllWhitespace(blank)
    requires |value| > 0 && !IsWhitespace(value[0]) && '\n' !in value
    requires after == "" || after[0] == '\n'
    ensures var text := before + tag + blank + value + after;
            var p := |before| + |tag|;
            var k := p + |blank|;
            var e := k + |value|;
            && WhitespaceBetween(text, p, k) && !IsWhitespace(text[k])
            && (forall t :: k <= t < e ==> text[t] != '\n') && (e == |text| || text[e] == '\n')
            && text[k..e] == value
  {
    var text := before + tag + blank + value + after;
    var p := |before| + |tag|;
    var k := p + |blank|;
    var e := k + |value|;
    assert text[k..e] == value;
    forall t | p <= t < k ensures IsWhitespace(text[t]) {
      assert text[t] == blank[t - p];
    }
    assert text[k] == value[0];
    forall t | k <= t < e ensures text[t] != '\n' {
      assert text[t] == value[t - k];
    }
    assert e < |text| ==> text[e] == after[0];
  }

  /** The text strictly between the first `start` and the first `end` after it. */
  function Region(text: string, start: string, end: string): (region: Option<string>)
    ensures !Contains(text, start) ==> region.None?
    ensures region.Some? ==> |region.value| + |start| + |end| <= |text|
  {
    match FindFrom(text, start, 0)
    case None => None
    case Some(i) =>
      match FindFrom(text, end, i + |start|)
      case None => None
      case Some(j) => Some(text[i + |start|..j])
  }

  /** `/start([\s\S]*?)end/` matches with `start` at `i` and `end` at `j`. */
  predicate RegionMatch(text: string, start: string, end: string, i: int, j: int) {
    OccursAt(text, start, i) && i + |start| <= j && OccursAt(text, end, j)
  }

  /** Every match is at or after the one `Region` uses, in leftmost-then-shortest order. */
  lemma {:induction false} RegionIsFirstMatch(text: string, start: string, end: string, i: int, j: int)
    requires RegionMatch(text, start, end, i, j)
    ensures FindFrom(text, start, 0).Some?
    ensures var i0 := FindFrom(text, start, 0).value;
            var j0 := FindFrom(text, end, i0 + |start|);
            j0.Some? && RegionMatch(text, start, end, i0, j0.value) && i0 <= i && j0.value <= j
            && Region(text, start, end) == Some(text[i0 + |start|..j0.value])
  {
    FindFromNoLater(text, start, 0, i);
    var i0 := FindFrom(text, start, 0).value;
    FindFromNoLater(text, end, i0 + |start|, j);
  }

  /**
    `Region` is what `text.match(/start([\s\S]*?)end/)[1]` gives: nothing when no
    `end` follows any `start`, and otherwise the capture of the leftmost match with
    the shortest lazy group. Searching only after the first `start` loses nothing.
   */
  lemma {:induction false} RegionIsLeftmostShortest(text: string, start: string, end: string)
    ensures Region(text, start, end).None? <==> forall i, j :: !RegionMatch(text, start, end, i, j)
    ensures forall i, j :: RegionMatch(text, start, end, i, j)
                           && (forall i', j' :: RegionMatch(text, start, end, i', j') ==> i < i' || (i == i' && j <= j'))
                           ==> Region(text, start, end) == Some(text[i + |start|..j])
  {
    forall i, j | RegionMatch(text, start, end, i, j) ensures Region(text, start, end).Some? {
      RegionIsFirstMatch(text, start, end, i, j);
    }
    forall i, j | RegionMatch(text, start, end, i, j)
                  && (forall i', j' :: RegionMatch(text, start, end, i', j') ==> i < i' || (i == i' && j <= j'))
      ensures Region(text, start, end) == Some(text[i + |start|..j])
    {
      RegionOfPreferredMatch(text, start, end, i, j);
    }
    if Region(text, start, end).Some? {
      RegionHasMatch(text, start, end);
    }
  }

  /** The match preferred by leftmost-then-shortest order is the one `Region` reads. */
  lemma {:induction false} RegionOfPreferredMatch(text: string, start: string, end: string, i: int, j: int)
    requires RegionMatch(text, start, end, i, j)
    requires forall i', j' :: RegionMatch(text, start, end, i', j') ==> i < i' || (i == i' && j <= j')
    ensures Region(text, start, end) == Some(text[i + |start|..j])
  {
    RegionIsFirstMatch(text, start, end, i, j);
    var i0 := FindFrom(text, start, 0).value;
    var j0 := FindFrom(text, end, i0 + |start|).value;
    assert RegionMatch(text, start, end, i0, j0);
  }

  /** A region comes from a match of the pattern. */
  lemma {:induction false} RegionHasMatch(text: string, start: string, end: string)
    requires Region(text, start, end).Some?
    ensures exists i, j :: RegionMatch(text, start, end, i, j)
  {
    var i0 := FindFrom(text, start, 0).value;
    var j0 := FindFrom(text, end, i0 + |start|).value;
    assert RegionMatch(text, start, end, i0, j0);
  }

  /** The region read once both searches have succeeded. */
  lemma {:induction false} RegionFromSearches(text: string, start: string, end: string, i: nat, j: nat, body: string)
    requires FindFrom(text, start, 0).Some? && FindFrom(text, start, 0).value == i
    requires FindFrom(text, end, i + |start|).Some? && FindFrom(text, end, i + |start|).value == j
    requires text[i + |start|..j] == body
    ensures Region(text, start, end) == Some(body)
  {
  }

  /** A start heading that first occurs right after `before` is found there. */
  lemma {:induction false} StartHeadingFound(before: string, start: string, body: string, end: string, after: string)
    requires |start| > 0 && !Contains(before + start[..|start| - 1], start)
    ensures FindFrom(before + start + body + end + after, start, 0).Some? && FindFrom(before + start + body + end + after, start, 0).value == |before|
  {
    assert before + start + body + end + after == "" + before + start + (body + end + after);
    FindAfterBody("", before, start, body + end + after);
  }

  /** An end heading that first occurs right after the body is the one found after the start heading. */
  lemma {:induction false} EndHeadingFound(before: string, start: string, body: string, end: string, after: string)
    requires |end| > 0 && !Contains(body + end[..|end| - 1], end)
    ensures FindFrom(before + start + body + end + after, end, |before| + |start|).Some? && FindFrom(before + start + body + end + after, end, |before| + |start|).value == |before| + |start| + |body|
  {
    FindAfterBody(before + start, body, end, after);
  }

  /** The body sits between the two headings of a laid-out text. */
  lemma {:induction false} BodyOfLayout(before: string, start: string, body: string, end: string, after: string)
    ensures (before + start + body + end + after)[|before| + |start|..|before| + |start| + |body|] == body
  {
  }

  /** Headings laid out once, in order, bound exactly the body between them. */
  lemma {:induction false} RegionLayout(before: string, start: string, body: string, end: string, after: string)
    requires |start| > 0 && !Contains(before + start[..|start| - 1], start)
    requires |end| > 0 && !Contains(body + end[..|end| - 1], end)
    ensures Region(before + start + body + end + after, start, end) == Some(body)
  {
    var text := before + start + body + end + after;
    StartHeadingFound(before, start, body, end, after);
    EndHeadingFound(before, start, body, end, after);
    BodyOfLayout(before, start, body, end, after);
    RegionFromSearches(text, start, end, |before|, |before| + |start| + |body|, body);
  }

  /** The text after the first `start` through the end of the text: `/start([\s\S]*?)$/` without the `m` flag. */
  function RegionToEnd(text: string, start: string): (region: Option<string>)
    ensures region.Some? <==> Contains(text, start)
    ensures region.Some? ==> exists i :: OccursAt(text, start, i) && region.value == text[i + |start|..]
                                         && forall t :: 0 <= t < i ==> !OccursAt(text, start, t)
  {
    match FindFrom(text, start, 0)
    case None => None
    case Some(i) =>
      FindFromIsFirstOccurrence(text, start, 0);
      Some(text[i + |start|..])
  }

  /** A list field: the numbered entries of its region, or none when the region is missing. */
  function ListOf(region: Option<string>): (items: seq<string>)
  {
    match region
    case None => []
    case Some(r) => NumberedList(r)
  }

  /** The record `parseMedicalSurvey` returns, field by field. */
  function Parse(text: string): (record: SurveyRecord)
  {
    SurveyRecord(
      ScalarField(text, NameLabel),
      ScalarField(text, PositionLabel),
      ScalarField(text, CompanyLabel),
      ListOf(Region(text, ReputationListOne, ListTwo)),
      ListOf(Region(text, ListTwo, MarketingPart)),
      ListOf(Region(text, MarketingListOne, ListTwo)),
      ListOf(RegionToEnd(text, ListTwo)))
  }

  /**
    `parseMedicalSurvey`: start from the all-empty record and assign each field
    whose pattern matched, parsing list regions with `ParseNumberedList`.
   */
  method ParseMedicalSurvey(text: string) returns (result: SurveyRecord)
    ensures result == Parse(text)
  {
    result := SurveyRecord("", "", "", [], [], [], []);

    result := result.(name := ScalarField(text, NameLabel));
    result := result.(position := ScalarField(text, PositionLabel));
    result := result.(company := ScalarField(text, CompanyLabel));

    var repUnder400Match := Region(text, ReputationListOne, ListTwo);
    if repUnder400Match.Some? {
      var items := ParseNumberedList(repUnder400Match.value);
      result := result.(reputationUnder400 := items);
    }
    var repOver400Match := Region(text, ListTwo, MarketingPart);
    if repOver400Match.Some? {
      var items := ParseNumberedList(repOver400Match.value);
      result := result.(reputationOver400 := items);
    }
    var markUnder400Match := Region(text, MarketingListOne, ListTwo);
    if markUnder400Match.Some? {
      var items := ParseNumberedList(markUnder400Match.value);
      result := result.(marketingUnder400 := items);
    }
    var markOver400Match := RegionToEnd(text, ListTwo);
    if markOver400Match.Some? {
      var items := ParseNumberedList(markOver400Match.value);
      result := result.(marketingOver400 := items);
    }
  }

  /** The marketing heading is the start of the heading of the marketing list 1. */
  lemma {:induction false} MarketingListOneStartsWithPart(text: string)
    requires Contains(text, MarketingListOne)
    ensures Contains(text, MarketingPart)
  {
    var i :| OccursAt(text, MarketingListOne, i);
    assert MarketingListOne[..|MarketingPart|] == MarketingPart;
    assert text[i..i + |MarketingPart|] == text[i..i + |MarketingListOne|][..|MarketingPart|];
    assert OccursAt(text, MarketingPart, i);
  }

  /** A region whose end heading never occurs is missing. */
  lemma {:induction false} RegionWithoutEnd(text: string, start: string, end: string)
    requires !Contains(text, end)
    ensures Region(text, start, end).None?
  {
    var r := FindFrom(text, start, 0);
    if r.Some? {
      assert FindFrom(text, end, r.value + |start|).None?;
    }
  }

  /**
    The parser never fails: a field keeps its default "" or [] when its tag,
    its start heading or its end heading is missing.
   */
  lemma {:induction false} ParseDefaults(text: string)
    ensures !Contains(text, NameLabel) ==> Parse(text).name == ""
    ensures !Contains(text, PositionLabel) ==> Parse(text).position == ""
    ensures !Contains(text, CompanyLabel) ==> Parse(text).company == ""
    ensures !Contains(text, ReputationListOne) ==> Parse(text).reputationUnder400 == []
    ensures !Contains(text, MarketingListOne) ==> Parse(text).marketingUnder400 == []
    ensures !Contains(text, ListTwo) ==>
              Parse(text).reputationUnder400 == [] && Parse(text).reputationOver400 == []
              && Parse(text).marketingUnder400 == [] && Parse(text).marketingOver400 == []
    ensures !Contains(text, MarketingPart) ==>
              Parse(text).reputationOver400 == [] && Parse(text).marketingUnder400 == []
  {
    if !Contains(text, ListTwo) {
      RegionWithoutEnd(text, ReputationListOne, ListTwo);
      RegionWithoutEnd(text, MarketingListOne, ListTwo);
    }
    if !Contains(text, MarketingPart) {
      RegionWithoutEnd(text, ListTwo, MarketingPart);
      if Contains(text, MarketingListOne) {
        MarketingListOneStartsWithPart(text);
      }
    }
  }

  /**
    The last list region runs from the first "Список 2 (...)" heading to the end of
    the text, so it also covers the region of the reputation list 2: when the heading
    "ЧАСТЬ 2: МАРКЕТИНГ" that closes that region starts a line, every reputation
    list 2 entry is also, in the same order, at the start of the marketing list 2.
   */
  lemma {:induction false} ReputationOver400IsPrefixOfMarketingOver400(text: string)
    requires Region(text, ListTwo, MarketingPart).Some?
    requires var r := Region(text, ListTwo, MarketingPart).value; r == "" || r[|r| - 1] == '\n'
    ensures Parse(text).reputationOver400 <= Parse(text).marketingOver400
  {
    var i := FindFrom(text, ListTwo, 0).value;
    var j := FindFrom(text, MarketingPart, i + |ListTwo|).value;
    var a := text[i + |ListTwo|..j];
    assert text[i + |ListTwo|..] == a + text[j..];
    NumberedListPrefix(a, text[j..]);
  }
}
