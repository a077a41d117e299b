/**
  The message handler's pure steps: the test that decides whether a chat message is
  a survey submission, and the seven-field row the parsed survey is flattened into.
 */
module SurveyBot {
  import opened TextSearch
  import opened SurveyParser

  /** The three markers every survey submission must contain. */
  const TitleMarker := "Полная оценка медицинских клиник СПб"
  const ReputationMarker := "ЧАСТЬ 1: РЕПУТАЦИЯ"
  const MarketingMarker := "ЧАСТЬ 2: МАРКЕТИНГ"

  /** The separator the four list fields of the row are joined with. */
  const ListSeparator := "; "

  /** A message is parsed only when the title and both part headings occur in it, anywhere and in any order. */
  function IsSurveySubmission(text: string): (eligible: bool)
    ensures eligible <==> Occurs(text, TitleMarker) && Occurs(text, ReputationMarker) && Occurs(text, MarketingMarker)
  {
    Contains(text, TitleMarker) && Contains(text, ReputationMarker) && Contains(text, MarketingMarker)
  }

  /**
    The row written for a parsed survey: the three scalar fields as they are (the
    fields are strings, so `x || ''` is `x`), then each list joined with "; ".
   */
  function RowData(data: SurveyRecord): (row: seq<string>)
    ensures |row| == 7
    ensures row[0] == data.name && row[1] == data.position && row[2] == data.company
  {
    [ data.name,
      data.position,
      data.company,
      Join(data.reputationUnder400, ListSeparator),
      Join(data.reputationOver400, ListSeparator),
      Join(data.marketingUnder400, ListSeparator),
      Join(data.marketingOver400, ListSeparator) ]
  }

  /** A list that the row can give back: at least one item, and no item holding the separator. */
  predicate Recoverable(items: seq<string>) {
    |items| >= 1 && forall i :: 0 <= i < |items| ==> !Contains(items[i], ListSeparator)
  }

  /** Splitting a joined list field on "; " gives the list back. */
  lemma {:induction false} ListFieldRoundTrip(items: seq<string>)
    requires Recoverable(items)
    ensures Split(Join(items, ListSeparator), ListSeparator) == items
  {
    assert NoBorder(ListSeparator) by {
      assert ListSeparator[1..][0] == ' ' && ListSeparator[..1][0] == ';';
    }
    SplitJoin(items, ListSeparator);
  }

  /** Every list field of the row splits back into its list, when the list is recoverable. */
  lemma {:induction false} RowDataRoundTrip(data: SurveyRecord)
    requires Recoverable(data.reputationUnder400) && Recoverable(data.reputationOver400)
    requires Recoverable(data.marketingUnder400) && Recoverable(data.marketingOver400)
    ensures Split(RowData(data)[3], ListSeparator) == data.reputationUnder400
    ensures Split(RowData(data)[4], ListSeparator) == data.reputationOver400
    ensures Split(RowData(data)[5], ListSeparator) == data.marketingUnder400
    ensures Split(RowData(data)[6], ListSeparator) == data.marketingOver400
  {
    ListFieldRoundTrip(data.reputationUnder400);
    ListFieldRoundTrip(data.reputationOver400);
    ListFieldRoundTrip(data.marketingUnder400);
    ListFieldRoundTrip(data.marketingOver400);
  }

  /**
    A list field is "" for an empty list and the item itself for a one-item list; it
    is "" for no other list but [""], so the row cannot tell those two apart.
    Longer lists add two characters per separator.
   */
  lemma {:induction false} ListFieldShape(items: seq<string>)
    ensures items == [] ==> Join(items, ListSeparator) == ""
    ensures |items| == 1 ==> Join(items, ListSeparator) == items[0]
    ensures Join(items, ListSeparator) == "" <==> items == [] || items == [""]
    ensures |items| >= 1 ==> |Join(items, ListSeparator)| == TotalLength(items) + 2 * (|items| - 1)
  {
    if |items| >= 1 {
      JoinLength(items, ListSeparator);
    }
  }

  /**
    The message handler up to the storage write: a message without text, or whose
    text lacks one of the markers, is ignored; any other is parsed and flattened.
   */
  method HandleMessage(msgText: Option<string>) returns (row: Option<seq<string>>)
    ensures row.Some? <==> msgText.Some? && IsSurveySubmission(msgText.value)
    ensures row.Some? ==> row.value == RowData(Parse(msgText.value))
  {
    if msgText.None? || msgText.value == "" {
      return None;
    }
    var text := msgText.value;
    if !IsSurveySubmission(text) {
      return None;
    }
    var parsedData := ParseMedicalSurvey(text);
    row := Some(RowData(parsedData));
  }

  /**
    The list headings all contain '(', so a submission written without any '('
    passes the marker test but yields four empty lists.
   */
  lemma {:induction false} ListsNeedParenthesisedHeadings(text: string)
    requires '(' !in text
    ensures Parse(text).reputationUnder400 == [] && Parse(text).reputationOver400 == []
    ensures Parse(text).marketingUnder400 == [] && Parse(text).marketingOver400 == []
  {
    assert ReputationListOne[28] == '(';
    assert ListTwo[9] == '(';
    MissingCharNotContained(text, ReputationListOne, '(');
    MissingCharNotContained(text, ListTwo, '(');
    ParseDefaults(text);
  }

  /** Three lines joined by line breaks each occur in the text. */
  lemma {:induction false} LinesOccur(text: string, a: string, b: string, c: string)
    requires text == a + "\n" + b + "\n" + c
    ensures OccursAt(text, a, 0) && OccursAt(text, b, |a| + 1) && OccursAt(text, c, |a| + |b| + 2)
  {
    assert text[..|a|] == a;
    assert text[|a| + 1..|a| + 1 + |b|] == b;
    assert text[|a| + |b| + 2..] == c;
  }

  /** The three markers alone, one per line, make an eligible message with no list entries. */
  lemma {:induction false} EligibleWithoutListHeadings(text: string)
    requires text == TitleMarker + "\n" + ReputationMarker + "\n" + MarketingMarker
    ensures IsSurveySubmission(text)
    ensures Parse(text).reputationUnder400 == [] && Parse(text).reputationOver400 == []
    ensures Parse(text).marketingUnder400 == [] && Parse(text).marketingOver400 == []
  {
    LinesOccur(text, TitleMarker, ReputationMarker, MarketingMarker);
    assert '(' !in TitleMarker && '(' !in ReputationMarker && '(' !in MarketingMarker;
    assert '(' !in text;
    ListsNeedParenthesisedHeadings(text);
  }
}
