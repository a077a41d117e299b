# Medical survey parser — a Dafny model

The survey bot (`medical-bot.js`) reads clinic-evaluation surveys sent as chat
messages. Its computing core is modelled here:

- the marker test that decides whether a message is a survey submission;
- `parseMedicalSurvey`, which pulls out three single-line fields (name, position,
  company) and four numbered lists (reputation and marketing, each with
  "up to 400 million roubles" and "over 400 million roubles");
- `parseNumberedList`, which keeps the trimmed text of the numbered lines of a
  region;
- the seven-field row that a parsed survey is flattened into.

The model is split into four modules:

- `TextSearch` (`text_search.dfy`) holds what the parser borrows from JavaScript.
  `\s` and `trim` share one whitespace set; it is given character by character,
  including the Unicode spaces, line terminators and U+FEFF. The module also has
  first-occurrence search (`indexOf`/`includes`), `split` and `join`.
- `NumberedLists` (`numbered_lists.dfy`) holds the pattern `^\d+\.\s+(.+)$` and
  the `parseNumberedList` loop. The loop is a method proved against a recursive
  specification function.
- `SurveyParser` (`survey_parser.dfy`) holds the record and the seven regular
  expressions. Each is written as a first-occurrence search with greedy scans,
  and each is proved to return what the leftmost match of the regular expression
  captures. `ParseMedicalSurvey` is a method that fills an all-empty record field
  by field, as the source does.
- `SurveyBot` (`survey_bot.dfy`) holds the marker test, the row, and the message
  handler up to the storage write.

Behaviour of `medical-bot.js` that the model follows as written:

- A scalar field's `\s*` also skips line breaks. So a label at the end of its line
  takes its value from the next non-blank line.
- `\s+` after the period of a numbered line accepts any whitespace character, tab
  and '\r' included. A line ending in '\r' is dropped, because `.` does not match
  '\r'.
- The last list pattern, `/Список 2 \(свыше 400 млн руб\.\):([\s\S]*?)$/`, has no
  `m` flag. It therefore runs from the *first* "Список 2 (свыше 400 млн руб.):" to
  the end of the text. In a full survey this sweeps up the reputation list 2 and
  the marketing list 1 as well.
- Lists are joined with "; " and nothing else: no item is quoted or escaped. The
  row is built, and the write that follows is a placeholder.

## Model

| member | source | states |
|---|---|---|
| TextSearch.IsWhitespace | medical-bot.js:47-53 | the characters JavaScript `\s` and `trim` treat as whitespace: tab, vertical tab, form feed, space, U+00A0, U+1680, U+2000 to U+200A, U+202F, U+205F, U+3000, U+FEFF and the line terminators |
| TextSearch.IsLineTerminator | medical-bot.js:92 | the characters `.` does not match: '\n', '\r', U+2028 and U+2029 |
| TextSearch.IsDigit | medical-bot.js:92 | the characters `\d` matches: '0' to '9' |
| TextSearch.SkipWhitespace | medical-bot.js:47-49 | the greedy `\s*` scan stops at or after its start, at the end or at a non-whitespace character, and skips only whitespace |
| TextSearch.SkipWhitespaceIsRunEnd | medical-bot.js:47-49 | a whitespace run that ends at the end or before a non-whitespace character is exactly what the scan skips |
| TextSearch.SkipWhitespaceCoversRun | medical-bot.js:47-49 | no whitespace run from the start position goes past the scan |
| TextSearch.LineEnd | medical-bot.js:47-49 | the greedy `[^\n]` scan stops at the first '\n' at or after its start, or at the end |
| TextSearch.LineEndIsNextBreak | medical-bot.js:47-49 | a '\n'-free run that ends at the end or at a '\n' is exactly what the scan covers |
| TextSearch.SkipDigits | medical-bot.js:92 | the greedy `\d` scan covers only digits and stops at the end or at a non-digit |
| TextSearch.SkipDigitsIsRunEnd | medical-bot.js:92 | a digit run that ends at the end or before a non-digit is exactly what the scan covers |
| TextSearch.SkipWhitespaceBack | medical-bot.js:51-53 | the backward scan of `trim` removes only whitespace and stops after a non-whitespace character or at the start |
| TextSearch.Trim | medical-bot.js:51-53 | the result is "" exactly when the input is all whitespace, otherwise it starts and ends with a non-whitespace character, and it is no longer than the input and uses only the input's characters |
| TextSearch.TrimIsSlice | medical-bot.js:94 | the trimmed text is the input with its leading and trailing whitespace runs removed |
| TextSearch.TrimIdempotent | medical-bot.js:94 | trimming a trimmed string changes nothing |
| TextSearch.TrimOfTrimmed | medical-bot.js:51-53 | a string that is empty or starts and ends with non-whitespace is its own trim |
| TextSearch.TrimOfWhitespaceRun | medical-bot.js:51-53 | trimming a run of whitespace gives "" |
| TextSearch.FindFrom | medical-bot.js:47-49 | `indexOf`: a found index is an occurrence of the pattern at or after the start position. It is a non-recursive wrapper over the recursive scan `ScanFrom`, so that proofs see one fixed term for each search |
| TextSearch.FindFromIsFirstOccurrence | medical-bot.js:47-49 | no occurrence lies between the start position and a found index, and not found means no occurrence at or after the start |
| TextSearch.FindFromNoLater | medical-bot.js:56-74 | an occurrence at or after the start position is found there or earlier |
| TextSearch.FindFromIsFirst | medical-bot.js:56-74 | an occurrence with none between the start position and it is the index found |
| TextSearch.FindAfterBody | medical-bot.js:56-74 | a pattern that does not start inside the body is found right after it |
| TextSearch.MissingCharNotContained | medical-bot.js:56-81 | a text lacking one of the pattern's characters does not contain the pattern |
| TextSearch.Contains | medical-bot.js:137-139 | `includes` is true exactly when the pattern occurs somewhere |
| TextSearch.Split | medical-bot.js:88 | `split` gives at least one part, no part contains the separator, and joining the parts with the separator gives the input back |
| TextSearch.SplitJoin | medical-bot.js:109-112 | splitting a join gives the list back, for a non-empty list whose items lack a separator that has no border |
| TextSearch.SplitAround | medical-bot.js:88 | splitting `a + sep + b` gives the parts of `a` followed by the parts of `b` |
| TextSearch.Join | medical-bot.js:109-112 | `Array.prototype.join`: its meaning is stated by `JoinLength`, `JoinAppend` and `SplitJoin` |
| TextSearch.JoinLength | medical-bot.js:109-112 | a join is as long as its items plus one separator between each pair |
| TextSearch.JoinAppend | medical-bot.js:109-112 | the join of two non-empty lists is the two joins with one separator between them |
| TextSearch.FindSeparatorAfterItem | medical-bot.js:109-112 | in `x + sep + rest`, with `x` free of a border-free separator, the first separator follows `x` |
| NumberedLists.NumberedEntry | medical-bot.js:92-94 | a line that is empty, starts with a non-digit or ends in a line terminator has no entry; an entry holds no line terminator and is already trimmed |
| NumberedLists.NumberedEntryIsGreedyMatch | medical-bot.js:92-94 | there is an entry exactly when some split of the line matches `^\d+\.\s+(.+)$`, and the entry is the trimmed capture of the match with the longest `\s+`, as backtracking gives |
| NumberedLists.EntryIsLongestMatch | medical-bot.js:92-94 | an entry comes from a match whose `\s+` is at least as long as that of every other match |
| NumberedLists.MatchBounds | medical-bot.js:92 | every match puts its period where the leading digits stop and ends its `\s+` within the whitespace run after the period |
| NumberedLists.MatchHasEntry | medical-bot.js:92-94 | a line that matches the pattern has an entry |
| NumberedLists.CaptureStart | medical-bot.js:92 | where the capture begins for a line with an entry; it lies inside the line |
| NumberedLists.CaptureStartMatches | medical-bot.js:92-94 | the greedy scans give a match, and the entry is its trimmed capture |
| NumberedLists.CaptureStartIsLongest | medical-bot.js:92 | no match has a longer `\s+` than the greedy scans |
| NumberedLists.LongestMatchCapture | medical-bot.js:92-94 | the match with the longest `\s+` captures the entry |
| NumberedLists.WellFormedLine | medical-bot.js:92-94 | digits, a period, whitespace and a visible first character give the trimmed rest of the line |
| NumberedLists.NoWhitespaceAfterPeriod | medical-bot.js:92 | "1.Foo", with no whitespace after the period, has no entry |
| NumberedLists.NumberedItems | medical-bot.js:91-96 | the loop keeps at most one entry per line |
| NumberedLists.NumberedItemsMembers | medical-bot.js:91-96 | an item is kept exactly when it is the entry of some line |
| NumberedLists.NumberedItemsAppend | medical-bot.js:91-96 | the items of two runs of lines are the items of the first run, then those of the second, in line order |
| NumberedLists.NumberedList | medical-bot.js:87-99 | there are at most as many entries as '\n'-separated lines, and each is trimmed and holds neither '\n' nor '\r' |
| NumberedLists.NumberedListOfEmpty | medical-bot.js:88-98 | an empty region has no entries |
| NumberedLists.NumberedListAround | medical-bot.js:88-96 | the list of `a + "\n" + b` is the list of `a` followed by the list of `b` |
| NumberedLists.NumberedListPrefix | medical-bot.js:88-96 | appending text after a region that ends with a line break keeps the region's entries as a prefix |
| NumberedLists.NumberedListOfLines | medical-bot.js:88-96 | the list of lines joined with '\n' is built from exactly those lines |
| NumberedLists.ParseNumberedList | medical-bot.js:87-99 | the loop over the split lines returns `NumberedList(text)` |
| SurveyParser.ScalarField | medical-bot.js:47-53 | a field holds no '\n', has no whitespace at either end, and is "" when its label is absent |
| SurveyParser.LineValue | medical-bot.js:47-53 | the value read after a position holds no '\n' and has no whitespace at either end |
| SurveyParser.LineValueOfRun | medical-bot.js:47-53 | once the `\s*` run ends at a visible character and the line ends after it, the value is that line's trimmed rest |
| SurveyParser.ScalarFieldOfRun | medical-bot.js:47-53 | with the first label, the end of its `\s*` run and the line end known, the field is the trimmed value line |
| SurveyParser.ScalarFieldIsFirstGreedyMatch | medical-bot.js:47-53 | the field is "" when `/label\s*([^\n]+)/` does not match; otherwise it is the trimmed capture of the leftmost match with the longest `\s*` |
| SurveyParser.ScalarFieldOfPreferredMatch | medical-bot.js:47-53 | the trimmed capture of the preferred match is the field |
| SurveyParser.PreferredMatchValue | medical-bot.js:47-53 | when the pattern matches, the label is found, and the value after the first label is the trimmed capture of the preferred match |
| SurveyParser.ValueAtOrBeforePreferredMatch | medical-bot.js:47-53 | a first label at or before the preferred match reads that match's trimmed capture |
| SurveyParser.PreferredMatchIsScan | medical-bot.js:47-53 | when a visible character follows the first label, the preferred match starts there, its `\s*` is the scanned run and its capture ends with the line |
| SurveyParser.BlankValueOfMatch | medical-bot.js:47-53 | when only whitespace follows the first label, the field value and the trimmed capture of any later match are both "" |
| SurveyParser.ScanMatch | medical-bot.js:47-53 | a label followed somewhere by a visible character gives a match whose `\s*` and `[^\n]+` are the greedy scans |
| SurveyParser.ScalarFieldMatch | medical-bot.js:47-53 | when a visible character follows the first label, the search and the scans describe a match of the pattern |
| SurveyParser.ScalarFieldLayout | medical-bot.js:47-53 | a label followed by blank space, even several line breaks, and then a value line gives the trimmed value line |
| SurveyParser.TagFound | medical-bot.js:47-49 | a label that first occurs right after `before` is found there |
| SurveyParser.Region | medical-bot.js:56-74 | no region when the start heading is absent; a region and its two headings together are no longer than the text |
| SurveyParser.RegionIsFirstMatch | medical-bot.js:56-74 | every match of `/start([\s\S]*?)end/` starts at or after the first start heading, and none ends before the first end heading after it |
| SurveyParser.RegionIsLeftmostShortest | medical-bot.js:56-74 | there is a region exactly when the lazy pattern matches, and it is the capture of the leftmost, then shortest, match |
| SurveyParser.RegionOfPreferredMatch | medical-bot.js:56-74 | the leftmost, then shortest, match captures the region |
| SurveyParser.RegionHasMatch | medical-bot.js:56-74 | a region comes from a match of the lazy pattern |
| SurveyParser.RegionLayout | medical-bot.js:56-74 | headings laid out once and in order bound exactly the text between them |
| SurveyParser.StartHeadingFound | medical-bot.js:56-74 | a start heading that first occurs right after `before` is found there |
| SurveyParser.EndHeadingFound | medical-bot.js:56-74 | an end heading that does not start inside the body is found right after it |
| SurveyParser.RegionWithoutEnd | medical-bot.js:56-74 | a region whose end heading never occurs is missing |
| SurveyParser.RegionToEnd | medical-bot.js:77-81 | the last region exists exactly when its heading occurs, and it is everything after the first occurrence |
| SurveyParser.ListOf | medical-bot.js:57-81 | a list field is the numbered entries of its region, or [] when the pattern did not match; stated through `ParseDefaults`, `ListsNeedParenthesisedHeadings` and `ReputationOver400IsPrefixOfMarketingOver400` |
| SurveyParser.Parse | medical-bot.js:35-84 | the record `parseMedicalSurvey` returns; `ParseMedicalSurvey` is proved to compute it, and `ScalarFieldIsFirstGreedyMatch`, `RegionIsLeftmostShortest` and `RegionToEnd` state what each field holds |
| SurveyParser.ParseMedicalSurvey | medical-bot.js:35-84 | filling the all-empty record field by field gives `Parse(text)` |
| SurveyParser.MarketingListOneStartsWithPart | medical-bot.js:70 | a text holding the marketing list 1 heading also holds "ЧАСТЬ 2: МАРКЕТИНГ" |
| SurveyParser.ParseDefaults | medical-bot.js:36-81 | a field whose label, start heading or end heading is absent keeps its default "" or []; each of the seven fields has such a clause |
| SurveyParser.ReputationOver400IsPrefixOfMarketingOver400 | medical-bot.js:63-81 | when the reputation list 2 region ends with a line break, its entries are a prefix of the marketing list 2 |
| SurveyBot.IsSurveySubmission | medical-bot.js:137-139 | a message qualifies exactly when the title and both part headings occur in it |
| SurveyBot.RowData | medical-bot.js:105-113 | the row has seven fields and starts with name, position and company unchanged |
| SurveyBot.ListFieldRoundTrip | medical-bot.js:109-112 | splitting a list field on "; " gives back a non-empty list whose items lack "; " |
| SurveyBot.RowDataRoundTrip | medical-bot.js:105-113 | each list field of the row splits back into its list, for lists that can be recovered |
| SurveyBot.ListFieldShape | medical-bot.js:109-112 | an empty list gives "", one item gives that item, "" comes only from [] or [""], and longer lists add two characters per separator |
| SurveyBot.HandleMessage | medical-bot.js:131-146 | a row is produced exactly when the message has text holding all three markers, and it is the row of the parsed survey |
| SurveyBot.ListsNeedParenthesisedHeadings | medical-bot.js:56-81 | text without '(' yields four empty lists |
| SurveyBot.EligibleWithoutListHeadings | medical-bot.js:137-143 | the three markers alone, one per line, pass the marker test and still give four empty lists |

## Left out

- Chat transport: the message and command handlers, `sendMessage`, the `/start` and `/test` replies and the summary text (medical-bot.js:131-195). The message text is a parameter of `HandleMessage`, and its result is the row the handler would pass on.
- `testYandexConnection` (medical-bot.js:19-32): an HTTP call.
- The storage step of `processSurveyData` (medical-bot.js:115-128): it only waits and logs. Only the row it builds is modelled.
- The keep-alive timer, the web server and the environment configuration (medical-bot.js:7-16, 198-209): process plumbing.
- Regular expressions in general. Only the eight fixed patterns are modelled (the seven of `parseMedicalSurvey` and the numbered-line pattern), each as a search and scans over the text.
- SurveyParser.ReputationOver400IsPrefixOfMarketingOver400: needs the reputation list 2 region to be empty or to end with a line break. Without that, "ЧАСТЬ 2: МАРКЕТИНГ" shares a line with the last entry, and that line gives the marketing list 2 a longer entry.
- SurveyBot.RowDataRoundTrip: holds only for non-empty lists whose items lack "; ". The row cannot tell [] from [""] (see `ListFieldShape`), nor an item holding "; " from two items.
- `HandleMessage` checks `!msg.text` through `Option`. Other falsy non-string values of `msg.text` are outside the model.
- Strings: JavaScript strings are sequences of UTF-16 code units, while a Dafny `char` is a Unicode scalar value. None of the eight patterns is affected, because every character class and literal they use lies in the Basic Multilingual Plane.
