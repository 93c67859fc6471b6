# Survey App — a Dafny model of its core

Survey App is a web application for surveys. A logged-in administrator writes
a survey on the editor page. Each question is either open (free text) or
closed (options to tick, between a minimum and a maximum number). The server
stores the published survey in an SQLite database. Anonymous respondents fill
the survey in on the survey page and send their answers. The survey's creator
later uses the same page to step through the respondents and see what each
one answered.

This project models four parts of that system:

- `Editor` models the survey editor (`client/src/pages/CreateSurvey.js`).
  It covers the list of questions being written and every operation that
  reshapes the list. It also covers the diagnostic shown under each question
  and the check that runs before publishing. The class `Editor.SurveyDraft`
  holds the page state. Its methods keep the invariant `Tidy`: question `i`
  sits at position `i`, and no two options of a question share a position.
- `SurveyPage` models the respondent's page (`client/src/pages/Survey.js`).
  It covers the per-question answer entries, the check before sending, the
  creator's respondent viewer with its cyclic arrows, and the way open and
  closed questions display a respondent's stored answer. The class
  `SurveyPage.SurveyPage` holds the page state.
- `SurveyDao` and `AnswerDao` model the server's data access
  (`server/surveyDao.js`, `server/answerDao.js`). The database is the class
  `Tables.Database` holding five tables. Each `INSERT` appends one row with
  the next key, and each `SELECT … WHERE` is a filter. `CreateSurvey` and
  `CreateAnswer` are loops over `Database`. Their results are tied to the
  functions `AfterCreateSurvey` and `AfterCreateAnswer`, and the lemmas
  reason about those functions.
- `RoundTrips` relates the pieces:
  - a survey whose questions the editor keeps tidy reads back as written;
  - an option a respondent ticks is shown ticked to the creator.

Supporting modules:

- `Shapes` holds the value types shared by the pages and the server.
- `Decimal` models JavaScript's `parseInt` on decimal text, with its inverse.
- `Seqs` holds a filter and its lemmas.
- `Wrappers` holds `Option` and `Result`.

Flags stored as 0/1 are booleans here. Minimum and maximum are integers.

## Model

| member | source | states |
|---|---|---|
| Editor.MaxOfBounds | client/src/pages/CreateSurvey.js:38-45 | the running maximum, started at -1, bounds every position and is one of them unless the list is empty |
| Editor.LastPosition | client/src/pages/CreateSurvey.js:40-45 | the `forEach` loop computes exactly the running maximum of the positions |
| Editor.DenseTop | client/src/pages/CreateSurvey.js:38-57 | on a list at positions 0..n-1 the largest position is n-1, so a new question lands at n |
| Editor.DeletedShape | client/src/pages/CreateSurvey.js:59-73 | deleting position p removes exactly that question: earlier ones are untouched, later ones shift down by one with their content kept, and positions stay 0..n-2 |
| Editor.SwappedTidy | client/src/pages/CreateSurvey.js:76-100 | swapping two neighbours and exchanging their positions keeps positions 0..n-1 and distinct option positions, and swapping the same pair again gives the list back |
| Editor.ReplacedAt | client/src/pages/CreateSurvey.js:102-109 | on a list at positions 0..n-1, replacing the question at position p is exactly an update at index p |
| Editor.BlankChoiceIsNew | client/src/pages/CreateSurvey.js:111-127 | the new blank option gets a position above every existing one, so option positions stay distinct |
| Editor.WithoutChoiceDistinct | client/src/pages/CreateSurvey.js:146-157 | removing options by position keeps the remaining positions distinct |
| Editor.WithoutChoiceExactly | client/src/pages/CreateSurvey.js:146-157 | with distinct positions, removing the option at position ap drops exactly that one option and keeps the others in order |
| Editor.UpdateField | client/src/pages/CreateSurvey.js:334-351 | a field is set verbatim; turning a question open also resets min 0, max 1 and a single blank option; nothing else changes |
| Editor.OpenedIsWellFormed | client/src/pages/CreateSurvey.js:334-351 | a titled question just turned open passes every publishing rule |
| Editor.UpdateMinMax | client/src/pages/CreateSurvey.js:353-363 | as written: optional exactly when the minimum arrived as the text "0"; only optional, min and max change |
| Editor.MandatoryWithZeroMin | client/src/pages/CreateSurvey.js:470-480 | a closed question whose untouched minimum is still the number 0 becomes mandatory with minimum 0 when only its maximum is edited |
| Editor.UpdateMinMaxIntended | client/src/pages/CreateSurvey.js:353-363 | corrected: optional exactly when the minimum is 0; only optional, min and max change |
| Editor.WellFormedBreaksNothing | client/src/pages/CreateSurvey.js:289-320 | a question is well formed if and only if it breaks none of the rules the diagnostic names |
| Editor.Diagnose | client/src/pages/CreateSurvey.js:289-320 | the message is the first test of the chain that fires, with the tests' guards as written: every earlier test passes; no message exactly when the question is well formed; any message names a rule the question really breaks; the title message exactly when the title is empty |
| Editor.DiagnoseSkipsMinAboveMax | client/src/pages/CreateSurvey.js:298 | a closed question with minimum 3, maximum 0 and five titled options is reported under the maximum rule: the guard `max > 0` skips the minimum-above-maximum test although that rule is broken too |
| Editor.LastFlawed | client/src/pages/CreateSurvey.js:163-194 | -1 exactly when every question is well formed, otherwise the index of the last badly formed question |
| Editor.CheckQuestion | client/src/pages/CreateSurvey.js:163-194 | the per-question check chain, with its loop over the options, passes exactly the well-formed questions; a failure leaves the title notice or the fix-the-questions notice |
| Editor.SurveyDraft.constructor | client/src/pages/CreateSurvey.js:12-27 | empty title, one blank open optional question at position 0, no notice, not sent |
| Editor.SurveyDraft.UpdateSurveyTitle | client/src/pages/CreateSurvey.js:29-36 | the title is set; the notice asks for a title exactly when it is empty |
| Editor.SurveyDraft.AddQuestion | client/src/pages/CreateSurvey.js:38-57 | appends one blank question at position n and keeps the list tidy |
| Editor.SurveyDraft.DeleteQuestion | client/src/pages/CreateSurvey.js:59-73 | the question at p goes away, earlier ones stay, later ones shift down one position, and the list stays tidy |
| Editor.SurveyDraft.MoveItem | client/src/pages/CreateSurvey.js:76-100 | up or down swaps the question with its neighbour; any other direction changes nothing; the list stays tidy |
| Editor.SurveyDraft.UpdateQuestion | client/src/pages/CreateSurvey.js:102-109 | only the question at that position is replaced; the list stays tidy |
| Editor.SurveyDraft.AddAnswer | client/src/pages/CreateSurvey.js:111-127 | only the target question changes: a blank option is appended at a fresh position |
| Editor.SurveyDraft.UpdateAnswer | client/src/pages/CreateSurvey.js:129-144 | only the target question changes: the options at that position take the new text |
| Editor.SurveyDraft.RemoveAnswer | client/src/pages/CreateSurvey.js:146-157 | only the target question changes: its options at that position are dropped |
| Editor.SurveyDraft.ValidateResult | client/src/pages/CreateSurvey.js:159-211 | publishes if and only if there is a title, at least one question and every question is well formed; the notice left is the last one set (title, no questions, or the last failing question's) |
| SurveyPage.InitialEntries | client/src/pages/Survey.js:32-42 | one entry per question, in order, copying id, optional, open, min and max, with nothing answered |
| SurveyPage.AnsweredEffect | client/src/pages/Survey.js:64-71 | the entries of that question take the reply; the other entries and every other field stay |
| SurveyPage.InitialSendable | client/src/pages/Survey.js:78-122 | freshly loaded entries can be sent if and only if the name is filled in and every question is optional |
| SurveyPage.ClosedBounds | client/src/pages/Survey.js:92-101 | a mandatory closed question with min 1 and max 2 accepts 1 or 2 ticks and refuses 0 ticks, 3 ticks and no answer |
| SurveyPage.OptionalUnchecked | client/src/pages/Survey.js:81-83 | an optional entry passes whatever its answer |
| SurveyPage.RowsOfMembers | client/src/pages/Survey.js:59 | the selection holds exactly the rows of that respondent |
| SurveyPage.IndexOfId | client/src/pages/Survey.js:127-129 | the index of the first respondent with that id |
| SurveyPage.IndexOfOwnId | client/src/pages/Survey.js:127-129 | with unique ids, looking up the id at index k gives back k |
| SurveyPage.NameOf | client/src/pages/Survey.js:135 | the name shown belongs to a respondent with that id |
| SurveyPage.NextIndex | client/src/pages/Survey.js:144-148 | the index after i, going round: (i + 1) mod n |
| SurveyPage.PrevIndex | client/src/pages/Survey.js:129-133 | the index before i, going round: (i - 1 + n) mod n |
| SurveyPage.IndexRoundTrip | client/src/pages/Survey.js:125-152 | forward and back undo each other; with one respondent both stay put |
| SurveyPage.ArrowsRoundTrip | client/src/pages/Survey.js:125-152 | with unique ids each arrow moves one place round the list, and back after forward (or forward after back) returns to the same respondent |
| SurveyPage.SingleRespondent | client/src/pages/Survey.js:173-187 | with one respondent both arrows keep the selection |
| SurveyPage.ShownText | client/src/pages/Survey.js:254-273 | an open question shows the first of the respondent's rows for it, or nothing when there is none |
| SurveyPage.CheckMatching | client/src/pages/Survey.js:341-347 | in place: the boxes whose id equals the row's answer read as an integer become checked; the others keep their state; ids and texts stay |
| SurveyPage.CheckedBoxes | client/src/pages/Survey.js:327-351 | one box per option with its id and text, checked if and only if a selected row for the question holds that id |
| SurveyPage.SurveyPage.constructor | client/src/pages/Survey.js:17-24 | empty name, user id -1, no entries, no message, not submitted, editable, nothing selected |
| SurveyPage.SurveyPage.LoadSurvey | client/src/pages/Survey.js:32-50 | once the questions are there the entries are the fresh ones; the form is read-only exactly when logged in |
| SurveyPage.SurveyPage.SetUserName | client/src/pages/Survey.js:17 | the name field takes the typed value |
| SurveyPage.SurveyPage.UpdateAnswer | client/src/pages/Survey.js:64-71 | the entries of that question take the reply; nothing else changes |
| SurveyPage.SurveyPage.ValidateResult | client/src/pages/Survey.js:78-122 | sends if and only if the name is filled in and every entry passes; the message is the name message, none, or the incomplete message |
| SurveyPage.SurveyPage.ShowAnswers | client/src/pages/Survey.js:53-62 | the first respondent is selected with their rows and name; without respondents everything is cleared |
| SurveyPage.SurveyPage.GoBack | client/src/pages/Survey.js:125-137 | selects the respondent before the current one, the last before the first, with that respondent's rows and name |
| SurveyPage.SurveyPage.GoForward | client/src/pages/Survey.js:140-152 | selects the respondent after the current one, the first after the last, with that respondent's rows and name |
| Decimal.NatTextValue | client/src/pages/Survey.js:343 | the decimal text of a natural number is all digits and denotes that number |
| Decimal.ParseIntText | client/src/pages/Survey.js:343 | `parseInt` of the text an integer is stored as gives the integer back |
| Tables.Bumped | server/answerDao.js:13 | the matching survey's answer count goes up by one; every other row and field is unchanged |
| Tables.Database.constructor | server/surveyDao.js:152-155 | the tables these statements write to, empty, with every key starting at 1 as SQLite hands out row ids; the tables are linked |
| Tables.Database.InsertSurvey | server/surveyDao.js:152 | appends one survey row with the next key, returns that key, changes nothing else |
| Tables.Database.InsertQuestion | server/surveyDao.js:153-154 | appends one question row with the next key, returns that key, changes nothing else |
| Tables.Database.InsertOption | server/surveyDao.js:155 | appends one option row with the next key, returns that key, changes nothing else |
| Tables.Database.InsertRespondent | server/answerDao.js:11 | appends one respondent row with the next key, returns that key, changes nothing else |
| Tables.Database.InsertAnswer | server/answerDao.js:12 | appends one answer row with the next key, returns that key, changes nothing else |
| Tables.Database.BumpAnswers | server/answerDao.js:13 | the survey table becomes its bumped version; nothing else changes |
| AnswerDao.EntryCells | server/answerDao.js:30-52 | every row one entry produces belongs to that entry's question |
| AnswerDao.EntryCellsRule | server/answerDao.js:30-52 | a non-empty open answer gives one row with its text; an empty or missing open answer, or a missing closed one, gives none; a closed answer gives one row per ticked id, in order, which `parseInt` reads back as that id |
| AnswerDao.CellsQuestions | server/answerDao.js:30-52 | every stored row belongs to one of the submitted questions |
| AnswerDao.StoreEntry | server/answerDao.js:30-52 | the inner loop appends exactly the entry's rows, stamped with the survey and the respondent |
| AnswerDao.CreateAnswer | server/answerDao.js:9-58 | returns the new respondent's key; the tables become one new respondent row, the bumped count and the submission's rows |
| AnswerDao.CreateAnswerCounts | server/answerDao.js:9-58 | exactly one respondent row is added, the survey's answer count goes up by one with every other survey row unchanged, and the question and option tables are untouched |
| AnswerDao.CreateAnswerRows | server/answerDao.js:16-52 | old rows are kept; the new respondent row carries the next respondent key, the name and the survey; each new answer row carries the next answer key, the survey, the new respondent's key and the cell's question and text |
| AnswerDao.CreateAnswerLinked | server/answerDao.js:9-58 | storing a submission keeps the tables linked |
| AnswerDao.GetAnswersMembers | server/answerDao.js:65-103 | the listing holds exactly the respondents and the answer rows of that survey, in both directions for each list |
| AnswerDao.CreateThenGetAnswers | server/answerDao.js:9-103 | after a submission the survey's listing is the old one plus the new respondent and their rows; other surveys' listings are unchanged |
| SurveyDao.ListAllSurveys | server/surveyDao.js:8-24 | one summary per survey row |
| SurveyDao.SummariesMembers | server/surveyDao.js:8-24 | a summary is listed if and only if it comes from a survey row |
| SurveyDao.UserSurveys | server/surveyDao.js:31-47 | a user's listing holds exactly the summaries of that user's surveys, all of which are in the full listing |
| SurveyDao.ClosedAnswersMembers | server/surveyDao.js:125-142 | the options listed for a question are exactly that question's option rows |
| SurveyDao.InsertByPosition | server/surveyDao.js:58 | inserting a row gives the same multiset plus that row |
| SurveyDao.InsertAscending | server/surveyDao.js:58 | inserting into a list ordered by position keeps it ordered |
| SurveyDao.ByPosition | server/surveyDao.js:58 | the ordering is a permutation of the rows |
| SurveyDao.ByPositionAscending | server/surveyDao.js:58 | the result is ordered by position and has the same length |
| SurveyDao.AscendingFixed | server/surveyDao.js:58 | rows already in position order come back unchanged |
| SurveyDao.FindSurvey | server/surveyDao.js:61-67 | none exactly when no row has that id; otherwise a row with that id |
| SurveyDao.GetQuestions | server/surveyDao.js:56-118 | fails with "Survey not found" exactly when no row has the id; otherwise it returns the id, the title of a survey row with that id, and exactly the views of that survey's question rows (same multiset), ordered by position |
| SurveyDao.ByPositionViews | server/surveyDao.js:58 | ordering the rows by position only reorders their views |
| SurveyDao.StoreQuestion | server/surveyDao.js:167-191 | one question row, then, for a closed question, one option row per option |
| SurveyDao.CreateSurvey | server/surveyDao.js:150-198 | returns the new survey's key; the tables become the survey row followed by each question's rows |
| SurveyDao.WithQuestionsRows | server/surveyDao.js:167-191 | old question rows are kept, and one row per question follows with the next keys, the survey id and the question's fields |
| SurveyDao.WithQuestionOptions | server/surveyDao.js:180-190 | the new question's options read back as its option texts (none when open); other questions' options are unchanged |
| SurveyDao.WithQuestionsOptions | server/surveyDao.js:167-191 | after all questions every new question's options read back as its option texts |
| SurveyDao.CreateSurveyTables | server/surveyDao.js:150-198 | the survey row is appended with answer count 0; question rows follow; respondent and answer tables are untouched |
| SurveyDao.CreateSurveyLinked | server/surveyDao.js:150-198 | creating a survey keeps the tables linked |
| SurveyDao.CreateThenGetQuestions | server/surveyDao.js:56-198 | a survey just created, with questions in position order, reads back with its title and one matching view per question, in order |
| SurveyDao.ReadBack | server/surveyDao.js:56-118 | with the survey row found and its question rows already in position order, the reading is exactly their views |
| SurveyDao.QuestionsMatch | server/surveyDao.js:80-106 | each stored question's view matches the question it was stored from |
| SurveyDao.ViewMatches | server/surveyDao.js:80-106 | a view carries the question's fields, and a closed question carries its option texts in order |
| SurveyDao.StoredQuestionsFound | server/surveyDao.js:58 | filtering by the new survey's id finds exactly the newly stored question rows |
| SurveyDao.FindNew | server/surveyDao.js:59-67 | a row with a key above every older key is found by that key |
| RoundTrips.PublishedSurveyReadsBack | server/surveyDao.js:56-198 | a survey that the editor keeps tidy is read back with the title and every question in order, with its fields and option texts |
| RoundTrips.EntryCellsInCells | server/answerDao.js:30-52 | the rows of one entry are among the rows of the whole submission |
| RoundTrips.TickedShownTicked | client/src/pages/Survey.js:327-351 | an option id a respondent ticked is shown ticked when the creator selects that respondent |

## Left out

- Editor.SurveyDraft.UpdateQuestion: requires the new data to keep the position and to have distinct option positions. The question component builds that data from the question itself, so the source never breaks either.
- Editor.SurveyDraft.AddAnswer, UpdateAnswer and RemoveAnswer: require the target position to exist. The buttons only exist on existing questions, and the source's `filter(...)[0]` would fail on a missing one.
- Editor.SurveyDraft.DeleteQuestion: requires the target position to exist, since the delete button only exists on existing questions. On a missing position the source (CreateSurvey.js:59-73) filters nothing out and still moves every question at or above that position down by one; that case is not modelled.
- Editor.SurveyDraft.MoveItem: requires the move to stay in the list. The page offers "up" only below the first question and "down" only above the last one (CreateSurvey.js:430-438).
- Editor.CheckQuestion and Editor.Diagnose: the `min === ''` and `max === ''` cases are not modelled. A field left blank arrives as text, which the model's integers cannot hold.
- Editor: the source compares text and numbers with JavaScript coercion, and the editor caps option texts at 200 characters (CreateSurvey.js:560). Neither is modelled.
- Editor.SurveyDraft.MoveItem, UpdateAnswer, RemoveAnswer: the source edits shared question objects in place before copying the list. The model works on values, so aliasing between the old and the new state is not captured. Only the resulting list is modelled.
- Editor: the diagnostic text of each question and the `ErrorMessage` timeout are page rendering and are left out. Only the choice of message is modelled.
- SurveyPage.SurveyPage.GoBack and GoForward: require the selected id to be in the list. The arrows are shown only after a respondent was selected from that list. Forward from an unknown id would select the first respondent, and back from an unknown id reads the element at index -2, which is undefined, so the source throws. Neither case is modelled.
- SurveyPage.Sendable: the input fields cap the respondent's name at 50 characters (Survey.js:205) and an open answer at 200 characters (Survey.js:302). These caps live in the browser's input fields, not in the check before sending, and are not modelled.
- SurveyPage.SurveyPage.ShowAnswers: the source resets the selection to `{}` before refilling it. The model resets it to the empty sequence, since both are treated as "nothing selected".
- SurveyPage: the closed question's checkbox toggle, the per-question error badges (Survey.js:275-283, 353-372) and the `answer.id ? checked : false` guard are left out. The reply they build enters the model as `Picks`.
- Decimal: `parseInt` is modelled for optional leading ASCII white space, an optional sign and the longest run of decimal digits; text after that run is ignored, as `parseInt` does. Hexadecimal prefixes (`0x`) and non-ASCII white space are not modelled.
- SurveyDao and AnswerDao: every database call is asynchronous and its failure rejects the promise. The model runs the inserts in program order and leaves out database errors and the non-atomic partial writes they could leave.
- SurveyDao.CreateSurvey and AnswerDao.CreateAnswer: the source resolves before its inserts have finished. The model returns only after the inserts.
- SurveyDao.ByPosition: SQL `ORDER BY position` does not fix an order among ties. The model uses a stable insertion order.
- SurveyDao.ListAllSurveys, SurveyDao.ListUserSurveys, SurveyDao.GetClosedAnswers and AnswerDao.GetAnswers: their `SELECT`s have no `ORDER BY`, so SQL fixes no order. The model returns rows in table (insertion) order; the membership lemmas do not depend on it.
- AnswerDao.CreateAnswer: requires each entry's reply to match its kind (text for an open question, picked ids for a closed one). The survey page only builds such replies. With other shapes the source either throws (`forEach` on a closed question's text) or stores an array coerced to text for an open question; neither is modelled.
- SurveyDao: option positions are not stored. The server keeps only the text of each option, so the model follows the code here.
- SQL text, the database driver, `server.js`, `API.js` and `App.js` (routing, sessions, HTTP) are not part of this model.

## Findings

| source | as written | input that shows it | evidently intended | confidence | as-written member | corrected member |
|---|---|---|---|---|---|---|
| client/src/pages/CreateSurvey.js:353-363 | a question is made optional only when the minimum arrives as the text "0"; a minimum still holding the number 0 from the blank question makes it mandatory | turn a new question closed, then change only its maximum: the minimum is still the number 0, so the question becomes mandatory with minimum 0 | "if the minimum number is 0, the question will be optional" (CreateSurvey.js:496): optional exactly when the minimum is 0 | medium, not executed | Editor.MandatoryWithZeroMin | Editor.UpdateMinMaxIntended |
