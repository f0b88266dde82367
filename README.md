# Quiz parsing and quiz interaction, modelled in Dafny

This project models the two halves of a Drupal quiz module's core:

- **Server side.** `QuizParserService` receives the JSON:API response for a quiz node. It takes the HTML-encoded JSON blob from the first item's `field_quiz_data`, decodes it, and turns every raw question record into a normalized question. Malformed records and malformed choices are dropped one at a time, and each drop is logged.
- **Client side.** `quiz-renderer.js` does its own parse of the same response and repairs doubled backslashes in text destined for MathJax. It then runs a small state machine per rendered question card: select a choice, check the answer, retry after a wrong answer, and submit the whole quiz.

Files:

- `wrappers.dfy` (module `Optional`): the `Option` and `Result` types.
- `json_value.dfy`:
  - `JsonValue` holds the values a JSON decoder produces.
  - `PhpSemantics` gives PHP's view of a decoded value: `is_array`, `foreach`, `$v['key']`, `isset` and the `(bool)` cast.
  - `JsSemantics` gives JavaScript's view: property access and truthiness.
- `filtering.dfy` (module `Filtering`): "keep the accepted elements, transformed, in order". This is what both loops of the parser do.
- `quiz_parser_service.dfy` (module `QuizParserService`):
  - the service's two methods, each a loop proved against specification functions;
  - properties of those functions;
  - a finding about records that are not arrays.
- `quiz_renderer_decoding.dfy` (module `QuizRendererDecoding`): the client's `parseQuizData` and `decodeAndFixMath`.
- `agreement.dfy` (module `ServerClientAgreement`): how the server's and the client's parses relate on the same response. The two sides decode with different decoders, `Html::decodeEntities` keeping markup that DOMParser's `textContent` drops, so each statement there requires the two decoders to agree on that response's blob.
- `quiz_session.dfy` (module `QuizSession`):
  - the per-question card state and its transitions, as functions on values;
  - the class `Session`, which keeps one state record per card in an array and whose methods are the event handlers.

Decisions:

- **Decoding.** Entity decoding followed by JSON decoding is one abstract parameter `decode: Json -> Decoded`. On the server that is `Html::decodeEntities` then `json_decode(..., TRUE)`. On the client it is `DOMParser` text extraction then `JSON.parse`. `DecodeFailed` stands for both `json_last_error() !== JSON_ERROR_NONE` and a thrown `JSON.parse`. Neither HTML entity decoding nor JSON text syntax is modelled. Where the server and the client are compared, each side gets its own decoder.
- **Decoded values.** JSON objects decode to PHP associative arrays, so `is_array` holds for JSON arrays and objects alike. A `foreach` visits the values in order. `Index` gives PHP's `$v['key']`: NULL when the key is missing or `$v` is not an object-like array. `isset` is "present and not NULL".
- **Log positions.** The index a log entry reports is the iteration position. That is PHP's key for a list, and for an object it stands for the key.
- **Disabled controls.** On the client, a gesture aimed at a radio that is disabled, a button that is disabled or hidden, or a question or choice that does not exist never reaches a handler. It changes nothing. The model makes such gestures no-ops.
- **Field names.** The code's field names are `is_correct`, `correct_feedback` and `incorrect_feedback`. The model uses them, not camel-case names.

Points where the code may surprise a reader; the model follows the code:

- One might expect every question to need at least one correct choice. The parser does not check this, so a question with no correct choice is accepted (`QuizParserService.AcceptedExactly`).
- The feedback structure is validated before the choices. A record with bad feedback therefore logs no choice warnings (`QuizParserService.BadFeedbackRejected`).
- Retry does not restore the card exactly. `retryQuestion` hides the feedback footer but leaves the "Incorrect." panel inside it displayed. After a retry the card equals the initial card except for that hidden panel's flag, and a later submit shows the stale panel (`QuizSession.RetryRestoresFreshCard`).
- Submit counts a question as answered when it has a checked radio, not when it has been checked against the answer. A question whose choice is selected but never checked counts as answered.
- The submit panel is rendered with Bootstrap's `d-none`. As written, the page offers no control that reaches `submitQuiz`. The model still covers the handler, as if the panel were shown.

## Model

| member | source | states |
|---|---|---|
| JsonValue.Lookup | src/Service/QuizParserService.php:51 | A key is found exactly when a member has that name, and the value found belongs to such a member. |
| PhpSemantics.Values | src/Service/QuizParserService.php:80 | `foreach` visits a list's elements, an object's values in order, and nothing for a scalar. |
| PhpSemantics.Index | src/Service/QuizParserService.php:114 | `$v['key']` is non-NULL only on an object-like array. |
| PhpSemantics.ToBool | src/Service/QuizParserService.php:146 | The `(bool)` cast is false exactly for NULL, false, 0, "", "0" and the empty array. |
| JsSemantics.Get | js/quiz-renderer.js:97 | Only an object has properties; anything else gives undefined. |
| JsSemantics.Truthy | js/quiz-renderer.js:129 | The JavaScript falsy values are exactly undefined, null, false, 0 and ""; arrays and objects are truthy. |
| Filtering.Kept | src/Service/QuizParserService.php:82-84 | An accepted element contributes one output and a rejected one contributes none. |
| Filtering.FilterMap | src/Service/QuizParserService.php:80-85 | Keeping the accepted elements never produces more elements than the input has. |
| Filtering.FilterMapStep | src/Service/QuizParserService.php:82-84 | One more element adds its normalized form exactly when it is accepted. |
| Filtering.FilterMapAppend | src/Service/QuizParserService.php:80-85 | Each element is judged on its own and order is kept: filtering distributes over concatenation. |
| Filtering.FilterMapEmpty | src/Service/QuizParserService.php:150-153 | Nothing survives exactly when no element is accepted. |
| Filtering.FilterMapIndices | src/Service/QuizParserService.php:133-148 | The outputs come from strictly increasing input positions, each output is its element's transform, and every accepted position contributes. |
| QuizParserService.ProcessChoices | src/Service/QuizParserService.php:133-148 | The choice loop keeps exactly the normalized forms of the complete choices, in order, and warns once per incomplete choice, at its position. |
| QuizParserService.ProcessQuestion | src/Service/QuizParserService.php:112-163 | Corrected parser: a record that is not a PHP array is dropped with a warning, where the code as written raises a TypeError (see Findings). Otherwise: the record checks in their order, then the choice loop. It returns exactly the normalized question or NULL, and logs exactly the warnings, that the specification of one record gives. |
| QuizParserService.ParseQuizData | src/Service/QuizParserService.php:40-99 | Corrected parser: a record that is not a PHP array is dropped with a warning, where the code as written raises a TypeError (see Findings). Otherwise: the envelope checks and the record loop return exactly the specified questions (NULL on each envelope failure) and log exactly the specified entries, ending with the count. |
| QuizParserService.ChoiceLogStep | src/Service/QuizParserService.php:134-141 | One more choice adds one warning, at its own position, exactly when it is dropped. |
| QuizParserService.QuestionsLogStep | src/Service/QuizParserService.php:80-81 | One more record appends exactly what processing that record logs. |
| QuizParserService.ParseReturnsNullExactlyWhen | src/Service/QuizParserService.php:43-76 | NULL follows from each of: an empty response, a missing `field_quiz_data`, a decode error, a non-array payload. Otherwise the result is the filtered records. |
| QuizParserService.OutputIsOrderedSubsequence | src/Service/QuizParserService.php:79-91 | The returned questions are the accepted records' normalized forms, in source order, at most one per record, with no accepted record missing. |
| QuizParserService.RejectionsAppend | src/Service/QuizParserService.php:87-89 | Counting rejection warnings distributes over concatenated logs. |
| QuizParserService.ChoiceLogHasNoRejection | src/Service/QuizParserService.php:136-139 | Choice warnings never count as dropped questions. |
| QuizParserService.QuestionLogRejection | src/Service/QuizParserService.php:114-153 | A record logs exactly one rejection when it is dropped, and none when it is kept. |
| QuizParserService.QuestionsLogRejections | src/Service/QuizParserService.php:79-85 | Rejection warnings plus returned questions add up to the number of records. |
| QuizParserService.RejectionsOfAppend | src/Service/QuizParserService.php:87-89 | Counting the rejection warnings that name one record distributes over concatenated logs. |
| QuizParserService.QuestionLogNamesItsRecord | src/Service/QuizParserService.php:114-153 | Processing a record logs one rejection naming that record when it is dropped, none when it is kept, and none naming any other record. |
| QuizParserService.QuestionsLogNamesRecords | src/Service/QuizParserService.php:79-85 | Across the record loop, each record is named by exactly one rejection if it is dropped and by none if it is kept. |
| QuizParserService.DroppedRecordsAreLogged | src/Service/QuizParserService.php:79-91 | For each record position, the log holds exactly one rejection naming that record when it is not returned, and none when it is returned; no rejection names a position past the records. The rejections number the records not returned. |
| QuizParserService.MissingFieldRejected | src/Service/QuizParserService.php:114-117 | A record missing `question`, `choices` or `feedback` (absent or NULL) is dropped with exactly one "missing required fields" warning. |
| QuizParserService.BadChoicesRejected | src/Service/QuizParserService.php:120-123 | A record whose `choices` is not an array or is empty is dropped with one "invalid choices" warning. |
| QuizParserService.BadFeedbackRejected | src/Service/QuizParserService.php:126-130 | Bad feedback drops the record with one warning, before any choice is looked at. |
| QuizParserService.ChoiceNormalization | src/Service/QuizParserService.php:135-147 | A choice survives exactly when `id`, `text` and `is_correct` are all set. It then carries exactly those three, with `is_correct` cast to bool. |
| QuizParserService.AcceptedExactly | src/Service/QuizParserService.php:150-162 | A record is accepted exactly when it passes the early checks and one of its choices survives. It then carries `question`, the surviving choices and the two feedback texts, unchanged. |
| QuizParserService.NoIsCorrectRejected | src/Service/QuizParserService.php:135-153 | If no choice sets `is_correct`, every choice is dropped and then the record is; nothing is taken as correct by default. |
| QuizParserService.ParseQuizDataAsWritten | src/Service/QuizParserService.php:79-98 | As written, the parser returns normally only when every record is a PHP array; otherwise the TypeError escapes. |
| QuizParserService.NullRecordCrashesAsWritten | src/Service/QuizParserService.php:79-98 | For `[{"field_quiz_data": "[null]"}]` the code as written ends in an uncaught TypeError. The corrected parser returns an empty list. |
| QuizParserService.NonArrayRecordRejected | src/Service/QuizParserService.php:112-117 | Corrected: a record that is not a PHP array is dropped with one "missing required fields" warning. |
| QuizParserService.CorrectionAgreesOnArrayRecords | src/Service/QuizParserService.php:40-99 | When every record is a PHP array, the corrected parser returns what the code as written returns. |
| QuizRendererDecoding.ClientParseExactly | js/quiz-renderer.js:90-123 | The client returns records exactly when they pass its envelope checks; the decoded array comes back itself, unfiltered. |
| QuizRendererDecoding.ClientParseNullCases | js/quiz-renderer.js:91-116 | null follows from each of: a non-array or empty response, a falsy `field_quiz_data`, a decode error, a non-array payload. |
| QuizRendererDecoding.CollapseBackslashes | js/quiz-renderer.js:136 | Replacing each `\\` pair by `\` never lengthens the text. |
| QuizRendererDecoding.DecodeAndFixMath | js/quiz-renderer.js:128-139 | A falsy input is returned unchanged. Anything else becomes a string no longer than its decoded text. |
| QuizRendererDecoding.DoubleBackslashes | js/quiz-renderer.js:135 | Doubling every backslash never shortens the text. |
| QuizRendererDecoding.CollapseUndoesDoubling | js/quiz-renderer.js:135-136 | The collapse exactly undoes a doubling of every backslash. |
| QuizRendererDecoding.DecodeRepairsDoubledText | js/quiz-renderer.js:128-139 | A text stored with every backslash doubled comes back as it was intended. |
| QuizRendererDecoding.CollapseOnlyOnce | js/quiz-renderer.js:136 | A text doubled twice loses only one doubling: the repair is a single pass. |
| QuizRendererDecoding.Run | js/quiz-renderer.js:136 | A run of `k` backslashes has length `k`. |
| QuizRendererDecoding.RunIsBackslashes | js/quiz-renderer.js:136 | Every character of a run is a backslash. |
| QuizRendererDecoding.CollapseRunBefore | js/quiz-renderer.js:136 | A run of `k` backslashes, ended by the end of the text or by another character, becomes a run of `(k + 1) / 2`; the rest is collapsed on its own. |
| QuizRendererDecoding.CollapsePair | js/quiz-renderer.js:136 | A leading pair becomes one backslash, and the scan resumes after the pair. |
| QuizRendererDecoding.CollapseLoneBackslash | js/quiz-renderer.js:136 | A lone backslash that does not start a pair is kept. |
| QuizRendererDecoding.CollapseRun | js/quiz-renderer.js:136 | A run of `k` backslashes becomes a run of `(k + 1) / 2`. |
| QuizRendererDecoding.CollapseRunThen | js/quiz-renderer.js:136 | A run ends at the first other character; what follows is collapsed on its own. |
| QuizRendererDecoding.CollapseOther | js/quiz-renderer.js:136 | A character other than a backslash passes through unchanged. |
| QuizRendererDecoding.FourBackslashesBecomeTwo | js/quiz-renderer.js:136 | Four backslashes become two, not one. |
| QuizRendererDecoding.CollapseChangesExactlyPairs | js/quiz-renderer.js:136 | The text is unchanged exactly when it holds no backslash pair; a pair makes it shorter. |
| QuizRendererDecoding.NonBackslashesAppend | js/quiz-renderer.js:136 | Taking the non-backslash characters distributes over concatenation. |
| QuizRendererDecoding.CollapseKeepsOtherCharacters | js/quiz-renderer.js:136 | Every non-backslash character is kept, in order. The text shrinks by exactly the number of pairs replaced. |
| QuizRendererDecoding.Replacements | js/quiz-renderer.js:136 | The left-to-right scan replaces at most half the text's length in pairs. |
| ServerClientAgreement.ClientAcceptedImpliesServerFiltered | js/quiz-renderer.js:90-123 | For the same response, and provided the server's and the client's decoders give the same value for its blob, whatever list the client accepts, the server accepts too and returns its valid records in order. |
| ServerClientAgreement.ObjectPayloadDiverges | src/Service/QuizParserService.php:73-76 | A blob that both decoders turn into a JSON object is refused by the client but taken as a question list by the server. |
| QuizSession.VerdictCorrectExactly | js/quiz-renderer.js:326-329 | A check judges "correct" exactly when the selected choice exists and its `is_correct` is truthy; an index past the choices is judged incorrect. |
| QuizSession.SelectOverwrites | js/quiz-renderer.js:288-306 | Selecting checks and highlights that choice alone; a second selection replaces the first. |
| QuizSession.CheckWithoutSelectionChangesNothing | js/quiz-renderer.js:316-324 | With no selection (warning toast) or no quiz data (console only) the card is unchanged. |
| QuizSession.CheckOutcomes | js/quiz-renderer.js:344-386 | A correct check shows the correct panel and disables the choices and the check button. An incorrect one shows the incorrect panel, hides check and shows retry. Either keeps the selection. |
| QuizSession.RetryOnlyAfterIncorrect | js/quiz-renderer.js:395-435 | Retry changes a reachable card exactly when the card shows an incorrect answer. |
| QuizSession.RetryRestoresFreshCard | js/quiz-renderer.js:395-435 | After a retry, the card is the initial card with no selection, except for the hidden stale incorrect panel. |
| QuizSession.StepsKeepConsistent | js/quiz-renderer.js:288-474 | Every handler keeps a card in one of the three reachable phases, with its selection in range and highlighted. |
| QuizSession.AnsweredCount | js/quiz-renderer.js:444-450 | The answered count never exceeds the number of questions. |
| QuizSession.Reveal | js/quiz-renderer.js:465-471 | A revealed card shows its feedback footer. |
| QuizSession.RevealAll | js/quiz-renderer.js:465-471 | Submission shows every footer and changes nothing else on any card. |
| QuizSession.Apply | js/quiz-renderer.js:288-474 | A gesture never changes the number of cards. |
| QuizSession.Run | js/quiz-renderer.js:288-474 | A sequence of gestures never changes the number of cards. |
| QuizSession.GesturesAreLocal | js/quiz-renderer.js:312-435 | Select, check and retry on one question leave every other card unchanged. |
| QuizSession.CorrectIsFinalStep | js/quiz-renderer.js:356-362 | No single gesture changes a correctly answered card, submission included. |
| QuizSession.CorrectIsFinal | js/quiz-renderer.js:356-362 | No sequence of gestures changes a correctly answered card. |
| QuizSession.IncorrectUntilRetry | js/quiz-renderer.js:375-383 | An incorrectly answered card stays as it is through any gestures that do not include its own retry. |
| QuizSession.ApplyKeepsConsistent | js/quiz-renderer.js:288-474 | Every gesture keeps all cards in reachable states. |
| QuizSession.UpdateKeepsConsistent | js/quiz-renderer.js:312-435 | Replacing one card by a reachable state keeps the whole quiz reachable. |
| QuizSession.RevealKeepsConsistent | js/quiz-renderer.js:465-471 | Showing every footer keeps the whole quiz reachable. |
| QuizSession.AnsweredCountZero | js/quiz-renderer.js:452-455 | The count is zero exactly when no card has a checked radio. |
| QuizSession.AnsweredCountAll | js/quiz-renderer.js:457-463 | The count equals the number of cards exactly when each card has a checked radio. |
| QuizSession.SubmitOutcomes | js/quiz-renderer.js:440-474 | Submission has three outcomes. With nothing answered it warns and changes nothing. A declined partial submission changes nothing. Otherwise every footer is shown, every selection is kept, and the toast reports the count. |
| QuizSession.RunAppend | js/quiz-renderer.js:288-474 | Running two sequences of gestures one after the other is running their concatenation. |
| QuizSession.SelectThenCheck | js/quiz-renderer.js:288-390 | On a one-question quiz whose card takes a selection, selecting a choice and checking judges exactly that choice. |
| QuizSession.RetryOnce | js/quiz-renderer.js:395-435 | On a one-question quiz, the retry gesture is the retry transition. |
| QuizSession.WrongRetryRight | js/quiz-renderer.js:288-435 | On a one-question quiz drawn fresh, selecting a wrong choice and checking shows the incorrect state with that choice checked. Retrying, then selecting a right choice and checking, ends answered correctly with the right choice checked. |
| QuizSession.Session.constructor | js/quiz-renderer.js:144-227 | Rendering draws every card fresh: nothing selected, choices enabled, check shown, retry and feedback hidden. |
| QuizSession.Session.SelectChoice | js/quiz-renderer.js:288-306 | The array of cards becomes exactly the result of the select transition. |
| QuizSession.Session.CheckAnswer | js/quiz-renderer.js:312-390 | The cards and the toast become exactly the result of the check transition, and all cards stay reachable. |
| QuizSession.Session.RetryQuestion | js/quiz-renderer.js:395-435 | The cards and the toast become exactly the result of the retry transition. |
| QuizSession.Session.CountAnswered | js/quiz-renderer.js:441-450 | The counting loop returns the number of cards with a checked radio. |
| QuizSession.Session.RevealFeedback | js/quiz-renderer.js:465-471 | The reveal loop shows every footer and changes nothing else. |
| QuizSession.Session.SubmitQuiz | js/quiz-renderer.js:440-474 | The user is asked to confirm exactly for a partial submission. The cards and the toast become exactly the result of the submit transition. |

## Left out

- Fetching the quiz: the controller, `QuizApiService`, `fetchQuizData` and the Drupal behaviour's `attach`. This is I/O around the core.
- HTML entity decoding and JSON text syntax. Both sit behind the abstract `decode` and `entityDecode` parameters.
- A `field_quiz_data` that is itself an array. The source passes it through `Html::decodeEntities` to `html_entity_decode` (src/Service/QuizParserService.php:60), which on PHP 8 raises a TypeError that `catch (\Exception $e)` does not catch, so the request aborts. The abstract `decode` cannot fail this way: in the model, `ParseQuizData` and `ParseQuizDataAsWritten` return normally on such input.
- Objects with a repeated key. `Json.Obj` allows one, but both real decoders keep only the last value. The model's `Lookup` finds the first and `Values` visits both, so such values fall outside what the model describes.
- HTML generation in `renderQuiz`, MathJax typesetting, toasts, `console` output and the logger's message texts. Notices and log entries are modelled as tags.
- The check button's label and CSS classes, and the selected label's CSS classes. Only enabled, visible and highlighted are modelled.
- Each radio's own disabled flag: all radios of a question are disabled and enabled together, so one flag per question stands for them.
- `renderQuiz` on a quiz it cannot draw, e.g. a record without `feedback`. There it throws into its own `catch` and shows an error. `Session.constructor` requires a drawable quiz.
- The `catch (\Exception $e)` at src/Service/QuizParserService.php:93-98. Nothing in the modelled code raises an `Exception`. Both failures that can happen are `Error`s that escape it: the array `field_quiz_data` above, which the model does not capture, and the non-array record of the finding below.
- The `confirm` dialog. Its answer is the `confirmed` parameter of `Session.SubmitQuiz`.
- QuizRendererDecoding.DecodeAndFixMath: states the length bound and the handling of falsy input. Its exact output is given by the backslash lemmas, on the decoded text.

## Findings

| source | as written | input that shows it | evidently intended | confidence | as-written member | corrected member |
|---|---|---|---|---|---|---|
| src/Service/QuizParserService.php:81 | `processQuestion(array $question, ...)` (declared at line 112) is called on every decoded record. A record that is a scalar or NULL raises a TypeError, which is an `Error`, so `catch (\Exception $e)` does not catch it and the request fails. | API response `[{"field_quiz_data": "[null]"}]` | The record is dropped with a warning, like every other malformed record, and an empty list is returned | medium, not executed | QuizParserService.ParseQuizDataAsWritten, QuizParserService.NullRecordCrashesAsWritten | QuizParserService.NonArrayRecordRejected, QuizParserService.ParseQuizData |
