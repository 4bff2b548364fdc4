# QuizMaster core in Dafny

This project models the logic of the QuizMaster quiz application:

- **Types** (`types.dfy`): the `Question`, `Quiz` and `QuizResult` records, plus `Option` and `Result` wrappers.
- **Text** (`text.dfy`): the JavaScript string built-ins the core relies on. These are `split('\n')`, `trim()`, the `\s` class and `toLowerCase()`, plus the decimal rendering of a question number.
- **QuizParser** (`quiz_parser.dfy`): the quiz text format.
  - `parseText` is modelled twice: as the function `Parse` and as the loop `ParseText`, which is proved equal to it. It is a single pass over the trimmed, non-blank lines, driven by a two-state machine (`Step`, `Run`).
  - The edit-mode reconstruction of the text from a quiz is the method `Reconstruct`, proved equal to `EditText`.
- **ParserRoundTrip** (`parser_roundtrip.dfy`): the reconstructed text of a quiz parses back to that quiz, for every quiz the format can carry. On the way back, question ids are drawn fresh, `createdAt` becomes the parse time and `description` is dropped.
- **QuizTaker** (`quiz_taker.dfy`): the quiz session.
  - The functions: the Fisher–Yates `shuffleArray`, `stripLabel`, and the randomisation done at session start.
  - The scoring on submit compares case-insensitively. The review marking compares exactly.
  - The component state is the class `QuizSession`, with the methods `Start`, `Select` and `Submit`.
- **App** (`app.dfy`): the state class `AppState`.
  - Its handlers: save (update in place, or prepend), delete (a filter, only when confirmed), and append of a finished result.
  - The lookup of the quiz named by the last segment of a route path.
- **Dashboard** (`dashboard.dfy`): the statistics over the session's results. These are the attempt count, the sums, the overall accuracy, the number of perfect attempts and the chart labels.

Nondeterminism is taken as input:

- `Math.random()` in the shuffle at loop index `i` is `draw(i)`, and the chosen index is `draw(i) % (i + 1)`. Every index from 0 to `i` can be chosen, as with `Math.floor(Math.random() * (i + 1))`.
- The `k`-th question's option shuffle uses `optionDraw(k)`.
- `crypto.randomUUID()` is `freshId` for the quiz and `newId(k)` for the `k`-th parsed question. In `Submit` it is `resultId`.
- `Date.now()` is `now` in `Parse` and `date` in `Submit`.
- `window.confirm` is the boolean `confirmed`.
- The list handed to `saveQuizzes` is recorded in the ghost field `AppState.saved`.

Whitespace is the full ECMAScript set that both `trim()` and `\s` use. Letter case is folded on ASCII only.

`stripLabel` is not idempotent: `stripLabel("a) b) c")` is `"b) c"`, and stripping again gives `"c"`. `QuizTaker.StripNotIdempotent` proves this for every pair of letter labels.

The answer pattern of the parser and `stripLabel` recognise labels differently. The parser's optional label group takes one letter and needs no whitespace after it, so a stored answer `a)b` is read back as `b`. `stripLabel` also takes numbers but needs whitespace, so it keeps `a)b` and strips `1) x` to `x`, which the parser reads back whole. `ParserRoundTrip.UnspacedLabelLost` and `ParserRoundTrip.NumberLabelKept` prove both.

## Model

| member | source | states |
|---|---|---|
| Text.Lower | components/QuizTaker.tsx:77 | `toLowerCase` keeps the length |
| Text.LowerAt | components/QuizTaker.tsx:77 | every character is case-folded in place (ASCII capitals to lower case, all else kept) |
| Text.Trim | components/QuizParser.tsx:37 | the result has no whitespace at either end and is no longer than the input; a string already without surrounding whitespace is returned unchanged |
| Text.TrimCuts | components/QuizParser.tsx:37 | the result is the input with an all-whitespace prefix and an all-whitespace suffix cut off; since the result has no whitespace at either end, these are the whole leading and trailing runs |
| Text.TrimEmpty | components/QuizParser.tsx:37 | a trimmed line is empty, and so dropped by the blank filter, exactly when the line is all whitespace |
| Text.SplitLines | components/QuizParser.tsx:37 | `split('\n')` gives at least one piece |
| Text.SplitLinesNoNewline | components/QuizParser.tsx:37 | no piece contains a newline |
| Text.JoinSplitLines | components/QuizParser.tsx:37 | joining the pieces with newlines gives back the input, so splitting loses nothing |
| Text.SplitTerminated | components/QuizParser.tsx:22-29 | text built from newline-terminated lines splits back into those lines plus one final empty piece |
| Text.NatToString | components/QuizParser.tsx:23 | the question number is written as decimal digits, without a leading zero, that denote the number |
| QuizParser.QuestionStart | components/QuizParser.tsx:46 | `^\d+\.\s+(.+)` matches exactly when the line has digits, a dot, a whitespace and at least one more character; the capture is a non-empty end of the line |
| QuizParser.QuestionStartCapture | components/QuizParser.tsx:46 | between the dot and the capture there is at least one character and only whitespace; the capture starts with whitespace only when it is the single last character |
| QuizParser.IsOptionLine | components/QuizParser.tsx:47-55 | an option line is neither a question line nor an answer line, so the answer test that runs first does not take it |
| QuizParser.LazyCapture | components/QuizParser.tsx:48 | the lazy `(.+?)` before `\**$` is the shortest non-empty prefix followed only by stars |
| QuizParser.LazyCaptureRest | components/QuizParser.tsx:48 | everything after the lazy capture is a star |
| QuizParser.AnswerCapture | components/QuizParser.tsx:48 | the answer pattern matches exactly when the line has the case-insensitive `**Answer:` marker and something after it; the capture is non-empty |
| QuizParser.CaptureAfterMarker | components/QuizParser.tsx:48 | after the marker the pattern matches exactly when some text follows, and captures something non-empty |
| QuizParser.AnswerCaptureAt | components/QuizParser.tsx:48 | the capture is a stretch of the text after the marker, followed only by stars up to the end of the line |
| QuizParser.CaptureStart | components/QuizParser.tsx:48 | the capture is the lazy capture of the text after the marker from a start `m`: the first non-whitespace character when no letter label follows; past the label and its whitespace when text follows them; the last character when whitespace runs to the end |
| QuizParser.CleanAnswer | components/QuizParser.tsx:58-59 | the stored answer is the trimmed capture, with exactly its two final characters cut when it ends in `**` |
| QuizParser.Step | components/QuizParser.tsx:56-81 | one line adds at most one question, keeps the earlier ones, adds one exactly when it is an answer line while a stem with options is pending, and an answer line with nothing pending changes nothing |
| QuizParser.StepOtherLines | components/QuizParser.tsx:72-81 | a question start always replaces the draft, discarding an unfinished question; an option line is kept only while reading a question; another line extends the stem only while no option was collected; otherwise the line is ignored |
| QuizParser.StepCloses | components/QuizParser.tsx:56-70 | an answer line with a pending stem and options emits the question with the next fresh id, the stem, the collected options and the cleaned capture, and resets to an empty draft, not reading |
| QuizParser.StepKeepsConsistent | components/QuizParser.tsx:56-81 | every line keeps the loop invariant: emitted questions have a stem, options that are option lines, and the ids drawn in order; reading a question means a stem is held |
| QuizParser.AnswerLineCount | components/QuizParser.tsx:56 | the count of answer lines is zero exactly when no line is an answer line |
| QuizParser.Run | components/QuizParser.tsx:50-82 | the pass only appends questions, at most one per answer line, and keeps the loop invariant |
| QuizParser.RunAppend | components/QuizParser.tsx:50-82 | the pass is a left-to-right fold: reading `a + b` is reading `a`, then `b` |
| QuizParser.RunSnoc | components/QuizParser.tsx:50-82 | reading one more line is one more step |
| QuizParser.RunOptionsAmong | components/QuizParser.tsx:75-76 | every collected option is one of the lines read |
| QuizParser.NonBlankLines | components/QuizParser.tsx:37 | the kept lines are non-empty and trimmed |
| QuizParser.NonBlankSingle | components/QuizParser.tsx:37 | one line gives its trimmed form, or nothing when it is all whitespace |
| QuizParser.NonBlankAppend | components/QuizParser.tsx:37 | the kept lines of a concatenation are those of each part, so the input order is kept |
| QuizParser.NonBlankMembers | components/QuizParser.tsx:37 | the kept lines are exactly the trimmed forms of the input lines that are not all whitespace |
| QuizParser.ReadLine | components/QuizParser.tsx:51-81 | the loop body, tried in the order answer, question start, option, continuation, is one step of the state machine |
| QuizParser.Parse | components/QuizParser.tsx:35-97 | an error is one of the two messages; a parsed quiz has the edited quiz's id or a fresh one, no description, the parse time, and at least one question |
| QuizParser.ParseText | components/QuizParser.tsx:35-97 | the loop computes `Parse` |
| QuizParser.ParseSuccess | components/QuizParser.tsx:37-91 | a parsed quiz comes from at least 3 lines; its title is the first line; its id is the edited quiz's id or a fresh one; it has no description and is stamped `now`; it has between 1 and as many questions as answer lines; each question is well formed, carries the `k`-th fresh id, and has options that are whole trimmed input lines |
| QuizParser.ParseFailure | components/QuizParser.tsx:37-96 | the too-short error is given exactly when fewer than 3 non-blank lines remain; the no-questions error is given exactly when no question is closed; no other error occurs; text without answer lines always fails |
| QuizParser.Reconstruct | components/QuizParser.tsx:20-33 | the string built with `+=` is the title, a blank line, and for each question its numbered stem, its options, its bolded answer and a blank line, each line ended by a newline |
| QuizParser.EditText | components/QuizParser.tsx:20-29 | the text starts with the title and a blank line and ends with a newline; `ParserRoundTrip.EditRoundTrip` proves that parsing it gives the quiz back |
| ParserRoundTrip.HeaderClassified | components/QuizParser.tsx:46-48 | a numbered stem line is a question start that captures the stem, and is not an answer line |
| ParserRoundTrip.OptionClassified | components/QuizParser.tsx:46-48 | an option line is neither a question start nor an answer line |
| ParserRoundTrip.AnswerMarkerFound | components/QuizParser.tsx:48 | the bolded answer line has the marker, followed by a space, the answer and two stars |
| ParserRoundTrip.AnswerClassified | components/QuizParser.tsx:48 | the bolded line of a clean, unlabelled answer that does not end in a star captures exactly that answer |
| ParserRoundTrip.LabelledAnswerLosesLabel | components/QuizParser.tsx:48 | an answer stored as `c) body` is read back as `body`, so unlabelled answers are a necessary condition of the round trip |
| ParserRoundTrip.UnspacedLabelLost | components/QuizParser.tsx:48 | an answer stored as a letter, `)` and a body with no space between is read back as the body, while `stripLabel` keeps it whole |
| ParserRoundTrip.NumberLabelKept | components/QuizParser.tsx:48 | an answer stored with a number label is read back whole, while `stripLabel` removes the label |
| ParserRoundTrip.CleanAnswerKeeps | components/QuizParser.tsx:58-59 | cleaning leaves such an answer unchanged |
| ParserRoundTrip.StepHeader | components/QuizParser.tsx:72-74 | a numbered stem line starts reading that stem with no options, whatever was pending |
| ParserRoundTrip.StepOption | components/QuizParser.tsx:75-76 | an option line read under a stem is appended to the options |
| ParserRoundTrip.StepAnswer | components/QuizParser.tsx:56-70 | the bolded answer line closes the pending question with the next fresh id, and the machine goes idle |
| ParserRoundTrip.RunOptions | components/QuizParser.tsx:75-76 | a run of option lines is collected in order |
| ParserRoundTrip.BlockRun | components/QuizParser.tsx:50-82 | the non-blank lines of one question block emit exactly that question, with the next fresh id |
| ParserRoundTrip.ContentRun | components/QuizParser.tsx:50-82 | the blocks of all questions emit all questions in order, with fresh ids |
| ParserRoundTrip.WithIdsAt | components/QuizParser.tsx:62-67 | the `k`-th re-parsed question is the original with the `k`-th fresh id |
| ParserRoundTrip.NonBlankBlocks | components/QuizParser.tsx:37 | trimming and dropping blank lines of the written blocks leaves exactly the stem, option and answer lines |
| ParserRoundTrip.EditInputLines | components/QuizParser.tsx:22-29 | the lines `parseText` sees in the written text are the title followed by the question lines |
| ParserRoundTrip.EditRoundTrip | components/QuizParser.tsx:20-91 | parsing the text written for a quiz returns that quiz, with its id, title, question texts, options and answers; questions get fresh ids, `createdAt` is the parse time and the description is dropped. This holds when the title, stems, options and answers are non-empty single trimmed lines, every option is an option line, and no answer has a letter label or ends in a star |
| QuizTaker.ShuffledPermutes | components/QuizTaker.tsx:14-21 | whatever the draws, the shuffle is a permutation of its input |
| QuizTaker.Shuffled | components/QuizTaker.tsx:14-21 | the shuffle keeps the length; `QuizTaker.ShuffledPermutes` gives its meaning |
| QuizTaker.ShuffleArray | components/QuizTaker.tsx:14-21 | the in-place descending swap loop on a fresh copy returns the specified shuffle, a permutation of the input; the input is a value and is not changed |
| QuizTaker.LabelLength | components/QuizTaker.tsx:25 | the label match is absent or at least 3 characters (label, separator, whitespace) and within the string |
| QuizTaker.StripLabel | components/QuizTaker.tsx:24-26 | the result is trimmed and no longer than the input; text without a label is only trimmed |
| QuizTaker.StripLabelled | components/QuizTaker.tsx:25 | a single letter or a run of digits, then `)` or `.`, then at least one whitespace, is removed with all following whitespace, and the rest is trimmed |
| QuizTaker.StripUnlabelled | components/QuizTaker.tsx:25 | text starting with neither a letter nor a digit is only trimmed |
| QuizTaker.StripNotIdempotent | components/QuizTaker.tsx:25 | under two letter labels, one stripping leaves the second label and a second stripping removes it |
| QuizTaker.ShuffledMapPermutes | components/QuizTaker.tsx:41-44 | stripping the shuffled options gives the stripped originals in some order |
| QuizTaker.CleanQuestion | components/QuizTaker.tsx:39-54 | a cleaned question keeps its id, its text and its number of options |
| QuizTaker.CleanQuestionSpec | components/QuizTaker.tsx:39-54 | a cleaned question keeps its id and text; its options are the stripped originals in some order; its answer is the stripped original |
| QuizTaker.CorrectStaysAnOption | components/QuizTaker.tsx:44-47 | if the answer was one of the options, the stripped answer is one of the stripped options |
| QuizTaker.Randomized | components/QuizTaker.tsx:39-54 | session start gives as many questions as the quiz has; `QuizTaker.RandomizedSpec` gives their meaning |
| QuizTaker.RandomizedSpec | components/QuizTaker.tsx:39-54 | session start permutes the questions: the ids and the texts are those of the quiz in some order, and each question is the cleaned question at its place in a permutation of the quiz's questions |
| QuizTaker.Score | components/QuizTaker.tsx:73-80 | the score is between 0 and the number of questions |
| QuizTaker.Counts | components/QuizTaker.tsx:75-78 | a counted selection is present and has the length of the answer, since it equals the answer ignoring case |
| QuizTaker.ScoreNoAnswers | components/QuizTaker.tsx:73-80 | with no selections the score is 0 |
| QuizTaker.ScoreFull | components/QuizTaker.tsx:73-80 | the score is full exactly when every question's selection is non-empty and equals its answer ignoring case |
| QuizTaker.ScoreAllCorrect | components/QuizTaker.tsx:73-80 | selecting every non-empty correct answer scores full marks |
| QuizTaker.MarkedCorrect | components/QuizTaker.tsx:201 | a selection marked correct in review also equals the answer ignoring case |
| QuizTaker.MarkedCounts | components/QuizTaker.tsx:198-201 | a question marked correct in review, with a non-empty answer, is counted in the score |
| QuizTaker.CountedButMarkedIncorrect | components/QuizTaker.tsx:198-201 | a non-empty selection is counted in the score yet marked incorrect in review exactly when it differs from the answer only in letter case |
| QuizTaker.CaseOnlyMismatch | components/QuizTaker.tsx:198-201 | such selections exist: `PARIS` for the answer `Paris` |
| QuizTaker.Clean | components/QuizTaker.tsx:39-54 | the map callback shuffles the options with its draws, strips them and strips the answer |
| QuizTaker.QuizSession.constructor | components/QuizTaker.tsx:30-34 | no questions, no selections, not submitted, score 0 |
| QuizTaker.QuizSession.Start | components/QuizTaker.tsx:37-61 | the questions become the randomised questions, as many as the quiz has; selections are cleared, the flag is reset and the score is 0 |
| QuizTaker.QuizSession.Select | components/QuizTaker.tsx:63-69 | after submission nothing changes; otherwise only the selection for that question id is set or replaced |
| QuizTaker.QuizSession.Submit | components/QuizTaker.tsx:71-95 | the score is the number of questions that count, between 0 and the question count, so the incorrect count shown is not negative; the flag is set; questions and selections are unchanged; one result is returned with the quiz id, the title, the score and the question count |
| App.FindIndex | App.tsx:146 | the index of the first quiz with the id, or -1 exactly when there is none |
| App.FindQuiz | App.tsx:317 | the first quiz with the id, or none exactly when no quiz has it |
| App.LastSegment | App.tsx:316 | the route id is the suffix after the last `/` and contains no `/` |
| App.LastSegmentOf | App.tsx:316 | for any path ending in `/` and an id without `/`, that id is the route id |
| App.RouteQuiz | App.tsx:316-319 | the quiz shown is the first with the route id, and "not found" is shown exactly when no quiz has it |
| App.Upserted | App.tsx:146-153 | the saved list keeps or grows the length by one, holds the saved quiz, and keeps every quiz with another id |
| App.UpsertReplaces | App.tsx:146-150 | saving an existing id replaces the first quiz with that id, in place: same length, every other quiz unchanged |
| App.UpsertPrepends | App.tsx:151-152 | saving a new id puts the quiz in front of the old list |
| App.UpsertFinds | App.tsx:146-153 | after a save, the id finds the saved quiz |
| App.UpsertIdempotent | App.tsx:146-153 | saving the same quiz twice gives the same list as saving it once |
| App.Without | App.tsx:163 | every kept quiz comes from the list and has a different id |
| App.WithoutKeeps | App.tsx:163 | every quiz with a different id is kept |
| App.WithoutAppend | App.tsx:163 | the filter distributes over concatenation, so the kept quizzes stay in order |
| App.WithoutAbsent | App.tsx:163 | deleting an id that no quiz has changes nothing |
| App.WithoutNotFound | App.tsx:163 | after a delete the id is not found |
| App.AppState.constructor | App.tsx:111-113 | the quizzes and the results start empty |
| App.AppState.SaveQuiz | App.tsx:144-158 | the copied list with the slot overwritten (or the quiz prepended) becomes the state, holds the saved quiz, and is persisted; results are unchanged |
| App.AppState.DeleteQuiz | App.tsx:160-167 | when confirmed, the filtered list becomes the state and is persisted; otherwise nothing changes |
| App.AppState.QuizComplete | App.tsx:169-172 | the result is appended and earlier results are unchanged |
| App.AppState.Load | App.tsx:138-142 | the quizzes become the loaded list |
| Dashboard.TotalScore | components/Dashboard.tsx:16 | scores that are not negative sum to a total that is not negative; `Dashboard.TotalsAppend` and `Dashboard.TotalsBounded` relate it to the parts and to the question total |
| Dashboard.TotalQuestions | components/Dashboard.tsx:17 | question counts that are not negative sum to a total that is not negative; `Dashboard.TotalsAppend` gives the sum over a concatenation |
| Dashboard.TotalsAppend | components/Dashboard.tsx:16-17 | the score and question sums over a concatenation are the sums of the parts |
| Dashboard.TotalsBounded | components/Dashboard.tsx:16-17 | over results with score between 0 and their question count, the total score is between 0 and the total question count |
| Dashboard.TotalsPerfect | components/Dashboard.tsx:16-23 | when every attempt is perfect the two sums are equal |
| Dashboard.PerfectCount | components/Dashboard.tsx:23 | the perfect count is at most the number of results, and equal to it exactly when every attempt is perfect |
| Dashboard.Accuracy | components/Dashboard.tsx:19-21 | the accuracy is the percentage rounded half up, computed exactly |
| Dashboard.AccuracyBounds | components/Dashboard.tsx:19-21 | a score between 0 and the question count gives an accuracy between 0 and 100 |
| Dashboard.AccuracyFull | components/Dashboard.tsx:19-21 | every question right gives 100 |
| Dashboard.TruncateTitle | components/Dashboard.tsx:27 | a title of at most 15 characters is kept; a longer one becomes its first 15 characters followed by `...` |
| Dashboard.TruncateKeepsDots | components/Dashboard.tsx:27 | an 18-character title ending in `...` is its own label, so an unchanged label does not imply a short title |
| Dashboard.ComputeStats | components/Dashboard.tsx:14-33 | `totalTaken` is the number of results; `perfect` is at most that; the accuracy is 0 when there are no questions; there is one chart entry per result |
| Dashboard.ChartInOrder | components/Dashboard.tsx:26-30 | the `k`-th chart entry belongs to the `k`-th result: its full title and its truncated name |
| Dashboard.AccuracyIsPercentage | components/Dashboard.tsx:14-21 | over results a session can report, the overall accuracy is between 0 and 100 |
| Dashboard.AllPerfectAccuracy | components/Dashboard.tsx:19-23 | when every attempt is perfect and there is a question, the accuracy is 100 and every attempt counts as perfect |

## Left out

- `services/geminiService.ts` (quiz generation over the network) and `handleAIGenerate`, with its loading flag, are not part of this model.
- `services/storageService.ts` (`localStorage` and JSON) is not part of this model. Persistence is only the ghost record of the list last saved.
- Rendering, routing, the theme, charts, `window.scrollTo` and the `try`/`catch` around the parser's error display are not modelled. The error message is the `Failure` value.
- Floating point: the per-attempt chart percentages and the session summary's percentage and messages are left out.
- Dashboard.Accuracy: computed as exact rational rounding half up. The source computes `(totalScore / totalQuestions) * 100` in floating point before rounding, and the rounded integer itself can differ: for 57 of 200 the product is 28.499999999999996, so the source shows 28 where the model gives 29.
- Dashboard.TruncateTitle: the length test and the cut count characters, not UTF-16 code units. A title of ten U+1F600 emoji has JavaScript length 20, so the source cuts it after 7 emoji and a lone surrogate; the model keeps it whole.
- Unicode: case folding covers ASCII letters only. The JavaScript `.` is taken to match any character, although it does not match `\r`, U+2028 or U+2029. No Unicode normalisation is applied.
- `useEffect` re-run semantics are not modelled. `QuizSession.Start` is an explicit call, and the reconstruction is the method `Reconstruct`.
- QuizTaker.QuizSession.Submit: has no precondition, as in the source. The screen shows no submit button before the questions are loaded or after submission, and the model does not capture that.
- The randomness of the shuffle is not modelled as a distribution. The draws are arbitrary inputs, and only facts that hold for every draw are proved.
- App.AppState.SaveQuiz: navigation to `/` after saving is not modelled.
