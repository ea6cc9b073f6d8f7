# ai-quiz-generator: a verified model of the quiz pipeline and the exam page

This project models two parts of the ai-quiz-generator repository in Dafny
and proves properties about them.

The first part is the backend pipeline that turns a Wikipedia URL into a
stored multiple-choice quiz:

- the URL and CORS-origin validators;
- the generate, fetch and submit endpoints, over an abstract store;
- the generator, which calls the language model once, then for at most
  three supplemental rounds, deduplicates questions and falls back to a
  placeholder quiz;
- the extraction and repair of the JSON object in a model reply;
- the placeholder quiz itself.

The second part is the in-browser exam page:

- the strike counters and the rule that forces a submission;
- the once-only submit guard;
- the score;
- the tab-switch detector;
- the countdown and its `MM:SS` display.

Modules, one per source file plus three shared ones:

| module | file | models |
|---|---|---|
| `Wrappers` | wrappers.dfy | `Option` and `Result` |
| `JsBuiltins` | js_builtins.dfy | the JavaScript string and number built-ins the sources use: `trim`, `split`/`join`, `endsWith`, `includes`, `indexOf`/`lastIndexOf`, `slice(0, n)`, `replace` of a character class, integer `toString`, `padStart`, `%`, ASCII `toLowerCase` |
| `QuizData` | quiz_data.dfy | the question and payload records, and what `JSON.parse` yields for a reply |
| `JsonRepair` | json_repair.dfy | `extractJson` (backend/src/services/llmQuizGenerator.js) |
| `Fallback` | fallback.dfy | `fallbackQuiz` (backend/src/services/fallback.js) |
| `QuizGenerator` | quiz_generator.dfy | `generateQuizPayload` (backend/src/services/llmQuizGenerator.js) |
| `Utils` | utils.dfy | `isWikipediaUrl`, `parseOrigins` (backend/src/utils/utils.js) |
| `QuizController` | quiz_controller.dfy | `generateQuiz`, `getQuiz`, `submitAttempt` (backend/src/controllers/quiz.controller.js) |
| `QuizMode` | quiz_mode.dfy | the exam page (frontend/src/pages/QuizMode.jsx) |
| `AntiTabSwitch` | anti_tab_switch.dfy | the tab-switch detector (frontend/src/components/AntiTabSwitch.jsx) |
| `Timer` | timer.dfy | the countdown (frontend/src/components/Timer.jsx) |

Foreign code and effects are parameters.

- **`JSON.parse`** is an oracle `parse: string -> Option<ParsedReply>`. `None` means it throws. A parsed reply also says whether normalising its `quiz` throws a TypeError (`quizThrows`).
- **The Gemini model** is an oracle `model: (nat, Prompt) -> Reply`. It maps the position of a call and its prompt to the reply text, or to a thrown call.
- **`new URL(...)`** is a parsed `Option<ParsedUrl>`.
- **The scraper's result** is a `ScrapeResult`.
- **Environment variables** are `Option<string>`.
- **Timeouts, the clock and browser events** are explicit method calls and parameters.

Stateful code is imperative Dafny:

- the brace-scan loop of `extractJson`;
- the supplemental-round loop and the dedup loop of `generateQuizPayload`;
- the five pushes of `fallbackQuiz`;
- the store (class `QuizStore`);
- the exam session (class `ExamSession`);
- the detector (class `TabSwitchDetector`);
- the countdown (class `Countdown`).

Each loop is proved against a specification function, and the properties are
proved about that function.

## Model

| member | source | states |
|---|---|---|
| JsBuiltins.Trim | backend/src/utils/utils.js:12 | `trim()` removes exactly the leading and trailing JavaScript whitespace: the result is trimmed and is a slice of the input |
| JsBuiltins.LeadingWhitespace | backend/src/utils/utils.js:12 | the leading run that `trim()` removes is all whitespace and is followed by a non-whitespace character or the end |
| JsBuiltins.TrailingWhitespace | backend/src/utils/utils.js:12 | the trailing run that `trim()` removes is all whitespace and is preceded by a non-whitespace character or the start |
| JsBuiltins.TrimEmptyIff | backend/src/utils/utils.js:12 | a string trims to `""` exactly when it is all whitespace |
| JsBuiltins.Split | backend/src/utils/utils.js:12 | `split(",")` gives at least one piece and no piece contains the separator |
| JsBuiltins.JoinSplit | backend/src/utils/utils.js:12 | joining the pieces of a split with the separator gives the input back |
| JsBuiltins.SplitJoin | backend/src/utils/utils.js:12 | splitting a join of separator-free pieces gives the pieces back |
| JsBuiltins.EndsWithIff | backend/src/utils/utils.js:4 | `endsWith(x)` holds exactly when the string is some text followed by `x` |
| JsBuiltins.IncludesIff | backend/src/utils/utils.js:4 | `includes(x)` holds exactly when the string is some text, then `x`, then some text |
| JsBuiltins.IndexOf | backend/src/services/llmQuizGenerator.js:19 | `indexOf(c)` is -1 exactly when `c` is absent, and is otherwise the first position of `c` |
| JsBuiltins.LastIndexOf | backend/src/services/llmQuizGenerator.js:37 | `lastIndexOf(c)` is -1 exactly when `c` is absent, and is otherwise the last position of `c` |
| JsBuiltins.DeleteAllIdempotent | backend/src/services/llmQuizGenerator.js:51 | deleting a character class twice is deleting it once |
| JsBuiltins.SliceTo | backend/src/services/fallback.js:20 | `slice(0, n)` is the first min(n, length) elements |
| JsBuiltins.DecimalRoundTrip | frontend/src/components/Timer.jsx:10-11 | reading back the decimal text of a natural number gives the number |
| JsBuiltins.PadStart | frontend/src/components/Timer.jsx:10-11 | `padStart(n, c)` has length max(n, length), ends with the input, and is filled with `c` before it |
| JsBuiltins.JsRem | frontend/src/components/Timer.jsx:11 | JavaScript `%` agrees with the mathematical remainder on non-negative dividends and is never positive on negative ones |
| JsBuiltins.LowerAsciiStringEq | frontend/src/pages/QuizMode.jsx:123 | comparing `toLowerCase()` with a lower-case text is a case-insensitive comparison |
| QuizData.QuestionTexts | backend/src/services/llmQuizGenerator.js:154 | `quiz.map(q => q.question)` has one text per item, in order |
| QuizData.QuestionSet | backend/src/services/llmQuizGenerator.js:154 | the `seen` set holds exactly the questions of the quiz |
| QuizData.QuestionSetAppend | backend/src/services/llmQuizGenerator.js:157-158 | the question set of two lists joined is the union of their sets |
| QuizData.QuestionSetPush | backend/src/services/llmQuizGenerator.js:157-158 | pushing an item and adding its question to `seen` keep `seen` the question set of the quiz |
| JsonRepair.NormalizeQuotes | backend/src/services/llmQuizGenerator.js:17 | curly double quotes become `"`, curly single quotes become `'`, and every other character and the length are unchanged |
| JsonRepair.NormalizeKeepsBraces | backend/src/services/llmQuizGenerator.js:17-19 | quote repair neither adds nor removes `{` or `}` |
| JsonRepair.NoObjectIff | backend/src/services/llmQuizGenerator.js:19-20 | extraction fails with "no JSON object found" exactly when the reply has no `{` |
| JsonRepair.DepthToIsDepth | backend/src/services/llmQuizGenerator.js:22-34 | the scan's running counter equals the number of `{` minus `}` scanned so far |
| JsonRepair.ClosesAtUnique | backend/src/services/llmQuizGenerator.js:22-34 | the scan has at most one closing index |
| JsonRepair.MatchingClose | backend/src/services/llmQuizGenerator.js:22-34 | the loop returns the first index where the depth from the first `{` returns to 0, or -1 exactly when it never does |
| JsonRepair.CloseFrom | backend/src/services/llmQuizGenerator.js:24-34 | the search for the scan's closing index finds -1 or an index from its start on |
| JsonRepair.CloseFromCloses | backend/src/services/llmQuizGenerator.js:24-34 | searched from at or before the closing index, the search finds exactly it |
| JsonRepair.CloseFromNever | backend/src/services/llmQuizGenerator.js:24-36 | when the depth stays positive to the end, the search finds nothing (-1) |
| JsonRepair.FirstZero | backend/src/services/llmQuizGenerator.js:24-34 | a depth that reaches 0 or below has a first closing index no later |
| JsonRepair.BalancedSpan | backend/src/services/llmQuizGenerator.js:22-44 | when the scan closes, the span starts at the first `{`, ends with `}`, has depth 0, and every proper non-empty prefix has positive depth |
| JsonRepair.BalancedSpanValue | backend/src/services/llmQuizGenerator.js:29-43 | the span is the slice from the first `{` to the closing index |
| JsonRepair.GreedySpanValue | backend/src/services/llmQuizGenerator.js:36-41 | when the scan never closes, the span runs from the first `{` to the last `}`, or is the "no closing brace" error |
| JsonRepair.GreedyNoClosingIff | backend/src/services/llmQuizGenerator.js:36-41 | when the scan never closes, the error is raised exactly when no `}` follows the first `{` |
| JsonRepair.GreedySpan | backend/src/services/llmQuizGenerator.js:36-41 | the greedy span starts with the first `{`, ends with the last `}`, and no `}` follows it |
| JsonRepair.LastAtOrAfter | backend/src/services/llmQuizGenerator.js:37 | a character occurs at or after `f` exactly when its last occurrence is at or after `f` |
| JsonRepair.StringBraceEndsSpan | backend/src/services/llmQuizGenerator.js:24-34 | a `}` inside a string literal closes the span: `{"}"}` yields `{"}` |
| JsonRepair.MatchShape | backend/src/services/llmQuizGenerator.js:46 | a match of `/,\s*([}\]])/` is a comma, then only whitespace, then a `}` or `]` |
| JsonRepair.Matches | backend/src/services/llmQuizGenerator.js:46 | the matches of the global scan are listed left to right, each a real match, each starting after the closing bracket of the one before |
| JsonRepair.StripReplacesMatches | backend/src/services/llmQuizGenerator.js:46 | the comma pass is exactly the global replace: the text between the matches of a left-to-right scan is kept unchanged and in order, and each match, a comma with the whitespace after it and its bracket, becomes that bracket |
| JsonRepair.StripKeepsSignificant | backend/src/services/llmQuizGenerator.js:46 | the comma pass deletes only commas and whitespace: every other character survives, in order |
| JsonRepair.DeleteAllEmpty | backend/src/services/llmQuizGenerator.js:46 | text made only of commas and whitespace has no significant characters |
| JsonRepair.StripIdentity | backend/src/services/llmQuizGenerator.js:46 | without a comma, whitespace, then `}` or `]`, the pass changes nothing |
| JsonRepair.StripOnePass | backend/src/services/llmQuizGenerator.js:46 | the pass is one pass and not idempotent: `,,}` becomes `,}`, which a second pass would turn into `}` |
| JsonRepair.ExtractJson | backend/src/services/llmQuizGenerator.js:12-60 | the method's outcome is the specification: no object, no closing brace, the parse of the repaired span, the parse of the span without control characters, or the error carrying the original text |
| JsonRepair.FindSpan | backend/src/services/llmQuizGenerator.js:19-44 | the search for the first `{`, the scan and the greedy match give exactly the specified span or error |
| JsonRepair.ParseRetry | backend/src/services/llmQuizGenerator.js:48-58 | a first parse that succeeds is the result; otherwise exactly one retry runs on the text without U+0000 to U+001F, and its failure raises the error whose `raw` is the original reply |
| Fallback.FallbackPayload | backend/src/services/fallback.js:15-23 | five items, each the placeholder question |
| Fallback.FallbackQuiz | backend/src/services/fallback.js:1-24 | the loop of five pushes builds exactly the fallback payload |
| Fallback.FallbackShape | backend/src/services/fallback.js:2-22 | url and title echoed; five identical easy items with the four fixed options and answer `Yes`, which is among them; at most eight sections, a prefix of the input; empty entities; three fixed related topics |
| Fallback.FallbackNoSections | backend/src/services/fallback.js:20 | no sections in, none out |
| QuizGenerator.NormalizeItems | backend/src/services/llmQuizGenerator.js:115-121 | one item per reply item; text, answer, difficulty and explanation copied; options cut to their first four |
| QuizGenerator.FirstBatch | backend/src/services/llmQuizGenerator.js:115-121 | the first batch has at most `count` items, none with more than four options, and is not deduplicated |
| QuizGenerator.FreshItemsSound | backend/src/services/llmQuizGenerator.js:154-161 | each item the dedup admits comes from the reply, has a non-empty question, was not seen, and is not asked by an earlier admitted item |
| QuizGenerator.FreshItemsComplete | backend/src/services/llmQuizGenerator.js:154-161 | every non-empty unseen question of the reply is admitted |
| QuizGenerator.AppendUnseen | backend/src/services/llmQuizGenerator.js:154-161 | the loop appends the admitted items after the existing ones, unchanged, and stops at `count` |
| QuizGenerator.DedupStep | backend/src/services/llmQuizGenerator.js:155-161 | pushing an admitted item, or skipping a rejected one, keeps the quiz so far followed by the items still to be admitted |
| QuizGenerator.AppendKeepsOptions | backend/src/services/llmQuizGenerator.js:154-161 | appending keeps the old quiz as a prefix, stays within `count`, and keeps at most four options per item |
| QuizGenerator.AppendKeepsFresh | backend/src/services/llmQuizGenerator.js:154-161 | after appending, every later item still asks a non-empty question no earlier item asks |
| QuizGenerator.Call | backend/src/services/llmQuizGenerator.js:101-113 | one model call then `extractJson`: a thrown call, an unreadable reply, a parsed reply whose `quiz` cannot be normalised, or the parsed reply |
| QuizGenerator.Answers | backend/src/services/llmQuizGenerator.js:126-144 | one answer per call made |
| QuizGenerator.AnswersAt | backend/src/services/llmQuizGenerator.js:126-144 | the i-th answer is the model's reply to the i-th prompt, read by `extractJson` |
| QuizGenerator.AnswersExtend | backend/src/services/llmQuizGenerator.js:131-144 | one more call adds its answer at the end |
| QuizGenerator.PoolMembers | backend/src/services/llmQuizGenerator.js:146-152 | an item is in the pool exactly when some parsed reply has it |
| QuizGenerator.FromFirstReply | backend/src/services/llmQuizGenerator.js:115-121 | every item of the first batch comes from the first reply |
| QuizGenerator.FromRepliesExtend | backend/src/services/llmQuizGenerator.js:131-144 | items taken from earlier replies stay so after another call |
| QuizGenerator.FromRepliesAppend | backend/src/services/llmQuizGenerator.js:154-161 | items appended from the latest reply come from the replies |
| QuizGenerator.RoundsExtend | backend/src/services/llmQuizGenerator.js:126-133 | a new round asks for `count` minus the current length and lists the current questions |
| QuizGenerator.RoundsGrow | backend/src/services/llmQuizGenerator.js:157 | prompts stay consistent when the quiz only grows at the end |
| QuizGenerator.SupplementalRounds | backend/src/services/llmQuizGenerator.js:123-162 | the loop ends in exactly the state that three rounds of the round step give from the first batch: a round runs only while the quiz is short, a parsed reply appends its admitted items, an unparsed one ends the rounds; a round that throws (the call, or normalising its reply's `quiz`) is reported; the quiz keeps its start, stays within `count`, and at most three prompts are added |
| QuizGenerator.RoundsLoop | backend/src/services/llmQuizGenerator.js:126-162 | the `while` loop itself, tracked round by round against the round step: it stops when the quiz is full, after three attempts, or on the first reply that does not parse, and reports a throw exactly when the last call or its normalisation threw |
| QuizGenerator.RoundAdvances | backend/src/services/llmQuizGenerator.js:126-143 | after a due round the remaining rounds go on from the new state when its reply parsed, and end in it otherwise |
| QuizGenerator.RoundsStart | backend/src/services/llmQuizGenerator.js:115-125 | the first batch alone meets the round invariant |
| QuizGenerator.Round | backend/src/services/llmQuizGenerator.js:126-161 | one round sends the prompt for `count` minus the length listing the current questions, records its answer, appends exactly the admitted items of a parsed reply cut at `count`, and leaves the quiz as it was otherwise |
| QuizGenerator.RoundsOutcome | backend/src/services/llmQuizGenerator.js:123-162 | from the first batch the rounds end with one answer per prompt, at most three supplemental prompts, every answer but the last parsed, and, unless a call threw, a quiz that is exactly the first batch followed round by round by each parsed reply's admitted items, with the reason the rounds stopped |
| QuizGenerator.BadShapeThrows | backend/src/services/llmQuizGenerator.js:146-152 | a supplemental reply that parses but whose `quiz` cannot be normalised ends the rounds with a throw, which `GenerateQuizPayload` turns into the fallback, discarding the questions gathered so far |
| QuizGenerator.AppendKeeps | backend/src/services/llmQuizGenerator.js:154-161 | the dedup loop keeps the quiz invariant: prefix, bound, options, freshness, provenance and prompt consistency |
| QuizGenerator.RoundsStopped | backend/src/services/llmQuizGenerator.js:126-143 | the loop ends with the result when the quiz is full, the three rounds are used, or a supplemental reply was unreadable |
| QuizGenerator.GenerateQuizPayload | backend/src/services/llmQuizGenerator.js:62-182 | no key: the fallback, with no model call; a first reply that cannot be read, or any call or `quiz` normalisation that throws, even in a supplemental round after questions were gathered: the fallback; otherwise the first reply's metadata with the defaults of the `\|\|` operators, and a quiz of at most `count` items that is exactly the first batch followed, reply by reply, by the admitted fresh items |
| Utils.IsWikipediaUrlIff | backend/src/utils/utils.js:1-8 | a URL passes exactly when it parses, its host name ends with `wikipedia.org`, and its path contains `/wiki/` |
| Utils.UnparsableRejected | backend/src/utils/utils.js:5-7 | a URL that does not parse is rejected |
| Utils.LookAlikeHostAccepted | backend/src/utils/utils.js:4 | the host test is a plain suffix test: `fakewikipedia.org` passes |
| Utils.IndexPhpRejected | backend/src/utils/utils.js:4 | the `/w/index.php` article form is rejected |
| Utils.CleanPieces | backend/src/utils/utils.js:12 | the trim-and-filter step keeps no more pieces than it gets, each non-empty and trimmed |
| Utils.ParseOriginsDefault | backend/src/utils/utils.js:11 | an unset or empty setting gives `["*"]` |
| Utils.CleanPiecesMembers | backend/src/utils/utils.js:12 | a text survives the trim-and-filter step exactly when it is the non-empty trim of some piece |
| Utils.ParseOriginsMembers | backend/src/utils/utils.js:12 | otherwise every origin is non-empty and trimmed, and a text is an origin exactly when it is the non-empty trim of a comma-separated piece |
| Utils.OnlySeparatorsGiveNothing | backend/src/utils/utils.js:11-12 | a non-empty setting of only commas and spaces gives `[]`, not `["*"]` |
| Utils.ParseOriginsJoin | backend/src/utils/utils.js:10-13 | a comma-joined list of non-empty, trimmed, comma-free origins parses back to the same list in the same order |
| QuizController.EffectiveCount | backend/src/controllers/quiz.controller.js:27 | the count is the query value clamped into [5, 50], and 10 when absent |
| QuizController.UseUrlCacheIff | backend/src/controllers/quiz.controller.js:35 | the cache is on exactly when the setting is unset or spells `true` in any mix of cases |
| QuizController.UseUrlCacheExamples | backend/src/controllers/quiz.controller.js:35 | unset, `TRUE` and `True` turn it on; `false`, `1` and `""` turn it off |
| QuizController.CachedPayload | backend/src/controllers/quiz.controller.js:41-44 | a cache hit serves the stored payload with its quiz cut to exactly `count` items and nothing else changed |
| QuizController.FinalPayload | backend/src/controllers/quiz.controller.js:63-64 | the returned quiz is the first min(count, n) generated items; empty generated sections are replaced by the scraped ones, non-empty ones kept |
| QuizController.FallbackKeptWhole | backend/src/controllers/quiz.controller.js:63 | every effective count is at least five, so a fallback quiz is never cut |
| QuizController.FallbackRowHitsOnlyAtFive | backend/src/controllers/quiz.controller.js:39-41 | a stored fallback quiz serves a cache hit only for count 5 and without `force_refresh` |
| QuizController.QuizStore.Upsert | backend/src/controllers/quiz.controller.js:66-95 | an existing row is updated in place and keeps its id; a new URL gets a new row with the next id; an insert that hits the unique URL updates that row instead, and its failed insert still uses up an id; one row per URL with distinct ids |
| QuizController.PutRow | backend/src/controllers/quiz.controller.js:66-95 | writing a row under its URL, with the replaced row's id or a fresh one, keeps one row per URL with distinct ids below the counter and every other id |
| QuizController.ErrorStatus | backend/src/middlewares/error.js:3 | the error status is the error's own non-zero `status`, and 500 when it has none |
| QuizController.QuizStore.GenerateQuiz | backend/src/controllers/quiz.controller.js:24-102 | 400 for a non-Wikipedia URL before any lookup; a cache hit exactly under the four conditions; a failed scrape answers its error's status or 500; 422 for text shorter than 200; each error leaves the store unchanged; a rejected URL, a cache hit and every error make no model call; otherwise the generated payload, shaped to `count`, is upserted and returned with the row's id |
| QuizController.QuizStore.GetQuiz | backend/src/controllers/quiz.controller.js:124-140 | an id that is not an integer, or lies outside the `INT` range of the serial `quizzes.id` column (backend/src/db/init.js:6), fails the query (500); otherwise 404 exactly when no row has the id, and that row's payload with the id when one does |
| QuizController.QuizStore.SubmitAttempt | backend/src/controllers/quiz.controller.js:147-177 | an id that is not an integer or lies outside the `INT` range fails the lookup (500), and an in-range id of no quiz gives 404; a known quiz with a score, time taken, total time or question count outside the `INT` columns' range (backend/src/db/init.js:26-32) fails the insert (500); all three store nothing; otherwise exactly one attempt appended, with answers defaulting to `{}` and score and time taken to 0 |
| QuizMode.ScoreUpTo | frontend/src/pages/QuizMode.jsx:31-37 | the score of the first `n` questions is at most `n` |
| QuizMode.ScoreCounts | frontend/src/pages/QuizMode.jsx:31-37 | the score is the number of questions whose recorded answer selects the correct option, between 0 and the number of questions |
| QuizMode.ScoreNoAnswers | frontend/src/pages/QuizMode.jsx:34 | unanswered questions never count: no answers, score 0 |
| QuizMode.ScoreAllCorrect | frontend/src/pages/QuizMode.jsx:31-37 | all answers right is a full score |
| QuizMode.ScoreSelect | frontend/src/pages/QuizMode.jsx:183-187 | changing the answer to question `i` moves the score only by question `i`'s own contribution |
| QuizMode.ForcesSubmitIff | frontend/src/pages/QuizMode.jsx:98 | the forced-submit rule is "one of each kind, or three in all" |
| QuizMode.StrikeThresholds | frontend/src/pages/QuizMode.jsx:93-98 | the first strike never forces; one kind alone needs three; one of each forces at two |
| QuizMode.PreventsDefaultIff | frontend/src/pages/QuizMode.jsx:122-128 | `keyBlock` prevents the default exactly for F5 and F12 in any case, Ctrl+R, and Ctrl+Shift+I, J or C |
| QuizMode.KeyExamples | frontend/src/pages/QuizMode.jsx:122-128 | F5, Ctrl+R and Ctrl+Shift+I are blocked; a bare `r`, Ctrl+I without Shift, and F11 are not |
| QuizMode.ExamSession.constructor | frontend/src/pages/QuizMode.jsx:16-28 | a session starts unsubmitted with no strikes and no answers, and the total time is 60 seconds per question |
| QuizMode.ExamSession.ScoreNow | frontend/src/pages/QuizMode.jsx:31-37 | the `forEach` loop returns the score |
| QuizMode.ExamSession.SubmitExam | frontend/src/pages/QuizMode.jsx:47-81 | a submitted session ignores the call; otherwise it becomes submitted and posts exactly one attempt with the answers, their score, the whole seconds used, the total time and the question count |
| QuizMode.ExamSession.AddStrike | frontend/src/pages/QuizMode.jsx:84-102 | a submitted session ignores strikes; otherwise exactly one counter goes up by one, and an auto-submit is scheduled when the rule holds |
| QuizMode.ExamSession.AutoSubmitTimeout | frontend/src/pages/QuizMode.jsx:100 | the scheduled auto-submit submits unless the model's latest state is already submitted (see "## Left out" for the source's stale check), posting exactly the attempt `submitExam(true)` posts (answers, their score, whole seconds used, total time, question count, flagged automatic); answers, strike counters and the modal are kept |
| QuizMode.ExamSession.FullscreenChange | frontend/src/pages/QuizMode.jsx:145-151 | leaving fullscreen before submission shows the modal and counts one fullscreen strike; otherwise nothing changes |
| QuizMode.ExamSession.CameraDenied | frontend/src/pages/QuizMode.jsx:112-118 | a denied camera forces a submission unless the model's latest state is already submitted (see "## Left out" for the source's stale check), posting exactly the automatic attempt with the current answers and their score, the whole seconds used, the total time and the question count; answers, counters, the modal and scheduled auto-submits are kept |
| QuizMode.ExamSession.TimerEnded | frontend/src/pages/QuizMode.jsx:165 | the timer's end forces a submission unless already submitted, posting exactly the automatic attempt with the current answers and their score, the whole seconds used, the total time and the question count; answers, counters, the modal and scheduled auto-submits are kept |
| QuizMode.ExamSession.SubmitClicked | frontend/src/pages/QuizMode.jsx:196 | the button submits unless already submitted, posting exactly the attempt with the current answers and their score, the whole seconds used, the total time and the question count, not flagged automatic; answers, counters, the modal and scheduled auto-submits are kept |
| QuizMode.ExamSession.Select | frontend/src/pages/QuizMode.jsx:183-187 | choosing option `j` of question `i` sets key `i` and leaves every other key as it was |
| QuizMode.ExamSession.ResumeClicked | frontend/src/pages/QuizMode.jsx:201-211 | the modal's resume button, shown only while the modal is up before submission, hides the modal and changes nothing else |
| AntiTabSwitch.Step | frontend/src/components/AntiTabSwitch.jsx:10-27 | only a return to the page while in the background and not cooling strikes, and it starts the cooldown; hiding and blurring only set `inBackground`; after a return `inBackground` is false; the timeout only clears `cooling` |
| AntiTabSwitch.StrikesPerReturn | frontend/src/components/AntiTabSwitch.jsx:10-27 | over any sequence of events, strikes never exceed the number of returns to the page |
| AntiTabSwitch.ReturnDuringCooldownLost | frontend/src/components/AntiTabSwitch.jsx:16-21 | a return during the cooldown strikes nothing, and the strike is not made up later |
| AntiTabSwitch.TwoReturns | frontend/src/components/AntiTabSwitch.jsx:10-23 | hide, show, hide, show strikes twice when the cooldown ends in between, once otherwise |
| AntiTabSwitch.BlurThenHide | frontend/src/components/AntiTabSwitch.jsx:12-27 | a blur followed by hiding is one leave: one strike on return |
| AntiTabSwitch.NoCap | frontend/src/components/AntiTabSwitch.jsx:5-35 | `maxStrikes` caps nothing: every leave, return and cooldown cycle strikes once more |
| AntiTabSwitch.TabSwitchDetector.Hidden | frontend/src/components/AntiTabSwitch.jsx:12-13 | the handler moves the state one `Hidden` step |
| AntiTabSwitch.TabSwitchDetector.Blur | frontend/src/components/AntiTabSwitch.jsx:25-27 | the handler moves the state one `Blur` step |
| AntiTabSwitch.TabSwitchDetector.Visible | frontend/src/components/AntiTabSwitch.jsx:14-22 | the handler strikes exactly when in the background and not cooling, and moves the state one `Visible` step |
| AntiTabSwitch.TabSwitchDetector.CooldownExpired | frontend/src/components/AntiTabSwitch.jsx:19 | the timeout clears `cooling` and nothing else |
| Timer.PaddedValue | frontend/src/components/Timer.jsx:10-11 | a padded number is all digits and reads back as itself; it is two characters below 100 |
| Timer.ClockReadsBack | frontend/src/components/Timer.jsx:10-11 | for a non-negative count the display is minutes, a colon and two digits of seconds; reading it back gives `m` and `s` with `m*60 + s` equal to the count and `s < 60` |
| Timer.ClockWidth | frontend/src/components/Timer.jsx:10-12 | below 6000 seconds the display is exactly five characters, `MM:SS` |
| Timer.ClockExamples | frontend/src/components/Timer.jsx:10-12 | 0, 59 and 600 seconds display as `00:00`, `00:59` and `10:00` |
| Timer.Countdown.constructor | frontend/src/components/Timer.jsx:4-6 | the count starts at `totalSeconds`; a tick is scheduled exactly when it is positive, and `onEnd` runs at once otherwise |
| Timer.Countdown.Tick | frontend/src/components/Timer.jsx:5-9 | each tick lowers the count by exactly one and only while it is positive, so it never goes below zero from a non-negative start; `onEnd` runs when it reaches zero, after exactly `totalSeconds` ticks |
| Timer.Countdown.NewOnEnd | frontend/src/components/Timer.jsx:6-9 | a re-render with a new `onEnd` at zero calls `onEnd` again |

## Left out

- I/O is not modelled: logging, `res.json`, toasts, navigation, `localStorage`, camera tracks and the fullscreen API promises. Only their boolean outcomes are parameters.
- The prompt text is not modelled. A `Prompt` keeps only what changes between calls: the number of questions asked for and the earlier questions.
- Concurrency is not modelled. Events are handled one at a time against the latest state, so React's stale reads of `submitted` and of the counters in closures are not captured. In particular, `ExamSession.Valid()`'s "at most one attempt posted" holds in the model only; the two lines below name the source paths that can post twice.
- QuizMode.ExamSession.AutoSubmitTimeout: the source's 400 ms callback (frontend/src/pages/QuizMode.jsx:100) calls the `submitExam` of the render in which the strike was added, whose `submitted` is still false. A submission made after the callback was scheduled (the Submit button, the timer's end, or an earlier scheduled callback) is therefore not seen, and the callback posts a second attempt. The model checks the latest state and posts nothing then.
- QuizMode.ExamSession.CameraDenied: the camera request runs in the mount-only effect (frontend/src/pages/QuizMode.jsx:105-142), so its `catch` calls the first render's `submitExam`, whose `submitted` is false. A submission made while the camera prompt is open is not seen, and a denial then posts a second attempt. The model checks the latest state and posts nothing then.
- The insert race is modelled as "the insert fails exactly when a row with the URL exists by then": `QuizStore.Upsert` accepts an earlier lookup that found nothing.
- QuizController.QuizStore.Upsert: the serial id counters are unbounded. A `SERIAL` column fails once its sequence passes 2147483647; that failure is not modelled.
- QuizController.QuizStore.Upsert: every failed insert is taken to be the unique-URL conflict. The source's `catch` turns any insert error into the lookup and update; other database errors are not modelled.
- `JSON.stringify`/`JSON.parse` of the stored `full_quiz_data` are taken as the identity on the payload.
- QuizController.EffectiveCount: a non-numeric `count` query gives NaN in the source; only integer query values are modelled.
- QuizGenerator.GenerateQuizPayload: the count is a natural number, because its only caller passes a value in [5, 50]; negative `slice` ends are not modelled.
- QuizGenerator.GenerateQuizPayload: which parsed replies make the `quiz` normalisation throw is decided by the `parse` oracle (`quizThrows`), not derived from JSON values. An item that is a number or a string reads as an item with every field missing. `options` given as a string, which `slice` cuts as text, is not modelled. A missing question, answer, difficulty or explanation is the empty string.
- QuizGenerator.NormalizeItems: a stored answer is always a string. The source keeps `answer: undefined` for an item without one.
- QuizMode.Correct: an answer index past the options never counts. In the source, `options[k]` is `undefined` there, which equals an `undefined` answer; the page only offers indices of existing options.
- JsBuiltins.LowerAsciiString: only ASCII letters are lowered. The comparisons the sources make (`"true"`, `"f5"`, `"r"`, `"i"`, `"j"`, `"c"`, `"f12"`) cannot be matched by lowering any other character to a single one of these letters.
- Strings are sequences of characters. UTF-16 code units and surrogate pairs are not modelled.
- Not modelled:
  - authentication (backend/src/routes/auth.js);
  - the scraper's fetch and DOM cleaning (backend/src/services/scraper.js);
  - PDF export (`exportPdf`, backend/src/services/pdfGenerator.js);
  - the history listing (`history`);
  - the database pool and its retry wrapper (backend/src/db/pool.js);
  - the schema (backend/src/db/init.js), except URL uniqueness and the `INT` range of ids and attempt fields;
  - the Express wiring;
  - the other React views.

  The scraper's output is an input of `GenerateQuiz`. Each of the others is foreign-library calls, I/O or rendering.
- Timer.Countdown.NewOnEnd: a re-render with a new `onEnd` while the count is positive clears the pending 1000 ms timeout and schedules a fresh one, which delays the next tick. The model has no clock, so this restart leaves its state unchanged.
- The 900 ms redirect timeout after submission and the `lastResult` record are not modelled; they only navigate.
- Attempt score, time and totals are integers. `Number(...)` of a non-numeric body value gives NaN in the source.
