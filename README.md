# PrepIQ exam-session core in Dafny

PrepIQ is a React and TypeScript exam-preparation app. This project models the
parts of it that decide what a student sees and how an attempt is scored, and
proves properties about them:

- **QuizLogic** (`src/hooks/useQuizLogic.ts`): the timed mock test.
  - One state record holds the questions, the current position, and the answers and statuses keyed by question id. It also holds the remaining seconds, the finished flag and the score.
  - The handlers that replace that record are methods of the class `QuizSession`. The one-second interval body is `Tick`.
  - Scoring is +1 per correct answer and −0.25 per wrong one, in exact `real` arithmetic.
- **PracticeSession** (`src/pages/PracticeSessionPage.tsx`): the untimed learning mode.
  - The answer normaliser deletes `$` and whitespace and lower-cases.
  - The page's state cells are fields of the class `Session`: answers keyed by index, bookmarks, position and the finished flag. Each handler is a method.
  - The result screen's figures are attempted, correct, wrong and rounded accuracy.
- **ChapterPractice** (`src/hooks/useChapterPracticeLogic.ts`): three state cells with a first-answer lock and bounded navigation.
- **QuizPage** (`src/pages/QuizPage.tsx`): `formatTime`, together with its inverse.
- **LearnTopic** (`src/pages/LearnTopicPage.tsx`): the concept reader.
  - The topic display name. The same expression appears at `src/pages/PracticeSessionPage.tsx:80`, so one definition serves both pages.
  - The subject lookup.
  - The defaulting of fetched page records and their in-place sort by page number.
  - The two fallback pages.
  - Page turning.
- **AdminPanel** (`src/pages/AdminPanel.tsx`): the list logic of the admin tables.
  - Row selection, the topic dropdown, the search filter and the export subset.
  - The pending-flag badge, the approval queue and the validation of an official MCQ post.
- **MockTests** (`src/pages/MockTestsPage.tsx`): the generated mock catalogues, the premium check, the lock rule and the card's route.
- **Pricing** (`src/pages/PricingPage.tsx`): the plan table and the checkout gating. The gating covers the sign-in check, free plans, the script-load result, the amount in paise, and the order record.
- **Server** (`server.ts`): the mock API.
  - Role and display name are derived from the email. Login and signup build the same body, so both use one function.
  - The fixed question payload.
- **BottomNav** (`src/components/layout/BottomNav.tsx`): the five tab items and the active-tab test.

Two helper modules carry the JavaScript built-ins the code relies on:

- **Text**: `Option` for `undefined`/`null`, truthiness, ASCII `toLowerCase`/`toUpperCase`, `trim`, one-character `split` and `join`, `startsWith`, `includes`, and order-preserving `filter`.
- **Decimal**: `Number.prototype.toString` on non-negative integers, its inverse, and `padStart`.

Where the code and its documentation disagree, the model follows the code:

- In the quiz hook, `handleAnswer`, `clearAnswer` and `navigateTo` have no finished guard.
- `submitQuiz` matches answers by strict equality, not by the practice page's normaliser.
- When the timer expires the quiz finishes with the score still unset.
- Loading quiz questions keeps the previous position and answers.
- The practice page's `setQuestions` does not reset the index either.

## Model

| member | source | states |
|---|---|---|
| QuizLogic.VisitSpec | src/hooks/useQuizLogic.ts:105-111 | upgrading a target's status changes only that id, only from "not_visited" to "visited", keeps the key set and never reverts a status to "not_visited" |
| QuizLogic.CorrectPlusWrong | src/hooks/useQuizLogic.ts:144-150 | correct + wrong equals the number of questions with a non-empty answer, which is at most the number of questions |
| QuizLogic.ScoreBounds | src/hooks/useQuizLogic.ts:151 | −0.25·attempted ≤ score ≤ attempted, hence −0.25·n ≤ score ≤ n; the score reaches the attempted count exactly when no answer is wrong |
| QuizLogic.StrictMatching | src/hooks/useQuizLogic.ts:147 | an answer "4 " for the key "4" counts as wrong, not correct: matching is strict equality |
| QuizLogic.QuizSession.constructor | src/hooks/useQuizLogic.ts:24-34 | the initial record: no questions, position 0, no answers or statuses, the given time, not finished, score null, loading |
| QuizLogic.QuizSession.LoadQuestions | src/hooks/useQuizLogic.ts:36-58 | a successful load gives every question a status, "not_visited" except the first question's "visited"; a failed load keeps the questions and statuses; position, answers, timer and score are kept; loading ends |
| QuizLogic.QuizSession.Tick | src/hooks/useQuizLogic.ts:62-73 | no change while finished or loading; otherwise the time drops by exactly one above 1, and at ≤ 1 becomes 0 and finishes the quiz in the same step, so it is never negative; the score stays unset |
| QuizLogic.QuizSession.HandleAnswer | src/hooks/useQuizLogic.ts:78-87 | the current question's answer is stored, overwriting an earlier one, and only its status becomes "answered"; nothing else changes, even when finished |
| QuizLogic.QuizSession.ClearAnswer | src/hooks/useQuizLogic.ts:89-100 | only the current question's answer is removed and its status becomes "visited", never "not_visited" |
| QuizLogic.QuizSession.NavigateTo | src/hooks/useQuizLogic.ts:102-119 | an index outside [0, n) changes nothing; otherwise it becomes current, only a "not_visited" target is upgraded to "visited", answers are untouched and no status reverts |
| QuizLogic.QuizSession.MarkForReviewAndNext | src/hooks/useQuizLogic.ts:121-138 | the current status becomes "marked_for_review" even if answered; the position advances by one but stays on the last question instead of wrapping; the new current question is upgraded to "visited" |
| QuizLogic.QuizSession.SubmitQuiz | src/hooks/useQuizLogic.ts:140-154 | the counting loop yields the score correct − 0.25·wrong of the strict-match counts and finishes the quiz |
| Decimal.NatToStringRoundTrip | src/pages/QuizPage.tsx:43 | the decimal rendering of a number is all digits and reads back as the number |
| Decimal.NatToStringInjective | src/pages/MockTestsPage.tsx:17 | different numbers render differently |
| Decimal.NatToStringLength | src/pages/QuizPage.tsx:43 | one digit below 10, at most two below 100, three or more from 100 on |
| Decimal.PadStart | src/pages/QuizPage.tsx:43 | left-pads to the requested length with the fill character, keeps the original as suffix and never truncates |
| Decimal.ParseLeadingZero | src/pages/QuizPage.tsx:43 | a leading zero does not change a numeral's value |
| Decimal.Pad2 | src/pages/QuizPage.tsx:43 | `n.toString().padStart(2, "0")` reads back as n, is two digits below 100 and longer from 100 on |
| QuizPage.FormatTime | src/pages/QuizPage.tsx:39-43 | the display ends in `:MM:SS`, with colons six and three places from the end |
| QuizPage.Render | src/pages/QuizPage.tsx:43 | three padded fields joined by two colons |
| QuizPage.Decompose | src/pages/QuizPage.tsx:40-42 | h·3600 + m·60 + s equals the seconds with m, s < 60, and the display renders exactly those fields |
| QuizPage.FormatTimeRoundTrip | src/pages/QuizPage.tsx:39-43 | the fields of the display are digits, minutes and seconds are below 60, and parsing the display gives back the seconds |
| QuizPage.RoundTripFields | src/pages/QuizPage.tsx:41-43 | a rendering of (h, m, s) with m, s < 60 parses back field by field |
| QuizPage.ParseFields | src/pages/QuizPage.tsx:43 | the fields of a colon-joined rendering sit at fixed offsets from the end |
| QuizPage.FormatTimeShape | src/pages/QuizPage.tsx:43 | below 360000 seconds the display is exactly `HH:MM:SS`: eight characters, colons at 2 and 5, digits elsewhere |
| QuizPage.FormatTimeHoursUncapped | src/pages/QuizPage.tsx:40-43 | from 360000 seconds on the display is longer than eight characters: hours are not capped |
| QuizPage.FormatTimeInjective | src/pages/QuizPage.tsx:39-43 | different times display differently |
| Text.SplitHead | server.ts:19 | the first piece of `split(sep)` is the longest separator-free prefix, and the rest is the split of what follows the first separator |
| Text.TrimEmptyIffAllWhitespace | src/pages/AdminPanel.tsx:342 | `!s.trim()` holds exactly for whitespace-only strings |
| Text.FilterSpec | src/pages/AdminPanel.tsx:586-590 | `filter` keeps exactly the elements satisfying the predicate, each as often as it occurs in the input, in their original order |
| Text.FilterPositionsSpec | src/pages/AdminPanel.tsx:586-590 | the `k`-th element `filter` keeps is the element at the `k`-th passing position of the input, the positions increasing and covering every passing element |
| Text.FilterByPositions | src/pages/AdminPanel.tsx:586-590 | some increasing list of all passing positions reads off `filter`'s output element by element |
| Text.MapSubsequence | src/pages/AdminPanel.tsx:592 | `map` keeps a subsequence a subsequence, so mapped rows stay in row order |
| Text.FilterAll | src/pages/PracticeSessionPage.tsx:49 | a filter that rejects nothing returns its input |
| Text.FilterAppend | src/pages/AdminPanel.tsx:593 | filtering distributes over concatenation |
| Text.CountComplement | src/pages/AdminPanel.tsx:33 | the elements satisfying a predicate and those satisfying its negation add up to all elements |
| LearnTopic.Caps | src/pages/LearnTopicPage.tsx:43 | capitalising every word keeps the number of words |
| LearnTopic.CapitalizeSpec | src/pages/LearnTopicPage.tsx:43 | capitalising upper-cases the first character and leaves the rest |
| LearnTopic.TitleCaseUnfold | src/pages/LearnTopicPage.tsx:43 | a topic id's name is its capitalised first word, then a space and the name of the rest after the first dash |
| LearnTopic.TitleCaseSpec | src/pages/LearnTopicPage.tsx:43 | the name has the id's length; every dash becomes a space, every word's first letter is upper-cased, all else is kept |
| LearnTopic.TopicNameSpec | src/pages/LearnTopicPage.tsx:43 | a missing or empty id gives "Topic"; otherwise the name is the id title-cased character by character |
| LearnTopic.SubjectNameSpec | src/pages/LearnTopicPage.tsx:66-77 | known short ids map to their stored names, unknown ids pass through, a missing id gives "Mathematics"; the name is never empty |
| LearnTopic.NormalizePageSpec | src/pages/LearnTopicPage.tsx:87-97 | each default (index + 1, "Concept i", "", null, the document id) applies only when the field is absent; a present field wins even when it is 0 |
| LearnTopic.NormalizeAll | src/pages/LearnTopicPage.tsx:87-97 | one record per fetched document |
| LearnTopic.SortByPage | src/pages/LearnTopicPage.tsx:100 | the array ends up sorted ascending by page number and is a permutation of its old contents |
| LearnTopic.InsertLast | src/pages/LearnTopicPage.tsx:100 | one insertion step extends the sorted prefix by one element and permutes the array |
| LearnTopic.GenerateMockPages | src/pages/LearnTopicPage.tsx:11-37 | two pages numbered 1 and 2, sorted, titled "Introduction to <topic>" and "Formulas and Rules" |
| LearnTopic.FetchedPages | src/pages/LearnTopicPage.tsx:86-108 | a failed or empty query gives the two fallback pages; otherwise the defaulted records, sorted by page number, as a permutation of the fetched order |
| LearnTopic.ConceptReader.constructor | src/pages/LearnTopicPage.tsx:45-47 | no pages, page 1, direction 0 |
| LearnTopic.ConceptReader.SetPages | src/pages/LearnTopicPage.tsx:99-112 | the loaded pages are stored and the reader is back on page 1, a real page exactly when something was loaded |
| LearnTopic.ConceptReader.Paginate | src/pages/LearnTopicPage.tsx:118-125 | moves to currentPage + d and records d only when that page is in [1, total]; otherwise nothing changes; the reader never leaves the page range |
| LearnTopic.ConceptReader.GoToPage | src/pages/LearnTopicPage.tsx:127-131 | jumps to the page; the direction is 1 for a later page and −1 otherwise, the same page included |
| PracticeSession.NormalizeStrSpec | src/pages/PracticeSessionPage.tsx:47-50 | "" for a missing or empty input; otherwise no `$`, whitespace or upper case remains, and position i holds the lower case of the i-th input character that is neither `$` nor whitespace |
| PracticeSession.NormalizeStrIdempotent | src/pages/PracticeSessionPage.tsx:47-50 | normalising twice equals normalising once |
| PracticeSession.NormalizeStrDollarExample | src/pages/PracticeSessionPage.tsx:47-50 | "$4$ " and "4" both normalise to "4", which differs from the normalised "5" |
| PracticeSession.NormalizeStrCaseExample | src/pages/PracticeSessionPage.tsx:47-50 | " X y" and "xy" both normalise to "xy" |
| PracticeSession.FilterXy | src/pages/PracticeSessionPage.tsx:49 | deleting `$` and whitespace from " X y" gives "Xy" |
| PracticeSession.NormalizeStrBlankExample | src/pages/PracticeSessionPage.tsx:47-50 | a missing key, "" and " $ " all normalise to "" |
| PracticeSession.Summarize | src/pages/PracticeSessionPage.tsx:216-226 | total is the question count, attempted the number of answer entries, correct at most attempted, and wrong = attempted − correct ≥ 0 |
| PracticeSession.SummaryPartition | src/pages/PracticeSessionPage.tsx:219-226 | the answer entries split into the matching and the non-matching ones, whose counts are correct and wrong |
| PracticeSession.AccuracySpec | src/pages/PracticeSessionPage.tsx:227 | the accuracy lies in [0, 100] and is the nearest integer to 100·correct/attempted (ties up); it is 0 with nothing attempted or nothing correct and 100 when all attempts are correct |
| PracticeSession.Session.constructor | src/pages/PracticeSessionPage.tsx:56-62 | no questions, index 0, no answers or bookmarks, not finished |
| PracticeSession.Session.SetQuestions | src/pages/PracticeSessionPage.tsx:95 | only the questions change |
| PracticeSession.Session.HandleAnswerSelect | src/pages/PracticeSessionPage.tsx:160-163 | no change once the current index has a non-empty answer or the session is over; otherwise the option is recorded for the current index only, so the first answer locks |
| PracticeSession.Session.HandleNext | src/pages/PracticeSessionPage.tsx:165-170 | advances by one before the last question, otherwise finishes in place; the index stays in range |
| PracticeSession.Session.HandlePrev | src/pages/PracticeSessionPage.tsx:172-177 | goes back by one only above index 0; the index stays in range |
| PracticeSession.Session.JumpToQuestion | src/pages/PracticeSessionPage.tsx:179-183 | the chosen palette question becomes current; nothing else changes |
| PracticeSession.Session.FinishPractice | src/pages/PracticeSessionPage.tsx:185 | the session is finished; nothing else changes |
| PracticeSession.Session.RestartPractice | src/pages/PracticeSessionPage.tsx:186-192 | answers and bookmarks are emptied, index 0, not finished, the questions kept |
| PracticeSession.Session.Review | src/pages/PracticeSessionPage.tsx:264 | the session reopens at index 0 with every answer kept, so answered questions stay locked |
| PracticeSession.Session.ToggleBookmark | src/pages/PracticeSessionPage.tsx:194 | only the current index's flag flips (absent reading as false); answers are untouched |
| PracticeSession.Session.ClearAnswer | src/pages/PracticeSessionPage.tsx:195-198 | no change once finished; otherwise only the current index's answer is deleted |
| PracticeSession.Session.Result | src/pages/PracticeSessionPage.tsx:216-228 | the result screen's attempted count is the number of answers and 0 ≤ wrong ≤ attempted |
| PracticeSession.ToggleBookmarkTwice | src/pages/PracticeSessionPage.tsx:194 | toggling twice restores every bookmark flag |
| ChapterPractice.ChapterPractice.constructor | src/hooks/useChapterPracticeLogic.ts:13-16 | no questions, index 0, nothing selected, loading |
| ChapterPractice.ChapterPractice.LoadQuestions | src/hooks/useChapterPracticeLogic.ts:18-31 | a successful fetch replaces the questions, a failed one keeps them; index and selection are kept; loading ends |
| ChapterPractice.ChapterPractice.HandleAnswerSelect | src/hooks/useChapterPracticeLogic.ts:33-37 | the selection is set only when none is selected, so the first answer locks |
| ChapterPractice.ChapterPractice.HandleNext | src/hooks/useChapterPracticeLogic.ts:39-44 | advances by one and clears the selection only before the last question; at the end neither index nor selection changes; the index stays in [0, max(0, n − 1)] |
| ChapterPractice.ChapterPractice.HandlePrev | src/hooks/useChapterPracticeLogic.ts:46-51 | goes back one and clears the selection only above index 0; at 0 nothing changes; the index stays in range |
| ChapterPractice.ChapterPractice.CurrentQuestion | src/hooks/useChapterPracticeLogic.ts:56 | while the index stays in range, a non-empty question list always has a current question, and it is one of the loaded questions |
| AdminPanel.ToggleSpec | src/pages/AdminPanel.tsx:593 | a selected id is removed with every copy, an unselected id is appended, every other id keeps its membership, its number of copies and its order |
| AdminPanel.FilterShorter | src/pages/AdminPanel.tsx:593 | removing a present id shortens the list |
| AdminPanel.ToggleTwice | src/pages/AdminPanel.tsx:593 | selecting an unselected id and deselecting it restores the list |
| AdminPanel.Selection.constructor | src/pages/AdminPanel.tsx:572 | the selection starts empty |
| AdminPanel.Selection.SelectOne | src/pages/AdminPanel.tsx:593 | the selection is toggled at the id, which is selected afterwards exactly when it was not before |
| AdminPanel.Selection.SelectAllQuestions | src/pages/AdminPanel.tsx:592 | checked selects the ids of the questions that pass the search and topic filter, in row order, and no other id; unchecked clears the selection |
| AdminPanel.Selection.SelectAllConcepts | src/pages/AdminPanel.tsx:711 | checked selects the ids of the concepts that pass the search and topic filter, in row order, and no other id; unchecked clears the selection |
| AdminPanel.SelectAllQuestionsSpec | src/pages/AdminPanel.tsx:586-592 | the ids of the visible questions are one per visible row, a subsequence of the table's ids, and exactly the ids of questions passing the row filter |
| AdminPanel.SelectAllConceptsSpec | src/pages/AdminPanel.tsx:705-711 | the ids of the visible concepts are one per visible row, a subsequence of the table's ids, and exactly the ids of concepts passing the row filter |
| AdminPanel.Selection.ClearAfterDelete | src/pages/AdminPanel.tsx:603 | a successful bulk delete empties the selection |
| AdminPanel.FirstIndex | src/pages/AdminPanel.tsx:585 | the first position of a value in a list |
| AdminPanel.FirstIndexExtend | src/pages/AdminPanel.tsx:585 | appending does not move a value's first position |
| AdminPanel.DedupSpec | src/pages/AdminPanel.tsx:585 | `Array.from(new Set(s))` holds every value of s once, nothing else, in order of first occurrence |
| AdminPanel.TruthyValues | src/pages/AdminPanel.tsx:585 | `.filter(Boolean)` keeps exactly the present non-empty values |
| AdminPanel.TruthyValuesOrder | src/pages/AdminPanel.tsx:585 | `.filter(Boolean)` keeps the order of first occurrences of the kept values |
| AdminPanel.TopicsInFirstOccurrenceOrder | src/pages/AdminPanel.tsx:585 | the deduplicated truthy keys appear in the order in which each key first occurs |
| AdminPanel.UniqueQuestionTopicsSpec | src/pages/AdminPanel.tsx:585 | "All", then each non-empty `chapterId`-or-else-`topic` value of some question exactly once, nothing else, ordered by the first question carrying each value |
| AdminPanel.UniqueConceptTopicsSpec | src/pages/AdminPanel.tsx:704 | "All", then each non-empty concept chapter id exactly once, nothing else, ordered by the first concept carrying each id |
| AdminPanel.FilteredQuestionsSpec | src/pages/AdminPanel.tsx:586-590 | the visible questions are an order-preserving subsequence holding exactly the rows that pass search and topic; topic "All" with an empty search shows every question with a text or subject |
| AdminPanel.SearchIgnoresCase | src/pages/AdminPanel.tsx:588 | lower-casing the field or the search does not change a match |
| AdminPanel.LowerIdempotent | src/pages/AdminPanel.tsx:588 | lower-casing twice is lower-casing once |
| AdminPanel.FilteredConceptsSpec | src/pages/AdminPanel.tsx:705-709 | the visible concepts are an order-preserving subsequence holding exactly the rows that pass search and topic; topic "All" with an empty search shows every titled concept |
| AdminPanel.ExportDataSpec | src/pages/AdminPanel.tsx:628-629 | with no selection every question's record without its id is exported, in table order; with one, the `k`-th record is the body of the `k`-th row (by table position) whose id is selected, every selected row is among those positions, and only selected questions' records appear |
| AdminPanel.ExportDataSelected | src/pages/AdminPanel.tsx:628-629 | with a selection, one record per selected question, a subsequence of the table's bodies, and membership in both directions |
| AdminPanel.ExportDataInTableOrder | src/pages/AdminPanel.tsx:628-629 | with a selection, an increasing list of all selected row positions reads off the export record by record |
| AdminPanel.PendingFlagCountSpec | src/pages/AdminPanel.tsx:33 | the badge counts the issues not "Resolved", including those without a status: with the resolved ones that is all issues |
| AdminPanel.PendingPostsSpec | src/pages/AdminPanel.tsx:327 | the approval queue holds exactly the posts with status "pending", in fetched order |
| AdminPanel.CreateOfficialPostSpec | src/pages/AdminPanel.tsx:341-354 | a post is rejected exactly when the question or some option is whitespace only; an accepted post's answer is one of its options and the post is approved |
| MockTests.FindName | src/pages/MockTestsPage.tsx:37 | the name of the first subject with the id, "Subject" when there is none |
| MockTests.PrefixCancel | src/pages/MockTestsPage.tsx:17 | two ids with the same prefix are equal only if their suffixes are |
| MockTests.FullMocksSpec | src/pages/MockTestsPage.tsx:16-22 | 50 mocks `full-mock-1` … `full-mock-50`, 100 questions and 60 minutes each, exactly the first four free, no id repeated |
| MockTests.SubjectMocksSpec | src/pages/MockTestsPage.tsx:36-45 | 20 mocks `<subId>-mock-<i>`, 25 questions and 30 minutes each, exactly the first five free, no id repeated, "Subject" in the titles of an unknown subject |
| MockTests.LockSpec | src/pages/MockTestsPage.tsx:59-64 | premium needs the flag and an expiry strictly after now; free mocks are never locked, premium users never see a lock, and a signed-out user sees every paid mock locked |
| MockTests.CardRouteSpec | src/pages/MockTestsPage.tsx:100-108 | a locked card goes to /pricing, an unlocked one into a quiz route; a free full mock goes to its random-full quiz; a missing subject is written "null" |
| Pricing.PlansSpec | src/pages/PricingPage.tsx:22-91 | four plans; only Basic is free and only Elite is popular |
| Pricing.DisplayRazorpaySpec | src/pages/PricingPage.tsx:98-156 | signed out redirects to sign-in and a free plan to practice before any checkout; checkout opens exactly for a signed-in user, a paid plan and a loaded script; the charged paise are 100 times the stored rupees, which are the plan's price; the order is named "<name> (<period>)" |
| Pricing.PlanCheckoutExamples | src/pages/PricingPage.tsx:128-139 | the Basic plan never reaches checkout; Elite charges 149900 paise for "Elite (for 1 year)" |
| Server.RoleSpec | server.ts:18 | the role is "admin" exactly for "admin@example.com", otherwise "user" |
| Server.DisplayNameSpec | server.ts:19 | the name is the email up to its first '@' (all of it without one); a missing or empty email gives "Test User" |
| Server.AuthenticateSpec | server.ts:16-26 | login and signup send the constant token and id, the email back, and the admin role exactly for the admin address; the admin is named "admin" |
| Server.NameBeforeAt | server.ts:19 | the name of `user@domain` is `user` |
| Server.AdminName | server.ts:19 | the admin account's name is "admin" |
| Server.QuestionsSpec | server.ts:28-34 | two questions with different ids, each answer one of its options, whatever the subject and topic |
| BottomNav.NavItemsSpec | src/components/layout/BottomNav.tsx:11-17 | five items; the last links to /profile when signed in and /auth otherwise |
| BottomNav.IsActiveSpec | src/components/layout/BottomNav.tsx:24 | Home is active on "/" only, every item on its own path, and non-root items on any raw string prefix ("/practice/maths", "/quizzes") |
| BottomNav.PrefixesDiffer | src/components/layout/BottomNav.tsx:12-16 | the non-root item paths differ in their first four characters |
| BottomNav.AtMostOneActive | src/components/layout/BottomNav.tsx:11-24 | no path activates two items at once |

## Left out

- Firestore, axios and Express I/O: fetched lists, query results and request bodies are parameters, and a failed fetch is `None`.
- The Razorpay SDK: loading the checkout script is the boolean `scriptLoaded`. Opening the dialog, the payment callback and the order write are not modelled. The order value is the record the callback would store.
- `setInterval`/`clearInterval` scheduling: only the body of one tick is modelled.
- The current time: `new Date()` is the parameter `now`. A `planExpiry` that does not parse as a date, and a numeric expiry of 0, are not modelled.
- KaTeX and HTML rendering, JSX, animation and styling.
  - LearnTopic.GenerateMockPages: its page bodies are abbreviated to the sentences that name the topic, and the HTML markup around them is left out.
- `normalizeStr`, `trim`, `toLowerCase` and `toUpperCase` work on ASCII only: `\s` is the six ASCII whitespace characters and letters are A–Z. Characters such as 'ß', which `toUpperCase` turns into two, are not modelled, so `LearnTopic.TitleCaseSpec`'s length and per-character claims hold only for such ASCII ids.
- PracticeSession.Accuracy: it uses exact rounding, floor(100·c/a + 1/2). `Math.round` on floating point could differ at ties.
- LearnTopic.SortByPage: it is an insertion sort, which is stable. Sort stability and the engine's own algorithm are not stated. The contract states only sortedness and permutation.
- LearnTopic.NormalizePage: a stored field whose value is `null` overrides the default in the source, because `...docData` copies it. In the model `null` and an absent field are both `None`, so the default applies to it.
- Decimal.NatToString: it is `Number.prototype.toString` only below 10^21, and numbers are exact only up to 2^53. Above that JavaScript uses exponent notation, so `QuizPage.FormatTimeRoundTrip` holds for every time in the model but not for such huge ones in the source.
- LearnTopic.SubjectName: JavaScript prototype keys that `subjectMap[...]` would also find are not modelled.
- QuizPage.FormatTime: it takes a `nat`. The timer never goes below 0, so negative inputs are not modelled.
- Quiz handlers that read `questions[currentIndex]` throw on a missing question. The model returns `ok == false` and leaves the state unchanged.
- PracticeSession.Session.JumpToQuestion: it requires an index of a loaded question, because only the palette's buttons call it.
- The practice page's result screen assumes every answer index has a loaded question (`AnswersInRange`).
- UI-only cells that have no bearing on the modelled logic: `showPalette`, `language`, `isProcessing`, `isPosting` and the report dialogs.
- The question-report submission, and the practice page's fallback re-fetch for an empty result. Both are I/O around `setQuestions`.
- The practice page's loading and empty-list screens.
- The practice page's `currentQuestion`/`selectedAnswer` reads (`isAnswered` is `AnsweredAt`).
- The form reset after an official post.
- The delete and edit Firestore calls of the admin tables. The concept table's bulk delete clears the selection the same way as the question table's (`src/pages/AdminPanel.tsx:721`); `ClearAfterDelete` stands for both.
- The reader's `setCurrentPage(1)` runs before the concept query answers. `SetPages` does both at once; they touch different cells.
- Record fields the modelled logic never reads (icons, colours, timestamps, likes, comments, views) are not modelled.
