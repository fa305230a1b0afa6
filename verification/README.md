# AI interview assistant — a Dafny model of its core

The application screens a job candidate. The candidate uploads a resume. The candidate confirms
or completes their contact details. An AI oracle then asks six questions, one at a time. Each
question has a countdown. When every question is answered, the oracle scores the interview. An
interviewer's dashboard lists every candidate by score and shows each transcript.

This project models the logic behind those screens:

- the candidate store: the `zustand` store and its mutations;
- the interview transitions of the chat component:
  - submitting an answer;
  - starting the interview;
  - merging the evaluation;
  - the countdown;
- the upload handler and the start-over handler of the interviewee page;
- the contact-details form;
- the pure helpers around the oracle:
  - the prompt excerpts;
  - the shape checks on replies;
  - the fallback question set;
  - the transcript;
  - the removal of code fences;
- the dashboard's projections: the sorted list, the table cells and the transcript dialog.

Everything is immutable data and pure functions. A store action becomes a function from one
`AppState` to the next. An event handler becomes a function from a record and its inputs to the
new record. Values the source draws at run time are parameters:

- uuids;
- `Date.now()`;
- the oracle's raw reply;
- the `JSON.parse` result;
- the resume parser's outcome;
- the email validator.

Modules follow the source files:

| module | models |
|---|---|
| `Prelude` | `Option`, `Result` |
| `Text` | the JavaScript string operations the code relies on: `trim`, `indexOf`, `lastIndexOf`, `substring` (with its clamping and swapping), `replace` with a string pattern, `String(n)`, `join` |
| `Types` | `src/lib/types.ts` |
| `Store` | `src/store/useStore.ts` |
| `Ai` | `src/lib/ai.ts`, after the network call |
| `Interview` | `src/components/interview/InterviewChat.tsx`: the handlers and the evaluation effect |
| `Countdown` | the timer effect of the same component, as written and as evidently intended |
| `IntervieweeView` | `src/pages/IntervieweeView.tsx` |
| `ContactForm` | `src/components/interview/CollectInfoForm.tsx` |
| `Dashboard` | `src/pages/InterviewerDashboard.tsx` |
| `DetailDialog` | `src/components/interviewer/CandidateDetailDialog.tsx` |
| `Lifecycle` | the whole life of a record under every event the interviewee side can cause, and the invariant it keeps |

The central result is `Lifecycle.ReachableConsistent`. Start from a freshly uploaded resume and
apply any sequence of events:

- confirming the form;
- starting;
- answering;
- evaluating;
- starting over.

Then three things hold:

- the i-th answer is for the i-th question;
- there are never more answers than questions;
- the record is `COMPLETED` exactly when the last question has been answered.

The invariant behind it, `Lifecycle.Consistent`, also fixes the chat transcript. The AI asks
question i at message 2i. Answer i follows at message 2i + 1. The closing line comes last.

The gating of events follows what each screen renders:

- The contact form exists only in `COLLECTING_INFO`.
- The start button exists only in `READY_TO_START`.
- The submission handler checks no state at all. `Interview.SubmitIgnoresState` states this.
  The invariant holds anyway, because the handler's own guard refuses every state except
  `IN_PROGRESS`.

Repeated question ids are a real hazard, because the shape check on the oracle's reply does not
look at ids (`Ai.AcceptanceIgnoresIdsAndDifficulty`):

- `Lifecycle.DuplicateIdStallsForever`: an interview whose current question repeats an answered
  id never changes again, short of starting over.
- `Lifecycle.DistinctIdsComplete`: with distinct ids, one answer per question completes it.
- `Lifecycle.FallbackInterviewCompletes`: the fallback set always completes.

`generateInterviewQuestions` catches every failure and returns the fallback set of
`getFallbackQuestions`, so starting the interview always succeeds and always reaches
`IN_PROGRESS`. `Ai.GenerateQuestions` and `Interview.StartInterview` have no
failure path.

## Model

| member | source | states |
|---|---|---|
| Types.StateNameInjective | src/lib/types.ts:1-6 | the five state literals are pairwise different, so the state is recovered from its name |
| Store.Merge | src/store/useStore.ts:41 | `{ ...candidate, ...updates }`: each field is the patch's when the patch supplies it, else the record's |
| Store.MergeNoChange | src/store/useStore.ts:41 | spreading an empty partial record over a record leaves it unchanged |
| Store.MergeTwice | src/store/useStore.ts:41 | two successive spreads equal one spread where the later field wins |
| Store.AddCandidate | src/store/useStore.ts:30-33 | the record is stored under its own id, replacing any record there; every other record, the current id and the tab are unchanged; keys still match ids |
| Store.UpdateCandidate | src/store/useStore.ts:34-46 | an unknown id leaves the state as it is; otherwise only that record changes, to the merge of the patch; the key set is unchanged |
| Store.SetCurrentCandidateId | src/store/useStore.ts:47 | only the current id changes |
| Store.SetActiveTab | src/store/useStore.ts:48 | only the tab changes |
| Store.AddMessage | src/store/useStore.ts:49-64 | an unknown id changes nothing; otherwise the log grows by exactly the message, at the end, and nothing else in the store changes |
| Store.SetQuestions | src/store/useStore.ts:65-77 | the question list is replaced wholesale; an unknown id changes nothing; other records are untouched |
| Store.AddAnswer | src/store/useStore.ts:78-93 | an unknown id changes nothing; otherwise the answers grow by exactly the answer, at the end, and nothing else changes |
| Store.ResetRecord | src/store/useStore.ts:101-109 | the interview fields are cleared to their initial values; id, contact details, resume and creation time are kept |
| Store.ResetInterview | src/store/useStore.ts:94-115 | an unknown id changes nothing; a known one is reset and the current id is cleared; other records and the key set are unchanged |
| Store.ResetInterviewIdempotent | src/store/useStore.ts:94-115 | resetting twice equals resetting once |
| Store.ResetState | src/store/useStore.ts:116 | back to no candidates, no current id, the interviewee tab |
| Text.Utf16Length | src/lib/ai.ts:39 | a string's JavaScript length: one code unit per character of the Basic Multilingual Plane, two per character beyond it; between the character count and twice it |
| Text.Utf16LengthIsLengthIffBmp | src/lib/ai.ts:39 | the JavaScript length equals the character count exactly when every character lies in the Basic Multilingual Plane |
| Text.Utf16Prefix | src/lib/ai.ts:39 | `substring(0, limit)` on whole characters: a prefix of at most `limit` code units that the next character would overflow, and the whole string when it fits |
| Text.Utf16FitCountFits | src/lib/ai.ts:39 | the number of whole characters kept fits the limit, one more would not, and all are kept when the string fits |
| Text.Utf16PrefixOfBmp | src/lib/ai.ts:39 | within the Basic Multilingual Plane the cut is the plain prefix of length min(length, limit) |
| Text.Utf16PrefixOfAstral | src/lib/ai.ts:39 | a string of characters beyond the Basic Multilingual Plane keeps only half as many characters as the limit allows |
| Ai.ResumeExcerpt | src/lib/ai.ts:39 | the excerpt is a prefix of the resume of at most `limit` UTF-16 code units, the longest such on whole characters, and the whole resume when it fits |
| Ai.QuestionPromptResume | src/lib/ai.ts:39 | the question prompt carries a prefix of the resume of at most 3000 code units that the next character would overflow, and the whole resume when it fits |
| Ai.EvaluationPromptInput | src/lib/ai.ts:62-79 | the evaluation prompt carries a prefix of the resume of at most 2000 code units that the next character would overflow (the whole resume when it fits) and the whole transcript |
| Ai.FieldsTruthy | src/lib/ai.ts:50 | the four fields are truthy: non-empty id, text and difficulty, non-zero duration |
| Ai.AcceptsQuestions | src/lib/ai.ts:50 | the reply is an array of exactly six objects whose fields are all truthy |
| Ai.GenerateQuestions | src/lib/ai.ts:48-57 | always six questions: the reply's when it passes the shape check, else the fallback set |
| Ai.QuestionsFromReply | src/lib/ai.ts:43-58 | always six questions; a reply that parses and passes the shape check is returned as it is; a failed request, a parse failure or a failed check yields the fallback set |
| Ai.GeneratedQuestionsAccepted | src/lib/ai.ts:50-54 | whatever the oracle replies, the questions handed out pass the shape check |
| Ai.AcceptanceIgnoresIdsAndDifficulty | src/lib/ai.ts:50 | six copies of one question with an undeclared difficulty are accepted: ids may repeat and difficulty is unchecked |
| Ai.FiveQuestionsFallBack | src/lib/ai.ts:50 | a reply of any five items is replaced by the fallback set |
| Ai.FallbackQuestions | src/lib/ai.ts:122-131 | the fallback set has six questions with the source's texts |
| Ai.FallbackWellFormed | src/lib/ai.ts:122-131 | the fallback ids are pairwise distinct and the set passes the shape check it stands in for |
| Ai.FallbackSplit | src/lib/ai.ts:122-131 | ids fb-1 to fb-6; two Easy of 20 s, two Medium of 60 s, two Hard of 120 s |
| Ai.TranscriptBlocks | src/lib/ai.ts:62-65 | one block per question, numbered from 1, holding the answer at the same position or the placeholder |
| Ai.TranscriptPairsByPosition | src/lib/ai.ts:63-65 | a block shows the answer at its index, not the answer naming its question |
| Ai.TranscriptExtends | src/lib/ai.ts:62-66 | adding a question to a non-empty list appends one block after a blank line and leaves the earlier transcript intact |
| Ai.FenceCutPoints | src/lib/ai.ts:105 | `indexOf('\n')` finds the first line break and `lastIndexOf('```')` the last fence |
| Ai.StripFences | src/lib/ai.ts:104-106 | a reply not starting with the json fence is untouched; otherwise the result is the trimmed text between the first line break and the last fence, the two bounds swapped when the fence comes first; without a line break the text is cut from its start to the last fence, so a one-line fenced reply keeps its opening "```json" |
| Ai.StripFencesWrapped | src/lib/ai.ts:104-106 | a fenced reply is reduced to its trimmed body, whatever the body holds and whatever follows the closing fence, provided no later fence begins there |
| Ai.StripFencesOneLine | src/lib/ai.ts:104-106 | a fenced reply on one line loses only its closing fence: the opening "```json" stays in front of the body |
| Ai.StripFencesUnclosed | src/lib/ai.ts:104-106 | an unclosed fence makes the swapped substring bounds cut the reply back to the opening fence |
| Ai.TrimFenceLine | src/lib/ai.ts:105 | trimming the opening fence line drops only its line break |
| Ai.CheckEvaluation | src/lib/ai.ts:110-114 | accepted exactly when the score is a number, the summary is non-empty and the feedback is an array; accepted fields pass through unchanged; every rejection is the one fixed error |
| Ai.EvaluationFromReply | src/lib/ai.ts:98-118 | success exactly when the request succeeded, the stripped reply parsed and it passed the shape check, and then the parsed score, summary and feedback are returned; every failure is the one fixed error |
| Ai.ScoreNotRangeChecked | src/lib/ai.ts:110 | a negative final score is accepted as it is |
| Interview.CanSubmit | src/components/interview/InterviewChat.tsx:42 | a current question exists and no answer names its id |
| Interview.CurrentQuestion | src/components/interview/InterviewChat.tsx:31-32 | the current question exists exactly when answers are fewer than questions, and it is the question at the answer count |
| Interview.AnswerText | src/components/interview/InterviewChat.tsx:46 | a blank input records the placeholder; any other input records its trimmed text; never empty |
| Interview.SubmitUpdates | src/components/interview/InterviewChat.tsx:41-61 | no update exactly when there is no current question or it already has an answer; otherwise only answers, messages and possibly the state are supplied |
| Interview.Submit | src/components/interview/InterviewChat.tsx:41-67 | a refused submission leaves the record unchanged; an accepted one appends the answer for the current question and the user message, then the AI's next question or, after the last question, the closing line with COMPLETED; nothing else changes |
| Interview.HandleSubmitAnswer | src/components/interview/InterviewChat.tsx:41-67 | through the store, only the record under the id changes, exactly as the submission rewrites it |
| Interview.SubmitIgnoresState | src/components/interview/InterviewChat.tsx:42-61 | the handler's updates are the same in every interview state |
| Interview.DuplicateIdStalls | src/components/interview/InterviewChat.tsx:42 | when the current question repeats an answered id, submitting changes nothing |
| Interview.StartInterview | src/components/interview/InterviewChat.tsx:130-143 | six generated questions, the opening message with the first question appended, IN_PROGRESS; nothing else changes |
| Interview.HandleStartInterview | src/components/interview/InterviewChat.tsx:134-143 | the three store updates together rewrite only the record under the id, as the start does |
| Interview.StartThroughStore | src/components/interview/InterviewChat.tsx:135-143 | the intermediate store states after setting questions and adding the message |
| Interview.StartStepsThroughStore | src/components/interview/InterviewChat.tsx:135-143 | setting the questions, adding a message and setting IN_PROGRESS as three store updates changes only that record, in exactly those three fields |
| Interview.FindFeedback | src/components/interview/InterviewChat.tsx:109 | nothing is found exactly when no entry names the id; a result is an entry naming it |
| Interview.MergeFeedback | src/components/interview/InterviewChat.tsx:108-111 | same length; ids and texts kept; answers without feedback unchanged; the others take the entry's score and feedback |
| Interview.ApplyEvaluation | src/components/interview/InterviewChat.tsx:112-116 | score and summary replaced, answers merged, every other field kept |
| Interview.Evaluate | src/components/interview/InterviewChat.tsx:101-128 | no trigger or a failed evaluation leaves the record as it is; otherwise the evaluation is applied |
| Interview.ShouldEvaluate | src/components/interview/InterviewChat.tsx:102 | the evaluation effect fires when the interview is over, COMPLETED, without a summary and not already analysing |
| Interview.EvaluationRunsOnce | src/components/interview/InterviewChat.tsx:102 | a successful evaluation with a non-empty summary switches the trigger off |
| Interview.EvaluationRetriesAfterFailure | src/components/interview/InterviewChat.tsx:102-124 | after a failure the record is unchanged and the trigger still holds |
| Interview.JsRem | src/components/interview/InterviewChat.tsx:239 | the remainder truncates toward zero: within (-b, b), of the dividend's sign, and congruent to the dividend modulo b |
| Interview.PadStart2 | src/components/interview/InterviewChat.tsx:239 | strings of length two or more are kept; shorter ones are left-padded with zeros to length two |
| Interview.SmallNatDigits | src/components/interview/InterviewChat.tsx:239 | a remainder below 100 prints in at most two digits |
| Interview.PadKeepsValue | src/components/interview/InterviewChat.tsx:239 | padding keeps the value of the digits |
| Interview.FormatTime | src/components/interview/InterviewChat.tsx:239 | the clock text: whole minutes, a colon, the seconds padded to two digits |
| Interview.ClockFromParts | src/components/interview/InterviewChat.tsx:239 | minutes without a leading zero, a colon and two digits below 60 form a clock display of the time they add up to |
| Interview.FormatTimeReadsBack | src/components/interview/InterviewChat.tsx:239 | the clock text splits at its colon into minutes without a leading zero and a two-digit seconds field below 60, which read back to the time left |
| Countdown.Arm | src/components/interview/InterviewChat.tsx:77-81 | the countdown runs exactly when the interview is in progress with a current question, from that question's duration |
| Countdown.Settle | src/components/interview/InterviewChat.tsx:67-99 | after a submission attempt the record is the new one; a changed record clears the box and re-arms the countdown for it; an unchanged one keeps the text and stops the countdown |
| Countdown.TickStep | src/components/interview/InterviewChat.tsx:83-91 | a stopped countdown ignores ticks; above one second it counts down; at one second or less it submits the typed text |
| Countdown.TimeUpMatchesManualSend | src/components/interview/InterviewChat.tsx:83-159 | running out of time and sending by hand submit the same text with the same result |
| Countdown.StepAsWritten | src/components/interview/InterviewChat.tsx:41-99 | as written: an edit keeps the record and sets the typed text, and an edit to a different text re-arms the countdown at full duration; ticks and sends behave as in the corrected step |
| Countdown.RunAsWritten | src/components/interview/InterviewChat.tsx:41-99 | the as-written component under a list of events, taken in order |
| Countdown.RunsAgreeWithoutEdits | src/components/interview/InterviewChat.tsx:41-99 | without edits, the as-written run and the corrected run coincide |
| Countdown.EditRoundAsWritten | src/components/interview/InterviewChat.tsx:69-99 | as written, two edits and a tick re-arm the countdown and then take one second off it, leaving the record alone |
| Countdown.Step | src/components/interview/InterviewChat.tsx:71-99 | corrected: an edit changes only the typed text and leaves the countdown running |
| Countdown.AnswersNeverShrink | src/components/interview/InterviewChat.tsx:41-99 | for the corrected countdown: no tick, edit or send removes an answer |
| Countdown.AnswersNeverShrinkAsWritten | src/components/interview/InterviewChat.tsx:41-99 | as written: no tick, edit or send removes an answer |
| Countdown.RunKeepsAnswersBounded | src/components/interview/InterviewChat.tsx:41-99 | for the corrected countdown: answers never outnumber the questions, which no event changes |
| Countdown.RunAsWrittenKeepsAnswersBounded | src/components/interview/InterviewChat.tsx:41-99 | as written: answers never outnumber the questions, which no event changes |
| Countdown.AnsweredBeforeCountdownEnds | src/components/interview/InterviewChat.tsx:71-99 | corrected: an answerable question is answered within as many ticks as the countdown shows, whatever is typed meanwhile |
| Countdown.RunAsWrittenAppend | src/components/interview/InterviewChat.tsx:41-99 | running two event lists in turn is running their concatenation |
| Countdown.EditsDeferTimeoutAsWritten | src/components/interview/InterviewChat.tsx:69-99 | as written, a candidate who keeps editing is never timed out, however many ticks pass |
| Countdown.EditsDeferTimeoutExample | src/components/interview/InterviewChat.tsx:69-99 | a 2-second question survives 3 ticks unanswered as written, and is answered in the corrected model |
| IntervieweeView.AcceptedType | src/pages/IntervieweeView.tsx:23 | only the PDF and DOCX MIME types go on to parsing |
| IntervieweeView.OrEmpty | src/pages/IntervieweeView.tsx:36-38 | a missing or empty detail becomes the empty string; any other is kept |
| IntervieweeView.NewCandidate | src/pages/IntervieweeView.tsx:34-47 | the new record carries the id, resume text, time and details, and starts empty in AWAITING_RESUME |
| IntervieweeView.NextState | src/pages/IntervieweeView.tsx:52-53 | COLLECTING_INFO exactly when a detail is missing; READY_TO_START exactly when all three are present |
| IntervieweeView.Created | src/pages/IntervieweeView.tsx:34-55 | the stored record after an upload: the new record's fields, COLLECTING_INFO exactly when a detail is missing and READY_TO_START exactly when all are present |
| IntervieweeView.HandleFileChange | src/pages/IntervieweeView.tsx:19-55 | no file, a wrong type or a parse failure leave the store alone; otherwise the new record is stored, made current and advanced |
| IntervieweeView.CurrentCandidate | src/pages/IntervieweeView.tsx:98 | a current record exists exactly when the current id is non-empty and stored |
| IntervieweeView.RenderContent | src/pages/IntervieweeView.tsx:114-128 | the upload view without a current record or in AWAITING_RESUME; the form in COLLECTING_INFO; the chat in the three later states |
| IntervieweeView.HandleStartOver | src/pages/IntervieweeView.tsx:107-112 | without a current id nothing changes; otherwise that record is reset |
| IntervieweeView.UploadShowsNextView | src/pages/IntervieweeView.tsx:49-128 | after an upload the page shows the form when a detail is missing and the chat otherwise |
| IntervieweeView.StartOverShowsUpload | src/pages/IntervieweeView.tsx:107-117 | starting over returns the page to the upload view |
| ContactForm.ValidName | src/components/interview/CollectInfoForm.tsx:14 | a name passes with at least two UTF-16 code units |
| ContactForm.ValidPhone | src/components/interview/CollectInfoForm.tsx:16 | a phone number passes with at least ten UTF-16 code units |
| ContactForm.OneAstralCharacterName | src/components/interview/CollectInfoForm.tsx:14 | a single character beyond the Basic Multilingual Plane counts as two code units and passes as a name |
| ContactForm.BmpLengthsAreCharacters | src/components/interview/CollectInfoForm.tsx:14-16 | within the Basic Multilingual Plane the two length checks count characters |
| ContactForm.DefaultValues | src/components/interview/CollectInfoForm.tsx:30-34 | the form opens with the record's details |
| ContactForm.ConfirmRecord | src/components/interview/CollectInfoForm.tsx:37-41 | the submitted details replace the record's and the state becomes READY_TO_START; nothing else changes |
| ContactForm.OnSubmit | src/components/interview/CollectInfoForm.tsx:13-43 | values failing a check (lengths in UTF-16 code units) change nothing; valid ones confirm the record under the id |
| ContactForm.ConfirmDefaultsOnlyAdvances | src/components/interview/CollectInfoForm.tsx:30-41 | confirming the prefilled values unchanged only advances the state |
| Dashboard.InsertSorted | src/pages/InterviewerDashboard.tsx:14 | inserting into a list sorted by score, highest first, keeps it sorted |
| Dashboard.InsertPermutes | src/pages/InterviewerDashboard.tsx:14 | insertion adds exactly the one entry: the result is a permutation of the list plus the entry |
| Dashboard.InsertKeepsEntries | src/pages/InterviewerDashboard.tsx:14 | every entry still pairs a stored key with its score |
| Dashboard.KeysOfInsert | src/pages/InterviewerDashboard.tsx:14 | the keys gain exactly the inserted key |
| Dashboard.SortEntries | src/pages/InterviewerDashboard.tsx:14 | every key exactly once, each with its score, highest score first |
| Dashboard.CandidateList | src/pages/InterviewerDashboard.tsx:14 | every stored candidate appears exactly once, under its key, with scores non-increasing |
| Dashboard.ScoreLabel | src/pages/InterviewerDashboard.tsx:42 | N/A for a score of zero or less; otherwise digits without a leading zero that read back to the score, then " / 100" |
| Dashboard.NameLabel | src/pages/InterviewerDashboard.tsx:36 | a non-empty name is shown as it is; an empty one as N/A |
| Dashboard.StatusLabel | src/pages/InterviewerDashboard.tsx:39 | the state's name with its first underscore, and only that one, turned into a space |
| Dashboard.ReadyLabelKeepsSecondUnderscore | src/pages/InterviewerDashboard.tsx:39 | READY_TO_START is shown as "READY TO_START" |
| Dashboard.BadgeVariant | src/pages/InterviewerDashboard.tsx:38 | the default badge exactly for COMPLETED |
| Dashboard.Rows | src/pages/InterviewerDashboard.tsx:33-52 | the single "No candidates yet." row exactly when there are no candidates; otherwise one row per candidate, in order |
| DetailDialog.FirstAnswerWithText | src/components/interviewer/CandidateDetailDialog.tsx:54 | the first answer with the message's text, or none when no answer has it |
| DetailDialog.FirstAnswerWithId | src/components/interviewer/CandidateDetailDialog.tsx:56 | the first answer for the question, or none |
| DetailDialog.ShowsFrom | src/components/interviewer/CandidateDetailDialog.tsx:52-57 | a user message shows feedback through answer i, the first with its text, whose question exists, and answer j, the first for that question, which has feedback |
| DetailDialog.FeedbackFor | src/components/interviewer/CandidateDetailDialog.tsx:52-57 | AI messages show no feedback; feedback is shown exactly when such a pair i, j exists, and it is answer j's feedback and score |
| DetailDialog.SameTextShowsFirstFeedback | src/components/interviewer/CandidateDetailDialog.tsx:54-57 | two answers with the same text both show the first one's feedback |
| DetailDialog.SummaryText | src/components/interviewer/CandidateDetailDialog.tsx:37 | the summary when present, else "AI summary is being generated." |
| Lifecycle.CreatedConsistent | src/pages/IntervieweeView.tsx:34-55 | a freshly created record is consistent and not yet started |
| Lifecycle.SubmitShape | src/components/interview/InterviewChat.tsx:50-61 | an accepted submission appends one answer and two messages and keeps the questions |
| Lifecycle.SubmitKeepsAligned | src/components/interview/InterviewChat.tsx:42-50 | a submission keeps the i-th answer on the i-th question |
| Lifecycle.SubmitKeepsTranscript | src/components/interview/InterviewChat.tsx:48-61 | a submission keeps the question–answer alternation of the chat |
| Lifecycle.SubmitPreservesConsistent | src/components/interview/InterviewChat.tsx:41-67 | submitting keeps a record consistent |
| Lifecycle.EvaluatePreservesConsistent | src/components/interview/InterviewChat.tsx:101-128 | evaluating keeps a record consistent |
| Lifecycle.StartPreservesConsistent | src/components/interview/InterviewChat.tsx:130-143 | starting from READY_TO_START keeps a record consistent |
| Lifecycle.ApplyPreservesConsistent | src/components/interview/InterviewChat.tsx:41-159 | every event keeps a record consistent: the form's submission, the start button, an answer, the evaluation effect or starting over |
| Lifecycle.RunPreservesConsistent | src/components/interview/InterviewChat.tsx:41-159 | every sequence of events keeps a record consistent: the form's submission, the start button, an answer, the evaluation effect or starting over |
| Lifecycle.ReachableConsistent | src/components/interview/InterviewChat.tsx:31-67 | from a new upload: answer i is for question i, answers never outnumber questions, COMPLETED exactly when the last question is answered |
| Lifecycle.OnlyResetAwaits | src/store/useStore.ts:103 | only starting over moves a record back to AWAITING_RESUME |
| Lifecycle.NoResetNoAwaiting | src/store/useStore.ts:94-115 | without starting over, a record not awaiting a resume never awaits one again |
| Lifecycle.AwaitingMeansStartedOver | src/store/useStore.ts:94-115 | a reachable AWAITING_RESUME record has been started over |
| Lifecycle.DuplicateIdStallsForever | src/components/interview/InterviewChat.tsx:42 | once the current question repeats an answered id, no event short of starting over changes the record, so it never completes |
| Lifecycle.DistinctIdsAccept | src/components/interview/InterviewChat.tsx:42 | with distinct question ids and answers aligned to questions, every submission while a question remains is accepted |
| Lifecycle.SubmitAdvances | src/components/interview/InterviewChat.tsx:41-67 | with distinct question ids, a submission while a question remains records the answer for the next question, keeps the questions, and completes the interview on the last one |
| Lifecycle.DistinctIdsComplete | src/components/interview/InterviewChat.tsx:41-67 | with distinct question ids, one submission per remaining question completes the interview, in whatever state it started |
| Lifecycle.RunAppend | src/components/interview/InterviewChat.tsx:41-159 | running two event lists in turn is running their concatenation |
| Lifecycle.FallbackInterviewCompletes | src/lib/ai.ts:55-57 | after a failed question request, starting and six answers complete the interview |
| Lifecycle.StoreRecord | src/store/useStore.ts:34-46 | replacing one record by a consistent one keeps every record consistent |
| Lifecycle.InitialConsistent | src/store/useStore.ts:20-24 | the empty store is consistent |
| Lifecycle.FileChangeKeepsConsistent | src/pages/IntervieweeView.tsx:19-55 | an upload keeps every stored record consistent |
| Lifecycle.FormSubmitKeepsConsistent | src/components/interview/CollectInfoForm.tsx:37-43 | confirming the form keeps every stored record consistent |
| Lifecycle.StartKeepsConsistent | src/components/interview/InterviewChat.tsx:130-143 | starting keeps every stored record consistent |
| Lifecycle.SubmitAnswerKeepsConsistent | src/components/interview/InterviewChat.tsx:41-67 | submitting keeps every stored record consistent |
| Lifecycle.StartOverKeepsConsistent | src/pages/IntervieweeView.tsx:107-112 | starting over keeps every stored record consistent |

## Left out

- The oracle client, the network, the API key check and the prompt wording. The raw reply is an input: `None` stands for a failed request.
- `JSON.parse` is an input function. A parsed question reply is a list of optional questions, where `None` is an element that is not an object. A missing field reads as the empty string or 0.
- Truthy field values that are not strings or numbers cannot be represented. Fields are typed, so a JSON `true` in a question field is not modelled.
- The resume parser (`src/lib/resume-parser.ts`) is not part of this model. Its outcome is an input to the upload handler.
- The email syntax check of the validation library is an input predicate.
- uuids and `Date.now()` are parameters.
- Toasts, `console` output, loading spinners, scrolling and the welcome-back modal are not modelled.
- The progress bar's percentage is floating point and is not modelled.
- The date cell of the dashboard uses `date-fns` formatting and is not modelled.
- Persistence to `localStorage` is not modelled. `src/App.tsx` is not part of this model.
- Scheduling is reduced to discrete events: a tick, an edit, a send. The `isAnalyzing` flag and races between overlapping asynchronous calls are not modelled. The evaluation is applied as one atomic step.
- JavaScript numbers are unbounded integers. NaN, fractions and the 2^53 limit are not modelled.
- `Text.IsSpace` lists the Unicode white space of `String.prototype.trim` explicitly, by code point.
- Dashboard.CandidateList: the order among equal scores is not stated. The source's order there depends on the insertion order of `Object.values`, which the map does not keep.
- Ai.CheckEvaluation: the entries of `answerFeedback` are typed records. A `null` entry, which makes the source's `find` throw inside the effect, is not representable.
- Ai.ResumeExcerpt: when the cut falls between the two code units of a surrogate pair, JavaScript keeps the lone high surrogate. A Dafny character cannot hold half a pair, so the excerpt ends before that character.
- The fixed wording of the two prompts is not modelled. Only the parts that depend on the candidate are: the resume excerpts and the transcript.
- Lifecycle.ApplyPreservesConsistent: the contact form and the start button act only in the state in which the page renders them. Calling their handlers in other states, which no screen allows, is outside the invariant.

## Findings

| source | as written | input that shows it | evidently intended | confidence | as-written member | corrected member |
|---|---|---|---|---|---|---|
| src/components/interview/InterviewChat.tsx:41-99 | The submission handler is rebuilt whenever the typed answer changes (line 69). The timer effect depends on that handler (line 99). So every keystroke clears the interval and restarts the countdown at the question's full duration. | A question with a 2-second countdown and a candidate who types and clears a character before every tick: after 3 ticks nothing has been submitted, and it never will be while the typing continues. | The countdown runs once per question, whatever is typed, and submits when it reaches zero. | not executed | Countdown.EditsDeferTimeoutAsWritten | Countdown.AnsweredBeforeCountdownEnds |
