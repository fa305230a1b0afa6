/**
 * The life of one candidate record under everything the interviewee side can do to it: confirm
 * the contact form, start the interview, submit answers, receive the evaluation, start over.
 * The form and the start button are only on screen in COLLECTING_INFO and READY_TO_START
 * respectively, so those two events act only in those states; the submission handler and the
 * evaluation effect are applied as written, with no check of the state beyond their own.
 */
module Lifecycle {
  import opened Prelude
  import opened Types
  import opened Store
  import opened Ai
  import opened Interview
  import opened ContactForm
  import opened IntervieweeView

  datatype Event =
    | Confirmed(values: FormValues)
    | Started(reply: Option<seq<QuestionItem>>, msgId: string, now: int)
    | Submitted(input: string, stamps: Stamps)
    | Evaluated(outcome: Result<Evaluation, string>)
    | StartedOver

  /** One event applied to the record. */
  function Apply(c: Candidate, e: Event, isEmail: string -> bool): Candidate {
    match e
    case Confirmed(v) =>
      if c.interviewState == CollectingInfo && Valid(v, isEmail) then ConfirmRecord(c, v) else c
    case Started(reply, msgId, now) =>
      if c.interviewState == ReadyToStart then StartInterview(c, reply, msgId, now) else c
    case Submitted(input, st) => Submit(c, input, st)
    case Evaluated(outcome) => Evaluate(c, false, outcome)
    case StartedOver => ResetRecord(c)
  }

  /** The events applied in order. */
  function Run(c: Candidate, es: seq<Event>, isEmail: string -> bool): Candidate
    decreases |es|
  {
    if es == [] then c else Run(Apply(c, es[0], isEmail), es[1..], isEmail)
  }

  /** The states before the interview has started. */
  predicate PreStart(st: InterviewState) {
    st == AwaitingResume || st == CollectingInfo || st == ReadyToStart
  }

  /** The i-th answer belongs to the i-th question, and there are no more answers than questions. */
  predicate Aligned(c: Candidate) {
    && |c.answers| <= |c.questions|
    && forall i :: 0 <= i < |c.answers| ==> c.answers[i].questionId == c.questions[i].id
  }

  /** The text the AI posts before the i-th answer: the opening line with the first question, then each question. */
  function Prompt(qs: seq<Question>, i: nat): string
    requires i < |qs|
  {
    if i == 0 then OpeningText + qs[0].text else qs[i].text
  }

  /** The candidate's i-th answer is shown as the user message at position 2i + 1. */
  predicate AnswerShown(c: Candidate, i: nat)
    requires i < |c.answers| && 2 * i + 1 < |c.messages|
  {
    c.messages[2 * i + 1].sender == User && c.messages[2 * i + 1].text == c.answers[i].text
  }

  /** The AI asks the i-th question at position 2i. */
  predicate QuestionAsked(c: Candidate, i: nat)
    requires i < |c.questions| && 2 * i < |c.messages|
  {
    c.messages[2 * i].sender == Ai && c.messages[2 * i].text == Prompt(c.questions, i)
  }

  /** The closing line is the last message. */
  predicate ClosingShown(c: Candidate)
    requires |c.messages| > 0
  {
    c.messages[|c.messages| - 1].sender == Ai && c.messages[|c.messages| - 1].text == ClosingText
  }

  /**
   * The chat transcript of a started interview: the AI asks question i at position 2i, the
   * candidate's i-th answer follows at 2i + 1, and the closing line comes last once every
   * question has been answered.
   */
  predicate Transcribed(c: Candidate) {
    && |c.messages| == 1 + 2 * |c.answers|
    && (forall i: nat :: i < |c.answers| ==> AnswerShown(c, i))
    && (forall i: nat :: i <= |c.answers| && i < |c.questions| ==> QuestionAsked(c, i))
    && (|c.answers| == |c.questions| ==> ClosingShown(c))
  }

  /** What holds of every record the application can reach. */
  predicate Consistent(c: Candidate) {
    && Aligned(c)
    && (c.interviewState == Completed <==> |c.questions| > 0 && |c.answers| == |c.questions|)
    && (PreStart(c.interviewState) ==> c.questions == [] && c.answers == [] && c.messages == [])
    && (!PreStart(c.interviewState) ==> |c.questions| == QuestionCount && Transcribed(c))
  }

  lemma CreatedConsistent(id: string, text: string, d: Details, now: int)
    ensures Consistent(Created(id, text, d, now))
    ensures PreStart(Created(id, text, d, now).interviewState)
  {
  }

  /**
   * An accepted submission appends one answer and two messages, keeps the questions, and sets
   * COMPLETED exactly when the last question is answered.
   */
  lemma SubmitShape(c: Candidate, input: string, st: Stamps)
    requires CanSubmit(c)
    ensures var c' := Submit(c, input, st);
            var n := |c.answers| + 1;
            && c'.questions == c.questions
            && c'.answers == c.answers + [Answer(c.questions[n - 1].id, AnswerText(input), None, None)]
            && c'.messages == c.messages + [Message(st.userId, User, AnswerText(input), st.userTime),
                                            Message(st.aiId, Ai, if n < |c.questions| then c.questions[n].text else ClosingText, st.aiTime)]
            && c'.interviewState == if n < |c.questions| then c.interviewState else Completed
  {
    var c' := Submit(c, input, st);
    assert c'.answers == c'.answers[..|c.answers|] + [c'.answers[|c.answers|]];
    assert c'.messages == c'.messages[..|c.messages|] + [c'.messages[|c.messages|], c'.messages[|c.messages| + 1]];
  }

  /** The record an accepted submission leaves, spelled out. */
  function SubmittedRecord(c: Candidate, input: string, st: Stamps): (c': Candidate)
    requires CanSubmit(c)
    ensures c' == Submit(c, input, st)
  {
    SubmitShape(c, input, st);
    var n := |c.answers| + 1;
    var aiText := if n < |c.questions| then c.questions[n].text else ClosingText;
    c.(answers := c.answers + [Answer(c.questions[n - 1].id, AnswerText(input), None, None)],
       messages := c.messages + [Message(st.userId, User, AnswerText(input), st.userTime), Message(st.aiId, Ai, aiText, st.aiTime)],
       interviewState := if n < |c.questions| then c.interviewState else Completed)
  }

  lemma SubmitKeepsAligned(c: Candidate, c': Candidate, a: Answer)
    requires Aligned(c) && |c.answers| < |c.questions| && a.questionId == c.questions[|c.answers|].id
    requires c'.questions == c.questions && c'.answers == c.answers + [a]
    ensures Aligned(c')
  {
    forall i | 0 <= i < |c'.answers|
      ensures c'.answers[i].questionId == c'.questions[i].id
    {
      if i < |c.answers| { assert c'.answers[i] == c.answers[i]; }
    }
  }

  lemma SubmitKeepsTranscript(c: Candidate, c': Candidate, a: Answer, user: Message, ai: Message)
    requires Transcribed(c) && |c.answers| < |c.questions|
    requires c'.questions == c.questions && c'.answers == c.answers + [a] && c'.messages == c.messages + [user, ai]
    requires user.sender == User && user.text == a.text && ai.sender == Ai
    requires |c'.answers| < |c.questions| ==> ai.text == c.questions[|c'.answers|].text
    requires |c'.answers| == |c.questions| ==> ai.text == ClosingText
    ensures Transcribed(c')
  {
    var n := |c.answers|;
    forall i: nat | i < |c'.answers|
      ensures AnswerShown(c', i)
    {
      if i < n {
        assert AnswerShown(c, i);
        assert c'.messages[2 * i + 1] == c.messages[2 * i + 1];
        assert c'.answers[i] == c.answers[i];
      }
    }
    forall i: nat | i <= |c'.answers| && i < |c'.questions|
      ensures QuestionAsked(c', i)
    {
      if i <= n {
        assert QuestionAsked(c, i);
        assert c'.messages[2 * i] == c.messages[2 * i];
      }
    }
  }

  lemma SubmitPreservesConsistent(c: Candidate, input: string, st: Stamps)
    requires Consistent(c)
    ensures Consistent(Submit(c, input, st))
  {
    if CanSubmit(c) {
      assert c.interviewState == InProgress;
      var c' := SubmittedRecord(c, input, st);
      var n := |c.answers|;
      var a := c'.answers[n];
      assert c'.answers == c.answers + [a];
      SubmitKeepsAligned(c, c', a);
      SubmitKeepsTranscript(c, c', a, c'.messages[|c.messages|], c'.messages[|c.messages| + 1]);
    }
  }

  lemma EvaluatePreservesConsistent(c: Candidate, outcome: Result<Evaluation, string>)
    requires Consistent(c)
    ensures Consistent(Evaluate(c, false, outcome))
  {
    var c' := Evaluate(c, false, outcome);
    assert |c'.answers| == |c.answers|;
    assert forall i :: 0 <= i < |c.answers| ==> c'.answers[i].questionId == c.answers[i].questionId;
    assert forall i :: 0 <= i < |c.answers| ==> c'.answers[i].text == c.answers[i].text;
    if !PreStart(c.interviewState) {
      forall i: nat | i < |c'.answers| ensures AnswerShown(c', i) {
        assert AnswerShown(c, i);
      }
      forall i: nat | i <= |c'.answers| && i < |c'.questions| ensures QuestionAsked(c', i) {
        assert QuestionAsked(c, i);
      }
    }
  }

  lemma StartPreservesConsistent(c: Candidate, reply: Option<seq<QuestionItem>>, msgId: string, now: int)
    requires Consistent(c) && c.interviewState == ReadyToStart
    ensures Consistent(StartInterview(c, reply, msgId, now))
  {
    var c' := StartInterview(c, reply, msgId, now);
    assert c'.answers == [] && |c'.messages| == 1;
  }

  /** Every event keeps a record consistent. */
  lemma ApplyPreservesConsistent(c: Candidate, e: Event, isEmail: string -> bool)
    requires Consistent(c)
    ensures Consistent(Apply(c, e, isEmail))
  {
    match e
    case Confirmed(v) =>
    case Started(reply, msgId, now) =>
      if c.interviewState == ReadyToStart { StartPreservesConsistent(c, reply, msgId, now); }
    case Submitted(input, st) => SubmitPreservesConsistent(c, input, st);
    case Evaluated(outcome) => EvaluatePreservesConsistent(c, outcome);
    case StartedOver =>
  }

  lemma {:induction false} RunPreservesConsistent(c: Candidate, es: seq<Event>, isEmail: string -> bool)
    requires Consistent(c)
    ensures Consistent(Run(c, es, isEmail))
    decreases |es|
  {
    if es != [] {
      ApplyPreservesConsistent(c, es[0], isEmail);
      RunPreservesConsistent(Apply(c, es[0], isEmail), es[1..], isEmail);
    }
  }

  /**
   * From a freshly uploaded resume, whatever happens next: the i-th answer is for the i-th
   * question, there are never more answers than questions, and the record is COMPLETED exactly
   * when the last question has been answered.
   */
  lemma ReachableConsistent(id: string, text: string, d: Details, now: int, es: seq<Event>, isEmail: string -> bool)
    ensures var c := Run(Created(id, text, d, now), es, isEmail);
            && |c.answers| <= |c.questions|
            && (forall i :: 0 <= i < |c.answers| ==> c.answers[i].questionId == c.questions[i].id)
            && (c.interviewState == Completed <==> |c.questions| > 0 && |c.answers| == |c.questions|)
  {
    CreatedConsistent(id, text, d, now);
    RunPreservesConsistent(Created(id, text, d, now), es, isEmail);
  }

  /** The record only returns to AWAITING_RESUME by starting over. */
  lemma OnlyResetAwaits(c: Candidate, e: Event, isEmail: string -> bool)
    requires c.interviewState != AwaitingResume
    requires Apply(c, e, isEmail).interviewState == AwaitingResume
    ensures e.StartedOver?
  {
  }

  lemma {:induction false} AwaitingMeansStartedOver(id: string, text: string, d: Details, now: int, es: seq<Event>, isEmail: string -> bool)
    requires Run(Created(id, text, d, now), es, isEmail).interviewState == AwaitingResume
    ensures exists k :: 0 <= k < |es| && es[k].StartedOver?
  {
    var c := Created(id, text, d, now);
    if forall k :: 0 <= k < |es| ==> !es[k].StartedOver? {
      NoResetNoAwaiting(c, es, isEmail);
      assert false;
    }
  }

  lemma {:induction false} NoResetNoAwaiting(c: Candidate, es: seq<Event>, isEmail: string -> bool)
    requires c.interviewState != AwaitingResume
    requires forall k :: 0 <= k < |es| ==> !es[k].StartedOver?
    ensures Run(c, es, isEmail).interviewState != AwaitingResume
    decreases |es|
  {
    if es != [] {
      var c1 := Apply(c, es[0], isEmail);
      if c1.interviewState == AwaitingResume { OnlyResetAwaits(c, es[0], isEmail); }
      NoResetNoAwaiting(c1, es[1..], isEmail);
    }
  }

  /**
   * Once the current question repeats the id of an answered one, the interview is stuck: no
   * event short of starting over changes the record again, so it never reaches COMPLETED.
   */
  lemma {:induction false} DuplicateIdStallsForever(c: Candidate, j: nat, es: seq<Event>, isEmail: string -> bool)
    requires Consistent(c)
    requires j < |c.answers| < |c.questions|
    requires c.answers[j].questionId == c.questions[|c.answers|].id
    requires forall k :: 0 <= k < |es| ==> !es[k].StartedOver?
    ensures Run(c, es, isEmail) == c
    ensures Run(c, es, isEmail).interviewState != Completed
    decreases |es|
  {
    if es != [] {
      assert c.interviewState == InProgress;
      assert Apply(c, es[0], isEmail) == c by {
        match es[0]
        case Submitted(input, st) => DuplicateIdStalls(c, j, input, st);
        case Evaluated(outcome) =>
        case Confirmed(v) =>
        case Started(reply, msgId, now) =>
      }
      DuplicateIdStallsForever(c, j, es[1..], isEmail);
    }
  }

  /** The submissions, one per remaining question, as events. */
  function Submissions(inputs: seq<string>, st: Stamps): (es: seq<Event>)
    ensures |es| == |inputs|
    ensures forall k :: 0 <= k < |es| ==> es[k] == Submitted(inputs[k], st)
  {
    seq(|inputs|, k requires 0 <= k < |inputs| => Submitted(inputs[k], st))
  }

  /** With distinct question ids, every submission in progress records an answer. */
  lemma DistinctIdsAccept(c: Candidate)
    requires Aligned(c) && DistinctIds(c.questions)
    requires |c.answers| < |c.questions|
    ensures CanSubmit(c)
  {
    forall k | 0 <= k < |c.answers|
      ensures c.answers[k].questionId != c.questions[|c.answers|].id
    {
      assert c.answers[k].questionId == c.questions[k].id;
    }
  }

  /** Running a list of submissions is one submission followed by the rest. */
  lemma RunSubmissionsStep(c: Candidate, inputs: seq<string>, st: Stamps, isEmail: string -> bool)
    requires |inputs| > 0
    ensures Run(c, Submissions(inputs, st), isEmail) == Run(Submit(c, inputs[0], st), Submissions(inputs[1..], st), isEmail)
  {
    var es := Submissions(inputs, st);
    assert es[1..] == Submissions(inputs[1..], st);
  }

  /** With distinct question ids, a submission while a question remains records the next answer. */
  lemma SubmitAdvances(c: Candidate, input: string, st: Stamps)
    requires Aligned(c) && DistinctIds(c.questions) && |c.answers| < |c.questions|
    ensures var c1 := Submit(c, input, st);
            && Aligned(c1) && c1.questions == c.questions && |c1.answers| == |c.answers| + 1
            && (|c1.answers| == |c.questions| ==> c1.interviewState == Completed)
  {
    DistinctIdsAccept(c);
    var c1 := SubmittedRecord(c, input, st);
    var a := c1.answers[|c.answers|];
    assert c1.answers == c.answers + [a];
    SubmitKeepsAligned(c, c1, a);
  }

  /**
   * With distinct question ids, one submission per remaining question completes the interview.
   * Submission does not look at the state, so this holds whatever state the record is in.
   */
  lemma {:induction false} DistinctIdsComplete(c: Candidate, inputs: seq<string>, st: Stamps, isEmail: string -> bool)
    requires Aligned(c) && DistinctIds(c.questions)
    requires 0 < |inputs| == |c.questions| - |c.answers|
    ensures Run(c, Submissions(inputs, st), isEmail).interviewState == Completed
    ensures |Run(c, Submissions(inputs, st), isEmail).answers| == |c.questions|
    decreases |inputs|
  {
    var c1 := Submit(c, inputs[0], st);
    SubmitAdvances(c, inputs[0], st);
    RunSubmissionsStep(c, inputs, st, isEmail);
    if |inputs| > 1 {
      DistinctIdsComplete(c1, inputs[1..], st, isEmail);
    } else {
      assert Submissions(inputs[1..], st) == [];
    }
  }

  lemma {:induction false} RunAppend(c: Candidate, a: seq<Event>, b: seq<Event>, isEmail: string -> bool)
    ensures Run(c, a + b, isEmail) == Run(Run(c, a, isEmail), b, isEmail)
    decreases |a|
  {
    if a == [] {
      assert a + b == b;
    } else {
      assert (a + b)[1..] == a[1..] + b;
      RunAppend(Apply(c, a[0], isEmail), a[1..], b, isEmail);
    }
  }

  /**
   * When question generation falls back, starting and then sending six answers, whatever their
   * text, completes the interview: the fallback ids are distinct, so no submission is refused.
   */
  lemma FallbackInterviewCompletes(c: Candidate, msgId: string, now: int, inputs: seq<string>, st: Stamps, isEmail: string -> bool)
    requires Consistent(c) && c.interviewState == ReadyToStart
    requires |inputs| == QuestionCount
    ensures Run(c, [Started(None, msgId, now)] + Submissions(inputs, st), isEmail).interviewState == Completed
  {
    var e := Started(None, msgId, now);
    var c1 := Apply(c, e, isEmail);
    StartPreservesConsistent(c, None, msgId, now);
    FallbackWellFormed();
    assert Run(c, [e], isEmail) == c1;
    RunAppend(c, [e], Submissions(inputs, st), isEmail);
    DistinctIdsComplete(c1, inputs, st, isEmail);
  }

  // ----- the store -----

  /** Every stored record is consistent. */
  predicate AllConsistent(s: AppState) {
    forall k :: k in s.candidates ==> Consistent(s.candidates[k])
  }

  /** Replacing one record by a consistent one keeps the store consistent. */
  lemma StoreRecord(s: AppState, s': AppState, id: string, c: Candidate)
    requires AllConsistent(s) && Consistent(c)
    requires s'.candidates == s.candidates[id := c]
    ensures AllConsistent(s')
  {
  }

  lemma InitialConsistent()
    ensures AllConsistent(InitialState)
  {
  }

  lemma FileChangeKeepsConsistent(s: AppState, file: Option<Upload>, id: string, now: int)
    requires AllConsistent(s)
    ensures AllConsistent(HandleFileChange(s, file, id, now))
  {
    if file.Some? && AcceptedType(file.value.mimeType) && file.value.outcome.Parsed? {
      var u := file.value.outcome;
      CreatedConsistent(id, u.text, u.details, now);
      StoreRecord(s, HandleFileChange(s, file, id, now), id, Created(id, u.text, u.details, now));
    }
  }

  /** The form is only on screen while the record is collecting its details. */
  lemma FormSubmitKeepsConsistent(s: AppState, id: string, v: FormValues, isEmail: string -> bool)
    requires AllConsistent(s)
    requires id in s.candidates ==> s.candidates[id].interviewState == CollectingInfo
    ensures AllConsistent(OnSubmit(s, id, v, isEmail))
  {
    if Valid(v, isEmail) && id in s.candidates {
      var e := Confirmed(v);
      ApplyPreservesConsistent(s.candidates[id], e, isEmail);
      StoreRecord(s, OnSubmit(s, id, v, isEmail), id, Apply(s.candidates[id], e, isEmail));
    }
  }

  /** The start button is only on screen while the record is ready to start. */
  lemma StartKeepsConsistent(s: AppState, id: string, reply: Option<seq<QuestionItem>>, msgId: string, now: int)
    requires AllConsistent(s)
    requires id in s.candidates ==> s.candidates[id].interviewState == ReadyToStart
    ensures AllConsistent(HandleStartInterview(s, id, reply, msgId, now))
  {
    if id in s.candidates {
      StartPreservesConsistent(s.candidates[id], reply, msgId, now);
      StoreRecord(s, HandleStartInterview(s, id, reply, msgId, now), id, StartInterview(s.candidates[id], reply, msgId, now));
    }
  }

  lemma SubmitAnswerKeepsConsistent(s: AppState, id: string, input: string, st: Stamps)
    requires AllConsistent(s)
    ensures AllConsistent(HandleSubmitAnswer(s, id, input, st))
  {
    if id in s.candidates {
      SubmitPreservesConsistent(s.candidates[id], input, st);
      StoreRecord(s, HandleSubmitAnswer(s, id, input, st), id, Submit(s.candidates[id], input, st));
    }
  }

  lemma StartOverKeepsConsistent(s: AppState)
    requires AllConsistent(s)
    ensures AllConsistent(HandleStartOver(s))
  {
    if Truthy(s.currentCandidateId) && s.currentCandidateId.value in s.candidates {
      var id := s.currentCandidateId.value;
      var r := HandleStartOver(s);
      assert r.candidates == s.candidates[id := ResetRecord(s.candidates[id])];
    }
  }
}
