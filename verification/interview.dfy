/**
 * The interview transitions of the chat component (src/components/interview/InterviewChat.tsx):
 * answer submission, starting the interview, merging the final evaluation, and the clock display.
 * Message ids and timestamps, which the component draws from uuid and the clock, are inputs.
 */
module Interview {
  import opened Prelude
  import opened Types
  import opened Text
  import opened Store
  import opened Ai

  /** The AI message that closes the interview. */
  const ClosingText := "Thank you for completing the interview! I will now analyze your responses."

  /** What the AI message opening the interview puts before the first question. */
  const OpeningText := "Let's begin. Here is your first question:\n\n"

  /** The question to be answered next: the one at index `|answers|`, if there is one. */
  function CurrentQuestion(c: Candidate): (q: Option<Question>)
    ensures q.Some? <==> |c.answers| < |c.questions|
    ensures q.Some? ==> q.value == c.questions[|c.answers|]
  {
    if |c.answers| < |c.questions| then Some(c.questions[|c.answers|]) else None
  }

  /** Every question has an answer, and there was at least one question. */
  predicate IsInterviewOver(c: Candidate) {
    |c.answers| >= |c.questions| && |c.questions| > 0
  }

  /** The text recorded for an input: the trimmed input, or the placeholder when that is empty. */
  function AnswerText(input: string): (t: string)
    ensures t != []
    ensures IsBlank(input) ==> t == NoAnswerText
    ensures !IsBlank(input) ==> t == Trim(input) && Trimmed(t)
  {
    TrimEmptyIffBlank(input);
    var trimmed := Trim(input);
    if trimmed == [] then NoAnswerText else trimmed
  }

  /** `answers.find(a => a.questionId === id)` finds something. */
  predicate HasAnswerFor(answers: seq<Answer>, id: string) {
    exists k :: 0 <= k < |answers| && answers[k].questionId == id
  }

  /** The guard of the submission handler: a current question exists and has no answer yet. */
  predicate CanSubmit(c: Candidate) {
    |c.answers| < |c.questions| && !HasAnswerFor(c.answers, c.questions[|c.answers|].id)
  }

  /** The ids and times of the two messages a submission writes. */
  datatype Stamps = Stamps(userId: string, userTime: int, aiId: string, aiTime: int)

  /** The updates `handleSubmitAnswer` hands to the store, or `None` when it returns early. */
  function SubmitUpdates(c: Candidate, input: string, st: Stamps): (p: Option<Patch>)
    ensures p.None? <==> !CanSubmit(c)
    ensures p.Some? ==> && p.value.answers.Some? && p.value.messages.Some?
                        && p.value.(answers := None, messages := None, interviewState := None) == NoChange
  {
    if !CanSubmit(c) then None
    else
      var text := AnswerText(input);
      var nextAnswers := c.answers + [Answer(c.questions[|c.answers|].id, text, None, None)];
      var userMessage := Message(st.userId, User, text, st.userTime);
      if |nextAnswers| < |c.questions| then
        var aiMessage := Message(st.aiId, Ai, c.questions[|nextAnswers|].text, st.aiTime);
        Some(NoChange.(answers := Some(nextAnswers), messages := Some(c.messages + [userMessage, aiMessage])))
      else
        var aiMessage := Message(st.aiId, Ai, ClosingText, st.aiTime);
        Some(NoChange.(answers := Some(nextAnswers), messages := Some(c.messages + [userMessage, aiMessage]),
                       interviewState := Some(Completed)))
  }

  /**
   * The record after `handleSubmitAnswer`: either unchanged (no current question, or it already
   * has an answer), or with one answer for the current question and two messages appended, the
   * state becoming COMPLETED exactly when that was the last question.
   */
  function Submit(c: Candidate, input: string, st: Stamps): (c': Candidate)
    ensures !CanSubmit(c) ==> c' == c
    ensures CanSubmit(c) ==>
      && |c'.answers| == |c.answers| + 1
      && c'.answers[..|c.answers|] == c.answers
      && c'.answers[|c.answers|] == Answer(c.questions[|c.answers|].id, AnswerText(input), None, None)
      && |c'.messages| == |c.messages| + 2
      && c'.messages[..|c.messages|] == c.messages
      && c'.messages[|c.messages|] == Message(st.userId, User, AnswerText(input), st.userTime)
      && c'.messages[|c.messages| + 1].sender == Ai
      && (|c'.answers| < |c.questions| ==>
            c'.messages[|c.messages| + 1].text == c.questions[|c'.answers|].text && c'.interviewState == c.interviewState)
      && (|c'.answers| == |c.questions| ==>
            c'.messages[|c.messages| + 1].text == ClosingText && c'.interviewState == Completed)
      && c'.(answers := c.answers, messages := c.messages, interviewState := c.interviewState) == c
  {
    match SubmitUpdates(c, input, st)
    case None => c
    case Some(p) => Merge(c, p)
  }

  /** `handleSubmitAnswer` against the store, for the record stored under `id`. */
  function HandleSubmitAnswer(s: AppState, id: string, input: string, st: Stamps): (r: AppState)
    ensures id !in s.candidates ==> r == s
    ensures id in s.candidates ==> r == s.(candidates := s.candidates[id := Submit(s.candidates[id], input, st)])
  {
    if id !in s.candidates then s
    else
      match SubmitUpdates(s.candidates[id], input, st)
      case None => s
      case Some(p) => UpdateCandidate(s, id, p)
  }

  /** The handler never looks at the interview state: its updates are the same in every state. */
  lemma SubmitIgnoresState(c: Candidate, other: InterviewState, input: string, st: Stamps)
    ensures SubmitUpdates(c.(interviewState := other), input, st) == SubmitUpdates(c, input, st)
  {
  }

  /**
   * With two equal question ids, once the first of them is answered the guard keyed by id
   * rejects every later submission: the record can no longer change by submitting.
   */
  lemma {:induction false} DuplicateIdStalls(c: Candidate, j: nat, input: string, st: Stamps)
    requires j < |c.answers| < |c.questions|
    requires c.answers[j].questionId == c.questions[|c.answers|].id
    ensures Submit(c, input, st) == c
  {
    assert HasAnswerFor(c.answers, c.questions[|c.answers|].id);
  }

  // ----- starting the interview -----

  /** The AI message that opens the interview with the first question. */
  function OpeningMessage(qs: seq<Question>, msgId: string, now: int): Message
    requires |qs| > 0
  {
    Message(msgId, Ai, OpeningText + qs[0].text, now)
  }

  /**
   * The record after `handleStartInterview`: the generated questions (six, from the reply or the
   * fallback), the opening message appended, the state IN_PROGRESS; nothing else changes.
   */
  function StartInterview(c: Candidate, reply: Option<seq<QuestionItem>>, msgId: string, now: int): (c': Candidate)
    ensures |c'.questions| == QuestionCount
    ensures c'.questions == GenerateQuestions(reply)
    ensures c'.messages == c.messages + [Message(msgId, Ai, OpeningText + c'.questions[0].text, now)]
    ensures c'.interviewState == InProgress
    ensures c'.(questions := c.questions, messages := c.messages, interviewState := c.interviewState) == c
  {
    var qs := GenerateQuestions(reply);
    c.(questions := qs, messages := c.messages + [OpeningMessage(qs, msgId, now)], interviewState := InProgress)
  }

  /**
   * `handleStartInterview` against the store: three separate store updates (set the questions,
   * add the opening message, set the state) that together rewrite the record as `StartInterview` does.
   */
  function HandleStartInterview(s: AppState, id: string, reply: Option<seq<QuestionItem>>, msgId: string, now: int): (r: AppState)
    ensures id !in s.candidates ==> r == s
    ensures id in s.candidates ==> r == s.(candidates := s.candidates[id := StartInterview(s.candidates[id], reply, msgId, now)])
  {
    var qs := GenerateQuestions(reply);
    var s1 := SetQuestions(s, id, qs);
    var s2 := AddMessage(s1, id, OpeningMessage(qs, msgId, now));
    var r := UpdateCandidate(s2, id, NoChange.(interviewState := Some(InProgress)));
    StartThroughStore(s, id, reply, msgId, now);
    r
  }

  lemma StartThroughStore(s: AppState, id: string, reply: Option<seq<QuestionItem>>, msgId: string, now: int)
    ensures var qs := GenerateQuestions(reply);
            var s1 := SetQuestions(s, id, qs);
            var s2 := AddMessage(s1, id, OpeningMessage(qs, msgId, now));
            var r := UpdateCandidate(s2, id, NoChange.(interviewState := Some(InProgress)));
            && (id !in s.candidates ==> r == s)
            && (id in s.candidates ==> r == s.(candidates := s.candidates[id := StartInterview(s.candidates[id], reply, msgId, now)]))
  {
    var qs := GenerateQuestions(reply);
    StartStepsThroughStore(s, id, qs, OpeningMessage(qs, msgId, now));
  }

  /** Setting the questions, adding a message and setting IN_PROGRESS, one store update at a time. */
  lemma StartStepsThroughStore(s: AppState, id: string, qs: seq<Question>, m: Message)
    ensures var s1 := SetQuestions(s, id, qs);
            var s2 := AddMessage(s1, id, m);
            var r := UpdateCandidate(s2, id, NoChange.(interviewState := Some(InProgress)));
            && (id !in s.candidates ==> r == s)
            && (id in s.candidates ==>
                  var c := s.candidates[id];
                  r == s.(candidates := s.candidates[id := c.(questions := qs, messages := c.messages + [m], interviewState := InProgress)]))
  {
    var s1 := SetQuestions(s, id, qs);
    var s2 := AddMessage(s1, id, m);
    if id in s.candidates {
      var c := s.candidates[id];
      var c1 := c.(questions := qs);
      assert s1.candidates == s.candidates[id := c1];
      var c2 := c1.(messages := c1.messages + [m]);
      assert s2.candidates == s.candidates[id := c2];
      assert Merge(c2, NoChange.(interviewState := Some(InProgress))) == c2.(interviewState := InProgress);
    }
  }

  // ----- final evaluation -----

  /** The trigger of the evaluation effect. */
  predicate ShouldEvaluate(c: Candidate, analyzing: bool) {
    IsInterviewOver(c) && c.interviewState == Completed && c.summary == [] && !analyzing
  }

  /** `answerFeedback.find(f => f.questionId === id)`: the first entry for that question, if any. */
  function FindFeedback(fb: seq<Feedback>, id: string): (r: Option<Feedback>)
    ensures r.None? <==> forall k :: 0 <= k < |fb| ==> fb[k].questionId != id
    ensures r.Some? ==> exists k :: 0 <= k < |fb| && fb[k] == r.value && r.value.questionId == id
                                    && forall j :: 0 <= j < k ==> fb[j].questionId != id
  {
    if |fb| == 0 then None
    else if fb[0].questionId == id then Some(fb[0])
    else
      var r := FindFeedback(fb[1..], id);
      assert forall k :: 1 <= k < |fb| ==> fb[k] == fb[1..][k - 1];
      if r.Some? then
        var k :| 0 <= k < |fb[1..]| && fb[1..][k] == r.value && r.value.questionId == id
                 && forall j :: 0 <= j < k ==> fb[1..][j].questionId != id;
        assert fb[k + 1] == r.value;
        r
      else r
  }

  /** One answer with the score and feedback of its first matching entry; unmatched answers stay as they are. */
  function WithFeedback(a: Answer, fb: seq<Feedback>): Answer {
    match FindFeedback(fb, a.questionId)
    case None => a
    case Some(f) => a.(score := f.score, feedback := f.feedback)
  }

  /** The answers after the evaluation: same order, same length, same ids and texts. */
  function MergeFeedback(answers: seq<Answer>, fb: seq<Feedback>): (r: seq<Answer>)
    ensures |r| == |answers|
    ensures forall i :: 0 <= i < |answers| ==> r[i].questionId == answers[i].questionId && r[i].text == answers[i].text
    ensures forall i :: 0 <= i < |answers| && FindFeedback(fb, answers[i].questionId).None? ==> r[i] == answers[i]
    ensures forall i :: 0 <= i < |answers| && FindFeedback(fb, answers[i].questionId).Some? ==>
              && r[i].score == FindFeedback(fb, answers[i].questionId).value.score
              && r[i].feedback == FindFeedback(fb, answers[i].questionId).value.feedback
  {
    seq(|answers|, i requires 0 <= i < |answers| => WithFeedback(answers[i], fb))
  }

  /** The record after a successful evaluation: score, summary and per-answer feedback merged, nothing else touched. */
  function ApplyEvaluation(c: Candidate, ev: Evaluation): (c': Candidate)
    ensures c'.finalScore == ev.finalScore && c'.summary == ev.summary
    ensures c'.answers == MergeFeedback(c.answers, ev.answerFeedback)
    ensures c'.(finalScore := c.finalScore, summary := c.summary, answers := c.answers) == c
  {
    Merge(c, NoChange.(finalScore := Some(ev.finalScore), summary := Some(ev.summary),
                       answers := Some(MergeFeedback(c.answers, ev.answerFeedback))))
  }

  /** The evaluation step: when triggered, a successful result is merged and a failure leaves the record alone. */
  function Evaluate(c: Candidate, analyzing: bool, outcome: Result<Evaluation, string>): (c': Candidate)
    ensures !ShouldEvaluate(c, analyzing) || outcome.Err? ==> c' == c
    ensures ShouldEvaluate(c, analyzing) && outcome.Ok? ==> c' == ApplyEvaluation(c, outcome.value)
  {
    if ShouldEvaluate(c, analyzing) && outcome.Ok? then ApplyEvaluation(c, outcome.value) else c
  }

  /** A successful evaluation fills the summary, so the trigger never fires again for that record. */
  lemma EvaluationRunsOnce(c: Candidate, analyzing: bool, ev: Evaluation, analyzing': bool)
    requires ShouldEvaluate(c, analyzing)
    requires ev.summary != []
    ensures !ShouldEvaluate(Evaluate(c, analyzing, Ok(ev)), analyzing')
  {
  }

  /** A failed evaluation leaves the trigger armed: once the in-flight flag is cleared it fires again. */
  lemma EvaluationRetriesAfterFailure(c: Candidate, err: string)
    requires ShouldEvaluate(c, false)
    ensures Evaluate(c, false, Err(err)) == c
    ensures ShouldEvaluate(Evaluate(c, false, Err(err)), false)
  {
  }

  // ----- the clock display -----

  /** A nonzero multiple of a positive `b` is at least `b` away from zero. */
  lemma {:induction false} MultipleSign(b: int, n: int)
    requires b > 0
    ensures n >= 1 ==> b * n >= b
    ensures n <= -1 ==> b * n <= -b
    decreases if n < 0 then -n else n
  {
    if n > 1 {
      MultipleSign(b, n - 1);
      assert b * n == b * (n - 1) + b;
    } else if n < -1 {
      MultipleSign(b, n + 1);
      assert b * n == b * (n + 1) - b;
    }
  }

  /** A multiple of `b` leaves no remainder. */
  lemma MultipleHasNoRemainder(b: int, q: int)
    requires b > 0
    ensures (b * q) % b == 0
  {
    var x := b * q;
    var t := x / b;
    assert x == b * t + x % b;
    assert b * (q - t) == x % b;
    MultipleSign(b, q - t);
  }

  /** JavaScript's `%`, whose remainder takes the sign of the dividend. */
  function JsRem(a: int, b: int): (r: int)
    requires b > 0
    ensures a >= 0 ==> 0 <= r < b && r == a % b
    ensures a < 0 ==> -b < r <= 0
    ensures (a - r) % b == 0
  {
    if a >= 0 then
      MultipleHasNoRemainder(b, a / b);
      assert a - a % b == b * (a / b);
      a % b
    else
      MultipleHasNoRemainder(b, -((-a) / b));
      assert -a == b * ((-a) / b) + (-a) % b;
      assert a + (-a) % b == b * -((-a) / b);
      -((-a) % b)
  }

  /** `String(n)` for an integer. */
  function IntToString(n: int): string {
    if n < 0 then "-" + NatToString(-n) else NatToString(n)
  }

  /** `s.padStart(2, '0')`. */
  function PadStart2(s: string): (r: string)
    ensures |s| >= 2 ==> r == s
    ensures |s| < 2 ==> |r| == 2 && r[2 - |s|..] == s && forall k :: 0 <= k < 2 - |s| ==> r[k] == '0'
  {
    if |s| == 0 then "00" else if |s| == 1 then ['0'] + s else s
  }

  /** `Math.floor(t / 60) + ':' + (t % 60).toString().padStart(2, '0')`. */
  function FormatTime(t: int): string {
    IntToString(t / 60) + ":" + PadStart2(IntToString(JsRem(t, 60)))
  }

  predicate AllDigits(s: string) {
    forall k :: 0 <= k < |s| ==> '0' <= s[k] <= '9'
  }

  /** A number below 100 is written with at most two digits. */
  lemma SmallNatDigits(n: nat)
    requires n < 100
    ensures |NatToString(n)| <= 2
  {
    if n >= 10 {
      assert |NatToString(n / 10)| == 1;
    }
  }

  /** Padding a string of at most two digits to two keeps its value. */
  lemma PadKeepsValue(d: string)
    requires 1 <= |d| <= 2 && AllDigits(d)
    ensures |PadStart2(d)| == 2 && AllDigits(PadStart2(d))
    ensures DigitsValue(PadStart2(d)) == DigitsValue(d)
  {
    if |d| == 1 {
      var p := PadStart2(d);
      assert p == ['0'] + d;
      assert p[..1] == ['0'];
      assert p[..1][..0] == [];
    }
  }

  /**
   * `r` is a clock display of `t` seconds: digits for the minutes without a leading zero, a colon,
   * and two digits for the seconds within the minute.
   */
  predicate ReadsAsClock(r: string, t: nat) {
    var i := IndexOf(r, ':');
    && 1 <= i && |r| == i + 3
    && AllDigits(r[..i]) && AllDigits(r[i + 1..])
    && DigitsValue(r[..i]) * 60 + DigitsValue(r[i + 1..]) == t
    && DigitsValue(r[i + 1..]) < 60 && (i == 1 || r[0] != '0')
  }

  /** Minutes, a colon and two digits of seconds, assembled from parts that have the clock's properties. */
  lemma ClockFromParts(m: string, sec: string, t: nat)
    requires 1 <= |m| && AllDigits(m) && (|m| == 1 || m[0] != '0')
    requires |sec| == 2 && AllDigits(sec) && DigitsValue(sec) < 60
    requires DigitsValue(m) * 60 + DigitsValue(sec) == t
    ensures ReadsAsClock(m + ":" + sec, t)
  {
    var r := m + ":" + sec;
    assert ':' !in m;
    assert r[|m|] == ':' && r[..|m|] == m;
    IndexOfAt(r, ':', |m|);
    assert r[|m| + 1..] == sec;
  }

  /**
   * For the values the countdown takes (never negative), the display is minutes without a leading
   * zero, a colon and exactly two digits of seconds below 60, and reading it back gives the
   * number of seconds: whole minutes and the seconds within the minute.
   */
  lemma FormatTimeReadsBack(t: nat)
    ensures ReadsAsClock(FormatTime(t), t)
  {
    var m, sec := NatToString(t / 60), NatToString(t % 60);
    assert JsRem(t, 60) == t % 60;
    SmallNatDigits(t % 60);
    PadKeepsValue(sec);
    NatToStringRoundTrip(t / 60);
    NatToStringRoundTrip(t % 60);
    assert FormatTime(t) == m + ":" + PadStart2(sec);
    ClockFromParts(m, PadStart2(sec), t);
  }
}
