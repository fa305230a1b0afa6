/** The transcript dialog of the dashboard (src/components/interviewer/CandidateDetailDialog.tsx). */
module DetailDialog {
  import opened Prelude
  import opened Types

  /** `answers.find(a => a.text === text)`, as an index. */
  function FirstAnswerWithText(answers: seq<Answer>, text: string): (r: Option<nat>)
    ensures r.None? <==> forall k :: 0 <= k < |answers| ==> answers[k].text != text
    ensures r.Some? ==> r.value < |answers| && answers[r.value].text == text
                        && forall k :: 0 <= k < r.value ==> answers[k].text != text
  {
    if |answers| == 0 then None
    else if answers[0].text == text then Some(0)
    else
      var r := FirstAnswerWithText(answers[1..], text);
      assert forall k :: 1 <= k < |answers| ==> answers[k] == answers[1..][k - 1];
      if r.Some? then Some(r.value + 1) else None
  }

  /** `answers.find(a => a.questionId === id)`, as an index. */
  function FirstAnswerWithId(answers: seq<Answer>, id: string): (r: Option<nat>)
    ensures r.None? <==> forall k :: 0 <= k < |answers| ==> answers[k].questionId != id
    ensures r.Some? ==> r.value < |answers| && answers[r.value].questionId == id
                        && forall k :: 0 <= k < r.value ==> answers[k].questionId != id
  {
    if |answers| == 0 then None
    else if answers[0].questionId == id then Some(0)
    else
      var r := FirstAnswerWithId(answers[1..], id);
      assert forall k :: 1 <= k < |answers| ==> answers[k] == answers[1..][k - 1];
      if r.Some? then Some(r.value + 1) else None
  }

  /** `questions.find(q => q.id === id)` finds something. */
  predicate HasQuestion(questions: seq<Question>, id: string) {
    exists k :: 0 <= k < |questions| && questions[k].id == id
  }

  /** The feedback line shown under a message. */
  datatype Shown = Shown(feedback: string, score: Option<int>)

  /** `i` is the first answer whose text is `text`. */
  predicate FirstWithText(answers: seq<Answer>, text: string, i: nat) {
    i < |answers| && answers[i].text == text && forall k :: 0 <= k < i ==> answers[k].text != text
  }

  /** `j` is the first answer for the question `id`. */
  predicate FirstWithId(answers: seq<Answer>, id: string, j: nat) {
    j < |answers| && answers[j].questionId == id && forall k :: 0 <= k < j ==> answers[k].questionId != id
  }

  /** An answer with feedback that JavaScript treats as truthy. */
  predicate HasFeedback(a: Answer) {
    a.feedback.Some? && a.feedback.value != []
  }

  /**
   * The message is from the candidate, `i` is the first answer with its text, that answer's
   * question exists, and `j` is the first answer for that question, which carries feedback.
   */
  predicate ShowsFrom(c: Candidate, m: Message, i: nat, j: nat) {
    && m.sender == User && FirstWithText(c.answers, m.text, i)
    && HasQuestion(c.questions, c.answers[i].questionId)
    && FirstWithId(c.answers, c.answers[i].questionId, j) && HasFeedback(c.answers[j])
  }

  /**
   * The feedback shown under a user message: the message is matched to the FIRST answer with the
   * same text; if that answer's question exists, the first answer for that question is shown,
   * provided its feedback is non-empty. AI messages never show feedback.
   */
  function FeedbackFor(c: Candidate, m: Message): (r: Option<Shown>)
    ensures m.sender == Ai ==> r.None?
    ensures r.Some? <==> exists i: nat, j: nat :: ShowsFrom(c, m, i, j)
    ensures forall i: nat, j: nat :: ShowsFrom(c, m, i, j) ==>
              r == Some(Shown(c.answers[j].feedback.value, c.answers[j].score))
  {
    if m.sender == Ai then None
    else
      match FirstAnswerWithText(c.answers, m.text)
      case None => None
      case Some(i) =>
        var qid := c.answers[i].questionId;
        if !HasQuestion(c.questions, qid) then None
        else
          match FirstAnswerWithId(c.answers, qid)
          case None => None
          case Some(j) =>
            var fb := c.answers[j];
            assert FirstWithText(c.answers, m.text, i) && FirstWithId(c.answers, qid, j);
            if HasFeedback(fb) then
              assert ShowsFrom(c, m, i, j);
              Some(Shown(fb.feedback.value, fb.score))
            else None
  }

  /**
   * For answers recorded in question order with distinct question ids, a user message shows the
   * feedback of the first answer with the same text; a later answer with that text, such as a
   * second "(No answer provided)", never shows its own.
   */
  lemma {:induction false} SameTextShowsFirstFeedback(c: Candidate, i: nat, k: nat, msgId: string, t: int)
    requires |c.answers| <= |c.questions| && DistinctIds(c.questions)
    requires forall n :: 0 <= n < |c.answers| ==> c.answers[n].questionId == c.questions[n].id
    requires i <= k < |c.answers| && c.answers[i].text == c.answers[k].text
    requires forall n :: 0 <= n < i ==> c.answers[n].text != c.answers[i].text
    requires c.answers[i].feedback.Some? && c.answers[i].feedback.value != []
    ensures FeedbackFor(c, Message(msgId, User, c.answers[k].text, t)) == Some(Shown(c.answers[i].feedback.value, c.answers[i].score))
  {
    var m := Message(msgId, User, c.answers[k].text, t);
    assert FirstAnswerWithText(c.answers, m.text) == Some(i);
    var qid := c.answers[i].questionId;
    assert HasQuestion(c.questions, qid) by {
      assert c.questions[i].id == qid;
    }
    assert FirstAnswerWithId(c.answers, qid) == Some(i) by {
      forall n | 0 <= n < i ensures c.answers[n].questionId != qid {
        assert c.questions[n].id != c.questions[i].id;
      }
    }
  }

  /** The summary shown, with a placeholder while the evaluation is pending. */
  function SummaryText(c: Candidate): (r: string)
    ensures r != []
    ensures c.summary != [] ==> r == c.summary
    ensures c.summary == [] ==> r == "AI summary is being generated."
  {
    if c.summary != [] then c.summary else "AI summary is being generated."
  }
}
