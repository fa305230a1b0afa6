/**
 * The pure logic around the generative-language oracle (src/lib/ai.ts). The oracle's reply and
 * `JSON.parse` are inputs: a reply that failed to arrive or to parse is `None`.
 */
module Ai {
  import opened Prelude
  import opened Types
  import opened Text

  /** How much of the resume is put in the question prompt and in the evaluation prompt. */
  const QuestionResumeLimit: nat := 3000
  const EvaluationResumeLimit: nat := 2000

  /** The number of questions of an interview. */
  const QuestionCount: nat := 6

  /** The placeholder for an answer that was empty or is missing. */
  const NoAnswerText := "(No answer provided)"

  /**
   * `resumeText.substring(0, limit)`: the part of the resume the oracle sees, at most `limit`
   * UTF-16 code units from the start.
   */
  function ResumeExcerpt(resumeText: string, limit: nat): (r: string)
    ensures StartsWith(resumeText, r) && Utf16Length(r) <= limit
    ensures |r| < |resumeText| ==> Utf16Length(r) + Utf16Width(resumeText[|r|]) > limit
    ensures Utf16Length(resumeText) <= limit ==> r == resumeText
  {
    Utf16Prefix(resumeText, limit)
  }

  /** What of the candidate the question prompt carries: the start of the resume. */
  function QuestionPromptResume(resumeText: string): (r: string)
    ensures StartsWith(resumeText, r) && Utf16Length(r) <= QuestionResumeLimit
    ensures |r| < |resumeText| ==> Utf16Length(r) + Utf16Width(resumeText[|r|]) > QuestionResumeLimit
    ensures Utf16Length(resumeText) <= QuestionResumeLimit ==> r == resumeText
  {
    ResumeExcerpt(resumeText, QuestionResumeLimit)
  }

  // ----- question generation -----

  /**
   * One element of the parsed question reply: `None` for an element that is not an object
   * (including `null`); a missing field reads as "" or 0, which JavaScript treats as falsy.
   */
  type QuestionItem = Option<Question>

  /** `q.id && q.text && q.difficulty && q.duration`. */
  predicate FieldsTruthy(q: Question) {
    q.id != [] && q.text != [] && q.difficulty != [] && q.duration != 0
  }

  predicate ItemAccepted(item: QuestionItem) {
    item.Some? && FieldsTruthy(item.value)
  }

  /** The shape check on the parsed reply: an array of exactly six objects with truthy fields. */
  predicate AcceptsQuestions(items: seq<QuestionItem>) {
    |items| == QuestionCount && forall i :: 0 <= i < |items| ==> ItemAccepted(items[i])
  }

  function Unwrap(items: seq<QuestionItem>): (qs: seq<Question>)
    requires forall i :: 0 <= i < |items| ==> items[i].Some?
    ensures |qs| == |items|
    ensures forall i :: 0 <= i < |items| ==> items[i] == Some(qs[i])
  {
    seq(|items|, i requires 0 <= i < |items| && items[i].Some? => items[i].value)
  }

  /** Wraps questions as reply items, the inverse of `Unwrap`. */
  function AsItems(qs: seq<Question>): (items: seq<QuestionItem>)
    ensures |items| == |qs|
    ensures forall i :: 0 <= i < |qs| ==> items[i] == Some(qs[i])
  {
    seq(|qs|, i requires 0 <= i < |qs| => Some(qs[i]))
  }

  /** The texts of the fallback questions. */
  const FallbackText1 := "What is the difference between `let` and `const` in JavaScript?"
  const FallbackText2 := "What are React hooks?"
  const FallbackText3 := "Explain the concept of the virtual DOM in React."
  const FallbackText4 := "What is middleware in the context of Node.js and Express?"
  const FallbackText5 := "Describe a time you had to optimize a slow React component. What steps did you take?"
  const FallbackText6 := "How would you handle authentication and authorization in a full-stack MERN application?"

  /** The fixed set used whenever the reply is unusable. */
  function FallbackQuestions(): (qs: seq<Question>)
    ensures |qs| == QuestionCount
  {
    [
      Question("fb-1", FallbackText1, "Easy", 20),
      Question("fb-2", FallbackText2, "Easy", 20),
      Question("fb-3", FallbackText3, "Medium", 60),
      Question("fb-4", FallbackText4, "Medium", 60),
      Question("fb-5", FallbackText5, "Hard", 120),
      Question("fb-6", FallbackText6, "Hard", 120)
    ]
  }

  /** The fallback set has pairwise distinct ids and passes the shape check it stands in for. */
  lemma FallbackWellFormed()
    ensures var qs := FallbackQuestions();
            && DistinctIds(qs)
            && AcceptsQuestions(AsItems(qs))
  {
    var qs := FallbackQuestions();
    forall i, j | 0 <= i < j < |qs| ensures qs[i].id != qs[j].id {
      assert qs[i].id[3] != qs[j].id[3];
    }
    assert forall i :: 0 <= i < |qs| ==> FieldsTruthy(qs[i]);
  }

  /** The fallback set is two Easy questions of 20 s, two Medium of 60 s and two Hard of 120 s, with ids fb-1 to fb-6. */
  lemma FallbackSplit()
    ensures var qs := FallbackQuestions();
            && QuestionIds(qs) == ["fb-1", "fb-2", "fb-3", "fb-4", "fb-5", "fb-6"]
            && (forall i :: 0 <= i < 2 ==> qs[i].difficulty == "Easy" && qs[i].duration == 20)
            && (forall i :: 2 <= i < 4 ==> qs[i].difficulty == "Medium" && qs[i].duration == 60)
            && (forall i :: 4 <= i < 6 ==> qs[i].difficulty == "Hard" && qs[i].duration == 120)
  {
    var qs := FallbackQuestions();
    var ids := QuestionIds(qs);
    assert ids == ["fb-1", "fb-2", "fb-3", "fb-4", "fb-5", "fb-6"];
  }

  /**
   * `generateInterviewQuestions` after the oracle answered: the parsed reply when it passes the
   * shape check, the fallback set otherwise. It never fails.
   */
  function GenerateQuestions(reply: Option<seq<QuestionItem>>): (qs: seq<Question>)
    ensures |qs| == QuestionCount
    ensures reply.Some? && AcceptsQuestions(reply.value) ==> AsItems(qs) == reply.value
    ensures !(reply.Some? && AcceptsQuestions(reply.value)) ==> qs == FallbackQuestions()
  {
    if reply.Some? && AcceptsQuestions(reply.value) then Unwrap(reply.value) else FallbackQuestions()
  }

  /** The whole of `generateInterviewQuestions`: `None` for a transport error, `parse` standing for `JSON.parse`. */
  function QuestionsFromReply(rawReply: Option<string>, parse: string -> Option<seq<QuestionItem>>): (qs: seq<Question>)
    ensures |qs| == QuestionCount
    ensures rawReply.None? ==> qs == FallbackQuestions()
    ensures rawReply.Some? && parse(rawReply.value).Some? && AcceptsQuestions(parse(rawReply.value).value) ==>
              AsItems(qs) == parse(rawReply.value).value
    ensures rawReply.Some? && !(parse(rawReply.value).Some? && AcceptsQuestions(parse(rawReply.value).value)) ==>
              qs == FallbackQuestions()
  {
    GenerateQuestions(if rawReply.Some? then parse(rawReply.value) else None)
  }

  /** Whatever the oracle replies, the questions handed out pass the shape check themselves. */
  lemma GeneratedQuestionsAccepted(reply: Option<seq<QuestionItem>>)
    ensures AcceptsQuestions(AsItems(GenerateQuestions(reply)))
  {
  }

  /**
   * The shape check does not look at ids, difficulty labels or the 2/2/2 split: six copies of one
   * question with an undeclared difficulty are handed out as they are.
   */
  lemma AcceptanceIgnoresIdsAndDifficulty()
    ensures var q := Question("q", "Why?", "Impossible", 5);
            var items := [Some(q), Some(q), Some(q), Some(q), Some(q), Some(q)];
            && GenerateQuestions(Some(items)) == [q, q, q, q, q, q]
            && GenerateQuestions(Some(items))[0].id == GenerateQuestions(Some(items))[1].id
            && !DeclaredDifficulty(GenerateQuestions(Some(items))[0].difficulty)
  {
    var q := Question("q", "Why?", "Impossible", 5);
    var items := [Some(q), Some(q), Some(q), Some(q), Some(q), Some(q)];
    assert AcceptsQuestions(items);
    var qs := GenerateQuestions(Some(items));
    assert AsItems(qs) == items;
    assert qs == [q, q, q, q, q, q];
  }

  /** A reply of five well-formed questions is replaced by the fallback set. */
  lemma FiveQuestionsFallBack(items: seq<QuestionItem>)
    requires |items| == 5
    ensures GenerateQuestions(Some(items)) == FallbackQuestions()
  {
  }

  // ----- evaluation -----

  /** The text of the answer at position `i`, or the placeholder when there is none. */
  function AnswerTextAt(answers: seq<Answer>, i: nat): string {
    if i < |answers| then answers[i].text else NoAnswerText
  }

  /** One transcript block: `Question <n> (<difficulty>): <text>\nAnswer: <answer>\n`. */
  function Block(n: nat, q: Question, answerText: string): string {
    "Question " + NatToString(n) + " (" + q.difficulty + "): " + q.text + "\nAnswer: " + answerText + "\n"
  }

  /** The transcript blocks: one per question, numbered from 1, each paired with the answer AT THE SAME POSITION. */
  function TranscriptBlocks(questions: seq<Question>, answers: seq<Answer>): (blocks: seq<string>)
    ensures |blocks| == |questions|
    ensures forall i :: 0 <= i < |questions| ==> blocks[i] == Block(i + 1, questions[i], AnswerTextAt(answers, i))
  {
    if |questions| == 0 then []
    else
      var n := |questions|;
      TranscriptBlocks(questions[..n - 1], answers) + [Block(n, questions[n - 1], AnswerTextAt(answers, n - 1))]
  }

  /** The interview transcript sent for evaluation: the blocks separated by blank lines. */
  function Transcript(c: Candidate): string {
    Join(TranscriptBlocks(c.questions, c.answers), "\n")
  }

  /** Pairing is by position: a block shows the answer at its index even when that answer names another question. */
  lemma TranscriptPairsByPosition(questions: seq<Question>, answers: seq<Answer>, i: nat)
    requires i < |questions| && i < |answers|
    ensures TranscriptBlocks(questions, answers)[i] == Block(i + 1, questions[i], answers[i].text)
  {
  }

  /** Adding a question adds one block, after a blank line, and leaves the earlier transcript as it was. */
  lemma {:induction false} TranscriptExtends(c: Candidate, q: Question)
    requires |c.questions| > 0
    ensures Transcript(c.(questions := c.questions + [q]))
         == Transcript(c) + "\n" + Block(|c.questions| + 1, q, AnswerTextAt(c.answers, |c.questions|))
  {
    var blocks := TranscriptBlocks(c.questions, c.answers);
    var blocks' := TranscriptBlocks(c.questions + [q], c.answers);
    assert blocks' == blocks + [Block(|c.questions| + 1, q, AnswerTextAt(c.answers, |c.questions|))];
    JoinSnoc(blocks, Block(|c.questions| + 1, q, AnswerTextAt(c.answers, |c.questions|)), "\n");
  }

  /** What of the candidate the evaluation prompt carries. */
  datatype EvaluationInput = EvaluationInput(resume: string, transcript: string)

  /** The start of the resume and the whole transcript, as they go into the evaluation prompt. */
  function EvaluationPromptInput(c: Candidate): (p: EvaluationInput)
    ensures StartsWith(c.resumeText, p.resume) && Utf16Length(p.resume) <= EvaluationResumeLimit
    ensures |p.resume| < |c.resumeText| ==> Utf16Length(p.resume) + Utf16Width(c.resumeText[|p.resume|]) > EvaluationResumeLimit
    ensures Utf16Length(c.resumeText) <= EvaluationResumeLimit ==> p.resume == c.resumeText
    ensures p.transcript == Transcript(c)
  {
    EvaluationInput(ResumeExcerpt(c.resumeText, EvaluationResumeLimit), Transcript(c))
  }

  /** The opening of a fenced JSON reply, and the fence itself. */
  const JsonFence := "```json"
  const Fence := "```"

  /** The first line break of `text` is at `i`. */
  predicate FirstNewlineAt(text: string, i: int) {
    0 <= i < |text| && text[i] == '\n' && '\n' !in text[..i]
  }

  /** The last fence of `text` starts at `j`. */
  predicate LastFenceAt(text: string, j: int) {
    OccursAt(text, Fence, j) && forall k :: j < k <= |text| ==> !OccursAt(text, Fence, k)
  }

  /** The first line break and the last fence are where `indexOf` and `lastIndexOf` find them. */
  lemma FenceCutPoints(text: string)
    ensures forall i :: FirstNewlineAt(text, i) ==> IndexOf(text, '\n') == i
    ensures forall j :: LastFenceAt(text, j) ==> LastIndexOf(text, Fence) == j
  {
    forall i | FirstNewlineAt(text, i) ensures IndexOf(text, '\n') == i {
      IndexOfAt(text, '\n', i);
    }
    forall j | LastFenceAt(text, j) ensures LastIndexOf(text, Fence) == j {
      LastIndexOfAt(text, Fence, j);
    }
  }

  /**
   * Strips a Markdown code fence from the evaluation reply: only a reply starting with "```json"
   * is touched, and it is cut to the text after its first line break and before its last fence,
   * then trimmed. When the last fence comes first, `substring` swaps the bounds.
   */
  function StripFences(text: string): (r: string)
    ensures !StartsWith(text, JsonFence) ==> r == text
    ensures StartsWith(text, JsonFence) ==> Trimmed(r) && exists i, j :: 0 <= i <= j <= |text| && r == Trim(text[i..j])
    ensures StartsWith(text, JsonFence) ==>
              forall i, j :: FirstNewlineAt(text, i) && LastFenceAt(text, j) ==>
                r == Trim(if i < j then text[i + 1..j] else text[j..i + 1])
    ensures StartsWith(text, JsonFence) && '\n' !in text ==>
              forall j :: LastFenceAt(text, j) ==> r == Trim(text[..j])
  {
    if StartsWith(text, JsonFence) then
      var lo, hi := IndexOf(text, '\n') + 1, LastIndexOf(text, Fence);
      var cut := Substring(text, lo, hi);
      FenceCutPoints(text);
      TrimIdempotent(cut);
      assert Trim(cut) == Trim(Trim(cut));
      Trim(cut)
    else text
  }

  /**
   * A fenced reply `"```json<header>\n<body>```<tail>"`, where no fence begins inside the closing
   * fence or the tail after it, is reduced to its trimmed body, whatever the body holds.
   */
  lemma StripFencesWrapped(header: string, body: string, tail: string)
    requires '\n' !in header
    requires forall k :: 0 < k <= |tail| ==> !OccursAt(Fence + tail, Fence, k)
    ensures StripFences(JsonFence + header + "\n" + body + Fence + tail) == Trim(body)
  {
    var text := JsonFence + header + "\n" + body + Fence + tail;
    var p := |JsonFence + header|;
    var f := p + 1 + |body|;
    assert text[..|JsonFence|] == JsonFence;
    assert text[..p] == JsonFence + header;
    assert '\n' !in JsonFence;
    assert text[p] == '\n';
    assert FirstNewlineAt(text, p);
    assert text[f..] == Fence + tail;
    assert OccursAt(text, Fence, f);
    forall k | f < k ensures OccursAt(text, Fence, k) <==> OccursAt(Fence + tail, Fence, k - f) {
      if k + |Fence| <= |text| {
        assert text[k..k + |Fence|] == (Fence + tail)[k - f..k - f + |Fence|];
      }
    }
    assert LastFenceAt(text, f);
    assert text[p + 1..f] == body;
  }

  /** A one-line fenced reply keeps its opening "```json": only the closing fence is cut off. */
  lemma StripFencesOneLine(body: string)
    requires '\n' !in body
    ensures StripFences(JsonFence + body + Fence) == Trim(JsonFence + body)
  {
    var text := JsonFence + body + Fence;
    assert text[..|JsonFence|] == JsonFence;
    assert '\n' !in JsonFence && '\n' !in Fence;
    assert '\n' !in text;
    assert text[|text| - 3..] == Fence;
    assert LastFenceAt(text, |text| - 3);
    assert text[..|text| - 3] == JsonFence + body;
  }

  /** A reply that opens a fence but never closes it is cut back to the opening "```json" line. */
  lemma StripFencesUnclosed(body: string)
    requires forall k :: 0 < k ==> !OccursAt(JsonFence + "\n" + body, Fence, k)
    ensures StripFences(JsonFence + "\n" + body) == JsonFence
  {
    var text := JsonFence + "\n" + body;
    assert text[..7] == JsonFence;
    assert '\n' !in JsonFence;
    IndexOfAt(text, '\n', 7);
    assert text[0..3] == Fence;
    LastIndexOfAt(text, Fence, 0);
    assert Substring(text, 8, 0) == text[..8] == "```json\n";
    TrimFenceLine();
  }

  lemma TrimFenceLine()
    ensures Trim("```json\n") == "```json"
  {
    var s := "```json\n";
    assert LeadingSpaces(s) == 0;
    assert TrailingSpaces(s[..7]) == 0;
    assert s[..7] == "```json";
    assert TrailingSpaces(s) == 1;
  }

  /** One entry of the per-answer feedback; `score` or `feedback` may be missing. */
  datatype Feedback = Feedback(questionId: string, score: Option<int>, feedback: Option<string>)

  /**
   * The parsed evaluation reply, as far as the shape check sees it: `finalScore` is `None` unless
   * it is a number, `summary` is "" when missing or empty, `answerFeedback` is `None` unless it is an array.
   */
  datatype EvalReply = EvalReply(finalScore: Option<int>, summary: string, answerFeedback: Option<seq<Feedback>>)

  /** An evaluation that passed the shape check. */
  datatype Evaluation = Evaluation(finalScore: int, summary: string, answerFeedback: seq<Feedback>)

  /** The single error every failure of the evaluation is reported as. */
  const EvaluationError := "The AI failed to generate a score. Please check the console for details."

  predicate AcceptsEvaluation(e: EvalReply) {
    e.finalScore.Some? && e.summary != [] && e.answerFeedback.Some?
  }

  /** The shape check on the parsed evaluation: accepted replies pass through, anything else is the fixed error. */
  function CheckEvaluation(reply: Option<EvalReply>): (r: Result<Evaluation, string>)
    ensures r.Ok? <==> reply.Some? && AcceptsEvaluation(reply.value)
    ensures r.Ok? ==> && r.value.finalScore == reply.value.finalScore.value
                      && r.value.summary == reply.value.summary && r.value.summary != []
                      && r.value.answerFeedback == reply.value.answerFeedback.value
    ensures r.Err? ==> r.error == EvaluationError
  {
    match reply
    case Some(EvalReply(Some(score), summary, Some(feedback))) =>
      if summary != [] then Ok(Evaluation(score, summary, feedback)) else Err(EvaluationError)
    case _ => Err(EvaluationError)
  }

  /** The whole of `generateFinalScoreAndSummary` after the request: strip fences, parse, check. */
  function EvaluationFromReply(rawReply: Option<string>, parse: string -> Option<EvalReply>): (r: Result<Evaluation, string>)
    ensures rawReply.None? ==> r == Err(EvaluationError)
    ensures r.Err? ==> r.error == EvaluationError
    ensures r.Ok? <==> rawReply.Some? && parse(StripFences(rawReply.value)).Some?
                       && AcceptsEvaluation(parse(StripFences(rawReply.value)).value)
    ensures r.Ok? ==> var e := parse(StripFences(rawReply.value)).value;
                      r.value == Evaluation(e.finalScore.value, e.summary, e.answerFeedback.value)
  {
    match rawReply
    case None => Err(EvaluationError)
    case Some(text) => CheckEvaluation(parse(StripFences(text)))
  }

  /** The final score is not range-checked: a negative score is accepted as it is. */
  lemma ScoreNotRangeChecked()
    ensures CheckEvaluation(Some(EvalReply(Some(-5), "ok", Some([])))) == Ok(Evaluation(-5, "ok", []))
  {
  }
}
