/** The record types of the interview assistant (src/lib/types.ts). */
module Types {
  import opened Prelude

  /** The five stages of one candidate's interview. */
  datatype InterviewState = AwaitingResume | CollectingInfo | ReadyToStart | InProgress | Completed

  /** The string literal the application uses for each stage. */
  function StateName(st: InterviewState): string {
    match st
    case AwaitingResume => "AWAITING_RESUME"
    case CollectingInfo => "COLLECTING_INFO"
    case ReadyToStart => "READY_TO_START"
    case InProgress => "IN_PROGRESS"
    case Completed => "COMPLETED"
  }

  /** Distinct stages carry distinct names, so a stage is recovered from its name. */
  lemma StateNameInjective(a: InterviewState, b: InterviewState)
    ensures StateName(a) == StateName(b) <==> a == b
  {
    if a != b {
      assert StateName(a)[0] != StateName(b)[0] || StateName(a)[2] != StateName(b)[2];
    }
  }

  /** Who wrote a chat message. */
  datatype Sender = Ai | User

  datatype Message = Message(id: string, sender: Sender, text: string, timestamp: int)

  /**
   * A question. Its difficulty is declared as one of "Easy", "Medium" or "Hard", but it is
   * copied unchecked from the oracle's reply, so the model keeps the string it carries.
   */
  datatype Question = Question(id: string, text: string, difficulty: string, duration: int)

  /** The three difficulty labels the record type declares. */
  predicate DeclaredDifficulty(d: string) {
    d == "Easy" || d == "Medium" || d == "Hard"
  }

  /** An answer; `score` and `feedback` stay absent until the final evaluation fills them in. */
  datatype Answer = Answer(questionId: string, text: string, score: Option<int>, feedback: Option<string>)

  datatype Candidate = Candidate(
    id: string,
    name: string,
    email: string,
    phone: string,
    resumeText: string,
    interviewState: InterviewState,
    messages: seq<Message>,
    questions: seq<Question>,
    answers: seq<Answer>,
    finalScore: int,
    summary: string,
    createdAt: int)

  /** Question ids that are pairwise different. */
  predicate DistinctIds(qs: seq<Question>) {
    forall i, j :: 0 <= i < j < |qs| ==> qs[i].id != qs[j].id
  }

  /** The ids of a list of questions, in order. */
  function QuestionIds(questions: seq<Question>): (ids: seq<string>)
    ensures |ids| == |questions|
    ensures forall i :: 0 <= i < |questions| ==> ids[i] == questions[i].id
  {
    if |questions| == 0 then [] else QuestionIds(questions[..|questions| - 1]) + [questions[|questions| - 1].id]
  }
}
