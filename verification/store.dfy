/** The candidate store (src/store/useStore.ts): every mutation is a pure function of the state. */
module Store {
  import opened Prelude
  import opened Types

  /** The two top-level views. */
  datatype Tab = IntervieweeTab | InterviewerTab

  datatype AppState = AppState(
    candidates: map<string, Candidate>,
    currentCandidateId: Option<string>,
    activeTab: Tab)

  /** The state the store starts from and `resetState` returns to. */
  const InitialState := AppState(map[], None, IntervieweeTab)

  /**
   * A `Partial<Candidate>`: each field is either supplied (`Some`) or left out (`None`).
   */
  datatype Patch = Patch(
    id: Option<string>,
    name: Option<string>,
    email: Option<string>,
    phone: Option<string>,
    resumeText: Option<string>,
    interviewState: Option<InterviewState>,
    messages: Option<seq<Message>>,
    questions: Option<seq<Question>>,
    answers: Option<seq<Answer>>,
    finalScore: Option<int>,
    summary: Option<string>,
    createdAt: Option<int>)

  /** The patch that supplies no field. */
  const NoChange := Patch(None, None, None, None, None, None, None, None, None, None, None, None)

  function Pick<T>(o: Option<T>, old_: T): T {
    match o
    case Some(v) => v
    case None => old_
  }

  /** `{ ...c, ...p }`: the supplied fields of `p` win, every other field keeps its value in `c`. */
  function Merge(c: Candidate, p: Patch): Candidate {
    Candidate(
      Pick(p.id, c.id), Pick(p.name, c.name), Pick(p.email, c.email), Pick(p.phone, c.phone),
      Pick(p.resumeText, c.resumeText), Pick(p.interviewState, c.interviewState),
      Pick(p.messages, c.messages), Pick(p.questions, c.questions), Pick(p.answers, c.answers),
      Pick(p.finalScore, c.finalScore), Pick(p.summary, c.summary), Pick(p.createdAt, c.createdAt))
  }

  /** Merging a patch that supplies nothing leaves the record as it was. */
  lemma MergeNoChange(c: Candidate)
    ensures Merge(c, NoChange) == c
  {
  }

  /** Merging is right-biased: merging `p` and then `q` is merging `q` over `p` at once. */
  lemma MergeTwice(c: Candidate, p: Patch, q: Patch)
    ensures Merge(Merge(c, p), q) == Merge(c, Patch(
      if q.id.Some? then q.id else p.id, if q.name.Some? then q.name else p.name,
      if q.email.Some? then q.email else p.email, if q.phone.Some? then q.phone else p.phone,
      if q.resumeText.Some? then q.resumeText else p.resumeText,
      if q.interviewState.Some? then q.interviewState else p.interviewState,
      if q.messages.Some? then q.messages else p.messages,
      if q.questions.Some? then q.questions else p.questions,
      if q.answers.Some? then q.answers else p.answers,
      if q.finalScore.Some? then q.finalScore else p.finalScore,
      if q.summary.Some? then q.summary else p.summary,
      if q.createdAt.Some? then q.createdAt else p.createdAt))
  {
  }

  /** Every record is stored under its own id. */
  predicate KeysMatchIds(s: AppState) {
    forall k :: k in s.candidates ==> s.candidates[k].id == k
  }

  /** `addCandidate`: stores the record under its own id, replacing any record already there. */
  function AddCandidate(s: AppState, c: Candidate): (r: AppState)
    ensures r.candidates.Keys == s.candidates.Keys + {c.id}
    ensures c.id in r.candidates && r.candidates[c.id] == c
    ensures forall k :: k in s.candidates && k != c.id ==> r.candidates[k] == s.candidates[k]
    ensures r.currentCandidateId == s.currentCandidateId && r.activeTab == s.activeTab
    ensures KeysMatchIds(s) ==> KeysMatchIds(r)
  {
    s.(candidates := s.candidates[c.id := c])
  }

  /** `updateCandidate`: merges the patch into the record under `id`; an unknown id changes nothing. */
  function UpdateCandidate(s: AppState, id: string, p: Patch): (r: AppState)
    ensures id !in s.candidates ==> r == s
    ensures r.candidates.Keys == s.candidates.Keys
    ensures id in s.candidates ==> r.candidates[id] == Merge(s.candidates[id], p)
    ensures forall k :: k in s.candidates && k != id ==> r.candidates[k] == s.candidates[k]
    ensures r.currentCandidateId == s.currentCandidateId && r.activeTab == s.activeTab
    ensures KeysMatchIds(s) && p.id.None? ==> KeysMatchIds(r)
  {
    if id in s.candidates then s.(candidates := s.candidates[id := Merge(s.candidates[id], p)]) else s
  }

  /** `setCurrentCandidateId`. */
  function SetCurrentCandidateId(s: AppState, id: Option<string>): (r: AppState)
    ensures r.currentCandidateId == id
    ensures r.candidates == s.candidates && r.activeTab == s.activeTab
  {
    s.(currentCandidateId := id)
  }

  /** `setActiveTab`. */
  function SetActiveTab(s: AppState, tab: Tab): (r: AppState)
    ensures r.activeTab == tab
    ensures r.candidates == s.candidates && r.currentCandidateId == s.currentCandidateId
  {
    s.(activeTab := tab)
  }

  /** `addMessage`: appends one message to the record's log; an unknown id changes nothing. */
  function AddMessage(s: AppState, id: string, m: Message): (r: AppState)
    ensures id !in s.candidates ==> r == s
    ensures r.candidates.Keys == s.candidates.Keys
    ensures id in s.candidates ==>
              var c, c' := s.candidates[id], r.candidates[id];
              && |c'.messages| == |c.messages| + 1
              && c'.messages[..|c.messages|] == c.messages
              && c'.messages[|c.messages|] == m
              && c' == c.(messages := c'.messages)
    ensures forall k :: k in s.candidates && k != id ==> r.candidates[k] == s.candidates[k]
    ensures r.currentCandidateId == s.currentCandidateId && r.activeTab == s.activeTab
  {
    if id in s.candidates then
      var c := s.candidates[id];
      s.(candidates := s.candidates[id := c.(messages := c.messages + [m])])
    else s
  }

  /** `setQuestions`: replaces the question list wholesale, however often it is called. */
  function SetQuestions(s: AppState, id: string, qs: seq<Question>): (r: AppState)
    ensures id !in s.candidates ==> r == s
    ensures r.candidates.Keys == s.candidates.Keys
    ensures id in s.candidates ==>
              r.candidates[id].questions == qs && r.candidates[id] == s.candidates[id].(questions := qs)
    ensures forall k :: k in s.candidates && k != id ==> r.candidates[k] == s.candidates[k]
    ensures r.currentCandidateId == s.currentCandidateId && r.activeTab == s.activeTab
  {
    if id in s.candidates then s.(candidates := s.candidates[id := s.candidates[id].(questions := qs)]) else s
  }

  /** `addAnswer`: appends one answer at the end of the record's answers; an unknown id changes nothing. */
  function AddAnswer(s: AppState, id: string, a: Answer): (r: AppState)
    ensures id !in s.candidates ==> r == s
    ensures r.candidates.Keys == s.candidates.Keys
    ensures id in s.candidates ==>
              var c, c' := s.candidates[id], r.candidates[id];
              && |c'.answers| == |c.answers| + 1
              && c'.answers[..|c.answers|] == c.answers
              && c'.answers[|c.answers|] == a
              && c' == c.(answers := c'.answers)
    ensures forall k :: k in s.candidates && k != id ==> r.candidates[k] == s.candidates[k]
    ensures r.currentCandidateId == s.currentCandidateId && r.activeTab == s.activeTab
  {
    if id in s.candidates then
      var c := s.candidates[id];
      s.(candidates := s.candidates[id := c.(answers := c.answers + [a])])
    else s
  }

  /** The record `resetInterview` leaves behind: identity, contact details and resume kept, the interview cleared. */
  function ResetRecord(c: Candidate): (r: Candidate)
    ensures r.interviewState == AwaitingResume
    ensures r.messages == [] && r.questions == [] && r.answers == []
    ensures r.finalScore == 0 && r.summary == []
    ensures && r.id == c.id && r.name == c.name && r.email == c.email && r.phone == c.phone
            && r.resumeText == c.resumeText && r.createdAt == c.createdAt
  {
    c.(interviewState := AwaitingResume, messages := [], questions := [], answers := [],
       finalScore := 0, summary := [])
  }

  /** `resetInterview`: clears the record's interview and also clears the current candidate id. */
  function ResetInterview(s: AppState, id: string): (r: AppState)
    ensures id !in s.candidates ==> r == s
    ensures r.candidates.Keys == s.candidates.Keys
    ensures id in s.candidates ==> r.candidates[id] == ResetRecord(s.candidates[id]) && r.currentCandidateId == None
    ensures forall k :: k in s.candidates && k != id ==> r.candidates[k] == s.candidates[k]
    ensures r.activeTab == s.activeTab
    ensures KeysMatchIds(s) ==> KeysMatchIds(r)
  {
    if id in s.candidates then
      s.(candidates := s.candidates[id := ResetRecord(s.candidates[id])], currentCandidateId := None)
    else s
  }

  /** Resetting an interview twice is resetting it once. */
  lemma ResetInterviewIdempotent(s: AppState, id: string)
    ensures ResetInterview(ResetInterview(s, id), id) == ResetInterview(s, id)
  {
  }

  /** `resetState`: back to the empty store, no current candidate, the interviewee tab. */
  function ResetState(s: AppState): (r: AppState)
    ensures r.candidates == map[] && r.currentCandidateId == None && r.activeTab == IntervieweeTab
  {
    InitialState
  }
}
