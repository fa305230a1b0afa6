/**
 * The interviewee page (src/pages/IntervieweeView.tsx): creating a candidate from an uploaded
 * resume, choosing what to show, and starting over. Text extraction is an input: a parse
 * outcome carrying the text and the three contact guesses, each possibly null.
 */
module IntervieweeView {
  import opened Prelude
  import opened Types
  import opened Store

  const PdfType := "application/pdf"
  const DocxType := "application/vnd.openxmlformats-officedocument.wordprocessingml.document"

  /** Only PDF and DOCX files go on to parsing. */
  predicate AcceptedType(mimeType: string) {
    mimeType == PdfType || mimeType == DocxType
  }

  /** The contact details guessed from the resume; each is `null` when nothing was found. */
  datatype Details = Details(name: Option<string>, email: Option<string>, phone: Option<string>)

  datatype ParseOutcome = ParseFailed | Parsed(text: string, details: Details)

  /** The chosen file: its declared type and what parsing it yields. */
  datatype Upload = Upload(mimeType: string, outcome: ParseOutcome)

  /** A JavaScript string-or-null is truthy when it is a non-empty string. */
  predicate Truthy(o: Option<string>) {
    o.Some? && o.value != []
  }

  /** `o || ''`. */
  function OrEmpty(o: Option<string>): (r: string)
    ensures Truthy(o) ==> r == o.value
    ensures !Truthy(o) ==> r == []
  {
    if Truthy(o) then o.value else []
  }

  /** The record built right after parsing, before its state is advanced. */
  function NewCandidate(id: string, text: string, d: Details, now: int): (c: Candidate)
    ensures c.id == id && c.resumeText == text && c.createdAt == now
    ensures c.name == OrEmpty(d.name) && c.email == OrEmpty(d.email) && c.phone == OrEmpty(d.phone)
    ensures c.interviewState == AwaitingResume
    ensures c.messages == [] && c.questions == [] && c.answers == []
    ensures c.finalScore == 0 && c.summary == []
  {
    Candidate(id, OrEmpty(d.name), OrEmpty(d.email), OrEmpty(d.phone), text, AwaitingResume, [], [], [], 0, [], now)
  }

  /** Any missing contact detail routes to the confirmation form; otherwise the interview is ready. */
  function NextState(d: Details): (st: InterviewState)
    ensures st == CollectingInfo <==> !Truthy(d.name) || !Truthy(d.email) || !Truthy(d.phone)
    ensures st == ReadyToStart <==> Truthy(d.name) && Truthy(d.email) && Truthy(d.phone)
  {
    if !Truthy(d.name) || !Truthy(d.email) || !Truthy(d.phone) then CollectingInfo else ReadyToStart
  }

  /** The record as it stands once the upload handler has finished. */
  function Created(id: string, text: string, d: Details, now: int): (c: Candidate)
    ensures c.id == id && c.resumeText == text && c.createdAt == now
    ensures c.name == OrEmpty(d.name) && c.email == OrEmpty(d.email) && c.phone == OrEmpty(d.phone)
    ensures c.interviewState == CollectingInfo <==> !Truthy(d.name) || !Truthy(d.email) || !Truthy(d.phone)
    ensures c.interviewState == ReadyToStart <==> Truthy(d.name) && Truthy(d.email) && Truthy(d.phone)
    ensures c.messages == [] && c.questions == [] && c.answers == [] && c.finalScore == 0 && c.summary == []
  {
    NewCandidate(id, text, d, now).(interviewState := NextState(d))
  }

  /**
   * `handleFileChange`: no file, a rejected type or a parse failure leave the store alone;
   * otherwise the new record is stored under the fresh id, made current, and advanced.
   */
  function HandleFileChange(s: AppState, file: Option<Upload>, id: string, now: int): (r: AppState)
    ensures file.None? || !AcceptedType(file.value.mimeType) || file.value.outcome.ParseFailed? ==> r == s
    ensures file.Some? && AcceptedType(file.value.mimeType) && file.value.outcome.Parsed? ==>
              && r.candidates == s.candidates[id := Created(id, file.value.outcome.text, file.value.outcome.details, now)]
              && r.currentCandidateId == Some(id)
              && r.activeTab == s.activeTab
  {
    match file
    case None => s
    case Some(Upload(mimeType, outcome)) =>
      if !AcceptedType(mimeType) then s
      else
        match outcome
        case ParseFailed => s
        case Parsed(text, d) =>
          var s1 := AddCandidate(s, NewCandidate(id, text, d, now));
          var s2 := SetCurrentCandidateId(s1, Some(id));
          UpdateCandidate(s2, id, NoChange.(interviewState := Some(NextState(d))))
  }

  /** What the page shows. */
  datatype View = UploadView | FormView | ChatView

  /** `currentCandidateId ? candidates[currentCandidateId] : null`: an empty id counts as none. */
  function CurrentCandidate(s: AppState): (r: Option<Candidate>)
    ensures r.Some? <==> Truthy(s.currentCandidateId) && s.currentCandidateId.value in s.candidates
    ensures r.Some? ==> r.value == s.candidates[s.currentCandidateId.value]
  {
    if Truthy(s.currentCandidateId) && s.currentCandidateId.value in s.candidates
    then Some(s.candidates[s.currentCandidateId.value]) else None
  }

  /** `renderContent`: the upload view without a current candidate, otherwise chosen by its state. */
  function RenderContent(s: AppState): (v: View)
    ensures v == UploadView <==> CurrentCandidate(s).None? || CurrentCandidate(s).value.interviewState == AwaitingResume
    ensures v == FormView <==> CurrentCandidate(s).Some? && CurrentCandidate(s).value.interviewState == CollectingInfo
    ensures v == ChatView <==> CurrentCandidate(s).Some? && CurrentCandidate(s).value.interviewState in {ReadyToStart, InProgress, Completed}
  {
    match CurrentCandidate(s)
    case None => UploadView
    case Some(c) =>
      match c.interviewState
      case AwaitingResume => UploadView
      case CollectingInfo => FormView
      case _ => ChatView
  }

  /** `handleStartOver`: resets the current candidate, if there is one. */
  function HandleStartOver(s: AppState): (r: AppState)
    ensures !Truthy(s.currentCandidateId) ==> r == s
    ensures Truthy(s.currentCandidateId) ==> r == ResetInterview(s, s.currentCandidateId.value)
  {
    if Truthy(s.currentCandidateId) then ResetInterview(s, s.currentCandidateId.value) else s
  }

  /** A successful upload shows the form when a detail is missing and the chat otherwise. */
  lemma UploadShowsNextView(s: AppState, u: Upload, id: string, now: int)
    requires AcceptedType(u.mimeType) && u.outcome.Parsed? && id != []
    ensures var r := HandleFileChange(s, Some(u), id, now);
            RenderContent(r) == (if NextState(u.outcome.details) == CollectingInfo then FormView else ChatView)
  {
  }

  /** Starting over with a current candidate returns the page to the upload view. */
  lemma StartOverShowsUpload(s: AppState)
    requires CurrentCandidate(s).Some?
    ensures RenderContent(HandleStartOver(s)) == UploadView
  {
  }
}
