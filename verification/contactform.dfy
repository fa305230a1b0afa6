/**
 * The contact-details confirmation form (src/components/interview/CollectInfoForm.tsx). The
 * email syntax check of the validation library is an input predicate.
 */
module ContactForm {
  import opened Prelude
  import opened Types
  import opened Store
  import opened Text

  datatype FormValues = FormValues(name: string, email: string, phone: string)

  /** A name of at least two UTF-16 code units, the unit of the validation library's `min`. */
  predicate ValidName(name: string) {
    Utf16Length(name) >= 2
  }

  /** A phone number of at least ten UTF-16 code units. */
  predicate ValidPhone(phone: string) {
    Utf16Length(phone) >= 10
  }

  /** One character beyond the Basic Multilingual Plane is two code units, so it passes as a name. */
  lemma OneAstralCharacterName()
    ensures |"\U{1D49C}"| == 1 && ValidName("\U{1D49C}")
  {
    assert Utf16Length("\U{1D49C}") == 2;
  }

  /** Names and phone numbers within the Basic Multilingual Plane are measured in characters. */
  lemma BmpLengthsAreCharacters(v: FormValues)
    requires forall k :: 0 <= k < |v.name| ==> InBmp(v.name[k])
    requires forall k :: 0 <= k < |v.phone| ==> InBmp(v.phone[k])
    ensures ValidName(v.name) <==> |v.name| >= 2
    ensures ValidPhone(v.phone) <==> |v.phone| >= 10
  {
    Utf16LengthIsLengthIffBmp(v.name);
    Utf16LengthIsLengthIffBmp(v.phone);
  }

  /** The form's schema: all three fields must pass. */
  predicate Valid(v: FormValues, isEmail: string -> bool) {
    ValidName(v.name) && isEmail(v.email) && ValidPhone(v.phone)
  }

  /** The values the form opens with: the record's fields, empty ones shown as ''. */
  function DefaultValues(c: Candidate): (v: FormValues)
    ensures v.name == c.name && v.email == c.email && v.phone == c.phone
  {
    FormValues(if c.name != [] then c.name else [], if c.email != [] then c.email else [],
               if c.phone != [] then c.phone else [])
  }

  /** The confirmed record: the three contact fields from the form, the state READY_TO_START, nothing else. */
  function ConfirmRecord(c: Candidate, v: FormValues): (c': Candidate)
    ensures c'.name == v.name && c'.email == v.email && c'.phone == v.phone
    ensures c'.interviewState == ReadyToStart
    ensures c'.(name := c.name, email := c.email, phone := c.phone, interviewState := c.interviewState) == c
  {
    Merge(c, NoChange.(name := Some(v.name), email := Some(v.email), phone := Some(v.phone),
                       interviewState := Some(ReadyToStart)))
  }

  /** Submitting the form: values failing any check are held back; valid ones are merged into the record. */
  function OnSubmit(s: AppState, id: string, v: FormValues, isEmail: string -> bool): (r: AppState)
    ensures !Valid(v, isEmail) || id !in s.candidates ==> r == s
    ensures Valid(v, isEmail) && id in s.candidates ==>
              r == s.(candidates := s.candidates[id := ConfirmRecord(s.candidates[id], v)])
  {
    if Valid(v, isEmail) then
      UpdateCandidate(s, id, NoChange.(name := Some(v.name), email := Some(v.email), phone := Some(v.phone),
                                       interviewState := Some(ReadyToStart)))
    else s
  }

  /** Confirming the prefilled values unchanged only advances the state. */
  lemma ConfirmDefaultsOnlyAdvances(c: Candidate)
    ensures ConfirmRecord(c, DefaultValues(c)) == c.(interviewState := ReadyToStart)
  {
  }
}
