/**
 * The per-question countdown of the chat component (src/components/interview/InterviewChat.tsx):
 * the countdown sits beside the record, is re-armed by an effect, and submits when it runs out.
 * Scheduling is abstracted to discrete events: a tick, an edit of the answer box, a manual send.
 */
module Countdown {
  import opened Types
  import opened Interview

  /** The countdown: stopped, or running with some seconds left. */
  datatype Timer = Stopped | Running(timeLeft: int)

  /**
   * The timer effect: it runs, starting from the current question's duration, exactly when the
   * interview is in progress and a current question exists.
   */
  function Arm(c: Candidate): (t: Timer)
    ensures t.Running? <==> c.interviewState == InProgress && |c.answers| < |c.questions|
    ensures t.Running? ==> t.timeLeft == c.questions[|c.answers|].duration
  {
    if c.interviewState == InProgress && CurrentQuestion(c).Some? then Running(CurrentQuestion(c).value.duration)
    else Stopped
  }

  /** The component's state next to the record: the record, the text in the answer box, the countdown. */
  datatype Session = Session(c: Candidate, input: string, timer: Timer)

  datatype Event = Tick(st: Stamps) | Edit(text: string) | Send(st: Stamps)

  /**
   * What follows a submission attempt: a changed record clears the answer box and makes the
   * effect re-arm for it; an unchanged record leaves the interval cleared.
   */
  function Settle(s: Session, c': Candidate): (r: Session)
    ensures r.c == c'
    ensures c' != s.c ==> r.input == [] && r.timer == Arm(c')
    ensures c' == s.c ==> r.input == s.input && r.timer.Stopped?
  {
    if c' != s.c then Session(c', [], Arm(c')) else s.(timer := Stopped)
  }

  /** A tick: at one second or less it submits what is typed; otherwise it counts down by one. */
  function TickStep(s: Session, st: Stamps): (r: Session)
    ensures s.timer.Stopped? ==> r == s
    ensures s.timer.Running? && s.timer.timeLeft > 1 ==> r == s.(timer := Running(s.timer.timeLeft - 1))
    ensures s.timer.Running? && s.timer.timeLeft <= 1 ==> r.c == Submit(s.c, s.input, st)
  {
    match s.timer
    case Stopped => s
    case Running(t) =>
      if t <= 1 then Settle(s, Submit(s.c, s.input, st)) else s.(timer := Running(t - 1))
  }

  /**
   * One event as the source is written. Editing the answer box changes the submission handler,
   * which the timer effect depends on, so every edit to a different text re-arms the countdown
   * at the full duration.
   */
  function StepAsWritten(s: Session, e: Event): (r: Session)
    ensures e.Edit? ==> r.c == s.c && r.input == e.text
    ensures e.Edit? && e.text != s.input ==> r.timer == Arm(s.c)
    ensures !e.Edit? ==> r == Step(s, e)
  {
    match e
    case Tick(st) => TickStep(s, st)
    case Edit(text) => if text == s.input then s else Session(s.c, text, Arm(s.c))
    case Send(st) => Settle(s, Submit(s.c, s.input, st))
  }

  /** One event with the countdown kept across edits: only a change of record re-arms it. */
  function Step(s: Session, e: Event): (r: Session)
    ensures e.Edit? ==> r == s.(input := e.text)
  {
    match e
    case Tick(st) => TickStep(s, st)
    case Edit(text) => s.(input := text)
    case Send(st) => Settle(s, Submit(s.c, s.input, st))
  }

  function Run(s: Session, evs: seq<Event>): Session
    decreases |evs|
  {
    if |evs| == 0 then s else Run(Step(s, evs[0]), evs[1..])
  }

  function RunAsWritten(s: Session, evs: seq<Event>): Session
    decreases |evs|
  {
    if |evs| == 0 then s else RunAsWritten(StepAsWritten(s, evs[0]), evs[1..])
  }

  /** Without edits, the countdown as written and the corrected one run alike. */
  lemma {:induction false} RunsAgreeWithoutEdits(s: Session, evs: seq<Event>)
    requires forall k :: 0 <= k < |evs| ==> !evs[k].Edit?
    ensures RunAsWritten(s, evs) == Run(s, evs)
    decreases |evs|
  {
    if |evs| > 0 {
      RunsAgreeWithoutEdits(Step(s, evs[0]), evs[1..]);
    }
  }

  function CountTicks(evs: seq<Event>): nat {
    if |evs| == 0 then 0 else (if evs[0].Tick? then 1 else 0) + CountTicks(evs[1..])
  }

  /** A tick that runs the countdown out and a manual send of the same text produce the same session. */
  lemma TimeUpMatchesManualSend(s: Session, st: Stamps)
    requires s.timer.Running? && s.timer.timeLeft <= 1
    ensures Step(s, Tick(st)) == Step(s, Send(st))
    ensures Step(s, Tick(st)).c == Submit(s.c, s.input, st)
  {
  }

  /** No event removes an answer. */
  lemma {:induction false} AnswersNeverShrink(s: Session, evs: seq<Event>)
    ensures |Run(s, evs).c.answers| >= |s.c.answers|
    decreases |evs|
  {
    if |evs| > 0 {
      AnswersNeverShrink(Step(s, evs[0]), evs[1..]);
    }
  }

  /** The same holds for the countdown as written. */
  lemma {:induction false} AnswersNeverShrinkAsWritten(s: Session, evs: seq<Event>)
    ensures |RunAsWritten(s, evs).c.answers| >= |s.c.answers|
    decreases |evs|
  {
    if |evs| > 0 {
      AnswersNeverShrinkAsWritten(StepAsWritten(s, evs[0]), evs[1..]);
    }
  }

  /**
   * With the countdown kept across edits, a question that can be answered is answered within
   * as many ticks as the countdown had left, whatever is typed or sent in between.
   */
  lemma {:induction false} AnsweredBeforeCountdownEnds(s: Session, evs: seq<Event>)
    requires s.timer.Running? && CanSubmit(s.c)
    requires CountTicks(evs) >= s.timer.timeLeft && CountTicks(evs) >= 1
    ensures |Run(s, evs).c.answers| > |s.c.answers|
    decreases |evs|
  {
    var s1 := Step(s, evs[0]);
    if evs[0].Edit? || (evs[0].Tick? && s.timer.timeLeft > 1) {
      AnsweredBeforeCountdownEnds(s1, evs[1..]);
    } else {
      assert |s1.c.answers| > |s.c.answers|;
      AnswersNeverShrink(s1, evs[1..]);
    }
  }

  /** Editing the answer box twice and ticking once: one round of the as-written countdown. */
  const EditRound: seq<Event> := [Edit("a"), Edit([]), Tick(Stamps([], 0, [], 0))]

  function EditRounds(n: nat): (evs: seq<Event>)
    ensures CountTicks(evs) == n
  {
    if n == 0 then [] else
      var rest := EditRounds(n - 1);
      var e := EditRound + rest;
      assert e[1..] == [Edit([]), Tick(Stamps([], 0, [], 0))] + rest;
      assert e[1..][1..] == [Tick(Stamps([], 0, [], 0))] + rest;
      assert e[1..][1..][1..] == rest;
      assert CountTicks(e[1..][1..]) == 1 + CountTicks(rest);
      assert CountTicks(e) == CountTicks(e[1..]) == CountTicks(e[1..][1..]);
      e
  }

  lemma {:induction false} RunAsWrittenAppend(s: Session, a: seq<Event>, b: seq<Event>)
    ensures RunAsWritten(s, a + b) == RunAsWritten(RunAsWritten(s, a), b)
    decreases |a|
  {
    if |a| > 0 {
      assert (a + b)[1..] == a[1..] + b;
      RunAsWrittenAppend(StepAsWritten(s, a[0]), a[1..], b);
    } else {
      assert a + b == b;
    }
  }

  /** One round as written: the two edits re-arm the countdown and the tick takes one second off it. */
  lemma EditRoundAsWritten(s: Session)
    requires s.input == []
    requires Arm(s.c).Running? && Arm(s.c).timeLeft >= 2
    ensures RunAsWritten(s, EditRound) == Session(s.c, [], Running(Arm(s.c).timeLeft - 1))
  {
    var d := Arm(s.c).timeLeft;
    var s1 := StepAsWritten(s, Edit("a"));
    assert s1 == Session(s.c, "a", Running(d));
    var s2 := StepAsWritten(s1, Edit([]));
    assert s2 == Session(s.c, [], Running(d));
    var s3 := StepAsWritten(s2, EditRound[2]);
    assert s3 == Session(s.c, [], Running(d - 1));
    assert EditRound[1..][1..][1..] == [];
    assert RunAsWritten(s, EditRound) == RunAsWritten(s1, EditRound[1..]) == RunAsWritten(s2, EditRound[1..][1..]);
  }

  /**
   * As written, a candidate who keeps editing the answer is never timed out: however many ticks
   * pass, the record does not change, so no answer is recorded.
   */
  lemma {:induction false} EditsDeferTimeoutAsWritten(s: Session, n: nat)
    requires s.input == []
    requires Arm(s.c).Running? && Arm(s.c).timeLeft >= 2
    ensures RunAsWritten(s, EditRounds(n)).c == s.c
    ensures RunAsWritten(s, EditRounds(n)).input == []
    ensures CountTicks(EditRounds(n)) == n
    decreases n
  {
    if n > 0 {
      var s1 := RunAsWritten(s, EditRound);
      EditRoundAsWritten(s);
      assert EditRounds(n) == EditRound + EditRounds(n - 1);
      RunAsWrittenAppend(s, EditRound, EditRounds(n - 1));
      assert RunAsWritten(s, EditRounds(n)) == RunAsWritten(s1, EditRounds(n - 1));
      EditsDeferTimeoutAsWritten(s1, n - 1);
    }
  }

  /** A concrete case: a one-question interview with a 2-second countdown stays unanswered through 3 ticks. */
  lemma EditsDeferTimeoutExample()
    ensures var q := Question("q1", "Why?", "Easy", 2);
            var c := Candidate("c1", "Ann", "a@b.c", "0123456789", "cv", InProgress, [], [q], [], 0, [], 0);
            var s := Session(c, [], Arm(c));
            && CountTicks(EditRounds(3)) == 3 >= 2
            && RunAsWritten(s, EditRounds(3)).c.answers == []
            && |Run(s, EditRounds(3)).c.answers| == 1
  {
    var q := Question("q1", "Why?", "Easy", 2);
    var c := Candidate("c1", "Ann", "a@b.c", "0123456789", "cv", InProgress, [], [q], [], 0, [], 0);
    var s := Session(c, [], Arm(c));
    EditsDeferTimeoutAsWritten(s, 3);
    assert CanSubmit(c);
    AnsweredBeforeCountdownEnds(s, EditRounds(3));
    assert |Run(s, EditRounds(3)).c.answers| <= 1 by {
      assert |Run(s, EditRounds(3)).c.answers| <= |c.questions| by { RunKeepsAnswersBounded(s, EditRounds(3)); }
    }
  }

  /** No event takes the answers past the questions. */
  lemma {:induction false} RunKeepsAnswersBounded(s: Session, evs: seq<Event>)
    requires |s.c.answers| <= |s.c.questions|
    ensures |Run(s, evs).c.answers| <= |Run(s, evs).c.questions| == |s.c.questions|
    decreases |evs|
  {
    if |evs| > 0 {
      RunKeepsAnswersBounded(Step(s, evs[0]), evs[1..]);
    }
  }

  /** The same holds for the countdown as written. */
  lemma {:induction false} RunAsWrittenKeepsAnswersBounded(s: Session, evs: seq<Event>)
    requires |s.c.answers| <= |s.c.questions|
    ensures |RunAsWritten(s, evs).c.answers| <= |RunAsWritten(s, evs).c.questions| == |s.c.questions|
    decreases |evs|
  {
    if |evs| > 0 {
      RunAsWrittenKeepsAnswersBounded(StepAsWritten(s, evs[0]), evs[1..]);
    }
  }
}
