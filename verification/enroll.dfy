/** Enrollment in gt521f32/gt521f32.py: `enroll_start`, the retried
    `enroll_n` step and the three-step `enroll_user`. */
module Enroll {
  import opened Basics
  import opened Catalog
  import opened Driver
  import opened Prompt
  import opened Retry

  /* ---- The ENROLLn command name ---- */

  /** `"%d" % n`: decimal digits, with a minus sign for a negative number. */
  function Decimal(n: int): (r: string)
    ensures |r| > 0
    decreases if n < 0 then 1 - n else n
  {
    if n < 0 then "-" + Decimal(-n)
    else if n < 10 then ["0123456789"[n]]
    else Decimal(n / 10) + ["0123456789"[n % 10]]
  }

  /** `"ENROLL%d" % (n,)`. */
  function EnrollName(n: int): string
  {
    "ENROLL" + Decimal(n)
  }

  /** The three steps enroll_user runs name the three catalogued commands
      ENROLL1, ENROLL2 and ENROLL3. */
  lemma EnrollNames()
    ensures EnrollName(1) == "ENROLL1" && EnrollName(2) == "ENROLL2" && EnrollName(3) == "ENROLL3"
    ensures forall n :: 1 <= n <= 3 ==> EnrollName(n) in CommandCodes
  {
    assert EnrollName(1) == "ENROLL1";
    assert EnrollName(2) == "ENROLL2";
    assert EnrollName(3) == "ENROLL3";
  }

  /* ---- enroll_start ---- */

  /** `enroll_start(user_id)`: ENROLL_START; True on ACK, False on a NACK
      `response_error` knows, KeyError on any other NACK. */
  function EnrollStart(s: State, id: int): (r: Step<bool>)
    ensures r.outcome == Ok(true) <==> 0 <= id < 0x1_0000_0000 && Acked(s.rx)
    ensures r.outcome == Ok(false) <==> 0 <= id < 0x1_0000_0000 && KnownNack(s.rx)
    ensures 0 <= id < 0x1_0000_0000 && ValidReply(s.rx) && !Acked(s.rx) && !KnownNack(s.rx) ==>
              r.outcome == Err(UnknownNack(ReplyParameter(s.rx)))
    ensures Commands(r.after.trace) == Commands(s.trace) + (if 0 <= id < 0x1_0000_0000 then [("ENROLL_START", id)] else [])
    ensures Follows(s, r.after)
  {
    SendCommandFollows(s, "ENROLL_START", id);
    Checked(s, "ENROLL_START", id)
  }

  /* ---- One enroll_n attempt ---- */

  /** The ENROLLn command at the end of an attempt. Unlike every other
      command, a NACK code `response_error` does not know is not an error
      here: it is reported as a duplicate id and the attempt returns True,
      which stops the retries. Only a known NACK code asks for a retry. */
  function EnrollReply(t: State, n: int): (r: Step<bool>)
    ensures r.outcome == Ok(false) <==> Sendable(EnrollName(n), 0) && KnownNack(t.rx)
    ensures r.outcome == Ok(true) <==> Sendable(EnrollName(n), 0) && ValidReply(t.rx) && !KnownNack(t.rx)
    ensures Commands(r.after.trace) == Commands(t.trace) + (if Sendable(EnrollName(n), 0) then [(EnrollName(n), 0)] else [])
    ensures Follows(t, r.after)
  {
    var st := SendCommand(t, EnrollName(n), 0);
    SendCommandFollows(t, EnrollName(n), 0);
    SendCommandOutcome(t, EnrollName(n), 0);
    if st.outcome.Err? then Step(Err(st.outcome.error), st.after)
    else
      var (code, parameter) := st.outcome.value;
      KnownErrorRange(parameter);
      Step(Ok(code == AckOk || !KnownError(parameter)), st.after)
  }

  /** With save_enroll_photos, GET_IMAGE after the capture; the image goes
      to a file, which is left out, but a failing read raises. */
  function PhotoStep(t: State, photos: bool): (r: Step<()>)
    ensures !photos ==> r == Step(Ok(()), t)
    ensures photos ==> r.after == GetImage(t).after && (r.outcome.Ok? <==> GetImage(t).outcome.Ok?)
  {
    if !photos then Step(Ok(()), t)
    else
      var g := GetImage(t);
      Step(if g.outcome.Ok? then Ok(()) else Err(g.outcome.error), g.after)
  }

  /** One call of the undecorated `enroll_n(n, save_enroll_photos)`:
      prompt and capture, the optional photo, then ENROLLn. */
  function EnrollAttempt(s: State, n: int, photos: bool): Step<bool>
  {
    Then(PromptFingerAndCapture(s), t => Then(PhotoStep(t, photos), u => EnrollReply(u, n)))
  }

  /** What an attempt returns once the capture and the photo are done: the
      classification of the ENROLLn reply. */
  lemma EnrollAttemptReply(s: State, n: int, photos: bool)
    requires PromptFingerAndCapture(s).outcome.Ok?
    requires PhotoStep(PromptFingerAndCapture(s).after, photos).outcome.Ok?
    ensures EnrollAttempt(s, n, photos) == EnrollReply(PhotoStep(PromptFingerAndCapture(s).after, photos).after, n)
  {
  }

  /** A failed capture or photo ends the attempt with that error, before
      ENROLLn is written. */
  lemma EnrollAttemptFails(s: State, n: int, photos: bool)
    ensures PromptFingerAndCapture(s).outcome.Err? ==>
              EnrollAttempt(s, n, photos) == Step(Err(PromptFingerAndCapture(s).outcome.error), PromptFingerAndCapture(s).after)
    ensures PromptFingerAndCapture(s).outcome.Ok? && PhotoStep(PromptFingerAndCapture(s).after, photos).outcome.Err? ==>
              EnrollAttempt(s, n, photos).outcome.Err? &&
              EnrollAttempt(s, n, photos).after == PhotoStep(PromptFingerAndCapture(s).after, photos).after
  {
  }

  /* ---- enroll_n under @retry ---- */

  /** The attempt as the action `retry` repeats. */
  function Attempt(n: int, photos: bool): State -> (Result<bool, Error>, State)
  {
    t => var r := EnrollAttempt(t, n, photos); (r.outcome, r.after)
  }

  /** `enroll_n(n, save_enroll_photos)` as called: the attempt under
      `retry` with its default count. */
  function EnrollN(s: State, n: int, photos: bool): Step<bool>
  {
    var (res, t) := Retry.Retry(Attempt(n, photos), DefaultCount, s);
    Step(res, t)
  }

  /* enroll_n returns False exactly when three attempts in a row return
     False, and True exactly when an attempt returns True after only
     Falses. Each direction is its own lemma. */

  lemma EnrollNFalseOnlyAfterThree(s: State, n: int, photos: bool)
    ensures EnrollN(s, n, photos).outcome == Ok(false) ==> AllFalse(Attempt(n, photos), DefaultCount, s)
  {
    RetrySummary(Attempt(n, photos), DefaultCount, s);
  }

  lemma EnrollNThreeFalsesGiveFalse(s: State, n: int, photos: bool)
    ensures AllFalse(Attempt(n, photos), DefaultCount, s) ==> EnrollN(s, n, photos).outcome == Ok(false)
  {
    RetrySummary(Attempt(n, photos), DefaultCount, s);
  }

  lemma EnrollNTrueOnlyAfterFalses(s: State, n: int, photos: bool)
    ensures EnrollN(s, n, photos).outcome == Ok(true) ==> TrueAfterFalses(Attempt(n, photos), DefaultCount, s)
  {
    RetrySummary(Attempt(n, photos), DefaultCount, s);
  }

  lemma EnrollNFalsesThenTrueGiveTrue(s: State, n: int, photos: bool)
    ensures TrueAfterFalses(Attempt(n, photos), DefaultCount, s) ==> EnrollN(s, n, photos).outcome == Ok(true)
  {
    RetrySummary(Attempt(n, photos), DefaultCount, s);
  }

  /** enroll_n stops at the first attempt that does not return False, so
      it makes one, two or three attempts. */
  lemma EnrollNAttempts(s: State, n: int, photos: bool)
    ensures AfterAtMost(Attempt(n, photos), DefaultCount, s, EnrollN(s, n, photos).after)
  {
    RetrySummary(Attempt(n, photos), DefaultCount, s);
  }

  /* ---- enroll_user ---- */

  /** Step i of enroll_user: `with self.prompt_finger(): enroll_n(i, ...)`.
      A False result leaves the `with` block normally, so the LED is
      switched off before the loop breaks. */
  function EnrollStep(t: State, i: int, photos: bool): Step<bool>
  {
    PromptFinger(t, StepBody(i, photos))
  }

  /** The body of the `with` block of step i. */
  function StepBody(i: int, photos: bool): State -> Step<bool>
  {
    u => EnrollN(u, i, photos)
  }

  /** The loop `for i in range(1, 4)` from step i on, with its `else`. */
  function EnrollSteps(t: State, i: int, photos: bool): Step<bool>
    decreases 4 - i
  {
    if i > 3 then Step(Ok(true), t)
    else
      var r := EnrollStep(t, i, photos);
      if r.outcome == Ok(true) then EnrollSteps(r.after, i + 1, photos) else r
  }

  /** `enroll_user(user_id, save_enroll_photos)`. */
  function EnrollUser(s: State, id: int, photos: bool): Step<bool>
  {
    var st := EnrollStart(s, id);
    if st.outcome == Ok(true) then EnrollSteps(st.after, 1, photos) else st
  }

  /** A refused ENROLL_START ends enroll_user with False before any
      ENROLLn, or any prompt, is written. */
  lemma EnrollUserRefused(s: State, id: int, photos: bool)
    requires EnrollStart(s, id).outcome == Ok(false)
    ensures EnrollUser(s, id, photos).outcome == Ok(false)
    ensures Commands(EnrollUser(s, id, photos).after.trace) == Commands(s.trace) + [("ENROLL_START", id)]
  {
  }

  /** enroll_user returns True exactly when ENROLL_START is accepted and
      steps 1, 2 and 3 then each return True, each run from the state the
      previous one left. */
  lemma EnrollUserSucceeds(s: State, id: int, photos: bool)
    ensures EnrollUser(s, id, photos).outcome == Ok(true) <==>
              var st := EnrollStart(s, id);
              var t1 := EnrollStep(st.after, 1, photos);
              var t2 := EnrollStep(t1.after, 2, photos);
              var t3 := EnrollStep(t2.after, 3, photos);
              st.outcome == Ok(true) && t1.outcome == Ok(true) && t2.outcome == Ok(true) && t3.outcome == Ok(true)
  {
    EnrollStepsAllTrue(EnrollStart(s, id).after, photos);
  }

  /** When enroll_user returns False, the last command it sent is either
      the refused ENROLL_START or the LED-off that closes the failed step:
      a failing step never leaves the LED on when it returns normally. */
  lemma EnrollUserFalseEndsQuietly(s: State, id: int, photos: bool)
    ensures EnrollUser(s, id, photos).outcome == Ok(false) ==>
              var r := EnrollUser(s, id, photos);
              LastCommand(r.after, ("CMOS_LED", 0)) || LastCommand(r.after, ("ENROLL_START", id))
  {
    var st := EnrollStart(s, id);
    if st.outcome == Ok(true) {
      EnrollStepsFalseEndsDark(st.after, 1, photos);
    } else if st.outcome == Ok(false) {
      EnrollUserRefused(s, id, photos);
    }
  }

  /** A loop over the steps that returns False ends with the LED-off of the
      step that returned False. */
  lemma {:induction false} EnrollStepsFalseEndsDark(t: State, i: int, photos: bool)
    ensures FalseEndsDark(EnrollSteps(t, i, photos))
    decreases 4 - i
  {
    if i <= 3 && EnrollStep(t, i, photos).outcome == Ok(true) {
      EnrollStepsFalseEndsDark(EnrollStep(t, i, photos).after, i + 1, photos);
    }
    EnrollStepsDarkStep(t, i, photos);
  }

  /** A step result that is False ends with the LED switched off. */
  predicate FalseEndsDark(r: Step<bool>)
  {
    r.outcome == Ok(false) ==> LastCommand(r.after, ("CMOS_LED", 0))
  }

  /** One turn of the loop: a finished loop returns True, a step that stops
      the loop ends dark itself, and a step that goes on ends as the rest of
      the loop does. */
  lemma EnrollStepsDarkStep(t: State, i: int, photos: bool)
    requires i <= 3 && EnrollStep(t, i, photos).outcome == Ok(true) ==>
               FalseEndsDark(EnrollSteps(EnrollStep(t, i, photos).after, i + 1, photos))
    ensures FalseEndsDark(EnrollSteps(t, i, photos))
  {
    if i > 3 {
      assert EnrollSteps(t, i, photos).outcome == Ok(true);
    } else if EnrollStep(t, i, photos).outcome == Ok(true) {
      EnrollStepsContinue(t, i, photos);
    } else {
      EnrollStepsStop(t, i, photos);
      EnrollStepReturnsDark(t, i, photos);
    }
  }

  /** A step that returns normally has switched the LED off last. */
  lemma EnrollStepReturnsDark(t: State, i: int, photos: bool)
    ensures EnrollStep(t, i, photos).outcome.Ok? ==> LastCommand(EnrollStep(t, i, photos).after, ("CMOS_LED", 0))
  {
    PromptFingerReturnsDark(t, StepBody(i, photos));
  }

  /** The loop completes exactly when steps 1, 2 and 3 each return True,
      each run from the state the previous one left. */
  lemma EnrollStepsAllTrue(t: State, photos: bool)
    ensures EnrollSteps(t, 1, photos).outcome == Ok(true) <==>
              var t1 := EnrollStep(t, 1, photos);
              var t2 := EnrollStep(t1.after, 2, photos);
              var t3 := EnrollStep(t2.after, 3, photos);
              t1.outcome == Ok(true) && t2.outcome == Ok(true) && t3.outcome == Ok(true)
  {
    var t1 := EnrollStep(t, 1, photos);
    if t1.outcome == Ok(true) {
      EnrollStepsContinue(t, 1, photos);
      var t2 := EnrollStep(t1.after, 2, photos);
      if t2.outcome == Ok(true) {
        EnrollStepsContinue(t1.after, 2, photos);
        var t3 := EnrollStep(t2.after, 3, photos);
        if t3.outcome == Ok(true) {
          EnrollStepsContinue(t2.after, 3, photos);
        } else {
          EnrollStepsStop(t2.after, 3, photos);
        }
      } else {
        EnrollStepsStop(t1.after, 2, photos);
      }
    } else {
      EnrollStepsStop(t, 1, photos);
    }
  }

  /** The loop stops at the first step that does not return True: that
      step's result and state are enroll_user's, and no later step runs. */
  lemma EnrollStepsStop(t: State, i: int, photos: bool)
    requires i <= 3 && EnrollStep(t, i, photos).outcome != Ok(true)
    ensures EnrollSteps(t, i, photos) == EnrollStep(t, i, photos)
  {
  }

  /** Each step that returns True hands its state to the next. */
  lemma EnrollStepsContinue(t: State, i: int, photos: bool)
    requires i <= 3 && EnrollStep(t, i, photos).outcome == Ok(true)
    ensures EnrollSteps(t, i, photos) == EnrollSteps(EnrollStep(t, i, photos).after, i + 1, photos)
  {
  }
}
