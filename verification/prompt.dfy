/** Finger prompting in gt521f32/gt521f32.py: the `led()` and
    `prompt_finger()` context managers, the press-polling loop with its
    cancel flag, and the operations built on them (`identify`, `verify`,
    `get_raw_image_safe`). */
module Prompt {
  import opened Basics
  import opened Driver

  /* ---- The cancel flag ---- */

  /** `self._cancel.is_set()`: another thread may have called `cancel()`
      since the last check; the next entry of the interrupt script says so. */
  function Poll(s: State): (r: State)
    ensures r.cancel <==> s.cancel || (s.interrupts != [] && s.interrupts[0])
    ensures r == s.(cancel := r.cancel, interrupts := r.interrupts)
    ensures Follows(s, r)
  {
    if s.interrupts == [] then s
    else s.(cancel := s.cancel || s.interrupts[0], interrupts := s.interrupts[1..])
  }

  /** No other thread calls `cancel()` during the script. */
  predicate Uninterrupted(s: State)
  {
    forall i :: 0 <= i < |s.interrupts| ==> !s.interrupts[i]
  }

  lemma UninterruptedFollows(s: State, t: State)
    requires Follows(s, t) && Uninterrupted(s)
    ensures Uninterrupted(t)
  {
    forall i | 0 <= i < |t.interrupts|
      ensures !t.interrupts[i]
    {
      assert t.interrupts[i] == s.interrupts[|s.interrupts| - |t.interrupts| + i];
    }
  }

  /** The reply `is_finger_pressed` reads as a press. */
  predicate Pressed(got: seq<byte>)
  {
    Acked(got) && ReplyParameter(got) == 0
  }

  /** The last thing that happened was reading a reply that reports a press. */
  predicate EndsWithPress(trace: seq<Event>)
  {
    |trace| > 0 && trace[|trace| - 1].Received? && Pressed(trace[|trace| - 1].got)
  }

  /** Every command after the first n is IS_PRESS_FINGER 0. */
  predicate OnlyPolls(cmds: seq<(string, int)>, n: nat)
  {
    n <= |cmds| && forall i :: n <= i < |cmds| ==> cmds[i] == ("IS_PRESS_FINGER", 0)
  }

  /** `wait_for_finger_press()`: ask IS_PRESS_FINGER until the device
      reports a press or the flag is seen set, then clear the flag. The
      delay between polls is left out. Each poll that comes back consumes a
      twelve-byte reply, which bounds the loop by the length of the stream. */
  function WaitForFingerPress(s: State): Step<()>
    decreases |s.rx|
  {
    var p := Poll(s);
    if p.cancel then Step(Ok(()), Poll(p).(cancel := false))
    else
      var f := IsFingerPressed(p);
      match f.outcome
      case Err(e) => Step(Err(e), f.after)
      case Ok(true) => Step(Ok(()), Poll(f.after).(cancel := false))
      case Ok(false) => WaitForFingerPress(f.after)
  }

  /** The wait keeps the state's invariants and the cached module details. */
  lemma {:induction false} WaitFollows(s: State)
    ensures WaitKeeps(s)
    decreases |s.rx|
  {
    if !Poll(s).cancel && IsFingerPressed(Poll(s)).outcome == Ok(false) {
      WaitFollows(IsFingerPressed(Poll(s)).after);
    }
    WaitKeepsStep(s);
  }

  /** One round of the wait keeps the invariants, given that the next round
      does when there is one. */
  lemma WaitKeepsStep(s: State)
    requires !Poll(s).cancel && IsFingerPressed(Poll(s)).outcome == Ok(false) ==>
               WaitKeeps(IsFingerPressed(Poll(s)).after)
    ensures WaitKeeps(s)
  {
    if Poll(s).cancel {
      WaitKeepsCancelled(s);
    } else if IsFingerPressed(Poll(s)).outcome == Ok(true) {
      WaitKeepsPressed(s);
    } else if IsFingerPressed(Poll(s)).outcome == Ok(false) {
      WaitKeepsAgain(s);
    } else {
      WaitKeepsFails(s);
    }
  }

  /** The wait from s keeps the state's invariants and the cached module
      details. */
  predicate WaitKeeps(s: State)
  {
    Follows(s, WaitForFingerPress(s).after) && WaitForFingerPress(s).after.info == s.info
  }

  lemma WaitKeepsCancelled(s: State)
    requires Poll(s).cancel
    ensures WaitKeeps(s)
  {
    WaitCancelled(s);
    FollowsTrans(s, Poll(s), Poll(Poll(s)));
  }

  lemma WaitKeepsPressed(s: State)
    requires !Poll(s).cancel && IsFingerPressed(Poll(s)).outcome == Ok(true)
    ensures WaitKeeps(s)
  {
    var f := IsFingerPressed(Poll(s));
    WaitPressed(s);
    FollowsTrans(s, Poll(s), f.after);
    FollowsTrans(s, f.after, Poll(f.after));
  }

  lemma WaitKeepsFails(s: State)
    requires !Poll(s).cancel && IsFingerPressed(Poll(s)).outcome.Err?
    ensures WaitKeeps(s)
  {
    WaitPollFails(s);
    FollowsTrans(s, Poll(s), IsFingerPressed(Poll(s)).after);
  }

  lemma WaitKeepsAgain(s: State)
    requires !Poll(s).cancel && IsFingerPressed(Poll(s)).outcome == Ok(false)
    requires WaitKeeps(IsFingerPressed(Poll(s)).after)
    ensures WaitKeeps(s)
  {
    var f := IsFingerPressed(Poll(s));
    WaitPollsAgain(s);
    FollowsTrans(s, Poll(s), f.after);
    FollowsTrans(s, f.after, WaitForFingerPress(f.after).after);
  }

  /** A wait that returns leaves the flag cleared, whoever set it. */
  lemma {:induction false} WaitClearsFlag(s: State)
    ensures WaitForFingerPress(s).outcome.Ok? ==> !WaitForFingerPress(s).after.cancel
    decreases |s.rx|
  {
    if !Poll(s).cancel && IsFingerPressed(Poll(s)).outcome == Ok(false) {
      WaitClearsFlag(IsFingerPressed(Poll(s)).after);
    }
    WaitClearsFlagStep(s);
  }

  lemma WaitClearsFlagStep(s: State)
    requires !Poll(s).cancel && IsFingerPressed(Poll(s)).outcome == Ok(false) ==>
               var t := IsFingerPressed(Poll(s)).after;
               WaitForFingerPress(t).outcome.Ok? ==> !WaitForFingerPress(t).after.cancel
    ensures WaitForFingerPress(s).outcome.Ok? ==> !WaitForFingerPress(s).after.cancel
  {
    if Poll(s).cancel {
      WaitCancelled(s);
    } else if IsFingerPressed(Poll(s)).outcome == Ok(true) {
      WaitPressed(s);
    } else if IsFingerPressed(Poll(s)).outcome == Ok(false) {
      WaitPollsAgain(s);
    } else {
      WaitPollFails(s);
    }
  }

  /** The wait writes nothing but IS_PRESS_FINGER 0. */
  lemma {:induction false} WaitOnlyPolls(s: State)
    ensures Commands(s.trace) <= Commands(WaitForFingerPress(s).after.trace)
    ensures OnlyPolls(Commands(WaitForFingerPress(s).after.trace), |Commands(s.trace)|)
    decreases |s.rx|
  {
    if !Poll(s).cancel && IsFingerPressed(Poll(s)).outcome == Ok(false) {
      WaitOnlyPolls(IsFingerPressed(Poll(s)).after);
    }
    WaitOnlyPollsStep(s);
  }

  lemma WaitOnlyPollsStep(s: State)
    requires !Poll(s).cancel && IsFingerPressed(Poll(s)).outcome == Ok(false) ==>
               var t := IsFingerPressed(Poll(s)).after;
               Commands(t.trace) <= Commands(WaitForFingerPress(t).after.trace) &&
               OnlyPolls(Commands(WaitForFingerPress(t).after.trace), |Commands(t.trace)|)
    ensures Commands(s.trace) <= Commands(WaitForFingerPress(s).after.trace)
    ensures OnlyPolls(Commands(WaitForFingerPress(s).after.trace), |Commands(s.trace)|)
  {
    var p := Poll(s);
    if p.cancel {
      WaitCancelled(s);
    } else {
      var f := IsFingerPressed(p);
      var a, b := Commands(s.trace), Commands(f.after.trace);
      if f.outcome == Ok(false) {
        WaitPollsAgain(s);
        PollsExtend(a, b, Commands(WaitForFingerPress(s).after.trace));
      } else {
        if f.outcome == Ok(true) {
          WaitPressed(s);
        } else {
          WaitPollFails(s);
        }
        PollsExtend(a, b, b);
      }
    }
  }

  /* One round of the wait, one case per lemma. */

  /** A flag seen set ends the wait with the flag cleared and nothing written. */
  lemma WaitCancelled(s: State)
    requires Poll(s).cancel
    ensures WaitForFingerPress(s) == Step(Ok(()), Poll(Poll(s)).(cancel := false))
    ensures WaitForFingerPress(s).after.trace == s.trace
  {
  }

  /** A poll that reports a press ends the wait with the flag cleared. */
  lemma WaitPressed(s: State)
    requires !Poll(s).cancel && IsFingerPressed(Poll(s)).outcome == Ok(true)
    ensures WaitForFingerPress(s) == Step(Ok(()), Poll(IsFingerPressed(Poll(s)).after).(cancel := false))
    ensures WaitForFingerPress(s).after.trace == IsFingerPressed(Poll(s)).after.trace
  {
  }

  /** A poll that raises ends the wait with that error. */
  lemma WaitPollFails(s: State)
    requires !Poll(s).cancel && IsFingerPressed(Poll(s)).outcome.Err?
    ensures WaitForFingerPress(s) == Step(Err(IsFingerPressed(Poll(s)).outcome.error), IsFingerPressed(Poll(s)).after)
  {
  }

  /** A poll that reports no press hands over to the next round. */
  lemma WaitPollsAgain(s: State)
    requires !Poll(s).cancel && IsFingerPressed(Poll(s)).outcome == Ok(false)
    ensures WaitForFingerPress(s) == WaitForFingerPress(IsFingerPressed(Poll(s)).after)
  {
  }

  lemma PollsExtend(a: seq<(string, int)>, b: seq<(string, int)>, c: seq<(string, int)>)
    requires b == a + [("IS_PRESS_FINGER", 0)]
    requires b <= c && OnlyPolls(c, |b|)
    ensures a <= c && OnlyPolls(c, |a|)
  {
  }

  /** Without a cancel, a wait that returns has just read a reply that
      reports a press. */
  lemma {:induction false} WaitEndsOnPress(s: State)
    requires !s.cancel && Uninterrupted(s)
    ensures WaitForFingerPress(s).outcome.Ok? ==> EndsWithPress(WaitForFingerPress(s).after.trace)
    decreases |s.rx|
  {
    var p := Poll(s);
    assert !p.cancel;
    var f := IsFingerPressed(p);
    if f.outcome == Ok(true) {
      PressedReply(p);
    } else if f.outcome == Ok(false) {
      UninterruptedFollows(s, f.after);
      WaitEndsOnPress(f.after);
    }
  }

  /** The reply IS_PRESS_FINGER took as a press is the one the trace records. */
  lemma PressedReply(s: State)
    requires IsFingerPressed(s).outcome == Ok(true)
    ensures EndsWithPress(IsFingerPressed(s).after.trace)
  {
    ReplyPrefix(s.rx);
  }

  /** A wait started with the flag set writes nothing and returns at once. */
  lemma CancelledWait(t: State)
    requires t.cancel
    ensures WaitForFingerPress(t).outcome.Ok?
    ensures WaitForFingerPress(t).after.trace == t.trace && WaitForFingerPress(t).after.rx == t.rx
  {
  }

  /** A press reported by the first reply ends the wait after one poll. */
  lemma PressEndsWait(s: State)
    requires !s.cancel && Uninterrupted(s) && Pressed(s.rx)
    ensures WaitForFingerPress(s).outcome.Ok?
    ensures Commands(WaitForFingerPress(s).after.trace) == Commands(s.trace) + [("IS_PRESS_FINGER", 0)]
  {
    var p := Poll(s);
    assert p.rx == s.rx && p.trace == s.trace && !p.cancel;
  }

  /* ---- led() and prompt_finger() ---- */

  /** `with self.led(): body`: CMOS_LED 1, the body, CMOS_LED 0. There is
      no try/finally around the yield, so when the body raises the LED-off
      command is never written. */
  function Led<T>(s: State, body: State -> Step<T>): (r: Step<T>)
    ensures SetLed(s, true).outcome.Err? ==>
              r.outcome.Err? && Commands(r.after.trace) == Commands(s.trace) + [("CMOS_LED", 1)]
    ensures SetLed(s, true).outcome.Ok? && body(SetLed(s, true).after).outcome.Err? ==>
              r == body(SetLed(s, true).after)
    ensures SetLed(s, true).outcome.Ok? && body(SetLed(s, true).after).outcome.Ok? ==>
              Commands(r.after.trace) == Commands(body(SetLed(s, true).after).after.trace) + [("CMOS_LED", 0)] &&
              (r.outcome.Ok? <==> ValidReply(body(SetLed(s, true).after).after.rx)) &&
              (r.outcome.Ok? ==> r.outcome == body(SetLed(s, true).after).outcome)
  {
    var on := SetLed(s, true);
    if on.outcome.Err? then Step(Err(on.outcome.error), on.after)
    else
      var b := body(on.after);
      if b.outcome.Err? then b
      else
        var off := SetLed(b.after, false);
        if off.outcome.Err? then Step(Err(off.outcome.error), off.after)
        else Step(b.outcome, off.after)
  }

  /** Run k after a step that succeeded; an error stops the sequence. */
  function Then<T>(p: Step<()>, k: State -> Step<T>): (r: Step<T>)
    ensures p.outcome.Err? ==> r.outcome.Err? && r.after == p.after
    ensures p.outcome.Ok? ==> r == k(p.after)
  {
    if p.outcome.Err? then Step(Err(p.outcome.error), p.after) else k(p.after)
  }

  /** `with self.prompt_finger(): body`: inside the LED bracket, wait for a
      press and then run the body, which is reached after a cancellation as
      well. */
  function PromptFinger<T>(s: State, body: State -> Step<T>): Step<T>
  {
    Led(s, AfterPress(body))
  }

  /** Inside the LED: wait for a press, then run the body. */
  function AfterPress<T>(body: State -> Step<T>): State -> Step<T>
  {
    t => Then(WaitForFingerPress(t), body)
  }

  /** Whenever `prompt_finger` returns normally, the last command it sent
      switched the LED off. */
  lemma PromptFingerReturnsDark<T>(s: State, body: State -> Step<T>)
    ensures PromptFinger(s, body).outcome.Ok? ==> LastCommand(PromptFinger(s, body).after, ("CMOS_LED", 0))
  {
    LedReturnsDark(s, AfterPress(body));
  }

  /** Whenever the LED wrapper returns normally, its last command switched
      the LED off. */
  lemma LedReturnsDark<T>(s: State, body: State -> Step<T>)
    ensures Led(s, body).outcome.Ok? ==> LastCommand(Led(s, body).after, ("CMOS_LED", 0))
  {
    var r := Led(s, body);
    if r.outcome.Ok? {
      var inner := Commands(body(SetLed(s, true).after).after.trace);
      assert Commands(r.after.trace) == inner + [("CMOS_LED", 0)];
    }
  }

  /** The body of prompt_finger_and_capture(): `capture()`, its result dropped. */
  function CaptureStep(t: State): (r: Step<()>)
    ensures r.after == Capture(t, false).after
    ensures r.outcome.Ok? <==> Capture(t, false).outcome.Ok?
  {
    var c := Capture(t, false);
    Step(if c.outcome.Ok? then Ok(()) else Err(c.outcome.error), c.after)
  }

  /** `prompt_finger_and_capture()`. */
  function PromptFingerAndCapture(s: State): Step<()>
  {
    PromptFinger(s, CaptureStep)
  }

  /** Inside prompt_finger_and_capture after a cancel(): the wait writes
      nothing and CAPTURE 0 follows at once. */
  lemma CaptureAfterCancelledWait(t: State)
    requires t.cancel
    ensures Commands(Then(WaitForFingerPress(t), CaptureStep).after.trace) == Commands(t.trace) + [("CAPTURE", 0)]
  {
    CancelledWait(t);
  }

  /** The capture is written even when the wait was cancelled: after a
      cancel(), prompt_finger_and_capture writes CMOS_LED 1 and then
      CAPTURE 0 straight away, with no press poll in between. */
  lemma CaptureAfterCancel(s: State)
    requires ValidReply(s.rx)
    ensures NextTwo(Commands(s.trace), Commands(PromptFingerAndCapture(Cancel(s)).after.trace),
                    ("CMOS_LED", 1), ("CAPTURE", 0))
  {
    var on := SetLed(Cancel(s), true);
    CaptureAfterCancelledWait(on.after);
    var k := t => Then(WaitForFingerPress(t), CaptureStep);
    var b := k(on.after);
    AppendTwo(Commands(s.trace), ("CMOS_LED", 1), ("CAPTURE", 0));
    LedKeepsBody(Cancel(s), k);
    var r := PromptFingerAndCapture(Cancel(s));
    PrefixNextTwo(Commands(s.trace), ("CMOS_LED", 1), ("CAPTURE", 0), Commands(b.after.trace), Commands(r.after.trace));
  }

  /** The two entries of `after` right past the length of `before` are x and y. */
  predicate NextTwo<T(==)>(before: seq<T>, after: seq<T>, x: T, y: T)
  {
    |before| + 2 <= |after| && after[|before|] == x && after[|before| + 1] == y
  }

  lemma PrefixNextTwo<T>(a: seq<T>, x: T, y: T, b: seq<T>, c: seq<T>)
    requires b == a + [x, y] && b <= c
    ensures NextTwo(a, c, x, y)
  {
    assert c[|a|] == b[|a|] && c[|a| + 1] == b[|a| + 1];
  }

  /** Once the LED is on, whatever the body wrote stays a prefix of what
      the bracket wrote. */
  lemma LedKeepsBody<T>(s: State, body: State -> Step<T>)
    requires SetLed(s, true).outcome.Ok?
    ensures Commands(body(SetLed(s, true).after).after.trace) <= Commands(Led(s, body).after.trace)
  {
  }

  /* ---- Operations that prompt ---- */

  /** `get_raw_image_safe()`: `_get_raw_image()` inside `led()`, because
      the sensor fails with the LED off. */
  function GetRawImageSafe(s: State): Step<Option<seq<byte>>>
  {
    Led(s, GetRawImage)
  }

  /** When every reply comes back, GET_RAWIMAGE is written strictly between
      the LED switching on and off. */
  lemma GetRawImageSafeCommands(s: State)
    requires ValidReply(s.rx) && GetRawImage(SetLed(s, true).after).outcome.Ok?
    ensures Commands(GetRawImageSafe(s).after.trace) ==
              Commands(s.trace) + [("CMOS_LED", 1), ("GET_RAWIMAGE", 0), ("CMOS_LED", 0)]
  {
    var a := Commands(s.trace);
    var on := SetLed(s, true);
    var g := GetRawImage(on.after);
    assert Commands(g.after.trace) == a + [("CMOS_LED", 1)] + [("GET_RAWIMAGE", 0)];
    AppendThree(a, ("CMOS_LED", 1), ("GET_RAWIMAGE", 0), ("CMOS_LED", 0));
  }

  lemma AppendThree<T>(a: seq<T>, x: T, y: T, z: T)
    ensures a + [x] + [y] + [z] == a + [x, y, z]
  {
  }

  /** What identify() does once the capture has returned: IDENTIFY, the
      matching user id on ACK, None on a NACK `response_error` knows. */
  function IdentifyReply(t: State): (r: Step<Option<int>>)
    ensures r.outcome == Ok(None) <==> KnownNack(t.rx)
    ensures r.outcome.Ok? && r.outcome.value.Some? <==> Acked(t.rx)
    ensures Acked(t.rx) ==> r.outcome == Ok(Some(ReplyParameter(t.rx)))
    ensures ValidReply(t.rx) && !Acked(t.rx) && !KnownNack(t.rx) ==> r.outcome == Err(UnknownNack(ReplyParameter(t.rx)))
    ensures Commands(r.after.trace) == Commands(t.trace) + [("IDENTIFY", 0)]
  {
    var st := SendCommand(t, "IDENTIFY", 0);
    SendCommandFollows(t, "IDENTIFY", 0);
    SendCommandOutcome(t, "IDENTIFY", 0);
    if st.outcome.Err? then Step(Err(st.outcome.error), st.after)
    else match LogNack(st)
      case Err(e) => Step(Err(e), st.after)
      case Ok(_) =>
        var (code, parameter) := st.outcome.value;
        Step(Ok(if code == 0x30 then Some(parameter) else None), st.after)
  }

  /** `identify()`: prompt and capture, then IDENTIFY. */
  function Identify(s: State): Step<Option<int>>
  {
    Then(PromptFingerAndCapture(s), IdentifyReply)
  }

  /** What verify(id) does once the capture has returned: VERIFY id. */
  function VerifyReply(t: State, id: int): (r: Step<bool>)
    ensures r.outcome == Ok(true) <==> 0 <= id < 0x1_0000_0000 && Acked(t.rx)
    ensures r.outcome == Ok(false) <==> 0 <= id < 0x1_0000_0000 && KnownNack(t.rx)
    ensures Commands(r.after.trace) == Commands(t.trace) + (if 0 <= id < 0x1_0000_0000 then [("VERIFY", id)] else [])
  {
    CheckedCommand(t, "VERIFY", id);
    Checked(t, "VERIFY", id)
  }

  /** `verify(id)`: prompt and capture, then VERIFY id. */
  function Verify(s: State, id: int): Step<bool>
  {
    Then(PromptFingerAndCapture(s), t => VerifyReply(t, id))
  }
}
