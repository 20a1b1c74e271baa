/** The command and error catalogs of gt521f32/packets.py: `command_codes`,
    `response_error` and the `reverse` helper that inverts a dictionary. */
module Catalog {

  /** `command_codes`: command names to the 16-bit codes the device understands. */
  const CommandCodes: map<string, int> := map[
    "OPEN" := 0x01, "CLOSE" := 0x02, "USB_INTERNAL_CHECK" := 0x03,
    "CHANGE_BAUDRATE" := 0x04, "MODULE_INFO" := 0x06, "CMOS_LED" := 0x12,
    "ENROLL_COUNT" := 0x20, "CHECK_ENROLLED" := 0x21, "ENROLL_START" := 0x22,
    "ENROLL1" := 0x23, "ENROLL2" := 0x24, "ENROLL3" := 0x25,
    "IS_PRESS_FINGER" := 0x26, "DELETE_ID" := 0x40, "DELETE_ALL" := 0x41,
    "VERIFY" := 0x50, "IDENTIFY" := 0x51, "VERIFY_TEMPLATE" := 0x52,
    "IDENTIFY_TEMPLATE" := 0x53, "CAPTURE" := 0x60, "MAKE_TEMPLATE" := 0x61,
    "GET_IMAGE" := 0x62, "GET_RAWIMAGE" := 0x63, "GET_TEMPLATE" := 0x70,
    "SET_TEMPLATE" := 0x71, "GET_DATABASE_START" := 0x72, "GET_DATABASE_END" := 0x73,
    "FW_UPDATE" := 0x80, "ISO_UPDATE" := 0x81, "FAKE_DETECTOR" := 0x91,
    "SET_SECURITY_LEVEL" := 0xF0, "GET_SECURITY_LEVEL" := 0xF1,
    "IDENTIFY_TEMPLATE_2" := 0xF4, "STANDBY_MODE" := 0xF9,
    "ACK_OK" := 0x30, "NACK_INFO" := 0x31
  ]

  /** Every command code fits the 16-bit command field of a frame. */
  lemma CommandCodesFit(name: string)
    requires name in CommandCodes
    ensures 0 <= CommandCodes[name] < 0x1_0000
  {
  }

  /** `ACK_OK`, the response code of a successful command. */
  const AckOk: int := CommandCodes["ACK_OK"]

  /** The NACK names of `response_error`. */
  datatype Nack =
    | NackTimeout | NackInvalidBaudrate | NackInvalidPos | NackIsNotUsed
    | NackIsAlreadyUsed | NackCommErr | NackVerifyFailed | NackIdentifyFailed
    | NackDbIsFull | NackDbIsEmpty | NackTurnErr | NackBadFinger
    | NackEnrollFailed | NackIsNotSupported | NackDevErr | NackCaptureCanceled
    | NackInvalidParam | NackFingerIsNotPressed

  /** `response_error`, in insertion order: NACK names to their error codes. */
  const ResponseErrors: seq<(Nack, int)> := [
    (NackTimeout, 0x1001), (NackInvalidBaudrate, 0x1002),
    (NackInvalidPos, 0x1003), (NackIsNotUsed, 0x1004),
    (NackIsAlreadyUsed, 0x1005), (NackCommErr, 0x1006),
    (NackVerifyFailed, 0x1007), (NackIdentifyFailed, 0x1008),
    (NackDbIsFull, 0x1009), (NackDbIsEmpty, 0x100A),
    (NackTurnErr, 0x100B), (NackBadFinger, 0x100C),
    (NackEnrollFailed, 0x100D), (NackIsNotSupported, 0x100E),
    (NackDevErr, 0x100F), (NackCaptureCanceled, 0x1010),
    (NackInvalidParam, 0x1011), (NackFingerIsNotPressed, 0x1012)
  ]

  /** `reverse`: the value-to-key dictionary built by one pass over the
      entries, so a later entry overwrites an earlier one with the same value. */
  function Reverse<K>(es: seq<(K, int)>): map<int, K>
  {
    if es == [] then map[]
    else Reverse(es[..|es| - 1])[es[|es| - 1].1 := es[|es| - 1].0]
  }

  /** A value is a key of the reverse iff some entry carries it. */
  lemma {:induction false} ReverseKeys<K>(es: seq<(K, int)>, c: int)
    ensures c in Reverse(es) <==> exists i :: 0 <= i < |es| && es[i].1 == c
  {
    if es != [] {
      var init := es[..|es| - 1];
      ReverseKeys(init, c);
      if c in Reverse(init) {
        var i :| 0 <= i < |init| && init[i].1 == c;
        assert es[i] == init[i];
      }
      if c != es[|es| - 1].1 && exists i :: 0 <= i < |es| && es[i].1 == c {
        var i :| 0 <= i < |es| && es[i].1 == c;
        assert init[i] == es[i];
      }
    }
  }

  /** The entry that wins in `reverse` is the last one with that value. */
  lemma {:induction false} ReverseLastWins<K>(es: seq<(K, int)>, i: nat)
    requires i < |es|
    requires forall j :: i < j < |es| ==> es[j].1 != es[i].1
    ensures es[i].1 in Reverse(es) && Reverse(es)[es[i].1] == es[i].0
  {
    if i < |es| - 1 {
      var init := es[..|es| - 1];
      assert init[i] == es[i];
      ReverseLastWins(init, i);
    }
  }

  /** The entries carry the consecutive codes base, base + 1, ... */
  predicate Consecutive<K>(es: seq<(K, int)>, base: int)
  {
    forall i :: 0 <= i < |es| ==> es[i].1 == base + i
  }

  /** Reversing entries with consecutive codes gives back every name, and
      exactly those codes. */
  lemma ConsecutiveReverse<K>(es: seq<(K, int)>, base: int)
    requires Consecutive(es, base)
    ensures forall c :: c in Reverse(es) <==> base <= c < base + |es|
    ensures forall i :: 0 <= i < |es| ==> es[i].1 in Reverse(es) && Reverse(es)[es[i].1] == es[i].0
  {
    forall i | 0 <= i < |es|
      ensures es[i].1 in Reverse(es) && Reverse(es)[es[i].1] == es[i].0
    {
      ReverseLastWins(es, i);
    }
    forall c
      ensures c in Reverse(es) <==> base <= c < base + |es|
    {
      ReverseKeys(es, c);
      if base <= c < base + |es| {
        assert es[c - base].1 == c;
      }
    }
  }

  /** The reverse of the NACK table is a bijection: every listed code maps
      back to its own name, and the codes are exactly 0x1001 to 0x1012. */
  lemma ResponseErrorBijection()
    ensures forall c :: c in Reverse(ResponseErrors) <==> 0x1001 <= c <= 0x1012
    ensures forall i :: 0 <= i < |ResponseErrors| ==>
              Reverse(ResponseErrors)[ResponseErrors[i].1] == ResponseErrors[i].0
  {
    forall i | 0 <= i < |ResponseErrors|
      ensures ResponseErrors[i].1 == 0x1001 + i
    {
    }
    ConsecutiveReverse(ResponseErrors, 0x1001);
  }

  /** An error code `reverse(response_error)` can look up. */
  predicate KnownError(code: int)
  {
    code in Reverse(ResponseErrors)
  }

  lemma KnownErrorRange(code: int)
    ensures KnownError(code) <==> 0x1001 <= code <= 0x1012
  {
    ResponseErrorBijection();
  }
}
