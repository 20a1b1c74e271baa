/** The `GT521F32` class of gt521f32/gt521f32.py over an abstract transport.

    The device is the byte stream `rx` it will send: a read of n bytes
    takes min(n, |rx|) bytes off its front, so a silent device is a short
    read. Every frame written and every read is recorded in `trace`.
    `cancel` is the `threading.Event` flag; `interrupts` says, for each
    successive `is_set()` check, whether another thread has called
    `cancel()` just before it.

    A call that raises is an `Err` outcome; the state it leaves behind
    (what was written and read before the exception) is kept. */
module Driver {
  import opened Basics
  import opened Codec
  import opened Packets
  import opened Catalog
  import opened Views
  import opened Ports
  import opened Text

  datatype Event =
    | Sent(name: string, parameter: int, frame: seq<byte>)
    | Received(requested: nat, got: seq<byte>)
    | InterfaceOpened(baudRate: Option<int>)
    | InterfaceClosed

  datatype State = State(
    port: string,
    kind: Kind,
    baudRate: Option<int>,
    rx: seq<byte>,
    trace: seq<Event>,
    cancel: bool,
    interrupts: seq<bool>,
    info: Option<OpenInfo>)

  /** The exceptions the driver lets escape. */
  datatype Error =
    | BadPort(reason: PortError)   // _choose_interface_type
    | BaudRateNotSerial            // a baud rate given for a SCSI port
    | OpenFailed                   // an InterfaceException from the open, wrapped by __init__
    | OpenEscaped(cause: OpenFailure) // any other exception from the open, unwrapped
    | InterfaceError               // the interface could not be reopened
    | InvalidCommand               // a name missing from command_codes
    | PackError                    // struct.error packing the command frame
    | CommandFailed                // the response decoded to None
    | UnpackError                  // struct.error on a short read
    | NoneAttribute                // a data packet decoded to None and was used anyway
    | UnknownNack(code: int)       // KeyError in reverse(response_error)[parameter]
    | NotImplemented               // change_baud_rate_and_reopen on a SCSI interface

  /** The ways opening the interface in `__init__` can fail. Which of them
      happens is a parameter of construction, as the device is. */
  datatype OpenFailure =
    | SerialConstruct   // SerialException from serial.Serial(...), raised again as SerialInterfaceException
    | SerialReopen      // SerialException from the second self._serial.open(), outside the try
    | SerialValue       // ValueError from pyserial, e.g. for a baud rate it rejects
    | ScsiNotFound      // FileNotFoundError opening the Linux device file
    | ScsiPermission    // PermissionError opening the Linux device file
    | ScsiOtherOs       // any other OSError opening the Linux device file
    | WindowsDriveType  // WindowsSCSIInterfaceException "Drive type is incorrect."
    | WindowsCreateFile // WindowsSCSIInterfaceException "Could not open drive."

  /** The failures the interface classes raise as an InterfaceException,
      as written: the serial and Linux SCSI classes wrap theirs, but
      WindowsSCSIInterfaceException derives from Exception directly. */
  predicate IsInterfaceExceptionAsWritten(f: OpenFailure)
  {
    f.SerialConstruct? || f.ScsiNotFound? || f.ScsiPermission?
  }

  /** The same with WindowsSCSIInterfaceException derived from
      InterfaceException, like its serial and Linux siblings. */
  predicate IsInterfaceException(f: OpenFailure)
  {
    IsInterfaceExceptionAsWritten(f) || f.WindowsDriveType? || f.WindowsCreateFile?
  }

  /** The Windows open failures are the only ones the two classifications
      disagree on: as written they escape `__init__` unwrapped. */
  lemma WindowsExceptionDiffers(f: OpenFailure)
    ensures IsInterfaceException(f) && !IsInterfaceExceptionAsWritten(f) <==>
              f == WindowsDriveType || f == WindowsCreateFile
    ensures IsInterfaceException(f) <==> !(f == SerialReopen || f == SerialValue || f == ScsiOtherOs)
  {
  }

  /** A call's outcome and the state after it. */
  datatype Step<+T> = Step(outcome: Result<T, Error>, after: State)

  /* ---- The wire, read directly ---- */

  /** A name send_command accepts with a parameter struct can pack. */
  predicate Sendable(name: string, x: int)
  {
    name in CommandCodes && 0 <= x < 0x1_0000_0000
  }

  /** The twelve bytes of a command: 55 AA 01 00, the parameter and the code
      little-endian, and the checksum of those ten bytes. */
  function Frame(name: string, x: int): (r: seq<byte>)
    requires Sendable(name, x)
    ensures |r| == 12
  {
    CommandCodesFit(name);
    var fb := [0x55, 0xAA, 0x01, 0x00] + Le(x, 4) + Le(CommandCodes[name], 2);
    fb + Le(Checksum(fb), 2)
  }

  /** The stream starts with a whole reply frame whose checksum holds. */
  predicate ValidReply(rx: seq<byte>)
  {
    |rx| >= 12 && FromLe(rx[10..12]) == Checksum(rx[..10])
  }

  function ReplyCode(rx: seq<byte>): nat
    requires |rx| >= 12
  {
    FromLe(rx[8..10])
  }

  function ReplyParameter(rx: seq<byte>): nat
    requires |rx| >= 12
  {
    FromLe(rx[4..8])
  }

  /** A valid ACK reply. */
  predicate Acked(rx: seq<byte>)
  {
    ValidReply(rx) && ReplyCode(rx) == 0x30
  }

  /** A valid NACK reply carrying one of the listed error codes. */
  predicate KnownNack(rx: seq<byte>)
  {
    ValidReply(rx) && ReplyCode(rx) != 0x30 && 0x1001 <= ReplyParameter(rx) <= 0x1012
  }

  /** The (name, parameter) of every command written, in order. */
  function Commands(trace: seq<Event>): seq<(string, int)>
  {
    if trace == [] then []
    else
      var e := trace[|trace| - 1];
      Commands(trace[..|trace| - 1]) + (if e.Sent? then [(e.name, e.parameter)] else [])
  }

  /** The last command written so far was `cmd`. */
  predicate LastCommand(st: State, cmd: (string, int))
  {
    var c := Commands(st.trace);
    |c| > 0 && c[|c| - 1] == cmd
  }

  lemma {:induction false} CommandsAppend(a: seq<Event>, b: seq<Event>)
    ensures Commands(a + b) == Commands(a) + Commands(b)
    decreases |b|
  {
    if b != [] {
      var b' := b[..|b| - 1];
      var e := b[|b| - 1];
      var tail := if e.Sent? then [(e.name, e.parameter)] else [];
      assert (a + b)[..|a + b| - 1] == a + b';
      assert (a + b)[|a + b| - 1] == e;
      assert Commands(a + b) == Commands(a + b') + tail;
      assert Commands(b) == Commands(b') + tail;
      CommandsAppend(a, b');
    } else {
      assert a + b == a;
    }
  }

  /** Events that write nothing add no command. */
  lemma CommandsQuiet(a: seq<Event>, e: Event)
    requires !e.Sent?
    ensures Commands(a + [e]) == Commands(a)
  {
    assert (a + [e])[..|a|] == a;
  }

  /** `a` is what is left of `b` after some of its front was taken. */
  predicate Suffix<T(==)>(a: seq<T>, b: seq<T>)
  {
    |a| <= |b| && a == b[|b| - |a|..]
  }

  /** What every call keeps: the port and the interface kind, a trace that
      only grows, and a byte stream and interrupt script only consumed
      from the front. */
  predicate Follows(s: State, t: State)
  {
    t.port == s.port && t.kind == s.kind && s.trace <= t.trace &&
    Suffix(t.rx, s.rx) && Suffix(t.interrupts, s.interrupts)
  }

  lemma FollowsTrans(s: State, t: State, u: State)
    requires Follows(s, t) && Follows(t, u)
    ensures Follows(s, u)
  {
    assert u.rx == s.rx[|s.rx| - |u.rx|..];
    assert u.interrupts == s.interrupts[|s.interrupts| - |u.interrupts|..];
  }

  /* ---- Construction ---- */

  /** The rest of `GT521F32(port, baudrate)` once the port has been
      classified: refuse a baud rate for SCSI, then open the interface
      (`opening` is None when that succeeds). `wraps` says which open
      failures are InterfaceExceptions, the only ones the `except` turns
      into the "Failed to open" error; the rest, and the classification's
      own exception, escape unwrapped. */
  function Construct(port: string, choice: Result<Kind, PortError>, baudRate: Option<int>,
                     opening: Option<OpenFailure>, wraps: OpenFailure -> bool,
                     rx: seq<byte>, interrupts: seq<bool>): Result<State, Error>
  {
    match choice
    case Err(e) => Err(BadPort(e))
    case Ok(kind) =>
      if baudRate.Some? && kind != Serial then Err(BaudRateNotSerial)
      else if opening.Some? then
        (if wraps(opening.value) then Err(OpenFailed) else Err(OpenEscaped(opening.value)))
      else Ok(State(port, kind, baudRate, rx, [InterfaceOpened(baudRate)], false, interrupts, None))
  }

  /** `GT521F32(port, baudrate)` with the corrected port classification and
      the corrected Windows exception class. */
  function Init(port: string, baudRate: Option<int>, opening: Option<OpenFailure>, rx: seq<byte>, interrupts: seq<bool>)
    : (r: Result<State, Error>)
    ensures r.Ok? <==> ChooseInterface(port).Ok? && (baudRate.Some? ==> ChooseInterface(port) == Ok(Serial)) && opening.None?
    ensures ChooseInterface(port).Err? ==> r == Err(BadPort(UnknownPort))
    ensures ChooseInterface(port) == Ok(Scsi) && baudRate.Some? ==> r == Err(BaudRateNotSerial)
    ensures ChooseInterface(port).Ok? && (baudRate.Some? ==> ChooseInterface(port) == Ok(Serial)) && opening.Some? ==>
              r == (if IsInterfaceException(opening.value) then Err(OpenFailed) else Err(OpenEscaped(opening.value)))
    ensures r.Ok? ==> r.value.kind == ChooseInterface(port).value && r.value.port == port &&
                      r.value.trace == [InterfaceOpened(baudRate)] && !r.value.cancel && r.value.info == None
  {
    ChooseInterfaceSpec(port);
    Construct(port, ChooseInterface(port), baudRate, opening, IsInterfaceException, rx, interrupts)
  }

  /** `GT521F32(port, baudrate)` as written: the port names on which
      `_choose_interface_type` raises IndexError make the constructor raise
      it, and a Windows open failure escapes unwrapped; on every other
      input it behaves as the corrected constructor. */
  function InitAsWritten(port: string, baudRate: Option<int>, opening: Option<OpenFailure>, rx: seq<byte>, interrupts: seq<bool>)
    : (r: Result<State, Error>)
    ensures r == Err(BadPort(IndexError)) <==>
              !SerialName(port) && !("/dev/sg" <= port) && (|port| == 0 || (|port| == 1 && IsAlpha(port[0])))
    ensures r.Err? && r.error.OpenEscaped? && r.error.cause.WindowsDriveType? <==>
              Init(port, baudRate, opening, rx, interrupts) == Err(OpenFailed) && opening == Some(WindowsDriveType)
    ensures r.Err? && r.error.OpenEscaped? && r.error.cause.WindowsCreateFile? <==>
              Init(port, baudRate, opening, rx, interrupts) == Err(OpenFailed) && opening == Some(WindowsCreateFile)
    ensures r != Err(BadPort(IndexError)) && !(opening.Some? && (opening.value.WindowsDriveType? || opening.value.WindowsCreateFile?)) ==>
              r == Init(port, baudRate, opening, rx, interrupts)
  {
    AsWrittenDiffers(port);
    ChooseInterfaceSpec(port);
    Construct(port, ChooseInterfaceAsWritten(port), baudRate, opening, IsInterfaceExceptionAsWritten, rx, interrupts)
  }

  /** The port names "" and "C" make the constructor as written raise
      IndexError, where the corrected one rejects them as unknown ports. */
  lemma InitIndexErrorWitness(baudRate: Option<int>, opening: Option<OpenFailure>, rx: seq<byte>, interrupts: seq<bool>)
    ensures InitAsWritten("", baudRate, opening, rx, interrupts) == Err(BadPort(IndexError))
    ensures Init("", baudRate, opening, rx, interrupts) == Err(BadPort(UnknownPort))
    ensures InitAsWritten("C", baudRate, opening, rx, interrupts) == Err(BadPort(IndexError))
    ensures Init("C", baudRate, opening, rx, interrupts) == Err(BadPort(UnknownPort))
  {
    IndexErrorWitness();
  }

  /** A drive letter whose drive has the wrong type makes the constructor as
      written raise WindowsSCSIInterfaceException itself, where the
      corrected one raises the wrapped "Failed to open" error. */
  lemma InitWindowsWitness(rx: seq<byte>, interrupts: seq<bool>)
    ensures InitAsWritten("E:", None, Some(WindowsDriveType), rx, interrupts) == Err(OpenEscaped(WindowsDriveType))
    ensures Init("E:", None, Some(WindowsDriveType), rx, interrupts) == Err(OpenFailed)
  {
    ChooseInterfaceSpec("E:");
    AsWrittenDiffers("E:");
  }

  /* ---- send_command ---- */

  /** `self._interface.read(n)`. */
  function Read(s: State, n: nat): (r: (seq<byte>, State))
    ensures r.0 == s.rx[..Min(n, |s.rx|)]
    ensures r.1 == s.(rx := s.rx[Min(n, |s.rx|)..], trace := s.trace + [Received(n, r.0)])
  {
    var k := Min(n, |s.rx|);
    (s.rx[..k], s.(rx := s.rx[k..], trace := s.trace + [Received(n, s.rx[..k])]))
  }

  lemma ReadFollows(s: State, n: nat)
    ensures Follows(s, Read(s, n).1)
    ensures Commands(Read(s, n).1.trace) == Commands(s.trace)
  {
    CommandsQuiet(s.trace, Received(n, Read(s, n).0));
  }

  /** `ResponsePacket.from_bytes(got)` as send_command uses it: the code
      and parameter of a whole reply whose checksum holds; otherwise
      "Command failed" when the read stopped at a field boundary (None)
      and a struct error when it stopped inside a field. */
  function DecodeReply(got: seq<byte>): (r: Result<(int, int), Error>)
    ensures r.Ok? <==> ValidReply(got)
    ensures r.Ok? ==> r.value == (ReplyCode(got), ReplyParameter(got))
    ensures r == Err(UnpackError) <==> |got| < 12 && |got| !in {0, 1, 2, 4, 8, 10}
    ensures r.Err? ==> r == Err(UnpackError) || r == Err(CommandFailed)
  {
    ResponseOutcome(got);
    match FromBytes(ResponseTemplate(), got)
    case Decoded(p) =>
      ResponseFields(got);
      Ok((ResponseCodeOf(p), ParameterOf(p)))
    case Rejected(_) => Err(CommandFailed)
    case StructError => Err(UnpackError)
  }

  /** The reply is read from the first twelve bytes of the stream only. */
  lemma ReplyPrefix(rx: seq<byte>)
    ensures ValidReply(rx[..Min(12, |rx|)]) <==> ValidReply(rx)
    ensures ValidReply(rx) ==>
              ReplyCode(rx[..12]) == ReplyCode(rx) && ReplyParameter(rx[..12]) == ReplyParameter(rx)
  {
    if |rx| >= 12 {
      var g := rx[..12];
      assert g[10..12] == rx[10..12] && g[..10] == rx[..10];
      assert g[8..10] == rx[8..10] && g[4..8] == rx[4..8];
    }
  }

  /** `send_command(name, x)`: a name outside the catalog, or a parameter
      struct cannot pack, raises before anything is written. Otherwise the
      twelve-byte frame is written and twelve bytes are read; the reply is
      accepted exactly when twelve bytes with a matching checksum arrived,
      and then its code and parameter come back uninterpreted, ACK or not. */
  function SendCommand(s: State, name: string, x: int): (r: Step<(int, int)>)
    ensures name !in CommandCodes ==> r == Step(Err(InvalidCommand), s)
    ensures name in CommandCodes && !(0 <= x < 0x1_0000_0000) ==> r == Step(Err(PackError), s)
    ensures Sendable(name, x) ==>
              r.after == s.(rx := s.rx[Min(12, |s.rx|)..],
                            trace := s.trace + [Sent(name, x, Frame(name, x)), Received(12, s.rx[..Min(12, |s.rx|)])])
    ensures Sendable(name, x) ==> r.outcome == DecodeReply(s.rx[..Min(12, |s.rx|)])
  {
    if name !in CommandCodes then Step(Err(InvalidCommand), s)
    else
      var code := CommandCodes[name];
      CommandCodesFit(name);
      CommandWire(x, code);
      match ToBytes(CommandPacket(x, code))
      case None => Step(Err(PackError), s)
      case Some(frame) =>
        var (got, s1) := Read(s.(trace := s.trace + [Sent(name, x, frame)]), 12);
        Step(DecodeReply(got), s1)
  }

  /** What send_command returns, read off the stream: a value exactly when
      the name and parameter are accepted and a whole valid reply is
      waiting, and then the reply's code and parameter. */
  lemma SendCommandOutcome(s: State, name: string, x: int)
    ensures SendCommand(s, name, x).outcome.Ok? <==> Sendable(name, x) && ValidReply(s.rx)
    ensures SendCommand(s, name, x).outcome.Ok? ==>
              SendCommand(s, name, x).outcome.value == (ReplyCode(s.rx), ReplyParameter(s.rx))
    ensures SendCommand(s, name, x).outcome == Err(UnpackError) <==>
              Sendable(name, x) && |s.rx| < 12 && |s.rx| !in {0, 1, 2, 4, 8, 10}
  {
    ReplyPrefix(s.rx);
  }

  /** send_command keeps the state's invariants and adds exactly the
      command it wrote to the command trace. */
  lemma SendCommandFollows(s: State, name: string, x: int)
    ensures Follows(s, SendCommand(s, name, x).after)
    ensures Commands(SendCommand(s, name, x).after.trace) ==
              Commands(s.trace) + (if Sendable(name, x) then [(name, x)] else [])
  {
    if Sendable(name, x) {
      var e1, e2 := Sent(name, x, Frame(name, x)), Received(12, s.rx[..Min(12, |s.rx|)]);
      assert s.trace + [e1, e2] == (s.trace + [e1]) + [e2];
      CommandsQuiet(s.trace + [e1], e2);
      assert (s.trace + [e1])[..|s.trace|] == s.trace;
    }
  }

  /** send_command for a catalogued command, in terms of the parameter
      alone: it returns exactly on a valid reply to a parameter that fits,
      sends that one command and keeps the cache and the baud rate. */
  lemma SendCatalogued(s: State, name: string, x: int)
    requires name in CommandCodes
    ensures SendCommand(s, name, x).outcome.Ok? <==> 0 <= x < 0x1_0000_0000 && ValidReply(s.rx)
    ensures SendCommand(s, name, x).outcome.Ok? ==>
              SendCommand(s, name, x).outcome.value == (ReplyCode(s.rx), ReplyParameter(s.rx))
    ensures Commands(SendCommand(s, name, x).after.trace) ==
              Commands(s.trace) + (if 0 <= x < 0x1_0000_0000 then [(name, x)] else [])
    ensures Follows(s, SendCommand(s, name, x).after)
    ensures SendCommand(s, name, x).after.info == s.info && SendCommand(s, name, x).after.baudRate == s.baudRate
  {
    SendCommandFollows(s, name, x);
    SendCommandOutcome(s, name, x);
  }

  /** The pattern of the boolean commands (enroll_start, capture,
      is_id_enrolled, delete_id, delete_all, verify): True on ACK, False on a
      NACK whose code `reverse(response_error)` knows; any other NACK code
      makes that lookup raise KeyError. */
  function Checked(s: State, name: string, x: int): (r: Step<bool>)
    ensures r.after == SendCommand(s, name, x).after
    ensures r.outcome == Ok(true) <==> Sendable(name, x) && Acked(s.rx)
    ensures r.outcome == Ok(false) <==> Sendable(name, x) && KnownNack(s.rx)
    ensures Sendable(name, x) && ValidReply(s.rx) && !Acked(s.rx) && !KnownNack(s.rx) ==>
              r.outcome == Err(UnknownNack(ReplyParameter(s.rx)))
    ensures SendCommand(s, name, x).outcome.Err? ==> r.outcome == Err(SendCommand(s, name, x).outcome.error)
  {
    var st := SendCommand(s, name, x);
    SendCommandOutcome(s, name, x);
    match st.outcome
    case Err(e) => Step(Err(e), st.after)
    case Ok((code, parameter)) =>
      KnownErrorRange(parameter);
      if code == AckOk then Step(Ok(true), st.after)
      else if KnownError(parameter) then Step(Ok(false), st.after)
      else Step(Err(UnknownNack(parameter)), st.after)
  }

  /** Checked for a catalogued command, in terms of the parameter alone:
      what it returns and the one command it sends. */
  lemma CheckedCommand(s: State, name: string, x: int)
    requires name in CommandCodes
    ensures Checked(s, name, x).outcome == Ok(true) <==> 0 <= x < 0x1_0000_0000 && Acked(s.rx)
    ensures Checked(s, name, x).outcome == Ok(false) <==> 0 <= x < 0x1_0000_0000 && KnownNack(s.rx)
    ensures Commands(Checked(s, name, x).after.trace) ==
              Commands(s.trace) + (if 0 <= x < 0x1_0000_0000 then [(name, x)] else [])
    ensures Follows(s, Checked(s, name, x).after)
  {
    SendCommandFollows(s, name, x);
  }

  /** A NACK code is looked up in `reverse(response_error)` only to be
      logged, but the lookup raises KeyError on a code it does not know. */
  function LogNack(st: Step<(int, int)>): (r: Result<(), Error>)
    requires st.outcome.Ok?
    ensures r.Err? <==> st.outcome.value.0 != 0x30 && !(0x1001 <= st.outcome.value.1 <= 0x1012)
    ensures r.Err? ==> r.error == UnknownNack(st.outcome.value.1)
  {
    var (code, parameter) := st.outcome.value;
    KnownErrorRange(parameter);
    if code != AckOk && !KnownError(parameter) then Err(UnknownNack(parameter)) else Ok(())
  }

  /* ---- Single-shot operations ---- */

  /** `usb_internal_check()`: the reply is not looked at. */
  function UsbInternalCheck(s: State): (r: Step<()>)
    ensures r.outcome.Ok? <==> ValidReply(s.rx)
    ensures Commands(r.after.trace) == Commands(s.trace) + [("USB_INTERNAL_CHECK", 0)]
    ensures Follows(s, r.after)
  {
    var st := SendCommand(s, "USB_INTERNAL_CHECK", 0);
    SendCommandFollows(s, "USB_INTERNAL_CHECK", 0);
    SendCommandOutcome(s, "USB_INTERNAL_CHECK", 0);
    Step(if st.outcome.Ok? then Ok(()) else Err(st.outcome.error), st.after)
  }

  /** `change_baud_rate(b)`: a NACK is only logged, unless its code is
      unknown. */
  function ChangeBaudRate(s: State, baudRate: int): (r: Step<()>)
    ensures r.outcome.Ok? <==>
              0 <= baudRate < 0x1_0000_0000 && ValidReply(s.rx) && (Acked(s.rx) || KnownNack(s.rx))
    ensures Commands(r.after.trace) ==
              Commands(s.trace) + (if 0 <= baudRate < 0x1_0000_0000 then [("CHANGE_BAUDRATE", baudRate)] else [])
    ensures Follows(s, r.after) && r.after.info == s.info && r.after.baudRate == s.baudRate
  {
    var st := SendCommand(s, "CHANGE_BAUDRATE", baudRate);
    SendCatalogued(s, "CHANGE_BAUDRATE", baudRate);
    if st.outcome.Err? then Step(Err(st.outcome.error), st.after)
    else Step(LogNack(st), st.after)
  }

  /** The end of change_baud_rate_and_reopen(): the serial interface is
      closed and a new one opened at the given rate (`reopens` says
      whether that succeeds; the failure is not caught). */
  function Reopen(s: State, baudRate: int, reopens: bool): (r: Step<()>)
    ensures r.outcome.Ok? <==> reopens
    ensures r.outcome.Ok? ==>
              r.after == s.(baudRate := Some(baudRate), trace := s.trace + [InterfaceClosed, InterfaceOpened(Some(baudRate))])
    ensures r.outcome.Err? ==> r.after == s.(trace := s.trace + [InterfaceClosed])
  {
    var closed := s.(trace := s.trace + [InterfaceClosed]);
    if !reopens then Step(Err(InterfaceError), closed)
    else Step(Ok(()), closed.(baudRate := Some(baudRate), trace := closed.trace + [InterfaceOpened(Some(baudRate))]))
  }

  /** `change_baud_rate_and_reopen(b)`: refused on a SCSI interface before
      anything is sent; otherwise the baud change is sent and, whatever
      the device answered (a known NACK included), the serial interface is
      closed and reopened at the new rate. */
  function ChangeBaudRateAndReopen(s: State, baudRate: int, reopens: bool): (r: Step<()>)
    ensures s.kind == Scsi ==> r == Step(Err(NotImplemented), s)
    ensures s.kind == Serial ==>
              (r.outcome.Ok? <==>
                 0 <= baudRate < 0x1_0000_0000 && ValidReply(s.rx) && (Acked(s.rx) || KnownNack(s.rx)) && reopens)
    ensures r.outcome.Ok? ==>
              r.after.baudRate == Some(baudRate) &&
              r.after.trace == ChangeBaudRate(s, baudRate).after.trace + [InterfaceClosed, InterfaceOpened(Some(baudRate))]
    ensures Follows(s, r.after)
  {
    if s.kind != Serial then Step(Err(NotImplemented), s)
    else
      var st := ChangeBaudRate(s, baudRate);
      if st.outcome.Err? then st
      else Reopen(st.after, baudRate, reopens)
  }

  /** `open()`: OPEN with parameter 1, whatever its reply code, then a
      30-byte data frame whose firmware version, ISO area size and serial
      number are cached and returned. The data frame is read from the
      stream right after the reply. */
  function Open(s: State): (r: Step<OpenInfo>)
    ensures r.outcome.Ok? <==> ValidReply(s.rx) && DecodeOpenData(s.rx[12..]).Some?
    ensures r.outcome.Ok? ==>
              r.outcome.value == DecodeOpenData(s.rx[12..]).value && r.after.info == Some(r.outcome.value)
    ensures r.outcome.Err? ==> r.after.info == s.info
    ensures Commands(r.after.trace) == Commands(s.trace) + [("OPEN", 1)]
    ensures Follows(s, r.after)
  {
    var st := SendCommand(s, "OPEN", 1);
    SendCommandFollows(s, "OPEN", 1);
    SendCommandOutcome(s, "OPEN", 1);
    if st.outcome.Err? then Step(Err(st.outcome.error), st.after)
    else
      var (got, s1) := Read(st.after, 30);
      ReadFollows(st.after, 30);
      FollowsTrans(s, st.after, s1);
      OpenDataPrefix(st.after.rx, 30);
      OpenDataOutcome(got);
      if FromBytes(OpenDataTemplate(), got).StructError? then Step(Err(UnpackError), s1)
      else match DecodeOpenData(got)
        case None => Step(Err(NoneAttribute), s1)
        case Some(info) => Step(Ok(info), s1.(info := Some(info)))
  }

  /** The data half of module_info(): read n bytes and decode them as a
      module-info frame. */
  function ReadModuleInfo(t: State, n: nat): (r: Step<Views.ModuleInfo>)
    ensures r.outcome.Ok? <==> n >= 44 && DecodeModuleInfo(t.rx).Some?
    ensures r.outcome.Ok? ==> r.outcome.value == DecodeModuleInfo(t.rx).value
    ensures r.after == Read(t, n).1
  {
    var (got, t1) := Read(t, n);
    ModuleInfoPrefix(t.rx, n);
    ModuleInfoOutcome(got);
    if FromBytes(ModuleInfoTemplate(), got).StructError? then Step(Err(UnpackError), t1)
    else match DecodeModuleInfo(got)
      case None => Step(Err(NoneAttribute), t1)
      case Some(info) => Step(Ok(info), t1)
  }

  /** `module_info()`: MODULE_INFO, then as many bytes as the reply's
      parameter plus six, the size of a bare data frame. Fewer than the 44
      bytes of the module-info frame decode to None, which is then read
      from; more are consumed and ignored. */
  function ModuleInfo(s: State): (r: Step<Views.ModuleInfo>)
    ensures SendCommand(s, "MODULE_INFO", 0).outcome.Ok? ==>
              r.after == Read(SendCommand(s, "MODULE_INFO", 0).after, SendCommand(s, "MODULE_INFO", 0).outcome.value.1 + 6).1
  {
    var st := SendCommand(s, "MODULE_INFO", 0);
    if st.outcome.Err? then Step(Err(st.outcome.error), st.after)
    else ReadModuleInfo(st.after, st.outcome.value.1 + 6)
  }

  /** module_info() returns the module-info record exactly when a valid
      reply announces at least the 44 bytes of the frame and the bytes
      after the reply decode; the record is what they decode to. */
  lemma ModuleInfoResult(s: State)
    ensures ModuleInfo(s).outcome.Ok? <==>
              ValidReply(s.rx) && ReplyParameter(s.rx) + 6 >= 44 && DecodeModuleInfo(s.rx[12..]).Some?
    ensures ModuleInfo(s).outcome.Ok? ==> ModuleInfo(s).outcome.value == DecodeModuleInfo(s.rx[12..]).value
  {
    SendCommandOutcome(s, "MODULE_INFO", 0);
    var st := SendCommand(s, "MODULE_INFO", 0);
  }

  /** After a valid reply, module_info() consumes the announced data frame,
      or what is left of the stream when it is shorter. */
  lemma ModuleInfoConsumes(s: State)
    requires ValidReply(s.rx)
    ensures ModuleInfo(s).after.rx == s.rx[Min(18 + ReplyParameter(s.rx), |s.rx|)..]
  {
    ModuleInfoReply(s);
    ModuleInfoReadsFrame(s);
  }

  /** The same, from what send_command leaves after the reply. */
  lemma ModuleInfoReadsFrame(s: State)
    requires |s.rx| >= 12
    requires SendCommand(s, "MODULE_INFO", 0).outcome.Ok?
    requires SendCommand(s, "MODULE_INFO", 0).outcome.value.1 == ReplyParameter(s.rx)
    requires SendCommand(s, "MODULE_INFO", 0).after.rx == s.rx[12..]
    ensures ModuleInfo(s).after.rx == s.rx[Min(18 + ReplyParameter(s.rx), |s.rx|)..]
  {
    var st := SendCommand(s, "MODULE_INFO", 0);
    ReadAfterDrop(s.rx, st.after, st.outcome.value.1 + 6, 18 + ReplyParameter(s.rx));
  }

  /** Reading n bytes from what is left after a twelve-byte reply leaves
      the stream past m = 12 + n bytes, or empty. */
  lemma ReadAfterDrop(rx: seq<byte>, t: State, n: nat, m: nat)
    requires |rx| >= 12 && t.rx == rx[12..] && m == 12 + n
    ensures Read(t, n).1.rx == rx[Min(m, |rx|)..]
  {
    DropTwice(rx, 12, n);
  }

  /** What send_command leaves after a valid reply to MODULE_INFO. */
  lemma ModuleInfoReply(s: State)
    requires ValidReply(s.rx)
    ensures SendCommand(s, "MODULE_INFO", 0).outcome.Ok?
    ensures SendCommand(s, "MODULE_INFO", 0).outcome.value.1 == ReplyParameter(s.rx)
    ensures SendCommand(s, "MODULE_INFO", 0).after.rx == s.rx[12..]
  {
    SendCommandOutcome(s, "MODULE_INFO", 0);
  }

  /** Dropping k and then n elements drops k + n of them, or all. */
  lemma DropTwice<T>(a: seq<T>, k: nat, n: nat)
    requires k <= |a|
    ensures a[k..][Min(n, |a| - k)..] == a[Min(k + n, |a|)..]
  {
  }

  /** module_info() writes MODULE_INFO and nothing else. */
  lemma ModuleInfoCommands(s: State)
    ensures Commands(ModuleInfo(s).after.trace) == Commands(s.trace) + [("MODULE_INFO", 0)]
  {
    var st := SendCommand(s, "MODULE_INFO", 0);
    SendCommandFollows(s, "MODULE_INFO", 0);
    if st.outcome.Ok? {
      ReadFollows(st.after, st.outcome.value.1 + 6);
    }
  }

  /** module_info() keeps the state's invariants. */
  lemma ModuleInfoFollows(s: State)
    ensures Follows(s, ModuleInfo(s).after)
  {
    var st := SendCommand(s, "MODULE_INFO", 0);
    SendCommandFollows(s, "MODULE_INFO", 0);
    if st.outcome.Ok? {
      var n: nat := st.outcome.value.1 + 6;
      ReadFollows(st.after, n);
      FollowsTrans(s, st.after, Read(st.after, n).1);
    }
  }

  /** The end of close(): the baud change back to 9600, then the
      interface is closed unless that command raised. */
  function RestoreAndClose(s: State): (r: Step<()>)
    ensures r.outcome.Ok? <==> ValidReply(s.rx) && (Acked(s.rx) || KnownNack(s.rx))
    ensures r.outcome.Ok? ==> r.after.trace == ChangeBaudRate(s, 9600).after.trace + [InterfaceClosed]
    ensures r.outcome.Err? ==> r.after == ChangeBaudRate(s, 9600).after
    ensures Commands(r.after.trace) == Commands(s.trace) + [("CHANGE_BAUDRATE", 9600)]
    ensures Follows(s, r.after)
  {
    var b := ChangeBaudRate(s, 9600);
    if b.outcome.Err? then Step(Err(b.outcome.error), b.after)
    else
      CommandsQuiet(b.after.trace, InterfaceClosed);
      Step(Ok(()), b.after.(trace := b.after.trace + [InterfaceClosed]))
  }

  /** `close()`: CLOSE, then the baud change back to 9600, then the
      interface is closed; an exception in either command skips the rest,
      so the interface is closed only when both replies came back. */
  function Close(s: State): (r: Step<()>)
    ensures r.outcome.Ok? <==>
              ValidReply(s.rx) && ValidReply(s.rx[12..]) && (Acked(s.rx[12..]) || KnownNack(s.rx[12..]))
    ensures ValidReply(s.rx) ==>
              Commands(r.after.trace) == Commands(s.trace) + [("CLOSE", 0), ("CHANGE_BAUDRATE", 9600)]
    ensures !ValidReply(s.rx) ==> Commands(r.after.trace) == Commands(s.trace) + [("CLOSE", 0)]
    ensures Follows(s, r.after)
  {
    var a := SendCommand(s, "CLOSE", 0);
    SendCommandFollows(s, "CLOSE", 0);
    SendCommandOutcome(s, "CLOSE", 0);
    if a.outcome.Err? then Step(Err(a.outcome.error), a.after)
    else
      var b := RestoreAndClose(a.after);
      FollowsTrans(s, a.after, b.after);
      AppendTwo(Commands(s.trace), ("CLOSE", 0), ("CHANGE_BAUDRATE", 9600));
      b
  }

  lemma AppendTwo<T>(a: seq<T>, x: T, y: T)
    ensures a + [x] + [y] == a + [x, y]
  {
  }

  /** `set_led(on)`: CMOS_LED 1 or 0; the reply is not looked at. */
  function SetLed(s: State, on: bool): (r: Step<()>)
    ensures r.outcome.Ok? <==> ValidReply(s.rx)
    ensures Commands(r.after.trace) == Commands(s.trace) + [("CMOS_LED", if on then 1 else 0)]
    ensures Follows(s, r.after) && r.after.cancel == s.cancel && r.after.info == s.info
  {
    var st := SendCommand(s, "CMOS_LED", if on then 1 else 0);
    SendCommandFollows(s, "CMOS_LED", if on then 1 else 0);
    SendCommandOutcome(s, "CMOS_LED", if on then 1 else 0);
    Step(if st.outcome.Ok? then Ok(()) else Err(st.outcome.error), st.after)
  }

  /** `capture(best_image)`: CAPTURE 1 for the best image, 0 otherwise. */
  function Capture(s: State, bestImage: bool): (r: Step<bool>)
    ensures r.outcome == Ok(true) <==> Acked(s.rx)
    ensures r.outcome == Ok(false) <==> KnownNack(s.rx)
    ensures Commands(r.after.trace) == Commands(s.trace) + [("CAPTURE", if bestImage then 1 else 0)]
    ensures Follows(s, r.after) && r.after.cancel == s.cancel && r.after.info == s.info
  {
    SendCommandFollows(s, "CAPTURE", if bestImage then 1 else 0);
    SendCommandOutcome(s, "CAPTURE", if bestImage then 1 else 0);
    Checked(s, "CAPTURE", if bestImage then 1 else 0)
  }

  /** `get_enrolled_count()`: the reply's parameter, ACK or NACK alike. */
  function GetEnrolledCount(s: State): (r: Step<int>)
    ensures r.outcome.Ok? <==> ValidReply(s.rx)
    ensures r.outcome.Ok? ==> r.outcome.value == ReplyParameter(s.rx)
    ensures Commands(r.after.trace) == Commands(s.trace) + [("ENROLL_COUNT", 0)]
    ensures Follows(s, r.after)
  {
    var st := SendCommand(s, "ENROLL_COUNT", 0);
    SendCommandFollows(s, "ENROLL_COUNT", 0);
    SendCommandOutcome(s, "ENROLL_COUNT", 0);
    Step(if st.outcome.Ok? then Ok(st.outcome.value.1) else Err(st.outcome.error), st.after)
  }

  /** `is_id_enrolled(id)`, `delete_id(id)`, `delete_all()`. */
  function IsIdEnrolled(s: State, id: int): (r: Step<bool>)
    ensures r.outcome == Ok(true) <==> 0 <= id < 0x1_0000_0000 && Acked(s.rx)
    ensures r.outcome == Ok(false) <==> 0 <= id < 0x1_0000_0000 && KnownNack(s.rx)
    ensures Commands(r.after.trace) == Commands(s.trace) + (if 0 <= id < 0x1_0000_0000 then [("CHECK_ENROLLED", id)] else [])
    ensures Follows(s, r.after)
  {
    CheckedCommand(s, "CHECK_ENROLLED", id);
    Checked(s, "CHECK_ENROLLED", id)
  }

  function DeleteId(s: State, id: int): (r: Step<bool>)
    ensures r.outcome == Ok(true) <==> 0 <= id < 0x1_0000_0000 && Acked(s.rx)
    ensures r.outcome == Ok(false) <==> 0 <= id < 0x1_0000_0000 && KnownNack(s.rx)
    ensures Commands(r.after.trace) == Commands(s.trace) + (if 0 <= id < 0x1_0000_0000 then [("DELETE_ID", id)] else [])
    ensures Follows(s, r.after)
  {
    CheckedCommand(s, "DELETE_ID", id);
    Checked(s, "DELETE_ID", id)
  }

  function DeleteAll(s: State): (r: Step<bool>)
    ensures r.outcome == Ok(true) <==> Acked(s.rx)
    ensures r.outcome == Ok(false) <==> KnownNack(s.rx)
    ensures Commands(r.after.trace) == Commands(s.trace) + [("DELETE_ALL", 0)]
    ensures Follows(s, r.after)
  {
    SendCommandFollows(s, "DELETE_ALL", 0);
    SendCommandOutcome(s, "DELETE_ALL", 0);
    Checked(s, "DELETE_ALL", 0)
  }

  /** `is_finger_pressed()`: True on an ACK whose parameter is 0 (the
      device reports "not pressed" as a non-zero parameter). */
  function IsFingerPressed(s: State): (r: Step<bool>)
    ensures r.outcome == Ok(true) <==> Acked(s.rx) && ReplyParameter(s.rx) == 0
    ensures r.outcome == Ok(false) <==> (Acked(s.rx) && ReplyParameter(s.rx) != 0) || KnownNack(s.rx)
    ensures r.outcome.Ok? ==> |s.rx| >= 12 && r.after.rx == s.rx[12..]
    ensures Commands(r.after.trace) == Commands(s.trace) + [("IS_PRESS_FINGER", 0)]
    ensures Follows(s, r.after) && r.after.cancel == s.cancel && r.after.info == s.info
  {
    var st := SendCommand(s, "IS_PRESS_FINGER", 0);
    SendCommandFollows(s, "IS_PRESS_FINGER", 0);
    SendCommandOutcome(s, "IS_PRESS_FINGER", 0);
    if st.outcome.Err? then Step(Err(st.outcome.error), st.after)
    else match LogNack(st)
      case Err(e) => Step(Err(e), st.after)
      case Ok(_) =>
        var (code, parameter) := st.outcome.value;
        Step(Ok(code == AckOk && parameter == 0), st.after)
  }

  /** `cancel()`: sets the flag and nothing else. */
  function Cancel(s: State): State
  {
    s.(cancel := true)
  }

  /** `get_image()`: GET_IMAGE; a known NACK gives None; an ACK is followed
      by a 52122-byte data frame whose 52116 image bytes are returned. */
  function GetImage(s: State): (r: Step<Option<seq<byte>>>)
    ensures r.outcome == Ok(None) <==> KnownNack(s.rx)
    ensures r.outcome.Ok? && r.outcome.value.Some? <==> Acked(s.rx) && DecodeImage(s.rx[12..]).Some?
    ensures r.outcome.Ok? && r.outcome.value.Some? ==> r.outcome.value == DecodeImage(s.rx[12..])
    ensures Commands(r.after.trace) == Commands(s.trace) + [("GET_IMAGE", 0)]
    ensures Follows(s, r.after) && r.after.cancel == s.cancel && r.after.info == s.info
  {
    var c := Checked(s, "GET_IMAGE", 0);
    SendCommandFollows(s, "GET_IMAGE", 0);
    if c.outcome.Err? then Step(Err(c.outcome.error), c.after)
    else if !c.outcome.value then Step(Ok(None), c.after)
    else
      var (got, s1) := Read(c.after, 52122);
      ReadFollows(c.after, 52122);
      FollowsTrans(s, c.after, s1);
      ImagePrefix(c.after.rx);
      ImageDecoded(Bitmap, 52116, [], got);
      if FromBytes(GetImageTemplate(), got).StructError? then Step(Err(UnpackError), s1)
      else match DecodeImage(got)
        case None => Step(Err(NoneAttribute), s1)
        case Some(bitmap) => Step(Ok(Some(bitmap)), s1)
  }

  /** `_get_raw_image()`: the same with GET_RAWIMAGE and a 19206-byte frame. */
  function GetRawImage(s: State): (r: Step<Option<seq<byte>>>)
    ensures r.outcome == Ok(None) <==> KnownNack(s.rx)
    ensures r.outcome.Ok? && r.outcome.value.Some? <==> Acked(s.rx) && DecodeRawImage(s.rx[12..]).Some?
    ensures r.outcome.Ok? && r.outcome.value.Some? ==> r.outcome.value == DecodeRawImage(s.rx[12..])
    ensures Commands(r.after.trace) == Commands(s.trace) + [("GET_RAWIMAGE", 0)]
    ensures Follows(s, r.after) && r.after.cancel == s.cancel && r.after.info == s.info
  {
    var c := Checked(s, "GET_RAWIMAGE", 0);
    SendCommandFollows(s, "GET_RAWIMAGE", 0);
    if c.outcome.Err? then Step(Err(c.outcome.error), c.after)
    else if !c.outcome.value then Step(Ok(None), c.after)
    else
      var (got, s1) := Read(c.after, 19206);
      ReadFollows(c.after, 19206);
      FollowsTrans(s, c.after, s1);
      ImagePrefix(c.after.rx);
      ImageDecoded(RawBitmap, 19200, [], got);
      if FromBytes(GetRawImageTemplate(), got).StructError? then Step(Err(UnpackError), s1)
      else match DecodeRawImage(got)
        case None => Step(Err(NoneAttribute), s1)
        case Some(bitmap) => Step(Ok(Some(bitmap)), s1)
  }
}
