/** `GT521F32._choose_interface_type` of gt521f32/gt521f32.py: which
    transport a port name asks for. Serial ports are named "COM..." or
    "/dev/tty..."; SCSI devices "/dev/sg..." or a drive letter such as "E:". */
module Ports {
  import opened Basics

  datatype Kind = Serial | Scsi

  /** The two ways classification fails: the driver's own exception for a
      name it does not recognise, and an IndexError from indexing past the
      end of a short name. */
  datatype PortError = UnknownPort | IndexError

  /** `str.isalpha` on one character, for the ASCII letters. */
  predicate IsAlpha(c: char)
  {
    'a' <= c <= 'z' || 'A' <= c <= 'Z'
  }

  predicate SerialName(port: string)
  {
    "COM" <= port || "/dev/tty" <= port
  }

  /** A drive letter followed by a colon and nothing else. */
  predicate DriveName(port: string)
  {
    |port| == 2 && IsAlpha(port[0]) && port[1] == ':'
  }

  /** The classification as the source writes it: `port[0]` and `port[1]`
      are read before `len(port) == 2` is checked, so an empty name, and a
      one-letter name, raise IndexError. */
  function ChooseInterfaceAsWritten(port: string): (r: Result<Kind, PortError>)
  {
    if SerialName(port) then Ok(Serial)
    else if "/dev/sg" <= port then Ok(Scsi)
    else if |port| == 0 then Err(IndexError)
    else if !IsAlpha(port[0]) then Err(UnknownPort)
    else if |port| == 1 then Err(IndexError)
    else if port[1] == ':' && |port| == 2 then Ok(Scsi)
    else Err(UnknownPort)
  }

  /** The classification with the length checked before indexing: every
      unrecognised name raises the driver's own exception. */
  function ChooseInterface(port: string): (r: Result<Kind, PortError>)
  {
    if SerialName(port) then Ok(Serial)
    else if "/dev/sg" <= port || DriveName(port) then Ok(Scsi)
    else Err(UnknownPort)
  }

  /** The corrected classification: the serial prefixes win, then the SCSI
      names, and everything else is an unknown port; it never raises
      IndexError. */
  lemma ChooseInterfaceSpec(port: string)
    ensures ChooseInterface(port) == Ok(Serial) <==> "COM" <= port || "/dev/tty" <= port
    ensures ChooseInterface(port) == Ok(Scsi) <==>
              !SerialName(port) && ("/dev/sg" <= port || (|port| == 2 && IsAlpha(port[0]) && port[1] == ':'))
    ensures ChooseInterface(port) != Err(IndexError)
  {
  }

  /** The source agrees with the corrected classification on every name
      except the empty one and a single letter, where it raises IndexError. */
  lemma AsWrittenDiffers(port: string)
    ensures ChooseInterfaceAsWritten(port) == Err(IndexError) <==>
              !SerialName(port) && !("/dev/sg" <= port) && (|port| == 0 || (|port| == 1 && IsAlpha(port[0])))
    ensures ChooseInterfaceAsWritten(port) != Err(IndexError) ==>
              ChooseInterfaceAsWritten(port) == ChooseInterface(port)
  {
  }

  /** The names that show it: "" and "C". */
  lemma IndexErrorWitness()
    ensures ChooseInterfaceAsWritten("") == Err(IndexError) && ChooseInterface("") == Err(UnknownPort)
    ensures ChooseInterfaceAsWritten("C") == Err(IndexError) && ChooseInterface("C") == Err(UnknownPort)
  {
    assert !("COM" <= "C") && !("/dev/tty" <= "C") && !("/dev/sg" <= "C");
  }
}
