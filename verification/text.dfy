/** The text views of packet fields in gt521f32/packets.py: the firmware
    version as `hex(v).lstrip("0x")`, the serial number as
    `bytes.hex().upper()`, and the NUL-terminated latin-1 names of the sensor
    and the engine. */
module Text {
  import opened Basics

  /** One hexadecimal digit, in the given case. */
  function Digit(d: nat, upper: bool): (c: char)
    requires d < 16
  {
    if d < 10 then ('0' as int + d) as char
    else if upper then ('A' as int + d - 10) as char
    else ('a' as int + d - 10) as char
  }

  /** The value of a hexadecimal digit of either case. */
  function DigitValue(c: char): nat
  {
    if '0' <= c <= '9' then c as int - '0' as int
    else if 'a' <= c <= 'f' then c as int - 'a' as int + 10
    else if 'A' <= c <= 'F' then c as int - 'A' as int + 10
    else 0
  }

  lemma DigitRoundTrip(d: nat, upper: bool)
    requires d < 16
    ensures DigitValue(Digit(d, upper)) == d
    ensures Digit(d, upper) != '0' <==> d != 0
    ensures Digit(d, upper) != 'x'
  {
  }

  /** The lowercase digits `hex()` prints after "0x": no leading zero, and
      "0" for zero. */
  function HexDigits(v: nat): (r: string)
    decreases v
  {
    if v < 16 then [Digit(v, false)] else HexDigits(v / 16) + [Digit(v % 16, false)]
  }

  /** Python's `hex(v)` for v >= 0. */
  function PyHex(v: nat): string
  {
    "0x" + HexDigits(v)
  }

  /** `str.lstrip(chars)`: drop leading characters that are in the set. */
  function LStrip(s: string, chars: set<char>): (r: string)
  {
    if s != [] && s[0] in chars then LStrip(s[1..], chars) else s
  }

  /** `OpenDataPacket.firmware_version`: `hex(v).lstrip("0x")`. */
  function FirmwareString(v: nat): string
  {
    LStrip(PyHex(v), {'0', 'x'})
  }

  /** The value of a string of hexadecimal digits; the empty string is 0. */
  function ParseHex(s: string): nat
  {
    if s == [] then 0 else 16 * ParseHex(s[..|s| - 1]) + DigitValue(s[|s| - 1])
  }

  /** HexDigits has no leading zero except for zero itself, and parses back. */
  lemma {:induction false} HexDigitsFacts(v: nat)
    ensures |HexDigits(v)| >= 1
    ensures HexDigits(v)[0] == '0' <==> v == 0
    ensures HexDigits(v)[0] != 'x'
    ensures ParseHex(HexDigits(v)) == v
    decreases v
  {
    DigitRoundTrip(v % 16, false);
    if v < 16 {
      DigitRoundTrip(v, false);
    } else {
      HexDigitsFacts(v / 16);
      var s := HexDigits(v);
      assert s[..|s| - 1] == HexDigits(v / 16);
    }
  }

  /** The firmware string is empty for version 0 and otherwise the lowercase
      hexadecimal digits without leading zeros; either way it parses back. */
  lemma FirmwareStringFacts(v: nat)
    ensures v == 0 ==> FirmwareString(v) == ""
    ensures v > 0 ==> FirmwareString(v) == HexDigits(v) && FirmwareString(v)[0] != '0'
    ensures ParseHex(FirmwareString(v)) == v
  {
    HexDigitsFacts(v);
    var strip, h, d := {'0', 'x'}, PyHex(v), HexDigits(v);
    assert h[1..] == "x" + d && ("x" + d)[1..] == d;
    assert LStrip(h, strip) == LStrip(d, strip);
    if v == 0 {
      assert d == "0" && d[1..] == "";
      assert LStrip(d, strip) == LStrip("", strip);
    }
  }

  /** `bytes.hex().upper()`: two uppercase digits per byte, high nibble first. */
  function SerialString(bs: seq<int>): (r: string)
    requires forall i :: 0 <= i < |bs| ==> 0 <= bs[i] < 256
  {
    if bs == [] then "" else [Digit(bs[0] / 16, true), Digit(bs[0] % 16, true)] + SerialString(bs[1..])
  }

  /** Reads a serial string back into its bytes. */
  function ParseSerial(s: string): seq<int>
  {
    if |s| < 2 then [] else [16 * DigitValue(s[0]) + DigitValue(s[1])] + ParseSerial(s[2..])
  }

  /** The serial string is twice as long as the bytes, uses only uppercase
      hexadecimal digits, and reads back to the same bytes. */
  lemma {:induction false} SerialRoundTrip(bs: seq<int>)
    requires forall i :: 0 <= i < |bs| ==> 0 <= bs[i] < 256
    ensures |SerialString(bs)| == 2 * |bs|
    ensures forall i :: 0 <= i < |SerialString(bs)| ==>
              '0' <= SerialString(bs)[i] <= '9' || 'A' <= SerialString(bs)[i] <= 'F'
    ensures ParseSerial(SerialString(bs)) == bs
  {
    if bs != [] {
      SerialRoundTrip(bs[1..]);
      DigitRoundTrip(bs[0] / 16, true);
      DigitRoundTrip(bs[0] % 16, true);
      var s := SerialString(bs);
      assert s[2..] == SerialString(bs[1..]);
      assert forall i :: 2 <= i < |s| ==> s[i] == SerialString(bs[1..])[i - 2];
      assert bs == [bs[0]] + bs[1..];
    }
  }

  /** `ctypes.create_string_buffer(data).value.decode("latin-1")`: the bytes
      before the first NUL, each as the character with that code. */
  function CString(bs: seq<int>): string
    requires forall i :: 0 <= i < |bs| ==> 0 <= bs[i] < 256
  {
    if bs == [] || bs[0] == 0 then "" else [bs[0] as char] + CString(bs[1..])
  }

  /** The name is the longest NUL-free prefix of the bytes, character for byte. */
  lemma {:induction false} CStringFacts(bs: seq<int>)
    requires forall i :: 0 <= i < |bs| ==> 0 <= bs[i] < 256
    ensures |CString(bs)| <= |bs|
    ensures forall i :: 0 <= i < |CString(bs)| ==> CString(bs)[i] as int == bs[i] && bs[i] != 0
    ensures |CString(bs)| < |bs| ==> bs[|CString(bs)|] == 0
  {
    if bs != [] && bs[0] != 0 {
      CStringFacts(bs[1..]);
      var s := CString(bs);
      assert forall i :: 1 <= i < |s| ==> s[i] == CString(bs[1..])[i - 1];
    }
  }
}
