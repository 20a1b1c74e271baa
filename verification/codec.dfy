/** The generic frame codec of gt521f32/packets.py (class `Packet`).

    A packet is an ordered dictionary of fields; every field has a struct
    format and the tuple of values struct packs for it. Encoding packs the
    fields in order and appends the additive 16-bit checksum; decoding walks
    a template packet's layout and rebinds every field to the value read. */
module Codec {
  import opened Basics

  /** A field's struct format: `B`, `<H`, `<L` or a fixed byte array `nB`. */
  datatype Format = U8 | U16 | U32 | Bytes(count: nat)

  /** struct.calcsize of a format. */
  function Size(f: Format): nat
  {
    match f
    case U8 => 1
    case U16 => 2
    case U32 => 4
    case Bytes(n) => n
  }

  /** The dictionary keys the packet classes use. */
  datatype Key =
    | CommandStartCode1 | CommandStartCode2 | DataStartCode1 | DeviceId
    | Parameter | Command | Response | Data
    | Sensor | EngineVersion | RawImgWidth | RawImgHeight | ImgWidth | ImgHeight
    | MaxRecordCount | EnrollCount | TemplateSize
    | FirmwareVersion | IsoAreaMaxSize | DeviceSerialNumber | Bitmap | RawBitmap

  /** One dictionary entry: key, struct format, and the values struct packs. */
  datatype Field = Field(key: Key, format: Format, contents: seq<int>)

  type Packet = seq<Field>

  /** struct.pack accepts these contents for this format (otherwise it raises). */
  predicate Fits(f: Format, c: seq<int>)
  {
    match f
    case Bytes(n) => |c| == n && forall i :: 0 <= i < n ==> 0 <= c[i] < 256
    case _ => |c| == 1 && 0 <= c[0] < Pow256(Size(f))
  }

  /** Every field of the packet can be packed. */
  predicate Conforms(p: Packet)
  {
    p == [] || (Fits(p[0].format, p[0].contents) && Conforms(p[1..]))
  }

  /** No field has zero width (a zero-width field reads as "no bytes" and stops decoding). */
  predicate NoEmptyField(p: Packet)
  {
    p == [] || (Size(p[0].format) > 0 && NoEmptyField(p[1..]))
  }

  /** Same keys and formats in the same order; contents may differ. */
  predicate SameShape(p: Packet, q: Packet)
  {
    |p| == |q| &&
    (p == [] || (p[0].key == q[0].key && p[0].format == q[0].format && SameShape(p[1..], q[1..])))
  }

  /** struct.pack of one field. */
  function Pack(f: Field): (r: seq<byte>)
    requires Fits(f.format, f.contents)
    ensures |r| == Size(f.format)
  {
    match f.format
    case Bytes(n) => AsBytes(f.contents)
    case _ => Le(f.contents[0], Size(f.format))
  }

  /** A list of ints in byte range, as bytes. */
  function AsBytes(c: seq<int>): (r: seq<byte>)
    requires forall i :: 0 <= i < |c| ==> 0 <= c[i] < 256
    ensures |r| == |c| && forall i :: 0 <= i < |c| ==> r[i] == c[i]
  {
    if c == [] then [] else [c[0] as byte] + AsBytes(c[1..])
  }

  /** struct.unpack of one field from exactly its width of bytes. */
  function Unpack(f: Format, chunk: seq<byte>): seq<int>
    requires |chunk| == Size(f)
  {
    match f
    case Bytes(_) => chunk
    case _ => [FromLe(chunk)]
  }

  /** What struct.unpack returns, struct.pack accepts back. */
  lemma UnpackFits(f: Format, chunk: seq<byte>)
    requires |chunk| == Size(f)
    ensures Fits(f, Unpack(f, chunk))
  {
    if !f.Bytes? {
      FromLeBound(chunk);
    }
  }

  lemma PackUnpack(k: Key, f: Format, chunk: seq<byte>)
    requires |chunk| == Size(f)
    ensures Fits(f, Unpack(f, chunk))
    ensures Pack(Field(k, f, Unpack(f, chunk))) == chunk
  {
    UnpackFits(f, chunk);
    if !f.Bytes? {
      LeFromLe(chunk);
    }
  }

  lemma UnpackPack(fld: Field)
    requires Fits(fld.format, fld.contents)
    ensures Unpack(fld.format, Pack(fld)) == fld.contents
  {
    if !fld.format.Bytes? {
      FromLeLe(fld.contents[0], Size(fld.format));
    }
  }

  /** Sum of the field widths. */
  function FieldsSize(p: Packet): nat
  {
    if p == [] then 0 else Size(p[0].format) + FieldsSize(p[1..])
  }

  /** `byte_size`: the field widths plus the two checksum bytes. */
  function ByteSize(p: Packet): nat
  {
    FieldsSize(p) + 2
  }

  /** `_field_bytes`: the fields packed in order. */
  function FieldBytes(p: Packet): (r: seq<byte>)
    requires Conforms(p)
    ensures |r| == FieldsSize(p)
  {
    if p == [] then [] else Pack(p[0]) + FieldBytes(p[1..])
  }

  /** `_checksum`: the byte sum modulo 65536. */
  function Checksum(bs: seq<byte>): nat
  {
    Sum(bs) % 0x1_0000
  }

  /** `to_bytes`: the field bytes followed by their little-endian checksum;
      None where struct.pack raises on a field that does not fit its format. */
  function ToBytes(p: Packet): (r: Option<seq<byte>>)
    ensures r.Some? <==> Conforms(p)
    ensures r.Some? ==> |r.value| == ByteSize(p)
    ensures r.Some? ==> r.value[..FieldsSize(p)] == FieldBytes(p)
    ensures r.Some? ==> FromLe(r.value[FieldsSize(p)..]) == Sum(r.value[..FieldsSize(p)]) % 0x1_0000
  {
    if Conforms(p) then
      var fb := FieldBytes(p);
      var r := fb + Le(Checksum(fb), 2);
      assert r[..|fb|] == fb && r[|fb|..] == Le(Checksum(fb), 2);
      FromLeLe(Checksum(fb), 2);
      Some(r)
    else
      None
  }

  /** Why `from_bytes_static` returned None. */
  datatype Reject = Truncated | ChecksumMissing | BadChecksum

  /** What `from_bytes_static` does: return a packet, return None, or let
      struct.unpack raise on a short but non-empty read. */
  datatype Decoded = Decoded(packet: Packet) | Rejected(reason: Reject) | StructError

  datatype FieldsRead = Read(fields: Packet, rest: seq<byte>) | Stop(result: Decoded)

  /** The field loop of `from_bytes_static`: each field reads its width from
      the stream (fewer bytes at the end of the input). */
  function ReadFields(t: Packet, stream: seq<byte>): FieldsRead
  {
    if t == [] then Read([], stream)
    else
      var n := Size(t[0].format);
      var chunk := stream[..Min(n, |stream|)];
      if |chunk| == 0 then Stop(Rejected(Truncated))
      else if |chunk| < n then Stop(StructError)
      else
        match ReadFields(t[1..], stream[n..])
        case Read(fs, rest) => Read([t[0].(contents := Unpack(t[0].format, chunk))] + fs, rest)
        case Stop(e) => Stop(e)
  }

  /** A completed field loop read every field of the layout, each one packable,
      and left the rest of the stream; a stopped one never yields a packet. */
  lemma {:induction false} ReadFieldsShape(t: Packet, stream: seq<byte>)
    ensures var r := ReadFields(t, stream);
      (r.Read? ==> SameShape(r.fields, t) && Conforms(r.fields)) &&
      (r.Read? ==> |stream| >= FieldsSize(t) && r.rest == stream[FieldsSize(t)..]) &&
      (r.Stop? ==> !r.result.Decoded?)
  {
    if t != [] {
      var n := Size(t[0].format);
      if n <= |stream| {
        ReadFieldsShape(t[1..], stream[n..]);
        var r := ReadFields(t[1..], stream[n..]);
        if r.Read? {
          var chunk := stream[..n];
          assert stream[..Min(n, |stream|)] == chunk;
          var f := t[0].(contents := Unpack(t[0].format, chunk));
          UnpackFits(t[0].format, chunk);
          assert ([f] + r.fields)[1..] == r.fields;
          assert stream[n..][FieldsSize(t[1..])..] == stream[FieldsSize(t)..];
        }
      }
    }
  }

  /** `from_bytes_static(cls, input_bytes)` with `t` the layout of `cls()`. */
  function FromBytes(t: Packet, input: seq<byte>): (r: Decoded)
    ensures r.Decoded? ==> |input| >= ByteSize(t) && |r.packet| == |t|
  {
    ReadFieldsShape(t, input);
    match ReadFields(t, input)
    case Stop(e) => e
    case Read(fs, rest) =>
      var cs := rest[..Min(2, |rest|)];
      if |cs| == 0 then Rejected(ChecksumMissing)
      else if |cs| < 2 then StructError
      else if FromLe(cs) != Checksum(FieldBytes(fs)) then Rejected(BadChecksum)
      else Decoded(fs)
  }

  /** L is a field boundary of t: the end of some prefix of its fields. */
  predicate IsBoundary(t: Packet, L: int)
  {
    L == 0 || (|t| > 0 && L >= Size(t[0].format) && IsBoundary(t[1..], L - Size(t[0].format)))
  }
}
