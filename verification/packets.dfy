/** The packet classes of gt521f32/packets.py. Each class builds its field
    dictionary in `__init__`; `Put` is the ordered-dictionary assignment, so a
    repeated key keeps its first position and takes the last value. */
module Packets {
  import opened Basics
  import opened Codec
  import opened CodecLaws
  import opened Catalog

  /** Position of key k in the field dictionary. */
  function Find(p: Packet, k: Key): (r: Option<nat>)
    ensures r.Some? ==> r.value < |p| && p[r.value].key == k
  {
    if p == [] then None
    else if p[0].key == k then Some(0)
    else
      match Find(p[1..], k)
      case None => None
      case Some(i) => Some(i + 1)
  }

  /** Find returns the first position holding the key, and None only when
      no position holds it. */
  lemma {:induction false} FindSpec(p: Packet, k: Key)
    ensures Find(p, k).Some? ==> forall j :: 0 <= j < Find(p, k).value ==> p[j].key != k
    ensures Find(p, k).None? <==> forall j :: 0 <= j < |p| ==> p[j].key != k
  {
    if p != [] && p[0].key != k {
      FindSpec(p[1..], k);
      if Find(p, k).None? {
        forall j | 0 <= j < |p|
          ensures p[j].key != k
        {
          if j > 0 {
            assert p[j] == p[1..][j - 1];
          }
        }
      } else {
        assert forall j :: 0 < j < |p| ==> p[j] == p[1..][j - 1];
      }
    }
  }

  /** `fields[k] = (format, contents)` on an OrderedDict. */
  function Put(p: Packet, k: Key, f: Format, c: seq<int>): Packet
  {
    match Find(p, k)
    case Some(i) => p[i := Field(k, f, c)]
    case None => p + [Field(k, f, c)]
  }

  /** Dictionary semantics of `Put` for the key written: it now holds the
      new entry, at its old position if it had one and appended last if not. */
  lemma PutSameKey(p: Packet, k: Key, f: Format, c: seq<int>)
    ensures Find(Put(p, k, f, c), k).Some?
    ensures Put(p, k, f, c)[Find(Put(p, k, f, c), k).value] == Field(k, f, c)
    ensures Find(p, k).Some? ==> Find(Put(p, k, f, c), k) == Find(p, k)
    ensures Find(p, k).None? ==> Put(p, k, f, c) == p + [Field(k, f, c)]
  {
    var q := Put(p, k, f, c);
    FindSpec(p, k);
    FindSpec(q, k);
    if Find(p, k).None? {
      assert q[|p|].key == k;
    } else {
      FindSameKeys(p, q, k);
    }
  }

  /** ... and for every other key: same position, same entry. */
  lemma PutOtherKey(p: Packet, k: Key, f: Format, c: seq<int>, k': Key)
    requires k' != k
    ensures Find(Put(p, k, f, c), k') == Find(p, k')
    ensures Find(p, k').Some? ==> Put(p, k, f, c)[Find(p, k').value] == p[Find(p, k').value]
  {
    FindSpec(p, k);
    FindSameKeys(p, Put(p, k, f, c), k');
  }

  /** Find only looks at the keys before and at the found position. */
  lemma FindSameKeys(p: Packet, q: Packet, k: Key)
    requires |p| <= |q|
    requires forall j :: 0 <= j < |p| ==> (p[j].key == k <==> q[j].key == k)
    requires |p| < |q| ==> Find(p, k).Some? || forall j :: |p| <= j < |q| ==> q[j].key != k
    ensures Find(q, k) == Find(p, k)
  {
    FindSpec(p, k);
    FindSpec(q, k);
  }

  /** A key absent from p is appended by `Put`. */
  lemma PutNew(p: Packet, k: Key, f: Format, c: seq<int>)
    requires forall j :: 0 <= j < |p| ==> p[j].key != k
    ensures Put(p, k, f, c) == p + [Field(k, f, c)]
  {
    FindSpec(p, k);
  }

  /** The first position holding a key is what Find returns. */
  lemma FindAt(p: Packet, i: nat, k: Key)
    requires i < |p| && p[i].key == k
    requires forall j :: 0 <= j < i ==> p[j].key != k
    ensures Find(p, k) == Some(i)
  {
    FindSpec(p, k);
  }

  /** The assignments of a constructor body, one after the other. */
  function PutAll(p: Packet, es: seq<Field>): Packet
    decreases es
  {
    if es == [] then p else PutAll(Put(p, es[0].key, es[0].format, es[0].contents), es[1..])
  }

  /** The assigned keys are new to p and pairwise different. */
  predicate Fresh(p: Packet, es: seq<Field>)
  {
    (forall i, j :: 0 <= i < |es| && 0 <= j < |p| ==> es[i].key != p[j].key) &&
    (forall i, j :: 0 <= i < j < |es| ==> es[i].key != es[j].key)
  }

  /** Assigning fresh keys lays the fields down in order after p. */
  lemma {:induction false} PutAllFresh(p: Packet, es: seq<Field>)
    requires Fresh(p, es)
    ensures PutAll(p, es) == p + es
    decreases es
  {
    if es != [] {
      var f := es[0];
      PutNew(p, f.key, f.format, f.contents);
      var q := p + [f];
      assert Fresh(q, es[1..]) by {
        forall i, j | 0 <= i < |es[1..]| && 0 <= j < |q|
          ensures es[1..][i].key != q[j].key
        {
          assert es[1..][i] == es[i + 1];
        }
      }
      PutAllFresh(q, es[1..]);
      assert q + es[1..] == p + es;
    }
  }

  /** `fields[k][1]`, the contents stored under a key. */
  function Get(p: Packet, k: Key): seq<int>
    requires Find(p, k).Some?
  {
    p[Find(p, k).value].contents
  }

  /** `fields[k][1][0]`, the value of a one-value field. */
  function Scalar(p: Packet, k: Key): int
    requires Find(p, k).Some? && |Get(p, k)| >= 1
  {
    Get(p, k)[0]
  }

  /** Contents `bytes(...)` accepts: every value is a byte. */
  predicate IsBytes(c: seq<int>)
  {
    forall i :: 0 <= i < |c| ==> 0 <= c[i] < 256
  }

  /* ---- The packet classes ---- */

  /** The fields `Packet.__init__` sets: start codes 0x55, 0xAA and device id 1. */
  function HeaderFields(): Packet
  {
    [Field(CommandStartCode1, U8, [0x55]), Field(CommandStartCode2, U8, [0xAA]), Field(DeviceId, U16, [1])]
  }

  /** `Packet()`. */
  function Header(): Packet
  {
    PutAll([], HeaderFields())
  }

  /** The shape `CommandPacket` and `ResponsePacket` share: the header, a
      32-bit parameter and a 16-bit code stored under `code`. */
  function ParameterFrame(code: Key, parameter: int, value: int): Packet
  {
    PutAll(Header(), [Field(Parameter, U32, [parameter]), Field(code, U16, [value])])
  }

  /** `CommandPacket(parameter, command)`. */
  function CommandPacket(parameter: int, command: int): Packet
  {
    ParameterFrame(Command, parameter, command)
  }

  /** `ResponsePacket(parameter, response)`. */
  function ResponsePacket(parameter: int, response: int): Packet
  {
    ParameterFrame(Response, parameter, response)
  }

  /** `DataPacket(data)`: the header is discarded and rebuilt; both start
      bytes are assigned to the key "DataStartCode1", so only 0xA5 remains.
      The data field has the one-byte format `B`. */
  function DataPacket(data: seq<int>): Packet
  {
    PutAll([], [Field(DataStartCode1, U8, [0x5A]), Field(DataStartCode1, U8, [0xA5]),
                Field(DeviceId, U16, [1]), Field(Data, U8, data)])
  }

  /** `ModuleInfoDataPacket(...)`, every argument given as the contents it stores. */
  function ModuleInfoDataPacket(sensor: seq<int>, engineVersion: seq<int>,
                                rawImgWidth: seq<int>, rawImgHeight: seq<int>,
                                imgWidth: seq<int>, imgHeight: seq<int>,
                                maxRecordCount: seq<int>, enrollCount: seq<int>,
                                templateSize: seq<int>): Packet
  {
    PutAll(Header(), [Field(Sensor, Bytes(12), sensor), Field(EngineVersion, Bytes(12), engineVersion),
                      Field(RawImgWidth, U16, rawImgWidth), Field(RawImgHeight, U16, rawImgHeight),
                      Field(ImgWidth, U16, imgWidth), Field(ImgHeight, U16, imgHeight),
                      Field(MaxRecordCount, U16, maxRecordCount), Field(EnrollCount, U16, enrollCount),
                      Field(TemplateSize, U16, templateSize)])
  }

  /** `OpenDataPacket(firmware_version, iso_area_max_size, device_serial_number)`. */
  function OpenDataPacket(firmwareVersion: seq<int>, isoAreaMaxSize: seq<int>,
                          deviceSerialNumber: seq<int>): Packet
  {
    PutAll(Header(), [Field(FirmwareVersion, U32, firmwareVersion), Field(IsoAreaMaxSize, U32, isoAreaMaxSize),
                      Field(DeviceSerialNumber, Bytes(16), deviceSerialNumber)])
  }

  /** The shape both image packets share: the header and one byte array. */
  function ImagePacket(key: Key, width: nat, bitmap: seq<int>): Packet
  {
    PutAll(Header(), [Field(key, Bytes(width), bitmap)])
  }

  /** `GetImageDataPacket(bitmap)`: 52116 bytes of image. */
  function GetImageDataPacket(bitmap: seq<int>): Packet
  {
    ImagePacket(Bitmap, 52116, bitmap)
  }

  /** `GetRawImageDataPacket(raw_bitmap)`: 19200 bytes of raw image. */
  function GetRawImageDataPacket(rawBitmap: seq<int>): Packet
  {
    ImagePacket(RawBitmap, 19200, rawBitmap)
  }

  /* The templates `cls()` that `from_bytes_static` decodes against. A bare
     integer default such as `FirmwareVersion(0)` is not an argument tuple;
     it is written as the empty tuple, which `struct.pack` rejects as well. */

  function ResponseTemplate(): Packet { ResponsePacket(0, 0) }

  function DataTemplate(): Packet { DataPacket([]) }

  function ModuleInfoTemplate(): Packet
  {
    var spaces := [32, 32, 32, 32, 32, 32, 32, 32, 32, 32, 32, 32];
    ModuleInfoDataPacket(spaces, spaces, [], [], [], [], [], [], [])
  }

  function OpenDataTemplate(): Packet
  {
    OpenDataPacket([], [], [0x30, 0x30, 0x30, 0x30, 0x30, 0x30, 0x30, 0x30,
                            0x30, 0x30, 0x30, 0x30, 0x30, 0x30, 0x30, 0x30])
  }

  function GetImageTemplate(): Packet { GetImageDataPacket([]) }

  function GetRawImageTemplate(): Packet { GetRawImageDataPacket([]) }

  /* ---- Properties of the packet classes ---- */

  /** `CommandPacket.parameter` / `ResponsePacket.parameter`. */
  function ParameterOf(p: Packet): int
    requires Find(p, Parameter).Some? && |Get(p, Parameter)| >= 1
  {
    Scalar(p, Parameter)
  }

  /** `CommandPacket.command`. */
  function CommandOf(p: Packet): int
    requires Find(p, Command).Some? && |Get(p, Command)| >= 1
  {
    Scalar(p, Command)
  }

  /** `ResponsePacket.response_code`. */
  function ResponseCodeOf(p: Packet): int
    requires Find(p, Response).Some? && |Get(p, Response)| >= 1
  {
    Scalar(p, Response)
  }

  /** `ResponsePacket.ok`. */
  predicate Ok(p: Packet)
    requires Find(p, Response).Some? && |Get(p, Response)| >= 1
  {
    ResponseCodeOf(p) == AckOk
  }

  /* ---- Layouts: the fields each constructor lays down, in order ---- */

  lemma HeaderLayout()
    ensures Header() == HeaderFields()
  {
    PutAllFresh([], HeaderFields());
  }

  lemma FrameLayout(code: Key, x: int, c: int)
    requires code == Command || code == Response
    ensures ParameterFrame(code, x, c) ==
              HeaderFields() + [Field(Parameter, U32, [x])] + [Field(code, U16, [c])]
  {
    HeaderLayout();
    PutAllFresh(HeaderFields(), [Field(Parameter, U32, [x]), Field(code, U16, [c])]);
  }

  /** The data packet keeps one start byte, 0xA5, in the first position. */
  lemma DataLayout(data: seq<int>)
    ensures DataPacket(data) ==
              [Field(DataStartCode1, U8, [0xA5])] + [Field(DeviceId, U16, [1])] + [Field(Data, U8, data)]
  {
    var f0, f1 := Field(DataStartCode1, U8, [0x5A]), Field(DataStartCode1, U8, [0xA5]);
    var f2, f3 := Field(DeviceId, U16, [1]), Field(Data, U8, data);
    var es := [f0, f1, f2, f3];
    assert es[1..] == [f1, f2, f3] && es[1..][1..] == [f2, f3];
    assert Put([], DataStartCode1, U8, [0x5A]) == [f0];
    assert Find([f0], DataStartCode1) == Some(0);
    assert Put([f0], DataStartCode1, U8, [0xA5]) == [f1];
    assert PutAll([], es) == PutAll([f0], [f1, f2, f3]);
    assert PutAll([f0], [f1, f2, f3]) == PutAll([f1], [f2, f3]);
    PutAllFresh([f1], [f2, f3]);
    assert [f1] + [f2, f3] == [f1] + [f2] + [f3];
  }

  lemma ModuleInfoLayout(s: seq<int>, e: seq<int>, rw: seq<int>, rh: seq<int>, w: seq<int>,
                         h: seq<int>, m: seq<int>, n: seq<int>, ts: seq<int>)
    ensures ModuleInfoDataPacket(s, e, rw, rh, w, h, m, n, ts) ==
              HeaderFields()
              + [Field(Sensor, Bytes(12), s), Field(EngineVersion, Bytes(12), e)]
              + [Field(RawImgWidth, U16, rw), Field(RawImgHeight, U16, rh), Field(ImgWidth, U16, w),
                 Field(ImgHeight, U16, h), Field(MaxRecordCount, U16, m), Field(EnrollCount, U16, n),
                 Field(TemplateSize, U16, ts)]
  {
    var es := [Field(Sensor, Bytes(12), s), Field(EngineVersion, Bytes(12), e),
               Field(RawImgWidth, U16, rw), Field(RawImgHeight, U16, rh), Field(ImgWidth, U16, w),
               Field(ImgHeight, U16, h), Field(MaxRecordCount, U16, m), Field(EnrollCount, U16, n),
               Field(TemplateSize, U16, ts)];
    HeaderLayout();
    ModuleInfoFresh(es);
    PutAllFresh(HeaderFields(), es);
  }

  /** The nine module-info keys are new to the header and all different. */
  lemma ModuleInfoFresh(es: seq<Field>)
    requires |es| == 9
    requires es[0].key == Sensor && es[1].key == EngineVersion && es[2].key == RawImgWidth
    requires es[3].key == RawImgHeight && es[4].key == ImgWidth && es[5].key == ImgHeight
    requires es[6].key == MaxRecordCount && es[7].key == EnrollCount && es[8].key == TemplateSize
    ensures Fresh(HeaderFields(), es)
  {
  }

  lemma OpenDataLayout(fw: seq<int>, iso: seq<int>, sn: seq<int>)
    ensures OpenDataPacket(fw, iso, sn) ==
              HeaderFields() + [Field(FirmwareVersion, U32, fw), Field(IsoAreaMaxSize, U32, iso),
                                Field(DeviceSerialNumber, Bytes(16), sn)]
  {
    HeaderLayout();
    PutAllFresh(HeaderFields(), [Field(FirmwareVersion, U32, fw), Field(IsoAreaMaxSize, U32, iso),
                                 Field(DeviceSerialNumber, Bytes(16), sn)]);
  }

  lemma ImageLayout(key: Key, width: nat, bitmap: seq<int>)
    requires key == Bitmap || key == RawBitmap
    ensures ImagePacket(key, width, bitmap) == HeaderFields() + [Field(key, Bytes(width), bitmap)]
  {
    HeaderLayout();
    PutAllFresh(HeaderFields(), [Field(key, Bytes(width), bitmap)]);
  }

  /** No key occurs twice. */
  predicate Distinct(p: Packet)
  {
    forall i, j :: 0 <= i < j < |p| ==> p[i].key != p[j].key
  }

  lemma FreshDistinct(p: Packet, es: seq<Field>)
    requires Distinct(p) && Fresh(p, es)
    ensures Distinct(p + es)
  {
    var q := p + es;
    forall i, j | 0 <= i < j < |q|
      ensures q[i].key != q[j].key
    {
      if j >= |p| {
        assert q[j] == es[j - |p|];
        if i >= |p| {
          assert q[i] == es[i - |p|];
        }
      }
    }
  }

  /** The order in which the packet classes lay their keys down. */
  function Rank(k: Key): nat
  {
    match k
    case CommandStartCode1 => 0 case CommandStartCode2 => 1 case DataStartCode1 => 2
    case DeviceId => 3 case Parameter => 4 case Command => 5 case Response => 6 case Data => 7
    case Sensor => 8 case EngineVersion => 9 case RawImgWidth => 10 case RawImgHeight => 11
    case ImgWidth => 12 case ImgHeight => 13 case MaxRecordCount => 14 case EnrollCount => 15
    case TemplateSize => 16 case FirmwareVersion => 17 case IsoAreaMaxSize => 18
    case DeviceSerialNumber => 19 case Bitmap => 20 case RawBitmap => 21
  }

  /** Each key ranks above the one before it. */
  predicate Ascending(p: Packet)
  {
    forall i :: 0 < i < |p| ==> Rank(p[i - 1].key) < Rank(p[i].key)
  }

  lemma {:induction false} AscendingLess(p: Packet, i: nat, j: nat)
    requires Ascending(p) && i < j < |p|
    ensures Rank(p[i].key) < Rank(p[j].key)
    decreases j - i
  {
    if i + 1 < j {
      AscendingLess(p, i + 1, j);
    }
  }

  /** Keys in ascending rank are pairwise different. */
  lemma AscendingDistinct(p: Packet)
    requires Ascending(p)
    ensures Distinct(p)
  {
    forall i, j | 0 <= i < j < |p|
      ensures p[i].key != p[j].key
    {
      AscendingLess(p, i, j);
    }
  }

  /** Two ascending runs joined in order are ascending. */
  lemma AscendingConcat(p: Packet, q: Packet)
    requires Ascending(p) && Ascending(q)
    requires p != [] && q != [] ==> Rank(p[|p| - 1].key) < Rank(q[0].key)
    ensures Ascending(p + q)
  {
    var r := p + q;
    forall i | 0 < i < |r|
      ensures Rank(r[i - 1].key) < Rank(r[i].key)
    {
      if i > |p| {
        assert r[i - 1] == q[i - 1 - |p|] && r[i] == q[i - |p|];
      } else if i < |p| {
        assert r[i - 1] == p[i - 1] && r[i] == p[i];
      }
    }
  }

  /** In a dictionary without repeated keys every entry is found where it is. */
  lemma DistinctFind(p: Packet, i: nat)
    requires Distinct(p) && i < |p|
    ensures Find(p, p[i].key) == Some(i)
  {
    FindAt(p, i, p[i].key);
  }

  /** A decoded packet finds every key of its layout at the layout's
      position, holding the unpacking of that field's slot of the input. */
  lemma DecodedGet(t: Packet, input: seq<byte>, i: nat)
    requires NoEmptyField(t) && FromBytes(t, input).Decoded? && i < |t|
    requires Find(t, t[i].key) == Some(i)
    ensures Offset(t, i) + Size(t[i].format) <= |input|
    ensures Find(FromBytes(t, input).packet, t[i].key) == Some(i)
    ensures Get(FromBytes(t, input).packet, t[i].key) ==
              Unpack(t[i].format, input[Offset(t, i)..Offset(t, i) + Size(t[i].format)])
  {
    var p := FromBytes(t, input).packet;
    DecodedFields(t, input);
    FindSpec(t, t[i].key);
    forall j | 0 <= j <= i
      ensures p[j].key == t[j].key
    {
      FieldAt(t, input, 0, j);
    }
    FindAt(p, i, t[i].key);
    FieldOfDecoded(t, input, i);
  }

  /** DecodedGet with the key, the format and the offset of the entry named,
      so that callers need not unfold the layout to state them. */
  lemma DecodedField(t: Packet, input: seq<byte>, i: nat, k: Key, f: Format, o: nat)
    requires NoEmptyField(t) && FromBytes(t, input).Decoded? && i < |t|
    requires t[i].key == k && t[i].format == f && Offset(t, i) == o && Find(t, k) == Some(i)
    ensures o + Size(f) <= |input|
    ensures Find(FromBytes(t, input).packet, k) == Some(i)
    ensures Get(FromBytes(t, input).packet, k) == Unpack(f, input[o..o + Size(f)])
  {
    DecodedGet(t, input, i);
  }

  /* ---- Sizes, positions and encodings ---- */

  /** The common header packs to 55 AA 01 00; its field boundaries are 0, 1, 2 and 4. */
  lemma HeaderFacts()
    ensures FieldsSize(HeaderFields()) == 4 && NoEmptyField(HeaderFields()) && Distinct(HeaderFields())
    ensures Conforms(HeaderFields()) && FieldBytes(HeaderFields()) == [0x55, 0xAA, 0x01, 0x00]
    ensures forall L :: IsBoundary(HeaderFields(), L) <==> L == 0 || L == 1 || L == 2 || L == 4
  {
    HeaderBytes();
    HeaderBoundaries();
  }

  lemma HeaderBytes()
    ensures FieldsSize(HeaderFields()) == 4 && NoEmptyField(HeaderFields()) && Distinct(HeaderFields())
    ensures Conforms(HeaderFields()) && FieldBytes(HeaderFields()) == [0x55, 0xAA, 0x01, 0x00]
  {
    HeaderSize();
    HeaderDistinct();
    HeaderPacks();
  }

  lemma HeaderSize()
    ensures FieldsSize(HeaderFields()) == 4 && NoEmptyField(HeaderFields())
  {
  }

  lemma HeaderDistinct()
    ensures Distinct(HeaderFields())
  {
  }

  lemma HeaderPacks()
    ensures Conforms(HeaderFields()) && FieldBytes(HeaderFields()) == [0x55, 0xAA, 0x01, 0x00]
  {
  }

  lemma HeaderBoundaries()
    ensures forall L :: IsBoundary(HeaderFields(), L) <==> L == 0 || L == 1 || L == 2 || L == 4
  {
    var h := HeaderFields();
    forall L
      ensures IsBoundary(h, L) <==> L == 0 || L == 1 || L == 2 || L == 4
    {
      SnocBoundary([], h[0], L);
      SnocBoundary([h[0]], h[1], L);
      SnocBoundary([h[0], h[1]], h[2], L);
      assert [] + [h[0]] == [h[0]] && [h[0]] + [h[1]] == [h[0], h[1]] && [h[0], h[1]] + [h[2]] == h;
    }
  }

  /** A command or response frame has five distinct fields over ten bytes
      plus the checksum: the parameter at offset 4, the code at offset 8. */
  lemma FrameShape(code: Key, x: int, c: int)
    requires code == Command || code == Response
    ensures var t := ParameterFrame(code, x, c);
      |t| == 5 && FieldsSize(t) == 10 && ByteSize(t) == 12 && NoEmptyField(t) && Distinct(t) &&
      t[3] == Field(Parameter, U32, [x]) && t[4] == Field(code, U16, [c]) &&
      Offset(t, 3) == 4 && Offset(t, 4) == 8
  {
    var h := HeaderFields();
    assert ParameterFrame(code, x, c) == h + [Field(Parameter, U32, [x])] + [Field(code, U16, [c])] by {
      FrameLayout(code, x, c);
    }
    assert |h| == 3 && FieldsSize(h) == 4 && NoEmptyField(h) && Distinct(h) by {
      HeaderFacts();
    }
    FrameOver(h, Field(Parameter, U32, [x]), Field(code, U16, [c]));
  }

  /** Any three-field, four-byte header with keys of its own, followed by a
      32-bit and a 16-bit field with two more keys. */
  lemma FrameOver(h: Packet, px: Field, pc: Field)
    requires |h| == 3 && FieldsSize(h) == 4 && NoEmptyField(h) && Distinct(h)
    requires px.format == U32 && pc.format == U16 && px.key != pc.key
    requires forall j :: 0 <= j < 3 ==> h[j].key != px.key && h[j].key != pc.key
    ensures var t := h + [px] + [pc];
      |t| == 5 && FieldsSize(t) == 10 && ByteSize(t) == 12 && NoEmptyField(t) && Distinct(t) &&
      t[3] == px && t[4] == pc && Offset(t, 3) == 4 && Offset(t, 4) == 8
  {
    ConcatSize(h, [px]); ConcatSize(h + [px], [pc]);
    ConcatOffset(h, [px], 3); ConcatOffset(h + [px], [pc], 3); ConcatOffset(h + [px], [pc], 4);
    FreshDistinct(h, [px]); FreshDistinct(h + [px], [pc]);
  }

  /** The parameter is found in the fourth entry and the code in the fifth. */
  lemma FrameKeys(code: Key, x: int, c: int)
    requires code == Command || code == Response
    ensures Find(ParameterFrame(code, x, c), Parameter) == Some(3)
    ensures Find(ParameterFrame(code, x, c), code) == Some(4)
    ensures Get(ParameterFrame(code, x, c), Parameter) == [x]
    ensures Get(ParameterFrame(code, x, c), code) == [c]
  {
    FrameShape(code, x, c);
    DistinctFind(ParameterFrame(code, x, c), 3);
    DistinctFind(ParameterFrame(code, x, c), 4);
  }

  /** It packs to 55 AA 01 00, the parameter in four little-endian bytes and
      the code in two, and it can be packed exactly when the parameter fits
      32 bits and the code 16. */
  lemma FrameBytes(code: Key, x: int, c: int)
    requires code == Command || code == Response
    ensures Conforms(ParameterFrame(code, x, c)) <==> 0 <= x < 0x1_0000_0000 && 0 <= c < 0x1_0000
    ensures Conforms(ParameterFrame(code, x, c)) ==>
              FieldBytes(ParameterFrame(code, x, c)) == [0x55, 0xAA, 0x01, 0x00] + Le(x, 4) + Le(c, 2)
  {
    FrameLayout(code, x, c);
    HeaderFacts();
    var h, px, pc := HeaderFields(), Field(Parameter, U32, [x]), Field(code, U16, [c]);
    ConcatBytes(h, [px]); ConcatBytes(h + [px], [pc]);
    assert Pow256(4) == 0x1_0000_0000 && Pow256(2) == 0x1_0000;
    assert Conforms([px]) <==> Fits(U32, [x]);
    assert Conforms([pc]) <==> Fits(U16, [c]);
    assert Conforms([px]) ==> FieldBytes([px]) == Le(x, 4);
    assert Conforms([pc]) ==> FieldBytes([pc]) == Le(c, 2);
  }

  /** A short frame ends on a field boundary at 0, 1, 2, 4, 8 or 10 bytes. */
  lemma FrameBoundaries(code: Key, x: int, c: int, L: int)
    requires code == Command || code == Response
    ensures IsBoundary(ParameterFrame(code, x, c), L) <==>
              L == 0 || L == 1 || L == 2 || L == 4 || L == 8 || L == 10
  {
    FrameLayout(code, x, c);
    HeaderFacts();
    var h, px, pc := HeaderFields(), Field(Parameter, U32, [x]), Field(code, U16, [c]);
    ConcatSize(h, [px]);
    SnocBoundary(h, px, L); SnocBoundary(h + [px], pc, L);
  }

  /** Frames with the same code key differ only in their contents. */
  lemma FrameSameShape(code: Key, x: int, c: int, x': int, c': int)
    requires code == Command || code == Response
    ensures SameShape(ParameterFrame(code, x, c), ParameterFrame(code, x', c'))
  {
    FrameLayout(code, x, c);
    FrameLayout(code, x', c');
    var h := HeaderFields();
    ShapeRefl(h);
    ShapeConcat(h, [Field(Parameter, U32, [x])], h, [Field(Parameter, U32, [x'])]);
    ShapeConcat(h + [Field(Parameter, U32, [x])], [Field(code, U16, [c])],
                h + [Field(Parameter, U32, [x'])], [Field(code, U16, [c'])]);
  }

  /** `CommandPacket(p, c).to_bytes()`: the twelve bytes 55 AA 01 00, the
      parameter, the command and the checksum of the ten bytes before it;
      struct raises when the parameter or the command does not fit. */
  lemma CommandWire(x: int, c: int)
    ensures ToBytes(CommandPacket(x, c)).Some? <==> 0 <= x < 0x1_0000_0000 && 0 <= c < 0x1_0000
    ensures ByteSize(CommandPacket(x, c)) == 12
    ensures 0 <= x < 0x1_0000_0000 && 0 <= c < 0x1_0000 ==>
              var fb := [0x55, 0xAA, 0x01, 0x00] + Le(x, 4) + Le(c, 2);
              ToBytes(CommandPacket(x, c)) == Some(fb + Le(Checksum(fb), 2))
  {
    FrameShape(Command, x, c);
    FrameBytes(Command, x, c);
    if 0 <= x < 0x1_0000_0000 && 0 <= c < 0x1_0000 {
      var fb := [0x55, 0xAA, 0x01, 0x00] + Le(x, 4) + Le(c, 2);
      FromLeLe(Checksum(fb), 2);
      ToBytesOf(CommandPacket(x, c), fb, Le(Checksum(fb), 2));
    }
  }

  /** Round trip: a command frame decoded with the command layout gives back
      its parameter and command. */
  lemma CommandRoundTrip(x: int, c: int)
    requires 0 <= x < 0x1_0000_0000 && 0 <= c < 0x1_0000
    ensures var w := ToBytes(CommandPacket(x, c));
      w.Some? && FromBytes(CommandPacket(0, 0), w.value) == Decoded(CommandPacket(x, c))
    ensures Find(CommandPacket(x, c), Parameter).Some? && Get(CommandPacket(x, c), Parameter) == [x]
    ensures Find(CommandPacket(x, c), Command).Some? && Get(CommandPacket(x, c), Command) == [c]
  {
    FrameShape(Command, 0, 0);
    FrameBytes(Command, x, c);
    FrameSameShape(Command, 0, 0, x, c);
    DecodeEncode(CommandPacket(0, 0), CommandPacket(x, c));
    FrameKeys(Command, x, c);
  }

  /** The same for responses: decoding an encoded response gives back its
      parameter and response code. */
  lemma ResponseRoundTrip(x: int, c: int)
    requires 0 <= x < 0x1_0000_0000 && 0 <= c < 0x1_0000
    ensures var w := ToBytes(ResponsePacket(x, c));
      w.Some? && FromBytes(ResponseTemplate(), w.value) == Decoded(ResponsePacket(x, c))
    ensures Find(ResponsePacket(x, c), Parameter).Some? && Get(ResponsePacket(x, c), Parameter) == [x]
    ensures Find(ResponsePacket(x, c), Response).Some? && Get(ResponsePacket(x, c), Response) == [c]
  {
    FrameShape(Response, 0, 0);
    FrameBytes(Response, x, c);
    FrameSameShape(Response, 0, 0, x, c);
    DecodeEncode(ResponseTemplate(), ResponsePacket(x, c));
    FrameKeys(Response, x, c);
  }

  /** What `ResponsePacket.from_bytes` makes of any byte string: a packet
      exactly when twelve bytes are there and the last two hold the sum of
      the first ten; None when the input stops at a field boundary; a struct
      error when it stops inside a field. */
  lemma ResponseOutcome(b: seq<byte>)
    ensures FromBytes(ResponseTemplate(), b).Decoded? <==>
              |b| >= 12 && FromLe(b[10..12]) == Checksum(b[..10])
    ensures FromBytes(ResponseTemplate(), b).StructError? <==>
              |b| < 12 && !(|b| == 0 || |b| == 1 || |b| == 2 || |b| == 4 || |b| == 8 || |b| == 10)
  {
    var t := ResponseTemplate();
    FrameShape(Response, 0, 0);
    DecodeIff(t, b);
    if |b| < 12 {
      FromBytesShort(t, b);
      FrameBoundaries(Response, 0, 0, |b|);
    } else {
      FromBytesLong(t, b);
    }
  }

  /** A decoded response carries the parameter of bytes 4..8 and the code
      of bytes 8..10, whatever the start bytes and the device id are. */
  lemma ResponseFields(b: seq<byte>)
    requires FromBytes(ResponseTemplate(), b).Decoded?
    ensures |b| >= 12
    ensures var p := FromBytes(ResponseTemplate(), b).packet;
      Find(p, Parameter).Some? && Find(p, Response).Some? &&
      Get(p, Parameter) == [FromLe(b[4..8])] && Get(p, Response) == [FromLe(b[8..10])]
  {
    ResponseParameterField(b);
    ResponseCodeField(b);
  }

  /** The response layout: the parameter at entry 3 (offset 4), the code at
      entry 4 (offset 8), twelve bytes in all. */
  lemma ResponseTemplateFacts()
    ensures var t := ResponseTemplate();
      |t| == 5 && NoEmptyField(t) && ByteSize(t) == 12 &&
      t[3].key == Parameter && t[3].format == U32 && Offset(t, 3) == 4 && Find(t, Parameter) == Some(3) &&
      t[4].key == Response && t[4].format == U16 && Offset(t, 4) == 8 && Find(t, Response) == Some(4)
  {
    FrameShape(Response, 0, 0);
    FrameKeys(Response, 0, 0);
  }

  lemma ResponseParameterField(b: seq<byte>)
    requires FromBytes(ResponseTemplate(), b).Decoded?
    ensures |b| >= 12
    ensures var p := FromBytes(ResponseTemplate(), b).packet;
      Find(p, Parameter).Some? && Get(p, Parameter) == [FromLe(b[4..8])]
  {
    ResponseTemplateFacts();
    FrameParameter(ResponseTemplate(), b);
  }

  lemma FrameParameter(t: Packet, b: seq<byte>)
    requires NoEmptyField(t) && ByteSize(t) == 12 && |t| == 5
    requires t[3].key == Parameter && t[3].format == U32 && Offset(t, 3) == 4 && Find(t, Parameter) == Some(3)
    requires FromBytes(t, b).Decoded?
    ensures |b| >= 12
    ensures Find(FromBytes(t, b).packet, Parameter).Some? && Get(FromBytes(t, b).packet, Parameter) == [FromLe(b[4..8])]
  {
    DecodeIff(t, b);
    DecodedField(t, b, 3, Parameter, U32, 4);
  }

  lemma ResponseCodeField(b: seq<byte>)
    requires FromBytes(ResponseTemplate(), b).Decoded?
    ensures |b| >= 12
    ensures var p := FromBytes(ResponseTemplate(), b).packet;
      Find(p, Response).Some? && Get(p, Response) == [FromLe(b[8..10])]
  {
    ResponseTemplateFacts();
    FrameCode(ResponseTemplate(), b);
  }

  lemma FrameCode(t: Packet, b: seq<byte>)
    requires NoEmptyField(t) && ByteSize(t) == 12 && |t| == 5
    requires t[4].key == Response && t[4].format == U16 && Offset(t, 4) == 8 && Find(t, Response) == Some(4)
    requires FromBytes(t, b).Decoded?
    ensures |b| >= 12
    ensures Find(FromBytes(t, b).packet, Response).Some? && Get(FromBytes(t, b).packet, Response) == [FromLe(b[8..10])]
  {
    DecodeIff(t, b);
    DecodedField(t, b, 4, Response, U16, 8);
  }

  /** `DataPacket(data).to_bytes()`: A5 01 00, the one data byte and the
      checksum; any other length of data makes struct raise. */
  lemma DataWire(data: seq<int>)
    ensures ByteSize(DataPacket(data)) == 6
    ensures ToBytes(DataPacket(data)).Some? <==> |data| == 1 && 0 <= data[0] < 256
    ensures |data| == 1 && 0 <= data[0] < 256 ==>
              var fb := [0xA5, 0x01, 0x00, data[0]];
              ToBytes(DataPacket(data)) == Some(fb + Le(Checksum(fb), 2))
  {
    DataLayout(data);
    var f0, f1, f2 := Field(DataStartCode1, U8, [0xA5]), Field(DeviceId, U16, [1]), Field(Data, U8, data);
    ConcatSize([f0], [f1]); ConcatSize([f0] + [f1], [f2]);
    ConcatBytes([f0], [f1]); ConcatBytes([f0] + [f1], [f2]);
    assert Conforms([f2]) <==> |data| == 1 && 0 <= data[0] < 256;
    if |data| == 1 && 0 <= data[0] < 256 {
      var fb := [0xA5, 0x01, 0x00, data[0]];
      assert FieldBytes([f2]) == [data[0]];
      assert FieldBytes([f0] + [f1] + [f2]) == fb;
      FromLeLe(Checksum(fb), 2);
      ToBytesOf(DataPacket(data), fb, Le(Checksum(fb), 2));
    }
  }
}

