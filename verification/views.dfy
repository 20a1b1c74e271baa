/** The data packets of gt521f32/packets.py as the driver reads them: the
    layout `from_bytes` walks for `OpenDataPacket`, `ModuleInfoDataPacket`
    and the two image packets, and the values their properties return. */
module Views {
  import opened Basics
  import opened Codec
  import opened CodecLaws
  import opened Packets
  import opened Text

  /* ---- Layouts that extend the common header ---- */

  /** The header followed by fresh fields is four bytes longer than those fields. */
  lemma HeaderedSize(q: Packet)
    ensures FieldsSize(HeaderFields() + q) == 4 + FieldsSize(q)
    ensures NoEmptyField(HeaderFields() + q) <==> NoEmptyField(q)
  {
    HeaderFacts();
    ConcatSize(HeaderFields(), q);
  }

  /** An entry of a layout: its position, key, format and offset, and Find
      reaching it by its key. */
  predicate EntryAt(t: Packet, i: nat, k: Key, f: Format, o: nat)
  {
    i < |t| && t[i].key == k && t[i].format == f && Offset(t, i) == o && Find(t, k) == Some(i)
  }

  /** Fields after the header whose keys rank above the device id. */
  predicate Extends(q: Packet)
  {
    Ascending(q) && (q != [] ==> Rank(q[0].key) > Rank(DeviceId))
  }

  /** Entry j of the extension is entry 3 + j of the layout, four bytes
      further on, and it is where Find looks for its key. */
  lemma HeaderedEntry(q: Packet, j: nat, o: nat)
    requires Extends(q) && j < |q| && Offset(q, j) == o
    ensures EntryAt(HeaderFields() + q, 3 + j, q[j].key, q[j].format, 4 + o)
  {
    var hd := HeaderFields();
    HeaderFacts();
    assert Ascending(hd);
    AscendingConcat(hd, q);
    AscendingDistinct(hd + q);
    ConcatOffset(hd, q, 3 + j);
    DistinctFind(hd + q, 3 + j);
  }

  /** The decoded value of a 16-bit entry: the number in its two bytes. */
  lemma DecodedU16(t: Packet, b: seq<byte>, i: nat, k: Key, o: nat)
    requires NoEmptyField(t) && FromBytes(t, b).Decoded? && EntryAt(t, i, k, U16, o)
    ensures o + 2 <= |b|
    ensures Find(FromBytes(t, b).packet, k).Some? && Get(FromBytes(t, b).packet, k) == [FromLe(b[o..o + 2])]
  {
    DecodedField(t, b, i, k, U16, o);
  }

  /** The decoded value of a 32-bit entry: the number in its four bytes. */
  lemma DecodedU32(t: Packet, b: seq<byte>, i: nat, k: Key, o: nat)
    requires NoEmptyField(t) && FromBytes(t, b).Decoded? && EntryAt(t, i, k, U32, o)
    ensures o + 4 <= |b|
    ensures Find(FromBytes(t, b).packet, k).Some? && Get(FromBytes(t, b).packet, k) == [FromLe(b[o..o + 4])]
  {
    DecodedField(t, b, i, k, U32, o);
  }

  /** The decoded value of an n-byte array entry: its bytes as they came. */
  lemma DecodedArray(t: Packet, b: seq<byte>, i: nat, k: Key, n: nat, o: nat)
    requires NoEmptyField(t) && FromBytes(t, b).Decoded? && EntryAt(t, i, k, Bytes(n), o)
    ensures o + n <= |b|
    ensures Find(FromBytes(t, b).packet, k).Some? && Get(FromBytes(t, b).packet, k) == b[o..o + n]
  {
    DecodedField(t, b, i, k, Bytes(n), o);
  }

  /* ---- OpenDataPacket ---- */

  function OpenDataFields(fw: seq<int>, iso: seq<int>, sn: seq<int>): Packet
  {
    [Field(FirmwareVersion, U32, fw), Field(IsoAreaMaxSize, U32, iso), Field(DeviceSerialNumber, Bytes(16), sn)]
  }

  lemma OpenDataFieldsFacts(fw: seq<int>, iso: seq<int>, sn: seq<int>)
    ensures var q := OpenDataFields(fw, iso, sn);
      Extends(q) && FieldsSize(q) == 24 && NoEmptyField(q) &&
      Offset(q, 0) == 0 && Offset(q, 1) == 4 && Offset(q, 2) == 8
  {
    var q := OpenDataFields(fw, iso, sn);
    assert q[1..] == [q[1], q[2]] && q[1..][1..] == [q[2]] && q[1..][1..][1..] == [];
    assert FieldsSize(q[1..][1..]) == 16 && NoEmptyField(q[1..][1..]);
    assert FieldsSize(q[1..]) == 20 && NoEmptyField(q[1..]);
  }

  /** The open-data layout: six fields over 28 bytes, 30 with the checksum. */
  lemma OpenDataSize(fw: seq<int>, iso: seq<int>, sn: seq<int>)
    ensures var t := OpenDataPacket(fw, iso, sn);
      |t| == 6 && NoEmptyField(t) && FieldsSize(t) == 28 && ByteSize(t) == 30
  {
    OpenDataLayout(fw, iso, sn);
    OpenDataFieldsFacts(fw, iso, sn);
    HeaderedSize(OpenDataFields(fw, iso, sn));
  }

  /** Firmware version at offset 4, ISO area size at 8, the 16-byte serial
      number at 12. */
  lemma OpenDataEntries(fw: seq<int>, iso: seq<int>, sn: seq<int>)
    ensures var t := OpenDataPacket(fw, iso, sn);
      EntryAt(t, 3, FirmwareVersion, U32, 4) && EntryAt(t, 4, IsoAreaMaxSize, U32, 8) &&
      EntryAt(t, 5, DeviceSerialNumber, Bytes(16), 12)
  {
    var q, t := OpenDataFields(fw, iso, sn), OpenDataPacket(fw, iso, sn);
    OpenDataLayout(fw, iso, sn);
    OpenDataFieldsFacts(fw, iso, sn);
    assert EntryAt(t, 3, FirmwareVersion, U32, 4) by { HeaderedEntry(q, 0, 0); }
    assert EntryAt(t, 4, IsoAreaMaxSize, U32, 8) by { HeaderedEntry(q, 1, 4); }
    assert EntryAt(t, 5, DeviceSerialNumber, Bytes(16), 12) by { HeaderedEntry(q, 2, 8); }
  }

  /** `OpenDataPacket.from_bytes` accepts exactly the inputs of at least 30
      bytes whose bytes 28..30 hold the checksum of the first 28. */
  lemma OpenDataOutcome(b: seq<byte>)
    ensures FromBytes(OpenDataTemplate(), b).Decoded? <==>
              |b| >= 30 && FromLe(b[28..30]) == Checksum(b[..28])
  {
    OpenDataSize([], [], [0x30, 0x30, 0x30, 0x30, 0x30, 0x30, 0x30, 0x30,
                          0x30, 0x30, 0x30, 0x30, 0x30, 0x30, 0x30, 0x30]);
    DecodeIff(OpenDataTemplate(), b);
  }

  lemma OpenDataTemplateFacts()
    ensures var t := OpenDataTemplate();
      |t| == 6 && NoEmptyField(t) && ByteSize(t) == 30 &&
      EntryAt(t, 3, FirmwareVersion, U32, 4) && EntryAt(t, 4, IsoAreaMaxSize, U32, 8) &&
      EntryAt(t, 5, DeviceSerialNumber, Bytes(16), 12)
  {
    OpenDataSize([], [], [0x30, 0x30, 0x30, 0x30, 0x30, 0x30, 0x30, 0x30,
                          0x30, 0x30, 0x30, 0x30, 0x30, 0x30, 0x30, 0x30]);
    OpenDataEntries([], [], [0x30, 0x30, 0x30, 0x30, 0x30, 0x30, 0x30, 0x30,
                           0x30, 0x30, 0x30, 0x30, 0x30, 0x30, 0x30, 0x30]);
  }

  /** What `open()` keeps of the open-data answer. */
  datatype OpenInfo = OpenInfo(firmwareVersion: string, isoAreaMaxSize: int, deviceSerialNumber: string)

  /** A packet decoded with the open-data layout holds the firmware version
      of bytes 4..8, the ISO area size of bytes 8..12 and the serial number
      bytes 12..28; the template's own contents play no part. */
  lemma OpenDataValuesWith(fw: seq<int>, iso: seq<int>, sn: seq<int>, b: seq<byte>)
    requires FromBytes(OpenDataPacket(fw, iso, sn), b).Decoded?
    ensures |b| >= 30
    ensures var p := FromBytes(OpenDataPacket(fw, iso, sn), b).packet;
      Find(p, FirmwareVersion).Some? && Get(p, FirmwareVersion) == [FromLe(b[4..8])] &&
      Find(p, IsoAreaMaxSize).Some? && Get(p, IsoAreaMaxSize) == [FromLe(b[8..12])] &&
      Find(p, DeviceSerialNumber).Some? && Get(p, DeviceSerialNumber) == b[12..28] &&
      IsBytes(Get(p, DeviceSerialNumber))
  {
    var t := OpenDataPacket(fw, iso, sn);
    OpenDataSize(fw, iso, sn);
    OpenDataEntries(fw, iso, sn);
    DecodedU32(t, b, 3, FirmwareVersion, 4);
    DecodedU32(t, b, 4, IsoAreaMaxSize, 8);
    DecodedArray(t, b, 5, DeviceSerialNumber, 16, 12);
  }

  /** `OpenDataPacket.from_bytes(b)` followed by its three properties; None
      where `from_bytes` returns None or struct raises. */
  function DecodeOpenData(b: seq<byte>): (r: Option<OpenInfo>)
    ensures r.Some? <==> |b| >= 30 && FromLe(b[28..30]) == Checksum(b[..28])
    ensures r.Some? ==> r.value == OpenInfo(FirmwareString(FromLe(b[4..8])), FromLe(b[8..12]),
                                            SerialString(b[12..28]))
  {
    OpenDataOutcome(b);
    var d := FromBytes(OpenDataTemplate(), b);
    if !d.Decoded? then None
    else
      OpenDataValuesWith([], [], [0x30, 0x30, 0x30, 0x30, 0x30, 0x30, 0x30, 0x30,
                                  0x30, 0x30, 0x30, 0x30, 0x30, 0x30, 0x30, 0x30], b);
      Some(OpenInfo(FirmwareString(Scalar(d.packet, FirmwareVersion)), Scalar(d.packet, IsoAreaMaxSize),
                    SerialString(Get(d.packet, DeviceSerialNumber))))
  }

  /* ---- ModuleInfoDataPacket ---- */

  /** The keys of the seven 16-bit fields, in layout order. */
  const InfoNumberKeys: seq<Key> :=
    [RawImgWidth, RawImgHeight, ImgWidth, ImgHeight, MaxRecordCount, EnrollCount, TemplateSize]

  function InfoNames(s: seq<int>, e: seq<int>): Packet
  {
    [Field(Sensor, Bytes(12), s), Field(EngineVersion, Bytes(12), e)]
  }

  /** The seven 16-bit fields, from their contents in layout order. */
  function InfoNumbers(vals: seq<seq<int>>): (r: Packet)
    requires |vals| == 7
  {
    seq(7, j requires 0 <= j < 7 => Field(InfoNumberKeys[j], U16, vals[j]))
  }

  /** The constructor's seven assignments, written out, are InfoNumbers. */
  lemma InfoNumbersDisplay(rw: seq<int>, rh: seq<int>, w: seq<int>, h: seq<int>,
                           m: seq<int>, n: seq<int>, ts: seq<int>)
    ensures InfoNumbers([rw, rh, w, h, m, n, ts]) ==
              [Field(RawImgWidth, U16, rw), Field(RawImgHeight, U16, rh), Field(ImgWidth, U16, w),
               Field(ImgHeight, U16, h), Field(MaxRecordCount, U16, m), Field(EnrollCount, U16, n),
               Field(TemplateSize, U16, ts)]
  {
  }

  lemma InfoNamesFacts(s: seq<int>, e: seq<int>)
    ensures var a := InfoNames(s, e);
      FieldsSize(a) == 24 && NoEmptyField(a) && Ascending(a) && Offset(a, 1) == 12
  {
    var a := InfoNames(s, e);
    assert a[1..] == [a[1]] && a[1..][1..] == [];
    assert FieldsSize(a[1..]) == 12 && NoEmptyField(a[1..]);
  }

  /** The seven numbers are 16-bit fields in ascending rank. */
  lemma InfoNumbersFacts(vals: seq<seq<int>>)
    requires |vals| == 7
    ensures var u := InfoNumbers(vals);
      |u| == 7 && Uniform(u, U16) && FieldsSize(u) == 14 && NoEmptyField(u) && Ascending(u)
  {
    var u := InfoNumbers(vals);
    UniformSize(u, U16);
    forall i | 0 < i < 7
      ensures Rank(InfoNumberKeys[i - 1]) < Rank(InfoNumberKeys[i])
    {
    }
  }

  lemma InfoNumberAt(vals: seq<seq<int>>, j: nat)
    requires |vals| == 7 && j < 7
    ensures var u := InfoNumbers(vals);
      u[j].key == InfoNumberKeys[j] && u[j].format == U16 && Offset(u, j) == 2 * j
  {
    UniformOffset(InfoNumbers(vals), U16, j);
  }

  /** The module-info layout: twelve fields over 42 bytes, 44 with the checksum. */
  lemma ModuleInfoSize(s: seq<int>, e: seq<int>, rw: seq<int>, rh: seq<int>, w: seq<int>,
                       h: seq<int>, m: seq<int>, n: seq<int>, ts: seq<int>)
    ensures var t := ModuleInfoDataPacket(s, e, rw, rh, w, h, m, n, ts);
      |t| == 12 && NoEmptyField(t) && FieldsSize(t) == 42 && ByteSize(t) == 44
  {
    var hd, a, u := HeaderFields(), InfoNames(s, e), InfoNumbers([rw, rh, w, h, m, n, ts]);
    ModuleInfoLayout(s, e, rw, rh, w, h, m, n, ts);
    InfoNumbersDisplay(rw, rh, w, h, m, n, ts);
    HeaderFacts();
    InfoNamesFacts(s, e);
    InfoNumbersFacts([rw, rh, w, h, m, n, ts]);
    ConcatSize(hd, a);
    ConcatSize(hd + a, u);
  }

  /** The names and the numbers together extend the header. */
  lemma InfoExtends(s: seq<int>, e: seq<int>, rw: seq<int>, rh: seq<int>, w: seq<int>,
                    h: seq<int>, m: seq<int>, n: seq<int>, ts: seq<int>)
    ensures Extends(InfoNames(s, e) + InfoNumbers([rw, rh, w, h, m, n, ts]))
  {
    InfoNamesFacts(s, e);
    InfoNumbersFacts([rw, rh, w, h, m, n, ts]);
    AscendingConcat(InfoNames(s, e), InfoNumbers([rw, rh, w, h, m, n, ts]));
  }

  /** The names follow the header: the sensor at offset 4, the engine
      version at 16; both are found by their keys. */
  lemma ModuleInfoNameEntries(s: seq<int>, e: seq<int>, rw: seq<int>, rh: seq<int>, w: seq<int>,
                              h: seq<int>, m: seq<int>, n: seq<int>, ts: seq<int>)
    ensures var t := ModuleInfoDataPacket(s, e, rw, rh, w, h, m, n, ts);
      EntryAt(t, 3, Sensor, Bytes(12), 4) && EntryAt(t, 4, EngineVersion, Bytes(12), 16)
  {
    var a, u := InfoNames(s, e), InfoNumbers([rw, rh, w, h, m, n, ts]);
    var t := ModuleInfoDataPacket(s, e, rw, rh, w, h, m, n, ts);
    ModuleInfoLayout(s, e, rw, rh, w, h, m, n, ts);
    InfoNumbersDisplay(rw, rh, w, h, m, n, ts);
    InfoExtends(s, e, rw, rh, w, h, m, n, ts);
    InfoNamesFacts(s, e);
    assert t == HeaderFields() + (a + u);
    ConcatOffset(a, u, 1);
    assert EntryAt(t, 3, Sensor, Bytes(12), 4) by { HeaderedEntry(a + u, 0, 0); }
    assert EntryAt(t, 4, EngineVersion, Bytes(12), 16) by { HeaderedEntry(a + u, 1, 12); }
  }

  /** The numbers follow the names: number j at offset 28 + 2j. */
  lemma ModuleInfoNumberEntry(s: seq<int>, e: seq<int>, rw: seq<int>, rh: seq<int>, w: seq<int>,
                              h: seq<int>, m: seq<int>, n: seq<int>, ts: seq<int>, j: nat)
    requires j < 7
    ensures EntryAt(ModuleInfoDataPacket(s, e, rw, rh, w, h, m, n, ts), 5 + j, InfoNumberKeys[j], U16, 28 + 2 * j)
  {
    var a, u := InfoNames(s, e), InfoNumbers([rw, rh, w, h, m, n, ts]);
    ModuleInfoLayout(s, e, rw, rh, w, h, m, n, ts);
    InfoNumbersDisplay(rw, rh, w, h, m, n, ts);
    InfoNamesFacts(s, e);
    InfoNumberAt([rw, rh, w, h, m, n, ts], j);
    InfoExtends(s, e, rw, rh, w, h, m, n, ts);
    assert HeaderFields() + a + u == HeaderFields() + (a + u);
    ConcatOffset(a, u, 2 + j);
    assert (a + u)[2 + j] == u[j];
    HeaderedEntry(a + u, 2 + j, 24 + 2 * j);
  }

  /** A packet decoded with the module-info layout holds the sensor name
      bytes 4..16, the engine version bytes 16..28, and number j in bytes
      28 + 2j and 29 + 2j. */
  lemma ModuleInfoValuesWith(s: seq<int>, e: seq<int>, rw: seq<int>, rh: seq<int>, w: seq<int>,
                             h: seq<int>, m: seq<int>, n: seq<int>, ts: seq<int>, b: seq<byte>)
    requires FromBytes(ModuleInfoDataPacket(s, e, rw, rh, w, h, m, n, ts), b).Decoded?
    ensures |b| >= 44
    ensures InfoFields(FromBytes(ModuleInfoDataPacket(s, e, rw, rh, w, h, m, n, ts), b).packet, b)
  {
    var t := ModuleInfoDataPacket(s, e, rw, rh, w, h, m, n, ts);
    ModuleInfoSize(s, e, rw, rh, w, h, m, n, ts);
    ModuleInfoNameEntries(s, e, rw, rh, w, h, m, n, ts);
    forall j | 0 <= j < 7
      ensures EntryAt(t, 5 + j, InfoNumberKeys[j], U16, 28 + 2 * j)
    {
      ModuleInfoNumberEntry(s, e, rw, rh, w, h, m, n, ts, j);
    }
    InfoValuesOf(t, b);
  }

  /** The sensor name is bytes 4..16 of b, the engine version bytes 16..28,
      and number j the little-endian value of bytes 28 + 2j and 29 + 2j. */
  predicate InfoFields(p: Packet, b: seq<byte>)
  {
    |b| >= 44 &&
    Find(p, Sensor).Some? && Get(p, Sensor) == b[4..16] && IsBytes(Get(p, Sensor)) &&
    Find(p, EngineVersion).Some? && Get(p, EngineVersion) == b[16..28] && IsBytes(Get(p, EngineVersion)) &&
    forall j :: 0 <= j < 7 ==>
      Find(p, InfoNumberKeys[j]).Some? && Get(p, InfoNumberKeys[j]) == [FromLe(b[28 + 2 * j..30 + 2 * j])]
  }

  /** Any 44-byte layout with the module-info entries decodes to the
      module-info fields. */
  lemma InfoValuesOf(t: Packet, b: seq<byte>)
    requires NoEmptyField(t) && ByteSize(t) == 44 && FromBytes(t, b).Decoded?
    requires EntryAt(t, 3, Sensor, Bytes(12), 4) && EntryAt(t, 4, EngineVersion, Bytes(12), 16)
    requires forall j :: 0 <= j < 7 ==> EntryAt(t, 5 + j, InfoNumberKeys[j], U16, 28 + 2 * j)
    ensures InfoFields(FromBytes(t, b).packet, b)
  {
    var p := FromBytes(t, b).packet;
    assert |b| >= 44 by { DecodeIff(t, b); }
    assert Find(p, Sensor).Some? && Get(p, Sensor) == b[4..16] by {
      DecodedArray(t, b, 3, Sensor, 12, 4);
    }
    assert Find(p, EngineVersion).Some? && Get(p, EngineVersion) == b[16..28] by {
      DecodedArray(t, b, 4, EngineVersion, 12, 16);
    }
    DecodedU16Run(t, b, InfoNumberKeys, 5, 28);
  }

  /** A run of 16-bit entries with consecutive indices and offsets decodes
      to the little-endian values of consecutive byte pairs. */
  lemma DecodedU16Run(t: Packet, b: seq<byte>, keys: seq<Key>, i: nat, o: nat)
    requires NoEmptyField(t) && FromBytes(t, b).Decoded?
    requires forall j :: 0 <= j < |keys| ==> EntryAt(t, i + j, keys[j], U16, o + 2 * j)
    ensures forall j :: 0 <= j < |keys| ==>
              o + 2 * j + 2 <= |b| &&
              Find(FromBytes(t, b).packet, keys[j]).Some? &&
              Get(FromBytes(t, b).packet, keys[j]) == [FromLe(b[o + 2 * j..o + 2 * j + 2])]
  {
    forall j | 0 <= j < |keys|
      ensures o + 2 * j + 2 <= |b|
      ensures Find(FromBytes(t, b).packet, keys[j]).Some?
      ensures Get(FromBytes(t, b).packet, keys[j]) == [FromLe(b[o + 2 * j..o + 2 * j + 2])]
    {
      DecodedU16(t, b, i + j, keys[j], o + 2 * j);
    }
  }

  lemma ModuleInfoTemplateFacts()
    ensures var t := ModuleInfoTemplate();
      NoEmptyField(t) && FieldsSize(t) == 42 && ByteSize(t) == 44
  {
    var sp := [32, 32, 32, 32, 32, 32, 32, 32, 32, 32, 32, 32];
    ModuleInfoSize(sp, sp, [], [], [], [], [], [], []);
  }

  /** `ModuleInfoDataPacket.from_bytes` accepts exactly the inputs of at
      least 44 bytes whose bytes 42..44 hold the checksum of the first 42. */
  lemma ModuleInfoOutcome(b: seq<byte>)
    ensures FromBytes(ModuleInfoTemplate(), b).Decoded? <==>
              |b| >= 44 && FromLe(b[42..44]) == Checksum(b[..42])
  {
    ModuleInfoTemplateFacts();
    DecodeIff(ModuleInfoTemplate(), b);
  }

  /** The nine values `module_info()` returns: the two names, then
      raw_img_width, raw_img_height, img_width, img_height,
      max_record_count, enroll_count and template_size in `numbers`. */
  datatype ModuleInfo = ModuleInfo(sensor: string, engineVersion: string, numbers: seq<int>)

  /** The nine properties of a module-info packet. */
  function InfoOf(p: Packet): ModuleInfo
    requires Find(p, Sensor).Some? && IsBytes(Get(p, Sensor))
    requires Find(p, EngineVersion).Some? && IsBytes(Get(p, EngineVersion))
    requires forall j :: 0 <= j < 7 ==> Find(p, InfoNumberKeys[j]).Some? && |Get(p, InfoNumberKeys[j])| >= 1
  {
    ModuleInfo(CString(Get(p, Sensor)), CString(Get(p, EngineVersion)),
               seq(7, j requires 0 <= j < 7 => Scalar(p, InfoNumberKeys[j])))
  }

  /** A packet holding the module-info fields of b reads its names as the
      NUL-terminated bytes 4..16 and 16..28 and number j from bytes 28 + 2j. */
  lemma InfoOfFields(p: Packet, b: seq<byte>)
    requires InfoFields(p, b)
    ensures InfoOf(p).sensor == CString(b[4..16]) && InfoOf(p).engineVersion == CString(b[16..28])
    ensures |InfoOf(p).numbers| == 7
    ensures forall j :: 0 <= j < 7 ==> InfoOf(p).numbers[j] == FromLe(b[28 + 2 * j..30 + 2 * j])
  {
    forall j | 0 <= j < 7
      ensures InfoOf(p).numbers[j] == FromLe(b[28 + 2 * j..30 + 2 * j])
    {
      assert Get(p, InfoNumberKeys[j]) == [FromLe(b[28 + 2 * j..30 + 2 * j])];
    }
  }

  /** `ModuleInfoDataPacket.from_bytes(b)` followed by its nine properties;
      None where `from_bytes` returns None or struct raises. */
  function DecodeModuleInfo(b: seq<byte>): (r: Option<ModuleInfo>)
    ensures r.Some? <==> |b| >= 44 && FromLe(b[42..44]) == Checksum(b[..42])
    ensures r.Some? ==> r.value.sensor == CString(b[4..16]) && r.value.engineVersion == CString(b[16..28])
    ensures r.Some? ==> |r.value.numbers| == 7
    ensures r.Some? ==> forall j :: 0 <= j < 7 ==> r.value.numbers[j] == FromLe(b[28 + 2 * j..30 + 2 * j])
  {
    ModuleInfoOutcome(b);
    var d := FromBytes(ModuleInfoTemplate(), b);
    if !d.Decoded? then None
    else
      var sp := [32, 32, 32, 32, 32, 32, 32, 32, 32, 32, 32, 32];
      ModuleInfoValuesWith(sp, sp, [], [], [], [], [], [], [], b);
      InfoOfFields(d.packet, b);
      Some(InfoOf(d.packet))
  }

  /* ---- GetImageDataPacket and GetRawImageDataPacket ---- */

  /** An image layout: the header and one array of `width` bytes at offset
      4; `width` + 4 field bytes, `width` + 6 in all. */
  lemma ImageShape(key: Key, width: nat, bitmap: seq<int>)
    requires key == Bitmap || key == RawBitmap
    requires width > 0
    ensures var t := ImagePacket(key, width, bitmap);
      |t| == 4 && NoEmptyField(t) && FieldsSize(t) == width + 4 && ByteSize(t) == width + 6 &&
      EntryAt(t, 3, key, Bytes(width), 4)
  {
    var q := [Field(key, Bytes(width), bitmap)];
    ImageLayout(key, width, bitmap);
    HeaderedSize(q);
    HeaderedEntry(q, 0, 0);
  }

  /** Decoding with an image layout: accepted exactly when the whole frame
      is there with a matching checksum, and then the image is the `width`
      bytes after the header. */
  lemma ImageDecoded(key: Key, width: nat, bitmap: seq<int>, b: seq<byte>)
    requires key == Bitmap || key == RawBitmap
    requires width > 0
    ensures FromBytes(ImagePacket(key, width, bitmap), b).Decoded? <==>
              |b| >= width + 6 && FromLe(b[width + 4..width + 6]) == Checksum(b[..width + 4])
    ensures FromBytes(ImagePacket(key, width, bitmap), b).Decoded? ==>
              var p := FromBytes(ImagePacket(key, width, bitmap), b).packet;
              Find(p, key).Some? && Get(p, key) == b[4..4 + width] && IsBytes(Get(p, key))
  {
    var t := ImagePacket(key, width, bitmap);
    ImageShape(key, width, bitmap);
    DecodeIff(t, b);
    if FromBytes(t, b).Decoded? {
      DecodedArray(t, b, 3, key, width, 4);
    }
  }

  /** `GetImageDataPacket.from_bytes(b).bitmap`: the 52116 image bytes of a
      52122-byte frame; None where `from_bytes` returns None or struct raises. */
  function DecodeImage(b: seq<byte>): (r: Option<seq<byte>>)
    ensures r.Some? <==> |b| >= 52122 && FromLe(b[52120..52122]) == Checksum(b[..52120])
    ensures r.Some? ==> r.value == b[4..52120]
  {
    ImageDecoded(Bitmap, 52116, [], b);
    var d := FromBytes(GetImageTemplate(), b);
    if !d.Decoded? then None else Some(AsBytes(Get(d.packet, Bitmap)))
  }

  /** `GetRawImageDataPacket.from_bytes(b).raw_bitmap`: the 19200 raw image
      bytes of a 19206-byte frame. */
  function DecodeRawImage(b: seq<byte>): (r: Option<seq<byte>>)
    ensures r.Some? <==> |b| >= 19206 && FromLe(b[19204..19206]) == Checksum(b[..19204])
    ensures r.Some? ==> r.value == b[4..19204]
  {
    ImageDecoded(RawBitmap, 19200, [], b);
    var d := FromBytes(GetRawImageTemplate(), b);
    if !d.Decoded? then None else Some(AsBytes(Get(d.packet, RawBitmap)))
  }

  /* ---- Reading more than a frame ---- */

  /** Bytes after the 30-byte frame change nothing: decoding a longer read
      gives what decoding the frame alone gives. */
  lemma OpenDataPrefix(b: seq<byte>, n: nat)
    requires n >= 30
    ensures DecodeOpenData(b[..Min(n, |b|)]) == DecodeOpenData(b)
  {
    var g := b[..Min(n, |b|)];
    if |b| >= 30 {
      assert g[28..30] == b[28..30] && g[..28] == b[..28];
      assert g[4..8] == b[4..8] && g[8..12] == b[8..12] && g[12..28] == b[12..28];
    }
  }

  /** A read that stops short of 44 bytes never decodes; a longer one
      decodes like its first 44 bytes. */
  lemma ModuleInfoPrefix(b: seq<byte>, n: nat)
    ensures n < 44 ==> DecodeModuleInfo(b[..Min(n, |b|)]).None?
    ensures n >= 44 ==> DecodeModuleInfo(b[..Min(n, |b|)]) == DecodeModuleInfo(b)
  {
    if n >= 44 && |b| >= 44 {
      ModuleInfoFirst44(b[..Min(n, |b|)], b);
    }
  }

  /** Two reads that agree on their first 44 bytes decode alike. */
  lemma ModuleInfoFirst44(g: seq<byte>, b: seq<byte>)
    requires |g| >= 44 && |b| >= 44 && g[..44] == b[..44]
    ensures DecodeModuleInfo(g) == DecodeModuleInfo(b)
  {
    ModuleInfoTemplateFacts();
    SameLeadingBytes(ModuleInfoTemplate(), g, b);
  }

  /** The same for the two image frames. */
  lemma ImagePrefix(b: seq<byte>)
    ensures DecodeImage(b[..Min(52122, |b|)]) == DecodeImage(b)
    ensures DecodeRawImage(b[..Min(19206, |b|)]) == DecodeRawImage(b)
  {
    var g, h := b[..Min(52122, |b|)], b[..Min(19206, |b|)];
    if |b| >= 52122 {
      assert g[52120..52122] == b[52120..52122] && g[..52120] == b[..52120] && g[4..52120] == b[4..52120];
    }
    if |b| >= 19206 {
      assert h[19204..19206] == b[19204..19206] && h[..19204] == b[..19204] && h[4..19204] == b[4..19204];
    }
  }
}
