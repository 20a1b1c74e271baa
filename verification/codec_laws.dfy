/** Properties of the frame codec: the decode/encode round trips, truncation,
    trailing bytes, checksum sensitivity and where each field is read from. */
module CodecLaws {
  import opened Basics
  import opened Codec

  lemma {:induction false} BoundaryBound(t: Packet, L: int)
    requires IsBoundary(t, L)
    ensures 0 <= L <= FieldsSize(t)
  {
    if L != 0 {
      BoundaryBound(t[1..], L - Size(t[0].format));
    }
  }

  lemma {:induction false} EndIsBoundary(t: Packet)
    ensures IsBoundary(t, FieldsSize(t))
  {
    if t != [] {
      EndIsBoundary(t[1..]);
    }
  }

  lemma {:induction false} ShapeSize(p: Packet, q: Packet)
    requires SameShape(p, q)
    ensures FieldsSize(p) == FieldsSize(q)
    ensures NoEmptyField(p) <==> NoEmptyField(q)
  {
    if p != [] {
      ShapeSize(p[1..], q[1..]);
    }
  }

  lemma {:induction false} ShapeTrans(p: Packet, q: Packet, r: Packet)
    requires SameShape(p, q) && SameShape(q, r)
    ensures SameShape(p, r)
  {
    if p != [] {
      ShapeTrans(p[1..], q[1..], r[1..]);
    }
  }

  lemma FieldBytesCons(f: Field, fs: Packet)
    requires Conforms([f] + fs)
    ensures Conforms(fs) && Fits(f.format, f.contents)
    ensures FieldBytes([f] + fs) == Pack(f) + FieldBytes(fs)
  {
    assert ([f] + fs)[1..] == fs;
  }

  /** Packing is injective on packets of one shape. */
  lemma {:induction false} FieldBytesInjective(p: Packet, q: Packet)
    requires SameShape(p, q) && Conforms(p) && Conforms(q)
    requires FieldBytes(p) == FieldBytes(q)
    ensures p == q
  {
    if p != [] {
      var n := Size(p[0].format);
      var bp := FieldBytes(p);
      assert bp == Pack(p[0]) + FieldBytes(p[1..]);
      assert bp == Pack(q[0]) + FieldBytes(q[1..]);
      assert bp[..n] == Pack(p[0]) && bp[n..] == FieldBytes(p[1..]);
      assert bp[..n] == Pack(q[0]) && bp[n..] == FieldBytes(q[1..]);
      UnpackPack(p[0]);
      UnpackPack(q[0]);
      FieldBytesInjective(p[1..], q[1..]);
      assert p == [p[0]] + p[1..];
      assert q == [q[0]] + q[1..];
    }
  }

  /** One step of the field loop when the first field is read in full. */
  lemma ReadFieldsStep(t: Packet, stream: seq<byte>)
    requires t != [] && 0 < Size(t[0].format) <= |stream|
    requires ReadFields(t[1..], stream[Size(t[0].format)..]).Read?
    ensures ReadFields(t, stream).Read?
    ensures ReadFields(t, stream).fields ==
              [t[0].(contents := Unpack(t[0].format, stream[..Size(t[0].format)]))]
              + ReadFields(t[1..], stream[Size(t[0].format)..]).fields
  {
  }

  /** With enough input, the field loop reads every field and the fields
      repack to exactly the bytes read. */
  lemma {:induction false} ReadFieldsLong(t: Packet, stream: seq<byte>)
    requires NoEmptyField(t) && |stream| >= FieldsSize(t)
    ensures ReadFields(t, stream).Read?
    ensures Conforms(ReadFields(t, stream).fields)
    ensures FieldBytes(ReadFields(t, stream).fields) == stream[..FieldsSize(t)]
  {
    ReadFieldsShape(t, stream);
    if t != [] {
      var n := Size(t[0].format);
      var head, tail := stream[..n], stream[n..];
      ReadFieldsLong(t[1..], tail);
      ReadFieldsShape(t[1..], tail);
      ReadFieldsShape(t, stream);
      var r := ReadFields(t[1..], tail);
      var f := t[0].(contents := Unpack(t[0].format, head));
      ReadFieldsStep(t, stream);
      var w := ReadFields(t, stream).fields;
      assert w == [f] + r.fields;
      FieldBytesCons(f, r.fields);
      PackUnpack(t[0].key, t[0].format, head);
      assert FieldBytes(w) == head + FieldBytes(r.fields);
      SplitPrefix(stream, n, FieldsSize(t[1..]));
    }
  }

  /** With too little input, the field loop stops: None when the input ends
      on a field boundary, a struct error when it ends inside a field. */
  lemma {:induction false} ReadFieldsShort(t: Packet, stream: seq<byte>)
    requires NoEmptyField(t) && |stream| < FieldsSize(t)
    ensures ReadFields(t, stream) ==
              Stop(if IsBoundary(t, |stream|) then Rejected(Truncated) else StructError)
  {
    var n := Size(t[0].format);
    if |stream| >= n {
      ReadFieldsShort(t[1..], stream[n..]);
    }
  }

  /** Full-length input: decoding accepts exactly when the stored checksum
      matches the received field bytes; sync bytes and ids are not checked. */
  lemma FromBytesLong(t: Packet, input: seq<byte>)
    requires NoEmptyField(t) && |input| >= ByteSize(t)
    ensures ReadFields(t, input).Read?
    ensures FromBytes(t, input) ==
              if FromLe(input[FieldsSize(t)..ByteSize(t)]) == Checksum(input[..FieldsSize(t)])
              then Decoded(ReadFields(t, input).fields)
              else Rejected(BadChecksum)
  {
    ReadFieldsShape(t, input);
    ReadFieldsLong(t, input);
    var rest := input[FieldsSize(t)..];
    assert rest[..Min(2, |rest|)] == input[FieldsSize(t)..ByteSize(t)];
  }

  /** Short input never decodes: None exactly when it ends on a field
      boundary (including right before the checksum), a struct error otherwise. */
  lemma FromBytesShort(t: Packet, input: seq<byte>)
    requires NoEmptyField(t) && |input| < ByteSize(t)
    ensures FromBytes(t, input).Rejected? <==> IsBoundary(t, |input|)
    ensures FromBytes(t, input).StructError? <==> !IsBoundary(t, |input|)
  {
    ReadFieldsShape(t, input);
    if |input| < FieldsSize(t) {
      ReadFieldsShort(t, input);
    } else {
      ReadFieldsLong(t, input);
      EndIsBoundary(t);
      if |input| > FieldsSize(t) && IsBoundary(t, |input|) {
        BoundaryBound(t, |input|);
      }
    }
  }

  /** Decoding succeeds iff the input holds the whole layout and its checksum
      bytes equal the sum of the bytes before them. */
  lemma DecodeIff(t: Packet, input: seq<byte>)
    requires NoEmptyField(t)
    ensures FromBytes(t, input).Decoded? <==>
              |input| >= ByteSize(t) &&
              FromLe(input[FieldsSize(t)..ByteSize(t)]) == Checksum(input[..FieldsSize(t)])
  {
    if |input| >= ByteSize(t) {
      FromBytesLong(t, input);
    } else {
      FromBytesShort(t, input);
    }
  }

  /** Round trip: decoding an encoded packet with its own layout gives it back. */
  lemma DecodeEncode(t: Packet, p: Packet)
    requires SameShape(t, p) && Conforms(p) && NoEmptyField(t)
    ensures FromBytes(t, ToBytes(p).value) == Decoded(p)
  {
    ReadFieldsShape(t, ToBytes(p).value);
    var b := ToBytes(p).value;
    ShapeSize(t, p);
    FromBytesLong(t, b);
    ReadFieldsLong(t, b);
    var fs := ReadFields(t, b).fields;
    assert b[FieldsSize(t)..ByteSize(t)] == b[FieldsSize(p)..];
    ShapeTrans(fs, t, p);
    FieldBytesInjective(fs, p);
  }

  /** A packable packet encodes to its field bytes followed by any two bytes
      whose value is their checksum. */
  lemma ToBytesOf(p: Packet, fb: seq<byte>, cs: seq<byte>)
    requires Conforms(p) && FieldBytes(p) == fb
    requires |cs| == 2 && FromLe(cs) == Checksum(fb)
    ensures ToBytes(p) == Some(fb + cs)
  {
    var v := ToBytes(p).value;
    var fsz := FieldsSize(p);
    LeFromLe(v[fsz..]);
    LeFromLe(cs);
    Rejoin(v, fsz);
  }

  /** Re-encoding a decoded packet reproduces the first byte_size input bytes. */
  lemma EncodeDecoded(t: Packet, input: seq<byte>)
    requires NoEmptyField(t) && FromBytes(t, input).Decoded?
    ensures ToBytes(FromBytes(t, input).packet) == Some(input[..ByteSize(t)])
  {
    var fsz, p := FieldsSize(t), FromBytes(t, input).packet;
    assert |input| >= ByteSize(t) && FromLe(input[fsz..ByteSize(t)]) == Checksum(input[..fsz]) by {
      DecodeIff(t, input);
    }
    assert p == ReadFields(t, input).fields by {
      FromBytesLong(t, input);
    }
    assert Conforms(p) && FieldBytes(p) == input[..fsz] by {
      ReadFieldsLong(t, input);
    }
    ToBytesOf(p, input[..fsz], input[fsz..ByteSize(t)]);
    assert input[..fsz] + input[fsz..ByteSize(t)] == input[..ByteSize(t)] by {
      SliceShift(input, fsz, 0, 2);
      SplitPrefix(input, fsz, 2);
    }
  }

  /** Bytes after the checksum are ignored (the source only logs them). */
  lemma ExtraBytesIgnored(t: Packet, input: seq<byte>, extra: seq<byte>)
    requires NoEmptyField(t) && |input| >= ByteSize(t)
    ensures FromBytes(t, input + extra) == FromBytes(t, input)
  {
    ReadFieldsShape(t, input);
    ReadFieldsShape(t, input + extra);
    var both := input + extra;
    FromBytesLong(t, input);
    FromBytesLong(t, both);
    ReadFieldsLong(t, input);
    ReadFieldsLong(t, both);
    assert both[..FieldsSize(t)] == input[..FieldsSize(t)];
    assert both[FieldsSize(t)..ByteSize(t)] == input[FieldsSize(t)..ByteSize(t)];
    var a, b := ReadFields(t, input).fields, ReadFields(t, both).fields;
    ShapeTrans(a, t, b) by {
      ShapeSym(b, t);
    }
    FieldBytesInjective(a, b);
  }

  /** Two inputs that agree on the bytes a layout covers decode alike. */
  lemma SameLeadingBytes(t: Packet, g: seq<byte>, b: seq<byte>)
    requires NoEmptyField(t) && |g| >= ByteSize(t) && |b| >= ByteSize(t)
    requires g[..ByteSize(t)] == b[..ByteSize(t)]
    ensures FromBytes(t, g) == FromBytes(t, b)
  {
    var n := ByteSize(t);
    Rejoin(g, n);
    Rejoin(b, n);
    ExtraBytesIgnored(t, g[..n], g[n..]);
    ExtraBytesIgnored(t, b[..n], b[n..]);
  }

  lemma {:induction false} ShapeSym(p: Packet, q: Packet)
    requires SameShape(p, q)
    ensures SameShape(q, p)
  {
    if p != [] {
      ShapeSym(p[1..], q[1..]);
    }
  }

  lemma ChecksumFieldChange(a: seq<byte>, i: nat, b: byte)
    requires i < |a| && b != a[i]
    ensures Checksum(a[i := b]) != Checksum(a)
  {
    SumUpdate(a, i, b);
  }

  /** Any single changed byte of a frame that decoded makes decoding fail
      with a checksum mismatch. */
  lemma ChecksumSensitive(t: Packet, input: seq<byte>, i: nat, b: byte)
    requires NoEmptyField(t) && FromBytes(t, input).Decoded?
    requires i < ByteSize(t) && b != input[i]
    ensures FromBytes(t, input[i := b]) == Rejected(BadChecksum)
  {
    DecodeIff(t, input);
    var changed := input[i := b];
    FromBytesLong(t, changed);
    var fsz := FieldsSize(t);
    var cs := input[fsz..ByteSize(t)];
    var cs' := changed[fsz..ByteSize(t)];
    TwoByteValue(cs);
    TwoByteValue(cs');
    if i < fsz {
      assert changed[..fsz] == input[..fsz][i := b];
      ChecksumFieldChange(input[..fsz], i, b);
      assert cs' == cs;
    } else {
      assert changed[..fsz] == input[..fsz];
      assert cs' == cs[i - fsz := b];
    }
  }

  lemma SliceAfter<T>(x: seq<T>, y: seq<T>, a: nat, e: nat)
    requires a <= e <= |y|
    ensures (x + y)[|x| + a..|x| + e] == y[a..e]
  {
  }

  /** Where field i of layout t starts: the widths of the fields before it. */
  function Offset(t: Packet, i: nat): (r: nat)
    requires i < |t|
    ensures r + Size(t[i].format) <= FieldsSize(t)
  {
    if i == 0 then 0 else Size(t[0].format) + Offset(t[1..], i - 1)
  }

  /** Reference reading of layout t from position k of a stream: every field
      unpacks its own slot, one after the other. */
  function FieldsFrom(t: Packet, stream: seq<byte>, k: nat): (r: Packet)
    requires k + FieldsSize(t) <= |stream|
    ensures |r| == |t|
  {
    if t == [] then []
    else
      var n := Size(t[0].format);
      [t[0].(contents := Unpack(t[0].format, stream[k..k + n]))] + FieldsFrom(t[1..], stream, k + n)
  }

  /** Field i of the reference reading is the unpacking of the slot at its offset. */
  lemma {:induction false} FieldAt(t: Packet, stream: seq<byte>, k: nat, i: nat)
    requires k + FieldsSize(t) <= |stream| && i < |t|
    ensures FieldsFrom(t, stream, k)[i].key == t[i].key
    ensures FieldsFrom(t, stream, k)[i].format == t[i].format
    ensures FieldsFrom(t, stream, k)[i].contents ==
              Unpack(t[i].format, stream[k + Offset(t, i)..k + Offset(t, i) + Size(t[i].format)])
  {
    if i > 0 {
      var n := Size(t[0].format);
      FieldAt(t[1..], stream, k + n, i - 1);
      assert t[1..][i - 1] == t[i];
      assert k + n + Offset(t[1..], i - 1) == k + Offset(t, i);
    }
  }

  /** The field loop, run on the stream from position k, agrees with the reference reading. */
  lemma {:induction false} ReadFieldsFrom(t: Packet, stream: seq<byte>, k: nat)
    requires NoEmptyField(t) && k + FieldsSize(t) <= |stream|
    ensures ReadFields(t, stream[k..]) == Read(FieldsFrom(t, stream, k), stream[k + FieldsSize(t)..])
  {
    if t != [] {
      var n := Size(t[0].format);
      var f := t[0].(contents := Unpack(t[0].format, stream[k..k + n]));
      ReadFieldsFrom(t[1..], stream, k + n);
      assert stream[k..][n..] == stream[k + n..];
      assert stream[k..][..Min(n, |stream[k..]|)] == stream[k..k + n];
      assert k + n + FieldsSize(t[1..]) == k + FieldsSize(t);
      assert ReadFields(t, stream[k..]) ==
             Read([f] + FieldsFrom(t[1..], stream, k + n), stream[k + FieldsSize(t)..]);
    }
  }

  /** A decoded packet is the reference reading of its input. */
  lemma DecodedFields(t: Packet, input: seq<byte>)
    requires NoEmptyField(t) && FromBytes(t, input).Decoded?
    ensures FieldsSize(t) <= |input|
    ensures FromBytes(t, input).packet == FieldsFrom(t, input, 0)
  {
    assert input[0..] == input;
    ReadFieldsFrom(t, input, 0);
  }

  /** Every decoded field holds the unpacking of its own slot of the input. */
  lemma FieldOfDecoded(t: Packet, input: seq<byte>, i: nat)
    requires NoEmptyField(t) && FromBytes(t, input).Decoded? && i < |t|
    ensures Offset(t, i) + Size(t[i].format) <= FieldsSize(t) < |input|
    ensures FromBytes(t, input).packet[i].contents ==
              Unpack(t[i].format, input[Offset(t, i)..Offset(t, i) + Size(t[i].format)])
  {
    assert |input| >= ByteSize(t) by {
      DecodeIff(t, input);
    }
    DecodedFields(t, input);
    FieldAt(t, input, 0, i);
    var o, w := Offset(t, i), Size(t[i].format);
    assert 0 + o == o && 0 + o + w == o + w;
  }

  /* Concatenating layouts, the way every packet class extends the common
     header: the laws below let a layout be measured piece by piece. */

  lemma {:induction false} ConcatSize(p: Packet, q: Packet)
    ensures FieldsSize(p + q) == FieldsSize(p) + FieldsSize(q)
    ensures NoEmptyField(p + q) <==> NoEmptyField(p) && NoEmptyField(q)
  {
    if p != [] {
      assert (p + q)[1..] == p[1..] + q;
      ConcatSize(p[1..], q);
    } else {
      assert [] + q == q;
    }
  }

  lemma {:induction false} ConcatBytes(p: Packet, q: Packet)
    ensures Conforms(p + q) <==> Conforms(p) && Conforms(q)
    ensures Conforms(p + q) ==> FieldBytes(p + q) == FieldBytes(p) + FieldBytes(q)
  {
    if p != [] {
      assert (p + q)[1..] == p[1..] + q;
      ConcatBytes(p[1..], q);
    } else {
      assert [] + q == q;
    }
  }

  lemma {:induction false} ConcatOffset(p: Packet, q: Packet, i: nat)
    requires i < |p| + |q|
    ensures Offset(p + q, i) == if i < |p| then Offset(p, i) else FieldsSize(p) + Offset(q, i - |p|)
  {
    if p == [] {
      assert [] + q == q;
    } else if i > 0 {
      assert (p + q)[1..] == p[1..] + q;
      ConcatOffset(p[1..], q, i - 1);
    }
  }

  /** Every field of q has format f. */
  predicate Uniform(q: Packet, f: Format)
  {
    forall j :: 0 <= j < |q| ==> q[j].format == f
  }

  /** A run of fields of one format is that many times its width. */
  lemma {:induction false} UniformSize(q: Packet, f: Format)
    requires Uniform(q, f)
    ensures FieldsSize(q) == |q| * Size(f)
    ensures NoEmptyField(q) <==> q == [] || Size(f) > 0
  {
    if q != [] {
      UniformSize(q[1..], f);
      assert |q| * Size(f) == Size(f) + (|q| - 1) * Size(f);
    }
  }

  /** ... and its field i sits at i times the width. */
  lemma {:induction false} UniformOffset(q: Packet, f: Format, i: nat)
    requires Uniform(q, f) && i < |q|
    ensures Offset(q, i) == i * Size(f)
  {
    if i > 0 {
      UniformOffset(q[1..], f, i - 1);
      assert i * Size(f) == Size(f) + (i - 1) * Size(f);
    }
  }

  /** The boundaries of a layout with one more field at the end. */
  lemma {:induction false} SnocBoundary(p: Packet, x: Field, L: int)
    ensures IsBoundary(p + [x], L) <==> IsBoundary(p, L) || L == FieldsSize(p) + Size(x.format)
  {
    ConcatSize(p, [x]);
    if p != [] {
      assert (p + [x])[1..] == p[1..] + [x];
      SnocBoundary(p[1..], x, L - Size(p[0].format));
    } else {
      assert [] + [x] == [x];
      assert [x][1..] == [];
    }
  }

  lemma {:induction false} ShapeRefl(p: Packet)
    ensures SameShape(p, p)
  {
    if p != [] {
      ShapeRefl(p[1..]);
    }
  }

  lemma {:induction false} ShapeConcat(p: Packet, q: Packet, p': Packet, q': Packet)
    requires SameShape(p, p') && SameShape(q, q')
    ensures SameShape(p + q, p' + q')
  {
    if p == [] {
      assert p + q == q && p' + q' == q';
    } else {
      assert (p + q)[1..] == p[1..] + q && (p' + q')[1..] == p'[1..] + q';
      ShapeConcat(p[1..], q, p'[1..], q');
    }
  }
}

