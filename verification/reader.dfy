/** The binary reader of dotnet/io/binary.py: `BinaryFormatter` reading an
    [MS-NRBF] stream record by record into a DataStore.

    The stream is a byte sequence and a cursor. The formatter's mutable state
    (its data store, its ReadState, the object ids held by the
    InstanceReferences it created) is an explicit `Reader` value that every
    read takes and returns.
 */
module Reader {
  import opened Wrappers
  import opened Bytes
  import opened Enums
  import opened Primitives
  import opened Structures
  import opened Objects
  import VarInt
  import DecimalText

  // ---------------------------------------------------------------------------
  // Formatter state

  /** `BinaryFormatter.ReadState`. `objects` maps a stream object id to the
      instance registered for it, `objectIdMap` maps it to that instance's store
      id, and `references` lists the reference cells of the InstanceReferences
      `read_reference` created since the last resolution. */
  datatype ReadState = ReadState(
    rootId: int,
    headerId: int,
    majorVersion: int,
    minorVersion: int,
    objects: map<int, Instance>,
    libraries: map<int, Library>,
    objectIdMap: map<int, int>,
    libraryIdMap: map<int, int>,
    references: seq<nat>)

  const FreshState: ReadState := ReadState(0, 0, 0, 0, map[], map[], map[], map[], [])

  /** A formatter: its data store, its read state, the object id each
      InstanceReference holds (`cells[c]` for reference c), and `strict`,
      which is `not permissive`. */
  datatype Reader = Reader(store: DataStore, state: ReadState, cells: seq<int>, strict: bool)

  /** `BinaryFormatter(data_store, permissive=...)` */
  function NewReader(store: DataStore, permissive: bool): (rd: Reader)
    ensures rd.strict <==> !permissive
    ensures Good(rd)
  {
    Reader(store, FreshState, [], !permissive)
  }

  /** The invariant every formatter keeps: the pending references name distinct
      existing cells, and every stream id is mapped to a store id below the
      store's counter. A new formatter has it and every read preserves it. */
  predicate Good(rd: Reader) {
    var refs := rd.state.references;
    (forall j | 0 <= j < |refs| :: refs[j] < |rd.cells|)
    && (forall j, k | 0 <= j < k < |refs| :: refs[j] != refs[k])
    && (forall sid | sid in rd.state.objectIdMap :: rd.state.objectIdMap[sid] < rd.store.nextObjectId)
  }

  /** The outcome of a read: the value, the cursor after it and the formatter
      after it. */
  datatype Step<T> = Step(value: T, next: nat, reader: Reader)

  /** `get_object_id` followed by `register_object`: the instance is stored
      under the next store id, and the stream id is mapped to that id in both
      state maps. The id is fresh: no stream id was mapped to it before. */
  function Register(rd: Reader, streamId: int, inst: Instance): (r: (int, Reader))
    ensures r.0 == rd.store.nextObjectId && r.1.store.nextObjectId == r.0 + 1
    ensures r.1.store.objects == rd.store.objects[r.0 := inst]
    ensures r.1.state.objectIdMap == rd.state.objectIdMap[streamId := r.0]
    ensures r.1.state.objects == rd.state.objects[streamId := inst]
    ensures r.1.cells == rd.cells && r.1.strict == rd.strict
    ensures r.1.state.references == rd.state.references
    ensures Good(rd) ==> Good(r.1)
    ensures Good(rd) ==> forall sid | sid in rd.state.objectIdMap :: rd.state.objectIdMap[sid] != r.0
  {
    var (id, ds) := GetObjectId(rd.store);
    var store := ds.(objects := ds.objects[id := inst]);
    var state := rd.state.(objects := rd.state.objects[streamId := inst],
                           objectIdMap := rd.state.objectIdMap[streamId := id]);
    (id, rd.(store := store, state := state))
  }

  /** `_get_obj_id`: a stream id seen before is a KeyError; otherwise a fresh
      store id is drawn and the stream id mapped to it. */
  function GetObjId(rd: Reader, streamId: int): (r: Result<(int, Reader)>)
    ensures r.Err? <==> streamId in rd.state.objectIdMap
    ensures r.Err? ==> r.error == DuplicateObjectId
    ensures r.Ok? ==> r.value.1.state.objectIdMap == rd.state.objectIdMap[streamId := r.value.0]
    ensures r.Ok? ==> r.value.1.store.nextObjectId == rd.store.nextObjectId + 1
    ensures r.Ok? && Good(rd) ==> Good(r.value.1)
    ensures r.Ok? && Good(rd) ==> forall sid | sid in rd.state.objectIdMap :: rd.state.objectIdMap[sid] != r.value.0
  {
    if streamId in rd.state.objectIdMap then Err(DuplicateObjectId)
    else
      var (id, ds) := GetObjectId(rd.store);
      Ok((id, rd.(store := ds, state := rd.state.(objectIdMap := rd.state.objectIdMap[streamId := id]))))
  }

  // ---------------------------------------------------------------------------
  // Strings, characters and decimals

  /** `read_string_raw`: a variable-length integer, then exactly that many
      bytes. The negative-length branch of the source cannot be taken, since
      the decoded length is never negative. */
  function ReadStringRaw(s: Bytes, pos: nat): (r: Result<(Bytes, nat)>)
    requires pos <= |s|
    ensures r.Ok? ==> pos + |r.value.0| < r.value.1 <= |s|
  {
    var n :- VarInt.ReadVarInt(s, pos);
    ReadExact(s, n.1, n.0)
  }

  /** The string read is the one the length prefix announces, taken from
      right after the prefix; the read fails when the prefix does not decode
      or announces more bytes than remain. */
  lemma {:induction false} StringRawMeaning(s: Bytes, pos: nat)
    requires pos <= |s|
    ensures ReadStringRaw(s, pos).Ok?
            <==> (VarInt.Decode(s[pos..]).Ok?
                  && pos + VarInt.Decode(s[pos..]).value.0 + VarInt.Decode(s[pos..]).value.1 <= |s|)
    ensures ReadStringRaw(s, pos).Ok? ==> var d := VarInt.Decode(s[pos..]).value;
              ReadStringRaw(s, pos).value == (s[pos + d.0..pos + d.0 + d.1], pos + d.0 + d.1)
  {
  }

  /** `read_string_raw` as written: `fp.read(length)` returns whatever is left
      when the stream is shorter than the announced length. */
  function ReadStringRawAsWritten(s: Bytes, pos: nat): (r: Result<(Bytes, nat)>)
    requires pos <= |s|
    ensures r.Ok? <==> VarInt.Decode(s[pos..]).Ok?
    ensures r.Ok? ==> pos < r.value.1 <= |s| && |r.value.0| < r.value.1 - pos
    ensures r.Ok? ==> r.value.0 == s[r.value.1 - |r.value.0|..r.value.1]
    ensures r.Ok? ==> |r.value.0| <= VarInt.Decode(s[pos..]).value.1
  {
    var n :- VarInt.ReadVarInt(s, pos);
    Ok(ReadAvailable(s, n.1, n.0))
  }

  /** Whenever the corrected reader succeeds, the source reads the same. */
  lemma {:induction false} StringRawAgrees(s: Bytes, pos: nat)
    requires pos <= |s| && ReadStringRaw(s, pos).Ok?
    ensures ReadStringRawAsWritten(s, pos) == ReadStringRaw(s, pos)
  {
  }

  /** A length-prefixed string reads back as written, and nothing after it is
      consumed. */
  lemma {:induction false} StringRawRoundTrip(text: Bytes, rest: Bytes)
    requires |text| <= VarInt.MaxValue
    ensures VarInt.EncodeCorrected(|text|).Ok?
    ensures var prefix := VarInt.EncodeCorrected(|text|).value;
            ReadStringRaw(prefix + text + rest, 0) == Ok((text, |prefix| + |text|))
  {
    var prefix := VarInt.EncodeCorrected(|text|).value;
    var s := prefix + text + rest;
    VarInt.DecodeEncodeCorrected(|text|, text + rest);
    assert s[0..] == prefix + (text + rest);
    assert s[|prefix|..|prefix| + |text|] == text;
  }

  /** The expectations of tests/test_io_binary.py for `read_string_raw`: a
      200-byte string announced by two bytes (0xC8 0x01) must not be accepted
      from a stream that holds only two of them. The source returns them. */
  lemma {:induction false} TruncatedStringExample()
    ensures VarInt.Decode([0xC8, 0x01, 0, 0]) == Ok((2, 200))
    ensures ReadStringRawAsWritten([0xC8, 0x01, 0, 0], 0) == Ok(([0, 0], 4))
    ensures ReadStringRaw([0xC8, 0x01, 0, 0], 0) == Err(EndOfStream)
  {
    var s: Bytes := [0xC8, 0x01, 0, 0];
    assert s[0..] == s;
    assert s[..2] == [0xC8, 0x01];
    VarInt.Base128Chain(0xC8, 0x01, 0, 0, 0);
    assert VarInt.ValidChain(s, 2);
  }

  /** A five-byte string announced by one byte reads back, leaving what follows. */
  lemma {:induction false} HelloStringExample()
    ensures ReadStringRaw([5, 104, 101, 108, 108, 111, 0, 0], 0) == Ok(([104, 101, 108, 108, 111], 6))
  {
    var s: Bytes := [5, 104, 101, 108, 108, 111, 0, 0];
    assert s[0..] == s;
    assert s[..1] == [5];
    VarInt.Base128Chain(5, 0, 0, 0, 0);
    assert VarInt.ValidChain(s, 1);
    assert s[1..6] == [104, 101, 108, 108, 111];
  }

  /** How many bytes `read_char` appends to a lead byte: three for 0xF0 and
      above, two for 0xE0 and above, one for any other byte above 127. */
  function Continuation(lead: byte): (n: nat)
    ensures n <= 3
    ensures n == 0 <==> lead <= 127
  {
    if lead > 127 then
      if lead >= 0xF0 then 3 else if lead >= 0xE0 then 2 else 1
    else 0
  }

  /** `read_char`: a lead byte and the bytes it announces; a stream that ends
      before them fails to decode. (UTF-8 validity itself is not modelled.) */
  function ReadChar(s: Bytes, pos: nat): (r: Result<(Bytes, nat)>)
    requires pos <= |s|
    ensures r.Ok? <==> pos < |s| && pos + 1 + Continuation(s[pos]) <= |s|
    ensures r.Ok? ==> r.value.1 == pos + |r.value.0| <= |s| && r.value.0 == s[pos..r.value.1]
    ensures r.Ok? ==> 1 <= |r.value.0| <= 4 && |r.value.0| == 1 + Continuation(r.value.0[0])
    ensures pos < |s| && r.Err? ==> r.error == UnicodeDecode
  {
    var lead :- ReadByte(s, pos);
    var n := Continuation(lead.0);
    var (more, next) := ReadAvailable(s, lead.1, n);
    if |more| < n then Err(UnicodeDecode)
    else
      assert [lead.0] + more == s[pos..next];
      Ok(([lead.0] + more, next))
  }

  /** The UTF-8 encoding of a code point (section 3 of RFC 3629). */
  function Utf8Encode(cp: nat): (r: Bytes)
    requires cp < 0x11_0000
    ensures 1 <= |r| <= 4
  {
    if cp < 0x80 then [cp as byte]
    else if cp < 0x800 then [(0xC0 + cp / 64) as byte, (0x80 + cp % 64) as byte]
    else if cp < 0x1_0000 then
      [(0xE0 + cp / 4096) as byte, (0x80 + cp / 64 % 64) as byte, (0x80 + cp % 64) as byte]
    else
      [(0xF0 + cp / 262144) as byte, (0x80 + cp / 4096 % 64) as byte,
       (0x80 + cp / 64 % 64) as byte, (0x80 + cp % 64) as byte]
  }

  /** The lead-byte rule of `read_char` takes exactly the encoding of one code
      point, whatever follows it. */
  lemma {:induction false} ReadCharUtf8(cp: nat, rest: Bytes)
    requires cp < 0x11_0000
    ensures ReadChar(Utf8Encode(cp) + rest, 0) == Ok((Utf8Encode(cp), |Utf8Encode(cp)|))
  {
    var e := Utf8Encode(cp);
    assert Continuation(e[0]) == |e| - 1;
    assert (e + rest)[0..|e|] == e;
  }

  /** The expectations of tests/test_io_binary.py for `read_char`: "!" is one
      byte, U+FF5F is three, and a lone 0xF0 fails. */
  lemma {:induction false} CharExamples()
    ensures ReadChar([33, 0xF6], 0) == Ok(([33], 1))
    ensures Utf8Encode(0xFF5F) == [0xEF, 0xBD, 0x9F]
    ensures ReadChar([0xEF, 0xBD, 0x9F, 0xF6], 0) == Ok(([0xEF, 0xBD, 0x9F], 3))
    ensures ReadChar([0xF0], 0) == Err(UnicodeDecode)
  {
    var bang: Bytes := [33, 0xF6];
    assert Continuation(33) == 0 && bang[0..1] == [33];
    ReadCharUtf8(0xFF5F, [0xF6]);
    assert Utf8Encode(0xFF5F) + [0xF6] == [0xEF, 0xBD, 0x9F, 0xF6];
  }

  /** `read_decimal`: a variable-length integer, that many bytes, and the
      Decimal constructor's check of the text. */
  function ReadDecimal(s: Bytes, pos: nat): (r: Result<(Bytes, nat)>)
    requires pos <= |s|
    ensures r.Ok? ==> DecimalText.WellFormed(r.value.0)
    ensures r.Ok? <==> ReadStringRaw(s, pos).Ok? && DecimalText.ConvertText(ReadStringRaw(s, pos).value.0).Ok?
    ensures r.Ok? ==> r.value == ReadStringRaw(s, pos).value
  {
    var n :- VarInt.ReadVarInt(s, pos);
    var bs :- ReadExact(s, n.1, n.0);
    var text :- DecimalText.ConvertText(bs.0);
    Ok((text, bs.1))
  }

  /** `read_decimal` as the source writes it: `fp.read(length)` returns what
      is left, so a text shorter than announced is converted as it stands. */
  function ReadDecimalAsWritten(s: Bytes, pos: nat): (r: Result<(Bytes, nat)>)
    requires pos <= |s|
    ensures r.Ok? ==> DecimalText.WellFormed(r.value.0)
    ensures r.Ok? <==> ReadStringRawAsWritten(s, pos).Ok?
                       && DecimalText.ConvertText(ReadStringRawAsWritten(s, pos).value.0).Ok?
    ensures r.Ok? ==> r.value == ReadStringRawAsWritten(s, pos).value
  {
    var n :- VarInt.ReadVarInt(s, pos);
    var (bs, next) := ReadAvailable(s, n.1, n.0);
    var text :- DecimalText.ConvertText(bs);
    Ok((text, next))
  }

  /** Whenever the corrected reader succeeds, the source reads the same decimal. */
  lemma {:induction false} DecimalAgrees(s: Bytes, pos: nat)
    requires pos <= |s| && ReadDecimal(s, pos).Ok?
    ensures ReadDecimalAsWritten(s, pos) == ReadDecimal(s, pos)
  {
    StringRawAgrees(s, pos);
  }

  /** A decimal announced as five characters of which the stream holds two:
      the source reads "12", the corrected reader runs out. */
  lemma {:induction false} TruncatedDecimalExample()
    ensures ReadDecimalAsWritten([5, 0x31, 0x32], 0) == Ok(([0x31, 0x32], 3))
    ensures ReadDecimal([5, 0x31, 0x32], 0) == Err(EndOfStream)
  {
    var s: Bytes := [5, 0x31, 0x32];
    assert s[0..] == s;
    assert s[..1] == [5];
    VarInt.Base128Chain(5, 0, 0, 0, 0);
    assert VarInt.ValidChain(s, 1);
    assert s[1..] == [0x31, 0x32];
    assert DecimalText.WellFormed([0x31, 0x32]);
  }

  // ---------------------------------------------------------------------------
  // Primitive values

  /** `read_primitive_type`: fixed-size classes read `byte_size` bytes and
      build the value from them; Char, String and Decimal have their own
      readers; a type without a class (Null) is a ValueError. */
  function ReadPrimitiveValue(s: Bytes, pos: nat, t: PrimitiveType): (r: Result<(Primitive, nat)>)
    requires pos <= |s|
    ensures r.Ok? ==> pos < r.value.1 <= |s|
    ensures GetClass(t).Err? ==> r == Err(NoPrimitiveClass)
    ensures GetClass(t).Ok? && !IsVariableSize(GetClass(t).value) && r.Ok? ==>
              r.value.1 == pos + ByteSize(GetClass(t).value)
  {
    var c :- GetClass(t);
    ByteSizeShape(c);
    if ByteSize(c) <= 0 then
      if t == Char then
        var ch :- ReadChar(s, pos);
        Ok((CharText(ch.0), ch.1))
      else if t == StringValue then
        var str :- ReadStringRaw(s, pos);
        Ok((StringText(str.0), str.1))
      else if t == Decimal then
        var d :- ReadDecimal(s, pos);
        Ok((DecimalTextValue(d.0), d.1))
      else Err(TypeError)
    else
      var (bs, next) := ReadAvailable(s, pos, ByteSize(c) as nat);
      var v :- FromFixedBytes(c, bs);
      Ok((v, next))
  }

  /** Char and String values are read by their own readers. */
  lemma {:induction false} ReadTextValue(s: Bytes, pos: nat, t: PrimitiveType)
    requires pos <= |s|
    ensures t == Char ==> ReadPrimitiveValue(s, pos, t) == (match ReadChar(s, pos)
                                                           case Ok(c) => Ok((CharText(c.0), c.1))
                                                           case Err(e) => Err(e))
    ensures t == StringValue ==> ReadPrimitiveValue(s, pos, t) == (match ReadStringRaw(s, pos)
                                                                  case Ok(c) => Ok((StringText(c.0), c.1))
                                                                  case Err(e) => Err(e))
  {
  }

  /** An integer written in its class's width reads back as the same integer,
      and exactly its bytes are consumed. */
  lemma {:induction false} ReadIntegerRoundTrip(t: PrimitiveType, v: int, rest: Bytes)
    requires GetClass(t).Ok? && IsInteger(GetClass(t).value)
    requires Low(GetClass(t).value) <= v <= High(GetClass(t).value)
    ensures var c := GetClass(t).value;
            ReadPrimitiveValue(EncodeInteger(c, v) + rest, 0, t) == Ok((IntegerValue(c, v), ByteSize(c)))
  {
    var c := GetClass(t).value;
    var e := EncodeInteger(c, v);
    ByteSizeShape(c);
    DecodeEncodeInteger(c, v);
    assert (e + rest)[0..|e|] == e;
    assert ReadAvailable(e + rest, 0, ByteSize(c) as nat) == (e, |e|);
    assert FromFixedBytes(c, e) == Ok(IntegerValue(c, v));
    ReadFixedValue(e + rest, 0, t, c);
  }

  /** A fixed-size class reads `byte_size` bytes, or what is left of them, and
      builds its value from them. */
  lemma {:induction false} ReadFixedValue(s: Bytes, pos: nat, t: PrimitiveType, c: PrimitiveClass)
    requires pos <= |s| && GetClass(t) == Ok(c) && !IsVariableSize(c)
    ensures ByteSize(c) > 0
    ensures ReadPrimitiveValue(s, pos, t)
            == match FromFixedBytes(c, ReadAvailable(s, pos, ByteSize(c) as nat).0)
               case Ok(v) => Ok((v, ReadAvailable(s, pos, ByteSize(c) as nat).1))
               case Err(e) => Err(e)
  {
    ByteSizeShape(c);
  }

  // ---------------------------------------------------------------------------
  // The stream header

  /** The four little-endian signed integers of a SerializedStreamHeader. */
  function EncodeHeader(rootId: int, headerId: int, major: int, minor: int): (r: Result<Bytes>)
    ensures r.Ok? <==> IsInt32(rootId) && IsInt32(headerId) && IsInt32(major) && IsInt32(minor)
    ensures r.Ok? ==> |r.value| == 16
  {
    var a :- EncodeInt32(rootId);
    var b :- EncodeInt32(headerId);
    var c :- EncodeInt32(major);
    var d :- EncodeInt32(minor);
    Ok(a + b + c + d)
  }

  /** `read_header`: with `readRecordType`, a record byte that must be 0 (an
      IOError otherwise); then root id, header id, major and minor version; a
      strict formatter accepts only version 1.0. The four values are stored in
      the read state and returned as a tuple. */
  function ReadHeader(s: Bytes, pos: nat, rd: Reader, readRecordType: bool): (r: Result<Step<Value>>)
    requires pos <= |s|
    ensures readRecordType && pos < |s| && s[pos] != 0 ==> r == Err(BadHeaderRecord)
    ensures r.Ok? ==> var p := if readRecordType then pos + 1 else pos;
                      && r.value.next == p + 16 <= |s|
                      && (readRecordType ==> s[pos] == 0)
                      && r.value.value == HeaderTuple(LeSigned(s[p..p + 4]), LeSigned(s[p + 4..p + 8]),
                                                      LeSigned(s[p + 8..p + 12]), LeSigned(s[p + 12..p + 16]))
    ensures r.Ok? && rd.strict ==> r.value.value.major == 1 && r.value.value.minor == 0
    ensures r.Ok? ==> r.value.reader == rd.(state := rd.state.(
                        rootId := r.value.value.rootId, headerId := r.value.value.headerId,
                        majorVersion := r.value.value.major, minorVersion := r.value.value.minor))
  {
    var p :- if readRecordType then ReadHeaderByte(s, pos) else Ok(pos);
    var root :- ReadInt32(s, p);
    var header :- ReadInt32(s, root.1);
    var major :- ReadInt32(s, header.1);
    var minor :- ReadInt32(s, major.1);
    if rd.strict && (major.0 != 1 || minor.0 != 0) then Err(BadVersion)
    else
      var state := rd.state.(rootId := root.0, headerId := header.0,
                             majorVersion := major.0, minorVersion := minor.0);
      Ok(Step(HeaderTuple(root.0, header.0, major.0, minor.0), minor.1, rd.(state := state)))
  }

  /** `read_header` as the source writes it: each field is whatever
      `fp.read(4)` returns, so a stream that ends inside the header yields
      short fields (an empty one reads as 0) where ReadHeader fails. The rest
      of the model reads headers with ReadHeader. */
  function ReadHeaderAsWritten(s: Bytes, pos: nat, rd: Reader, readRecordType: bool): (r: Result<Step<Value>>)
    requires pos <= |s|
    ensures readRecordType && pos < |s| && s[pos] != 0 ==> r == Err(BadHeaderRecord)
    ensures r == Err(EndOfStream) <==> readRecordType && pos == |s|
    ensures r.Err? ==> r == Err(BadHeaderRecord) || r == Err(EndOfStream) || (rd.strict && r == Err(BadVersion))
    ensures r.Ok? ==> r.value.value.HeaderTuple? && (rd.strict ==> r.value.value.major == 1 && r.value.value.minor == 0)
    ensures r.Ok? ==> r.value.next <= |s|
  {
    var p :- if readRecordType then ReadHeaderByte(s, pos) else Ok(pos);
    var root := ReadInt32AsWritten(s, p);
    var header := ReadInt32AsWritten(s, root.1);
    var major := ReadInt32AsWritten(s, header.1);
    var minor := ReadInt32AsWritten(s, major.1);
    if rd.strict && (major.0 != 1 || minor.0 != 0) then Err(BadVersion)
    else
      var state := rd.state.(rootId := root.0, headerId := header.0,
                             majorVersion := major.0, minorVersion := minor.0);
      Ok(Step(HeaderTuple(root.0, header.0, major.0, minor.0), minor.1, rd.(state := state)))
  }

  /** When the stream holds the whole header, the source's read and ReadHeader
      agree. */
  lemma {:induction false} HeaderAgreesWhenComplete(s: Bytes, pos: nat, rd: Reader, readRecordType: bool)
    requires (if readRecordType then pos + 1 else pos) + 16 <= |s|
    ensures ReadHeaderAsWritten(s, pos, rd, readRecordType) == ReadHeader(s, pos, rd, readRecordType)
  {
    var p := if readRecordType then pos + 1 else pos;
    ReadInt32AgreesWhenComplete(s, p);
    ReadInt32AgreesWhenComplete(s, p + 4);
    ReadInt32AgreesWhenComplete(s, p + 8);
    ReadInt32AgreesWhenComplete(s, p + 12);
  }

  /** The record byte in front of a header: it must be 0. */
  function ReadHeaderByte(s: Bytes, pos: nat): (r: Result<nat>)
    requires pos <= |s|
    ensures r.Ok? <==> pos < |s| && s[pos] == 0
    ensures r.Ok? ==> r.value == pos + 1
    ensures pos < |s| && s[pos] != 0 ==> r == Err(BadHeaderRecord)
  {
    var b :- ReadByte(s, pos);
    if b.0 != 0 then Err(BadHeaderRecord) else Ok(b.1)
  }

  /** A header written as record byte 0 and four int32s reads back, and the
      formatter records the four values. */
  lemma {:induction false} HeaderRoundTrip(rd: Reader, rootId: int, headerId: int, major: int, minor: int, rest: Bytes)
    requires IsInt32(rootId) && IsInt32(headerId) && IsInt32(major) && IsInt32(minor)
    requires rd.strict ==> major == 1 && minor == 0
    ensures EncodeHeader(rootId, headerId, major, minor).Ok?
    ensures var s := [0 as byte] + EncodeHeader(rootId, headerId, major, minor).value + rest;
            ReadHeader(s, 0, rd, true)
            == Ok(Step(HeaderTuple(rootId, headerId, major, minor), 17,
                       rd.(state := rd.state.(rootId := rootId, headerId := headerId,
                                              majorVersion := major, minorVersion := minor))))
  {
    var a := EncodeInt32(rootId).value;
    var b := EncodeInt32(headerId).value;
    var c := EncodeInt32(major).value;
    var d := EncodeInt32(minor).value;
    Int32RoundTrip(rootId);
    Int32RoundTrip(headerId);
    Int32RoundTrip(major);
    Int32RoundTrip(minor);
    var s := [0 as byte] + (a + b + c + d) + rest;
    assert forall i | 0 <= i < 4 :: s[1 + i] == a[i] && s[5 + i] == b[i] && s[9 + i] == c[i] && s[13 + i] == d[i];
    assert s[1..5] == a && s[5..9] == b && s[9..13] == c && s[13..17] == d;
  }

  /** The expectations of tests/test_io_binary.py for `read_header`: a first
      byte other than 0 is refused, and so is version 2.0 in strict mode. */
  lemma {:induction false} HeaderExamples(rd: Reader)
    requires rd.strict
    ensures ReadHeader([1, 0, 0, 0, 0], 0, rd, true) == Err(BadHeaderRecord)
    ensures ReadHeader([0, 1, 0, 0, 0, 0, 0, 0, 0, 2, 0, 0, 0, 0, 0, 0, 0], 0, rd, true) == Err(BadVersion)
  {
    var s: Bytes := [0, 1, 0, 0, 0, 0, 0, 0, 0, 2, 0, 0, 0, 0, 0, 0, 0];
    Int32Value(s, 9, 2);
    Int32Value(s, 13, 0);
  }

  /** A four-byte field holding a small non-negative number reads as that number. */
  lemma {:induction false} Int32Value(s: Bytes, p: nat, v: nat)
    requires p + 4 <= |s| && v < 256
    requires s[p] as int == v && s[p + 1] == 0 && s[p + 2] == 0 && s[p + 3] == 0
    ensures LeSigned(s[p..p + 4]) == v
  {
    var f := s[p..p + 4];
    var f3 := f[3..];
    assert f3[1..] == [] && f3[0] == 0;
    assert LeUnsigned(f3) == 0;
    assert f[2..][1..] == f3 && f[2..][0] == 0;
    assert LeUnsigned(f[2..]) == 0;
    assert f[1..][1..] == f[2..] && f[1..][0] == 0;
    assert LeUnsigned(f[1..]) == 0;
    assert LeUnsigned(f) == v;
    assert Pow256(4) == 0x1_0000_0000;
  }

  // ---------------------------------------------------------------------------
  // Class metadata

  /** `read_class_type_info`: a class name, then a library id. */
  function ReadClassTypeInfo(s: Bytes, pos: nat): (r: Result<(ClassTypeInfo, nat)>)
    requires pos <= |s|
    ensures r.Ok? ==> pos < r.value.1 <= |s|
    ensures r.Ok? ==> ReadStringRaw(s, pos).Ok? && r.value.0.className == ReadStringRaw(s, pos).value.0
  {
    var name :- ReadStringRaw(s, pos);
    var lib :- ReadInt32(s, name.1);
    Ok((ClassTypeInfo(name.0, lib.0), lib.1))
  }

  /** `read_extra_type_info`: a primitive type byte for Primitive and
      PrimitiveArray, a string for SystemClass, a ClassTypeInfo for Class, and
      nothing at all for the other binary types. Whatever it reads passes
      `ExtraTypeInfo.validate`. */
  function ReadExtraTypeInfo(s: Bytes, pos: nat, t: BinaryType): (r: Result<(ExtraInfo, nat)>)
    requires pos <= |s|
    ensures r.Ok? ==> Validate(t, r.value.0) && pos <= r.value.1 <= |s|
  {
    if t == Primitive || t == PrimitiveArray then
      var b :- ReadByte(s, pos);
      var p :- PrimitiveTypeOf(b.0 as int);
      Ok((PrimitiveInfo(p), b.1))
    else if t == SystemClass then
      var name :- ReadStringRaw(s, pos);
      Ok((SystemClassName(name.0), name.1))
    else if t == Class then
      var info :- ReadClassTypeInfo(s, pos);
      Ok((ClassInfoRef(info.0), info.1))
    else Ok((NoInfo, pos))
  }

  /** n one-byte binary types. */
  function ReadBinaryTypes(s: Bytes, pos: nat, n: nat): (r: Result<(seq<BinaryType>, nat)>)
    requires pos <= |s|
    ensures r.Ok? <==> pos + n <= |s| && forall i | pos <= i < pos + n :: s[i] <= 7
    ensures r.Ok? ==> |r.value.0| == n && r.value.1 == pos + n
    ensures r.Ok? ==> forall i | 0 <= i < n :: BinaryTag(r.value.0[i]) == s[pos + i] as int
    decreases n
  {
    if n == 0 then Ok(([], pos))
    else
      var b :- ReadByte(s, pos);
      var t :- BinaryTypeOf(b.0 as int);
      var rest :- ReadBinaryTypes(s, b.1, n - 1);
      Ok(([t] + rest.0, rest.1))
  }

  /** What the extra information of each shape is made of: nothing for a
      type without any, one known primitive-type byte, or a string. */
  lemma {:induction false} ExtraTypeInfoMeaning(s: Bytes, pos: nat, t: BinaryType)
    requires pos <= |s|
    ensures var r := ReadExtraTypeInfo(s, pos, t);
            && (ShapeOf(t) == NoShape ==> r == Ok((NoInfo, pos)))
            && (ShapeOf(t) == PrimitiveShape ==>
                  (r.Ok? <==> pos < |s| && PrimitiveTypeOf(s[pos] as int).Ok?)
                  && (r.Ok? ==> r.value == (PrimitiveInfo(PrimitiveTypeOf(s[pos] as int).value), pos + 1)))
            && (ShapeOf(t) == NameShape ==>
                  (r.Ok? <==> ReadStringRaw(s, pos).Ok?)
                  && (r.Ok? ==> r.value == (SystemClassName(ReadStringRaw(s, pos).value.0), ReadStringRaw(s, pos).value.1)))
  {
  }

  /** The extra information of each binary type, in order. */
  function ReadExtraInfos(s: Bytes, pos: nat, types: seq<BinaryType>): (r: Result<(seq<ExtraInfo>, nat)>)
    requires pos <= |s|
    ensures r.Ok? ==> |r.value.0| == |types| && pos <= r.value.1 <= |s|
    ensures r.Ok? ==> forall i | 0 <= i < |types| :: Validate(types[i], r.value.0[i])
    decreases |types|
  {
    if |types| == 0 then Ok(([], pos))
    else
      var first :- ReadExtraTypeInfo(s, pos, types[0]);
      var rest :- ReadExtraInfos(s, first.1, types[1..]);
      Ok(([first.0] + rest.0, rest.1))
  }

  /** `read_member_type_info`: all the binary types first, then the extra
      information of each in the same order. */
  function ReadMemberTypeInfo(s: Bytes, pos: nat, count: nat): (r: Result<(MemberTypeInfo, nat)>)
    requires pos <= |s|
    ensures r.Ok? ==> |r.value.0.binaryTypes| == count && |r.value.0.extraInfo| == count
    ensures r.Ok? ==> pos + count <= r.value.1 <= |s|
    ensures r.Ok? ==> forall i | 0 <= i < count :: BinaryTag(r.value.0.binaryTypes[i]) == s[pos + i] as int
    ensures r.Ok? ==> forall i | 0 <= i < count :: Validate(r.value.0.binaryTypes[i], r.value.0.extraInfo[i])
  {
    var types :- ReadBinaryTypes(s, pos, count);
    var infos :- ReadExtraInfos(s, types.1, types.0);
    Ok((MemberTypeInfo(types.0, infos.0), infos.1))
  }

  /** n length-prefixed strings. */
  function ReadStrings(s: Bytes, pos: nat, n: nat): (r: Result<(seq<Bytes>, nat)>)
    requires pos <= |s|
    ensures r.Ok? ==> |r.value.0| == n && pos <= r.value.1 <= |s|
    decreases n
  {
    if n == 0 then Ok(([], pos))
    else
      var first :- ReadStringRaw(s, pos);
      var rest :- ReadStrings(s, first.1, n - 1);
      Ok(([first.0] + rest.0, rest.1))
  }

  /** `read_class_info`: object id, class name, member count, and that many
      member names (none for a negative count). */
  function ReadClassInfo(s: Bytes, pos: nat): (r: Result<(ClassInfo, nat)>)
    requires pos <= |s|
    ensures r.Ok? ==> pos + 4 < r.value.1 <= |s|
    ensures r.Ok? ==> r.value.0.objectId == LeSigned(s[pos..pos + 4])
  {
    var id :- ReadInt32(s, pos);
    var name :- ReadStringRaw(s, id.1);
    var count :- ReadInt32(s, name.1);
    var members :- ReadStrings(s, count.1, if count.0 < 0 then 0 else count.0);
    Ok((ClassInfo(id.0, name.0, members.0), members.1))
  }

  /** The member list `build_class` makes from a full class record: member i
      has index i, the i-th name, binary type and extra information. An extra
      information list shorter than the names is an IndexError; extra
      information unfit for its binary type is refused by `Member`. */
  function BuildMembers(names: seq<Bytes>, types: seq<BinaryType>, extra: seq<ExtraInfo>, i: nat): (r: Result<seq<Member>>)
    requires |names| == |types| && i <= |names|
    ensures r.Ok? <==> (i == |names| || |names| <= |extra|)
                       && forall j | i <= j < |names| && j < |extra| :: Validate(types[j], extra[j])
    ensures r.Ok? ==> |r.value| == |names| - i
    ensures r.Ok? ==> forall k | 0 <= k < |r.value| ::
                        i + k < |extra| && r.value[k] == Member(i + k, names[i + k], types[i + k], extra[i + k])
    ensures r.Err? ==> r.error == IndexOutOfRange || r.error == InvalidExtraInfo
    decreases |names| - i
  {
    if i == |names| then Ok([])
    else if i >= |extra| then Err(IndexOutOfRange)
    else
      var m :- NewMember(i, names[i], types[i], extra[i]);
      var rest :- BuildMembers(names, types, extra, i + 1);
      Ok([m] + rest)
  }

  /** `build_class`: a record without member types (`memberInfo` None) takes
      its members from the store's metadata, and a class with no metadata
      there fails in `ClassObject` (TypeError); a record with member types
      needs one type per member name. The class is stored under its key
      (library id, name) unless a class is already there: an equal one is
      returned instead, a different one is an error (see `Unchanged`). */
  function BuildClass(ds: DataStore, info: ClassInfo, library: Library, memberInfo: Option<MemberTypeInfo>)
    : (r: Result<(ClassObject, DataStore)>)
    ensures r.Ok? ==> Key(r.value.0) == (library.id, info.name)
    ensures r.Ok? ==> r.value.1 == ds.(classes := ds.classes[Key(r.value.0) := r.value.0])
    ensures r.Ok? && Key(r.value.0) in ds.classes ==> r.value.0 == ds.classes[Key(r.value.0)]
    ensures memberInfo.Some? && |info.members| != |memberInfo.value.binaryTypes| ==> r == Err(MemberCountMismatch)
    ensures memberInfo.None? && (library.id, info.name) !in ds.metadata ==> r == Err(TypeError)
    ensures r.Ok? && (library.id, info.name) !in ds.classes ==>
              && r.value.0.partial == memberInfo.None?
              && r.value.0.library == library
              && (memberInfo.Some? ==>
                    && |r.value.0.members| == |info.members|
                    && forall j | 0 <= j < |info.members| ::
                         r.value.0.members[j].index == j && r.value.0.members[j].name == info.members[j])
    ensures r == Err(ConflictingClass) <==>
              && ClassMembers(ds, info, library, memberInfo).Ok?
              && (library.id, info.name) in ds.classes
              && !Unchanged(ds.classes[(library.id, info.name)],
                            ClassObject(info.name, ClassMembers(ds, info, library, memberInfo).value, memberInfo.None?, library))
  {
    var members :- ClassMembers(ds, info, library, memberInfo);
    var c := ClassObject(info.name, members, memberInfo.None?, library);
    if Key(c) !in ds.classes then Ok((c, ds.(classes := ds.classes[Key(c) := c])))
    else if !Unchanged(ds.classes[Key(c)], c) then Err(ConflictingClass)
    else Ok((ds.classes[Key(c)], ds))
  }

  /** `old_class_obj != class_obj` in `build_class`, negated. A partial class
      takes the metadata's member list itself, so a stored partial class and
      a partial class rebuilt from the same metadata share their Member
      objects and compare equal member by member, whatever their extra
      information; any other pair was built separately and compares as
      `SameClass` says. */
  predicate Unchanged(stored: ClassObject, c: ClassObject)
  {
    if stored.partial && c.partial && stored.members == c.members then Key(stored) == Key(c)
    else SameClass(stored, c)
  }

  /** Building a partial class a second time finds the class the first build
      returned and changes nothing, whatever the types of its members. */
  lemma {:induction false} BuildPartialClassTwice(ds: DataStore, info: ClassInfo, library: Library)
    requires BuildClass(ds, info, library, None).Ok?
    ensures var first := BuildClass(ds, info, library, None).value;
            BuildClass(first.1, info, library, None) == Ok(first)
  {
    var first := BuildClass(ds, info, library, None).value;
    var members := ClassMembers(ds, info, library, None).value;
    var c := ClassObject(info.name, members, true, library);
    assert ClassMembers(first.1, info, library, None) == Ok(members);
    if Key(c) !in ds.classes {
      assert first.0 == c;
      assert Unchanged(c, c);
    }
  }

  /** The member list of the class `build_class` builds. */
  function ClassMembers(ds: DataStore, info: ClassInfo, library: Library, memberInfo: Option<MemberTypeInfo>)
    : (r: Result<seq<Member>>)
    ensures memberInfo.None? ==> (r.Ok? <==> (library.id, info.name) in ds.metadata)
    ensures memberInfo.None? && r.Ok? ==> r.value == ds.metadata[(library.id, info.name)]
    ensures memberInfo.Some? && r.Ok? ==>
              && |r.value| == |info.members|
              && forall j | 0 <= j < |info.members| :: r.value[j].index == j && r.value[j].name == info.members[j]
    ensures r.Err? ==> r.error != ConflictingClass
  {
    match memberInfo
    case None =>
      if (library.id, info.name) in ds.metadata then Ok(ds.metadata[(library.id, info.name)]) else Err(TypeError)
    case Some(m) =>
      if |info.members| != |m.binaryTypes| then Err(MemberCountMismatch)
      else BuildMembers(info.members, m.binaryTypes, m.extraInfo, 0)
  }

  /** Building a class a second time from the same record finds the class the
      first build stored and changes nothing, provided no member is
      Class-typed. */
  lemma {:induction false} BuildClassTwice(ds: DataStore, info: ClassInfo, library: Library, memberInfo: MemberTypeInfo)
    requires BuildClass(ds, info, library, Some(memberInfo)).Ok?
    requires forall i | 0 <= i < |memberInfo.binaryTypes| :: memberInfo.binaryTypes[i] != Class
    ensures var first := BuildClass(ds, info, library, Some(memberInfo)).value;
            BuildClass(first.1, info, library, Some(memberInfo)) == Ok(first)
  {
    var first := BuildClass(ds, info, library, Some(memberInfo)).value;
    var members := ClassMembers(ds, info, library, Some(memberInfo)).value;
    var c := ClassObject(info.name, members, false, library);
    assert ClassMembers(first.1, info, library, Some(memberInfo)) == Ok(members);
    assert forall i | 0 <= i < |members| :: !members[i].extraInfo.ClassInfoRef? && members[i].extraInfo != OtherValue by {
      forall i | 0 <= i < |members|
        ensures !members[i].extraInfo.ClassInfoRef? && members[i].extraInfo != OtherValue
      {
        assert members[i] == Member(i, info.members[i], memberInfo.binaryTypes[i], memberInfo.extraInfo[i]);
        assert Validate(memberInfo.binaryTypes[i], memberInfo.extraInfo[i]);
      }
    }
    SameClassReflexive(c);
  }

  /** A class with a Class-typed member can be built only once: its
      ClassTypeInfo compares by identity, so a second record for it, even
      byte-identical, is a conflicting definition. */
  lemma {:induction false} ClassMemberConflicts(ds: DataStore, info: ClassInfo, library: Library, memberInfo: MemberTypeInfo, i: nat)
    requires BuildClass(ds, info, library, Some(memberInfo)).Ok?
    requires i < |memberInfo.binaryTypes| && memberInfo.binaryTypes[i] == Class
    ensures var first := BuildClass(ds, info, library, Some(memberInfo)).value;
            BuildClass(first.1, info, library, Some(memberInfo)) == Err(ConflictingClass)
  {
    var members := ClassMembers(ds, info, library, Some(memberInfo)).value;
    assert members[i] == Member(i, info.members[i], memberInfo.binaryTypes[i], memberInfo.extraInfo[i]);
    var c := ClassObject(info.name, members, false, library);
    var first := BuildClass(ds, info, library, Some(memberInfo)).value;
    assert first.0.members[i].extraInfo.ClassInfoRef?;
    ClassMemberDefeatsEquality(first.0, c, i);
  }

  /** The class records, tags 1 to 5. */
  predicate IsClassRecord(t: RecordType) {
    ClassDefinitionOf(t) != NotClass
  }

  /** The metadata part of a class record: everything before its member
      values. ClassWithId (`read_class_with_id`) reads the new object id and
      the stream id of an earlier class instance whose class it shares; the
      other four read a ClassInfo, the member types for the two full records,
      a library id for the two non-system records (looked up among the
      libraries read so far; the system records take library -1 of the store),
      and build the class. The result is the new stream id and the class. */
  function ReadClassHeader(s: Bytes, pos: nat, rd: Reader, t: RecordType): (r: Result<Step<(int, ClassObject)>>)
    requires pos <= |s| && IsClassRecord(t)
    ensures r.Ok? ==> pos + 4 < r.value.next <= |s|
    ensures r.Ok? ==> r.value.reader == rd.(store := r.value.reader.store)
    ensures r.Ok? ==> r.value.reader.store.nextObjectId == rd.store.nextObjectId
    ensures r.Ok? ==> r.value.value.0 == LeSigned(s[pos..pos + 4])
    ensures t == ClassWithId ==> r == ReadSharedClass(s, pos, rd)
  {
    if t == ClassWithId then ReadSharedClass(s, pos, rd)
    else ReadClassDefinition(s, pos, rd, t)
  }

  /** `read_class_with_id` up to its member values: the new object id, then the
      stream id of an earlier class instance whose class the new one shares. */
  function ReadSharedClass(s: Bytes, pos: nat, rd: Reader): (r: Result<Step<(int, ClassObject)>>)
    requires pos <= |s|
    ensures r.Ok? ==> pos + 8 == r.value.next <= |s| && r.value.reader == rd
    ensures pos + 8 > |s| ==> r == Err(EndOfStream)
    ensures pos + 8 <= |s| ==>
              var id := LeSigned(s[pos..pos + 4]);
              var metadataId := LeSigned(s[pos + 4..pos + 8]);
              && (metadataId !in rd.state.objects ==> r == Err(MissingKey))
              && (metadataId in rd.state.objects && !rd.state.objects[metadataId].ClassInstance? ==> r == Err(NonClassMetadata))
              && (metadataId in rd.state.objects && rd.state.objects[metadataId].ClassInstance? ==>
                    r == Ok(Step((id, rd.state.objects[metadataId].classObject), pos + 8, rd)))
  {
    var id :- ReadInt32(s, pos);
    var metadataId :- ReadInt32(s, id.1);
    if metadataId.0 !in rd.state.objects then Err(MissingKey)
    else
      match rd.state.objects[metadataId.0]
      case ClassInstance(c, _) => Ok(Step((id.0, c), metadataId.1, rd))
      case _ => Err(NonClassMetadata)
  }

  /** The metadata of the four class records that define their class. */
  function ReadClassDefinition(s: Bytes, pos: nat, rd: Reader, t: RecordType): (r: Result<Step<(int, ClassObject)>>)
    requires pos <= |s| && IsClassRecord(t) && t != ClassWithId
    ensures r.Ok? ==> pos + 4 < r.value.next <= |s|
    ensures r.Ok? ==> r.value.reader == rd.(store := r.value.reader.store)
    ensures r.Ok? ==> r.value.reader.store == rd.store.(classes := r.value.reader.store.classes)
    ensures r.Ok? ==> r.value.value.0 == LeSigned(s[pos..pos + 4])
  {
    var parts :- ReadClassParts(s, pos, rd, t);
    var built :- BuildClass(rd.store, parts.info, parts.library, parts.memberInfo);
    Ok(Step((parts.info.objectId, built.0), parts.next, rd.(store := built.1)))
  }

  /** What a class record says about its class. */
  datatype ClassParts = ClassParts(info: ClassInfo, memberInfo: Option<MemberTypeInfo>, library: Library, next: nat)

  /** A ClassInfo; for the two full records the MemberTypeInfo; for the two
      non-system records a library id, looked up among the libraries read so
      far, while the system records take library -1 of the store. */
  function ReadClassParts(s: Bytes, pos: nat, rd: Reader, t: RecordType): (r: Result<ClassParts>)
    requires pos <= |s| && IsClassRecord(t) && t != ClassWithId
    ensures r.Ok? ==> pos + 4 < r.value.next <= |s|
    ensures r.Ok? ==> r.value.info.objectId == LeSigned(s[pos..pos + 4])
    ensures r.Ok? ==> (r.value.memberInfo.Some? <==> ClassDefinitionOf(t) == Full)
    ensures r.Ok? && (t == SystemClassWithMembers || t == SystemClassWithMembersAndTypes) ==>
              -1 in rd.store.libraries && r.value.library == rd.store.libraries[-1]
    ensures r.Ok? && (t == ClassWithMembers || t == ClassWithMembersAndTypes) ==>
              r.value.library in rd.state.libraries.Values
  {
    var info :- ReadClassInfo(s, pos);
    var types :- if ClassDefinitionOf(t) == Full then ReadMemberInfoOf(s, info.1, info.0) else Ok((None, info.1));
    var library :- if t == SystemClassWithMembers || t == SystemClassWithMembersAndTypes
                   then SystemLibraryOf(rd.store, types.1)
                   else ReadLibraryRef(s, types.1, rd.state);
    Ok(ClassParts(info.0, types.0, library.0, library.1))
  }

  /** The MemberTypeInfo of a full class record, one entry per member name. */
  function ReadMemberInfoOf(s: Bytes, pos: nat, info: ClassInfo): (r: Result<(Option<MemberTypeInfo>, nat)>)
    requires pos <= |s|
    ensures r.Ok? ==> r.value.0.Some? && |r.value.0.value.binaryTypes| == |info.members|
    ensures r.Ok? ==> pos <= r.value.1 <= |s|
  {
    var m :- ReadMemberTypeInfo(s, pos, |info.members|);
    Ok((Some(m.0), m.1))
  }

  /** `self._data_store.libraries[-1]`: KeyError when the store lacks it. */
  function SystemLibraryOf(ds: DataStore, pos: nat): (r: Result<(Library, nat)>)
    ensures r.Ok? <==> -1 in ds.libraries
    ensures r.Ok? ==> r.value == (ds.libraries[-1], pos)
  {
    if -1 in ds.libraries then Ok((ds.libraries[-1], pos)) else Err(MissingKey)
  }

  /** A library id, looked up among the libraries of the stream: KeyError for
      an id no BinaryLibrary record defined. */
  function ReadLibraryRef(s: Bytes, pos: nat, state: ReadState): (r: Result<(Library, nat)>)
    requires pos <= |s|
    ensures pos + 4 <= |s| ==>
              (r.Ok? <==> LeSigned(s[pos..pos + 4]) in state.libraries)
              && (r.Ok? ==> r.value == (state.libraries[LeSigned(s[pos..pos + 4])], pos + 4))
    ensures pos + 4 > |s| ==> r == Err(EndOfStream)
    ensures r.Ok? ==> r.value.0 in state.libraries.Values
  {
    var id :- ReadInt32(s, pos);
    if id.0 in state.libraries then Ok((state.libraries[id.0], id.1)) else Err(MissingKey)
  }

  // ---------------------------------------------------------------------------
  // Arrays

  /** The i-th of a run of four-byte signed integers starting at pos. */
  function Int32Field(s: Bytes, pos: nat, i: nat): int
    requires pos + 4 * i + 4 <= |s|
  {
    LeSigned(s[pos + 4 * i..pos + 4 * i + 4])
  }

  /** n four-byte signed integers. */
  function ReadInt32s(s: Bytes, pos: nat, n: nat): (r: Result<(seq<int>, nat)>)
    requires pos <= |s|
    ensures r.Ok? <==> pos + 4 * n <= |s|
    ensures r.Ok? ==> |r.value.0| == n && r.value.1 == pos + 4 * n
    ensures r.Ok? ==> forall i | 0 <= i < n :: r.value.0[i] == Int32Field(s, pos, i)
    decreases n
  {
    if n == 0 then Ok(([], pos))
    else
      var first :- ReadInt32(s, pos);
      var rest :- ReadInt32s(s, first.1, n - 1);
      FieldShift(s, pos, n);
      Ok(([first.0] + rest.0, rest.1))
  }

  /** The fields after the first are the fields of the run that starts four
      bytes later. */
  lemma {:induction false} FieldShift(s: Bytes, pos: nat, n: nat)
    requires 0 < n && pos + 4 * n <= |s|
    ensures Int32Field(s, pos, 0) == LeSigned(s[pos..pos + 4])
    ensures forall i | 1 <= i < n :: Int32Field(s, pos, i) == Int32Field(s, pos + 4, i - 1)
  {
  }

  /** The lengths of a BinaryArray: each is checked as soon as it is read, and
      a negative one is a ValueError even when the stream ends before the
      remaining ones. */
  function ReadLengths(s: Bytes, pos: nat, n: nat): (r: Result<(seq<int>, nat)>)
    requires pos <= |s|
    ensures r.Ok? <==> pos + 4 * n <= |s| && forall i | 0 <= i < n :: Int32Field(s, pos, i) >= 0
    ensures r.Ok? ==> r == ReadInt32s(s, pos, n)
    ensures r.Err? ==> r.error == EndOfStream || r.error == InvalidLength
  {
    LengthsMeaning(s, pos, n);
    if CheckedLengths(s, pos, n).Ok? then LengthsAreFields(s, pos, n); CheckedLengths(s, pos, n)
    else CheckedLengths(s, pos, n)
  }

  /** The read-and-check loop itself. */
  function CheckedLengths(s: Bytes, pos: nat, n: nat): Result<(seq<int>, nat)>
    requires pos <= |s|
    decreases n
  {
    if n == 0 then Ok(([], pos))
    else if pos + 4 > |s| then Err(EndOfStream)
    else if LeSigned(s[pos..pos + 4]) < 0 then Err(InvalidLength)
    else
      var rest :- CheckedLengths(s, pos + 4, n - 1);
      Ok(([LeSigned(s[pos..pos + 4])] + rest.0, rest.1))
  }

  lemma {:induction false} LengthsMeaning(s: Bytes, pos: nat, n: nat)
    requires pos <= |s|
    ensures CheckedLengths(s, pos, n).Ok? <==> pos + 4 * n <= |s| && forall i | 0 <= i < n :: Int32Field(s, pos, i) >= 0
    ensures CheckedLengths(s, pos, n).Err? ==> CheckedLengths(s, pos, n).error == EndOfStream || CheckedLengths(s, pos, n).error == InvalidLength
  {
    if CheckedLengths(s, pos, n).Ok? {
      LengthsOkBound(s, pos, n);
    } else {
      LengthsErrBound(s, pos, n);
    }
  }

  lemma {:induction false} LengthsOkBound(s: Bytes, pos: nat, n: nat)
    requires pos <= |s| && CheckedLengths(s, pos, n).Ok?
    ensures pos + 4 * n <= |s| && forall i | 0 <= i < n :: Int32Field(s, pos, i) >= 0
    decreases n
  {
    if n > 0 {
      LengthsOkBound(s, pos + 4, n - 1);
      FieldShift(s, pos, n);
    }
  }

  lemma {:induction false} LengthsErrBound(s: Bytes, pos: nat, n: nat)
    requires pos <= |s| && CheckedLengths(s, pos, n).Err?
    ensures CheckedLengths(s, pos, n).error == EndOfStream || CheckedLengths(s, pos, n).error == InvalidLength
    ensures pos + 4 * n <= |s| ==> exists i | 0 <= i < n :: Int32Field(s, pos, i) < 0
    decreases n
  {
    if pos + 4 <= |s| && LeSigned(s[pos..pos + 4]) >= 0 {
      LengthsErrBound(s, pos + 4, n - 1);
      if pos + 4 * n <= |s| {
        FieldShift(s, pos, n);
        var i :| 0 <= i < n - 1 && Int32Field(s, pos + 4, i) < 0;
        assert Int32Field(s, pos, i + 1) < 0;
      }
    } else if pos + 4 * n <= |s| {
      FieldShift(s, pos, n);
      assert Int32Field(s, pos, 0) < 0;
    }
  }

  lemma {:induction false} LengthsAreFields(s: Bytes, pos: nat, n: nat)
    requires pos <= |s| && CheckedLengths(s, pos, n).Ok?
    ensures CheckedLengths(s, pos, n) == ReadInt32s(s, pos, n)
    decreases n
  {
    if n > 0 {
      LengthsAreFields(s, pos + 4, n - 1);
    }
  }

  /** Sum of the lengths, a negative one counting as none (`range(length)` is
      then empty). */
  function Total(lengths: seq<int>): nat
  {
    if |lengths| == 0 then 0
    else (if lengths[0] < 0 then 0 else lengths[0]) + Total(lengths[1..])
  }

  /** One element read at a given position of s; out of range is end of
      stream. */
  function PrimitiveStep(s: Bytes, t: PrimitiveType): nat -> Result<(Primitive, nat)>
  {
    (p: nat) => if p <= |s| then ReadPrimitiveValue(s, p, t) else Err(EndOfStream)
  }

  /** Every successful step moves forward and stays within the bound. */
  ghost predicate Advances(step: nat -> Result<(Primitive, nat)>, bound: nat)
  {
    forall p: nat :: step(p).Ok? ==> p < step(p).value.1 <= bound
  }

  lemma {:induction false} StepAdvances(s: Bytes, t: PrimitiveType)
    ensures Advances(PrimitiveStep(s, t), |s|)
  {
    forall p: nat | PrimitiveStep(s, t)(p).Ok?
      ensures p < PrimitiveStep(s, t)(p).value.1 <= |s|
    {
      assert p <= |s|;
    }
  }

  /** n elements read one after the other. */
  function ReadMany(step: nat -> Result<(Primitive, nat)>, pos: nat, n: nat): (r: Result<(seq<Value>, nat)>)
    ensures r.Ok? ==> |r.value.0| == n && forall i | 0 <= i < n :: r.value.0[i].Prim?
    decreases n
  {
    if n == 0 then Ok(([], pos))
    else
      var first :- step(pos);
      var rest :- ReadMany(step, first.1, n - 1);
      Ok(([Prim(first.0)] + rest.0, rest.1))
  }

  lemma {:induction false} ManyAdvances(step: nat -> Result<(Primitive, nat)>, bound: nat, pos: nat, n: nat)
    requires Advances(step, bound) && pos <= bound
    ensures ReadMany(step, pos, n).Ok? ==> pos + n <= ReadMany(step, pos, n).value.1 <= bound
    decreases n
  {
    if n > 0 && step(pos).Ok? {
      ManyAdvances(step, bound, step(pos).value.1, n - 1);
    }
  }

  /** n values of one primitive type, as `read_primitive_type` reads them. */
  function ReadPrimitives(s: Bytes, pos: nat, t: PrimitiveType, n: nat): (r: Result<(seq<Value>, nat)>)
    requires pos <= |s|
    ensures r.Ok? ==> |r.value.0| == n && pos + n <= r.value.1 <= |s|
    ensures r.Ok? ==> forall i | 0 <= i < n :: r.value.0[i].Prim?
  {
    StepAdvances(s, t);
    ManyAdvances(PrimitiveStep(s, t), |s|, pos, n);
    ReadMany(PrimitiveStep(s, t), pos, n)
  }

  /** Puts one value in front of the values of a successful read. */
  function Prepend(v: Value, rest: Result<(seq<Value>, nat)>): Result<(seq<Value>, nat)>
  {
    match rest
    case Err(e) => Err(e)
    case Ok(x) => Ok(([v] + x.0, x.1))
  }

  /** Continues a finished read with b more elements. */
  function ThenMany(step: nat -> Result<(Primitive, nat)>, first: Result<(seq<Value>, nat)>, b: nat): Result<(seq<Value>, nat)>
  {
    match first
    case Err(e) => Err(e)
    case Ok(x) =>
      match ReadMany(step, x.1, b)
      case Err(e) => Err(e)
      case Ok(y) => Ok((x.0 + y.0, y.1))
  }

  lemma {:induction false} ThenPrepend(step: nat -> Result<(Primitive, nat)>, v: Value, r: Result<(seq<Value>, nat)>, b: nat)
    ensures ThenMany(step, Prepend(v, r), b) == Prepend(v, ThenMany(step, r, b))
  {
    if r.Ok? {
      var more := ReadMany(step, r.value.1, b);
      if more.Ok? {
        assert [v] + (r.value.0 + more.value.0) == ([v] + r.value.0) + more.value.0;
      }
    }
  }

  /** Reading a + b elements is reading a elements and then b more. */
  lemma {:induction false} ReadManySplit(step: nat -> Result<(Primitive, nat)>, pos: nat, a: nat, b: nat)
    ensures ReadMany(step, pos, a + b) == ThenMany(step, ReadMany(step, pos, a), b)
    decreases a
  {
    if a == 0 {
      var more := ReadMany(step, pos, b);
      if more.Ok? {
        assert [] + more.value.0 == more.value.0;
      }
    } else if step(pos).Ok? {
      var head := step(pos).value;
      assert a + b - 1 == (a - 1) + b;
      ReadManySplit(step, head.1, a - 1, b);
      ThenPrepend(step, Prim(head.0), ReadMany(step, head.1, a - 1), b);
    }
  }

  /** The element loop of `read_binary_array`: for each length in turn, that
      many elements. */
  function ManyRuns(step: nat -> Result<(Primitive, nat)>, pos: nat, lengths: seq<int>): (r: Result<(seq<Value>, nat)>)
    ensures r.Ok? ==> |r.value.0| == Total(lengths)
    decreases |lengths|
  {
    if |lengths| == 0 then Ok(([], pos))
    else
      var run :- ReadMany(step, pos, if lengths[0] < 0 then 0 else lengths[0]);
      var rest :- ManyRuns(step, run.1, lengths[1..]);
      Ok((run.0 + rest.0, rest.1))
  }

  /** The runs are one read of Σ lengths elements: the dimensions do not
      multiply. */
  lemma {:induction false} RunsAreOneRead(step: nat -> Result<(Primitive, nat)>, pos: nat, lengths: seq<int>)
    ensures ManyRuns(step, pos, lengths) == ReadMany(step, pos, Total(lengths))
    decreases |lengths|
  {
    if |lengths| > 0 {
      var n := if lengths[0] < 0 then 0 else lengths[0];
      ReadManySplit(step, pos, n, Total(lengths[1..]));
      var run := ReadMany(step, pos, n);
      if run.Ok? {
        RunsAreOneRead(step, run.value.1, lengths[1..]);
      }
    }
  }

  /** The values of a BinaryArray of primitives: one run per length. */
  function ReadRuns(s: Bytes, pos: nat, t: PrimitiveType, lengths: seq<int>): (r: Result<(seq<Value>, nat)>)
    requires pos <= |s|
    ensures r.Ok? ==> |r.value.0| == Total(lengths) && pos + Total(lengths) <= r.value.1 <= |s|
    ensures r == ReadPrimitives(s, pos, t, Total(lengths))
  {
    var step := PrimitiveStep(s, t);
    RunsAreOneRead(step, pos, lengths);
    assert ReadPrimitives(s, pos, t, Total(lengths)) == ReadMany(step, pos, Total(lengths));
    ManyRuns(step, pos, lengths)
  }
}
