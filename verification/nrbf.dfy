/** The structures of nrbf/structures.py, the one place in the repository
    that writes as well as reads: ClassTypeInfo (section 2.1.1.8 of
    [MS-NRBF]), ClassInfo (section 2.3.1.1) and MemberTypeInfo (section
    2.3.1.2). Their `read` methods take the same steps as the formatter's
    `read_class_type_info`, `read_class_info` and `read_member_type_info`, so
    the readers of module Reader serve for both; this module adds the writers
    and proves that each structure reads back as written.

    The `String` and `Int32` codecs the methods call are not part of this
    model; they are taken to be the formatter's: a length-prefixed byte string
    with a variable-length prefix, and four little-endian bytes in two's
    complement. */
module NrbfStructures {
  import opened Wrappers
  import opened Bytes
  import opened Enums
  import opened Structures
  import opened Reader
  import VarInt

  /** `r` is a successful read of `v` that stops at `next`. */
  predicate Yields<T(==)>(r: Result<(T, nat)>, v: T, next: nat)
  {
    r.Ok? && r.value.0 == v && r.value.1 == next
  }

  // ---------------------------------------------------------------------------
  // The primitive codecs

  /** `String.write`: the length as a variable-length integer, then the bytes. */
  function WriteString(text: Bytes): (r: Result<Bytes>)
    ensures r.Ok? <==> |text| <= VarInt.MaxValue
    ensures r.Ok? ==> |text| < |r.value| <= |text| + 5
    ensures r.Err? ==> r.error == VarIntOutOfRange
  {
    var prefix :- VarInt.EncodeCorrected(|text|);
    Ok(prefix + text)
  }

  /** A written string reads back wherever it stands, and nothing after it is
      consumed. */
  lemma {:induction false} StringAt(pre: Bytes, text: Bytes, rest: Bytes)
    requires |text| <= VarInt.MaxValue
    ensures WriteString(text).Ok?
    ensures Yields(ReadStringRaw(pre + WriteString(text).value + rest, |pre|),
                   text, |pre| + |WriteString(text).value|)
  {
    var prefix := VarInt.EncodeCorrected(|text|).value;
    var w := WriteString(text).value;
    assert w == prefix + text;
    var s := pre + w + rest;
    var tail := text + rest;
    VarInt.DecodeEncodeCorrected(|text|, tail);
    assert s == pre + (prefix + tail);
    SuffixOf(pre, prefix + tail);
    assert s[|pre|..] == prefix + tail;
    var a := |pre| + |prefix|;
    assert s[a..a + |text|] == text by {
      assert s == (pre + prefix) + (text + rest);
      SliceOf(pre + prefix, text, rest);
    }
  }

  lemma {:induction false} SuffixOf(a: Bytes, b: Bytes)
    ensures (a + b)[|a|..] == b
  {
  }

  lemma {:induction false} SliceOf(a: Bytes, b: Bytes, c: Bytes)
    ensures (a + (b + c))[|a|..|a| + |b|] == b
  {
  }

  /** `Int32.write` read back by `Int32.read`, wherever it stands. */
  lemma {:induction false} Int32At(pre: Bytes, v: int, rest: Bytes)
    requires IsInt32(v)
    ensures EncodeInt32(v).Ok?
    ensures Yields(ReadInt32(pre + EncodeInt32(v).value + rest, |pre|), v, |pre| + 4)
  {
    var w := EncodeInt32(v).value;
    var s := pre + w + rest;
    assert s[|pre|..|pre| + 4] == w;
    var got := ReadInt32(s, |pre|).value.0;
    Int32RoundTrip(v);
    Int32RoundTrip(got);
  }

  // ---------------------------------------------------------------------------
  // ClassTypeInfo

  /** `ClassTypeInfo.write`: the class name, then the library id. */
  function WriteClassTypeInfo(c: ClassTypeInfo): (r: Result<Bytes>)
    ensures r.Ok? <==> |c.className| <= VarInt.MaxValue && IsInt32(c.libraryId)
    ensures r.Ok? ==> |r.value| == |WriteString(c.className).value| + 4
  {
    var name :- WriteString(c.className);
    var id :- EncodeInt32(c.libraryId);
    Ok(name + id)
  }

  /** `ClassTypeInfo.read` inverts `ClassTypeInfo.write`. */
  lemma {:induction false} ClassTypeInfoRoundTrip(pre: Bytes, c: ClassTypeInfo, rest: Bytes)
    requires WriteClassTypeInfo(c).Ok?
    ensures Yields(ReadClassTypeInfo(pre + WriteClassTypeInfo(c).value + rest, |pre|),
                   c, |pre| + |WriteClassTypeInfo(c).value|)
  {
    var name := WriteString(c.className).value;
    var id := EncodeInt32(c.libraryId).value;
    var s := pre + WriteClassTypeInfo(c).value + rest;
    Regroup(pre, name, id, rest);
    StringAt(pre, c.className, id + rest);
    Int32At(pre + name, c.libraryId, rest);
  }

  // ---------------------------------------------------------------------------
  // ClassInfo

  /** The member names one after another. */
  function WriteStrings(names: seq<Bytes>): (r: Result<Bytes>)
    ensures r.Ok? <==> forall i | 0 <= i < |names| :: |names[i]| <= VarInt.MaxValue
    ensures r.Ok? ==> |r.value| >= |names|
  {
    if |names| == 0 then Ok([])
    else
      var first :- WriteString(names[0]);
      var rest :- WriteStrings(names[1..]);
      assert forall i | 1 <= i < |names| :: names[i] == names[1..][i - 1];
      Ok(first + rest)
  }

  /** A written list of names is its first name, then the rest. */
  lemma {:induction false} WriteStringsCons(names: seq<Bytes>)
    requires |names| > 0 && WriteStrings(names).Ok?
    ensures WriteString(names[0]).Ok? && WriteStrings(names[1..]).Ok?
    ensures WriteStrings(names).value == WriteString(names[0]).value + WriteStrings(names[1..]).value
  {
  }

  lemma {:induction false} StringsAtPos(s: Bytes, p: nat, names: seq<Bytes>)
    requires WriteStrings(names).Ok?
    requires Stands(s, p, WriteStrings(names).value)
    ensures Yields(ReadStrings(s, p, |names|), names, p + |WriteStrings(names).value|)
    decreases |names|
  {
    if |names| > 0 {
      WriteStringsCons(names);
      var w := WriteString(names[0]).value;
      var ws := WriteStrings(names[1..]).value;
      StandsSplit(s, p, w, ws);
      StringAtPos(s, p, names[0]);
      StringsAtPos(s, p + |w|, names[1..]);
      assert [names[0]] + names[1..] == names;
    }
  }

  lemma {:induction false} StringAtPos(s: Bytes, p: nat, text: Bytes)
    requires |text| <= VarInt.MaxValue
    requires Stands(s, p, WriteString(text).value)
    ensures Yields(ReadStringRaw(s, p), text, p + |WriteString(text).value|)
  {
    var w := WriteString(text).value;
    StandsMeans(s, p, w);
    var rest := s[p + |w|..];
    assert s == s[..p] + w + rest;
    StringAt(s[..p], text, rest);
  }

  /** `w` stands in `s` from position `p` on. */
  predicate Stands(s: Bytes, p: nat, w: Bytes)
    decreases |w|
  {
    p + |w| <= |s| && (|w| == 0 || (s[p] == w[0] && Stands(s, p + 1, w[1..])))
  }

  lemma {:induction false} StandsMeans(s: Bytes, p: nat, w: Bytes)
    ensures Stands(s, p, w) <==> p + |w| <= |s| && s[p..p + |w|] == w
    decreases |w|
  {
    if |w| > 0 && p + |w| <= |s| {
      StandsMeans(s, p + 1, w[1..]);
      assert s[p..p + |w|] == [s[p]] + s[p + 1..p + |w|];
      assert w == [w[0]] + w[1..];
    }
  }

  /** Two pieces standing one after the other. */
  lemma {:induction false} StandsSplit(s: Bytes, p: nat, a: Bytes, b: Bytes)
    requires Stands(s, p, a + b)
    ensures Stands(s, p, a) && Stands(s, p + |a|, b)
  {
    StandsMeans(s, p, a + b);
    StandsMeans(s, p, a);
    StandsMeans(s, p + |a|, b);
    SliceSplit(s, p, a, b);
  }

  lemma {:induction false} SliceSplit(s: Bytes, p: nat, a: Bytes, b: Bytes)
    requires p + |a| + |b| <= |s| && s[p..p + |a| + |b|] == a + b
    ensures s[p..p + |a|] == a && s[p + |a|..p + |a| + |b|] == b
  {
    assert s[p..p + |a|] == (a + b)[..|a|];
    assert s[p + |a|..p + |a| + |b|] == (a + b)[|a|..];
  }

  /** `ClassInfo.write`: object id, name, member count as a signed 4-byte
      integer (an OverflowError past 2^31 - 1 members), then the names. */
  function WriteClassInfo(c: ClassInfo): (r: Result<Bytes>)
    ensures r.Ok? <==> && IsInt32(c.objectId) && |c.name| <= VarInt.MaxValue
                       && IsInt32(|c.members|)
                       && forall i | 0 <= i < |c.members| :: |c.members[i]| <= VarInt.MaxValue
    ensures r.Ok? ==> |r.value| >= 9 + |c.members|
  {
    var id :- EncodeInt32(c.objectId);
    var name :- WriteString(c.name);
    var count :- EncodeInt32(|c.members|);
    var members :- WriteStrings(c.members);
    Ok(id + name + count + members)
  }

  /** `ClassInfo.read` inverts `ClassInfo.write`. */
  lemma {:induction false} ClassInfoRoundTrip(pre: Bytes, c: ClassInfo, rest: Bytes)
    requires WriteClassInfo(c).Ok?
    ensures ReadClassInfo(pre + WriteClassInfo(c).value + rest, |pre|).Ok?
    ensures ReadClassInfo(pre + WriteClassInfo(c).value + rest, |pre|).value.0 == c
    ensures ReadClassInfo(pre + WriteClassInfo(c).value + rest, |pre|).value.1
            == |pre| + |WriteClassInfo(c).value|
  {
    var w := WriteClassInfo(c).value;
    var s := pre + w + rest;
    assert s[|pre|..|pre| + |w|] == w;
    StandsMeans(s, |pre|, w);
    ClassInfoAtPos(s, |pre|, c);
  }

  lemma {:induction false} ClassInfoAtPos(s: Bytes, p: nat, c: ClassInfo)
    requires WriteClassInfo(c).Ok?
    requires Stands(s, p, WriteClassInfo(c).value)
    ensures ReadClassInfo(s, p).Ok?
    ensures ReadClassInfo(s, p).value.0 == c
    ensures ReadClassInfo(s, p).value.1 == p + |WriteClassInfo(c).value|
  {
    ClassInfoLayout(s, p, c);
    ClassInfoReads(s, p, c);
  }

  /** Where each part of a written `ClassInfo` stands. */
  lemma {:induction false} ClassInfoLayout(s: Bytes, p: nat, c: ClassInfo)
    requires WriteClassInfo(c).Ok?
    requires Stands(s, p, WriteClassInfo(c).value)
    ensures Placed(s, p, c)
    ensures |WriteClassInfo(c).value| == 8 + |WriteString(c.name).value| + |WriteStrings(c.members).value|
  {
    var id := EncodeInt32(c.objectId).value;
    var name := WriteString(c.name).value;
    var count := EncodeInt32(|c.members|).value;
    var members := WriteStrings(c.members).value;
    assert WriteClassInfo(c).value == id + name + count + members;
    StandsSplit(s, p, id + name + count, members);
    StandsSplit(s, p, id + name, count);
    StandsSplit(s, p, id, name);
  }

  ghost predicate Placed(s: Bytes, p: nat, c: ClassInfo)
    requires WriteClassInfo(c).Ok?
  {
    var p1 := p + 4;
    var p2 := p1 + |WriteString(c.name).value|;
    var p3 := p2 + 4;
    && Stands(s, p, EncodeInt32(c.objectId).value)
    && Stands(s, p1, WriteString(c.name).value)
    && Stands(s, p2, EncodeInt32(|c.members|).value)
    && Stands(s, p3, WriteStrings(c.members).value)
  }

  lemma {:induction false} ClassInfoReads(s: Bytes, p: nat, c: ClassInfo)
    requires WriteClassInfo(c).Ok? && Placed(s, p, c)
    ensures ReadClassInfo(s, p).Ok?
    ensures ReadClassInfo(s, p).value.0 == c
    ensures ReadClassInfo(s, p).value.1 == p + 8 + |WriteString(c.name).value| + |WriteStrings(c.members).value|
  {
    var p1 := p + 4;
    var p2 := p1 + |WriteString(c.name).value|;
    var p3 := p2 + 4;
    Int32AtPos(s, p, c.objectId);
    StringAtPos(s, p1, c.name);
    Int32AtPos(s, p2, |c.members|);
    StringsAtPos(s, p3, c.members);
    ReadClassInfoParts(s, p, c, p1, p2, p3, p3 + |WriteStrings(c.members).value|);
  }

  /** `ClassInfo.read` put together from its four reads. */
  lemma {:induction false} ReadClassInfoParts(s: Bytes, p: nat, c: ClassInfo, p1: nat, p2: nat, p3: nat, e: nat)
    requires p <= p1 <= p2 <= p3 <= e <= |s|
    requires Yields(ReadInt32(s, p), c.objectId, p1)
    requires Yields(ReadStringRaw(s, p1), c.name, p2)
    requires Yields(ReadInt32(s, p2), |c.members|, p3)
    requires ReadStrings(s, p3, |c.members|).Ok?
    requires ReadStrings(s, p3, |c.members|).value.0 == c.members
    requires ReadStrings(s, p3, |c.members|).value.1 == e
    ensures ReadClassInfo(s, p).Ok?
    ensures ReadClassInfo(s, p).value.0 == c
    ensures ReadClassInfo(s, p).value.1 == e
  {
  }

  /** `Int32.write` read back by `Int32.read` wherever it stands in `s`. */
  lemma {:induction false} Int32AtPos(s: Bytes, p: nat, v: int)
    requires IsInt32(v) && Stands(s, p, EncodeInt32(v).value)
    ensures Yields(ReadInt32(s, p), v, p + 4)
  {
    StandsMeans(s, p, EncodeInt32(v).value);
    var got := ReadInt32(s, p).value.0;
    Int32RoundTrip(v);
    Int32RoundTrip(got);
  }

  // ---------------------------------------------------------------------------
  // MemberTypeInfo

  /** The binary types, one byte each. */
  function WriteBinaryTypes(types: seq<BinaryType>): (r: Bytes)
    ensures |r| == |types|
    ensures forall i | 0 <= i < |types| :: r[i] as int == BinaryTag(types[i])
  {
    if |types| == 0 then []
    else [BinaryTag(types[0]) as byte] + WriteBinaryTypes(types[1..])
  }

  /** One extra-information value: a PrimitiveType as its byte, a string as a
      string, a ClassTypeInfo as one, None as nothing, and any other value a
      TypeError. */
  function WriteExtraInfo(v: ExtraInfo): (r: Result<Bytes>)
    ensures v == OtherValue ==> r == Err(TypeError)
  {
    match v
    case PrimitiveInfo(p) => Ok([PrimitiveTag(p) as byte])
    case SystemClassName(name) => WriteString(name)
    case ClassInfoRef(info) => WriteClassTypeInfo(info)
    case NoInfo => Ok([])
    case OtherValue => Err(TypeError)
  }

  /** The extra information, in order; the first value that cannot be written
      stops the write. */
  function WriteExtraInfos(infos: seq<ExtraInfo>): (r: Result<Bytes>)
    ensures r.Ok? <==> forall i | 0 <= i < |infos| :: WriteExtraInfo(infos[i]).Ok?
  {
    if |infos| == 0 then Ok([])
    else
      var first :- WriteExtraInfo(infos[0]);
      var rest :- WriteExtraInfos(infos[1..]);
      assert forall i | 1 <= i < |infos| :: infos[i] == infos[1..][i - 1];
      Ok(first + rest)
  }

  /** `MemberTypeInfo.write`: every binary type, then every extra-information
      value. A value of a foreign type makes it fail. */
  function WriteMemberTypeInfo(m: MemberTypeInfo): (r: Result<Bytes>)
    ensures OtherValue in m.extraInfo ==> r.Err?
    ensures r.Ok? ==> |r.value| >= |m.binaryTypes|
    ensures r.Ok? ==> forall i | 0 <= i < |m.binaryTypes| :: r.value[i] as int == BinaryTag(m.binaryTypes[i])
  {
    var infos :- WriteExtraInfos(m.extraInfo);
    Ok(WriteBinaryTypes(m.binaryTypes) + infos)
  }

  /** Written binary types read back wherever they stand: every byte is a
      known tag, and equal tags mean equal types. */
  lemma {:induction false} BinaryTypesAt(pre: Bytes, types: seq<BinaryType>, rest: Bytes)
    ensures Yields(ReadBinaryTypes(pre + WriteBinaryTypes(types) + rest, |pre|, |types|),
                   types, |pre| + |types|)
  {
    var w := WriteBinaryTypes(types);
    var s := pre + w + rest;
    assert forall i | 0 <= i < |types| :: s[|pre| + i] == w[i];
    BinaryTypesAtPos(s, |pre|, types);
  }

  lemma {:induction false} BinaryTypesAtPos(s: Bytes, p: nat, types: seq<BinaryType>)
    requires p + |types| <= |s|
    requires forall i | 0 <= i < |types| :: s[p + i] as int == BinaryTag(types[i])
    ensures Yields(ReadBinaryTypes(s, p, |types|), types, p + |types|)
  {
    forall i | p <= i < p + |types|
      ensures s[i] <= 7
    {
      assert s[p + (i - p)] as int == BinaryTag(types[i - p]);
    }
    var r := ReadBinaryTypes(s, p, |types|).value.0;
    forall i | 0 <= i < |types|
      ensures r[i] == types[i]
    {
      BinaryTagRoundTrip(r[i], types[i]);
    }
    assert r == types;
  }

  /** One extra-information value of the shape its binary type calls for reads
      back as written. */
  lemma {:induction false} ExtraInfoAt(pre: Bytes, t: BinaryType, v: ExtraInfo, rest: Bytes)
    requires Validate(t, v) && WriteExtraInfo(v).Ok?
    ensures Yields(ReadExtraTypeInfo(pre + WriteExtraInfo(v).value + rest, |pre|, t),
                   v, |pre| + |WriteExtraInfo(v).value|)
  {
    var s := pre + WriteExtraInfo(v).value + rest;
    match v
    case PrimitiveInfo(p) =>
      assert s[|pre|] as int == PrimitiveTag(p);
      PrimitiveTagRoundTrip(p, p);
    case SystemClassName(name) =>
      StringAt(pre, name, rest);
    case ClassInfoRef(info) =>
      ClassTypeInfoRoundTrip(pre, info, rest);
    case NoInfo =>
      assert s == pre + rest;
  }

  lemma {:induction false} ExtraInfoAtPos(s: Bytes, p: nat, t: BinaryType, v: ExtraInfo)
    requires Validate(t, v) && WriteExtraInfo(v).Ok?
    requires Stands(s, p, WriteExtraInfo(v).value)
    ensures Yields(ReadExtraTypeInfo(s, p, t), v, p + |WriteExtraInfo(v).value|)
  {
    var w := WriteExtraInfo(v).value;
    StandsMeans(s, p, w);
    var rest := s[p + |w|..];
    assert s == s[..p] + w + rest;
    ExtraInfoAt(s[..p], t, v, rest);
  }

  /** A written list of extra information is its first value, then the rest. */
  lemma {:induction false} WriteExtraInfosCons(infos: seq<ExtraInfo>)
    requires |infos| > 0 && WriteExtraInfos(infos).Ok?
    ensures WriteExtraInfo(infos[0]).Ok? && WriteExtraInfos(infos[1..]).Ok?
    ensures WriteExtraInfos(infos).value == WriteExtraInfo(infos[0]).value + WriteExtraInfos(infos[1..]).value
  {
  }

  /** Each extra-information value has the shape its binary type calls for,
      stated type by type from the front. */
  predicate AllValid(types: seq<BinaryType>, infos: seq<ExtraInfo>)
    decreases |types|
  {
    |types| == |infos| && (|types| == 0 || (Validate(types[0], infos[0]) && AllValid(types[1..], infos[1..])))
  }

  lemma {:induction false} AllValidMeans(types: seq<BinaryType>, infos: seq<ExtraInfo>)
    requires |types| == |infos|
    requires forall i | 0 <= i < |types| :: Validate(types[i], infos[i])
    ensures AllValid(types, infos)
    decreases |types|
  {
    if |types| > 0 {
      assert forall i | 0 <= i < |types| - 1 :: types[1..][i] == types[i + 1] && infos[1..][i] == infos[i + 1];
      AllValidMeans(types[1..], infos[1..]);
    }
  }

  /** The first written extra-information value reads back, and the rest of
      the list stands right after it. */
  lemma {:induction false} ExtraInfosHead(s: Bytes, p: nat, types: seq<BinaryType>, infos: seq<ExtraInfo>)
    requires 0 < |types| && AllValid(types, infos) && WriteExtraInfos(infos).Ok?
    requires Stands(s, p, WriteExtraInfos(infos).value)
    ensures WriteExtraInfo(infos[0]).Ok? && WriteExtraInfos(infos[1..]).Ok?
    ensures |WriteExtraInfos(infos).value| == |WriteExtraInfo(infos[0]).value| + |WriteExtraInfos(infos[1..]).value|
    ensures Yields(ReadExtraTypeInfo(s, p, types[0]), infos[0], p + |WriteExtraInfo(infos[0]).value|)
    ensures Stands(s, p + |WriteExtraInfo(infos[0]).value|, WriteExtraInfos(infos[1..]).value)
  {
    WriteExtraInfosCons(infos);
    var w := WriteExtraInfo(infos[0]).value;
    var ws := WriteExtraInfos(infos[1..]).value;
    StandsSplit(s, p, w, ws);
    ExtraInfoAtPos(s, p, types[0], infos[0]);
  }

  lemma {:induction false} ExtraInfosAtPos(s: Bytes, p: nat, types: seq<BinaryType>, infos: seq<ExtraInfo>)
    requires AllValid(types, infos) && WriteExtraInfos(infos).Ok?
    requires Stands(s, p, WriteExtraInfos(infos).value)
    ensures Yields(ReadExtraInfos(s, p, types), infos, p + |WriteExtraInfos(infos).value|)
    decreases |types|
  {
    if |types| > 0 {
      ExtraInfosHead(s, p, types, infos);
      var q := p + |WriteExtraInfo(infos[0]).value|;
      ExtraInfosAtPos(s, q, types[1..], infos[1..]);
      ReadExtraInfosCons(s, p, types, infos, q, p + |WriteExtraInfos(infos).value|);
    }
  }

  /** The extra information of n types is that of the first, then that of
      the rest. */
  lemma {:induction false} ReadExtraInfosCons(s: Bytes, p: nat, types: seq<BinaryType>, infos: seq<ExtraInfo>, q: nat, e: nat)
    requires p <= q <= e <= |s| && 0 < |types| == |infos|
    requires Yields(ReadExtraTypeInfo(s, p, types[0]), infos[0], q)
    requires Yields(ReadExtraInfos(s, q, types[1..]), infos[1..], e)
    ensures Yields(ReadExtraInfos(s, p, types), infos, e)
  {
    assert [infos[0]] + infos[1..] == infos;
  }

  lemma {:induction false} ExtraInfosAt(pre: Bytes, types: seq<BinaryType>, infos: seq<ExtraInfo>, rest: Bytes)
    requires |types| == |infos| && WriteExtraInfos(infos).Ok?
    requires forall i | 0 <= i < |types| :: Validate(types[i], infos[i])
    ensures Yields(ReadExtraInfos(pre + WriteExtraInfos(infos).value + rest, |pre|, types),
                   infos, |pre| + |WriteExtraInfos(infos).value|)
  {
    var w := WriteExtraInfos(infos).value;
    var s := pre + w + rest;
    assert s[|pre|..|pre| + |w|] == w;
    StandsMeans(s, |pre|, w);
    AllValidMeans(types, infos);
    ExtraInfosAtPos(s, |pre|, types, infos);
  }

  /** `MemberTypeInfo.read(count)` inverts `MemberTypeInfo.write` when there
      is one extra-information value per binary type, each of the shape its
      type calls for. */
  lemma {:induction false} MemberTypeInfoRoundTrip(pre: Bytes, m: MemberTypeInfo, rest: Bytes)
    requires WriteMemberTypeInfo(m).Ok?
    requires |m.binaryTypes| == |m.extraInfo|
    requires forall i | 0 <= i < |m.binaryTypes| :: Validate(m.binaryTypes[i], m.extraInfo[i])
    ensures Yields(ReadMemberTypeInfo(pre + WriteMemberTypeInfo(m).value + rest, |pre|, |m.binaryTypes|),
                   m, |pre| + |WriteMemberTypeInfo(m).value|)
  {
    var types := WriteBinaryTypes(m.binaryTypes);
    var infos := WriteExtraInfos(m.extraInfo).value;
    var s := pre + WriteMemberTypeInfo(m).value + rest;
    Regroup(pre, types, infos, rest);
    BinaryTypesAt(pre, m.binaryTypes, infos + rest);
    ExtraInfosAt(pre + types, m.binaryTypes, m.extraInfo, rest);
  }
}
