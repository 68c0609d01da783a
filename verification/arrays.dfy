/** The single-dimension array records of dotnet/io/binary.py
    (ArraySinglePrimitive and ArraySingleString) and BinaryArray. Each reads a
    stream object id and its elements, and registers the new array instance
    under a fresh store id.
 */
module Arrays {
  import opened Wrappers
  import opened Bytes
  import opened Enums
  import opened Primitives
  import opened Structures
  import opened Objects
  import opened Reader
  import VarInt

  /** The length of an ArraySinglePrimitive or ArraySingleObject: a strict
      formatter refuses a negative length, a permissive one reads it as 0. */
  function ArrayLength(length: int, strict: bool): (r: Result<nat>)
    ensures r.Ok? <==> length >= 0 || !strict
    ensures r.Ok? ==> r.value == if length < 0 then 0 else length
    ensures r.Err? ==> r.error == InvalidLength
  {
    if length >= 0 then Ok(length)
    else if strict then Err(InvalidLength)
    else Ok(0)
  }

  // ---------------------------------------------------------------------------
  // ArraySinglePrimitive

  /** One element of `read_primitive_array`. Unlike `read_primitive_type`, a
      String or Decimal element is the class constructor applied to
      `fp.read(strlen)`, which returns what is left of the stream when it is
      shorter than announced; a fixed-size element is the constructor applied
      to `fp.read(byte_size)`. */
  function ArrayElement(s: Bytes, pos: nat, c: PrimitiveClass): (r: Result<(Primitive, nat)>)
    requires pos <= |s|
    ensures r.Ok? ==> pos < r.value.1 <= |s|
    ensures !IsVariableSize(c) && r.Ok? ==> r.value.1 == pos + ByteSize(c)
  {
    ByteSizeShape(c);
    if ByteSize(c) <= 0 then
      if TypeOf(c) == Char then
        var ch :- ReadChar(s, pos);
        Ok((CharText(ch.0), ch.1))
      else
        var n :- VarInt.ReadVarInt(s, pos);
        var (bs, next) := ReadAvailable(s, n.1, n.0);
        var v :- FromPayload(c, bs);
        Ok((v, next))
    else
      var (bs, next) := ReadAvailable(s, pos, ByteSize(c) as nat);
      var v :- FromFixedBytes(c, bs);
      Ok((v, next))
  }

  /** For Char and the fixed-size classes an array element is read exactly as
      a typed member value of the same type. */
  lemma {:induction false} ElementAgrees(s: Bytes, pos: nat, c: PrimitiveClass)
    requires pos <= |s| && c != StringClass && c != DecimalClass
    ensures ArrayElement(s, pos, c) == ReadPrimitiveValue(s, pos, TypeOf(c))
  {
    GetClassOfType(c);
    ByteSizeShape(c);
  }

  /** For String they part ways: a member value is the announced bytes
      themselves, while an array element hands them to the String constructor,
      which expects them to begin with their own length. "hi" is a value but
      not an element. */
  lemma {:induction false} StringElementExample()
    ensures ReadPrimitiveValue([2, 104, 105], 0, StringValue) == Ok((StringText([104, 105]), 3))
    ensures ArrayElement([2, 104, 105], 0, StringClass) == Err(StringLengthMismatch)
  {
    var s: Bytes := [2, 104, 105];
    assert s[0..] == s;
    assert s[..1] == [2];
    VarInt.Base128Chain(2, 0, 0, 0, 0);
    assert VarInt.ValidChain(s, 1);
    assert s[1..3] == [104, 105];
    ReadTextValue(s, 0, StringValue);
    var hi: Bytes := [104, 105];
    assert hi[..1] == [104];
    VarInt.Base128Chain(104, 0, 0, 0, 0);
    assert VarInt.ValidChain(hi, 1);
  }

  function ElementStep(s: Bytes, c: PrimitiveClass): nat -> Result<(Primitive, nat)>
  {
    (p: nat) => if p <= |s| then ArrayElement(s, p, c) else Err(EndOfStream)
  }

  lemma {:induction false} ElementStepAdvances(s: Bytes, c: PrimitiveClass)
    ensures Advances(ElementStep(s, c), |s|)
  {
    forall p: nat | ElementStep(s, c)(p).Ok?
      ensures p < ElementStep(s, c)(p).value.1 <= |s|
    {
      assert p <= |s|;
    }
  }

  /** The n elements of a primitive array. */
  function ReadElements(s: Bytes, pos: nat, c: PrimitiveClass, n: nat): (r: Result<(seq<Value>, nat)>)
    requires pos <= |s|
    ensures r.Ok? ==> |r.value.0| == n && pos + n <= r.value.1 <= |s|
    ensures r.Ok? ==> forall i | 0 <= i < n :: r.value.0[i].Prim?
  {
    ElementStepAdvances(s, c);
    ManyAdvances(ElementStep(s, c), |s|, pos, n);
    ReadMany(ElementStep(s, c), pos, n)
  }

  /** The fixed part of an ArraySinglePrimitive record: stream id, length and
      element class. */
  datatype PrimitiveArrayHeader = PrimitiveArrayHeader(streamId: int, length: nat, cls: PrimitiveClass, next: nat)

  /** `read_primitive_array` up to its elements: a stream id already mapped is
      a KeyError, a negative length is refused by a strict formatter, and the
      type byte must name a primitive type that has a class. */
  function ReadPrimitiveArrayHeader(s: Bytes, pos: nat, rd: Reader): (r: Result<PrimitiveArrayHeader>)
    requires pos <= |s|
    ensures pos + 4 <= |s| && LeSigned(s[pos..pos + 4]) in rd.state.objectIdMap ==> r == Err(DuplicateObjectId)
    ensures (pos + 8 <= |s| && LeSigned(s[pos..pos + 4]) !in rd.state.objectIdMap
             && rd.strict && Int32Field(s, pos, 1) < 0) ==> r == Err(InvalidLength)
    ensures r.Ok? ==> r.value.next == pos + 9 <= |s|
    ensures r.Ok? ==> r.value.streamId == LeSigned(s[pos..pos + 4]) && r.value.streamId !in rd.state.objectIdMap
    ensures r.Ok? ==> r.value.length == (if Int32Field(s, pos, 1) < 0 then 0 else Int32Field(s, pos, 1))
    ensures r.Ok? ==> PrimitiveTypeOf(s[pos + 8] as int) == Ok(TypeOf(r.value.cls))
  {
    var sid :- ReadInt32(s, pos);
    if sid.0 in rd.state.objectIdMap then Err(DuplicateObjectId)
    else
      var length :- ReadInt32(s, sid.1);
      var n :- ArrayLength(length.0, rd.strict);
      var tb :- ReadByte(s, length.1);
      var t :- PrimitiveTypeOf(tb.0 as int);
      var c :- GetClass(t);
      Ok(PrimitiveArrayHeader(sid.0, n, c, tb.1))
  }

  /** `read_primitive_array`: the header, `length` elements of the class, and
      the PrimitiveArray registered under a fresh store id. */
  function ReadPrimitiveArray(s: Bytes, pos: nat, rd: Reader): (r: Result<Step<Value>>)
    requires pos <= |s|
    ensures ReadPrimitiveArrayHeader(s, pos, rd).Err? ==> r == Err(ReadPrimitiveArrayHeader(s, pos, rd).error)
    ensures r.Ok? ==> var h := ReadPrimitiveArrayHeader(s, pos, rd).value;
                      var id := rd.store.nextObjectId;
                      && pos + 9 + h.length <= r.value.next <= |s|
                      && r.value.value == Obj(id)
                      && id in r.value.reader.store.objects
                      && r.value.reader.store.objects[id].PrimitiveArrayInstance?
                      && r.value.reader.store.objects[id].primitiveClass == h.cls
                      && |r.value.reader.store.objects[id].data| == h.length
                      && r.value.reader.state.objectIdMap == rd.state.objectIdMap[h.streamId := id]
    ensures r.Ok? ==> r.value.reader.cells == rd.cells && r.value.reader.state.references == rd.state.references
    ensures r.Ok? && Good(rd) ==> Good(r.value.reader)
  {
    var h :- ReadPrimitiveArrayHeader(s, pos, rd);
    var values :- ReadElements(s, h.next, h.cls, h.length);
    var (id, rd1) := Register(rd, h.streamId, PrimitiveArrayInstance(h.cls, values.0));
    Ok(Step(Obj(id), values.1, rd1))
  }

  // ---------------------------------------------------------------------------
  // ArraySingleString

  /** The strings of a StringArray as values. */
  function Texts(strings: seq<Bytes>): (r: seq<Value>)
    ensures |r| == |strings|
    ensures forall i | 0 <= i < |r| :: r[i] == Text(strings[i])
  {
    seq(|strings|, i requires 0 <= i < |strings| => Text(strings[i]))
  }

  /** `read_string_array`: a stream id and a length, neither checked (a
      negative length reads no strings, and a stream id seen before is simply
      mapped again), then that many length-prefixed strings. */
  function ReadStringArray(s: Bytes, pos: nat, rd: Reader): (r: Result<Step<Value>>)
    requires pos <= |s|
    ensures pos + 8 > |s| ==> r == Err(EndOfStream)
    ensures r.Ok? ==> var id := rd.store.nextObjectId;
                      var length := Int32Field(s, pos, 1);
                      && pos + 8 <= r.value.next <= |s|
                      && r.value.value == Obj(id)
                      && id in r.value.reader.store.objects
                      && r.value.reader.store.objects[id].StringArrayInstance?
                      && |r.value.reader.store.objects[id].data| == (if length < 0 then 0 else length)
                      && r.value.reader.state.objectIdMap == rd.state.objectIdMap[LeSigned(s[pos..pos + 4]) := id]
    ensures r.Ok? ==> r.value.reader.cells == rd.cells && r.value.reader.state.references == rd.state.references
    ensures r.Ok? && Good(rd) ==> Good(r.value.reader)
  {
    var sid :- ReadInt32(s, pos);
    var length :- ReadInt32(s, sid.1);
    var strings :- ReadStrings(s, length.1, if length.0 < 0 then 0 else length.0);
    var (id, rd1) := Register(rd, sid.0, StringArrayInstance(Texts(strings.0)));
    Ok(Step(Obj(id), strings.1, rd1))
  }

  // ---------------------------------------------------------------------------
  // BinaryArray

  /** The dimensions of a BinaryArray record. */
  datatype ArrayShape = ArrayShape(streamId: int, arrayType: BinaryArrayType, rank: int,
                                   lengths: seq<int>, offsets: Option<seq<int>>, next: nat)

  /** `read_binary_array` up to its element type: stream id, array type, a
      rank of at least one, `rank` non-negative lengths, and `rank` offsets for
      the three offset variants only. */
  function ReadArrayShape(s: Bytes, pos: nat): (r: Result<ArrayShape>)
    requires pos <= |s|
    ensures pos + 9 <= |s| && BinaryArrayTypeOf(s[pos + 4] as int).Ok? && LeSigned(s[pos + 5..pos + 9]) < 1
            ==> r == Err(InvalidRank)
    ensures r.Ok? ==> var a := r.value;
                      && pos + 9 <= |s|
                      && a.streamId == LeSigned(s[pos..pos + 4])
                      && BinaryArrayTypeOf(s[pos + 4] as int) == Ok(a.arrayType)
                      && a.rank == LeSigned(s[pos + 5..pos + 9]) >= 1
                      && ReadLengths(s, pos + 9, a.rank) == Ok((a.lengths, pos + 9 + 4 * a.rank))
                      && (a.offsets.Some? <==> HasOffsets(a.arrayType))
                      && (a.offsets.Some? ==> |a.offsets.value| == a.rank)
                      && pos + 9 + 4 * a.rank <= a.next <= |s|
  {
    var sid :- ReadInt32(s, pos);
    var at :- ReadByte(s, sid.1);
    var arrayType :- BinaryArrayTypeOf(at.0 as int);
    var rank :- ReadInt32(s, at.1);
    if rank.0 < 1 then Err(InvalidRank)
    else
      var lengths :- ReadLengths(s, rank.1, rank.0);
      var offsets :- if HasOffsets(arrayType) then ReadOffsets(s, lengths.1, rank.0) else Ok((None, lengths.1));
      Ok(ArrayShape(sid.0, arrayType, rank.0, lengths.0, offsets.0, offsets.1))
  }

  function ReadOffsets(s: Bytes, pos: nat, rank: nat): (r: Result<(Option<seq<int>>, nat)>)
    requires pos <= |s|
    ensures r.Ok? ==> r.value.0.Some? && |r.value.0.value| == rank && r.value.1 == pos + 4 * rank <= |s|
  {
    var offsets :- ReadInt32s(s, pos, rank);
    Ok((Some(offsets.0), offsets.1))
  }

  /** Whether a BinaryArray's elements are read inline: only for the Primitive
      and PrimitiveArray binary types. */
  predicate HasInlineElements(t: BinaryType) {
    t == PrimitiveArray || t == Primitive
  }

  /** `read_binary_array`: the shape, the binary type and its extra
      information, then for the primitive binary types the elements, one
      length after another, and the BinaryArray registered under a fresh store
      id. No other binary type reads any element. */
  function ReadBinaryArray(s: Bytes, pos: nat, rd: Reader): (r: Result<Step<Value>>)
    requires pos <= |s|
    ensures ReadArrayShape(s, pos).Err? ==> r == Err(ReadArrayShape(s, pos).error)
    ensures r.Ok? ==> var a := ReadArrayShape(s, pos).value;
                      var id := rd.store.nextObjectId;
                      && a.next < r.value.next <= |s|
                      && r.value.value == Obj(id)
                      && id in r.value.reader.store.objects
                      && var inst := r.value.reader.store.objects[id];
                      && inst.BinaryArrayInstance?
                      && inst.rank == a.rank && inst.lengths == a.lengths && inst.offsets == a.offsets
                      && BinaryTypeOf(s[a.next] as int) == Ok(inst.binaryType)
                      && Validate(inst.binaryType, inst.extraInfo)
                      && |inst.data| == (if HasInlineElements(inst.binaryType) then Total(a.lengths) else 0)
                      && r.value.reader.state.objectIdMap == rd.state.objectIdMap[a.streamId := id]
    ensures r.Ok? ==> r.value.reader.cells == rd.cells && r.value.reader.state.references == rd.state.references
    ensures r.Ok? && Good(rd) ==> Good(r.value.reader)
  {
    var a :- ReadArrayShape(s, pos);
    var bt :- ReadByte(s, a.next);
    var binType :- BinaryTypeOf(bt.0 as int);
    var extra :- ReadExtraTypeInfo(s, bt.1, binType);
    var data :- if HasInlineElements(binType) then ReadRuns(s, extra.1, extra.0.primitive, a.lengths)
                else Ok(([], extra.1));
    var inst := BinaryArrayInstance(a.rank, a.arrayType, a.lengths, a.offsets, binType, extra.0, data.0);
    var (id, rd1) := Register(rd, a.streamId, inst);
    Ok(Step(Obj(id), data.1, rd1))
  }
}
