/** Record dispatch in dotnet/io/binary.py: the `_read_record_fn` table, the
    record readers that read no nested record, and the readers that do: the
    class records (whose member values may be records), ArraySingleObject
    (whose elements are records) and the member loop between them.
 */
module Records {
  import opened Wrappers
  import opened Bytes
  import opened Enums
  import opened Primitives
  import opened Structures
  import opened Objects
  import opened Reader
  import opened Arrays

  /** The dispatch table holds a reader for every record type except
      MessageEnd, MethodCall and MethodReturn. */
  predicate HasReader(t: RecordType) {
    t != MessageEnd && t != MethodCall && t != MethodReturn
  }

  // ---------------------------------------------------------------------------
  // Records that nest no other record

  /** `read_reference`: an InstanceReference holding the stream object id. It
      is a new cell, and it joins the references awaiting resolution. */
  function ReadReference(s: Bytes, pos: nat, rd: Reader): (r: Result<Step<Value>>)
    requires pos <= |s|
    ensures r.Ok? <==> pos + 4 <= |s|
    ensures r.Ok? ==> && r.value.next == pos + 4
                      && r.value.value == Ref(|rd.cells|)
                      && r.value.reader.cells == rd.cells + [LeSigned(s[pos..pos + 4])]
                      && r.value.reader.state.references == rd.state.references + [|rd.cells|]
                      && r.value.reader.store == rd.store
                      && r.value.reader.state.objectIdMap == rd.state.objectIdMap
    ensures r.Ok? && Good(rd) ==> Good(r.value.reader)
  {
    var sid :- ReadInt32(s, pos);
    var cell := |rd.cells|;
    Ok(Step(Ref(cell), sid.1, rd.(cells := rd.cells + [sid.0],
                                  state := rd.state.(references := rd.state.references + [cell]))))
  }

  /** `read_library`: a stream library id and an assembly name, parsed into a
      Library that is given the store's next library id (which fails when the
      name already set one through a `library_id=` option); the stream id then
      maps to both. */
  function ReadLibrary(s: Bytes, pos: nat, rd: Reader): (r: Result<Step<Value>>)
    requires pos <= |s|
    ensures pos + 4 > |s| ==> r == Err(EndOfStream)
    ensures (pos + 4 <= |s| && ReadStringRaw(s, pos + 4).Ok? && ParseString(ReadStringRaw(s, pos + 4).value.0).Ok?
             && ParseString(ReadStringRaw(s, pos + 4).value.0).value.id != NoId) ==> r == Err(LibraryIdAlreadySet)
    ensures r.Ok? ==> pos + 4 < r.value.next <= |s|
                      && ReadStringRaw(s, pos + 4).Ok? && ParseString(ReadStringRaw(s, pos + 4).value.0).Ok?
                      && var sid := LeSigned(s[pos..pos + 4]);
                         var lib := ParseString(ReadStringRaw(s, pos + 4).value.0).value.(id := NumericId(rd.store.nextLibraryId));
                         && r.value.value == Lib(lib)
                         && r.value.reader.state.libraries == rd.state.libraries[sid := lib]
                         && r.value.reader.state.libraryIdMap == rd.state.libraryIdMap[sid := rd.store.nextLibraryId]
                         && r.value.reader.store == rd.store.(nextLibraryId := rd.store.nextLibraryId + 1)
    ensures r.Ok? ==> r.value.reader.cells == rd.cells
                      && r.value.reader.state == rd.state.(libraries := r.value.reader.state.libraries,
                                                           libraryIdMap := r.value.reader.state.libraryIdMap)
    ensures r.Ok? && Good(rd) ==> Good(r.value.reader)
  {
    var sid :- ReadInt32(s, pos);
    var text :- ReadStringRaw(s, sid.1);
    var parsed :- ParseString(text.0);
    var (id, ds) := GetLibraryId(rd.store);
    var lib :- SetId(parsed, id);
    var state := rd.state.(libraryIdMap := rd.state.libraryIdMap[sid.0 := id],
                           libraries := rd.state.libraries[sid.0 := lib]);
    Ok(Step(Lib(lib), text.1, rd.(store := ds, state := state)))
  }

  /** `read_null_multiple` (an int32 count) and `read_null_multiple_256` (a
      byte count): `[None] * count`, empty for a count below one. */
  function ReadNullRun(s: Bytes, pos: nat, wide: bool): (r: Result<(Value, nat)>)
    requires pos <= |s|
    ensures wide ==> (r.Ok? <==> pos + 4 <= |s|)
    ensures !wide ==> (r.Ok? <==> pos < |s|)
    ensures r.Ok? && wide ==> r.value == (NullList(if Int32Field(s, pos, 0) < 0 then 0 else Int32Field(s, pos, 0)), pos + 4)
    ensures r.Ok? && !wide ==> r.value == (NullList(s[pos] as nat), pos + 1)
  {
    var n :- if wide then ReadInt32(s, pos) else ReadCount(s, pos);
    Ok((NullList(if n.0 < 0 then 0 else n.0), n.1))
  }

  /** A one-byte count. */
  function ReadCount(s: Bytes, pos: nat): (r: Result<(int, nat)>)
    requires pos <= |s|
    ensures r.Ok? <==> pos < |s|
    ensures r.Ok? ==> r.value == (s[pos] as int, pos + 1)
  {
    var b :- ReadByte(s, pos);
    Ok((b.0 as int, b.1))
  }

  /** `read_primitive`: a primitive type byte, then a value of that type. */
  function ReadTypedPrimitive(s: Bytes, pos: nat): (r: Result<(Value, nat)>)
    requires pos <= |s|
    ensures r.Ok? ==> pos + 1 < r.value.1 <= |s| && r.value.0.Prim?
    ensures r.Ok? ==> PrimitiveTypeOf(s[pos] as int).Ok?
                      && ReadPrimitiveValue(s, pos + 1, PrimitiveTypeOf(s[pos] as int).value)
                         == Ok((r.value.0.primitive, r.value.1))
  {
    var b :- ReadByte(s, pos);
    var t :- PrimitiveTypeOf(b.0 as int);
    var v :- ReadPrimitiveValue(s, b.1, t);
    Ok((Prim(v.0), v.1))
  }

  /** The readers of the records that nest no other record. A header read
      through the table reads its record byte once more (`read_header`'s
      default). A BinaryObjectString is read by `read_string`, which reads a
      length-prefixed string straight away: the record's object id is not
      read, and the string is not registered. */
  function ReadSimpleRecord(s: Bytes, pos: nat, rd: Reader, t: RecordType): (r: Result<Step<Value>>)
    requires pos <= |s| && HasReader(t) && !IsClassRecord(t) && t != ArraySingleObject
    ensures r.Ok? ==> pos <= r.value.next <= |s|
    ensures r.Ok? && Good(rd) ==> Good(r.value.reader)
    ensures t == ObjectNull ==> r == Ok(Step(NullValue, pos, rd))
    ensures t == BinaryObjectString ==>
              (r.Ok? <==> ReadStringRaw(s, pos).Ok?)
              && (r.Ok? ==> r.value == Step(Prim(StringText(ReadStringRaw(s, pos).value.0)), ReadStringRaw(s, pos).value.1, rd))
  {
    match t
    case SerializedStreamHeader => ReadHeader(s, pos, rd, true)
    case BinaryObjectString =>
      var text :- ReadStringRaw(s, pos);
      Ok(Step(Prim(StringText(text.0)), text.1, rd))
    case BinaryArray => ReadBinaryArray(s, pos, rd)
    case MemberPrimitiveTyped =>
      var v :- ReadTypedPrimitive(s, pos);
      Ok(Step(v.0, v.1, rd))
    case MemberReference => ReadReference(s, pos, rd)
    case ObjectNull => Ok(Step(NullValue, pos, rd))
    case BinaryLibrary => ReadLibrary(s, pos, rd)
    case ObjectNullMultiple256 =>
      var v :- ReadNullRun(s, pos, false);
      Ok(Step(v.0, v.1, rd))
    case ObjectNullMultiple =>
      var v :- ReadNullRun(s, pos, true);
      Ok(Step(v.0, v.1, rd))
    case ArraySinglePrimitive => ReadPrimitiveArray(s, pos, rd)
    case ArraySingleString => ReadStringArray(s, pos, rd)
  }

  // ---------------------------------------------------------------------------
  // Records that nest records

  /** A record of any type with a reader, its record byte already read. */
  function ReadRecordBody(s: Bytes, pos: nat, rd: Reader, t: RecordType): (r: Result<Step<Value>>)
    requires pos <= |s| && HasReader(t)
    ensures r.Ok? ==> pos <= r.value.next <= |s|
    ensures r.Ok? && Good(rd) ==> Good(r.value.reader)
    decreases |s| - pos, 2, 0
  {
    if IsClassRecord(t) then
      var h :- ReadClassHeader(s, pos, rd, t);
      ReadClassInstance(s, h.next, h.reader, h.value.0, h.value.1)
    else if t == ArraySingleObject then ReadObjectArray(s, pos, rd)
    else ReadSimpleRecord(s, pos, rd, t)
  }

  /** `read_class_instance`: one value per member of the class, then the
      ClassInstance registered under a fresh store id. */
  function ReadClassInstance(s: Bytes, pos: nat, rd: Reader, streamId: int, c: ClassObject): (r: Result<Step<Value>>)
    requires pos <= |s|
    ensures r.Ok? ==> pos <= r.value.next <= |s|
    ensures r.Ok? ==> && r.value.value.Obj?
                      && r.value.value.storeId in r.value.reader.store.objects
                      && r.value.reader.store.objects[r.value.value.storeId].ClassInstance?
                      && r.value.reader.store.objects[r.value.value.storeId].classObject == c
                      && |r.value.reader.store.objects[r.value.value.storeId].memberData| == |c.members|
                      && streamId in r.value.reader.state.objectIdMap
                      && r.value.reader.state.objectIdMap[streamId] == r.value.value.storeId
    ensures r.Ok? && Good(rd) ==> Good(r.value.reader)
    decreases |s| - pos, 1, 0
  {
    var m :- ReadMembers(s, pos, rd, c.members, 0, 0);
    var (id, rd1) := Register(m.reader, streamId, ClassInstance(c, m.value));
    Ok(Step(Obj(id), m.next, rd1))
  }

  /** The member loop of `read_class_instance` from member k on, with
      `pending` the loop's `null_count`. While it is positive each member is
      None without reading anything; a Primitive member reads a value of its
      primitive type; any other member reads a record. */
  function ReadMembers(s: Bytes, pos: nat, rd: Reader, members: seq<Member>, k: nat, pending: int)
    : (r: Result<Step<seq<Value>>>)
    requires pos <= |s| && k <= |members|
    ensures r.Ok? ==> pos <= r.value.next <= |s| && |r.value.value| == |members| - k
    ensures r.Ok? && Good(rd) ==> Good(r.value.reader)
    decreases |s| - pos, 0, |members| - k
  {
    if k == |members| then Ok(Step([], pos, rd))
    else if pending > 0 then
      var rest :- ReadMembers(s, pos, rd, members, k + 1, pending - 1);
      Ok(Step([NullValue] + rest.value, rest.next, rest.reader))
    else if members[k].binaryType == Primitive then
      var v :- ReadMemberPrimitive(s, pos, members[k].extraInfo);
      var rest :- ReadMembers(s, v.1, rd, members, k + 1, pending);
      Ok(Step([v.0] + rest.value, rest.next, rest.reader))
    else
      var v :- ReadMemberRecord(s, pos, rd, pending);
      var rest :- ReadMembers(s, v.next, v.reader, members, k + 1, v.value.1);
      Ok(Step([v.value.0] + rest.value, rest.next, rest.reader))
  }

  /** A member record: ObjectNullMultiple stands for an InstanceReference to
      object id 0 (a cell that is not among the pending references) followed
      by count - 1 Nones; ObjectNullMultiple256 for None and count - 1 more;
      ObjectNull for one None; any other record is read through the table,
      where an empty slot is a TypeError. The result carries the new
      `null_count`. */
  function ReadMemberRecord(s: Bytes, pos: nat, rd: Reader, pending: int): (r: Result<Step<(Value, int)>>)
    requires pos <= |s|
    ensures r.Ok? ==> pos < r.value.next <= |s|
    ensures r.Ok? && Good(rd) ==> Good(r.value.reader)
    decreases |s| - pos, 0, 0
  {
    var b :- ReadByte(s, pos);
    var t :- RecordTypeOf(b.0 as int);
    if t == ObjectNullMultiple then
      var n :- ReadInt32(s, b.1);
      Ok(Step((Ref(|rd.cells|), n.0 - 1), n.1, rd.(cells := rd.cells + [0])))
    else if t == ObjectNullMultiple256 then
      var n :- ReadCount(s, b.1);
      Ok(Step((NullValue, n.0 - 1), n.1, rd))
    else if t == ObjectNull then Ok(Step((NullValue, pending), b.1, rd))
    else if !HasReader(t) then Err(TypeError)
    else
      var v :- ReadRecordBody(s, b.1, rd, t);
      if v.value == NullValue then Err(MemberExpectedValue)
      else Ok(Step((v.value, pending), v.next, v.reader))
  }

  /** `read_object_array`: a stream id, a length (negative: refused by a
      strict formatter, 0 otherwise), the elements read by the loop as the
      source writes it, and the ObjectArray registered under a fresh store id. */
  function ReadObjectArray(s: Bytes, pos: nat, rd: Reader): (r: Result<Step<Value>>)
    requires pos <= |s|
    ensures r.Ok? ==> pos + 8 <= r.value.next <= |s|
    ensures r.Ok? ==> var length := Int32Field(s, pos, 1);
                      && r.value.value.Obj?
                      && r.value.value.storeId in r.value.reader.store.objects
                      && r.value.reader.store.objects[r.value.value.storeId].ObjectArrayInstance?
                      && |r.value.reader.store.objects[r.value.value.storeId].data| >= length
                      && NoneCount(r.value.reader.store.objects[r.value.value.storeId].data) >= length
    ensures r.Ok? && Good(rd) ==> Good(r.value.reader)
    decreases |s| - pos, 1, 0
  {
    var sid :- ReadInt32(s, pos);
    var length :- ReadInt32(s, sid.1);
    var n :- ArrayLength(length.0, rd.strict);
    var items :- ReadObjectItemsAsWritten(s, length.1, rd, 0, n);
    var (id, rd1) := Register(items.reader, sid.0, ObjectArrayInstance(items.value));
    Ok(Step(Obj(id), items.next, rd1))
  }

  /** The element loop of `read_object_array`, corrected: it runs while
      `count < length`; a null-run record adds its count of Nones (and a
      negative count adds none but lowers `count`); every other record is one
      element. */
  function ReadObjectItems(s: Bytes, pos: nat, rd: Reader, count: int, length: int): (r: Result<Step<seq<Value>>>)
    requires pos <= |s|
    ensures r.Ok? ==> pos <= r.value.next <= |s|
    ensures r.Ok? ==> |r.value.value| >= length - count
    ensures r.Ok? && Good(rd) ==> Good(r.value.reader)
    decreases |s| - pos, 0, 0
  {
    if count >= length then Ok(Step([], pos, rd))
    else
      var b :- ReadByte(s, pos);
      var t :- RecordTypeOf(b.0 as int);
      if t == ObjectNullMultiple256 || t == ObjectNullMultiple then
        var n :- if t == ObjectNullMultiple then ReadInt32(s, b.1) else ReadCount(s, b.1);
        var rest :- ReadObjectItems(s, n.1, rd, count + n.0, length);
        Ok(Step(Nulls(NullValue, n.0) + rest.value, rest.next, rest.reader))
      else if !HasReader(t) then Err(TypeError)
      else
        var v :- ReadRecordBody(s, b.1, rd, t);
        var rest :- ReadObjectItems(s, v.next, v.reader, count + 1, length);
        Ok(Step([v.value] + rest.value, rest.next, rest.reader))
  }

  /** A Primitive member: a value of the primitive type its extra information
      names. A member built from a record always carries one; any other extra
      information is refused. */
  function ReadMemberPrimitive(s: Bytes, pos: nat, extra: ExtraInfo): (r: Result<(Value, nat)>)
    requires pos <= |s|
    ensures r.Ok? ==> pos < r.value.1 <= |s| && r.value.0.Prim?
    ensures !extra.PrimitiveInfo? ==> r == Err(InvalidExtraInfo)
    ensures extra.PrimitiveInfo? ==>
              (r.Ok? <==> ReadPrimitiveValue(s, pos, extra.primitive).Ok?)
              && (r.Ok? ==> (r.value.0.primitive, r.value.1) == ReadPrimitiveValue(s, pos, extra.primitive).value)
  {
    match extra
    case PrimitiveInfo(p) =>
      var v :- ReadPrimitiveValue(s, pos, p);
      Ok((Prim(v.0), v.1))
    case _ => Err(InvalidExtraInfo)
  }

  // ---------------------------------------------------------------------------
  // Properties of the member loop and the element loop

  /** m Nones in front of the values of a successful read. */
  function PrependNulls(m: int, r: Result<Step<seq<Value>>>): Result<Step<seq<Value>>>
  {
    match r
    case Err(e) => Err(e)
    case Ok(st) => Ok(Step(Nulls(NullValue, m) + st.value, st.next, st.reader))
  }

  /** One member under a positive `null_count` is None. */
  lemma {:induction false} PendingStep(s: Bytes, pos: nat, rd: Reader, members: seq<Member>, k: nat, pending: int)
    requires pos <= |s| && k < |members| && pending > 0
    ensures ReadMembers(s, pos, rd, members, k, pending)
            == PrependNulls(1, ReadMembers(s, pos, rd, members, k + 1, pending - 1))
  {
    assert Nulls(NullValue, 1) == [NullValue];
  }

  // ---------------------------------------------------------------------------
  // The element loop of `read_object_array` as written

  /** The element loop as the source writes it: a record that is not a null
      run is appended without raising `count`, so the loop goes on reading
      records until null runs make up the whole length, or the stream runs out
      or holds a byte that is not a record. */
  function ReadObjectItemsAsWritten(s: Bytes, pos: nat, rd: Reader, count: int, length: int): (r: Result<Step<seq<Value>>>)
    requires pos <= |s|
    ensures r.Ok? ==> pos <= r.value.next <= |s|
    ensures r.Ok? ==> NoneCount(r.value.value) >= length - count
    ensures r.Ok? ==> |r.value.value| >= length - count
    ensures r.Ok? && Good(rd) ==> Good(r.value.reader)
    decreases |s| - pos, 0, 0
  {
    if count >= length then Ok(Step([], pos, rd))
    else
      var b :- ReadByte(s, pos);
      var t :- RecordTypeOf(b.0 as int);
      if t == ObjectNullMultiple256 || t == ObjectNullMultiple then
        var n :- if t == ObjectNullMultiple then ReadInt32(s, b.1) else ReadCount(s, b.1);
        var rest :- ReadObjectItemsAsWritten(s, n.1, rd, count + n.0, length);
        NoneCountAppend(Nulls(NullValue, n.0), rest.value);
        NoneCountNulls(n.0);
        Ok(Step(Nulls(NullValue, n.0) + rest.value, rest.next, rest.reader))
      else if !HasReader(t) then Err(TypeError)
      else
        var v :- ReadRecordBody(s, b.1, rd, t);
        var rest :- ReadObjectItemsAsWritten(s, v.next, v.reader, count, length);
        NoneCountAppend([v.value], rest.value);
        Ok(Step([v.value] + rest.value, rest.next, rest.reader))
  }

  /** The number of Nones among the values. */
  function NoneCount(vs: seq<Value>): nat
  {
    if |vs| == 0 then 0 else (if vs[0].NullValue? then 1 else 0) + NoneCount(vs[1..])
  }

  lemma {:induction false} NoneCountAppend(a: seq<Value>, b: seq<Value>)
    ensures NoneCount(a + b) == NoneCount(a) + NoneCount(b)
  {
    if |a| > 0 {
      assert (a + b)[1..] == a[1..] + b;
      NoneCountAppend(a[1..], b);
    } else {
      assert a + b == b;
    }
  }

  /** A null run of n holds n Nones (none when n is negative). */
  lemma {:induction false} NoneCountNulls(n: int)
    ensures NoneCount(Nulls(NullValue, n)) == if n < 0 then 0 else n
    decreases if n < 0 then 0 else n
  {
    if n > 0 {
      assert Nulls(NullValue, n)[1..] == Nulls(NullValue, n - 1);
      NoneCountNulls(n - 1);
    }
  }

  /** The bytes of a one-element ObjectArray body: a MemberReference to
      object 2, then MessageEnd. */
  predicate OneReference(s: Bytes)
  {
    |s| == 6 && s[0] == 9 && s[1] == 2 && s[2] == 0 && s[3] == 0 && s[4] == 0 && s[5] == 11
  }

  /** The MemberReference as a record body: a reference to a new cell. */
  lemma {:induction false} ReferenceElement(s: Bytes, rd: Reader)
    requires OneReference(s)
    ensures var r := ReadRecordBody(s, 1, rd, MemberReference);
            r.Ok? && r.value.next == 5 && r.value.value == Ref(|rd.cells|)
  {
    assert ReadRecordBody(s, 1, rd, MemberReference) == ReadReference(s, 1, rd);
  }

  /** The first record is a MemberReference. */
  lemma {:induction false} FirstIsReference(s: Bytes)
    requires OneReference(s)
    ensures ReadByte(s, 0) == Ok((9, 1)) && RecordTypeOf(9) == Ok(MemberReference)
  {
  }

  /** MessageEnd at the end of the array has no reader. */
  lemma {:induction false} EndHasNoReader(s: Bytes)
    requires OneReference(s)
    ensures ReadByte(s, 5) == Ok((11, 6)) && RecordTypeOf(11) == Ok(MessageEnd) && !HasReader(MessageEnd)
  {
  }

  /** An ObjectArray of length 1 whose one element is a MemberReference to
      object 2, followed by MessageEnd: the loop as written reads on past the
      element into the MessageEnd byte, which has no reader. */
  lemma {:induction false} ObjectItemsAsWrittenExample(s: Bytes, rd: Reader)
    requires OneReference(s)
    ensures ReadObjectItemsAsWritten(s, 0, rd, 0, 1) == Err(TypeError)
  {
    FirstIsReference(s);
    ReferenceElement(s, rd);
    EndHasNoReader(s);
    var v := ReadRecordBody(s, 1, rd, MemberReference);
    assert ReadObjectItemsAsWritten(s, 5, v.value.reader, 0, 1) == Err(TypeError);
  }

  /** The same array under the corrected loop: one element, and the loop
      stops in front of MessageEnd. */
  lemma {:induction false} ObjectItemsExample(s: Bytes, rd: Reader)
    requires OneReference(s)
    ensures var r := ReadObjectItems(s, 0, rd, 0, 1);
            r.Ok? && r.value.value == [Ref(|rd.cells|)] && r.value.next == 5
  {
    FirstIsReference(s);
    ReferenceElement(s, rd);
    var v := ReadRecordBody(s, 1, rd, MemberReference);
    assert ReadObjectItems(s, 5, v.value.reader, 1, 1) == Ok(Step([], 5, v.value.reader));
  }
}
