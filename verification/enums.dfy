/** The enumerations of dotnet/enum.py: record tags (section 2.1.2.1 of
    [MS-NRBF]), binary types, primitive types and binary array types, each with
    its numeric tag and the IntEnum constructor that maps a tag back, failing
    with a ValueError on a tag that names no member.
 */
module Enums {
  import opened Wrappers

  // ---------------------------------------------------------------------------
  // RecordType

  datatype RecordType =
    | SerializedStreamHeader | ClassWithId | SystemClassWithMembers | ClassWithMembers
    | SystemClassWithMembersAndTypes | ClassWithMembersAndTypes | BinaryObjectString
    | BinaryArray | MemberPrimitiveTyped | MemberReference | ObjectNull | MessageEnd
    | BinaryLibrary | ObjectNullMultiple256 | ObjectNullMultiple | ArraySinglePrimitive
    | ArraySingleObject | ArraySingleString | MethodCall | MethodReturn

  function RecordTag(t: RecordType): nat
  {
    match t
    case SerializedStreamHeader => 0
    case ClassWithId => 1
    case SystemClassWithMembers => 2
    case ClassWithMembers => 3
    case SystemClassWithMembersAndTypes => 4
    case ClassWithMembersAndTypes => 5
    case BinaryObjectString => 6
    case BinaryArray => 7
    case MemberPrimitiveTyped => 8
    case MemberReference => 9
    case ObjectNull => 10
    case MessageEnd => 11
    case BinaryLibrary => 12
    case ObjectNullMultiple256 => 13
    case ObjectNullMultiple => 14
    case ArraySinglePrimitive => 15
    case ArraySingleObject => 16
    case ArraySingleString => 17
    case MethodCall => 18
    case MethodReturn => 22
  }

  /** `RecordType(b)`: the member with tag b; tags 19-21 and anything above 22
      name no member. */
  function RecordTypeOf(b: int): (r: Result<RecordType>)
    ensures r.Ok? <==> (0 <= b <= 18 || b == 22)
    ensures r.Ok? ==> RecordTag(r.value) == b
  {
    if b == 0 then Ok(SerializedStreamHeader)
    else if b == 1 then Ok(ClassWithId)
    else if b == 2 then Ok(SystemClassWithMembers)
    else if b == 3 then Ok(ClassWithMembers)
    else if b == 4 then Ok(SystemClassWithMembersAndTypes)
    else if b == 5 then Ok(ClassWithMembersAndTypes)
    else if b == 6 then Ok(BinaryObjectString)
    else if b == 7 then Ok(BinaryArray)
    else if b == 8 then Ok(MemberPrimitiveTyped)
    else if b == 9 then Ok(MemberReference)
    else if b == 10 then Ok(ObjectNull)
    else if b == 11 then Ok(MessageEnd)
    else if b == 12 then Ok(BinaryLibrary)
    else if b == 13 then Ok(ObjectNullMultiple256)
    else if b == 14 then Ok(ObjectNullMultiple)
    else if b == 15 then Ok(ArraySinglePrimitive)
    else if b == 16 then Ok(ArraySingleObject)
    else if b == 17 then Ok(ArraySingleString)
    else if b == 18 then Ok(MethodCall)
    else if b == 22 then Ok(MethodReturn)
    else Err(UnknownEnumValue)
  }

  /** Record tags are pairwise distinct (the `@enum.unique` promise) and every
      tag maps back to its member. */
  lemma {:induction false} RecordTagRoundTrip(t: RecordType, u: RecordType)
    ensures RecordTypeOf(RecordTag(t)) == Ok(t)
    ensures RecordTag(t) == RecordTag(u) ==> t == u
  {
  }

  // ---------------------------------------------------------------------------
  // ClassDefinitionType

  datatype ClassDefinitionType = NotClass | Reference | Partial | Full

  function ClassDefinitionTag(c: ClassDefinitionType): nat
  {
    match c
    case NotClass => 0
    case Reference => 1
    case Partial => 2
    case Full => 3
  }

  /** `ClassDefinitionType.get`: how much class metadata a record carries. */
  function ClassDefinitionOf(t: RecordType): (r: ClassDefinitionType)
    ensures r == Full <==> RecordTag(t) in {4, 5}
    ensures r == Partial <==> RecordTag(t) in {2, 3}
    ensures r == Reference <==> RecordTag(t) == 1
    ensures r == NotClass <==> RecordTag(t) !in {1, 2, 3, 4, 5}
  {
    if t == ClassWithMembersAndTypes || t == SystemClassWithMembersAndTypes then Full
    else if t == ClassWithMembers || t == SystemClassWithMembers then Partial
    else if t == ClassWithId then Reference
    else NotClass
  }

  // ---------------------------------------------------------------------------
  // BinaryType

  datatype BinaryType =
    | Primitive | String | Object | SystemClass | Class | ObjectArray | StringArray | PrimitiveArray

  function BinaryTag(t: BinaryType): nat
  {
    match t
    case Primitive => 0
    case String => 1
    case Object => 2
    case SystemClass => 3
    case Class => 4
    case ObjectArray => 5
    case StringArray => 6
    case PrimitiveArray => 7
  }

  /** `BinaryType(b)` */
  function BinaryTypeOf(b: int): (r: Result<BinaryType>)
    ensures r.Ok? <==> 0 <= b <= 7
    ensures r.Ok? ==> BinaryTag(r.value) == b
  {
    if b == 0 then Ok(Primitive)
    else if b == 1 then Ok(String)
    else if b == 2 then Ok(Object)
    else if b == 3 then Ok(SystemClass)
    else if b == 4 then Ok(Class)
    else if b == 5 then Ok(ObjectArray)
    else if b == 6 then Ok(StringArray)
    else if b == 7 then Ok(PrimitiveArray)
    else Err(UnknownEnumValue)
  }

  lemma {:induction false} BinaryTagRoundTrip(t: BinaryType, u: BinaryType)
    ensures BinaryTypeOf(BinaryTag(t)) == Ok(t)
    ensures BinaryTag(t) == BinaryTag(u) ==> t == u
  {
  }

  // ---------------------------------------------------------------------------
  // PrimitiveType

  datatype PrimitiveType =
    | Boolean | Byte | Char | Decimal | Double | Int16 | Int32 | Int64 | SByte | Single
    | TimeSpan | DateTime | UInt16 | UInt32 | UInt64 | Null | StringValue

  function PrimitiveTag(t: PrimitiveType): nat
  {
    match t
    case Boolean => 1
    case Byte => 2
    case Char => 3
    case Decimal => 5
    case Double => 6
    case Int16 => 7
    case Int32 => 8
    case Int64 => 9
    case SByte => 10
    case Single => 11
    case TimeSpan => 12
    case DateTime => 13
    case UInt16 => 14
    case UInt32 => 15
    case UInt64 => 16
    case Null => 17
    case StringValue => 18
  }

  /** `PrimitiveType(b)`: tags 1-18 except 4. */
  function PrimitiveTypeOf(b: int): (r: Result<PrimitiveType>)
    ensures r.Ok? <==> 1 <= b <= 18 && b != 4
    ensures r.Ok? ==> PrimitiveTag(r.value) == b
  {
    if b == 1 then Ok(Boolean)
    else if b == 2 then Ok(Byte)
    else if b == 3 then Ok(Char)
    else if b == 5 then Ok(Decimal)
    else if b == 6 then Ok(Double)
    else if b == 7 then Ok(Int16)
    else if b == 8 then Ok(Int32)
    else if b == 9 then Ok(Int64)
    else if b == 10 then Ok(SByte)
    else if b == 11 then Ok(Single)
    else if b == 12 then Ok(TimeSpan)
    else if b == 13 then Ok(DateTime)
    else if b == 14 then Ok(UInt16)
    else if b == 15 then Ok(UInt32)
    else if b == 16 then Ok(UInt64)
    else if b == 17 then Ok(Null)
    else if b == 18 then Ok(StringValue)
    else Err(UnknownEnumValue)
  }

  lemma {:induction false} PrimitiveTagRoundTrip(t: PrimitiveType, u: PrimitiveType)
    ensures PrimitiveTypeOf(PrimitiveTag(t)) == Ok(t)
    ensures PrimitiveTag(t) == PrimitiveTag(u) ==> t == u
  {
  }

  // ---------------------------------------------------------------------------
  // BinaryArrayType

  datatype BinaryArrayType =
    | SingleArray | Jagged | Rectangular | SingleOffset | JaggedOffset | RectangularOffset

  function BinaryArrayTag(t: BinaryArrayType): nat
  {
    match t
    case SingleArray => 0
    case Jagged => 1
    case Rectangular => 2
    case SingleOffset => 3
    case JaggedOffset => 4
    case RectangularOffset => 5
  }

  /** `BinaryArrayType(b)` */
  function BinaryArrayTypeOf(b: int): (r: Result<BinaryArrayType>)
    ensures r.Ok? <==> 0 <= b <= 5
    ensures r.Ok? ==> BinaryArrayTag(r.value) == b
  {
    if b == 0 then Ok(SingleArray)
    else if b == 1 then Ok(Jagged)
    else if b == 2 then Ok(Rectangular)
    else if b == 3 then Ok(SingleOffset)
    else if b == 4 then Ok(JaggedOffset)
    else if b == 5 then Ok(RectangularOffset)
    else Err(UnknownEnumValue)
  }

  /** The array shapes that carry per-dimension lower bounds on the wire. */
  predicate HasOffsets(t: BinaryArrayType)
  {
    t == JaggedOffset || t == RectangularOffset || t == SingleOffset
  }

  /** The offset variants are exactly tags 3, 4 and 5. */
  lemma {:induction false} OffsetVariants(t: BinaryArrayType, u: BinaryArrayType)
    ensures HasOffsets(t) <==> BinaryArrayTag(t) in {3, 4, 5}
    ensures !HasOffsets(t) <==> BinaryArrayTag(t) in {0, 1, 2}
    ensures BinaryArrayTypeOf(BinaryArrayTag(t)) == Ok(t)
    ensures BinaryArrayTag(t) == BinaryArrayTag(u) ==> t == u
  {
  }
}
