/** The record-level structures of dotnet/structures.py: the extra type
    information a member or array carries next to its binary type, the class
    and member-type descriptions read from class records, and the run of nulls
    an ObjectNullMultiple record stands for.
 */
module Structures {
  import opened Wrappers
  import opened Bytes
  import opened Enums

  /** ClassTypeInfo (section 2.1.1.8 of [MS-NRBF]): a class name and the stream
      id of the library that defines it. */
  datatype ClassTypeInfo = ClassTypeInfo(className: Bytes, libraryId: int)

  /** The value found in an extra-info slot. Python types the slot loosely; the
      four shapes the reader produces are `PrimitiveType`, `str`,
      `ClassTypeInfo` and `None`, and `OtherValue` stands for a value of any
      other Python type. */
  datatype ExtraInfo =
    | PrimitiveInfo(primitive: PrimitiveType)
    | SystemClassName(name: Bytes)
    | ClassInfoRef(info: ClassTypeInfo)
    | NoInfo
    | OtherValue

  /** ClassInfo (section 2.3.1.1 of [MS-NRBF]). */
  datatype ClassInfo = ClassInfo(objectId: int, name: Bytes, members: seq<Bytes>)

  /** MemberTypeInfo (section 2.3.1.2 of [MS-NRBF]): one binary type and one
      extra-info value per member. */
  datatype MemberTypeInfo = MemberTypeInfo(binaryTypes: seq<BinaryType>, extraInfo: seq<ExtraInfo>)

  /** The shape of extra information a binary type carries on the wire. */
  datatype InfoShape = PrimitiveShape | NameShape | ClassShape | NoShape

  function ShapeOf(t: BinaryType): InfoShape
  {
    match t
    case Primitive | PrimitiveArray => PrimitiveShape
    case SystemClass => NameShape
    case Class => ClassShape
    case _ => NoShape
  }

  function ShapeOfInfo(v: ExtraInfo): Option<InfoShape>
  {
    match v
    case PrimitiveInfo(_) => Some(PrimitiveShape)
    case SystemClassName(_) => Some(NameShape)
    case ClassInfoRef(_) => Some(ClassShape)
    case NoInfo => Some(NoShape)
    case OtherValue => None
  }

  /** `ExtraTypeInfo.validate`: Primitive and PrimitiveArray need a primitive
      type, SystemClass a class name, Class a ClassTypeInfo, and every other
      binary type `None`. */
  predicate Validate(t: BinaryType, v: ExtraInfo)
  {
    if t == Primitive || t == PrimitiveArray then v.PrimitiveInfo?
    else if t == SystemClass then v.SystemClassName?
    else if t == Class then v.ClassInfoRef?
    else v == NoInfo
  }

  /** A value validates exactly when its shape is the one the binary type
      carries; a value of a foreign type never validates. */
  lemma {:induction false} ValidateMeansShape(t: BinaryType, v: ExtraInfo)
    ensures Validate(t, v) <==> ShapeOfInfo(v) == Some(ShapeOf(t))
    ensures v == OtherValue ==> !Validate(t, v)
  {
  }

  /** Every binary type accepts some value and rejects some other one. */
  lemma {:induction false} ValidateDiscriminates(t: BinaryType)
    ensures Validate(t, if ShapeOf(t) == NoShape then NoInfo else OtherValue) <==> ShapeOf(t) == NoShape
    ensures Validate(t, match ShapeOf(t)
                        case PrimitiveShape => PrimitiveInfo(Byte)
                        case NameShape => SystemClassName([])
                        case ClassShape => ClassInfoRef(ClassTypeInfo([], 0))
                        case NoShape => NoInfo)
  {
  }

  /** `ExtraTypeInfo.check`: raises InvalidExtraInfoValue exactly when
      `validate` fails. */
  function Check(t: BinaryType, v: ExtraInfo): (r: Outcome)
    ensures r.Pass? <==> ShapeOfInfo(v) == Some(ShapeOf(t))
    ensures r.Fail? ==> r.error == InvalidExtraInfo
  {
    ValidateMeansShape(t, v);
    Need(Validate(t, v), InvalidExtraInfo)
  }

  /** `len(NullReferenceMultiple(count))`: Python refuses a negative `__len__`
      with a ValueError. */
  function NullRunLength(count: int): (r: Result<nat>)
    ensures r.Ok? <==> count >= 0
    ensures r.Ok? ==> r.value == count
    ensures r.Err? ==> r.error == NegativeLength
  {
    if count < 0 then Err(NegativeLength) else Ok(count)
  }

  /** `list(NullReferenceMultiple(count))`, and equally `[None] * count`:
      `count` copies of the null value, none at all for a count below one. */
  function Nulls<T>(none: T, count: int): (r: seq<T>)
    ensures |r| == if count < 0 then 0 else count
    ensures forall i | 0 <= i < |r| :: r[i] == none
  {
    if count <= 0 then [] else [none] + Nulls(none, count - 1)
  }

  /** Iterating a run yields exactly as many nulls as its length reports. */
  lemma {:induction false} NullRunAgrees<T>(count: int)
    requires NullRunLength(count).Ok?
    ensures |Nulls<Option<T>>(None, count)| == NullRunLength(count).value
  {
  }
}
