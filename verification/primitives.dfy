/** Primitive values (dotnet/primitives.py): the primitive-tag to class table,
    each class's fixed byte size, decoding from the wire bytes, the range
    normalisation applied to Python integers, and DateTime's split of a 64-bit
    value into 62 bits of ticks and 2 bits of kind (section 2.1.1.5 of
    [MS-NRBF]).
 */
module Primitives {
  import opened Wrappers
  import opened Bytes
  import opened Enums
  import VarInt
  import DecimalText

  // ---------------------------------------------------------------------------
  // Classes and the `_Types` table

  /** The concrete subclasses of `Primitive`. */
  datatype PrimitiveClass =
    | BooleanClass | ByteClass | CharClass | DecimalClass | DoubleClass | Int16Class
    | Int32Class | Int64Class | Int8Class | SingleClass | TimeSpanClass | DateTimeClass
    | UInt16Class | UInt32Class | UInt64Class | StringClass

  /** The `type` property of each class. */
  function TypeOf(c: PrimitiveClass): PrimitiveType
  {
    match c
    case BooleanClass => Boolean
    case ByteClass => Byte
    case CharClass => Char
    case DecimalClass => Decimal
    case DoubleClass => Double
    case Int16Class => Int16
    case Int32Class => Int32
    case Int64Class => Int64
    case Int8Class => SByte
    case SingleClass => Single
    case TimeSpanClass => TimeSpan
    case DateTimeClass => DateTime
    case UInt16Class => UInt16
    case UInt32Class => UInt32
    case UInt64Class => UInt64
    case StringClass => StringValue
  }

  /** `Primitive._Types`, indexed by primitive tag. */
  const Table: seq<Option<PrimitiveClass>> := [
    None, Some(BooleanClass), Some(ByteClass), Some(CharClass), None,
    Some(DecimalClass), Some(DoubleClass), Some(Int16Class), Some(Int32Class),
    Some(Int64Class), Some(Int8Class), Some(SingleClass), Some(TimeSpanClass),
    Some(DateTimeClass), Some(UInt16Class), Some(UInt32Class), Some(UInt64Class),
    None, Some(StringClass)
  ]

  /** `Primitive.get_class`: ValueError where the table holds None. */
  function GetClass(t: PrimitiveType): (r: Result<PrimitiveClass>)
    ensures r.Err? <==> t == Null
    ensures r.Ok? ==> TypeOf(r.value) == t
  {
    match Table[PrimitiveTag(t)]
    case None => Err(NoPrimitiveClass)
    case Some(c) => Ok(c)
  }

  /** The table is empty exactly at tags 0, 4 and 17, and each class sits at the
      tag of its own `type`. */
  lemma {:induction false} TableShape(tag: nat)
    requires tag < |Table|
    ensures Table[tag].None? <==> tag == 0 || tag == 4 || tag == 17
    ensures Table[tag].Some? ==> PrimitiveTag(TypeOf(Table[tag].value)) == tag
  {
  }

  /** Looking up the `type` of a class finds that class. */
  lemma {:induction false} GetClassOfType(c: PrimitiveClass)
    ensures GetClass(TypeOf(c)) == Ok(c)
  {
  }

  /** `byte_size`: the width of a fixed-size encoding, -1 for the classes whose
      encoding is variable-length. */
  function ByteSize(c: PrimitiveClass): int
  {
    match c
    case BooleanClass => 1
    case ByteClass => 1
    case Int8Class => 1
    case Int16Class => 2
    case UInt16Class => 2
    case Int32Class => 4
    case UInt32Class => 4
    case SingleClass => 4
    case Int64Class => 8
    case UInt64Class => 8
    case DoubleClass => 8
    case DateTimeClass => 8
    case TimeSpanClass => 8
    case CharClass => -1
    case DecimalClass => -1
    case StringClass => -1
  }

  predicate IsVariableSize(c: PrimitiveClass) {
    c == CharClass || c == DecimalClass || c == StringClass
  }

  /** The classes read as a little-endian integer of `byte_size` bytes. */
  predicate IsInteger(c: PrimitiveClass) {
    c in {ByteClass, Int8Class, Int16Class, Int32Class, Int64Class, TimeSpanClass,
          UInt16Class, UInt32Class, UInt64Class}
  }

  predicate IsSigned(c: PrimitiveClass) {
    c in {Int8Class, Int16Class, Int32Class, Int64Class, TimeSpanClass}
  }

  /** Sizes split the classes into variable-length ones (-1) and fixed-size
      ones of 1, 2, 4 or 8 bytes. */
  lemma {:induction false} ByteSizeShape(c: PrimitiveClass)
    ensures ByteSize(c) == -1 <==> IsVariableSize(c)
    ensures !IsVariableSize(c) ==> ByteSize(c) in {1, 2, 4, 8}
    ensures IsInteger(c) ==> !IsVariableSize(c)
  {
  }

  // ---------------------------------------------------------------------------
  // Values

  datatype DateTimeKind = NoTimeZone | UtcTime | LocalTime

  function KindTag(k: DateTimeKind): nat
  {
    match k
    case NoTimeZone => 0
    case UtcTime => 1
    case LocalTime => 2
  }

  /** `DateTime.Kind(b)` */
  function KindOf(b: int): (r: Result<DateTimeKind>)
    ensures r.Ok? <==> 0 <= b <= 2
    ensures r.Ok? ==> KindTag(r.value) == b
  {
    if b == 0 then Ok(NoTimeZone)
    else if b == 1 then Ok(UtcTime)
    else if b == 2 then Ok(LocalTime)
    else Err(UnknownEnumValue)
  }

  const TicksModulus: int := 0x4000_0000_0000_0000
  const AdjustModulus: int := 0x2000_0000_0000_0000
  const Word64: int := 0x1_0000_0000_0000_0000

  /** The ticks a DateTime can hold: `convert` produces 0 <= t < 2^62 from an
      integer and `_adjust_ticks` produces -2^61 <= t < 2^61 from a tuple. */
  type Ticks = t: int | -AdjustModulus <= t < TicksModulus

  datatype DateTimeFields = DateTimeFields(ticks: Ticks, kind: DateTimeKind)

  /** A decoded primitive. Floating-point and UTF-8 payloads stay as bytes. */
  datatype Primitive =
    | BooleanValue(flag: bool)
    | IntegerValue(cls: PrimitiveClass, number: int)
    | FloatBits(cls: PrimitiveClass, raw: Bytes)
    | DateTimeValue(date: DateTimeFields)
    | CharText(utf8: Bytes)
    | DecimalTextValue(text: Bytes)
    | StringText(utf8: Bytes)

  // ---------------------------------------------------------------------------
  // Integer normalisation

  /** Python's `v & (m - 1)` for m a power of two: the residue of v in [0, m). */
  function MaskNonNegative(v: int, m: nat): int
    requires m > 0
  {
    v % m
  }

  /** Python's `~((~v) & (m - 1))`: the mask applied to the complement. */
  function MaskNegative(v: int, m: nat): int
    requires m > 0
  {
    -((-v - 1) % m) - 1
  }

  lemma {:induction false} MultipleAtLeast(k: int, m: int)
    requires k >= 1 && m > 0
    ensures k * m >= m
  {
  }

  /** Euclidean division is unique: a quotient and a remainder in [0, m) that
      rebuild x are x / m and x % m. */
  lemma {:induction false} DivModUnique(x: int, m: int, a: int, b: int)
    requires m > 0 && 0 <= b < m && x == a * m + b
    ensures x / m == a && x % m == b
  {
    var q := x / m;
    var r := x % m;
    assert x == q * m + r;
    assert (a - q) * m == r - b;
    if a > q {
      MultipleAtLeast(a - q, m);
    } else if a < q {
      MultipleAtLeast(q - a, m);
    }
  }

  /** Both masks keep v's residue modulo m; the first lands in [0, m), the
      second in [-m, 0). */
  lemma {:induction false} MaskFacts(v: int, m: nat)
    requires m > 0
    ensures 0 <= MaskNonNegative(v, m) < m
    ensures MaskNonNegative(v, m) % m == v % m
    ensures -(m as int) <= MaskNegative(v, m) < 0
    ensures MaskNegative(v, m) % m == v % m
  {
    var q := (-v - 1) / m;
    var rem := (-v - 1) % m;
    assert -v - 1 == q * m + rem;
    var w := MaskNegative(v, m);
    assert w == v + q * m;
    var a := v / m;
    var b := v % m;
    assert v == a * m + b;
    assert w == (a + q) * m + b;
    DivModUnique(w, m, a + q, b);
    DivModUnique(MaskNonNegative(v, m), m, 0, b);
  }

  /** 2^(8 * byte_size) for each integer class. */
  function Modulus(c: PrimitiveClass): nat
    requires IsInteger(c)
  {
    match c
    case ByteClass | Int8Class => 0x100
    case Int16Class | UInt16Class => 0x1_0000
    case Int32Class | UInt32Class => 0x1_0000_0000
    case _ => 0x1_0000_0000_0000_0000
  }

  lemma {:induction false} ModulusIsPow256(c: PrimitiveClass)
    requires IsInteger(c)
    ensures ByteSize(c) > 0 && Pow256(ByteSize(c)) == Modulus(c)
  {
    assert Pow256(1) == 0x100;
    assert Pow256(2) == 0x1_0000;
    assert Pow256(4) == 0x1_0000_0000;
    assert Pow256(8) == 0x1_0000_0000_0000_0000;
  }

  /** The modulus of the mask `convert` applies: 2^(bits-1) for signed classes
      (mask `0x7F…`), 2^bits for unsigned ones (mask `0xFF…`). */
  function MaskModulus(c: PrimitiveClass): (m: nat)
    requires IsInteger(c)
    ensures m > 0
  {
    if IsSigned(c) then Modulus(c) / 2 else Modulus(c)
  }

  /** The inclusive range of each class, which `convert` leaves alone. */
  function Low(c: PrimitiveClass): int
    requires IsInteger(c)
  {
    if IsSigned(c) then -(Modulus(c) / 2) else 0
  }

  function High(c: PrimitiveClass): int
    requires IsInteger(c)
  {
    if IsSigned(c) then Modulus(c) / 2 - 1 else Modulus(c) - 1
  }

  /** `convert(int)` of the integer classes, as written: a value above the
      range is masked with `0x7F…` (signed) or `0xFF…` (unsigned), a value
      below it has the same mask applied to its complement. The result keeps
      the input's sign and its residue modulo the mask's modulus. */
  function Normalize(c: PrimitiveClass, v: int): (r: int)
    requires IsInteger(c)
    ensures Low(c) <= v <= High(c) ==> r == v
    ensures v >= 0 ==> 0 <= r < MaskModulus(c)
    ensures v < 0 ==> -(MaskModulus(c) as int) <= r < 0
    ensures r % MaskModulus(c) == v % MaskModulus(c)
  {
    var m := MaskModulus(c);
    MaskFacts(v, m);
    if v > High(c) then MaskNonNegative(v, m)
    else if v < Low(c) then MaskNegative(v, m)
    else v
  }

  /** Signed classes: the result is always in range and keeps the sign, so it
      is not two's-complement wrapping (Int8 of 128 is 0, not -128). */
  lemma {:induction false} SignedNormalizeInRange(c: PrimitiveClass, v: int)
    requires IsInteger(c) && IsSigned(c)
    ensures Low(c) <= Normalize(c, v) <= High(c)
    ensures (v >= 0) == (Normalize(c, v) >= 0)
  {
  }

  lemma {:induction false} Int8Examples()
    ensures Normalize(Int8Class, 128) == 0
    ensures Normalize(Int8Class, 200) == 72
    ensures Normalize(Int8Class, -129) == -1
    ensures Normalize(Int8Class, -200) == -72
  {
  }

  /** Unsigned classes as written: a negative input stays negative, so the
      value held is outside the class's range (Byte of -1 is -1). */
  lemma {:induction false} UnsignedNegativeExample()
    ensures Normalize(ByteClass, -1) == -1
    ensures Normalize(UInt16Class, -2) == -2
    ensures !(Low(ByteClass) <= Normalize(ByteClass, -1) <= High(ByteClass))
  {
  }

  /** Integer normalisation as evidently intended for the unsigned classes:
      wrap modulo 2^bits, which always lands in range. Signed classes keep the
      source's rule. */
  function NormalizeCorrected(c: PrimitiveClass, v: int): (r: int)
    requires IsInteger(c)
    ensures Low(c) <= r <= High(c)
    ensures Low(c) <= v <= High(c) ==> r == v
    ensures r % MaskModulus(c) == v % MaskModulus(c)
  {
    if IsSigned(c) then
      SignedNormalizeInRange(c, v);
      Normalize(c, v)
    else v % Modulus(c)
  }

  /** Normalising twice changes nothing more. */
  lemma {:induction false} NormalizeIdempotent(c: PrimitiveClass, v: int)
    requires IsInteger(c)
    ensures IsSigned(c) ==> Normalize(c, Normalize(c, v)) == Normalize(c, v)
    ensures NormalizeCorrected(c, NormalizeCorrected(c, v)) == NormalizeCorrected(c, v)
  {
    if IsSigned(c) {
      SignedNormalizeInRange(c, v);
    }
  }

  // ---------------------------------------------------------------------------
  // Decoding from bytes

  /** The integer a class reads from exactly `byte_size` bytes: two's
      complement for the signed classes, unsigned otherwise. */
  function DecodeInteger(c: PrimitiveClass, bs: Bytes): (r: Result<int>)
    requires IsInteger(c)
    ensures r.Ok? <==> |bs| == ByteSize(c)
    ensures r.Ok? ==> Low(c) <= r.value <= High(c)
    ensures r.Ok? && r.value >= 0 ==> r.value == LeUnsigned(bs)
    ensures r.Ok? && r.value < 0 ==> r.value + Modulus(c) == LeUnsigned(bs)
  {
    if |bs| != ByteSize(c) then Err(WrongByteCount)
    else
      ModulusIsPow256(c);
      LeUnsignedBound(bs);
      if IsSigned(c) then Ok(LeSigned(bs)) else Ok(LeUnsigned(bs))
  }

  /** Two's complement of an in-range value, as `to_bytes` would lay it out. */
  function EncodeInteger(c: PrimitiveClass, v: int): (r: Bytes)
    requires IsInteger(c) && Low(c) <= v <= High(c)
    ensures |r| == ByteSize(c)
  {
    ModulusIsPow256(c);
    LeEncode(if v < 0 then v + Modulus(c) else v, ByteSize(c))
  }

  /** Decoding the bytes of any in-range value gives the value back. */
  lemma {:induction false} DecodeEncodeInteger(c: PrimitiveClass, v: int)
    requires IsInteger(c) && Low(c) <= v <= High(c)
    ensures DecodeInteger(c, EncodeInteger(c, v)) == Ok(v)
  {
    ModulusIsPow256(c);
    LeDecodeEncode(if v < 0 then v + Modulus(c) else v, ByteSize(c));
  }

  /** `DateTime._adjust_ticks`: values outside [-2^61, 2^61) are masked with
      `0x1FFF…` as in `Normalize`. */
  function AdjustTicks(t: int): (r: Ticks)
    ensures -AdjustModulus <= r < AdjustModulus
    ensures -AdjustModulus <= t < AdjustModulus ==> r == t
    ensures (t >= 0) == (r >= 0)
    ensures (r - t) % AdjustModulus == 0
  {
    if t < -AdjustModulus then MaskNegative(t, AdjustModulus)
    else if t > AdjustModulus - 1 then MaskNonNegative(t, AdjustModulus)
    else t
  }

  /** `DateTime.convert(int)`: kind from bits 62-63 and ticks from the low 62
      bits of the value's two's-complement pattern; kind 3 is a ValueError. */
  function DateTimeFromInt(v: int): (r: Result<DateTimeFields>)
    ensures r.Ok? <==> (v % Word64) / TicksModulus != 3
    ensures r.Ok? ==> 0 <= r.value.ticks && KindTag(r.value.kind) * TicksModulus + r.value.ticks == v % Word64
  {
    var kind :- KindOf((v % Word64) / TicksModulus);
    Ok(DateTimeFields(v % TicksModulus, kind))
  }

  /** `DateTime.__int__`: `kind << 62 | ticks`. With ticks in [0, 2^62) the
      OR is a sum; a negative tick count already has bits 62 and up set, so the
      OR gives the ticks themselves. */
  function DateTimeToInt(d: DateTimeFields): int
  {
    if d.ticks >= 0 then KindTag(d.kind) * TicksModulus + d.ticks else d.ticks
  }

  /** `int(DateTime(v)) == v` on the 64-bit unsigned pattern of v, and
      `DateTime(int(d)) == d` whenever d's ticks are not negative. */
  lemma {:induction false} DateTimeIntRoundTrip(v: int, d: DateTimeFields)
    ensures DateTimeFromInt(v).Ok? ==> DateTimeToInt(DateTimeFromInt(v).value) == v % Word64
    ensures d.ticks >= 0 ==> DateTimeFromInt(DateTimeToInt(d)) == Ok(d)
  {
    if d.ticks >= 0 {
      var w := DateTimeToInt(d);
      assert 0 <= w < Word64;
      assert w % Word64 == w;
      assert w / TicksModulus == KindTag(d.kind);
      assert w % TicksModulus == d.ticks;
    }
  }

  /** A DateTime built with negative ticks cannot be rebuilt from its integer:
      the bits above 61 read as the rejected kind 3. */
  lemma {:induction false} NegativeTicksExample()
    ensures DateTimeToInt(DateTimeFields(-1, UtcTime)) == -1
    ensures DateTimeFromInt(-1) == Err(UnknownEnumValue)
  {
  }

  /** `DateTime.convert(bytes)`: exactly eight bytes, read as a signed integer. */
  function DateTimeFromBytes(bs: Bytes): (r: Result<DateTimeFields>)
    ensures |bs| != 8 ==> r == Err(WrongByteCount)
    ensures |bs| == 8 ==> (r.Ok? <==> LeUnsigned(bs) / TicksModulus != 3)
    ensures r.Ok? ==> r.value.ticks == LeUnsigned(bs) % TicksModulus
    ensures r.Ok? ==> KindTag(r.value.kind) == LeUnsigned(bs) / TicksModulus
    ensures r.Ok? ==> DateTimeToInt(r.value) == LeUnsigned(bs)
  {
    if |bs| != 8 then Err(WrongByteCount)
    else
      assert Pow256(8) == Word64;
      LeUnsignedBound(bs);
      var v := LeSigned(bs);
      assert v % Word64 == LeUnsigned(bs);
      DateTimeIntRoundTrip(v, DateTimeFields(0, NoTimeZone));
      DateTimeFromInt(v)
  }

  /** `Boolean.convert(bytes)`: `struct.unpack('?', …)` needs one byte and
      reads any non-zero byte as true. */
  function BooleanFromBytes(bs: Bytes): (r: Result<bool>)
    ensures r.Ok? <==> |bs| == 1
    ensures r.Ok? ==> (r.value <==> bs[0] != 0)
  {
    if |bs| != 1 then Err(WrongByteCount) else Ok(bs[0] != 0)
  }

  /** `String.convert(bytes)`: the payload must itself start with a
      variable-length integer announcing exactly the bytes that follow it. */
  function StringFromBytes(bs: Bytes): (r: Result<Bytes>)
    ensures r.Ok? <==> VarInt.Decode(bs).Ok?
                       && |bs| == VarInt.Decode(bs).value.0 + VarInt.Decode(bs).value.1
    ensures r.Ok? ==> bs == bs[..VarInt.Decode(bs).value.0] + r.value
  {
    var d :- VarInt.Decode(bs);
    if |bs| != d.0 + d.1 then Err(StringLengthMismatch)
    else
      assert bs == bs[..d.0] + bs[d.0..];
      Ok(bs[d.0..])
  }

  /** `cls(bs)` for a class of fixed byte size, as `read_primitive_type` and
      `read_primitive_array` construct it from `fp.read(byte_size)`. */
  function FromFixedBytes(c: PrimitiveClass, bs: Bytes): (r: Result<Primitive>)
    requires !IsVariableSize(c)
    ensures r.Ok? ==> |bs| == ByteSize(c)
    ensures c != DateTimeClass ==> (r.Ok? <==> |bs| == ByteSize(c))
    ensures IsInteger(c) && r.Ok? ==> r.value == IntegerValue(c, DecodeInteger(c, bs).value)
  {
    if c == BooleanClass then
      var b :- BooleanFromBytes(bs);
      Ok(BooleanValue(b))
    else if c == DateTimeClass then
      var d :- DateTimeFromBytes(bs);
      Ok(DateTimeValue(d))
    else if c == DoubleClass || c == SingleClass then
      if |bs| != ByteSize(c) then Err(WrongByteCount) else Ok(FloatBits(c, bs))
    else
      var v :- DecodeInteger(c, bs);
      Ok(IntegerValue(c, v))
  }

  /** `cls(bs)` for a variable-length class given an undelimited payload, as
      `read_primitive_array` does for String and Decimal. */
  function FromPayload(c: PrimitiveClass, bs: Bytes): (r: Result<Primitive>)
    requires c == StringClass || c == DecimalClass
    ensures c == StringClass && r.Ok? ==> StringFromBytes(bs).Ok? && r.value == StringText(StringFromBytes(bs).value)
    ensures c == DecimalClass && r.Ok? ==> r.value == DecimalTextValue(bs)
    ensures r.Ok? <==> (if c == StringClass then StringFromBytes(bs).Ok? else DecimalText.ConvertBytes(bs).Ok?)
  {
    if c == StringClass then
      var text :- StringFromBytes(bs);
      Ok(StringText(text))
    else
      var text :- DecimalText.ConvertBytes(bs);
      Ok(DecimalTextValue(text))
  }
}
