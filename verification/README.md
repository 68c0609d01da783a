# A Dafny model of a .NET Remoting Binary Format reader

This project models the reading side of a Python library for the .NET
Remoting Binary Format ([MS-NRBF]): the `BinaryFormatter` of
`dotnet/io/binary.py`, which reads a stream of records into a data store of
instances, classes and libraries, together with everything it depends on.

- The 7-bit variable-length integer of section 2.1.1.6 of [MS-NRBF], which
  prefixes every LengthPrefixedString (`dotnet/utils.py`).
- The record, binary, primitive and binary-array type codes and the class
  record classification (`dotnet/enum.py`).
- The primitive decoders (`dotnet/primitives.py`):
  - fixed-width little-endian integers and the out-of-range normalisation
    of `convert`;
  - the DateTime split into 62 bits of ticks and 2 bits of kind (section
    2.1.1.5 of [MS-NRBF]);
  - the decimal text validator and the integer clamp (section 2.1.1.7 of
    [MS-NRBF]);
  - the primitive-type → class table.
- The extra type information check and the null-run container
  (`dotnet/structures.py`).
- The object model (`dotnet/object.py`):
  - sequential id allocation;
  - library-string parsing and the library id that can be set once;
  - structural class and member equality and member lookup;
  - reference resolution.
- The record-stream reader (`dotnet/io/binary.py`):
  - the header (section 2.6.1 of [MS-NRBF]) and the record loop up to
    MessageEnd;
  - length-prefixed strings and UTF-8 characters;
  - class records and the class registry `build_class`;
  - the three kinds of array (sections 2.4.3.1 and 2.4.3.2 of [MS-NRBF]);
  - null runs (sections 2.5.5 and 2.5.6 of [MS-NRBF]);
  - the stream id → store id map, and the deferred resolution of member
    references.
- The one encoder/decoder pair of the repository (`nrbf/structures.py`):
  `ClassTypeInfo`, `ClassInfo` and `MemberTypeInfo`, written and read
  back.

The stream is a byte sequence with a cursor. Every `read_*` is a pure
function from the bytes, a position and the formatter state to `Ok` of the
value, the new position and the new state, or to `Err` of the exception the
source raises. The exception classes become the `Error` datatype of
`Wrappers`. The formatter's mutable state becomes an immutable `Reader` value
made of four parts:

- the `DataStore`;
- the `ReadState` (root id, versions, stream-id maps, pending references);
- the object id held by each `InstanceReference` (its "cell");
- the strict flag.

| module | file | models |
|---|---|---|
| `Wrappers` | wrappers.dfy | results and errors |
| `Bytes` | bytes.dfy | bytes, little-endian integers, `fp.read` |
| `VarInt` | varint.dfy | `dotnet/utils.py` |
| `Enums` | enums.dfy | `dotnet/enum.py` |
| `Primitives` | primitives.dfy | integer, DateTime, Boolean and String decoding in `dotnet/primitives.py` |
| `DecimalText` | decimal.dfy | `Decimal.verify`, `round`, `convert` |
| `Structures` | structures.dfy | `dotnet/structures.py` |
| `Objects` | objects.dfy | `dotnet/object.py` |
| `Reader` | reader.dfy | formatter state, strings, characters, primitives, header, class metadata, `build_class` |
| `NrbfStructures` | nrbf.dfy | `nrbf/structures.py` write methods and the read/write round trips |
| `Arrays` | arrays.dfy | ArraySinglePrimitive, ArraySingleString, BinaryArray |
| `Records` | records.dfy | record dispatch, class instances, ArraySingleObject |
| `Formatter` | formatter.dfy | `read`, `read_record`, `resolve_references`, `root_object` |

## Model

| member | source | states |
|---|---|---|
| Bytes.LeSigned | dotnet/io/binary.py:257-260 | a little-endian signed read lies in the two's-complement range of its width and agrees with the unsigned reading modulo 256^n |
| Bytes.LeDecodeEncode | dotnet/primitives.py:811-814 | an unsigned value written in n little-endian bytes reads back as itself |
| Bytes.LeEncodeDecode | dotnet/primitives.py:811-814 | every byte string is the n-byte little-endian encoding of its unsigned reading |
| Bytes.EncodeInt32 | nrbf/structures.py:78 | `to_bytes(4, 'little', signed=True)` succeeds exactly on 32-bit signed values and yields four bytes |
| Bytes.Int32RoundTrip | dotnet/io/binary.py:257-260 | every 32-bit value written as four bytes reads back as itself |
| Bytes.Int32Surjective | dotnet/io/binary.py:257-260 | any four bytes are the encoding of exactly the int32 they read as |
| Bytes.ReadByte | dotnet/io/binary.py:409 | `fp.read(1)[0]` succeeds exactly when a byte remains and returns that byte |
| Bytes.ReadAvailable | dotnet/io/binary.py:405 | `fp.read(n)` returns the next n bytes, or all that remain when fewer do |
| Bytes.ReadExact | dotnet/io/binary.py:448 | a read of n bytes succeeds exactly when n bytes remain and returns exactly them |
| Bytes.ReadInt32 | dotnet/io/binary.py:257 | an int32 read succeeds exactly when four bytes remain; the value is the int32 whose encoding those bytes are |
| Bytes.ReadInt32AsWritten | dotnet/io/binary.py:257 | as written, an int32 read never fails: it takes as many of the four bytes as the stream holds and reads them as one signed little-endian number |
| Bytes.ReadInt32AgreesWhenComplete | dotnet/io/binary.py:257 | with four bytes available, the corrected read and the read as written agree |
| Bytes.TruncatedInt32Example | dotnet/io/binary.py:257 | as written, two bytes [1, 0] read as the int32 1; the corrected read fails |
| VarInt.Encode | dotnet/utils.py:7-29 | encoding succeeds exactly on 0..2^31-1; the output is 1 to 5 bytes, all but the last with bit 7 set, the last with bit 7 clear |
| VarInt.EncodeLength | dotnet/utils.py:21-29 | the encoding is minimal: below 2^7 one byte, below 2^14 two, below 2^21 three, below 2^28 four, else five |
| VarInt.EncodeDigits | dotnet/utils.py:16-20 | the 7-bit groups of the encoding add up to the encoded value, for every value the mask keeps |
| VarInt.EncodeDropsBit30 | dotnet/utils.py:16 | as written, a value with bit 30 set encodes exactly like the value without it |
| VarInt.EncodeLosesBit30Example | dotnet/utils.py:16 | as written, 2^30 encodes as [0], which decodes to 0; with the wider mask it encodes as five bytes |
| VarInt.EncodeCorrected | dotnet/utils.py:13-29 | with a 3-bit top mask the encoder accepts the same range and keeps the same byte shape |
| VarInt.Decode | dotnet/utils.py:42-97 | a decode consumes 1 to 5 bytes, no more than it is given, and yields a value in 0..2^31-1 |
| VarInt.DecodeMeaning | dotnet/utils.py:65-95 | decoding succeeds only on a well-formed continuation chain; on a chain of n bytes it returns n and the base-128 value of those bytes |
| VarInt.DecodeIgnoresRest | dotnet/utils.py:65-95 | bytes after a decoded chain do not change the result |
| VarInt.DecodeFailures | dotnet/utils.py:61-97 | decoding fails on empty input, on a chain cut short, on a five-byte value above 2^31-1, and when the fifth byte has bit 7 set |
| VarInt.DecodeEncode | dotnet/utils.py:16-95 | for 0 <= v < 2^30, decoding the encoding of v followed by anything returns its length and v |
| VarInt.DecodeEncodeCorrected | dotnet/utils.py:42-97 | with the corrected mask the round trip holds on the whole range 0..2^31-1 |
| VarInt.DecodeWindow | dotnet/utils.py:65-95 | decoding looks at nothing past the first byte with bit 7 clear, or past the fifth byte |
| VarInt.ReadChainWindow | dotnet/utils.py:106-123 | reading byte by byte until bit 7 is clear, or five bytes, collects exactly the window the decoder needs |
| VarInt.ChainRunsOut | dotnet/utils.py:106-123 | a stream that ends inside a continuation chain of fewer than five bytes gives no value |
| VarInt.ReadVarInt | dotnet/utils.py:100-123 | reading from a stream succeeds exactly when decoding the rest of the stream does, returns the same value, and advances the cursor by exactly the bytes decoded |
| Enums.RecordTypeOf | dotnet/enum.py:5-26 | a byte is a record type exactly when it is 0..18 or 22, and the type carries that tag |
| Enums.RecordTagRoundTrip | dotnet/enum.py:5-26 | record tags are pairwise distinct, and every tag maps back to its type |
| Enums.ClassDefinitionOf | dotnet/enum.py:31-40 | Full exactly for tags 4 and 5, Partial for 2 and 3, Reference for 1, NotClass for every other tag |
| Enums.BinaryTypeOf | dotnet/enum.py:48-57 | a byte is a binary type exactly when it is 0..7 |
| Enums.BinaryTagRoundTrip | dotnet/enum.py:48-57 | binary type tags are distinct and map back to their types |
| Enums.PrimitiveTypeOf | dotnet/enum.py:60-78 | a byte is a primitive type exactly when it is 1..18 and not 4 |
| Enums.PrimitiveTagRoundTrip | dotnet/enum.py:60-78 | primitive type tags are distinct and map back to their types |
| Enums.BinaryArrayTypeOf | dotnet/enum.py:81-88 | a byte is a binary array type exactly when it is 0..5 |
| Enums.OffsetVariants | dotnet/enum.py:81-88 | the variants with lower bounds are exactly tags 3, 4 and 5; the others are 0, 1 and 2 |
| Primitives.GetClass | dotnet/primitives.py:42-47 | the class lookup fails exactly for the Null type, and otherwise yields the class of that type |
| Primitives.TableShape | dotnet/primitives.py:920-940 | the table has no class for tags 0, 4 and 17, and every other entry is the class of its own tag |
| Primitives.GetClassOfType | dotnet/primitives.py:920-940 | every class is found again from its own type |
| Primitives.ByteSizeShape | dotnet/primitives.py:49-53 | the size is -1 exactly for Char, Decimal and String, otherwise 1, 2, 4 or 8; every integer class has a fixed size |
| Primitives.KindOf | dotnet/primitives.py:235-238 | a DateTime kind exists exactly for 0, 1 and 2 |
| Primitives.Normalize | dotnet/primitives.py:524-531 | an in-range value is kept; out of range, the result keeps the value's sign, lies within the mask, and is congruent to the value modulo the mask |
| Primitives.SignedNormalizeInRange | dotnet/primitives.py:524-531 | for a signed class, normalisation always lands in the class's range and keeps the sign |
| Primitives.Int8Examples | dotnet/primitives.py:527-530 | Int8 maps 128 to 0, 200 to 72, -129 to -1 and -200 to -72: masking, not two's-complement wrapping |
| Primitives.UnsignedNegativeExample | dotnet/primitives.py:164-166 | as written, Byte maps -1 to -1 and UInt16 maps -2 to -2, outside the unsigned range |
| Primitives.NormalizeCorrected | dotnet/primitives.py:803-810 | corrected normalisation always lands in the class's range, keeps in-range values, and is congruent to the input |
| Primitives.NormalizeIdempotent | dotnet/primitives.py:524-531 | normalising twice is normalising once, for signed classes as written and for every class corrected |
| Primitives.DecodeInteger | dotnet/primitives.py:532-535 | bytes decode exactly when there are `byte_size` of them; the value lies in the class's range and is the unsigned reading, or that less 256^n when negative |
| Primitives.DecodeEncodeInteger | dotnet/primitives.py:811-814 | every in-range value written in its class's width decodes to itself |
| Primitives.AdjustTicks | dotnet/primitives.py:267-273 | ticks in -2^61..2^61-1 are kept; every result lies there, keeps the sign, and differs from the input by a multiple of 2^61 |
| Primitives.DateTimeFromInt | dotnet/primitives.py:253-256 | an integer converts unless its top two bits are 3; the kind and the ticks recompose the integer modulo 2^64 |
| Primitives.DateTimeIntRoundTrip | dotnet/primitives.py:309-310 | `int()` of a converted DateTime gives back the integer modulo 2^64, and a DateTime with non-negative ticks converts back to itself |
| Primitives.NegativeTicksExample | dotnet/primitives.py:309-310 | a DateTime with ticks -1 has `int()` -1, which does not convert back |
| Primitives.DateTimeFromBytes | dotnet/primitives.py:247-256 | eight bytes are required; kind and ticks are the top two and low 62 bits of their reading, and `int()` recovers it |
| Primitives.BooleanFromBytes | dotnet/primitives.py:123-126 | one byte is required, and the value is true exactly when the byte is non-zero |
| Primitives.StringFromBytes | dotnet/primitives.py:694-698 | bytes convert exactly when they start with a decodable length prefix announcing all the rest, which is the string |
| Primitives.FromFixedBytes | dotnet/io/binary.py:405-406 | a fixed-size class needs exactly `byte_size` bytes, and an integer class yields the decoded integer |
| Primitives.FromPayload | dotnet/io/binary.py:368-370 | String and Decimal element bytes convert exactly when their own converters accept them |
| DecimalText.Verify | dotnet/primitives.py:397-430 | the validator accepts exactly the texts `-?[0-9]+(\.[0-9]+)?` |
| DecimalText.ScanDigits | dotnet/primitives.py:410-412 | the scan stops at the first non-digit, and everything it passed is a digit |
| DecimalText.NatTextValue | dotnet/primitives.py:440 | the decimal digits of a natural number read back as that number |
| DecimalText.IntTextValue | dotnet/primitives.py:440 | `str()` of an integer is integer text whose value is the integer |
| DecimalText.ConvertInt | dotnet/primitives.py:435-440 | the text of an integer is well-formed and has no point |
| DecimalText.ConvertIntValue | dotnet/primitives.py:435-440 | integers within ±79228162514264337593543950334 keep their value; larger ones clamp to the bound of their sign |
| DecimalText.Round | dotnet/primitives.py:336-341 | texts of at most 29 characters, or 30 with a leading minus, are returned unchanged; empty text fails |
| DecimalText.IntTextShort | dotnet/primitives.py:336-341 | every clamped integer has at most 29 digits, so its text takes the early exit |
| DecimalText.ConvertIntSurvivesRound | dotnet/primitives.py:336-341 | rounding leaves the text of any converted integer unchanged |
| DecimalText.ConvertText | dotnet/primitives.py:448-451 | malformed text is refused; well-formed text succeeds, unchanged, exactly when it is short enough for the early exit of `Decimal.round` (at most 29 characters, or 30 with a leading minus) |
| DecimalText.ConvertTextOfConvertInt | dotnet/primitives.py:448-451 | converting the text of a converted integer gives it back |
| DecimalText.ConvertBytes | dotnet/primitives.py:452-457 | bytes convert exactly when the prefix decodes, the rest is well-formed text and the whole is at most 29 bytes |
| Structures.ValidateMeansShape | dotnet/structures.py:15-23 | extra information is valid exactly when its kind is the one the binary type needs; a value of any other kind never is |
| Structures.ValidateDiscriminates | dotnet/structures.py:15-23 | for every binary type, the kind it needs is valid and a different kind is not |
| Structures.Check | dotnet/structures.py:26-28 | the check fails with InvalidExtraInfo exactly when validation fails |
| Structures.NullRunLength | dotnet/structures.py:87-96 | a null run of a non-negative count has that length; a negative count fails |
| Structures.Nulls | dotnet/structures.py:91-93 | the run holds exactly count Nones, and none for a negative count |
| Structures.NullRunAgrees | dotnet/structures.py:87-96 | the length of a null run equals the number of Nones it yields |
| Objects.StripStart | dotnet/object.py:393 | a left strip drops exactly the leading ASCII whitespace bytes (tab to carriage return, 0x1C-0x1F and space) |
| Objects.StripEnd | dotnet/object.py:393 | a right strip drops exactly the trailing ASCII whitespace bytes |
| Objects.StripTrimmed | dotnet/object.py:398 | text without surrounding spaces is its own strip |
| Objects.StripLeadingSpace | dotnet/object.py:398 | a space in front of trimmed text is stripped away |
| Objects.Split | dotnet/object.py:392 | splitting gives at least one part, the parts joined with the separator are the text, and no part holds the separator |
| Objects.SplitAppend | dotnet/object.py:392 | splitting text that starts with a separator-free part gives that part, then the split of the rest |
| Objects.SplitFirst | dotnet/object.py:396 | a split at the first '=' exists exactly when the text holds one; the head holds no '=' and head, '=' and tail make the text |
| Objects.NewLibrary | dotnet/object.py:403-407 | a library keeps its name, is a system library exactly when a non-empty `system` option is given, and has an id exactly when `library_id` is given; both options leave the options map, and a `name` or `self` option is a TypeError |
| Objects.ParseOptions | dotnet/object.py:395-400 | the options parse exactly when every part holds '=', and the keys already present stay |
| Objects.AllOptionsMeans | dotnet/object.py:396-400 | the parse condition is exactly "every part holds '='" |
| Objects.ParseOptionsKeys | dotnet/object.py:395-398 | every part's key is among the parsed options |
| Objects.KeyKept | dotnet/object.py:398 | the key of any part is among the parsed options |
| Objects.LastValueKept | dotnet/object.py:398 | when a key repeats, the last part's value wins |
| Objects.ParseString | dotnet/object.py:391-401 | the name is the stripped first comma part and holds no comma; a later part without '=' is refused |
| Objects.SplitRendered | dotnet/object.py:392 | a name and comma-free options rendered as `name, k=v, ...` split back into the name and the option parts |
| Objects.PartOption | dotnet/object.py:396-398 | a rendered ` k=v` part splits back into key k and value v |
| Objects.ParseRenderedOptions | dotnet/object.py:395-400 | rendered option parts parse back into the options they came from |
| Objects.ParseRendered | dotnet/object.py:391-401 | a rendered library string parses back into a library with that name and those options and no id |
| Objects.OptionsOfKeys | dotnet/object.py:403-407 | options built from ordinary keys never hold a key the constructor treats specially |
| Objects.SetId | dotnet/object.py:425-429 | the id can be set exactly when it is still -1, and then holds the new id |
| Objects.SetIdOnce | dotnet/object.py:425-429 | a second set after a successful one fails, and so does a set on an id parsed from text |
| Objects.NewMember | dotnet/object.py:544-550 | a member is built exactly when its extra information is valid for its binary type, and keeps its index and name |
| Objects.ClassObjectsEqual | dotnet/object.py:513-528 | the comparison loop answers true exactly when library, name and the members pairwise are equal |
| Objects.ClassMemberDefeatsEquality | dotnet/object.py:568-574 | a class with a Class-typed member equals no separately built class, not even one read from the same bytes, since ClassTypeInfo compares by identity |
| Objects.SameClassReflexive | dotnet/object.py:513-528 | a class whose members carry no Class-typed and no unknown extra information equals a separately built copy of itself |
| Objects.LookUp | dotnet/object.py:474-476 | the lookup table finds the last member of a name, and finds nothing exactly when no member has it |
| Objects.GetMember | dotnet/object.py:510-511 | `get_member` returns a member of the class with that name, and raises KeyError exactly when there is none |
| Objects.ResolveData | dotnet/object.py:105-115 | resolution fails only in strict mode, exactly when some reference is unresolvable; every reference becomes its target, every other value stays, and no reference remains |
| Objects.ResolveEachMeaning | dotnet/object.py:105-115 | the element-by-element loop has exactly the outcome of the whole-list statement |
| Objects.ResolveIdempotent | dotnet/object.py:105-115 | resolving resolved data again succeeds and changes nothing |
| Objects.ResolveReference | dotnet/object.py:140-143 | id 0 resolves to None, a known id to its instance, and an unknown id to None |
| Objects.ArrayAgreesWithReference | dotnet/object.py:105-115 | an array element resolves as `InstanceReference.resolve` does; a class member resolves the same way except for id 0 |
| Objects.ResolveInstance | dotnet/object.py:105-115 | resolution keeps the kind of instance and its class, and never fails in permissive mode |
| Objects.ObjectIdsCountUp | dotnet/object.py:54-57 | successive object ids count up by one from the counter, from 1 for a new store, and nothing else changes |
| Objects.LibraryIdsCountUp | dotnet/object.py:49-52 | successive library ids count up by one from the counter, from 1 for a new store, and nothing else changes |
| Reader.NewReader | dotnet/io/binary.py:37-44 | a new formatter is strict exactly when not permissive and satisfies the formatter invariant |
| Reader.Register | dotnet/io/binary.py:463-467 | registration stores the instance under the next store id and maps the stream id to it in both maps; the id is fresh, and nothing else changes |
| Reader.GetObjId | dotnet/io/binary.py:71-76 | a stream id already mapped raises KeyError; otherwise it is mapped to a fresh store id |
| Reader.ReadStringRaw | dotnet/io/binary.py:442-448 | a string read consumes its prefix and its bytes |
| Reader.StringRawMeaning | dotnet/io/binary.py:442-448 | the read succeeds exactly when the prefix decodes and announces no more bytes than remain, and returns exactly the announced bytes after the prefix |
| Reader.ReadStringRawAsWritten | dotnet/io/binary.py:442-448 | as written, the read succeeds whenever the prefix decodes and may return fewer bytes than announced |
| Reader.StringRawAgrees | dotnet/io/binary.py:442-448 | whenever the corrected read succeeds, the read as written returns the same |
| Reader.StringRawRoundTrip | dotnet/io/binary.py:442-448 | a string written with its length prefix reads back whole, whatever follows |
| Reader.TruncatedStringExample | tests/test_io_binary.py:48 | as written, a 200-byte announcement with two bytes left yields those two bytes; the corrected read fails |
| Reader.HelloStringExample | tests/test_io_binary.py:46 | `\x05hello\x00\x00` reads "hello" and stops after it |
| Reader.Continuation | dotnet/io/binary.py:154-159 | a lead byte above 127 announces 1 to 3 more bytes; any other announces none |
| Reader.ReadChar | dotnet/io/binary.py:151-160 | a character read succeeds exactly when its lead byte and the bytes it announces are there, and returns exactly them |
| Reader.ReadCharUtf8 | dotnet/io/binary.py:151-160 | the UTF-8 encoding of any code point reads back as one character, whatever follows |
| Reader.CharExamples | tests/test_io_binary.py:39-41 | "!" and U+FF5F read as one character each; a lone 0xF0 fails |
| Reader.ReadDecimal | dotnet/io/binary.py:233-239 | a decimal is a length-prefixed string, read in full, that the decimal validator accepts and that is short enough for the early exit of `Decimal.round` (at most 29 characters, or 30 with a leading minus) |
| Reader.ReadDecimalAsWritten | dotnet/io/binary.py:233-239 | as written, the decimal text is whatever of the announced length the stream holds, under the same validator and length bound |
| Reader.DecimalAgrees | dotnet/io/binary.py:233-239 | whenever the corrected decimal read succeeds, the source reads the same text and stops at the same place |
| Reader.TruncatedDecimalExample | dotnet/io/binary.py:239 | five characters announced and two present: the source reads "12", the corrected read runs out |
| Reader.ReadPrimitiveValue | dotnet/io/binary.py:394-406 | a type without a class fails; a fixed-size value advances the cursor by its size |
| Reader.ReadTextValue | dotnet/io/binary.py:397-401 | Char and String values are read by the character and string readers |
| Reader.ReadIntegerRoundTrip | dotnet/io/binary.py:405-406 | an integer written in its type's width reads back as itself, consuming exactly its bytes |
| Reader.ReadFixedValue | dotnet/io/binary.py:405-406 | a fixed-size type reads `byte_size` bytes, or what is left, and converts them |
| Reader.ReadHeaderAsWritten | dotnet/io/binary.py:251-270 | the header read as the source writes it: a first byte other than 0 is refused, the stream runs out only when the record byte itself is missing (short fields are read as they are), and strict mode accepts only 1.0 |
| Reader.HeaderAgreesWhenComplete | dotnet/io/binary.py:257-260 | on a stream that holds the whole header, the source's read and ReadHeader give the same result |
| Reader.ReadHeader | dotnet/io/binary.py:251-270 | a first byte other than 0 is refused; then root, header, major and minor are four int32s in that order; strict mode accepts only 1.0; the four are recorded in the state and nothing else changes |
| Reader.ReadHeaderByte | dotnet/io/binary.py:252-255 | the record byte is accepted exactly when it is 0 |
| Reader.HeaderRoundTrip | dotnet/io/binary.py:251-270 | a header written as byte 0 and four int32s reads back as those four values, with the state recording them |
| Reader.HeaderExamples | tests/test_io_binary.py:19-21 | a first byte of 1 is refused, and strict mode refuses version 2.0 |
| Reader.ReadClassTypeInfo | dotnet/io/binary.py:203-206 | the class name is the string read first |
| Reader.ReadExtraTypeInfo | dotnet/io/binary.py:241-249 | extra information read for a binary type is valid for it |
| Reader.ExtraTypeInfoMeaning | dotnet/io/binary.py:241-249 | a type without extra information reads nothing; a primitive type reads one byte that must be a primitive type; SystemClass reads a string |
| Reader.ReadBinaryTypes | dotnet/io/binary.py:286-289 | n types read exactly when n bytes remain and each is 0..7; each type has its byte as tag |
| Reader.ReadExtraInfos | dotnet/io/binary.py:291-292 | one extra information per type, each valid for its type |
| Reader.ReadMemberTypeInfo | dotnet/io/binary.py:282-294 | count type bytes first, then count extra informations, each valid for its type |
| Reader.ReadStrings | dotnet/io/binary.py:166-168 | n strings are read in a row |
| Reader.ReadClassInfo | dotnet/io/binary.py:162-169 | the object id is the first int32 of the record |
| Reader.BuildMembers | dotnet/io/binary.py:89-93 | member i has index i and the i-th name, type and extra information; too little extra information is an IndexError, and invalid extra information is refused |
| Reader.BuildClass | dotnet/io/binary.py:78-103 | the class is keyed by (library id, name); a count mismatch and a partial class without metadata are refused; a new class is stored, an equal stored class is returned, and a different one is an error exactly when it differs, where a partial class rebuilt from the same metadata shares its members with the stored one |
| Reader.BuildPartialClassTwice | dotnet/io/binary.py:80-103 | building a partial class again returns the class the first build returned and changes nothing, whatever the types of its members |
| Reader.ClassMembers | dotnet/io/binary.py:80-93 | a partial class takes the stored metadata, and a full class one member per name, in order |
| Reader.BuildClassTwice | dotnet/io/binary.py:96-103 | building the same class again finds the stored one and changes nothing, when no member is Class-typed |
| Reader.ClassMemberConflicts | dotnet/io/binary.py:101-102 | a class with a Class-typed member cannot be built twice: the second build is a conflict |
| Reader.ReadClassHeader | dotnet/io/binary.py:208-231 | the stream id is the record's first int32; the read changes only the store and allocates no object id; ClassWithId is read as a shared class |
| Reader.ReadSharedClass | dotnet/io/binary.py:208-216 | ClassWithId takes the class of the earlier class instance it names; an unknown id is a KeyError and a non-class instance an error |
| Reader.ReadClassDefinition | dotnet/io/binary.py:218-231 | the four defining class records change only the class registry before their values |
| Reader.ReadClassParts | dotnet/io/binary.py:218-231 | member types are present exactly for the full records; system records take library -1 of the store, the others a library read earlier |
| Reader.ReadMemberInfoOf | dotnet/io/binary.py:220 | the member type information has one type per member name |
| Reader.SystemLibraryOf | dotnet/io/binary.py:453 | the system library is found exactly when the store holds id -1 |
| Reader.ReadLibraryRef | dotnet/io/binary.py:221-222 | a library id is looked up among the libraries read so far; an unknown id is a KeyError |
| Reader.ReadInt32s | dotnet/io/binary.py:132-134 | n int32s are read exactly when 4n bytes remain, each the field at its offset |
| Reader.ReadLengths | dotnet/io/binary.py:121-126 | the lengths are read exactly when 4n bytes remain and none is negative, and they are the int32 fields |
| Reader.LengthsMeaning | dotnet/io/binary.py:121-126 | the length loop succeeds exactly when the bytes are there and no length is negative, and fails only for those reasons |
| Reader.ReadMany | dotnet/io/binary.py:141-143 | n element reads give n primitive values |
| Reader.ReadPrimitives | dotnet/io/binary.py:372-373 | n primitive values are read, at least one byte each |
| Reader.ReadManySplit | dotnet/io/binary.py:141-143 | reading a+b elements is reading a, then b from where they stopped |
| Reader.ManyRuns | dotnet/io/binary.py:141-143 | reading one run per length gives as many values as the lengths add up to |
| Reader.RunsAreOneRead | dotnet/io/binary.py:141-143 | reading one run per length is reading the sum of the lengths in one go |
| Reader.ReadRuns | dotnet/io/binary.py:140-143 | a primitive BinaryArray reads the sum of its lengths, not their product, as one flat run |
| NrbfStructures.WriteString | nrbf/structures.py:77 | a string writes exactly when its length fits the prefix, and takes its bytes plus 1 to 5 |
| NrbfStructures.StringAt | nrbf/structures.py:49 | a written string reads back whole at its position, whatever surrounds it |
| NrbfStructures.WriteClassTypeInfo | nrbf/structures.py:40-42 | class name then library id; written exactly when the name fits and the id is an int32 |
| NrbfStructures.ClassTypeInfoRoundTrip | nrbf/structures.py:22-26 | a written ClassTypeInfo reads back as itself, consuming exactly its bytes |
| NrbfStructures.WriteStrings | nrbf/structures.py:79-80 | a list of names writes exactly when every name fits |
| NrbfStructures.StringsAtPos | nrbf/structures.py:52-53 | written names read back as the same list, consuming exactly their bytes |
| NrbfStructures.WriteClassInfo | nrbf/structures.py:75-80 | object id, name, count and names; written exactly when the fields fit |
| NrbfStructures.ClassInfoRoundTrip | nrbf/structures.py:46-54 | a written ClassInfo reads back as itself, consuming exactly its bytes |
| NrbfStructures.WriteBinaryTypes | nrbf/structures.py:119-120 | one byte per binary type, each its tag |
| NrbfStructures.BinaryTypesAt | nrbf/structures.py:88-91 | written binary types read back as themselves |
| NrbfStructures.WriteExtraInfo | nrbf/structures.py:122-133 | extra information of an unexpected kind is a TypeError |
| NrbfStructures.ExtraInfoAt | nrbf/structures.py:93-103 | valid extra information written for its type reads back as itself |
| NrbfStructures.WriteExtraInfos | nrbf/structures.py:122-133 | a list writes exactly when each element does |
| NrbfStructures.ExtraInfosAt | nrbf/structures.py:93-103 | a written list of valid extra informations reads back as itself |
| NrbfStructures.WriteMemberTypeInfo | nrbf/structures.py:118-133 | the type bytes come first, and an unexpected extra information is refused |
| NrbfStructures.MemberTypeInfoRoundTrip | nrbf/structures.py:84-104 | a written MemberTypeInfo with valid extra information reads back as itself, consuming exactly its bytes |
| Records.ReadReference | dotnet/io/binary.py:420-424 | a reference needs four bytes; it is a new cell holding the stream id, appended to the pending references, and nothing else changes |
| Records.ReadLibrary | dotnet/io/binary.py:272-280 | the library is the parsed name string with the store's next library id; the stream id maps to it and to that id; a name that sets its own id fails |
| Records.ReadNullRun | dotnet/io/binary.py:301-308 | a null run reads an int32 or a byte count and stands for that many Nones, none when negative |
| Records.ReadCount | dotnet/io/binary.py:307 | a byte count is the next byte |
| Records.ReadTypedPrimitive | dotnet/io/binary.py:342-345 | a primitive type byte, then a value read by that type's reader |
| Records.ReadSimpleRecord | dotnet/io/binary.py:45-69 | ObjectNull reads nothing; BinaryObjectString is a length-prefixed string with no object id and no registration |
| Records.ReadRecordBody | dotnet/io/binary.py:45-69 | every record with a reader moves the cursor forward within the stream and keeps the formatter invariant |
| Records.ReadClassInstance | dotnet/io/binary.py:171-201 | a class instance has one value per member and is registered under its stream id |
| Records.ReadMembers | dotnet/io/binary.py:174-196 | the member loop yields exactly one value per remaining member |
| Records.ReadMemberRecord | dotnet/io/binary.py:180-196 | a member record consumes at least its record byte and keeps the formatter invariant |
| Records.ReadMemberPrimitive | dotnet/io/binary.py:178-179 | a Primitive member reads a value of the type its extra information names; other extra information is refused |
| Records.PendingStep | dotnet/io/binary.py:175-177 | while the null count is positive, a member is None and no byte is read |
| Records.ReadObjectArray | dotnet/io/binary.py:310-340 | an object array, read by the element loop as written, has at least its length of Nones among its elements and is registered |
| Records.ReadObjectItems | dotnet/io/binary.py:318-335 | the corrected element loop yields at least as many values as are still missing |
| Records.ReadObjectItemsAsWritten | dotnet/io/binary.py:318-335 | the element loop as written ends only once its Nones make up the length, and keeps the formatter invariant |
| Records.ReferenceElement | dotnet/io/binary.py:420-424 | a MemberReference element is a reference to a new cell |
| Records.ObjectItemsAsWrittenExample | dotnet/io/binary.py:333-335 | as written, an array of length 1 holding one reference reads on into MessageEnd and fails |
| Records.ObjectItemsExample | dotnet/io/binary.py:318-335 | corrected, the same array holds one reference and stops before MessageEnd |
| Arrays.ArrayLength | dotnet/io/binary.py:352-356 | a negative length is refused in strict mode and is 0 otherwise |
| Arrays.ArrayElement | dotnet/io/binary.py:362-373 | an element consumes at least one byte, exactly `byte_size` for a fixed-size class |
| Arrays.ElementAgrees | dotnet/io/binary.py:372-373 | except for String and Decimal, an array element is read as a member value is |
| Arrays.StringElementExample | dotnet/io/binary.py:368-370 | a string element loses its length prefix before conversion and is refused, while the same bytes read as a member value give the string |
| Arrays.ReadElements | dotnet/io/binary.py:362-373 | n elements give n primitive values |
| Arrays.ReadPrimitiveArrayHeader | dotnet/io/binary.py:347-361 | a stream id already mapped is a KeyError; the length, zeroed when negative, and the primitive type follow |
| Arrays.ReadPrimitiveArray | dotnet/io/binary.py:347-378 | the array has the header's length of elements of its class and is registered under the next store id |
| Arrays.Texts | dotnet/io/binary.py:433-435 | a string array holds the strings read, in order |
| Arrays.ReadStringArray | dotnet/io/binary.py:429-440 | a string array holds its length of strings, none when negative, and is registered; a repeated stream id is not checked |
| Arrays.ReadArrayShape | dotnet/io/binary.py:113-134 | rank below 1 is refused; rank non-negative lengths follow, and rank offsets exactly for the offset variants |
| Arrays.ReadOffsets | dotnet/io/binary.py:128-134 | offsets are rank int32s |
| Arrays.ReadBinaryArray | dotnet/io/binary.py:113-148 | the array keeps its shape, type and valid extra information; only primitive element types read elements, as many as the lengths add up to |
| Formatter.ReadRecord | dotnet/io/binary.py:408-418 | a record reads as "go on" except exactly MessageEnd; an unknown type byte and the empty dispatch slots are refused |
| Formatter.ReadRecords | dotnet/io/binary.py:105-108 | the loop stops right after the first MessageEnd it meets as a record |
| Formatter.ResolveCells | dotnet/io/binary.py:469-473 | resolution keeps the number of cells and fails only with a KeyError |
| Formatter.ResolveCellsMeaning | dotnet/io/binary.py:469-473 | with distinct pending references, resolution succeeds exactly when each names a mapped id, and then each pending cell holds its store id and every other cell is unchanged |
| Formatter.ResolveReferences | dotnet/io/binary.py:469-473 | every pending reference is rewritten through the object id map, KeyError otherwise; the list is emptied and nothing else changes |
| Formatter.RootObject | dotnet/io/binary.py:475-476 | the root is the instance registered under the root id, KeyError when none is |
| Formatter.Read | dotnet/io/binary.py:105-111 | a header error is the read's error; a successful read starts with byte 0, leaves no pending reference, and returns the root instance; strict mode has read version 1.0 |
| Formatter.TestHeader | tests/test_io_binary.py:12-14 | the header of the test streams reads as root 1, header 1, version 1.0 |
| Formatter.MissingRootExample | tests/test_io_binary.py:28 | a header followed by MessageEnd fails with KeyError: no root object |
| Formatter.BadHeaderRecordExample | tests/test_io_binary.py:30 | a first byte of 1 is refused |
| Formatter.BadMajorVersionExample | tests/test_io_binary.py:32 | major version 0x50 is refused in strict mode |
| Formatter.BadMinorVersionExample | tests/test_io_binary.py:34 | minor version 0x50 is refused in strict mode |
| Formatter.ObjectIdReadAsString | dotnet/io/binary.py:426-427 | a BinaryObjectString record takes its object id's first byte for a string length |
| Formatter.StringTakenForHeader | dotnet/io/binary.py:45-46 | the rest of the object id, a zero byte, is taken for a header record, whose major version "orld" a strict formatter refuses when the stream holds the whole header |
| Formatter.MisreadRecords | dotnet/io/binary.py:105-108 | after the misread string and header, the record loop fails |
| Formatter.MisreadStream | dotnet/io/binary.py:105-111 | any stream that starts like the "Hello World" stream fails the same way |
| Formatter.HelloWorldExample | tests/test_io_binary.py:13-25 | with the corrected int32 reads, the two "Hello World" streams do not read as "Hello World": one runs out of bytes, the other has a bad version |
| Formatter.StringTakenForHeaderAsWritten | dotnet/io/binary.py:251-264 | the misread header, read as the source writes it, has as much of "orld" as the stream holds for its major version, and a strict formatter refuses it |
| Formatter.HelloWorldAsWritten | tests/test_io_binary.py:13-25 | in the source, the misread header refuses its version on both "Hello World" streams |

## Behaviour kept as written

- A BinaryObjectString (tag 6) goes to `read_string`. That reader reads a
  length-prefixed string at once, so the record's object id is not read and
  the string is not registered (dotnet/io/binary.py:52, 426-427). The test
  streams therefore do not read as "Hello World": in the source the misread
  header refuses its version (`Formatter.HelloWorldAsWritten`).
- A primitive BinaryArray reads the sum of its lengths, not their product
  (dotnet/io/binary.py:141-143).
- Out-of-range integers are masked with `0x7F…`, not wrapped
  (dotnet/primitives.py:527-530).
- A header record met inside the record loop is read through the dispatch
  table. `read_header` then reads its record byte once more.
- Under ObjectNullMultiple, a class member is an InstanceReference to object
  id 0 (dotnet/io/binary.py:185). Resolution does not see that reference.
- A member record whose reader returns None is refused
  (`MemberExpectedValue`). The only such reader, `read_null`, is handled
  before the table is consulted, so this error cannot occur.
- The element loop of an object array raises `count` on null runs only
  (dotnet/io/binary.py:320-335). The array reader keeps it as written
  (`Records.ReadObjectItemsAsWritten`). The corrected loop is
  `Records.ReadObjectItems`; see Findings.
- In an object array, a BinaryLibrary record is appended as an element, like
  any other record that is not a null run.
- Fixed-size primitive values are read with `fp.read(size)`. A short read
  reaches the converter, which refuses the wrong byte count
  (`Primitives.FromFixedBytes`).
- The read state's `objects` map holds instances, as `read_class_with_id`
  expects (dotnet/io/binary.py:211-212).

## Left out

- Floating point: Double, Single and TimeSpan-as-float conversions and
  `Decimal.convert(float)` use IEEE arithmetic and `str(float)`. Their bytes
  are kept opaque.
- UTF-8 decoding is a codec outside the source. Strings and decimal text
  stay bytes, and a character is its lead byte plus the bytes it announces.
- `Decimal.round` beyond its early exit, and `count_digits`. The source's
  digit counting compares the whole string, and its byte branch passes raw
  bytes to `round`.
- `BinaryFormatter.write` is empty. The only writer modelled is the one of
  nrbf/structures.py.
- The `String` and `Int32` codecs of nrbf/primitives.py are not part of this
  model. They are taken to be the formatter's own: a varint-prefixed string
  (with the corrected top mask, so that every length round-trips) and four
  little-endian bytes.
- `DataStore.get_global` is a process-wide singleton. Every formatter here is
  given its store.
- The `__str__`, `__repr__` and comparison dunders are left out, as are
  `ObjectArray.get_libraries` and `is_value_type_array`.
- The MethodCall and MethodReturn records and `MessageFlags`: the source has
  no reader for them, and their empty dispatch slots are modelled.
- dotnet/io/base.py and test.py: file plumbing and a printing driver.
- When resolution raises part-way, the source has already rewritten some
  references in place. The model returns only the error.
- `Formatter.Read` requires the formatter invariant `Reader.Good`, which
  every new formatter has (`Reader.NewReader`). A formatter reused after an
  error is not modelled.
- Reader.Register: the source's `register_object` raises AttributeError on
  every call. It writes to `self._data_store.objects`, which DataStore lacks
  (dotnet/io/binary.py:465, dotnet/object.py:20-57), and it reads
  `inst.object_id`, which the instances it is given lack (dotnet/object.py:164,
  303). The model does what the calls evidently intend: the instance is
  stored under the id `get_object_id` just gave, and the maps of the read
  state hold it.
- Records.ReadMemberPrimitive: a Primitive member whose extra information is
  not a primitive type cannot reach this reader in the source, because the
  Member constructor refuses it (dotnet/object.py:544-545,
  dotnet/structures.py:26-28); were it reached, `read_primitive_type` would
  raise TypeError. Store metadata in the model is plain data and may hold such
  a member, and the model's InvalidExtraInfo only stands in for that failure.
- Reader.BuildClass: a stored partial class and a partial rebuild with equal
  member lists are taken to share their Member objects, as they do when both
  take the store's metadata list, which the reader never changes. A store
  that arrives holding a partial class with separately built but equal
  members, one of them Class-typed, would make the source raise where the
  model returns the stored class.
- Objects.StripStart: strips ASCII whitespace bytes only. Python's
  `str.strip` works on the decoded text and also removes non-ASCII
  whitespace such as U+0085, U+00A0, U+2000-U+200A and U+3000; this follows
  from keeping text as bytes (see the UTF-8 line above).
- Objects.StripEnd: the same ASCII-only whitespace set as
  `Objects.StripStart`, for the same reason.
- Every length-prefixed string and every decimal text is read with the
  corrected `Reader.ReadStringRaw` or `Bytes.ReadExact` (see Findings): a
  text shorter than announced is EndOfStream, where the source's
  `fp.read(length)` returns what is left and goes on. The source's reads are
  `Reader.ReadStringRawAsWritten` and `Reader.ReadDecimalAsWritten`, which
  agree whenever the corrected reads succeed (`Reader.StringRawAgrees`,
  `Reader.DecimalAgrees`). The contracts below state the corrected reads.
- Reader.ReadDecimal: a decimal text cut short is EndOfStream; the source
  converts the short text.
- Reader.ReadTextValue: a String value is the corrected string read; the
  source returns a short string.
- Reader.ExtraTypeInfoMeaning: a SystemClass name is the corrected string
  read; the source takes a short name.
- Records.ReadLibrary: the library name is the corrected string read; the
  source parses a short name.
- Records.ReadSimpleRecord: a BinaryObjectString is the corrected string
  read; the source reads a short string.
- Arrays.ReadStringArray: each string is the corrected string read; the
  source reads a short last string.
- Every int32 field is read with the corrected `Bytes.ReadInt32` (see
  Findings): a field cut short by the end of the stream is EndOfStream, where
  the source reads the short field (an empty one as 0) and goes on. The
  contracts below state the corrected reads.
- Reader.ReadHeader: a header cut short is EndOfStream; the source goes on
  to the version check. The source's read is `Reader.ReadHeaderAsWritten`,
  which agrees on a complete header (`Reader.HeaderAgreesWhenComplete`).
- Reader.ReadInt32s: n int32s need 4n bytes; the source reads short fields.
- Reader.ReadLengths: the lengths need four bytes each; the source reads
  short fields.
- Reader.LengthsMeaning: the failure for a short stream is the corrected
  read's; the source reads short fields.
- Records.ReadReference: a reference needs four bytes; the source reads a
  short id.
- Formatter.StringTakenForHeader: for 34 <= |s| < 38 it states EndOfStream;
  the source refuses the version (`Formatter.StringTakenForHeaderAsWritten`).
- Formatter.MisreadRecords: for 34 <= |s| < 38 it states EndOfStream; the
  source refuses the version.
- Formatter.MisreadStream: for 34 <= |s| < 38 it states EndOfStream; the
  source refuses the version.
- Formatter.HelloWorldExample: states EndOfStream for the 35-byte stream;
  the source refuses the version on both streams
  (`Formatter.HelloWorldAsWritten`).
- DecimalText.ConvertText: longer well-formed texts go on to the digit
  rounding of `Decimal.round`, which is not modelled.
- DecimalText.Round: states only the early exit; longer texts are not
  characterised.
- Records.PendingStep: the null run is stated one member at a time, not as
  one statement about a whole run.
- Records.ReadObjectArray: states a lower bound on the number of elements
  and of Nones. A null run may overshoot the length, and a negative run count
  adds no Nones.
- Records.ReadObjectItems: the same lower bound, for the corrected loop.
- Records.ReadRecordBody: states only the cursor bound and the invariant.
  Each record's content is stated by its own reader.
- Records.ReadMemberRecord: states only the cursor bound and the invariant.
- Records.ReadSimpleRecord: states the content of ObjectNull and
  BinaryObjectString only. The other records are stated by their readers.
- Records.ReadObjectItemsAsWritten: states lower bounds on the values and
  the Nones only. The discrepancy itself is
  `Records.ObjectItemsAsWrittenExample`.
- VarInt.Decode: its own contract gives only bounds. The full statement is
  `VarInt.DecodeMeaning`.
- Reader.ReadStringRaw: its own contract gives only bounds. The full
  statement is `Reader.StringRawMeaning`.
- Reader.ReadExtraTypeInfo: its own contract gives validity only. The
  content is `Reader.ExtraTypeInfoMeaning`, and the Class case is covered by
  the round trip `NrbfStructures.ExtraInfoAt`.
- Reader.ReadClassTypeInfo: states the name only. The library id is covered
  by `NrbfStructures.ClassTypeInfoRoundTrip`. The name is the corrected
  string read; the source takes a short name.
- Reader.ReadClassInfo: states the object id only. The rest is covered by
  `NrbfStructures.ClassInfoRoundTrip`. Its strings are the corrected string
  reads.
- Reader.ReadStrings: states the count only. The content is covered by
  `NrbfStructures.StringsAtPos`. Each string is the corrected string read.
- Reader.ReadMany: states the count and kind of values only.
- Reader.ReadPrimitives: states the count and kind of values only.
- Reader.ReadPrimitiveValue: states the cursor and the missing-class error.
  The values are stated by `Reader.ReadTextValue`, `Reader.ReadFixedValue`
  and `Reader.ReadIntegerRoundTrip`.
- Reader.ReadMemberInfoOf: states the count only.
- Objects.ResolveInstance: states kind, class and permissive success only.
  The values are stated by `Objects.ResolveData`.
- Formatter.ResolveCells: states length and error only. The content is
  `Formatter.ResolveCellsMeaning`.
- NrbfStructures.WriteExtraInfo: states the error case only. What it writes
  is stated by `NrbfStructures.ExtraInfoAt`.
- Arrays.ArrayElement: states the cursor only. The values are stated by
  `Arrays.ElementAgrees`.

## Findings

| source | as written | input that shows it | evidently intended | confidence | as-written member | corrected member |
|---|---|---|---|---|---|---|
| dotnet/utils.py:16 | the fifth byte is masked with `0x03`, though the guard admits values up to 2^31-1 | 2^30 encodes as [0], which decodes to 0 | mask `0x07`, so that every accepted value round-trips | high; not executed | VarInt.EncodeLosesBit30Example | VarInt.DecodeEncodeCorrected |
| dotnet/io/binary.py:442-448 | `fp.read(length)` returns whatever is left when the stream is short | `\xC8\x01\x00\x00` reads as two zero bytes, although the test expects IOError | a string shorter than announced is an error | high; not executed | Reader.TruncatedStringExample | Reader.StringRawRoundTrip |
| dotnet/io/binary.py:233-239 | `read_decimal` reads its text with `fp.read(length)`, which returns whatever is left | `[5, 0x31, 0x32]` reads as the decimal "12", though five characters were announced | a decimal text shorter than announced is an error | high; not executed | Reader.TruncatedDecimalExample | Reader.ReadDecimal |
| dotnet/io/binary.py:257 | `int.from_bytes(fp.read(4))` reads a short integer at the end of the stream | two bytes [1, 0] read as the int32 1 | a truncated int32 is an error | medium; not executed | Bytes.TruncatedInt32Example | Bytes.ReadInt32 |
| dotnet/primitives.py:164-166 | a negative value is masked as for a signed type, so the result stays negative | Byte.convert(-1) is -1, and UInt16.convert(-2) is -2 | an unsigned result lies in 0..2^n-1 | medium; not executed | Primitives.UnsignedNegativeExample | Primitives.NormalizeCorrected |
| dotnet/io/binary.py:333-335 | an element that is not a null run does not raise `count` | a length-1 array holding one MemberReference reads on into MessageEnd and fails | each element raises `count` by one | high; not executed | Records.ObjectItemsAsWrittenExample | Records.ObjectItemsExample |

The array reader keeps the element loop of the last row as written, since
the arrays it accepts depend on it; the corrected loop stands beside it with
its property proved.
