/** The object model of dotnet/object.py: libraries and their assembly-name
    strings, class objects and members, the values and instances a stream
    decodes to, reference resolution, and the data store that hands out ids.

    Python objects that refer to each other are represented without sharing:
    an instance is named by its store id (`Obj`), and an InstanceReference by
    the index of a reference cell (`Ref`) whose object id the reader keeps and
    rewrites.
 */
module Objects {
  import opened Wrappers
  import opened Bytes
  import opened Enums
  import opened Primitives
  import opened Structures

  // ---------------------------------------------------------------------------
  // Splitting and stripping text (the `str` methods Library.parse_string uses)

  const Comma: byte := 44
  const EqualsSign: byte := 61
  const Space: byte := 32

  /** The ASCII characters `str.isspace` accepts: tab, line feed, vertical tab,
      form feed, carriage return, the four separators 0x1C-0x1F and space. */
  predicate IsSpace(b: byte) {
    9 <= b <= 13 || 28 <= b <= 32
  }

  /** `s.lstrip()` */
  function StripStart(s: Bytes): (r: Bytes)
    ensures |r| <= |s| && r == s[|s| - |r|..]
    ensures forall i | 0 <= i < |s| - |r| :: IsSpace(s[i])
    ensures |r| > 0 ==> !IsSpace(r[0])
  {
    if |s| > 0 && IsSpace(s[0]) then StripStart(s[1..]) else s
  }

  /** `s.rstrip()` */
  function StripEnd(s: Bytes): (r: Bytes)
    ensures |r| <= |s| && r == s[..|r|]
    ensures forall i | |r| <= i < |s| :: IsSpace(s[i])
    ensures |r| > 0 ==> !IsSpace(r[|r| - 1])
  {
    if |s| > 0 && IsSpace(s[|s| - 1]) then StripEnd(s[..|s| - 1]) else s
  }

  /** `s.strip()` */
  function Strip(s: Bytes): Bytes
  {
    StripEnd(StripStart(s))
  }

  /** Text with nothing for `strip` to remove. */
  predicate Trimmed(s: Bytes) {
    |s| == 0 || (!IsSpace(s[0]) && !IsSpace(s[|s| - 1]))
  }

  /** Stripping leaves trimmed text alone. */
  lemma {:induction false} StripTrimmed(s: Bytes)
    requires Trimmed(s)
    ensures Strip(s) == s
  {
  }

  /** Stripping a trimmed text with one space in front gives the text back. */
  lemma {:induction false} StripLeadingSpace(s: Bytes)
    requires Trimmed(s)
    ensures Strip([Space] + s) == s
  {
    assert ([Space] + s)[1..] == s;
  }

  /** The position of the first `sep` in `s`. */
  function FirstIndex(s: Bytes, sep: byte): (k: nat)
    requires sep in s
    ensures k < |s| && s[k] == sep && sep !in s[..k]
  {
    if s[0] == sep then 0
    else
      assert sep in s[1..] by { assert s == [s[0]] + s[1..]; }
      var k := FirstIndex(s[1..], sep);
      assert s[..k + 1] == [s[0]] + s[1..][..k];
      k + 1
  }

  /** `", ".join`-style inverse of Split with a one-byte separator. */
  function Join(parts: seq<Bytes>, sep: byte): Bytes
    requires |parts| >= 1
  {
    if |parts| == 1 then parts[0] else parts[0] + [sep] + Join(parts[1..], sep)
  }

  /** `s.split(sep)`: the pieces between separators, at least one, none
      containing the separator, and joining them gives `s` back. */
  function Split(s: Bytes, sep: byte): (parts: seq<Bytes>)
    ensures |parts| >= 1
    ensures Join(parts, sep) == s
    ensures forall i | 0 <= i < |parts| :: sep !in parts[i]
    decreases |s|
  {
    if sep !in s then [s]
    else
      var k := FirstIndex(s, sep);
      var rest := Split(s[k + 1..], sep);
      var parts := [s[..k]] + rest;
      assert parts[1..] == rest;
      assert s == s[..k] + [sep] + s[k + 1..];
      parts
  }

  /** A separator with none before it is the first one. */
  lemma {:induction false} FirstIndexIs(s: Bytes, sep: byte, k: nat)
    requires k < |s| && s[k] == sep && sep !in s[..k]
    ensures FirstIndex(s, sep) == k
  {
    var j := FirstIndex(s, sep);
    assert forall m | 0 <= m < k :: s[m] != sep by {
      forall m | 0 <= m < k ensures s[m] != sep {
        assert s[..k][m] == s[m];
      }
    }
    assert forall m | 0 <= m < j :: s[m] != sep by {
      forall m | 0 <= m < j ensures s[m] != sep {
        assert s[..j][m] == s[m];
      }
    }
  }

  /** Splitting at a known first separator peels off the text before it. */
  lemma {:induction false} SplitAppend(a: Bytes, sep: byte, b: Bytes)
    requires sep !in a
    ensures Split(a + [sep] + b, sep) == [a] + Split(b, sep)
  {
    var s := a + [sep] + b;
    assert s[..|a|] == a;
    FirstIndexIs(s, sep, |a|);
    assert s[|a| + 1..] == b;
  }

  /** `s.split(sep, 1)` read as a pair: the text before the first separator
      and everything after it, or nothing when there is no separator. */
  function SplitFirst(s: Bytes, sep: byte): (r: Option<(Bytes, Bytes)>)
    ensures r.Some? <==> sep in s
    ensures r.Some? ==> s == r.value.0 + [sep] + r.value.1 && sep !in r.value.0
  {
    if sep !in s then None
    else
      var k := FirstIndex(s, sep);
      assert s == s[..k] + [sep] + s[k + 1..];
      Some((s[..k], s[k + 1..]))
  }

  // ---------------------------------------------------------------------------
  // Library

  const NameKey: Bytes := [110, 97, 109, 101]                         // "name"
  const SelfKey: Bytes := [115, 101, 108, 102]                        // "self"
  const SystemKey: Bytes := [115, 121, 115, 116, 101, 109]            // "system"
  const LibraryIdKey: Bytes := [108, 105, 98, 114, 97, 114, 121, 95, 105, 100]  // "library_id"
  const SystemName: Bytes := [83, 121, 115, 116, 101, 109]            // "System"

  /** A library id: the integer the store assigns, or the text of a
      `library_id=` option, which Library keeps as a string. */
  datatype LibraryId = NumericId(n: int) | TextId(text: Bytes)

  /** `Library.NoId` */
  const NoId: LibraryId := NumericId(-1)

  type Options = map<Bytes, Bytes>

  datatype Library = Library(name: Bytes, system: bool, options: Options, id: LibraryId)

  /** `Library.SystemLibrary`: its `system` and `library_id` keywords are
      popped from the options, leaving none. */
  const SystemLibrary: Library := Library(SystemName, true, map[], NoId)

  predicate Reserved(key: Bytes) {
    key == NameKey || key == SelfKey || key == SystemKey || key == LibraryIdKey
  }

  /** `Library(name, **options)`: a `name` or `self` keyword collides with a
      parameter (TypeError); `system` is popped and read as a truth value (a
      string is true when non-empty); `library_id` is popped and becomes the id
      as text. */
  function NewLibrary(name: Bytes, options: Options): (r: Result<Library>)
    ensures r.Err? <==> NameKey in options || SelfKey in options
    ensures r.Err? ==> r.error == TypeError
    ensures r.Ok? ==> r.value.name == name
    ensures r.Ok? ==> (r.value.system <==> SystemKey in options && options[SystemKey] != [])
    ensures r.Ok? ==> (r.value.id == NoId <==> LibraryIdKey !in options)
    ensures r.Ok? ==> forall k :: k in r.value.options <==> k in options && k != SystemKey && k != LibraryIdKey
    ensures r.Ok? ==> forall k | k in r.value.options :: r.value.options[k] == options[k]
  {
    if NameKey in options || SelfKey in options then Err(TypeError)
    else
      var system := SystemKey in options && options[SystemKey] != [];
      var id := if LibraryIdKey in options then TextId(options[LibraryIdKey]) else NoId;
      Ok(Library(name, system, options - {SystemKey, LibraryIdKey}, id))
  }

  /** The option key of one `key=value` part. */
  function OptionKey(part: Bytes): Bytes
    requires EqualsSign in part
  {
    Strip(SplitFirst(part, EqualsSign).value.0)
  }

  /** The option value of one `key=value` part. */
  function OptionValue(part: Bytes): Bytes
    requires EqualsSign in part
  {
    Strip(SplitFirst(part, EqualsSign).value.1)
  }

  /** The option loop of `Library.parse_string`: each part must contain `=`;
      key and value are stripped, and a later part overrides an earlier one
      with the same key. */
  function ParseOptions(parts: seq<Bytes>, acc: Options): (r: Result<Options>)
    ensures r.Ok? <==> AllOptions(parts)
    ensures r.Err? ==> r.error == BadLibraryOptions
    ensures r.Ok? ==> acc.Keys <= r.value.Keys
    decreases |parts|
  {
    if |parts| == 0 then Ok(acc)
    else if EqualsSign !in parts[0] then Err(BadLibraryOptions)
    else ParseOptions(parts[1..], acc[OptionKey(parts[0]) := OptionValue(parts[0])])
  }

  /** Every part is a `key=value` option. */
  predicate AllOptions(parts: seq<Bytes>)
    decreases |parts|
  {
    |parts| == 0 || (EqualsSign in parts[0] && AllOptions(parts[1..]))
  }

  lemma {:induction false} AllOptionsMeans(parts: seq<Bytes>)
    ensures AllOptions(parts) <==> forall i | 0 <= i < |parts| :: EqualsSign in parts[i]
    decreases |parts|
  {
    if |parts| > 0 {
      AllOptionsMeans(parts[1..]);
      assert forall i | 1 <= i < |parts| :: parts[i] == parts[1..][i - 1];
    }
  }

  /** Every part contributes its key, and the last part's value is the one
      kept for its key. */
  lemma {:induction false} ParseOptionsKeys(parts: seq<Bytes>, acc: Options)
    requires forall i | 0 <= i < |parts| :: EqualsSign in parts[i]
    ensures ParseOptions(parts, acc).Ok?
    ensures forall i | 0 <= i < |parts| :: OptionKey(parts[i]) in ParseOptions(parts, acc).value
    ensures |parts| > 0 ==>
              ParseOptions(parts, acc).value[OptionKey(parts[|parts| - 1])] == OptionValue(parts[|parts| - 1])
  {
    AllOptionsMeans(parts);
    forall i | 0 <= i < |parts|
      ensures OptionKey(parts[i]) in ParseOptions(parts, acc).value
    {
      KeyKept(parts, acc, i);
    }
    if |parts| > 0 {
      LastValueKept(parts, acc);
    }
  }

  /** The key of part i is among the parsed options. */
  lemma {:induction false} KeyKept(parts: seq<Bytes>, acc: Options, i: nat)
    requires AllOptions(parts) && i < |parts| && EqualsSign in parts[i]
    ensures ParseOptions(parts, acc).Ok?
    ensures OptionKey(parts[i]) in ParseOptions(parts, acc).value
    decreases |parts|
  {
    var acc' := acc[OptionKey(parts[0]) := OptionValue(parts[0])];
    assert ParseOptions(parts, acc) == ParseOptions(parts[1..], acc');
    if i > 0 {
      assert parts[i] == parts[1..][i - 1];
      KeyKept(parts[1..], acc', i - 1);
    }
  }

  /** The last part's value is the one its key ends up with. */
  lemma {:induction false} LastValueKept(parts: seq<Bytes>, acc: Options)
    requires AllOptions(parts) && |parts| > 0 && EqualsSign in parts[|parts| - 1]
    ensures ParseOptions(parts, acc).Ok?
    ensures OptionKey(parts[|parts| - 1]) in ParseOptions(parts, acc).value
    ensures ParseOptions(parts, acc).value[OptionKey(parts[|parts| - 1])] == OptionValue(parts[|parts| - 1])
    decreases |parts|
  {
    var acc' := acc[OptionKey(parts[0]) := OptionValue(parts[0])];
    assert ParseOptions(parts, acc) == ParseOptions(parts[1..], acc');
    if |parts| > 1 {
      assert parts[|parts| - 1] == parts[1..][|parts| - 2];
      LastValueKept(parts[1..], acc');
    } else {
      assert ParseOptions(parts[1..], acc') == Ok(acc');
    }
  }

  /** `Library.parse_string`: the text up to the first comma, stripped, is the
      name; every later comma-separated part is a `key=value` option. */
  function ParseString(text: Bytes): (r: Result<Library>)
    ensures r.Ok? ==> r.value.name == Strip(Split(text, Comma)[0]) && Comma !in r.value.name
    ensures (exists i | 1 <= i < |Split(text, Comma)| :: EqualsSign !in Split(text, Comma)[i])
            ==> r == Err(BadLibraryOptions)
  {
    var parts := Split(text, Comma);
    AllOptionsMeans(parts[1..]);
    assert forall i | 1 <= i < |parts| :: parts[i] == parts[1..][i - 1];
    var options :- ParseOptions(parts[1..], map[]);
    assert Comma !in parts[0];
    NewLibrary(Strip(parts[0]), options)
  }

  /** An option rendered as it appears in an assembly name. */
  predicate CleanKey(k: Bytes) {
    Trimmed(k) && Comma !in k && EqualsSign !in k && !Reserved(k)
  }

  predicate CleanValue(v: Bytes) {
    Trimmed(v) && Comma !in v
  }

  /** One rendered option, as the comma split leaves it. */
  function Part(pair: (Bytes, Bytes)): Bytes
  {
    [Space] + pair.0 + [EqualsSign] + pair.1
  }

  function Parts(pairs: seq<(Bytes, Bytes)>): (r: seq<Bytes>)
    ensures |r| == |pairs|
  {
    if |pairs| == 0 then [] else [Part(pairs[0])] + Parts(pairs[1..])
  }

  /** `", key=value"` for each pair, in order. */
  function RenderOptions(pairs: seq<(Bytes, Bytes)>): Bytes
  {
    if |pairs| == 0 then []
    else [Comma] + Part(pairs[0]) + RenderOptions(pairs[1..])
  }

  /** The options a sequence of pairs builds, a later pair overriding. */
  function OptionsOf(pairs: seq<(Bytes, Bytes)>, acc: Options): Options
  {
    if |pairs| == 0 then acc else OptionsOf(pairs[1..], acc[pairs[0].0 := pairs[0].1])
  }

  /** No key or value of the pairs contains a comma. */
  predicate CommaFree(pairs: seq<(Bytes, Bytes)>) {
    forall i | 0 <= i < |pairs| :: Comma !in pairs[i].0 && Comma !in pairs[i].1
  }

  /** The first rendered option splits off after the name. */
  lemma {:induction false} RenderStep(name: Bytes, pairs: seq<(Bytes, Bytes)>)
    requires |pairs| > 0 && CommaFree(pairs)
    ensures name + RenderOptions(pairs) == name + [Comma] + (Part(pairs[0]) + RenderOptions(pairs[1..]))
    ensures Comma !in Part(pairs[0])
    ensures CommaFree(pairs[1..])
  {
    var p := Part(pairs[0]);
    var rest := RenderOptions(pairs[1..]);
    assert RenderOptions(pairs) == [Comma] + p + rest;
    Regroup(name, [Comma], p, rest);
    PartCommaFree(pairs[0]);
    forall i | 0 <= i < |pairs| - 1
      ensures Comma !in pairs[1..][i].0 && Comma !in pairs[1..][i].1
    {
      assert pairs[1..][i] == pairs[i + 1];
    }
  }

  /** A rendered option has a comma only where its key or value has one. */
  lemma {:induction false} PartCommaFree(pair: (Bytes, Bytes))
    requires Comma !in pair.0 && Comma !in pair.1
    ensures Comma !in Part(pair)
  {
    var s := Part(pair);
    forall i | 0 <= i < |s|
      ensures s[i] != Comma
    {
      if 0 < i <= |pair.0| {
        assert s[i] == pair.0[i - 1];
      } else if i > |pair.0| + 1 {
        assert s[i] == pair.1[i - |pair.0| - 2];
      }
    }
  }

  lemma {:induction false} SplitRendered(name: Bytes, pairs: seq<(Bytes, Bytes)>)
    requires Comma !in name
    requires CommaFree(pairs)
    ensures Split(name + RenderOptions(pairs), Comma) == [name] + Parts(pairs)
    decreases |pairs|
  {
    if |pairs| == 0 {
      assert name + RenderOptions(pairs) == name;
    } else {
      var p := Part(pairs[0]);
      var rest := RenderOptions(pairs[1..]);
      RenderStep(name, pairs);
      SplitAppend(name, Comma, p + rest);
      SplitRendered(p, pairs[1..]);
    }
  }

  /** The key and value of a rendered option come back out of it. */
  lemma {:induction false} PartOption(pair: (Bytes, Bytes))
    requires CleanKey(pair.0) && CleanValue(pair.1)
    ensures EqualsSign in Part(pair)
    ensures SplitFirst(Part(pair), EqualsSign) == Some(([Space] + pair.0, pair.1))
    ensures OptionKey(Part(pair)) == pair.0 && OptionValue(Part(pair)) == pair.1
  {
    var key := [Space] + pair.0;
    var s := Part(pair);
    assert s == key + [EqualsSign] + pair.1;
    AroundSeparator(key, EqualsSign, pair.1);
    assert EqualsSign !in key;
    FirstIndexIs(s, EqualsSign, |key|);
    StripLeadingSpace(pair.0);
    StripTrimmed(pair.1);
  }

  /** The pieces on either side of a separator placed between two texts. */
  lemma {:induction false} AroundSeparator(a: Bytes, sep: byte, b: Bytes)
    ensures (a + [sep] + b)[..|a|] == a
    ensures (a + [sep] + b)[|a|] == sep
    ensures (a + [sep] + b)[|a| + 1..] == b
  {
  }

  /** Keys and values as an assembly name writes them. */
  predicate CleanPairs(pairs: seq<(Bytes, Bytes)>) {
    forall i | 0 <= i < |pairs| :: CleanKey(pairs[i].0) && CleanValue(pairs[i].1)
  }

  lemma {:induction false} CleanTail(pairs: seq<(Bytes, Bytes)>)
    requires |pairs| > 0 && CleanPairs(pairs)
    ensures CleanKey(pairs[0].0) && CleanValue(pairs[0].1)
    ensures CleanPairs(pairs[1..])
    ensures Parts(pairs)[1..] == Parts(pairs[1..])
  {
    assert forall i | 0 <= i < |pairs| - 1 :: pairs[1..][i] == pairs[i + 1];
  }

  lemma {:induction false} ParseRenderedOptions(pairs: seq<(Bytes, Bytes)>, acc: Options)
    requires CleanPairs(pairs)
    ensures ParseOptions(Parts(pairs), acc) == Ok(OptionsOf(pairs, acc))
    decreases |pairs|
  {
    if |pairs| > 0 {
      CleanTail(pairs);
      PartOption(pairs[0]);
      ParseRenderedOptions(pairs[1..], acc[pairs[0].0 := pairs[0].1]);
    }
  }

  lemma {:induction false} RemoveAbsent(m: Options, a: Bytes, b: Bytes)
    requires a !in m && b !in m
    ensures m - {a, b} == m
  {
    assert (m - {a, b}).Keys == m.Keys;
  }

  /** `Library.parse_string` inverts the assembly-name rendering: a name and
      `key=value` options without commas, stray whitespace or reserved keys
      parse back to that name and those options, with no id and not a system
      library. */
  lemma {:induction false} ParseRendered(name: Bytes, pairs: seq<(Bytes, Bytes)>)
    requires Trimmed(name) && Comma !in name
    requires CleanPairs(pairs)
    ensures ParseString(name + RenderOptions(pairs)).Ok?
    ensures ParseString(name + RenderOptions(pairs)).value == Library(name, false, OptionsOf(pairs, map[]), NoId)
  {
    var text := name + RenderOptions(pairs);
    var parts := Split(text, Comma);
    var opts := OptionsOf(pairs, map[]);
    assert parts[0] == name && parts[1..] == Parts(pairs) by {
      assert CommaFree(pairs);
      SplitRendered(name, pairs);
    }
    assert ParseOptions(parts[1..], map[]) == Ok(opts) by {
      ParseRenderedOptions(pairs, map[]);
    }
    assert NewLibrary(name, opts) == Ok(Library(name, false, opts, NoId)) by {
      OptionsOfKeys(pairs, map[]);
      assert NameKey !in opts && SelfKey !in opts && SystemKey !in opts && LibraryIdKey !in opts;
      RemoveAbsent(opts, SystemKey, LibraryIdKey);
    }
    StripTrimmed(name);
    assert ParseString(text) == NewLibrary(Strip(parts[0]), opts);
  }

  lemma {:induction false} OptionsOfKeys(pairs: seq<(Bytes, Bytes)>, acc: Options)
    requires CleanPairs(pairs)
    requires forall k | k in acc :: !Reserved(k)
    ensures forall k | k in OptionsOf(pairs, acc) :: !Reserved(k)
    decreases |pairs|
  {
    if |pairs| > 0 {
      CleanTail(pairs);
      OptionsOfKeys(pairs[1..], acc[pairs[0].0 := pairs[0].1]);
    }
  }

  /** The `Library.id` setter: allowed only while the id is still `NoId`. */
  function SetId(lib: Library, newId: int): (r: Result<Library>)
    ensures r.Ok? <==> lib.id == NoId
    ensures r.Err? ==> r.error == LibraryIdAlreadySet
    ensures r.Ok? ==> r.value.id == NumericId(newId)
                      && r.value.(id := lib.id) == lib
  {
    if lib.id != NoId then Err(LibraryIdAlreadySet) else Ok(lib.(id := NumericId(newId)))
  }

  /** Once a real id is set, setting it again fails; a library parsed with a
      `library_id=` option can never be given one. */
  lemma {:induction false} SetIdOnce(lib: Library, a: int, b: int, text: Bytes)
    requires a != -1
    ensures SetId(lib, a).Ok? ==> SetId(SetId(lib, a).value, b).Err?
    ensures SetId(lib.(id := TextId(text)), b).Err?
  {
  }

  // ---------------------------------------------------------------------------
  // Members and class objects

  datatype Member = Member(index: int, name: Bytes, binaryType: BinaryType, extraInfo: ExtraInfo)

  /** The Member constructor: the extra information must suit the binary type. */
  function NewMember(index: int, name: Bytes, t: BinaryType, extra: ExtraInfo): (r: Result<Member>)
    ensures r.Ok? <==> Validate(t, extra)
    ensures r.Err? ==> r.error == InvalidExtraInfo
    ensures r.Ok? ==> r.value.index == index && r.value.name == name
                      && r.value.binaryType == t && r.value.extraInfo == extra
  {
    match Check(t, extra)
    case Pass => Ok(Member(index, name, t, extra))
    case Fail(e) => Err(e)
  }

  /** `==` on extra information: primitive types and names compare by value,
      `None` equals `None`, and a ClassTypeInfo has no `__eq__`, so two of
      them are equal only when they are the same object, which two separately
      read ones never are. */
  predicate ExtraInfoEquals(a: ExtraInfo, b: ExtraInfo)
  {
    match (a, b)
    case (PrimitiveInfo(p), PrimitiveInfo(q)) => p == q
    case (SystemClassName(x), SystemClassName(y)) => x == y
    case (NoInfo, NoInfo) => true
    case _ => false
  }

  /** `Member.__eq__` */
  predicate MemberEquals(a: Member, b: Member)
  {
    a.index == b.index && a.name == b.name && a.binaryType == b.binaryType
    && ExtraInfoEquals(a.extraInfo, b.extraInfo)
  }

  datatype ClassObject = ClassObject(name: Bytes, members: seq<Member>, partial: bool, library: Library)

  type ClassKey = (LibraryId, Bytes)

  /** `ClassObject.key` */
  function Key(c: ClassObject): ClassKey
  {
    (c.library.id, c.name)
  }

  /** The definition of class equality between two separately built classes,
      whose Member objects are distinct: same library (libraries compare by
      identity, and the store gives each library its own id), same name, and
      pairwise equal members. */
  predicate SameClass(a: ClassObject, b: ClassObject)
  {
    a.library.id == b.library.id && a.name == b.name && |a.members| == |b.members|
    && forall i | 0 <= i < |a.members| :: MemberEquals(a.members[i], b.members[i])
  }

  /** `ClassObject.__eq__`, with its early exits. */
  method ClassObjectsEqual(a: ClassObject, b: ClassObject) returns (eq: bool)
    ensures eq <==> SameClass(a, b)
  {
    if b.library.id != a.library.id {
      return false;
    }
    if b.name != a.name {
      return false;
    }
    var count := |a.members|;
    if count != |b.members| {
      return false;
    }
    var i := 0;
    while i < count
      invariant 0 <= i <= count
      invariant forall j | 0 <= j < i :: MemberEquals(a.members[j], b.members[j])
    {
      if !MemberEquals(a.members[i], b.members[i]) {
        return false;
      }
      i := i + 1;
    }
    return true;
  }

  /** A class with a Class-typed member equals no separately built class, not
      even one read from the same bytes: its ClassTypeInfo compares by
      identity. */
  lemma {:induction false} ClassMemberDefeatsEquality(a: ClassObject, b: ClassObject, i: nat)
    requires i < |a.members| && a.members[i].extraInfo.ClassInfoRef?
    ensures !SameClass(a, b) && !SameClass(b, a)
  {
    if i < |b.members| {
      assert !MemberEquals(a.members[i], b.members[i]);
      assert !MemberEquals(b.members[i], a.members[i]);
    }
  }

  /** Without Class-typed members, a class equals a separately built copy of
      itself. */
  lemma {:induction false} SameClassReflexive(a: ClassObject)
    requires forall i | 0 <= i < |a.members| :: !a.members[i].extraInfo.ClassInfoRef? && a.members[i].extraInfo != OtherValue
    ensures SameClass(a, a)
  {
  }

  /** The member lookup table of a class object maps each name to the LAST
      member carrying it (`self._lookup[member.name] = member` in order). */
  function LookUp(members: seq<Member>, name: Bytes): (r: Option<nat>)
    ensures r.Some? ==> r.value < |members| && members[r.value].name == name
    ensures r.Some? ==> forall j | r.value < j < |members| :: members[j].name != name
    ensures r.None? <==> forall j | 0 <= j < |members| :: members[j].name != name
  {
    if |members| == 0 then None
    else if members[|members| - 1].name == name then Some(|members| - 1)
    else LookUp(members[..|members| - 1], name)
  }

  /** `ClassObject.get_member`: KeyError for an unknown name. */
  function GetMember(c: ClassObject, name: Bytes): (r: Result<Member>)
    ensures r.Ok? ==> r.value.name == name && r.value in c.members
    ensures r.Err? <==> forall j | 0 <= j < |c.members| :: c.members[j].name != name
    ensures r.Err? ==> r.error == MissingKey
  {
    match LookUp(c.members, name)
    case None => Err(MissingKey)
    case Some(i) => Ok(c.members[i])
  }

  // ---------------------------------------------------------------------------
  // Values and instances

  /** A decoded value. `Ref(cell)` is an InstanceReference whose object id is
      kept in reference cell `cell`; `Obj(id)` is the instance the store holds
      under `id`; `NullList(n)` is the list of n Nones a null-run record reads
      as on its own. */
  datatype Value =
    | NullValue
    | Prim(primitive: Primitive)
    | Text(text: Bytes)
    | Ref(cell: nat)
    | Obj(storeId: int)
    | Lib(library: Library)
    | HeaderTuple(rootId: int, headerId: int, major: int, minor: int)
    | NullList(length: nat)

  datatype Instance =
    | ClassInstance(classObject: ClassObject, memberData: seq<Value>)
    | BinaryArrayInstance(rank: int, arrayType: BinaryArrayType, lengths: seq<int>,
                          offsets: Option<seq<int>>, binaryType: BinaryType,
                          extraInfo: ExtraInfo, data: seq<Value>)
    | ObjectArrayInstance(data: seq<Value>)
    | StringArrayInstance(data: seq<Value>)
    | PrimitiveArrayInstance(primitiveClass: PrimitiveClass, data: seq<Value>)

  /** Every reference in `data` names an existing cell. */
  predicate Wired(data: seq<Value>, cells: seq<int>) {
    forall i | 0 <= i < |data| :: data[i].Ref? ==> data[i].cell < |cells|
  }

  /** A reference the object map cannot resolve; with `zeroIsNull` (arrays),
      object id 0 is the null reference and never unresolvable. */
  predicate Unresolvable(v: Value, cells: seq<int>, objectMap: map<int, int>, zeroIsNull: bool)
    requires v.Ref? ==> v.cell < |cells|
  {
    v.Ref? && !(zeroIsNull && cells[v.cell] == 0) && cells[v.cell] !in objectMap
  }

  /** What a reference becomes: the instance it names, or None. */
  function Target(v: Value, cells: seq<int>, objectMap: map<int, int>, zeroIsNull: bool): Value
    requires v.Ref? && v.cell < |cells|
  {
    var id := cells[v.cell];
    if zeroIsNull && id == 0 then NullValue
    else if id in objectMap then Obj(objectMap[id])
    else NullValue
  }

  /** The loop of `ArrayInstance.resolve_references` (`zeroIsNull`) and of
      `ClassInstance.resolve_references` (without it): every InstanceReference
      is replaced by the instance its id names; an id the map lacks raises
      InvalidReferenceError in strict mode and becomes None otherwise; every
      other value stays as it is. */
  function ResolveData(data: seq<Value>, cells: seq<int>, objectMap: map<int, int>,
                       strict: bool, zeroIsNull: bool): (r: Result<seq<Value>>)
    requires Wired(data, cells)
    ensures r.Ok? <==> !strict || forall i | 0 <= i < |data| :: !Unresolvable(data[i], cells, objectMap, zeroIsNull)
    ensures r.Err? ==> r.error == InvalidReference
    ensures r.Ok? ==> |r.value| == |data|
    ensures r.Ok? ==> forall i | 0 <= i < |data| ::
              r.value[i] == if data[i].Ref? then Target(data[i], cells, objectMap, zeroIsNull) else data[i]
    ensures r.Ok? ==> forall i | 0 <= i < |data| :: !r.value[i].Ref?
  {
    ResolveEachMeaning(data, cells, objectMap, strict, zeroIsNull);
    ResolveEach(data, cells, objectMap, strict, zeroIsNull)
  }

  /** The resolution loop itself, value by value. */
  function ResolveEach(data: seq<Value>, cells: seq<int>, objectMap: map<int, int>,
                       strict: bool, zeroIsNull: bool): Result<seq<Value>>
    requires Wired(data, cells)
  {
    if |data| == 0 then Ok([])
    else
      var head := data[0];
      if head.Ref? && strict && Unresolvable(head, cells, objectMap, zeroIsNull) then Err(InvalidReference)
      else
        var rest :- ResolveEach(data[1..], cells, objectMap, strict, zeroIsNull);
        var item := if head.Ref? then Target(head, cells, objectMap, zeroIsNull) else head;
        Ok([item] + rest)
  }

  lemma {:induction false} ResolveEachMeaning(data: seq<Value>, cells: seq<int>, objectMap: map<int, int>,
                                               strict: bool, zeroIsNull: bool)
    requires Wired(data, cells)
    ensures var r := ResolveEach(data, cells, objectMap, strict, zeroIsNull);
            && (r.Ok? <==> !strict || forall i | 0 <= i < |data| :: !Unresolvable(data[i], cells, objectMap, zeroIsNull))
            && (r.Err? ==> r.error == InvalidReference)
            && (r.Ok? ==> |r.value| == |data|)
            && (r.Ok? ==> forall i | 0 <= i < |data| ::
                  r.value[i] == if data[i].Ref? then Target(data[i], cells, objectMap, zeroIsNull) else data[i])
    decreases |data|
  {
    if |data| > 0 {
      ResolveEachMeaning(data[1..], cells, objectMap, strict, zeroIsNull);
      assert forall i | 1 <= i < |data| :: data[i] == data[1..][i - 1];
    }
  }

  /** Resolution is idempotent: resolved data contains no references, so a
      second pass changes nothing and cannot fail. */
  lemma {:induction false} ResolveIdempotent(data: seq<Value>, cells: seq<int>, objectMap: map<int, int>,
                          strict: bool, zeroIsNull: bool)
    requires Wired(data, cells)
    requires ResolveData(data, cells, objectMap, strict, zeroIsNull).Ok?
    ensures ResolveData(ResolveData(data, cells, objectMap, strict, zeroIsNull).value,
                        cells, objectMap, strict, zeroIsNull)
            == ResolveData(data, cells, objectMap, strict, zeroIsNull)
  {
    var once := ResolveData(data, cells, objectMap, strict, zeroIsNull).value;
    var twice := ResolveData(once, cells, objectMap, strict, zeroIsNull);
    assert twice.Ok?;
    assert twice.value == once;
  }

  /** `InstanceReference.resolve`: id 0 is None, otherwise the map's entry. */
  function ResolveReference(objectId: int, objectMap: map<int, int>): (r: Option<int>)
    ensures objectId == 0 ==> r == None
    ensures objectId != 0 ==> (r.Some? <==> objectId in objectMap)
    ensures r.Some? ==> r.value == objectMap[objectId]
  {
    if objectId == 0 then None
    else if objectId in objectMap then Some(objectMap[objectId])
    else None
  }

  /** An array element resolves exactly as the reference itself would; a
      class member differs only for id 0, which it looks up like any other. */
  lemma {:induction false} ArrayAgreesWithReference(v: Value, cells: seq<int>, objectMap: map<int, int>)
    requires v.Ref? && v.cell < |cells|
    ensures Target(v, cells, objectMap, true)
            == match ResolveReference(cells[v.cell], objectMap)
               case None => NullValue
               case Some(id) => Obj(id)
    ensures cells[v.cell] != 0 ==> Target(v, cells, objectMap, false) == Target(v, cells, objectMap, true)
  {
  }

  /** `resolve_references` of any instance: the ArrayInstance rule for the
      arrays, the ClassInstance rule for class instances. */
  function ResolveInstance(inst: Instance, cells: seq<int>, objectMap: map<int, int>, strict: bool): (r: Result<Instance>)
    requires Wired(if inst.ClassInstance? then inst.memberData else inst.data, cells)
    ensures r.Ok? ==> r.value.ClassInstance? == inst.ClassInstance?
    ensures r.Ok? && inst.ClassInstance? ==> r.value.classObject == inst.classObject
    ensures !strict ==> r.Ok?
  {
    match inst
    case ClassInstance(c, d) =>
      var d' :- ResolveData(d, cells, objectMap, strict, false);
      Ok(ClassInstance(c, d'))
    case BinaryArrayInstance(rank, at, lengths, offsets, bt, extra, d) =>
      var d' :- ResolveData(d, cells, objectMap, strict, true);
      Ok(BinaryArrayInstance(rank, at, lengths, offsets, bt, extra, d'))
    case ObjectArrayInstance(d) =>
      var d' :- ResolveData(d, cells, objectMap, strict, true);
      Ok(ObjectArrayInstance(d'))
    case StringArrayInstance(d) =>
      var d' :- ResolveData(d, cells, objectMap, strict, true);
      Ok(StringArrayInstance(d'))
    case PrimitiveArrayInstance(pc, d) =>
      var d' :- ResolveData(d, cells, objectMap, strict, true);
      Ok(PrimitiveArrayInstance(pc, d'))
  }

  // ---------------------------------------------------------------------------
  // DataStore

  datatype DataStore = DataStore(
    nextLibraryId: int,
    nextObjectId: int,
    libraries: map<int, Library>,
    classes: map<ClassKey, ClassObject>,
    metadata: map<ClassKey, seq<Member>>,
    objects: map<int, Instance>)

  /** `DataStore()`: both counters at 1 and the system library under -1. */
  const EmptyStore: DataStore :=
    DataStore(1, 1, map[-1 := SystemLibrary], map[], map[], map[])

  /** `DataStore.get_object_id` */
  function GetObjectId(ds: DataStore): (int, DataStore)
  {
    (ds.nextObjectId, ds.(nextObjectId := ds.nextObjectId + 1))
  }

  /** `DataStore.get_library_id` */
  function GetLibraryId(ds: DataStore): (int, DataStore)
  {
    (ds.nextLibraryId, ds.(nextLibraryId := ds.nextLibraryId + 1))
  }

  /** The ids k successive `get_object_id` calls return, and the store after them. */
  function ObjectIdRun(ds: DataStore, k: nat): (seq<int>, DataStore)
    decreases k
  {
    if k == 0 then ([], ds)
    else
      var (id, ds1) := GetObjectId(ds);
      var (rest, ds2) := ObjectIdRun(ds1, k - 1);
      ([id] + rest, ds2)
  }

  /** The ids k successive `get_library_id` calls return, and the store after them. */
  function LibraryIdRun(ds: DataStore, k: nat): (seq<int>, DataStore)
    decreases k
  {
    if k == 0 then ([], ds)
    else
      var (id, ds1) := GetLibraryId(ds);
      var (rest, ds2) := LibraryIdRun(ds1, k - 1);
      ([id] + rest, ds2)
  }

  /** Object ids count up from the counter, one per call, and only the counter
      changes: from a fresh store the ids are 1, 2, 3, ..., never repeated. */
  lemma {:induction false} ObjectIdsCountUp(ds: DataStore, k: nat)
    ensures |ObjectIdRun(ds, k).0| == k
    ensures forall i | 0 <= i < k :: ObjectIdRun(ds, k).0[i] == ds.nextObjectId + i
    ensures ObjectIdRun(ds, k).1 == ds.(nextObjectId := ds.nextObjectId + k)
    ensures ds == EmptyStore ==> forall i | 0 <= i < k :: ObjectIdRun(ds, k).0[i] == i + 1
    decreases k
  {
    if k > 0 {
      ObjectIdsCountUp(GetObjectId(ds).1, k - 1);
    }
  }

  /** Library ids behave the same way on their own counter. */
  lemma {:induction false} LibraryIdsCountUp(ds: DataStore, k: nat)
    ensures |LibraryIdRun(ds, k).0| == k
    ensures forall i | 0 <= i < k :: LibraryIdRun(ds, k).0[i] == ds.nextLibraryId + i
    ensures LibraryIdRun(ds, k).1 == ds.(nextLibraryId := ds.nextLibraryId + k)
    ensures ds == EmptyStore ==> forall i | 0 <= i < k :: LibraryIdRun(ds, k).0[i] == i + 1
    decreases k
  {
    if k > 0 {
      LibraryIdsCountUp(GetLibraryId(ds).1, k - 1);
    }
  }
}
