/** The top of `BinaryFormatter` (dotnet/io/binary.py): the record loop, the
    resolution of InstanceReferences once the loop ends, and `read`, which
    returns the root object named by the stream's header. */
module Formatter {
  import opened Wrappers
  import opened Bytes
  import opened Enums
  import opened Objects
  import opened Reader
  import opened Records

  // ---------------------------------------------------------------------------
  // The record loop

  /** `read_record`: one record. MessageEnd reads as `false` and ends the loop;
      a record type with an empty dispatch slot is not implemented; every
      other record is read by its reader and reads as `true`. */
  function ReadRecord(s: Bytes, pos: nat, rd: Reader): (r: Result<Step<bool>>)
    requires pos <= |s|
    ensures pos == |s| ==> r == Err(EndOfStream)
    ensures pos < |s| && RecordTypeOf(s[pos] as int).Err? ==> r == Err(UnknownEnumValue)
    ensures pos < |s| && (s[pos] == 18 || s[pos] == 22) ==> r == Err(RecordNotImplemented)
    ensures (r.Ok? && !r.value.value) <==> pos < |s| && s[pos] == 11
    ensures pos < |s| && s[pos] == 11 ==> r == Ok(Step(false, pos + 1, rd))
    ensures r.Ok? ==> pos < r.value.next <= |s|
    ensures r.Ok? && Good(rd) ==> Good(r.value.reader)
  {
    var b :- ReadByte(s, pos);
    var t :- RecordTypeOf(b.0 as int);
    if t == MessageEnd then Ok(Step(false, b.1, rd))
    else if !HasReader(t) then Err(RecordNotImplemented)
    else
      var v :- ReadRecordBody(s, b.1, rd, t);
      Ok(Step(true, v.next, v.reader))
  }

  /** `while self.read_record(fp): pass`: records up to and including the
      first MessageEnd; the result is the position after it. */
  function ReadRecords(s: Bytes, pos: nat, rd: Reader): (r: Result<(nat, Reader)>)
    requires pos <= |s|
    ensures r.Ok? ==> pos < r.value.0 <= |s| && s[r.value.0 - 1] == 11
    ensures pos < |s| && s[pos] == 11 ==> r == Ok((pos + 1, rd))
    ensures pos == |s| ==> r == Err(EndOfStream)
    ensures r.Ok? && Good(rd) ==> Good(r.value.1)
    decreases |s| - pos
  {
    var rec :- ReadRecord(s, pos, rd);
    if !rec.value then Ok((rec.next, rec.reader))
    else ReadRecords(s, rec.next, rec.reader)
  }

  // ---------------------------------------------------------------------------
  // Resolving references

  /** The loop of `resolve_references`, one pending reference at a time: the
      stream object id in the reference's cell is replaced by the store id the
      object id map gives it, and an id the map lacks is a KeyError. */
  function ResolveCells(cells: seq<int>, refs: seq<nat>, idMap: map<int, int>): (r: Result<seq<int>>)
    requires forall j | 0 <= j < |refs| :: refs[j] < |cells|
    ensures r.Ok? ==> |r.value| == |cells|
    ensures r.Err? ==> r.error == MissingKey
    decreases |refs|
  {
    if |refs| == 0 then Ok(cells)
    else
      var c := refs[0];
      if cells[c] !in idMap then Err(MissingKey)
      else ResolveCells(cells[c := idMap[cells[c]]], refs[1..], idMap)
  }

  /** No reference is listed twice. */
  predicate Distinct(refs: seq<nat>) {
    forall j, k | 0 <= j < k < |refs| :: refs[j] != refs[k]
  }

  /** Every pending reference names an object the map knows. */
  predicate AllMapped(cells: seq<int>, refs: seq<nat>, idMap: map<int, int>)
    requires forall j | 0 <= j < |refs| :: refs[j] < |cells|
  {
    forall j | 0 <= j < |refs| :: cells[refs[j]] in idMap
  }

  /** The cells after resolution, described cell by cell: a pending cell holds
      the store id of the object its stream id names, any other cell is as it
      was. */
  predicate Resolved(cells: seq<int>, refs: seq<nat>, idMap: map<int, int>, result: seq<int>)
    requires forall j | 0 <= j < |refs| :: refs[j] < |cells|
  {
    && |result| == |cells|
    && (forall j | 0 <= j < |refs| :: cells[refs[j]] in idMap && result[refs[j]] == idMap[cells[refs[j]]])
    && (forall c | 0 <= c < |cells| && c !in refs :: result[c] == cells[c])
  }

  /** With distinct pending references, resolution succeeds exactly when every
      one of them names a mapped object, and then rewrites exactly those
      cells. */
  lemma {:induction false} ResolveCellsMeaning(cells: seq<int>, refs: seq<nat>, idMap: map<int, int>)
    requires forall j | 0 <= j < |refs| :: refs[j] < |cells|
    requires Distinct(refs)
    ensures ResolveCells(cells, refs, idMap).Ok? <==> AllMapped(cells, refs, idMap)
    ensures ResolveCells(cells, refs, idMap).Ok? ==> Resolved(cells, refs, idMap, ResolveCells(cells, refs, idMap).value)
    decreases |refs|
  {
    if |refs| > 0 {
      var c := refs[0];
      if cells[c] in idMap {
        var cells' := cells[c := idMap[cells[c]]];
        var tail := refs[1..];
        assert Distinct(tail) by {
          forall j, k | 0 <= j < k < |tail| ensures tail[j] != tail[k] {
            assert tail[j] == refs[j + 1] && tail[k] == refs[k + 1];
          }
        }
        assert forall j | 0 <= j < |tail| :: tail[j] != c && cells'[tail[j]] == cells[tail[j]] by {
          forall j | 0 <= j < |tail| ensures tail[j] != c && cells'[tail[j]] == cells[tail[j]] {
            assert tail[j] == refs[j + 1];
          }
        }
        ResolveCellsMeaning(cells', tail, idMap);
        if ResolveCells(cells', tail, idMap).Ok? {
          var res := ResolveCells(cells', tail, idMap).value;
          assert res[c] == idMap[cells[c]] by {
            assert c !in tail;
          }
          forall j | 0 <= j < |refs|
            ensures cells[refs[j]] in idMap && res[refs[j]] == idMap[cells[refs[j]]]
          {
            if j > 0 {
              assert refs[j] == tail[j - 1];
            }
          }
          forall x | 0 <= x < |cells| && x !in refs
            ensures res[x] == cells[x]
          {
            assert x != c;
            assert x !in tail by {
              assert tail == refs[1..];
            }
          }
        } else {
          var j :| 0 <= j < |tail| && cells'[tail[j]] !in idMap;
          assert refs[j + 1] == tail[j];
        }
      }
    }
  }

  /** `resolve_references`: every pending reference is resolved through the
      object id map and the list of pending references is emptied; nothing
      else in the formatter changes. */
  function ResolveReferences(rd: Reader): (r: Result<Reader>)
    requires Good(rd)
    ensures r.Ok? <==> AllMapped(rd.cells, rd.state.references, rd.state.objectIdMap)
    ensures r.Err? ==> r.error == MissingKey
    ensures r.Ok? ==> && Resolved(rd.cells, rd.state.references, rd.state.objectIdMap, r.value.cells)
                      && r.value.state == rd.state.(references := [])
                      && r.value.store == rd.store && r.value.strict == rd.strict
    ensures r.Ok? ==> Good(r.value)
  {
    ResolveCellsMeaning(rd.cells, rd.state.references, rd.state.objectIdMap);
    var cells :- ResolveCells(rd.cells, rd.state.references, rd.state.objectIdMap);
    Ok(rd.(cells := cells, state := rd.state.(references := [])))
  }

  // ---------------------------------------------------------------------------
  // read

  /** `root_object`: the instance registered under the header's root id. */
  function RootObject(rd: Reader): (r: Result<Instance>)
    ensures r.Ok? <==> rd.state.rootId in rd.state.objects
    ensures r.Ok? ==> r.value == rd.state.objects[rd.state.rootId]
    ensures r.Err? ==> r.error == MissingKey
  {
    if rd.state.rootId in rd.state.objects then Ok(rd.state.objects[rd.state.rootId])
    else Err(MissingKey)
  }

  /** `read`: the header (its record byte included), the records up to
      MessageEnd, the resolution of the references, and the root object. The
      formatter after the read is returned with it. */
  function Read(s: Bytes, rd: Reader): (r: Result<(Instance, Reader)>)
    requires Good(rd)
    ensures ReadHeader(s, 0, rd, true).Err? ==> r == Err(ReadHeader(s, 0, rd, true).error)
    ensures r.Ok? ==> && 18 <= |s| && s[0] == 0
                      && r.value.1.state.references == []
                      && r.value.1.state.rootId in r.value.1.state.objects
                      && r.value.0 == r.value.1.state.objects[r.value.1.state.rootId]
                      && Good(r.value.1)
    ensures r.Ok? && rd.strict ==> LeSigned(s[9..13]) == 1 && LeSigned(s[13..17]) == 0
  {
    var h :- ReadHeader(s, 0, rd, true);
    var records :- ReadRecords(s, h.next, h.reader);
    var rd2 :- ResolveReferences(records.1);
    var root :- RootObject(rd2);
    Ok((root, rd2))
  }

  // ---------------------------------------------------------------------------
  // The streams of tests/test_io_binary.py

  /** The header the test streams share: root id 1, header id 1, version 1.0. */
  lemma {:induction false} TestHeader(s: Bytes, rd: Reader)
    requires 17 <= |s| && s[..17] == [0, 1, 0, 0, 0, 1, 0, 0, 0, 1, 0, 0, 0, 0, 0, 0, 0]
    ensures ReadHeader(s, 0, rd, true)
            == Ok(Step(HeaderTuple(1, 1, 1, 0), 17,
                       rd.(state := rd.state.(rootId := 1, headerId := 1, majorVersion := 1, minorVersion := 0))))
  {
    assert s[0] == s[..17][0] && s[1] == s[..17][1] && s[2] == s[..17][2] && s[3] == s[..17][3] && s[4] == s[..17][4];
    assert s[5] == s[..17][5] && s[6] == s[..17][6] && s[7] == s[..17][7] && s[8] == s[..17][8];
    assert s[9] == s[..17][9] && s[10] == s[..17][10] && s[11] == s[..17][11] && s[12] == s[..17][12];
    assert s[13] == s[..17][13] && s[14] == s[..17][14] && s[15] == s[..17][15] && s[16] == s[..17][16];
    Int32Value(s, 1, 1);
    Int32Value(s, 5, 1);
    Int32Value(s, 9, 1);
    Int32Value(s, 13, 0);
  }

  /** A header naming root object 1, then MessageEnd: no object 1 was read. */
  lemma {:induction false} MissingRootExample(ds: DataStore, permissive: bool)
    ensures Read([0, 1, 0, 0, 0, 1, 0, 0, 0, 1, 0, 0, 0, 0, 0, 0, 0, 11], NewReader(ds, permissive)) == Err(MissingKey)
  {
    var s: Bytes := [0, 1, 0, 0, 0, 1, 0, 0, 0, 1, 0, 0, 0, 0, 0, 0, 0, 11];
    var rd := NewReader(ds, permissive);
    TestHeader(s, rd);
    var h := ReadHeader(s, 0, rd, true).value;
    assert ReadRecords(s, 17, h.reader) == Ok((18, h.reader));
  }

  /** A first record byte other than 0 is refused. */
  lemma {:induction false} BadHeaderRecordExample(rd: Reader)
    requires Good(rd)
    ensures Read([1, 0, 0, 0, 0, 0, 0, 0, 0], rd) == Err(BadHeaderRecord)
  {
  }

  /** A strict formatter refuses a major version other than 1. */
  lemma {:induction false} BadMajorVersionExample(ds: DataStore)
    ensures Read([0, 1, 0, 0, 0, 1, 0, 0, 0, 0x50, 0, 0, 0, 0, 0, 0, 0], NewReader(ds, false)) == Err(BadVersion)
  {
    var s: Bytes := [0, 1, 0, 0, 0, 1, 0, 0, 0, 0x50, 0, 0, 0, 0, 0, 0, 0];
    Int32Value(s, 9, 0x50);
  }

  /** A strict formatter refuses a minor version other than 0. */
  lemma {:induction false} BadMinorVersionExample(ds: DataStore)
    ensures Read([0, 1, 0, 0, 0, 1, 0, 0, 0, 1, 0, 0, 0, 0x50, 0, 0, 0], NewReader(ds, false)) == Err(BadVersion)
  {
    var s: Bytes := [0, 1, 0, 0, 0, 1, 0, 0, 0, 1, 0, 0, 0, 0x50, 0, 0, 0];
    Int32Value(s, 9, 1);
    Int32Value(s, 13, 0x50);
  }

  /** The "Hello World" stream of the tests: the header, a BinaryObjectString
      record (tag 6) with object id 1 and an 11-byte string, and MessageEnd. */
  const HelloWorld: Bytes := [0, 1, 0, 0, 0, 1, 0, 0, 0, 1, 0, 0, 0, 0, 0, 0, 0,
                              6, 1, 0, 0, 0, 11, 72, 101, 108, 108, 111, 32, 87, 111, 114, 108, 100,
                              11]

  /** Tag 6 goes straight to `read_string_raw`, so the first byte of the
      object id is taken for the string's length: the string is one 0 byte. */
  lemma {:induction false} ObjectIdReadAsString(s: Bytes, rd: Reader)
    requires 20 <= |s| && s[17] == 6 && s[18] == 1
    ensures ReadRecord(s, 17, rd) == Ok(Step(true, 20, rd))
  {
    var w := s[18..];
    assert w[..1] == [1];
    VarInt.Base128Chain(1, 0, 0, 0, 0);
    assert VarInt.ValidChain(w, 1);
    assert ReadStringRaw(s, 18) == Ok((s[19..20], 20));
    assert RecordTypeOf(6) == Ok(BinaryObjectString);
  }

  /** A field, complete or short, whose low byte is above 1 is not 1. */
  lemma {:induction false} NotOne(f: Bytes)
    requires 0 < |f| && f[0] > 1
    ensures LeSigned(f) != 1
  {
    assert LeUnsigned(f) == f[0] as nat + 256 * LeUnsigned(f[1..]);
  }

  /** The rest of the object id, 0, is then taken for a header record; its
      fields run into the string, and the major version is "orld". With the
      int32 reads of this model a stream that ends inside the minor version
      runs out; the source reads on (see StringTakenForHeaderAsWritten). */
  lemma {:induction false} StringTakenForHeader(s: Bytes, rd: Reader)
    requires Good(rd) && rd.strict
    requires 21 < |s| && s[20] == 0 && s[21] == 0
    requires 34 <= |s| && s[30] == 111
    ensures |s| < 38 ==> ReadRecord(s, 20, rd) == Err(EndOfStream)
    ensures |s| >= 38 ==> ReadRecord(s, 20, rd) == Err(BadVersion)
  {
    NotOne(s[30..34]);
    assert RecordTypeOf(0) == Ok(SerializedStreamHeader);
    assert ReadRecordBody(s, 21, rd, SerializedStreamHeader) == ReadHeader(s, 21, rd, true);
  }

  /** The records after the header: the misread string, then the misread
      header. */
  lemma {:induction false} MisreadRecords(s: Bytes, rd: Reader)
    requires Good(rd) && rd.strict
    requires 34 <= |s| && s[17] == 6 && s[18] == 1 && s[20] == 0 && s[21] == 0 && s[30] == 111
    ensures |s| < 38 ==> ReadRecords(s, 17, rd) == Err(EndOfStream)
    ensures |s| >= 38 ==> ReadRecords(s, 17, rd) == Err(BadVersion)
  {
    ObjectIdReadAsString(s, rd);
    StringTakenForHeader(s, rd);
    assert ReadRecords(s, 17, rd) == ReadRecords(s, 20, rd);
  }

  /** Any stream that starts as the "Hello World" stream does fails the same
      way in `read`. */
  lemma {:induction false} MisreadStream(s: Bytes, rd: Reader)
    requires Good(rd) && rd.strict
    requires 34 <= |s| && s[..17] == HelloWorld[..17]
    requires s[17] == 6 && s[18] == 1 && s[20] == 0 && s[21] == 0 && s[30] == 111
    ensures |s| < 38 ==> Read(s, rd) == Err(EndOfStream)
    ensures |s| >= 38 ==> Read(s, rd) == Err(BadVersion)
  {
    TestHeader(s, rd);
    MisreadRecords(s, ReadHeader(s, 0, rd, true).value.reader);
  }

  /** The tests expect both streams to read as "Hello World". With the int32
      reads of this model, the stream runs out inside the misread header, and
      with four more bytes a strict formatter refuses its version. The source
      refuses the version on both (HelloWorldAsWritten). */
  lemma {:induction false} HelloWorldExample(ds: DataStore)
    ensures Read(HelloWorld, NewReader(ds, false)) == Err(EndOfStream)
    ensures Read(HelloWorld + [0, 0, 0, 0], NewReader(ds, false)) == Err(BadVersion)
  {
    var rd := NewReader(ds, false);
    HelloWorldBytes(HelloWorld);
    HelloWorldBytes(HelloWorld + [0, 0, 0, 0]);
    MisreadStream(HelloWorld, rd);
    MisreadStream(HelloWorld + [0, 0, 0, 0], rd);
  }

  /** The misread header as the source reads it: its fields are read short
      rather than refused, so as much of "orld" as the stream holds is the
      major version, and a strict formatter refuses it. */
  lemma {:induction false} StringTakenForHeaderAsWritten(s: Bytes, rd: Reader)
    requires rd.strict
    requires 31 <= |s| && s[21] == 0 && s[30] == 111
    ensures ReadHeaderAsWritten(s, 21, rd, true) == Err(BadVersion)
  {
    assert ReadHeaderByte(s, 21) == Ok(22);
    assert ReadInt32AsWritten(s, 22).1 == 26;
    assert ReadInt32AsWritten(s, 26).1 == 30;
    var major := ReadInt32AsWritten(s, 30);
    assert s[30..major.1][0] == 111;
    NotOne(s[30..major.1]);
  }

  /** In the source, the records in front of position 20 read as in this
      model, and the header misread there refuses its version on both
      "Hello World" streams, the 35-byte one included. */
  lemma {:induction false} HelloWorldAsWritten(rd: Reader)
    requires rd.strict
    ensures ReadHeaderAsWritten(HelloWorld, 21, rd, true) == Err(BadVersion)
    ensures ReadHeaderAsWritten(HelloWorld + [0, 0, 0, 0], 21, rd, true) == Err(BadVersion)
  {
    HelloWorldBytes(HelloWorld);
    HelloWorldBytes(HelloWorld + [0, 0, 0, 0]);
    StringTakenForHeaderAsWritten(HelloWorld, rd);
    StringTakenForHeaderAsWritten(HelloWorld + [0, 0, 0, 0], rd);
  }

  /** The bytes of the two streams the misreading depends on. */
  lemma {:induction false} HelloWorldBytes(s: Bytes)
    requires s == HelloWorld || s == HelloWorld + [0, 0, 0, 0]
    ensures 34 <= |s| && s[..17] == HelloWorld[..17]
    ensures s[17] == 6 && s[18] == 1 && s[20] == 0 && s[21] == 0 && s[30] == 111
    ensures |s| < 38 <==> s == HelloWorld
  {
    assert HelloWorld[17] == 6;
    if s != HelloWorld {
      assert s[..17] == HelloWorld[..17];
    }
  }
}
