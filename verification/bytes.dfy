/** Bytes, little-endian integers and a byte stream read through a cursor.

    The Python reader pulls bytes from a file object with `fp.read(n)` and
    turns them into integers with `int.from_bytes(..., 'little', signed=...)`.
    Here the stream is an immutable byte sequence `s` and the file position is
    an explicit cursor `pos`; every read returns the value and the new cursor.
 */
module Bytes {
  import opened Wrappers

  newtype byte = x: int | 0 <= x < 256

  type Bytes = seq<byte>

  /** 256^n */
  function Pow256(n: nat): (r: nat)
    ensures r > 0
  {
    if n == 0 then 1 else 256 * Pow256(n - 1)
  }

  /** `int.from_bytes(bs, 'little', signed=False)` */
  function LeUnsigned(bs: Bytes): nat
  {
    if |bs| == 0 then 0 else bs[0] as nat + 256 * LeUnsigned(bs[1..])
  }

  /** An unsigned little-endian number of n bytes is below 256^n. */
  lemma {:induction false} LeUnsignedBound(bs: Bytes)
    ensures LeUnsigned(bs) < Pow256(|bs|)
  {
    if |bs| > 0 {
      LeUnsignedBound(bs[1..]);
    }
  }

  /** `int.from_bytes(bs, 'little', signed=True)`: two's complement over 8*|bs| bits. */
  function LeSigned(bs: Bytes): (r: int)
    ensures |bs| > 0 ==> -(Pow256(|bs|) / 2) <= r < Pow256(|bs|) / 2
    ensures r >= 0 ==> r == LeUnsigned(bs)
    ensures r < 0 ==> r + Pow256(|bs|) == LeUnsigned(bs)
  {
    LeUnsignedBound(bs);
    var u := LeUnsigned(bs);
    if |bs| > 0 then Pow256Even(|bs|); (if 2 * u >= Pow256(|bs|) then u - Pow256(|bs|) else u)
    else u
  }

  lemma {:induction false} Pow256Even(n: nat)
    requires n > 0
    ensures Pow256(n) == 2 * (Pow256(n) / 2)
  {
    assert Pow256(n) == 256 * Pow256(n - 1);
  }

  /** `v.to_bytes(n, 'little', signed=False)` for a v that fits. */
  function LeEncode(v: nat, n: nat): (r: Bytes)
    requires v < Pow256(n)
    ensures |r| == n
  {
    if n == 0 then [] else [(v % 256) as byte] + LeEncode(v / 256, n - 1)
  }

  /** Decoding an encoding gives the number back. */
  lemma {:induction false} LeDecodeEncode(v: nat, n: nat)
    requires v < Pow256(n)
    ensures LeUnsigned(LeEncode(v, n)) == v
  {
    if n > 0 {
      var r := LeEncode(v, n);
      assert r[1..] == LeEncode(v / 256, n - 1);
      LeDecodeEncode(v / 256, n - 1);
    }
  }

  /** Encoding a decoding gives the bytes back. */
  lemma {:induction false} LeEncodeDecode(bs: Bytes)
    ensures LeUnsigned(bs) < Pow256(|bs|)
    ensures LeEncode(LeUnsigned(bs), |bs|) == bs
  {
    LeUnsignedBound(bs);
    if |bs| > 0 {
      var rest := LeUnsigned(bs[1..]);
      LeEncodeDecode(bs[1..]);
      DivMod256(bs[0] as nat, rest);
      assert LeEncode(LeUnsigned(bs), |bs|) == [bs[0]] + LeEncode(rest, |bs| - 1);
      assert bs == [bs[0]] + bs[1..];
    }
  }

  lemma {:induction false} DivMod256(low: nat, high: nat)
    requires low < 256
    ensures (low + 256 * high) % 256 == low
    ensures (low + 256 * high) / 256 == high
  {
  }

  const Int32Min: int := -0x8000_0000
  const Int32Max: int := 0x7FFF_FFFF

  predicate IsInt32(v: int) {
    Int32Min <= v <= Int32Max
  }

  /** `v.to_bytes(4, 'little', signed=True)`: OverflowError outside the int32 range. */
  function EncodeInt32(v: int): (r: Result<Bytes>)
    ensures r.Ok? <==> IsInt32(v)
    ensures r.Ok? ==> |r.value| == 4
  {
    if !IsInt32(v) then Err(Overflow)
    else Ok(LeEncode(if v < 0 then v + 0x1_0000_0000 else v, 4))
  }

  /** The four bytes of an int32 decode, two's complement, to the same int32. */
  lemma {:induction false} Int32RoundTrip(v: int)
    requires IsInt32(v)
    ensures EncodeInt32(v).Ok?
    ensures LeSigned(EncodeInt32(v).value) == v
  {
    var u := if v < 0 then v + 0x1_0000_0000 else v;
    assert Pow256(4) == 0x1_0000_0000;
    LeDecodeEncode(u, 4);
  }

  /** Every four-byte group is the encoding of the int32 it decodes to. */
  lemma {:induction false} Int32Surjective(bs: Bytes)
    requires |bs| == 4
    ensures IsInt32(LeSigned(bs))
    ensures EncodeInt32(LeSigned(bs)) == Ok(bs)
  {
    assert Pow256(4) == 0x1_0000_0000;
    LeEncodeDecode(bs);
  }

  /** `fp.read(1)[0]`: one byte, IndexError at the end of the stream. */
  function ReadByte(s: Bytes, pos: nat): (r: Result<(byte, nat)>)
    requires pos <= |s|
    ensures r.Ok? <==> pos < |s|
    ensures r.Ok? ==> r.value == (s[pos], pos + 1)
  {
    if pos < |s| then Ok((s[pos], pos + 1)) else Err(EndOfStream)
  }

  /** Pieces written one after the other, grouped from the front or from the
      back. */
  lemma {:induction false} Regroup(pre: Bytes, x: Bytes, y: Bytes, rest: Bytes)
    ensures pre + (x + y) + rest == pre + x + (y + rest)
    ensures pre + (x + y) + rest == (pre + x) + y + rest
    ensures pre + (x + y + rest) == pre + x + (y + rest)
  {
  }

  /** `fp.read(n)` as Python performs it: at most n bytes, fewer at the end. */
  function ReadAvailable(s: Bytes, pos: nat, n: nat): (r: (Bytes, nat))
    requires pos <= |s|
    ensures r.1 <= |s| && r.1 - pos == |r.0|
    ensures |r.0| == if pos + n <= |s| then n else |s| - pos
    ensures r.0 == s[pos..r.1]
  {
    if pos + n <= |s| then (s[pos..pos + n], pos + n) else (s[pos..], |s|)
  }

  /** Reads exactly n bytes, failing when fewer remain. */
  function ReadExact(s: Bytes, pos: nat, n: nat): (r: Result<(Bytes, nat)>)
    requires pos <= |s|
    ensures r.Ok? <==> pos + n <= |s|
    ensures r.Ok? ==> r.value.1 == pos + n && r.value.0 == s[pos..pos + n]
  {
    if pos + n <= |s| then Ok((s[pos..pos + n], pos + n)) else Err(EndOfStream)
  }

  /** `int.from_bytes(fp.read(4), 'little', signed=True)` exactly as written:
      a truncated stream yields a shorter, silently accepted number. */
  function ReadInt32AsWritten(s: Bytes, pos: nat): (r: (int, nat))
    requires pos <= |s|
    ensures pos <= r.1 <= |s|
    ensures r.1 == if pos + 4 <= |s| then pos + 4 else |s|
    ensures r.0 == LeSigned(s[pos..r.1])
  {
    var (bs, next) := ReadAvailable(s, pos, 4);
    (LeSigned(bs), next)
  }

  /** Reads a four-byte little-endian signed integer; a truncated stream is an error. */
  function ReadInt32(s: Bytes, pos: nat): (r: Result<(int, nat)>)
    requires pos <= |s|
    ensures r.Ok? <==> pos + 4 <= |s|
    ensures r.Ok? ==> r.value.1 == pos + 4 && IsInt32(r.value.0)
    ensures r.Ok? ==> EncodeInt32(r.value.0) == Ok(s[pos..pos + 4])
  {
    if pos + 4 <= |s| then
      Int32Surjective(s[pos..pos + 4]);
      Ok((LeSigned(s[pos..pos + 4]), pos + 4))
    else Err(EndOfStream)
  }

  /** On a complete four-byte field the corrected reader agrees with the source. */
  lemma {:induction false} ReadInt32AgreesWhenComplete(s: Bytes, pos: nat)
    requires pos + 4 <= |s|
    ensures ReadInt32(s, pos) == Ok(ReadInt32AsWritten(s, pos))
  {
  }

  /** A stream that ends two bytes into an int32 field: the source reads the
      two bytes as a complete int32 (value 1), the corrected reader fails. */
  lemma {:induction false} TruncatedInt32Example()
    ensures ReadInt32AsWritten([1, 0], 0) == (1, 2)
    ensures ReadInt32([1, 0], 0) == Err(EndOfStream)
  {
    assert LeUnsigned([0 as byte]) == 0;
    assert LeUnsigned([1, 0]) == 1 + 256 * LeUnsigned([0 as byte]);
  }
}
