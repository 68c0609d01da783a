/** The 7-bits-per-byte length prefix of a LengthPrefixedString
    (section 2.1.1.6 of [MS-NRBF]), as `dotnet/utils.py` encodes, decodes
    and reads it.

    Each byte carries seven value bits, least significant group first; bit 7
    set means another byte follows. At most five bytes are used and the value
    must not exceed 2^31 - 1.
 */
module VarInt {
  import opened Wrappers
  import opened Bytes

  const MaxValue: int := 0x7FFF_FFFF

  /** 128^n */
  function Pow128(n: nat): (r: nat)
    ensures r > 0
  {
    if n == 0 then 1 else 128 * Pow128(n - 1)
  }

  /** The value of a byte group read as base-128 digits, least significant first,
      ignoring every continuation bit. This is the reference the codec is checked
      against. */
  function Base128(bs: Bytes): nat
  {
    if |bs| == 0 then 0 else (bs[0] as nat) % 128 + 128 * Base128(bs[1..])
  }

  /** bs[..n] is a well-formed encoding: 1 to 5 bytes, continuation bit set on
      every byte but the last, and a value that fits in 31 bits. */
  predicate ValidChain(bs: Bytes, n: nat)
  {
    && 1 <= n <= 5 && n <= |bs|
    && bs[n - 1] < 128
    && (forall i :: 0 <= i < n - 1 ==> bs[i] >= 128)
    && Base128(bs[..n]) <= MaxValue
  }

  lemma {:induction false} Base128Snoc(bs: Bytes, b: byte)
    ensures Base128(bs + [b]) == Base128(bs) + ((b as nat) % 128) * Pow128(|bs|)
  {
    if |bs| > 0 {
      assert (bs + [b])[1..] == bs[1..] + [b];
      Base128Snoc(bs[1..], b);
      var d := (b as nat) % 128;
      var p := Pow128(|bs| - 1);
      var a := Base128(bs[1..]);
      assert Pow128(|bs|) == 128 * p;
      assert Base128(bs + [b]) == (bs[0] as nat) % 128 + 128 * (a + d * p);
      Distribute(a, d, p);
    }
  }

  lemma {:induction false} Distribute(a: nat, d: nat, p: nat)
    ensures 128 * (a + d * p) == 128 * a + d * (128 * p)
  {
  }

  // ---------------------------------------------------------------------------
  // encode_multi_byte_int

  /** Lays out five seven-bit groups, least significant first, setting bit 7 on
      every group that has a nonzero group after it and dropping the trailing
      zero groups (dotnet/utils.py:16-29 after the shifts and masks). */
  function Groups(d0: nat, d1: nat, d2: nat, d3: nat, d4: nat): (r: Bytes)
    requires d0 < 128 && d1 < 128 && d2 < 128 && d3 < 128 && d4 < 128
  {
    var b5 := d4;
    var b4 := d3 + (if b5 > 0 then 128 else 0);
    var b3 := d2 + (if b4 > 0 then 128 else 0);
    var b2 := d1 + (if b3 > 0 then 128 else 0);
    var b1 := d0 + (if b2 > 0 then 128 else 0);
    if b5 > 0 then [b1 as byte, b2 as byte, b3 as byte, b4 as byte, b5 as byte]
    else if b4 > 0 then [b1 as byte, b2 as byte, b3 as byte, b4 as byte]
    else if b3 > 0 then [b1 as byte, b2 as byte, b3 as byte]
    else if b2 > 0 then [b1 as byte, b2 as byte]
    else [b1 as byte]
  }

  /** The encoder of dotnet/utils.py:7-29, parameterised by the mask applied to
      the fifth group (the source uses 0x03). */
  function EncodeWithTopMask(v: int, topMask: nat): (r: Result<Bytes>)
    requires topMask == 0x03 || topMask == 0x07
  {
    if v > MaxValue || v < 0 then Err(VarIntOutOfRange)
    else
      var top := v / 0x1000_0000;
      Ok(Groups(v % 128, (v / 0x80) % 128, (v / 0x4000) % 128, (v / 0x20_0000) % 128,
                if topMask == 0x03 then top % 4 else top % 8))
  }

  /** `encode_multi_byte_int` as written: the fifth byte keeps only two bits. */
  function Encode(v: int): (r: Result<Bytes>)
    ensures r.Ok? <==> 0 <= v <= MaxValue
    ensures r.Ok? ==> 1 <= |r.value| <= 5
    ensures r.Ok? ==> r.value[|r.value| - 1] < 128
    ensures r.Ok? ==> forall i :: 0 <= i < |r.value| - 1 ==> r.value[i] >= 128
  {
    EncodeWithTopMask(v, 0x03)
  }

  /** The encoder with the fifth byte masked to the three bits a 31-bit value needs. */
  function EncodeCorrected(v: int): (r: Result<Bytes>)
    ensures r.Ok? <==> 0 <= v <= MaxValue
    ensures r.Ok? ==> 1 <= |r.value| <= 5
    ensures r.Ok? ==> r.value[|r.value| - 1] < 128
    ensures r.Ok? ==> forall i :: 0 <= i < |r.value| - 1 ==> r.value[i] >= 128
  {
    EncodeWithTopMask(v, 0x07)
  }

  /** Encoding is minimal: the byte count grows only at 2^7, 2^14, 2^21 and 2^28. */
  lemma {:induction false} EncodeLength(v: int)
    requires 0 <= v <= MaxValue
    ensures v < 0x80 ==> |Encode(v).value| == 1
    ensures 0x80 <= v < 0x4000 ==> |Encode(v).value| == 2
    ensures 0x4000 <= v < 0x20_0000 ==> |Encode(v).value| == 3
    ensures 0x20_0000 <= v < 0x1000_0000 ==> |Encode(v).value| == 4
    ensures 0x1000_0000 <= v < 0x4000_0000 ==> |Encode(v).value| == 5
    ensures v < 0x4000_0000 ==> |EncodeCorrected(v).value| == |Encode(v).value|
    ensures 0x1000_0000 <= v ==> |EncodeCorrected(v).value| == 5
  {
    if v < 0x4000_0000 {
      EncodeWidth(v, 0x03);
    }
    EncodeWidth(v, 0x07);
  }

  /** The number of bytes a value needs at seven bits per byte. */
  function Width(v: nat): nat
  {
    if v < 0x80 then 1 else if v < 0x4000 then 2 else if v < 0x20_0000 then 3
    else if v < 0x1000_0000 then 4 else 5
  }

  lemma {:induction false} EncodeWidth(v: int, topMask: nat)
    requires topMask == 0x03 || topMask == 0x07
    requires 0 <= v <= MaxValue
    requires topMask == 0x03 ==> v < 0x4000_0000
    ensures EncodeWithTopMask(v, topMask).Ok?
    ensures |EncodeWithTopMask(v, topMask).value| == Width(v)
  {
    Digits(v);
    var d0, d1, d2, d3, top := v % 128, (v / 0x80) % 128, (v / 0x4000) % 128, (v / 0x20_0000) % 128, v / 0x1000_0000;
    assert (if topMask == 0x03 then top % 4 else top % 8) == top;
    assert EncodeWithTopMask(v, topMask) == Ok(Groups(d0, d1, d2, d3, top));
    GroupsLength(d0, d1, d2, d3, top);
    WidthOfDigits(v, d0, d1, d2, d3, top);
  }

  lemma {:induction false} WidthOfDigits(v: nat, d0: nat, d1: nat, d2: nat, d3: nat, d4: nat)
    requires d0 < 128 && d1 < 128 && d2 < 128 && d3 < 128
    requires v == d0 + 128 * (d1 + 128 * (d2 + 128 * (d3 + 128 * d4)))
    ensures Width(v) == if d4 > 0 then 5 else if d3 > 0 then 4 else if d2 > 0 then 3 else if d1 > 0 then 2 else 1
  {
  }

  lemma {:induction false} GroupsLength(d0: nat, d1: nat, d2: nat, d3: nat, d4: nat)
    requires d0 < 128 && d1 < 128 && d2 < 128 && d3 < 128 && d4 < 128
    ensures |Groups(d0, d1, d2, d3, d4)|
            == if d4 > 0 then 5 else if d3 > 0 then 4 else if d2 > 0 then 3 else if d1 > 0 then 2 else 1
  {
  }

  /** Dividing by 128 twice is dividing by 128^2, spelled out for the shifts the
      encoder uses. */
  lemma {:induction false} ShiftSteps(v: nat)
    ensures v / 0x4000 == (v / 0x80) / 0x80
    ensures v / 0x20_0000 == (v / 0x4000) / 0x80
    ensures v / 0x1000_0000 == (v / 0x20_0000) / 0x80
  {
    DivTwice(v, 0x80);
    DivTwice(v, 0x4000);
    DivTwice(v, 0x20_0000);
  }

  lemma {:induction false} DivTwice(v: nat, d: nat)
    requires d == 0x80 || d == 0x4000 || d == 0x20_0000
    ensures v / (d * 0x80) == (v / d) / 0x80
  {
    var q := v / d;
    var q2 := q / 0x80;
    assert v == d * q + v % d;
    assert q == 0x80 * q2 + q % 0x80;
    assert v == (d * 0x80) * q2 + (d * (q % 0x80) + v % d);
    assert 0 <= d * (q % 0x80) + v % d < d * 0x80;
  }

  /** The five seven-bit groups the encoder extracts recombine to v. */
  lemma {:induction false} Digits(v: nat)
    requires v <= MaxValue
    ensures v == v % 128 + 128 * ((v / 0x80) % 128 + 128 * ((v / 0x4000) % 128
                 + 128 * ((v / 0x20_0000) % 128 + 128 * (v / 0x1000_0000))))
    ensures v / 0x1000_0000 < 8
  {
    ShiftSteps(v);
    var q1 := v / 0x80;
    var q2 := q1 / 0x80;
    var q3 := q2 / 0x80;
    var q4 := q3 / 0x80;
    assert v == v % 128 + 128 * q1;
    assert q1 == q1 % 128 + 128 * q2;
    assert q2 == q2 % 128 + 128 * q3;
    assert q3 == q3 % 128 + 128 * q4;
  }

  lemma {:induction false} Base128Cons(b: byte, rest: Bytes)
    ensures Base128([b] + rest) == (b as nat) % 128 + 128 * Base128(rest)
  {
    assert ([b] + rest)[1..] == rest;
  }

  /** Base-128 value of a chain given byte by byte. */
  lemma {:induction false} Base128Chain(b1: byte, b2: byte, b3: byte, b4: byte, b5: byte)
    ensures Base128([b1]) == (b1 as nat) % 128
    ensures Base128([b1, b2]) == (b1 as nat) % 128 + 128 * ((b2 as nat) % 128)
    ensures Base128([b1, b2, b3]) == (b1 as nat) % 128 + 128 * ((b2 as nat) % 128 + 128 * ((b3 as nat) % 128))
    ensures Base128([b1, b2, b3, b4]) == (b1 as nat) % 128 + 128 * ((b2 as nat) % 128
              + 128 * ((b3 as nat) % 128 + 128 * ((b4 as nat) % 128)))
    ensures Base128([b1, b2, b3, b4, b5]) == (b1 as nat) % 128 + 128 * ((b2 as nat) % 128
              + 128 * ((b3 as nat) % 128 + 128 * ((b4 as nat) % 128 + 128 * ((b5 as nat) % 128))))
  {
    Base128Short(b1, b2, b3);
    Base128Short(b2, b3, b4);
    Base128Short(b3, b4, b5);
    Base128Cons(b1, [b2, b3, b4]);
    Base128Cons(b1, [b2, b3, b4, b5]);
    Base128Cons(b2, [b3, b4, b5]);
  }

  /** Base-128 value of chains of one to three bytes. */
  lemma {:induction false} Base128Short(b1: byte, b2: byte, b3: byte)
    ensures Base128([b1]) == (b1 as nat) % 128
    ensures Base128([b1, b2]) == (b1 as nat) % 128 + 128 * ((b2 as nat) % 128)
    ensures Base128([b1, b2, b3]) == (b1 as nat) % 128 + 128 * ((b2 as nat) % 128 + 128 * ((b3 as nat) % 128))
  {
    Base128Cons(b3, []);
    Base128Cons(b2, []);
    Base128Cons(b1, []);
    Base128Cons(b2, [b3]);
    Base128Cons(b1, [b2]);
    Base128Cons(b1, [b2, b3]);
  }

  /** The laid-out groups carry exactly the value of the digits. */
  lemma {:induction false} GroupsValue(d0: nat, d1: nat, d2: nat, d3: nat, d4: nat)
    requires d0 < 128 && d1 < 128 && d2 < 128 && d3 < 128 && d4 < 128
    ensures Base128(Groups(d0, d1, d2, d3, d4)) == d0 + 128 * (d1 + 128 * (d2 + 128 * (d3 + 128 * d4)))
  {
    var b5 := d4;
    var b4 := d3 + (if b5 > 0 then 128 else 0);
    var b3 := d2 + (if b4 > 0 then 128 else 0);
    var b2 := d1 + (if b3 > 0 then 128 else 0);
    var b1 := d0 + (if b2 > 0 then 128 else 0);
    assert ((b1 as byte) as nat) % 128 == d0;
    assert ((b2 as byte) as nat) % 128 == d1;
    assert ((b3 as byte) as nat) % 128 == d2;
    assert ((b4 as byte) as nat) % 128 == d3;
    assert ((b5 as byte) as nat) % 128 == d4;
    Base128Chain(b1 as byte, b2 as byte, b3 as byte, b4 as byte, b5 as byte);
    var g := Groups(d0, d1, d2, d3, d4);
    if d4 > 0 {
      assert g == [b1 as byte, b2 as byte, b3 as byte, b4 as byte, b5 as byte];
    } else if d3 > 0 {
      assert g == [b1 as byte, b2 as byte, b3 as byte, b4 as byte];
    } else if d2 > 0 {
      assert g == [b1 as byte, b2 as byte, b3 as byte];
    } else if d1 > 0 {
      assert g == [b1 as byte, b2 as byte];
    } else {
      assert g == [b1 as byte];
    }
  }

  /** Both encoders produce the base-128 digits of v (the source one below 2^30). */
  lemma {:induction false} EncodeDigits(v: int, topMask: nat)
    requires topMask == 0x03 || topMask == 0x07
    requires 0 <= v <= MaxValue
    requires topMask == 0x03 ==> v < 0x4000_0000
    ensures EncodeWithTopMask(v, topMask).Ok?
    ensures Base128(EncodeWithTopMask(v, topMask).value) == v
  {
    Digits(v);
    var top := v / 0x1000_0000;
    assert (if topMask == 0x03 then top % 4 else top % 8) == top;
    GroupsValue(v % 128, (v / 0x80) % 128, (v / 0x4000) % 128, (v / 0x20_0000) % 128, top);
  }

  /** Subtracting a multiple of a divisor shifts the quotient and keeps the
      remainder. */
  lemma {:induction false} DivSubtract(v: int, d: int, k: int)
    requires d > 0
    ensures (v - k * d) / d == v / d - k
    ensures (v - k * d) % d == v % d
  {
    var q := v / d;
    var r := v % d;
    assert v - k * d == (q - k) * d + r;
    DivUnique(v - k * d, d, q - k, r);
  }

  lemma {:induction false} DivUnique(x: int, d: int, q: int, r: int)
    requires d > 0 && 0 <= r < d && x == q * d + r
    ensures x / d == q && x % d == r
  {
    var q' := x / d;
    var r' := x % d;
    assert x == q' * d + r';
    assert (q - q') * d == r' - r;
    if q > q' {
      MulAtLeast(q - q', d);
    } else if q < q' {
      MulAtLeast(q' - q, d);
    }
  }

  lemma {:induction false} MulAtLeast(a: int, d: int)
    requires a >= 1 && d > 0
    ensures a * d >= d
  {
    assert a * d == (a - 1) * d + d;
  }

  /** The source encoder forgets bit 30: v and v - 2^30 encode identically. */
  lemma {:induction false} EncodeDropsBit30(v: int)
    requires 0x4000_0000 <= v <= MaxValue
    ensures Encode(v) == Encode(v - 0x4000_0000)
  {
    var w := v - 0x4000_0000;
    DivSubtract(v, 0x80, 0x80_0000);
    DivSubtract(v, 0x4000, 0x1_0000);
    DivSubtract(v, 0x20_0000, 0x200);
    DivSubtract(v, 0x1000_0000, 4);
    DivSubtract(v / 0x1000_0000, 4, 1);
    DivSubtract(v / 0x80, 0x80, 0x1_0000);
    DivSubtract(v / 0x4000, 0x80, 0x200);
    DivSubtract(v / 0x20_0000, 0x80, 4);
    assert Encode(v) == Ok(Groups(v % 128, (v / 0x80) % 128, (v / 0x4000) % 128, (v / 0x20_0000) % 128, (v / 0x1000_0000) % 4));
    assert Encode(w) == Ok(Groups(w % 128, (w / 0x80) % 128, (w / 0x4000) % 128, (w / 0x20_0000) % 128, (w / 0x1000_0000) % 4));
  }

  // ---------------------------------------------------------------------------
  // decode_multi_byte_int

  /** The decoding loop of dotnet/utils.py:65-97 from byte i on, with `acc` the
      value of the bytes before i. */
  function DecodeFrom(bs: Bytes, i: nat, acc: nat): Result<(nat, int)>
    requires i < 5
    decreases 5 - i
  {
    if |bs| <= i then Err(VarIntTruncated)
    else
      var value := acc + ((bs[i] as nat) % 128) * Pow128(i);
      if i == 4 then
        if value > MaxValue then Err(VarIntTooLarge)
        else if bs[4] < 128 then Ok((5, value))
        else Err(VarIntMalformed)
      else if bs[i] < 128 then Ok((i + 1, value))
      else DecodeFrom(bs, i + 1, value)
  }

  /** Started on continuation bytes whose value is `acc`, the loop reports a
      well-formed chain and its value, and finds the chain whenever there is one. */
  lemma {:induction false} DecodeFromMeaning(bs: Bytes, i: nat, acc: nat)
    requires i < 5
    requires i < |bs| ==> acc == Base128(bs[..i])
    requires i <= |bs| && forall j :: 0 <= j < i ==> bs[j] >= 128
    decreases 5 - i
    ensures DecodeFrom(bs, i, acc).Ok? ==>
              ValidChain(bs, DecodeFrom(bs, i, acc).value.0)
              && DecodeFrom(bs, i, acc).value.1 == Base128(bs[..DecodeFrom(bs, i, acc).value.0])
    ensures forall n: nat :: ValidChain(bs, n) ==> DecodeFrom(bs, i, acc) == Ok((n, Base128(bs[..n])))
  {
    if i < |bs| {
      var value := acc + ((bs[i] as nat) % 128) * Pow128(i);
      NextValue(bs, i, acc);
      if i == 4 {
        DecodeFifth(bs, acc);
      } else if bs[i] < 128 {
        DecodeStops(bs, i, acc);
      } else {
        DecodeFromMeaning(bs, i + 1, value);
        DecodeContinues(bs, i, acc, value);
      }
    } else {
      NoChainYet(bs, i);
    }
  }

  /** A continuation byte before the fifth only adds its group to the value. */
  lemma {:induction false} DecodeContinues(bs: Bytes, i: nat, acc: nat, value: nat)
    requires i < 4 && i < |bs| && bs[i] >= 128
    requires value == acc + ((bs[i] as nat) % 128) * Pow128(i)
    ensures DecodeFrom(bs, i, acc) == DecodeFrom(bs, i + 1, value)
  {
  }

  /** Input made of continuation bytes only holds no chain. */
  lemma {:induction false} NoChainYet(bs: Bytes, i: nat)
    requires |bs| <= i && forall j :: 0 <= j < |bs| ==> bs[j] >= 128
    ensures forall n: nat :: !ValidChain(bs, n)
  {
  }

  /** The running value after byte i is the value of the first i + 1 bytes. */
  lemma {:induction false} NextValue(bs: Bytes, i: nat, acc: nat)
    requires i < |bs| && acc == Base128(bs[..i])
    ensures acc + ((bs[i] as nat) % 128) * Pow128(i) == Base128(bs[..i + 1])
  {
    assert bs[..i + 1] == bs[..i] + [bs[i]];
    Base128Snoc(bs[..i], bs[i]);
  }

  /** A byte with bit 7 clear before the fifth ends the only chain there is. */
  lemma {:induction false} DecodeStops(bs: Bytes, i: nat, acc: nat)
    requires i < 4 && i < |bs| && bs[i] < 128
    requires acc + ((bs[i] as nat) % 128) * Pow128(i) == Base128(bs[..i + 1])
    requires forall j :: 0 <= j < i ==> bs[j] >= 128
    ensures DecodeFrom(bs, i, acc) == Ok((i + 1, Base128(bs[..i + 1])))
    ensures ValidChain(bs, i + 1)
    ensures forall n: nat :: ValidChain(bs, n) ==> n == i + 1
  {
    Base128Bound(bs[..i + 1]);
    Pow128Small(i + 1);
  }

  /** After four continuation bytes the fifth decides: too large, final, or
      malformed. */
  lemma {:induction false} DecodeFifth(bs: Bytes, acc: nat)
    requires 4 < |bs|
    requires acc + ((bs[4] as nat) % 128) * Pow128(4) == Base128(bs[..5])
    requires forall j :: 0 <= j < 4 ==> bs[j] >= 128
    ensures DecodeFrom(bs, 4, acc).Ok? ==>
              ValidChain(bs, DecodeFrom(bs, 4, acc).value.0)
              && DecodeFrom(bs, 4, acc).value.1 == Base128(bs[..DecodeFrom(bs, 4, acc).value.0])
    ensures forall n: nat :: ValidChain(bs, n) ==> DecodeFrom(bs, 4, acc) == Ok((n, Base128(bs[..n])))
  {
  }

  /** `decode_multi_byte_int`: the number of bytes used (one to five) and the
      value (at most 2^31 - 1). */
  function Decode(bs: Bytes): (r: Result<(nat, int)>)
    ensures r.Ok? ==> 1 <= r.value.0 <= 5 && r.value.0 <= |bs| && 0 <= r.value.1 <= MaxValue
  {
    DecodeFromMeaning(bs, 0, 0);
    DecodeFrom(bs, 0, 0)
  }

  /** `Decode` succeeds exactly when some prefix of the input is a well-formed
      chain, and then reports that prefix and its base-128 value. */
  lemma {:induction false} DecodeMeaning(bs: Bytes)
    ensures Decode(bs).Ok? ==> ValidChain(bs, Decode(bs).value.0)
                               && Decode(bs).value.1 == Base128(bs[..Decode(bs).value.0])
    ensures forall n: nat :: ValidChain(bs, n) ==> Decode(bs) == Ok((n, Base128(bs[..n])))
  {
    DecodeFromMeaning(bs, 0, 0);
  }

  /** Bytes after the chain are never looked at. */
  lemma {:induction false} DecodeIgnoresRest(bs: Bytes, rest: Bytes)
    requires Decode(bs).Ok?
    ensures Decode(bs + rest) == Decode(bs)
  {
    DecodeMeaning(bs);
    DecodeMeaning(bs + rest);
    var n := Decode(bs).value.0;
    assert (bs + rest)[..n] == bs[..n];
    assert ValidChain(bs + rest, n);
  }

  /** The error cases: empty input, a chain running past the input, a five-byte
      value over 2^31 - 1, and a fifth byte with bit 7 set. */
  lemma {:induction false} DecodeFailures(bs: Bytes)
    ensures |bs| == 0 ==> Decode(bs) == Err(VarIntTruncated)
    ensures (|bs| < 5 && forall i :: 0 <= i < |bs| ==> bs[i] >= 128) ==> Decode(bs).Err?
    ensures (|bs| >= 5 && (forall i :: 0 <= i < 4 ==> bs[i] >= 128) && Base128(bs[..5]) > MaxValue)
            ==> Decode(bs) == Err(VarIntTooLarge)
    ensures (|bs| >= 5 && (forall i :: 0 <= i < 5 ==> bs[i] >= 128) && Base128(bs[..5]) <= MaxValue)
            ==> Decode(bs) == Err(VarIntMalformed)
  {
    if |bs| >= 5 && forall i :: 0 <= i < 4 ==> bs[i] >= 128 {
      assert bs[..1] == bs[..0] + [bs[0]];
      assert bs[..2] == bs[..1] + [bs[1]];
      assert bs[..3] == bs[..2] + [bs[2]];
      assert bs[..4] == bs[..3] + [bs[3]];
      Base128Snoc(bs[..0], bs[0]);
      Base128Snoc(bs[..1], bs[1]);
      Base128Snoc(bs[..2], bs[2]);
      Base128Snoc(bs[..3], bs[3]);
      Base128Snoc(bs[..4], bs[4]);
      assert bs[..5] == bs[..4] + [bs[4]];
      assert Base128(bs[..4]) <= Base128(bs[..5]);
    }
  }

  /** Round trip: below 2^30 a decoded encoding gives back the value and its
      length, whatever follows it. */
  lemma {:induction false} DecodeEncode(v: int, rest: Bytes)
    requires 0 <= v < 0x4000_0000
    ensures Encode(v).Ok?
    ensures Decode(Encode(v).value + rest) == Ok((|Encode(v).value|, v))
  {
    var e := Encode(v).value;
    EncodeDigits(v, 0x03);
    assert e[..|e|] == e;
    assert ValidChain(e, |e|);
    DecodeMeaning(e);
    DecodeIgnoresRest(e, rest);
  }

  /** With the fifth byte masked to three bits the round trip covers every value
      the encoder accepts. */
  lemma {:induction false} DecodeEncodeCorrected(v: int, rest: Bytes)
    requires 0 <= v <= MaxValue
    ensures EncodeCorrected(v).Ok?
    ensures Decode(EncodeCorrected(v).value + rest) == Ok((|EncodeCorrected(v).value|, v))
  {
    var e := EncodeCorrected(v).value;
    EncodeDigits(v, 0x07);
    assert e[..|e|] == e;
    assert ValidChain(e, |e|);
    DecodeMeaning(e);
    DecodeIgnoresRest(e, rest);
  }

  /** The value 2^30 is accepted by the encoder but encodes as the single byte 0. */
  lemma {:induction false} EncodeLosesBit30Example()
    ensures Encode(0x4000_0000) == Ok([0])
    ensures Decode([0]) == Ok((1, 0))
    ensures EncodeCorrected(0x4000_0000) == Ok([0x80, 0x80, 0x80, 0x80, 0x04])
  {
    assert Base128([0]) == 0;
    assert ValidChain([0], 1);
  }

  // ---------------------------------------------------------------------------
  // read_multi_byte_int

  /** Base-128 digits of n bytes stay below 128^n. */
  lemma {:induction false} Base128Bound(bs: Bytes)
    ensures Base128(bs) < Pow128(|bs|)
  {
    if |bs| > 0 {
      Base128Bound(bs[1..]);
    }
  }

  lemma {:induction false} DecodeFromWindow(bs: Bytes, k: nat, i: nat, acc: nat)
    requires i < 5 && i < k <= |bs|
    requires k >= 5 || bs[k - 1] < 128
    requires acc == Base128(bs[..i]) && acc == Base128(bs[..k][..i])
    requires forall j :: 0 <= j < i ==> bs[j] >= 128
    decreases 5 - i
    ensures DecodeFrom(bs, i, acc) == DecodeFrom(bs[..k], i, acc)
  {
    var w := bs[..k];
    assert w[i] == bs[i];
    if i < 4 && bs[i] >= 128 {
      assert bs[..i + 1] == bs[..i] + [bs[i]];
      assert w[..i + 1] == bs[..i + 1];
      Base128Snoc(bs[..i], bs[i]);
      var value := acc + ((bs[i] as nat) % 128) * Pow128(i);
      assert value == Base128(bs[..i + 1]);
      DecodeFromWindow(bs, k, i + 1, value);
    }
  }

  /** 128^n for the chain lengths that never reach the 31-bit limit. */
  lemma {:induction false} Pow128Small(n: nat)
    requires n <= 4
    ensures Pow128(n) <= 0x1000_0000
  {
    assert Pow128(0) == 1;
    assert Pow128(1) == 128;
    assert Pow128(2) == 0x4000;
    assert Pow128(3) == 0x20_0000;
    assert Pow128(4) == 0x1000_0000;
  }

  /** Decoding stops at the first byte with bit 7 clear, or after five bytes:
      nothing later matters. */
  lemma {:induction false} DecodeWindow(bs: Bytes, k: nat)
    requires k <= |bs|
    requires k >= 5 || (k >= 1 && bs[k - 1] < 128)
    ensures Decode(bs) == Decode(bs[..k])
  {
    assert bs[..0] == bs[..k][..0];
    DecodeFromWindow(bs, k, 0, 0);
  }

  /** The stream reader of dotnet/utils.py:100-123: `prefix` holds the
      continuation bytes read so far. After four of them it appends whatever
      `fp.read(1)` gives (possibly nothing) and decodes; before that it decodes
      as soon as a byte with bit 7 clear arrives. */
  function ReadChain(s: Bytes, pos: nat, prefix: Bytes): Result<(int, nat)>
    requires |prefix| <= 4 && |prefix| <= pos <= |s|
    decreases 4 - |prefix|
  {
    if |prefix| == 4 then
      var (extra, next) := ReadAvailable(s, pos, 1);
      match Decode(prefix + extra)
      case Err(e) => Err(e)
      case Ok((n, v)) => Ok((v, pos - 4 + n))
    else
      match ReadByte(s, pos)
      case Err(e) => Err(e)
      case Ok((b, next)) =>
        if b < 128 then
          match Decode(prefix + [b])
          case Err(e) => Err(e)
          case Ok((n, v)) => Ok((v, next))
        else ReadChain(s, next, prefix + [b])
  }

  /** Reading the chain from the stream succeeds exactly when the bytes from its
      start decode, and then yields the decoded value and the cursor just past
      the chain. */
  lemma {:induction false} ReadChainMeaning(s: Bytes, start: nat, pos: nat, prefix: Bytes)
    requires |prefix| <= 4 && start + |prefix| == pos <= |s|
    requires s[start..pos] == prefix
    requires forall j :: 0 <= j < |prefix| ==> prefix[j] >= 128
    decreases 4 - |prefix|
    ensures ReadChain(s, pos, prefix).Ok? <==> Decode(s[start..]).Ok?
    ensures ReadChain(s, pos, prefix).Ok? ==>
              ReadChain(s, pos, prefix).value == (Decode(s[start..]).value.1, start + Decode(s[start..]).value.0)
  {
    PrefixBytes(s, start, pos, prefix);
    if |prefix| == 4 {
      ReadFifthMeaning(s, start, pos, prefix);
    } else if pos == |s| {
      ChainRunsOut(s, start);
    } else if s[pos] < 128 {
      ReadLastMeaning(s, start, pos, prefix);
    } else {
      var longer := prefix + [s[pos]];
      assert s[start..pos + 1] == longer;
      assert forall j :: 0 <= j < |longer| ==> longer[j] >= 128;
      ReadChainMeaning(s, start, pos + 1, longer);
      ReadChainContinues(s, pos, prefix);
    }
  }

  /** A continuation byte before the fifth only extends the prefix. */
  lemma {:induction false} ReadChainContinues(s: Bytes, pos: nat, prefix: Bytes)
    requires |prefix| < 4 && |prefix| <= pos < |s| && s[pos] >= 128
    ensures ReadChain(s, pos, prefix) == ReadChain(s, pos + 1, prefix + [s[pos]])
  {
  }

  lemma {:induction false} PrefixBytes(s: Bytes, start: nat, pos: nat, prefix: Bytes)
    requires start <= pos <= |s| && s[start..pos] == prefix
    requires forall j :: 0 <= j < |prefix| ==> prefix[j] >= 128
    ensures forall j :: start <= j < pos ==> s[j] >= 128
  {
    forall j | start <= j < pos
      ensures s[j] >= 128
    {
      assert s[j] == prefix[j - start];
    }
  }

  /** After four continuation bytes the reader decodes them with whatever one
      more read gives, which decides the decoding of the whole stream. */
  lemma {:induction false} ReadFifthMeaning(s: Bytes, start: nat, pos: nat, prefix: Bytes)
    requires |prefix| == 4 && start + 4 == pos <= |s|
    requires s[start..pos] == prefix
    requires forall j :: start <= j < pos ==> s[j] >= 128
    ensures ReadChain(s, pos, prefix).Ok? <==> Decode(s[start..]).Ok?
    ensures ReadChain(s, pos, prefix).Ok? ==>
              ReadChain(s, pos, prefix).value == (Decode(s[start..]).value.1, start + Decode(s[start..]).value.0)
  {
    var (extra, next) := ReadAvailable(s, pos, 1);
    assert prefix + extra == s[start..next];
    ReadChainWindow(s, start, next);
  }

  /** A byte with bit 7 clear after fewer than four continuation bytes ends the
      chain: the reader decodes exactly the bytes read. */
  lemma {:induction false} ReadLastMeaning(s: Bytes, start: nat, pos: nat, prefix: Bytes)
    requires |prefix| < 4 && start + |prefix| == pos < |s|
    requires s[start..pos] == prefix
    requires forall j :: start <= j < pos ==> s[j] >= 128
    requires s[pos] < 128
    ensures ReadChain(s, pos, prefix).Ok? && Decode(s[start..]).Ok?
    ensures ReadChain(s, pos, prefix).value == (Decode(s[start..]).value.1, start + Decode(s[start..]).value.0)
  {
    assert s[start..pos + 1] == prefix + [s[pos]];
    ReadChainWindow(s, start, pos + 1);
  }

  /** The bytes read so far already decide the decoding of the rest of the stream. */
  lemma {:induction false} ReadChainWindow(s: Bytes, start: nat, next: nat)
    requires start <= next <= |s|
    requires next - start == 5 || (next == |s| && next - start <= 5)
             || (next > start && s[next - 1] < 128)
    requires forall j :: start <= j < next - 1 ==> s[j] >= 128
    ensures Decode(s[start..next]) == Decode(s[start..])
    ensures next > start && next - start < 5 && s[next - 1] < 128 ==>
              Decode(s[start..]) == Ok((next - start, Base128(s[start..next])))
  {
    var t := s[start..];
    assert t[..next - start] == s[start..next];
    if next == |s| {
      assert t == s[start..next];
    } else {
      DecodeWindow(t, next - start);
    }
    if next > start && next - start < 5 && s[next - 1] < 128 {
      var w := s[start..next];
      Base128Bound(w);
      assert Pow128(|w|) <= Pow128(4);
      assert w[..|w|] == w;
      assert ValidChain(w, |w|);
      DecodeMeaning(w);
    }
  }

  /** A stream that ends inside the chain cannot be decoded. */
  lemma {:induction false} ChainRunsOut(s: Bytes, start: nat)
    requires start <= |s| && |s| - start < 5
    requires forall j :: start <= j < |s| ==> s[j] >= 128
    ensures Decode(s[start..]).Err?
  {
    DecodeFailures(s[start..]);
  }

  /** `read_multi_byte_int`: reads the chain from the stream, consuming exactly the
      bytes `decode_multi_byte_int` uses and returning the same value. */
  function ReadVarInt(s: Bytes, pos: nat): (r: Result<(int, nat)>)
    requires pos <= |s|
    ensures r.Ok? <==> Decode(s[pos..]).Ok?
    ensures r.Ok? ==> r.value == (Decode(s[pos..]).value.1, pos + Decode(s[pos..]).value.0)
    ensures r.Ok? ==> pos < r.value.1 <= pos + 5 && 0 <= r.value.0 <= MaxValue
  {
    ReadChainMeaning(s, pos, pos, []);
    ReadChain(s, pos, [])
  }
}
