/** Decimal values held as text (dotnet/primitives.py, class Decimal).

    The reader keeps a Decimal as its decimal text rather than as a number
    (section 2.1.1.7 of [MS-NRBF] transmits a Decimal as a length-prefixed
    string). Text is viewed here one byte per character: every text that the
    validator accepts is ASCII, so lengths and characters agree with Python's
    `str` on every accepted input.
 */
module DecimalText {
  import opened Wrappers
  import opened Bytes
  import VarInt

  const Minus: byte := 45
  const Point: byte := 46

  /** The largest magnitude `Decimal.convert` lets an integer keep. */
  const ClampBound: int := 79228162514264337593543950334

  predicate IsDigit(b: byte) {
    48 <= b <= 57
  }

  predicate AllDigits(s: Bytes) {
    forall i | 0 <= i < |s| :: IsDigit(s[i])
  }

  // ---------------------------------------------------------------------------
  // The grammar `-?[0-9]+(\.[0-9]+)?`

  /** `[0-9]+(\.[0-9]+)?` */
  predicate UnsignedNumber(s: Bytes) {
    (|s| > 0 && AllDigits(s))
    || exists k | 0 < k < |s| - 1 :: s[k] == Point && AllDigits(s[..k]) && AllDigits(s[k + 1..])
  }

  /** `-?[0-9]+(\.[0-9]+)?`: the reference for what `Decimal.verify` accepts. */
  predicate WellFormed(s: Bytes) {
    if |s| > 0 && s[0] == Minus then UnsignedNumber(s[1..]) else UnsignedNumber(s)
  }

  /** A body whose first non-digit sits at `idx - start` is a number only if
      that character is the point. */
  lemma {:induction false} NotNumberAtStop(s: Bytes, start: nat, idx: nat)
    requires start <= idx < |s|
    requires AllDigits(s[start..idx]) && !IsDigit(s[idx]) && s[idx] != Point
    ensures !UnsignedNumber(s[start..])
  {
    var body := s[start..];
    var k0 := idx - start;
    assert body[k0] == s[idx];
    forall k | 0 < k < |body| - 1
      ensures body[k] == Point ==> !AllDigits(body[..k])
    {
      if k < k0 {
        assert body[k] == s[start..idx][k];
      } else if k > k0 {
        assert body[..k][k0] == s[idx];
      }
    }
  }

  /** A body whose first non-digit is a point at `idx` is a number exactly when
      digits precede the point and a non-empty run of digits follows it. */
  lemma {:induction false} NumberAtPoint(s: Bytes, start: nat, idx: nat)
    requires start <= idx < |s|
    requires AllDigits(s[start..idx]) && s[idx] == Point
    ensures UnsignedNumber(s[start..]) <==> idx > start && idx < |s| - 1 && AllDigits(s[idx + 1..])
  {
    var body := s[start..];
    var k0 := idx - start;
    assert body[k0] == Point;
    assert body[..k0] == s[start..idx];
    assert body[k0 + 1..] == s[idx + 1..];
    assert !AllDigits(body) by {
      assert !IsDigit(body[k0]);
    }
    forall k | 0 < k < |body| - 1
      ensures body[k] == Point && AllDigits(body[..k]) ==> k == k0
    {
      if k < k0 {
        assert body[k] == s[start..idx][k];
      } else if k > k0 {
        assert body[..k][k0] == Point;
      }
    }
  }

  /** `Decimal.verify`: two digit scans separated by an optional point, after
      an optional leading minus. It accepts exactly the texts of the grammar. */
  method Verify(s: Bytes) returns (ok: bool)
    ensures ok <==> WellFormed(s)
  {
    var digits := 0;
    if |s| == 0 {
      return false;
    }
    var idx := 0;
    if s[0] == Minus {
      idx := idx + 1;
      if |s| == 1 {
        assert s[1..] == [];
        return false;
      }
    }
    var start := idx;
    assert WellFormed(s) <==> UnsignedNumber(s[start..]);

    idx := ScanDigits(s, start);
    digits := digits + (idx - start);

    if idx >= |s| {
      assert s[start..] == s[start..idx];
      return digits > 0;
    }

    if s[idx] == Point {
      NumberAtPoint(s, start, idx);
      if digits == 0 || idx == |s| - 1 {
        return false;
      }
      idx := idx + 1;
    } else {
      NotNumberAtStop(s, start, idx);
      return false;
    }

    var afterPoint := idx;
    idx := ScanDigits(s, afterPoint);
    digits := digits + (idx - afterPoint);

    if idx >= |s| {
      assert s[afterPoint..] == s[afterPoint..idx];
      return digits > 0;
    }
    NotAllDigits(s, afterPoint, idx);
    return false;
  }

  /** One `while ... 48 <= ord(value[idx]) <= 57` scan: advances over the
      digits from `from` and stops at the end or at the first non-digit. */
  method ScanDigits(s: Bytes, from: nat) returns (idx: nat)
    requires from <= |s|
    ensures from <= idx <= |s|
    ensures AllDigits(s[from..idx])
    ensures idx < |s| ==> !IsDigit(s[idx])
  {
    idx := from;
    while idx < |s| && IsDigit(s[idx])
      invariant from <= idx <= |s|
      invariant AllDigits(s[from..idx])
    {
      assert s[from..idx + 1] == s[from..idx] + [s[idx]];
      idx := idx + 1;
    }
  }

  /** A non-digit at `idx` spoils every run that covers it. */
  lemma {:induction false} NotAllDigits(s: Bytes, from: nat, idx: nat)
    requires from <= idx < |s| && !IsDigit(s[idx])
    ensures !AllDigits(s[from..])
  {
    assert s[from..][idx - from] == s[idx];
  }

  // ---------------------------------------------------------------------------
  // Integer text

  function DigitChar(d: nat): (r: byte)
    requires d < 10
    ensures IsDigit(r)
  {
    (48 + d) as byte
  }

  /** `str(n)` for a natural number: its decimal digits, most significant first. */
  function NatText(n: nat): (r: Bytes)
    ensures |r| > 0 && AllDigits(r)
    decreases n
  {
    if n < 10 then [DigitChar(n)]
    else
      var r := NatText(n / 10) + [DigitChar(n % 10)];
      assert forall i | 0 <= i < |r| - 1 :: r[i] == NatText(n / 10)[i];
      r
  }

  /** The number a run of decimal digits denotes. */
  function DigitsValue(s: Bytes): int
  {
    if |s| == 0 then 0 else DigitsValue(s[..|s| - 1]) * 10 + (s[|s| - 1] as int - 48)
  }

  /** Reading back the digits of `str(n)` gives n. */
  lemma {:induction false} NatTextValue(n: nat)
    ensures DigitsValue(NatText(n)) == n
    decreases n
  {
    if n >= 10 {
      var r := NatText(n);
      assert r[..|r| - 1] == NatText(n / 10);
      NatTextValue(n / 10);
    }
  }

  function Pow10(k: nat): (r: nat)
    ensures r > 0
  {
    if k == 0 then 1 else 10 * Pow10(k - 1)
  }

  lemma {:induction false} Pow10Add(a: nat, b: nat)
    ensures Pow10(a + b) == Pow10(a) * Pow10(b)
  {
    if a > 0 {
      Pow10Add(a - 1, b);
    }
  }

  /** A number below 10^k has at most k digits. */
  lemma {:induction false} NatTextLength(n: nat, k: nat)
    requires k >= 1 && n < Pow10(k)
    ensures |NatText(n)| <= k
    decreases n
  {
    if n >= 10 {
      assert k > 1 && Pow10(k) == 10 * Pow10(k - 1);
      assert n / 10 < Pow10(k - 1);
      assert |NatText(n)| == |NatText(n / 10)| + 1;
      NatTextLength(n / 10, k - 1);
    }
  }

  /** `str(v)` for any integer. */
  function IntText(v: int): (r: Bytes)
    ensures WellFormed(r)
    ensures Point !in r
  {
    if v < 0 then
      var r := [Minus] + NatText(-v);
      assert r[1..] == NatText(-v);
      r
    else NatText(v)
  }

  /** `-?[0-9]+` */
  predicate IsIntegerText(s: Bytes) {
    |s| > 0 && (AllDigits(s) || (s[0] == Minus && |s| > 1 && AllDigits(s[1..])))
  }

  /** The integer an integer text denotes. */
  function IntegerValue(s: Bytes): int
    requires IsIntegerText(s)
  {
    if AllDigits(s) then DigitsValue(s) else -DigitsValue(s[1..])
  }

  /** `int(str(v)) == v` */
  lemma {:induction false} IntTextValue(v: int)
    ensures IsIntegerText(IntText(v))
    ensures IntegerValue(IntText(v)) == v
  {
    if v < 0 {
      NegativeTextValue(-v);
    } else {
      NatTextValue(v);
    }
  }

  /** A minus sign in front of the digits of n reads back as -n. */
  lemma {:induction false} NegativeTextValue(n: nat)
    ensures IsIntegerText([Minus] + NatText(n))
    ensures IntegerValue([Minus] + NatText(n)) == -(n as int)
  {
    var r := [Minus] + NatText(n);
    assert r[1..] == NatText(n);
    assert !AllDigits(r) by {
      assert !IsDigit(r[0]);
    }
    NatTextValue(n);
  }

  // ---------------------------------------------------------------------------
  // Decimal.convert and Decimal.round

  /** `Decimal.convert(int)`: the text of the integer clamped to ±ClampBound. */
  function ConvertInt(v: int): (r: Bytes)
    ensures WellFormed(r) && Point !in r
  {
    if v > ClampBound then IntText(ClampBound)
    else if v < -ClampBound then IntText(-ClampBound)
    else IntText(v)
  }

  /** The text `Decimal.convert(int)` produces denotes the input when it is
      within ±ClampBound and the nearer bound otherwise. */
  lemma {:induction false} ConvertIntValue(v: int)
    ensures IsIntegerText(ConvertInt(v))
    ensures -ClampBound <= v <= ClampBound ==> IntegerValue(ConvertInt(v)) == v
    ensures v > ClampBound ==> IntegerValue(ConvertInt(v)) == ClampBound
    ensures v < -ClampBound ==> IntegerValue(ConvertInt(v)) == -ClampBound
  {
    var c := if v > ClampBound then ClampBound else if v < -ClampBound then -ClampBound else v;
    assert ConvertInt(v) == IntText(c);
    IntTextValue(c);
  }

  /** `Decimal.round` up to its early exit. Texts of at most 29 characters, or
      30 with a leading minus, come back unchanged; `value[0]` on the empty text
      is an IndexError; the digit-rounding beyond the early exit is not part of
      this model. */
  function Round(s: Bytes): (r: Result<Bytes>)
    ensures |s| == 0 ==> r == Err(EndOfStream)
    ensures r.Ok? ==> r.value == s
    ensures r.Ok? <==> 0 < |s| <= 29 || (|s| == 30 && s[0] == Minus)
  {
    if |s| == 0 then Err(EndOfStream)
    else if |s| <= 29 || (s[0] == Minus && |s| == 30) then Ok(s)
    else Err(RoundingNotModelled)
  }

  lemma {:induction false} Pow10Of29()
    ensures Pow10(29) == 100_000_000_000_000_000_000_000_000_000
  {
    Pow10Add(10, 10);
    Pow10Add(20, 9);
    assert Pow10(10) == 10_000_000_000;
    assert Pow10(9) == 1_000_000_000;
  }

  /** The text of an integer within ±ClampBound has at most 29 digits. */
  lemma {:induction false} IntTextShort(c: int)
    requires -ClampBound <= c <= ClampBound
    ensures c >= 0 ==> |IntText(c)| <= 29
    ensures c < 0 ==> |IntText(c)| <= 30 && IntText(c)[0] == Minus
  {
    var m := if c < 0 then -c else c;
    Pow10Of29();
    NatTextLength(m, 29);
  }

  /** Every clamped integer text is short enough for the early exit, so
      `Decimal.round` never changes what `Decimal.convert(int)` produced. */
  lemma {:induction false} ConvertIntSurvivesRound(v: int)
    ensures Round(ConvertInt(v)) == Ok(ConvertInt(v))
  {
    var c := if v > ClampBound then ClampBound else if v < -ClampBound then -ClampBound else v;
    assert ConvertInt(v) == IntText(c);
    IntTextShort(c);
  }

  /** `Decimal.convert(str)`: ValueError unless the text is well formed, then
      `Decimal.round`. */
  function ConvertText(s: Bytes): (r: Result<Bytes>)
    ensures !WellFormed(s) ==> r == Err(InvalidDecimal)
    ensures r.Ok? <==> WellFormed(s) && (0 < |s| <= 29 || (|s| == 30 && s[0] == Minus))
    ensures r.Ok? ==> WellFormed(r.value) && r.value == s
  {
    if !WellFormed(s) then Err(InvalidDecimal) else Round(s)
  }

  /** Converting the text of a converted integer again keeps it as it is. */
  lemma {:induction false} ConvertTextOfConvertInt(v: int)
    ensures ConvertText(ConvertInt(v)) == Ok(ConvertInt(v))
  {
    ConvertIntSurvivesRound(v);
  }

  /** `Decimal.convert(bytes)`: the bytes must hold a variable-length integer
      followed by well-formed text (the announced length is never compared);
      `Decimal.round` then receives the whole byte string, returns it when it is
      at most 29 bytes long, and otherwise raises TypeError at its first
      `ord(value[i])`, which Python refuses for an integer. */
  function ConvertBytes(bs: Bytes): (r: Result<Bytes>)
    ensures VarInt.Decode(bs).Err? ==> r.Err?
    ensures r.Ok? <==> VarInt.Decode(bs).Ok? && WellFormed(bs[VarInt.Decode(bs).value.0..]) && |bs| <= 29
    ensures r.Ok? ==> r.value == bs
    ensures |bs| > 29 ==> r.Err?
  {
    var d :- VarInt.Decode(bs);
    if !WellFormed(bs[d.0..]) then Err(InvalidDecimal)
    else if |bs| <= 29 then Ok(bs)
    else Err(TypeError)
  }
}
