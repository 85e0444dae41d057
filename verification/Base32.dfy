/** Unpadded lower-case base32, section 6 of RFC 4648, decoded through a 32-bit accumulator. */
module Base32 {
  import opened Wrappers
  import opened Positional

  datatype Base32Error = NotInAlphabet(index: nat) | NonZeroLeftover

  function DigitOf(c: char): Option<nat> {
    if 'a' <= c <= 'z' then Some(c as int - 'a' as int)
    else if '2' <= c <= '7' then Some(c as int - '2' as int + 26)
    else None
  }

  function CharOf(d: nat): char
    requires d < 32
  {
    if d < 26 then ('a' as int + d) as char else ('2' as int + (d - 26)) as char
  }

  ghost predicate InAlphabet(s: string) {
    forall i :: 0 <= i < |s| ==> DigitOf(s[i]).Some?
  }

  function DigitsOf(s: string): (ds: seq<nat>)
    requires InAlphabet(s)
    ensures |ds| == |s| && Digits(32, ds)
  {
    seq(|s|, i requires 0 <= i < |s| => DigitOf(s[i]).value)
  }

  function Pow2(k: nat): (p: nat)
    ensures p > 0
  {
    if k == 0 then 1 else 2 * Pow2(k - 1)
  }

  /** The input's bits are the bytes' bits followed by zero bits, fewer than a byte of them. */
  ghost predicate Decodes(s: string, b: seq<Byte>) {
    && InAlphabet(s)
    && |b| == 5 * |s| / 8
    && Value(32, DigitsOf(s)) == Value(256, b) * Pow2(5 * |s| - 8 * |b|)
  }

  // ---- the 32-bit accumulator

  /** Two's-complement reading of the low 32 bits. */
  function ToInt32(x: int): int {
    var low := x % 0x1_0000_0000;
    if low < 0x8000_0000 then low else low - 0x1_0000_0000
  }

  /** The low eight bits after an arithmetic right shift. */
  function ShiftedByte(acc: int, bits: nat): Byte {
    acc / Pow2(bits) % 256
  }

  lemma SmallPowers()
    ensures Pow2(0) == 1 && Pow2(1) == 2 && Pow2(2) == 4 && Pow2(3) == 8 && Pow2(4) == 16
    ensures Pow2(5) == 32 && Pow2(6) == 64 && Pow2(7) == 128
  {
  }

  lemma WholeWraps(wraps: int, bits: nat)
    requires bits <= 7
    ensures wraps * 0x1_0000_0000 == wraps * Pow2(7 - bits) * 0x200_0000 * Pow2(bits)
  {
  }

  lemma IntQuotient(y: int, q: int, r: int, p: nat)
    requires 0 <= r < p && y == q * p + r
    ensures y / p == q && y % p == r
  {
    var q', r' := y / p, y % p;
    assert y == q' * p + r';
    if q < q' {
      assert (q' - q) * p == q' * p - q * p;
      AtLeastOnce(p, q' - q);
    } else if q' < q {
      assert (q - q') * p == q * p - q' * p;
      AtLeastOnce(p, q - q');
    }
  }

  /** Adding a multiple of the divisor moves the quotient and leaves the remainder. */
  lemma AddMultiple(x: int, k: int, p: nat)
    requires p > 0
    ensures (x + k * p) / p == x / p + k && (x + k * p) % p == x % p
  {
    assert x == x / p * p + x % p;
    assert (x / p + k) * p == x / p * p + k * p;
    IntQuotient(x + k * p, x / p + k, x % p, p);
  }

  lemma Wrapped(full: int, wraps: int, bits: nat)
    requires bits <= 7
    ensures (full + wraps * 0x1_0000_0000) / Pow2(bits) == full / Pow2(bits) + wraps * Pow2(7 - bits) * 0x200_0000
    ensures (full + wraps * 0x1_0000_0000) % Pow2(bits) == full % Pow2(bits)
  {
    WholeWraps(wraps, bits);
    AddMultiple(full, wraps * Pow2(7 - bits) * 0x200_0000, Pow2(bits));
  }

  lemma MultipleOf256(x: int, k: int)
    ensures (x + k * 0x200_0000) % 256 == x % 256
  {
    Multiple(x, k * 0x2_0000);
  }

  lemma Multiple(x: int, m: int)
    ensures (x + m * 256) % 256 == x % 256
  {
  }

  /** However often it has wrapped, the accumulator agrees with the unbounded value in the byte read. */
  lemma WrappedByte(full: int, wraps: int, bits: nat)
    requires bits <= 7
    ensures ShiftedByte(full + wraps * 0x1_0000_0000, bits) == ShiftedByte(full, bits)
  {
    Wrapped(full, wraps, bits);
    MultipleOf256(full / Pow2(bits), wraps * Pow2(7 - bits));
  }

  /** The accumulator after the shift by five and the bitwise or with a digit: the low five bits are free. */
  function Shifted(acc: int, digit: nat): int {
    ToInt32(acc * 32) + digit
  }

  lemma ShiftedWraps(full: int, acc: int, wraps: int, digit: nat) returns (wraps': int)
    requires acc == full + wraps * 0x1_0000_0000
    ensures Shifted(acc, digit) == 32 * full + digit + wraps' * 0x1_0000_0000
  {
    var low := acc * 32 % 0x1_0000_0000;
    wraps' := wraps * 32 - acc * 32 / 0x1_0000_0000 - if low < 0x8000_0000 then 0 else 1;
  }

  /** Taking in five more bits when they complete a byte. */
  lemma CompletesByte(full: nat, digit: nat, bits: nat)
    requires digit < 32 && bits <= 7 && bits + 5 >= 8
    ensures full / Pow2(bits) * 256 + (32 * full + digit) / Pow2(bits - 3) % 256
      == (32 * full + digit) / Pow2(bits - 3)
  {
    SmallPowers();
  }

  lemma NotYetByte(full: nat, digit: nat, bits: nat)
    requires digit < 32 && bits + 5 < 8
    ensures (32 * full + digit) / Pow2(bits + 5) == full / Pow2(bits)
  {
    SmallPowers();
  }

  /** Loop state: the bytes put out hold the digits' value but for the last bits, which the accumulator holds. */
  ghost predicate Reads(ds: seq<nat>, out: seq<Byte>, acc: int, wraps: int, bits: nat) {
    && |out| == 5 * |ds| / 8
    && bits == 5 * |ds| % 8
    && acc == Value(32, ds) + wraps * 0x1_0000_0000
    && Value(256, out) == Value(32, ds) / Pow2(bits)
  }

  lemma ReadsByte(ds: seq<nat>, out: seq<Byte>, acc: int, wraps: int, bits: nat, digit: nat) returns (wraps': int)
    requires Reads(ds, out, acc, wraps, bits) && digit < 32 && bits + 5 >= 8
    ensures Reads(ds + [digit], out + [ShiftedByte(Shifted(acc, digit), bits - 3)],
                  Shifted(acc, digit), wraps', bits - 3)
  {
    var full := Value(32, ds);
    ValueAppend(32, ds, digit);
    wraps' := ShiftedWraps(full, acc, wraps, digit);
    WrappedByte(32 * full + digit, wraps', bits - 3);
    CompletesByte(full, digit, bits);
    ValueAppend(256, out, ShiftedByte(Shifted(acc, digit), bits - 3));
  }

  lemma ReadsBits(ds: seq<nat>, out: seq<Byte>, acc: int, wraps: int, bits: nat, digit: nat) returns (wraps': int)
    requires Reads(ds, out, acc, wraps, bits) && digit < 32 && bits + 5 < 8
    ensures Reads(ds + [digit], out, Shifted(acc, digit), wraps', bits + 5)
  {
    ValueAppend(32, ds, digit);
    wraps' := ShiftedWraps(Value(32, ds), acc, wraps, digit);
    NotYetByte(Value(32, ds), digit, bits);
  }

  /** One turn of the decoding loop: shift a digit in and put out a byte when one is complete. */
  method TakeDigit(ghost ds: seq<nat>, digit: nat, out: seq<Byte>, acc: int, ghost wraps: int, bits: nat)
    returns (out': seq<Byte>, acc': int, ghost wraps': int, bits': nat)
    requires Reads(ds, out, acc, wraps, bits) && digit < 32
    ensures Reads(ds + [digit], out', acc', wraps', bits')
  {
    if bits + 5 >= 8 {
      wraps' := ReadsByte(ds, out, acc, wraps, bits, digit);
    } else {
      wraps' := ReadsBits(ds, out, acc, wraps, bits, digit);
    }
    acc' := Shifted(acc, digit);
    bits' := bits + 5;
    out' := out;
    if bits' >= 8 {
      bits' := bits' - 8;
      out' := out' + [ShiftedByte(acc', bits')];
    }
  }

  method DecodeBase32Lower(input: string) returns (result: Result<seq<Byte>, Base32Error>)
    ensures result.Success? ==> Decodes(input, result.value)
    ensures result.Failure? && result.error.NotInAlphabet? ==>
      var i := result.error.index;
      i < |input| && InAlphabet(input[..i]) && DigitOf(input[i]).None?
    ensures result.Failure? && result.error.NonZeroLeftover? ==>
      InAlphabet(input) && forall b :: !Decodes(input, b)
  {
    var out: seq<Byte>, accumulator: int, accBits: nat := [], 0, 0;
    ghost var wraps := 0;
    var i := 0;
    while i < |input|
      invariant 0 <= i <= |input| && InAlphabet(input[..i])
      invariant Reads(DigitsOf(input[..i]), out, accumulator, wraps, accBits)
    {
      var digit := DigitOf(input[i]);
      if digit.None? {
        return Failure(NotInAlphabet(i));
      }
      DigitsOfNext(input, i);
      out, accumulator, wraps, accBits :=
        TakeDigit(DigitsOf(input[..i]), digit.value, out, accumulator, wraps, accBits);
      i := i + 1;
    }
    assert input[..i] == input;
    LeftoverDecides(input, out, accumulator, wraps, accBits);
    if accBits > 0 {
      var leftover := accumulator % Pow2(accBits);
      if leftover != 0 {
        return Failure(NonZeroLeftover);
      }
    }
    return Success(out);
  }

  lemma DigitsOfNext(input: string, i: nat)
    requires i < |input| && InAlphabet(input[..i]) && DigitOf(input[i]).Some?
    ensures InAlphabet(input[..i + 1])
    ensures DigitsOf(input[..i + 1]) == DigitsOf(input[..i]) + [DigitOf(input[i]).value]
  {
  }

  /** The bits left over are zero exactly when the input decodes, and then to the bytes put out. */
  lemma LeftoverDecides(input: string, out: seq<Byte>, acc: int, wraps: int, bits: nat)
    requires InAlphabet(input) && Reads(DigitsOf(input), out, acc, wraps, bits)
    ensures acc % Pow2(bits) == 0 ==> Decodes(input, out)
    ensures acc % Pow2(bits) != 0 ==> forall b :: !Decodes(input, b)
    ensures bits == 0 ==> acc % Pow2(bits) == 0
  {
    var full := Value(32, DigitsOf(input));
    Wrapped(full, wraps, bits);
    SmallPowers();
    if full % Pow2(bits) == 0 {
      ExactQuotient(full, Pow2(bits));
    } else {
      NonZeroRemainder(full, Pow2(bits));
    }
  }

  lemma NonZeroRemainder(full: nat, p: nat)
    requires p > 0 && full % p != 0
    ensures forall q: nat :: full != q * p
  {
    DivMod(p, full);
    forall q: nat ensures full != q * p {
      if full == q * p {
        DivModUnique(p, q, 0, full / p, full % p);
        assert false;
      }
    }
  }

  lemma ExactQuotient(full: nat, p: nat)
    requires p > 0 && full % p == 0
    ensures full == full / p * p
  {
  }

  // ---- the encoder it inverts

  lemma DecodingUnique(s: string, b1: seq<Byte>, b2: seq<Byte>)
    requires Decodes(s, b1) && Decodes(s, b2)
    ensures b1 == b2
  {
    var p := Pow2(5 * |s| - 8 * |b1|);
    DivModUnique(p, Value(256, b1), 0, Value(256, b2), 0);
    SameLengthUnique(256, b1, b2);
  }

  /** Among inputs of one length the decoder is injective. */
  lemma SameLengthInjective(s1: string, s2: string, b: seq<Byte>)
    requires Decodes(s1, b) && Decodes(s2, b) && |s1| == |s2|
    ensures s1 == s2
  {
    SameLengthUnique(32, DigitsOf(s1), DigitsOf(s2));
    forall i | 0 <= i < |s1| ensures s1[i] == s2[i] {
      assert DigitsOf(s1)[i] == DigitsOf(s2)[i];
    }
  }

  /** Across lengths it is not: the empty string and "a" both decode to nothing. */
  lemma EmptyAndAClash()
    ensures Decodes("", []) && Decodes("a", [])
  {
    assert DigitsOf("a") == [0];
  }

  /** The number written in exactly n base-32 digits. */
  function FixedDigits(n: nat, v: nat): (ds: seq<nat>)
    ensures |ds| == n && Digits(32, ds)
  {
    if n == 0 then [] else FixedDigits(n - 1, v / 32) + [v % 32]
  }

  lemma {:induction false} FixedDigitsValue(n: nat, v: nat)
    requires v < Pow2(5 * n)
    ensures Value(32, FixedDigits(n, v)) == v
  {
    if n > 0 {
      Pow2Times32(5 * n - 5);
      FixedDigitsValue(n - 1, v / 32);
      ValueAppend(32, FixedDigits(n - 1, v / 32), v % 32);
    }
  }

  lemma Pow2Times32(k: nat)
    ensures Pow2(k + 5) == 32 * Pow2(k)
  {
    assert Pow2(k + 5) == 2 * Pow2(k + 4);
    assert Pow2(k + 3) == 2 * Pow2(k + 2);
    assert Pow2(k + 2) == 2 * Pow2(k + 1);
  }

  lemma Pow2Times256(k: nat)
    ensures Pow2(k + 8) == 256 * Pow2(k)
  {
    Pow2Times32(k);
    assert Pow2(k + 8) == 2 * Pow2(k + 7);
    assert Pow2(k + 7) == 2 * Pow2(k + 6);
  }

  lemma {:induction false} BytesBelow(b: seq<Byte>)
    ensures Value(256, b) < Pow2(8 * |b|)
    decreases |b|
  {
    if b != [] {
      BytesBelow(b[..|b| - 1]);
      Pow2Times256(8 * |b| - 8);
    }
  }

  lemma {:induction false} Pow2Adds(a: nat, b: nat)
    ensures Pow2(a + b) == Pow2(a) * Pow2(b)
  {
    if b > 0 {
      Pow2Adds(a, b - 1);
    }
  }

  lemma ScaledBelow(v: nat, a: nat, b: nat)
    requires v < Pow2(a)
    ensures v * Pow2(b) < Pow2(a + b)
  {
    Pow2Adds(a, b);
    QuotientLess(Pow2(b), v, 0, Pow2(a), 0);
  }

  /** As many digits as the bits need, the last one filled up with zero bits. */
  function EncodedLength(bytes: nat): nat { (8 * bytes + 4) / 5 }

  /** The unpadded encoding of section 6 of RFC 4648. */
  function Encode(b: seq<Byte>): string {
    var n := EncodedLength(|b|);
    Spell(FixedDigits(n, Value(256, b) * Pow2(5 * n - 8 * |b|)))
  }

  /** Decoding inverts encoding. */
  lemma EncodeDecodes(b: seq<Byte>)
    ensures Decodes(Encode(b), b)
  {
    var n := EncodedLength(|b|);
    var pad := 5 * n - 8 * |b|;
    EncodedLengthFits(|b|);
    var v := Value(256, b) * Pow2(pad);
    BytesBelow(b);
    ScaledBelow(Value(256, b), 8 * |b|, pad);
    FixedDigitsValue(n, v);
    Spelled(FixedDigits(n, v));
    assert Encode(b) == Spell(FixedDigits(n, v));
  }

  lemma EncodedLengthFits(m: nat)
    ensures 0 <= 5 * EncodedLength(m) - 8 * m < 5
    ensures 5 * EncodedLength(m) / 8 == m
  {
  }

  function Spell(ds: seq<nat>): string
    requires Digits(32, ds)
  {
    seq(|ds|, i requires 0 <= i < |ds| => CharOf(ds[i]))
  }

  lemma Spelled(ds: seq<nat>)
    requires Digits(32, ds)
    ensures InAlphabet(Spell(ds)) && DigitsOf(Spell(ds)) == ds
  {
  }

  /**
   * The decoder's own notion of canonical is the encoder's except at lengths no encoding has: an
   * accepted string is the encoding of its bytes exactly when its length is not 1, 3 or 6 mod 8.
   */
  lemma AcceptedIsCanonicalIff(s: string, b: seq<Byte>)
    requires Decodes(s, b)
    ensures s == Encode(b) <==> |s| % 8 != 1 && |s| % 8 != 3 && |s| % 8 != 6
  {
    EncodeDecodes(b);
    assert |Encode(b)| == EncodedLength(|b|);
    LengthMatches(|s|);
    if |s| == |Encode(b)| {
      SameLengthInjective(s, Encode(b), b);
    }
  }

  lemma LengthMatches(n: nat)
    ensures EncodedLength(5 * n / 8) == n <==> n % 8 != 1 && n % 8 != 3 && n % 8 != 6
  {
    var q, r := n / 8, n % 8;
    assert n == 8 * q + r;
    assert 5 * n / 8 == 5 * q + 5 * r / 8;
  }
}
