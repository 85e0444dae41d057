/** Numbers written as big-endian digit sequences in a fixed base. */
module Positional {
  type Byte = x: int | 0 <= x < 256

  ghost predicate Digits(base: nat, ds: seq<nat>) {
    forall i :: 0 <= i < |ds| ==> ds[i] < base
  }

  /** The number a big-endian digit sequence denotes. */
  function Value(base: nat, ds: seq<nat>): nat {
    if ds == [] then 0 else Value(base, ds[..|ds| - 1]) * base + ds[|ds| - 1]
  }

  lemma ValueAppend(base: nat, ds: seq<nat>, d: nat)
    ensures Value(base, ds + [d]) == Value(base, ds) * base + d
  {
  }

  lemma AtLeastOnce(base: nat, k: nat)
    requires k >= 1
    ensures k * base >= base
  {
  }

  lemma Distribute(base: nat, a: nat, b: nat)
    ensures (a + b) * base == a * base + b * base
  {
  }

  lemma QuotientLess(base: nat, q1: nat, r1: nat, q2: nat, r2: nat)
    requires r1 < base && q1 < q2
    ensures q1 * base + r1 < q2 * base + r2
  {
    Distribute(base, q1, q2 - q1);
    AtLeastOnce(base, q2 - q1);
  }

  lemma DivModUnique(base: nat, q1: nat, r1: nat, q2: nat, r2: nat)
    requires r1 < base && r2 < base && q1 * base + r1 == q2 * base + r2
    ensures q1 == q2 && r1 == r2
  {
    if q1 < q2 {
      QuotientLess(base, q1, r1, q2, r2);
    } else if q2 < q1 {
      QuotientLess(base, q2, r2, q1, r1);
    }
  }

  /** Equally long digit sequences that denote the same number are the same. */
  lemma {:induction false} SameLengthUnique(base: nat, a: seq<nat>, b: seq<nat>)
    requires Digits(base, a) && Digits(base, b) && |a| == |b| && Value(base, a) == Value(base, b)
    ensures a == b
    decreases |a|
  {
    if a != [] {
      var n := |a| - 1;
      DivModUnique(base, Value(base, a[..n]), a[n], Value(base, b[..n]), b[n]);
      SameLengthUnique(base, a[..n], b[..n]);
      assert a == a[..n] + [a[n]] && b == b[..n] + [b[n]];
    }
  }

  function LeadingZeros(ds: seq<nat>): nat {
    if ds != [] && ds[0] == 0 then 1 + LeadingZeros(ds[1..]) else 0
  }

  lemma {:induction false} LeadingZero(base: nat, ds: seq<nat>)
    ensures Value(base, [0] + ds) == Value(base, ds)
    decreases |ds|
  {
    if ds != [] {
      var n := |ds| - 1;
      LeadingZero(base, ds[..n]);
      assert ([0] + ds)[..n + 1] == [0] + ds[..n];
    }
  }

  lemma {:induction false} NonZeroValue(base: nat, ds: seq<nat>)
    requires base > 0 && ds != [] && ds[0] != 0
    ensures Value(base, ds) > 0
    decreases |ds|
  {
    if |ds| > 1 {
      NonZeroValue(base, ds[..|ds| - 1]);
      assert Value(base, ds[..|ds| - 1]) * base >= 1;
    }
  }

  /** Without leading zeros the number determines the digits. */
  lemma {:induction false} NoLeadingZeroUnique(base: nat, a: seq<nat>, b: seq<nat>)
    requires base > 0 && Digits(base, a) && Digits(base, b) && Value(base, a) == Value(base, b)
    requires (a != [] ==> a[0] != 0) && (b != [] ==> b[0] != 0)
    ensures a == b
    decreases |a|
  {
    if a != [] { NonZeroValue(base, a); }
    if b != [] { NonZeroValue(base, b); }
    if a != [] && b != [] {
      var m, n := |a| - 1, |b| - 1;
      DivModUnique(base, Value(base, a[..m]), a[m], Value(base, b[..n]), b[n]);
      NoLeadingZeroUnique(base, a[..m], b[..n]);
      assert a == a[..m] + [a[m]] && b == b[..n] + [b[n]];
    }
  }

  /** The number and the count of leading zeros together determine the digits. */
  lemma {:induction false} DigitsUnique(base: nat, a: seq<nat>, b: seq<nat>)
    requires base > 0 && Digits(base, a) && Digits(base, b) && Value(base, a) == Value(base, b)
    requires LeadingZeros(a) == LeadingZeros(b)
    ensures a == b
    decreases |a|
  {
    if LeadingZeros(a) == 0 {
      NoLeadingZeroUnique(base, a, b);
    } else {
      LeadingZero(base, a[1..]);
      LeadingZero(base, b[1..]);
      assert a == [0] + a[1..] && b == [0] + b[1..];
      DigitsUnique(base, a[1..], b[1..]);
    }
  }

  function Zeros(k: nat): seq<nat> { seq(k, _ => 0) }

  lemma {:induction false} PadZeros(base: nat, k: nat, ds: seq<nat>)
    requires ds != [] ==> ds[0] != 0
    ensures Value(base, Zeros(k) + ds) == Value(base, ds)
    ensures LeadingZeros(Zeros(k) + ds) == k
  {
    if k == 0 {
      assert Zeros(0) + ds == ds;
    } else {
      PadZeros(base, k - 1, ds);
      LeadingZero(base, Zeros(k - 1) + ds);
      assert Zeros(k) + ds == [0] + (Zeros(k - 1) + ds);
    }
  }

  /** The digits of a number, without leading zeros. */
  function ToDigits(base: nat, n: nat): (ds: seq<nat>)
    requires base > 1
    ensures Digits(base, ds) && Value(base, ds) == n && (ds != [] ==> ds[0] != 0)
  {
    if n == 0 then []
    else
      DivShrinks(base, n);
      var rest := ToDigits(base, n / base);
      ValueAppend(base, rest, n % base);
      rest + [n % base]
  }

  lemma DivShrinks(base: nat, n: nat)
    requires base > 1 && n > 0
    ensures n / base < n
    ensures n / base * base + n % base == n
  {
    DivMod(base, n);
    QuotientShrinks(base, n, n / base, n % base);
  }

  lemma DivMod(base: nat, n: nat)
    requires base > 0
    ensures n / base * base + n % base == n
  {
  }

  lemma QuotientShrinks(base: nat, n: nat, q: nat, r: nat)
    requires base > 1 && n > 0 && n == q * base + r
    ensures q < n
  {
  }
}
