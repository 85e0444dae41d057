/** Base58btc decoding and the did:key form of Ed25519 public keys. */
module Base58 {
  import opened Wrappers
  import opened Positional

  /** n consecutive characters from c on. */
  function Range(c: char, n: nat): string
    requires c as int + n <= 128
  {
    seq(n, i requires 0 <= i < n => (c as int + i) as char)
  }

  /** The digits but 0, then the letters but I, O and l. */
  const ALPHABET: string :=
    Range('1', 9) + Range('A', 8) + Range('J', 5) + Range('P', 11) + Range('a', 11) + Range('m', 14)

  function IndexOf(s: string, c: char): (i: Option<nat>)
    ensures i.Some? ==> i.value < |s| && s[i.value] == c
    ensures i.None? <==> c !in s
  {
    if s == "" then None
    else if s[0] == c then Some(0)
    else
      match IndexOf(s[1..], c)
      case None => None
      case Some(i) => Some(i + 1)
  }

  function DigitOf(c: char): Option<nat> { IndexOf(ALPHABET, c) }

  ghost predicate InAlphabet(s: string) {
    forall c :: c in s ==> c in ALPHABET
  }

  function DigitsOf(s: string): (ds: seq<nat>)
    requires InAlphabet(s)
    ensures |ds| == |s|
    ensures forall i :: 0 <= i < |s| ==> DigitOf(s[i]) == Some(ds[i])
    ensures Digits(58, ds)
  {
    seq(|s|, i requires 0 <= i < |s| => DigitOf(s[i]).value)
  }

  /** s is the base58btc form of b: the same number, and one leading '1' for each leading zero byte. */
  ghost predicate Encodes(s: string, b: seq<Byte>) {
    && InAlphabet(s)
    && Value(58, DigitsOf(s)) == Value(256, b)
    && LeadingZeros(DigitsOf(s)) == LeadingZeros(b)
  }

  // ---- little-endian arithmetic of the inner loop

  function ValueLE(bs: seq<nat>): nat {
    if bs == [] then 0 else bs[0] + 256 * ValueLE(bs[1..])
  }

  /** Multiplies a little-endian byte number by 58 and adds a carry. */
  function MulAdd(bs: seq<nat>, carry: nat): seq<nat> {
    if bs == [] then if carry > 0 then [carry] else []
    else
      var cur := bs[0] * 58 + carry;
      [cur % 256] + MulAdd(bs[1..], cur / 256)
  }

  /** The carry stays a base-58 digit, every digit stays a byte, and the top byte stays non-zero. */
  lemma {:induction false} MulAddExact(bs: seq<nat>, carry: nat)
    requires Digits(256, bs) && carry <= 57 && (bs != [] ==> bs[|bs| - 1] != 0)
    ensures var r := MulAdd(bs, carry);
      Digits(256, r) && ValueLE(r) == 58 * ValueLE(bs) + carry && (r != [] ==> r[|r| - 1] != 0)
  {
    if bs != [] {
      MulAddExact(bs[1..], (bs[0] * 58 + carry) / 256);
    } else if carry > 0 {
      assert ValueLE([carry]) == carry;
    }
  }

  function Reverse(bs: seq<nat>): (r: seq<nat>)
    ensures |r| == |bs|
    ensures forall i :: 0 <= i < |bs| ==> r[i] == bs[|bs| - 1 - i]
  {
    seq(|bs|, i requires 0 <= i < |bs| => bs[|bs| - 1 - i])
  }

  lemma {:induction false} ReverseValue(bs: seq<nat>)
    ensures Value(256, Reverse(bs)) == ValueLE(bs)
  {
    if bs != [] {
      ReverseValue(bs[1..]);
      assert Reverse(bs) == Reverse(bs[1..]) + [bs[0]];
      ValueAppend(256, Reverse(bs[1..]), bs[0]);
    }
  }

  lemma {:induction false} CountedOnes(ds: seq<nat>, k: nat)
    requires k <= |ds| && (forall i :: 0 <= i < k ==> ds[i] == 0) && (k < |ds| ==> ds[k] != 0)
    ensures LeadingZeros(ds) == k
  {
    if k > 0 {
      CountedOnes(ds[1..], k - 1);
    }
  }

  method DecodeBase58Btc(input: string) returns (decoded: Option<seq<Byte>>)
    ensures decoded.None? <==> !InAlphabet(input)
    ensures decoded.Some? ==> Encodes(input, decoded.value)
  {
    if |input| == 0 {
      return Some([]);
    }
    var leadingZeros := 0;
    while leadingZeros < |input| && input[leadingZeros] == '1'
      invariant 0 <= leadingZeros <= |input|
      invariant forall k :: 0 <= k < leadingZeros ==> input[k] == '1'
    {
      leadingZeros := leadingZeros + 1;
    }
    var converted := ConvertDigits(input);
    if converted.None? {
      return None;
    }
    var out := BigEndian(leadingZeros, converted.value);
    ghost var digits := Reverse(converted.value);
    PadZeros(256, leadingZeros, digits);
    ReverseValue(converted.value);
    OneIsZero();
    CountedOnes(DigitsOf(input), leadingZeros);
    return Some(out);
  }

  /** The outer loop: takes in the digits one by one, least significant byte first. */
  method ConvertDigits(input: string) returns (bytes: Option<seq<Byte>>)
    ensures bytes.None? <==> !InAlphabet(input)
    ensures bytes.Some? ==>
      ValueLE(bytes.value) == Value(58, DigitsOf(input))
      && (bytes.value != [] ==> bytes.value[|bytes.value| - 1] != 0)
  {
    var bs: seq<Byte> := [];
    var i := 0;
    while i < |input|
      invariant 0 <= i <= |input| && InAlphabet(input[..i])
      invariant bs != [] ==> bs[|bs| - 1] != 0
      invariant ValueLE(bs) == Value(58, DigitsOf(input[..i]))
    {
      var digit := DigitOf(input[i]);
      if digit.None? {
        assert input[i] in input;
        return None;
      }
      TakesDigit(input, i, bs);
      bs := MultiplyAndAdd(bs, digit.value);
      i := i + 1;
    }
    assert input[..i] == input;
    return Some(bs);
  }

  /** Multiplying by 58 and adding the next digit takes in one more character. */
  lemma TakesDigit(input: string, i: nat, bs: seq<Byte>)
    requires i < |input| && InAlphabet(input[..i]) && DigitOf(input[i]).Some?
    requires ValueLE(bs) == Value(58, DigitsOf(input[..i])) && (bs != [] ==> bs[|bs| - 1] != 0)
    ensures InAlphabet(input[..i + 1])
    ensures var next := MulAdd(bs, DigitOf(input[i]).value);
      ValueLE(next) == Value(58, DigitsOf(input[..i + 1])) && (next != [] ==> next[|next| - 1] != 0)
  {
    var digit := DigitOf(input[i]).value;
    assert input[..i + 1] == input[..i] + [input[i]];
    assert DigitsOf(input[..i + 1]) == DigitsOf(input[..i]) + [digit];
    ValueAppend(58, DigitsOf(input[..i]), digit);
    MulAddExact(bs, digit);
  }

  /** The copy-out: one zero byte for each leading '1', then the bytes in reverse. */
  method BigEndian(leadingZeros: nat, bytes: seq<Byte>) returns (out: seq<Byte>)
    ensures out == Zeros(leadingZeros) + Reverse(bytes)
  {
    out := seq(leadingZeros, _ => 0);
    assert out == Zeros(leadingZeros) + Reverse(bytes)[..0];
    var i := 0;
    while i < |bytes|
      invariant 0 <= i <= |bytes|
      invariant out == Zeros(leadingZeros) + Reverse(bytes)[..i]
    {
      out := out + [bytes[|bytes| - 1 - i]];
      assert Reverse(bytes)[..i + 1] == Reverse(bytes)[..i] + [Reverse(bytes)[i]];
      i := i + 1;
    }
    assert Reverse(bytes)[..i] == Reverse(bytes);
  }

  /** Only '1' stands for zero. */
  lemma OneIsZero()
    ensures forall c :: DigitOf(c) == Some(0) <==> c == '1'
  {
  }

  lemma UpdatedSlices(bytes: seq<Byte>, j: nat, x: Byte)
    requires j < |bytes|
    ensures bytes[j := x][..j + 1] == bytes[..j] + [x]
    ensures bytes[j := x][j + 1..] == bytes[j..][1..]
  {
  }

  /** One round of the conversion: the growing byte list, least significant byte first. */
  method MultiplyAndAdd(bs: seq<Byte>, digit: nat) returns (bytes: seq<Byte>)
    requires digit <= 57
    ensures bytes == MulAdd(bs, digit)
  {
    bytes := bs;
    var carry: nat := digit;
    ghost var rest: seq<nat> := bs;
    var j := 0;
    while j < |bytes|
      invariant 0 <= j <= |bytes| && 0 <= carry <= 57
      invariant bytes[j..] == rest
      invariant bytes[..j] + MulAdd(rest, carry) == MulAdd(bs, digit)
    {
      var low, high := LowAndCarry(bytes[j], carry);
      UpdatedSlices(bytes, j, low);
      bytes := bytes[j := low];
      rest := rest[1..];
      carry := high;
      j := j + 1;
    }
    assert bytes[..j] == bytes && rest == [];
    bytes := PushCarry(bytes, carry);
  }

  method LowAndCarry(byte: Byte, carry: nat) returns (low: Byte, high: nat)
    requires carry <= 57
    ensures low == (byte * 58 + carry) % 256 && high == (byte * 58 + carry) / 256 <= 57
  {
    var cur: nat := byte * 58 + carry;
    low, high := cur % 256, cur / 256;
  }

  /** A last carry becomes the new top byte. */
  method PushCarry(bs: seq<Byte>, last: nat) returns (bytes: seq<Byte>)
    requires last <= 57
    ensures bytes == bs + (if last > 0 then [last] else [])
  {
    bytes := bs;
    var carry := last;
    while carry > 0
      invariant carry <= 57
      invariant bytes + (if carry > 0 then [carry] else []) == bs + (if last > 0 then [last] else [])
    {
      bytes := bytes + [carry % 256];
      carry := carry / 256;
    }
  }

  // ---- the decoder is a bijection

  /** A string has at most one decoding. */
  lemma DecodingUnique(s: string, b1: seq<Byte>, b2: seq<Byte>)
    requires Encodes(s, b1) && Encodes(s, b2)
    ensures b1 == b2
  {
    DigitsUnique(256, b1, b2);
  }

  /** Different strings decode to different bytes. */
  lemma EncodingUnique(s1: string, s2: string, b: seq<Byte>)
    requires Encodes(s1, b) && Encodes(s2, b)
    ensures s1 == s2
  {
    DigitsUnique(58, DigitsOf(s1), DigitsOf(s2));
    forall i | 0 <= i < |s1| ensures s1[i] == s2[i] {
      assert DigitOf(s1[i]) == DigitOf(s2[i]);
    }
  }

  /** The base58btc form of a byte string. */
  function Encode(b: seq<Byte>): (s: string)
  {
    var ds := Zeros(LeadingZeros(b)) + ToDigits(58, Value(256, b));
    seq(|ds|, i requires 0 <= i < |ds| => ALPHABET[ds[i]])
  }

  function Rank(c: char): nat {
    var n := c as int;
    if n <= '9' as int then if n < '1' as int then 58 else n - '1' as int
    else if 'A' <= c <= 'H' then 9 + n - 'A' as int
    else if 'J' <= c <= 'N' then 17 + n - 'J' as int
    else if 'P' <= c <= 'Z' then 22 + n - 'P' as int
    else if 'a' <= c <= 'k' then 33 + n - 'a' as int
    else if 'm' <= c <= 'z' then 44 + n - 'm' as int
    else 58
  }

  lemma AlphabetRanks(i: nat)
    requires i < 58
    ensures Rank(ALPHABET[i]) == i
  {
  }

  lemma AlphabetDigit(i: nat)
    requires i < 58
    ensures DigitOf(ALPHABET[i]) == Some(i)
  {
    var j := DigitOf(ALPHABET[i]).value;
    AlphabetRanks(i);
    AlphabetRanks(j);
  }

  /** Every byte string is the decoding of some string, its encoding. */
  lemma EncodeDecodes(b: seq<Byte>)
    ensures Encodes(Encode(b), b)
  {
    var ds := Zeros(LeadingZeros(b)) + ToDigits(58, Value(256, b));
    var s := Encode(b);
    PadZeros(58, LeadingZeros(b), ToDigits(58, Value(256, b)));
    forall c | c in s ensures c in ALPHABET {
      var i :| 0 <= i < |s| && s[i] == c;
      assert s[i] == ALPHABET[ds[i]];
    }
    forall i | 0 <= i < |s| ensures DigitsOf(s)[i] == ds[i] {
      AlphabetDigit(ds[i]);
    }
    assert DigitsOf(s) == ds;
  }

  // ---- did:key

  const DID_KEY_PREFIX := "did:key:z"

  /** did names the 32-byte Ed25519 key k: the multicodec bytes and the key, in base58btc. */
  ghost predicate NamesKey(did: string, k: seq<Byte>) {
    DID_KEY_PREFIX <= did && |k| == 32 && Encodes(did[|DID_KEY_PREFIX|..], [0xed, 0x01] + k)
  }

  method DidKeyToEd25519PublicKey(did: string) returns (key: Option<seq<Byte>>)
    ensures key.Some? ==> NamesKey(did, key.value)
    ensures key.None? ==> forall k :: !NamesKey(did, k)
  {
    if !(DID_KEY_PREFIX <= did) {
      return None;
    }
    var body := did[|DID_KEY_PREFIX|..];
    var decoded := DecodeBase58Btc(body);
    if decoded.None? {
      return None;
    }
    var bytes := decoded.value;
    if |bytes| != 2 + 32 || bytes[0] != 0xed || bytes[1] != 0x01 {
      forall k | NamesKey(did, k) ensures false {
        DecodingUnique(body, bytes, [0xed, 0x01] + k);
      }
      return None;
    }
    assert bytes == [0xed, 0x01] + bytes[2..];
    return Some(bytes[2..]);
  }

  /** Each did names at most one key, no two dids name the same key, and every key has a did. */
  lemma DidKeyBijective(did1: string, did2: string, k1: seq<Byte>, k2: seq<Byte>)
    requires NamesKey(did1, k1) && NamesKey(did2, k2)
    ensures did1 == did2 <==> k1 == k2
  {
    var n := |DID_KEY_PREFIX|;
    if k1 == k2 {
      EncodingUnique(did1[n..], did2[n..], [0xed, 0x01] + k1);
      assert did1 == did1[..n] + did1[n..] && did2 == did2[..n] + did2[n..];
    }
    if did1 == did2 {
      DecodingUnique(did1[n..], [0xed, 0x01] + k1, [0xed, 0x01] + k2);
      assert k1 == ([0xed, 0x01] + k1)[2..] && k2 == ([0xed, 0x01] + k2)[2..];
    }
  }

  lemma EveryKeyHasDid(k: seq<Byte>)
    requires |k| == 32
    ensures NamesKey(DID_KEY_PREFIX + Encode([0xed, 0x01] + k), k)
  {
    var did := DID_KEY_PREFIX + Encode([0xed, 0x01] + k);
    EncodeDecodes([0xed, 0x01] + k);
    assert did[|DID_KEY_PREFIX|..] == Encode([0xed, 0x01] + k);
  }
}
