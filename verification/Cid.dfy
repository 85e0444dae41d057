/** Unsigned varints in their minimal form, and the CIDv1 binary layout made of them. */
module Varint {
  import opened Wrappers
  import opened Positional

  const MAX_VARINT_BYTES := 9
  const MAX_SAFE_INTEGER: nat := 0x1F_FFFF_FFFF_FFFF

  datatype VarintRead = VarintRead(value: nat, bytesRead: nat)
  datatype VarintError = Truncated | UnsafeInteger | NotMinimal | TooLong

  /** The minimal encoding: seven bits a byte, least significant first, the top bit set on all but the last. */
  function Encode(n: nat): (bytes: seq<Byte>)
    ensures bytes != [] && bytes[|bytes| - 1] < 128
    ensures forall i :: 0 <= i < |bytes| - 1 ==> bytes[i] >= 128
    ensures |bytes| > 1 ==> bytes[|bytes| - 1] != 0
  {
    if n < 128 then [n] else [128 + n % 128] + Encode(n / 128)
  }

  /** The number the low seven bits of each byte add up to. */
  function Value7(bytes: seq<Byte>): nat {
    if bytes == [] then 0 else bytes[0] % 128 + 128 * Value7(bytes[1..])
  }

  function Pow128(k: nat): (p: nat)
    ensures p > 0
  {
    if k == 0 then 1 else 128 * Pow128(k - 1)
  }

  lemma {:induction false} Value7Append(bytes: seq<Byte>, b: Byte)
    ensures Value7(bytes + [b]) == Value7(bytes) + b % 128 * Pow128(|bytes|)
  {
    if bytes == [] {
      assert bytes + [b] == [b];
      assert Value7([b]) == b % 128 + 128 * Value7([]);
    } else {
      assert (bytes + [b])[1..] == bytes[1..] + [b];
      Value7Append(bytes[1..], b);
      assert 128 * (b % 128 * Pow128(|bytes| - 1)) == b % 128 * Pow128(|bytes|);
    }
  }

  lemma {:induction false} Value7Prefix(bytes: seq<Byte>, k: nat)
    requires k <= |bytes|
    ensures Value7(bytes[..k]) <= Value7(bytes)
  {
    if k > 0 {
      Value7Prefix(bytes[1..], k - 1);
      assert bytes[..k][1..] == bytes[1..][..k - 1];
    }
  }

  lemma {:induction false} EncodeValue(n: nat)
    ensures Value7(Encode(n)) == n
  {
    if n >= 128 {
      EncodeValue(n / 128);
    } else {
      assert Encode(n)[1..] == [];
    }
  }

  /** Every minimal byte string is the encoding of its value. */
  lemma {:induction false} MinimalIsEncoding(bytes: seq<Byte>)
    requires bytes != [] && bytes[|bytes| - 1] < 128
    requires forall i :: 0 <= i < |bytes| - 1 ==> bytes[i] >= 128
    requires |bytes| > 1 ==> bytes[|bytes| - 1] != 0
    ensures Encode(Value7(bytes)) == bytes
  {
    if |bytes| == 1 {
      assert bytes[1..] == [];
    } else {
      var rest := bytes[1..];
      assert rest[|rest| - 1] == bytes[|bytes| - 1];
      MinimalIsEncoding(rest);
      TailIsPositive(rest);
      EncodeStep(bytes);
    }
  }

  lemma EncodeStep(bytes: seq<Byte>)
    requires |bytes| > 1 && bytes[0] >= 128 && Value7(bytes[1..]) > 0
    requires Encode(Value7(bytes[1..])) == bytes[1..]
    ensures Encode(Value7(bytes)) == bytes
  {
    var low := bytes[0] - 128;
    assert bytes[0] % 128 == low;
    EncodeMore(low, Value7(bytes[1..]));
    assert bytes == [bytes[0]] + bytes[1..];
  }

  lemma EncodeMore(low: nat, rest: nat)
    requires low < 128 && rest > 0
    ensures Encode(low + 128 * rest) == [128 + low] + Encode(rest)
  {
  }

  lemma {:induction false} TailIsPositive(bytes: seq<Byte>)
    requires bytes != [] && bytes[|bytes| - 1] % 128 != 0
    ensures Value7(bytes) > 0
  {
    if |bytes| > 1 {
      TailIsPositive(bytes[1..]);
    }
  }

  lemma {:induction false} EncodeLength(n: nat, k: nat)
    requires k > 0 && n < Pow128(k)
    ensures |Encode(n)| <= k
  {
    if n >= 128 {
      EncodeLength(n / 128, k - 1);
    }
  }

  lemma SafeFitsEightBytes(n: nat)
    requires n <= MAX_SAFE_INTEGER
    ensures |Encode(n)| <= 8
  {
    assert Pow128(4) == 0x1000_0000 by {
      assert Pow128(2) == 0x4000;
    }
    assert Pow128(8) == 0x100_0000_0000_0000 by {
      assert Pow128(6) == 0x400_0000_0000;
    }
    EncodeLength(n, 8);
  }

  /** No encoding is a proper prefix of another, so what follows one is determined. */
  lemma EncodePrefixFree(a: nat, x: seq<Byte>, b: nat, y: seq<Byte>)
    requires Encode(a) + x == Encode(b) + y
    ensures a == b && x == y
  {
    var ea, eb := Encode(a), Encode(b);
    assert forall i :: 0 <= i < |ea| ==> (ea + x)[i] == ea[i];
    assert forall i :: 0 <= i < |eb| ==> (eb + y)[i] == eb[i];
    assert |ea| == |eb| by {
      assert (ea + x)[|ea| - 1] < 128 && (eb + y)[|eb| - 1] < 128;
    }
    assert ea == (ea + x)[..|ea|] == eb;
    assert x == (ea + x)[|ea|..] == y;
    EncodeValue(a);
    EncodeValue(b);
  }

  /** bytes holds the encoding of n at the offset. */
  ghost predicate HoldsAt(bytes: seq<Byte>, offset: nat, n: nat) {
    offset <= |bytes| && Encode(n) <= bytes[offset..]
  }

  /** An encoding present at the offset is longer than the continuation bytes seen so far. */
  lemma HeldContinues(bytes: seq<Byte>, offset: nat, n: nat, i: nat)
    requires HoldsAt(bytes, offset, n) && offset + i <= |bytes|
    requires forall k :: offset <= k < offset + i ==> bytes[k] >= 128
    ensures |Encode(n)| > i && offset + i < |bytes|
    ensures Encode(n)[..i] == bytes[offset..offset + i] && Encode(n)[i] == bytes[offset + i]
  {
  }

  /** No safe integer's encoding stands at the offset. */
  ghost predicate NothingAt(bytes: seq<Byte>, offset: nat) {
    forall n: nat :: n <= MAX_SAFE_INTEGER ==> !HoldsAt(bytes, offset, n)
  }

  /** The bytes read are the encoding of the value, which is safe. */
  ghost predicate StandsAt(bytes: seq<Byte>, offset: nat, read: VarintRead) {
    && read.value <= MAX_SAFE_INTEGER
    && offset + read.bytesRead <= |bytes|
    && bytes[offset..offset + read.bytesRead] == Encode(read.value)
  }

  /** Adds seven more bits above the ones read so far. */
  function AddSeptet(value: nat, byte: Byte, i: nat): nat {
    value + byte % 128 * Pow128(i)
  }

  /** Continuation bytes up to an index. */
  ghost predicate Continues(bytes: seq<Byte>, offset: nat, i: nat) {
    i > 0 ==> offset + i <= |bytes| && forall k :: offset <= k < offset + i ==> bytes[k] >= 128
  }

  /** The scan has seen i continuation bytes, which add up to value. */
  ghost predicate Scanned(bytes: seq<Byte>, offset: nat, i: nat, value: nat) {
    Continues(bytes, offset, i) && (if i == 0 then value == 0 else value == Value7(bytes[offset..offset + i]))
  }

  lemma ScanByte(bytes: seq<Byte>, offset: nat, i: nat, value: nat)
    requires Scanned(bytes, offset, i, value) && offset + i < |bytes|
    ensures AddSeptet(value, bytes[offset + i], i) == Value7(bytes[offset..offset + i + 1])
    ensures bytes[offset + i] >= 128 ==> Scanned(bytes, offset, i + 1, AddSeptet(value, bytes[offset + i], i))
  {
    assert bytes[offset..offset + i + 1] == bytes[offset..offset + i] + [bytes[offset + i]];
    Value7Append(bytes[offset..offset + i], bytes[offset + i]);
  }

  lemma ScanEnds(bytes: seq<Byte>, offset: nat, i: nat)
    requires Continues(bytes, offset, i) && offset + i < |bytes| && bytes[offset + i] < 128
    requires i > 0 ==> bytes[offset + i] != 0
    ensures Encode(Value7(bytes[offset..offset + i + 1])) == bytes[offset..offset + i + 1]
  {
    MinimalIsEncoding(bytes[offset..offset + i + 1]);
  }

  lemma NotHeldPast(bytes: seq<Byte>, offset: nat, i: nat)
    requires Continues(bytes, offset, i) && offset + i >= |bytes|
    ensures NothingAt(bytes, offset)
  {
  }

  lemma NotHeldLong(bytes: seq<Byte>, offset: nat, i: nat)
    requires Continues(bytes, offset, i) && i >= 8
    ensures NothingAt(bytes, offset)
  {
    forall n: nat | HoldsAt(bytes, offset, n) ensures n > MAX_SAFE_INTEGER {
      HeldContinues(bytes, offset, n, i);
      if n <= MAX_SAFE_INTEGER {
        SafeFitsEightBytes(n);
      }
    }
  }

  /** What an encoding's first bytes add up to is at most what it encodes. */
  lemma HeldValue(bytes: seq<Byte>, offset: nat, n: nat, i: nat)
    requires HoldsAt(bytes, offset, n) && Continues(bytes, offset, i) && offset + i < |bytes|
    ensures Value7(bytes[offset..offset + i + 1]) <= n
  {
    HeldContinues(bytes, offset, n, i);
    var e := Encode(n);
    assert e[..i + 1] == bytes[offset..offset + i + 1];
    Value7Prefix(e, i + 1);
    EncodeValue(n);
  }

  lemma NotHeldBig(bytes: seq<Byte>, offset: nat, i: nat)
    requires Continues(bytes, offset, i) && offset + i < |bytes|
    requires Value7(bytes[offset..offset + i + 1]) > MAX_SAFE_INTEGER
    ensures NothingAt(bytes, offset)
  {
    forall n: nat | HoldsAt(bytes, offset, n) ensures n > MAX_SAFE_INTEGER {
      HeldValue(bytes, offset, n, i);
    }
  }

  lemma NotHeldPadded(bytes: seq<Byte>, offset: nat, i: nat)
    requires Continues(bytes, offset, i) && offset + i < |bytes| && i > 0 && bytes[offset + i] == 0
    ensures NothingAt(bytes, offset)
  {
  }

  /** Accepts exactly the minimal encodings of the safe integers, each to its value. */
  method ReadUnsignedVarint(bytes: seq<Byte>, offset: nat) returns (r: Result<VarintRead, VarintError>)
    ensures r.Success? ==> StandsAt(bytes, offset, r.value)
    ensures r.Failure? ==> NothingAt(bytes, offset)
  {
    var value: nat, shift, i := 0, 0, 0;
    while i < MAX_VARINT_BYTES
      invariant 0 <= i <= MAX_VARINT_BYTES && shift == 7 * i
      invariant Scanned(bytes, offset, i, value) && value <= MAX_SAFE_INTEGER
    {
      if offset + i >= |bytes| {
        NotHeldPast(bytes, offset, i);
        return Failure(Truncated);
      }
      var byte := bytes[offset + i];
      if shift > 49 {
        NotHeldLong(bytes, offset, i);
        return Failure(UnsafeInteger);
      }
      ScanByte(bytes, offset, i, value);
      value := AddSeptet(value, byte, i);
      if value > MAX_SAFE_INTEGER {
        NotHeldBig(bytes, offset, i);
        return Failure(UnsafeInteger);
      }
      if byte < 128 {
        if i > 0 && byte == 0 {
          NotHeldPadded(bytes, offset, i);
          return Failure(NotMinimal);
        }
        ScanEnds(bytes, offset, i);
        return Success(VarintRead(value, i + 1));
      }
      shift := shift + 7;
      i := i + 1;
    }
    NotHeldLong(bytes, offset, i);
    return Failure(TooLong);
  }
}

module Cid {
  import opened Wrappers
  import opened Positional
  import opened Varint

  const MAX_CID_BINARY_BYTES := 256

  datatype CidError = InvalidCid | UnsupportedCidVersion
  datatype ParsedCid = ParsedCid(
    multicodec: nat, multicodecName: Option<string>, multihash: nat, digestLength: nat)

  function CodecName(code: nat): Option<string> {
    if code == 0x55 then Some("raw")
    else if code == 0x70 then Some("dag-pb")
    else if code == 0x71 then Some("dag-cbor")
    else if code == 0x0129 then Some("dag-json")
    else None
  }

  /** sha2-256, sha2-512 and blake3, with the digest length each requires. */
  function DigestLength(multihash: nat): Option<nat> {
    if multihash == 0x12 then Some(32)
    else if multihash == 0x13 then Some(64)
    else if multihash == 0x1e then Some(32)
    else None
  }

  /** The binary CIDv1 of a content codec, a hash function and a digest. */
  function Layout(codec: nat, multihash: nat, digest: seq<Byte>): seq<Byte> {
    Encode(1) + (Encode(codec) + (Encode(multihash) + (Encode(|digest|) + digest)))
  }

  ghost predicate IsCid(bytes: seq<Byte>, codec: nat, multihash: nat, digest: seq<Byte>) {
    && codec <= MAX_SAFE_INTEGER
    && DigestLength(multihash) == Some(|digest|)
    && bytes == Layout(codec, multihash, digest)
    && |bytes| <= MAX_CID_BINARY_BYTES
  }

  /** A byte string is the CID of at most one codec, hash function and digest. */
  lemma CidUnique(bytes: seq<Byte>, c1: nat, m1: nat, d1: seq<Byte>, c2: nat, m2: nat, d2: seq<Byte>)
    requires IsCid(bytes, c1, m1, d1) && IsCid(bytes, c2, m2, d2)
    ensures c1 == c2 && m1 == m2 && d1 == d2
  {
    EncodePrefixFree(1, Encode(c1) + (Encode(m1) + (Encode(|d1|) + d1)),
                     1, Encode(c2) + (Encode(m2) + (Encode(|d2|) + d2)));
    EncodePrefixFree(c1, Encode(m1) + (Encode(|d1|) + d1), c2, Encode(m2) + (Encode(|d2|) + d2));
    EncodePrefixFree(m1, Encode(|d1|) + d1, m2, Encode(|d2|) + d2);
    EncodePrefixFree(|d1|, d1, |d2|, d2);
  }

  /** rest is a hash code, the length that code requires, and a digest of that length. */
  ghost predicate IsMultihash(rest: seq<Byte>, multihash: nat, digest: seq<Byte>) {
    && DigestLength(multihash) == Some(|digest|)
    && rest == Encode(multihash) + (Encode(|digest|) + digest)
  }

  /** What a varint read at an offset promises. */
  ghost predicate ReadAt(bytes: seq<Byte>, offset: nat, r: Result<VarintRead, VarintError>) {
    && offset <= |bytes|
    && (r.Success? ==>
          && r.value.value <= MAX_SAFE_INTEGER
          && offset + r.value.bytesRead <= |bytes|
          && bytes[offset..] == Encode(r.value.value) + bytes[offset + r.value.bytesRead..])
    && (r.Failure? ==> NothingAt(bytes, offset))
  }

  method Read(bytes: seq<Byte>, offset: nat) returns (r: Result<VarintRead, VarintError>)
    requires offset <= |bytes|
    ensures ReadAt(bytes, offset, r)
  {
    r := ReadUnsignedVarint(bytes, offset);
    if r.Success? {
      assert bytes[offset..] == bytes[offset..offset + r.value.bytesRead] + bytes[offset + r.value.bytesRead..];
    }
  }

  /** A read where an encoding is known to stand reads that encoding and leaves its tail. */
  lemma ReadsEncoding(bytes: seq<Byte>, offset: nat, r: Result<VarintRead, VarintError>, n: nat, tail: seq<Byte>)
    requires ReadAt(bytes, offset, r) && bytes[offset..] == Encode(n) + tail && n <= MAX_SAFE_INTEGER
    ensures r.Success? && r.value.value == n && bytes[offset + r.value.bytesRead..] == tail
  {
    assert HoldsAt(bytes, offset, n);
    EncodePrefixFree(r.value.value, bytes[offset + r.value.bytesRead..], n, tail);
  }

  lemma MultihashReads(bytes: seq<Byte>, offset: nat, hash: Result<VarintRead, VarintError>, m: nat, d: seq<Byte>)
    requires ReadAt(bytes, offset, hash) && IsMultihash(bytes[offset..], m, d)
    ensures hash.Success? && hash.value.value == m
    ensures bytes[offset + hash.value.bytesRead..] == Encode(|d|) + d
  {
    ReadsEncoding(bytes, offset, hash, m, Encode(|d|) + d);
  }

  method ParseMultihash(bytes: seq<Byte>, start: nat) returns (r: Result<(nat, nat), CidError>)
    requires start <= |bytes|
    ensures r.Success? ==>
      r.value.1 <= |bytes| && IsMultihash(bytes[start..], r.value.0, bytes[|bytes| - r.value.1..])
    ensures r.Failure? ==> r.error == InvalidCid && forall m, d :: !IsMultihash(bytes[start..], m, d)
  {
    var hash := Read(bytes, start);
    if hash.Failure? || DigestLength(hash.value.value).None? {
      forall m, d | IsMultihash(bytes[start..], m, d) ensures false {
        MultihashReads(bytes, start, hash, m, d);
      }
      return Failure(InvalidCid);
    }
    var offset := start + hash.value.bytesRead;
    var length := Read(bytes, offset);
    if length.Failure? || length.value.value != DigestLength(hash.value.value).value
       || |bytes| - (offset + length.value.bytesRead) != length.value.value {
      forall m, d | IsMultihash(bytes[start..], m, d) ensures false {
        MultihashReads(bytes, start, hash, m, d);
        ReadsEncoding(bytes, offset, length, |d|, d);
      }
      return Failure(InvalidCid);
    }
    return Success((hash.value.value, length.value.value));
  }

  lemma CidReads(bytes: seq<Byte>, version: Result<VarintRead, VarintError>, c: nat, m: nat, d: seq<Byte>)
    requires ReadAt(bytes, 0, version) && IsCid(bytes, c, m, d)
    ensures version.Success? && version.value.value == 1
    ensures bytes[version.value.bytesRead..] == Encode(c) + (Encode(m) + (Encode(|d|) + d))
  {
    assert bytes[0..] == bytes;
    ReadsEncoding(bytes, 0, version, 1, Encode(c) + (Encode(m) + (Encode(|d|) + d)));
  }

  lemma CidReadsCodec(bytes: seq<Byte>, offset: nat, codec: Result<VarintRead, VarintError>,
                      c: nat, m: nat, d: seq<Byte>)
    requires c <= MAX_SAFE_INTEGER && ReadAt(bytes, offset, codec)
    requires bytes[offset..] == Encode(c) + (Encode(m) + (Encode(|d|) + d))
    ensures codec.Success? && codec.value.value == c
    ensures bytes[offset + codec.value.bytesRead..] == Encode(m) + (Encode(|d|) + d)
  {
    ReadsEncoding(bytes, offset, codec, c, Encode(m) + (Encode(|d|) + d));
  }

  /** The bytes are within bounds and start with the encoding of a number other than 1. */
  ghost predicate HasOtherVersion(bytes: seq<Byte>) {
    0 < |bytes| <= MAX_CID_BINARY_BYTES && exists v :: OtherVersion(bytes, v)
  }

  ghost predicate OtherVersion(bytes: seq<Byte>, v: nat) {
    v <= MAX_SAFE_INTEGER && v != 1 && HoldsAt(bytes, 0, v)
  }

  lemma VersionDecides(bytes: seq<Byte>, version: Result<VarintRead, VarintError>)
    requires ReadAt(bytes, 0, version) && 0 < |bytes| <= MAX_CID_BINARY_BYTES
    ensures HasOtherVersion(bytes) <==> version.Success? && version.value.value != 1
  {
    assert bytes[0..] == bytes;
    if version.Success? && version.value.value != 1 {
      assert OtherVersion(bytes, version.value.value);
    }
    if v :| OtherVersion(bytes, v) {
      VersionRead(bytes, version, v);
    }
  }

  lemma VersionRead(bytes: seq<Byte>, version: Result<VarintRead, VarintError>, v: nat)
    requires ReadAt(bytes, 0, version) && OtherVersion(bytes, v)
    ensures version.Success? && version.value.value == v
  {
    assert bytes[0..] == bytes == Encode(v) + bytes[|Encode(v)|..];
    ReadsEncoding(bytes, 0, version, v, bytes[|Encode(v)|..]);
  }

  /** Accepts exactly the binary CIDs; an unsupported version is the only other diagnosis. */
  method ParseCidBinary(bytes: seq<Byte>) returns (r: Result<ParsedCid, CidError>)
    ensures r.Success? ==>
      && r.value.digestLength <= |bytes|
      && IsCid(bytes, r.value.multicodec, r.value.multihash, bytes[|bytes| - r.value.digestLength..])
      && r.value.multicodecName == CodecName(r.value.multicodec)
    ensures r.Failure? ==> forall c, m, d :: !IsCid(bytes, c, m, d)
    ensures r == Failure(UnsupportedCidVersion) <==> HasOtherVersion(bytes)
  {
    if |bytes| == 0 || |bytes| > MAX_CID_BINARY_BYTES {
      return Failure(InvalidCid);
    }
    var version := Read(bytes, 0);
    VersionDecides(bytes, version);
    if version.Failure? || version.value.value != 1 {
      forall c, m, d | IsCid(bytes, c, m, d) ensures false {
        CidReads(bytes, version, c, m, d);
      }
      if version.Success? {
        return Failure(UnsupportedCidVersion);
      }
      return Failure(InvalidCid);
    }
    var offset := version.value.bytesRead;
    var codec := Read(bytes, offset);
    if codec.Failure? {
      forall c, m, d | IsCid(bytes, c, m, d) ensures false {
        CidReads(bytes, version, c, m, d);
        CidReadsCodec(bytes, offset, codec, c, m, d);
      }
      return Failure(InvalidCid);
    }
    var rest := offset + codec.value.bytesRead;
    var multihash := ParseMultihash(bytes, rest);
    if multihash.Failure? {
      forall c, m, d | IsCid(bytes, c, m, d) ensures false {
        CidReads(bytes, version, c, m, d);
        CidReadsCodec(bytes, offset, codec, c, m, d);
        assert IsMultihash(bytes[rest..], m, d);
      }
      return Failure(InvalidCid);
    }
    assert bytes[0..] == bytes;
    return Success(ParsedCid(codec.value.value, CodecName(codec.value.value), multihash.value.0, multihash.value.1));
  }
}
