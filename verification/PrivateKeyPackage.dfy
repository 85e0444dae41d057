/** The byte layout of an MLS private key package: a version and three length-prefixed keys. */
module PrivateKeyPackage {
  import opened Wrappers
  import opened Positional

  type Bytes = seq<Byte>

  const CODEC_VERSION: Byte := 1
  const MAX_KEY_BYTES := 4096

  datatype KeyPackage = KeyPackage(initKey: Bytes, hpkeKey: Bytes, signatureKey: Bytes)

  predicate ValidField(field: Bytes) {
    0 < |field| <= MAX_KEY_BYTES
  }

  predicate ValidPackage(p: KeyPackage) {
    ValidField(p.initKey) && ValidField(p.hpkeKey) && ValidField(p.signatureKey)
  }

  /** Four bytes, most significant first. */
  function Uint32(n: nat): (b: Bytes)
    requires n < 0x1_0000_0000
    ensures |b| == 4
  {
    [n / 0x100 / 0x100 / 0x100, n / 0x100 / 0x100 % 0x100, n / 0x100 % 0x100, n % 0x100]
  }

  function ReadUint32(b: Bytes): nat
    requires |b| == 4
  {
    (((b[0] as int) * 0x100 + b[1]) * 0x100 + b[2]) * 0x100 + b[3]
  }

  lemma LastByte(n: nat, q: nat, b: Byte)
    ensures n == q * 0x100 + b <==> n / 0x100 == q && n % 0x100 == b
  {
  }

  lemma Uint32Exact(b: Bytes, n: nat)
    requires |b| == 4 && n < 0x1_0000_0000
    ensures b == Uint32(n) <==> ReadUint32(b) == n
  {
    var q1 := (b[0] as int) * 0x100 + b[1];
    var q2 := q1 * 0x100 + b[2];
    LastByte(n, q2, b[3]);
    LastByte(n / 0x100, q1, b[2]);
    LastByte(n / 0x100 / 0x100, b[0], b[1]);
  }

  function Field(field: Bytes): Bytes
    requires ValidField(field)
  {
    Uint32(|field|) + field
  }

  /** The whole layout; a package has exactly one. */
  function Layout(p: KeyPackage): Bytes
    requires ValidPackage(p)
  {
    [CODEC_VERSION] + Field(p.initKey) + Field(p.hpkeKey) + Field(p.signatureKey)
  }

  /** Writes the length and the bytes of a field at the offset, after what stands before it. */
  method WriteField(out: array<Byte>, offset: nat, field: Bytes) returns (next: nat)
    requires ValidField(field) && offset + 4 + |field| <= out.Length
    modifies out
    ensures next == offset + 4 + |field|
    ensures out[..next] == old(out[..offset]) + Field(field)
  {
    var prefix := Uint32(|field|);
    ghost var before := out[..offset];
    out[offset], out[offset + 1], out[offset + 2], out[offset + 3] := prefix[0], prefix[1], prefix[2], prefix[3];
    next := offset + 4;
    assert out[..next] == before + prefix;
    var i := 0;
    while i < |field|
      invariant 0 <= i <= |field| && next == offset + 4 + i
      invariant out[..next] == before + prefix + field[..i]
    {
      ghost var sofar := out[..next];
      out[next] := field[i];
      assert out[..next + 1] == sofar + [field[i]];
      assert field[..i + 1] == field[..i] + [field[i]];
      next := next + 1;
      i := i + 1;
    }
    assert field[..i] == field;
  }

  /** None where a field has a length the codec refuses. */
  method Encode(p: KeyPackage) returns (bytes: Option<Bytes>)
    ensures bytes == if ValidPackage(p) then Some(Layout(p)) else None
  {
    if !ValidPackage(p) {
      return None;
    }
    var out := new Byte[1 + 3 * 4 + |p.initKey| + |p.hpkeKey| + |p.signatureKey|];
    out[0] := CODEC_VERSION;
    assert out[..1] == [CODEC_VERSION];
    var offset := WriteField(out, 1, p.initKey);
    offset := WriteField(out, offset, p.hpkeKey);
    offset := WriteField(out, offset, p.signatureKey);
    assert out[..] == out[..offset];
    return Some(out[..]);
  }

  /** The bytes at the offset are a field followed by rest. */
  ghost predicate FieldAt(bytes: Bytes, offset: nat, field: Bytes, rest: Bytes) {
    offset <= |bytes| && ValidField(field) && bytes[offset..] == Field(field) + rest
  }

  /** One turn of the reading loop: the field at the offset and where it ends. */
  method ReadField(bytes: Bytes, offset: nat) returns (read: Option<(Bytes, nat)>)
    requires offset <= |bytes|
    ensures read.Some? ==> read.value.1 <= |bytes| && FieldAt(bytes, offset, read.value.0, bytes[read.value.1..])
    ensures read.None? ==> forall field, rest :: !FieldAt(bytes, offset, field, rest)
  {
    if offset + 4 > |bytes| {
      return None;
    }
    var length := ReadUint32(bytes[offset..offset + 4]);
    var start := offset + 4;
    forall field, rest | FieldAt(bytes, offset, field, rest)
      ensures length == |field| && start + length <= |bytes| && field == bytes[start..start + length]
      ensures rest == bytes[start + length..]
    {
      FieldReads(bytes, offset, field, rest);
    }
    if length == 0 || length > MAX_KEY_BYTES || start + length > |bytes| {
      return None;
    }
    var field := bytes[start..start + length];
    Uint32Exact(bytes[offset..start], length);
    SplitSlice(bytes, offset, start, start + length);
    return Some((field, start + length));
  }

  lemma SplitSlice(bytes: Bytes, i: nat, j: nat, k: nat)
    requires i <= j <= k <= |bytes|
    ensures bytes[i..] == bytes[i..j] + bytes[j..k] + bytes[k..]
  {
    assert bytes[i..] == bytes[i..j] + bytes[j..];
    assert bytes[j..] == bytes[j..k] + bytes[k..];
  }

  lemma FieldReads(bytes: Bytes, offset: nat, field: Bytes, rest: Bytes)
    requires FieldAt(bytes, offset, field, rest)
    ensures offset + 4 + |field| <= |bytes|
    ensures ReadUint32(bytes[offset..offset + 4]) == |field|
    ensures field == bytes[offset + 4..offset + 4 + |field|] && rest == bytes[offset + 4 + |field|..]
  {
  }

  ghost predicate AllValid(fields: seq<Bytes>) {
    forall k :: 0 <= k < |fields| ==> ValidField(fields[k])
  }

  function Concat(fields: seq<Bytes>): Bytes
    requires AllValid(fields)
  {
    if fields == [] then [] else Field(fields[0]) + Concat(fields[1..])
  }

  lemma {:induction false} ConcatLast(fields: seq<Bytes>, field: Bytes)
    requires ValidField(field) && AllValid(fields)
    ensures Concat(fields + [field]) == Concat(fields) + Field(field)
  {
    if fields == [] {
      assert fields + [field] == [field] && [field][1..] == [];
    } else {
      assert (fields + [field])[1..] == fields[1..] + [field];
      ConcatLast(fields[1..], field);
    }
  }

  function FieldsOf(p: KeyPackage): seq<Bytes> { [p.initKey, p.hpkeKey, p.signatureKey] }

  lemma LayoutIsConcat(p: KeyPackage)
    requires ValidPackage(p)
    ensures Layout(p) == [CODEC_VERSION] + Concat(FieldsOf(p))
  {
    var one, two := [p.initKey], [p.initKey, p.hpkeKey];
    ConcatLast([], p.initKey);
    ConcatLast(one, p.hpkeKey);
    ConcatLast(two, p.signatureKey);
    assert [] + [p.initKey] == one && one + [p.hpkeKey] == two && two + [p.signatureKey] == FieldsOf(p);
  }

  /** The bytes from the offset on are these fields and nothing more. */
  ghost predicate Holds(bytes: Bytes, offset: nat, fields: seq<Bytes>) {
    offset <= |bytes| && AllValid(fields) && bytes[offset..] == Concat(fields)
  }

  lemma HoldsFirst(bytes: Bytes, offset: nat, fields: seq<Bytes>)
    requires Holds(bytes, offset, fields) && fields != []
    ensures FieldAt(bytes, offset, fields[0], Concat(fields[1..]))
  {
  }

  /** A field read where fields are known to stand is the first of them and leaves the others. */
  lemma HoldsNext(bytes: Bytes, offset: nat, fields: seq<Bytes>, field: Bytes, next: nat)
    requires Holds(bytes, offset, fields) && fields != []
    requires next <= |bytes| && FieldAt(bytes, offset, field, bytes[next..])
    ensures fields[0] == field && Holds(bytes, next, fields[1..])
  {
    FieldReads(bytes, offset, fields[0], Concat(fields[1..]));
    FieldReads(bytes, offset, field, bytes[next..]);
  }

  lemma HoldsLayout(bytes: Bytes, p: KeyPackage)
    requires ValidPackage(p) && bytes == Layout(p)
    ensures Holds(bytes, 1, FieldsOf(p)) && |FieldsOf(p)| == 3
  {
    LayoutIsConcat(p);
  }

  /** The fields read so far fill the bytes up to the offset, and any three fields here start with them. */
  ghost predicate ReadSoFar(bytes: Bytes, offset: nat, read: seq<Bytes>) {
    && 1 <= offset <= |bytes| && |read| <= 3
    && AllValid(read) && bytes[1..offset] == Concat(read)
    && forall fs | |fs| == 3 && Holds(bytes, 1, fs) :: fs[..|read|] == read && Holds(bytes, offset, fs[|read|..])
  }

  lemma ReadsOneMore(bytes: Bytes, offset: nat, read: seq<Bytes>, field: Bytes, end: nat)
    requires ReadSoFar(bytes, offset, read) && |read| < 3
    requires end <= |bytes| && FieldAt(bytes, offset, field, bytes[end..])
    ensures offset <= end && ReadSoFar(bytes, end, read + [field])
  {
    forall fs | |fs| == 3 && Holds(bytes, 1, fs)
      ensures fs[..|read| + 1] == read + [field] && Holds(bytes, end, fs[|read| + 1..])
    {
      HoldsNext(bytes, offset, fs[|read|..], field, end);
      assert fs[|read|..][1..] == fs[|read| + 1..];
    }
    EndOfField(bytes, offset, field, end);
    ConcatLast(read, field);
  }

  lemma ReadsNoMore(bytes: Bytes, offset: nat, read: seq<Bytes>)
    requires ReadSoFar(bytes, offset, read) && |read| < 3
    requires forall field, rest :: !FieldAt(bytes, offset, field, rest)
    ensures forall fs | |fs| == 3 :: !Holds(bytes, 1, fs)
  {
    forall fs | |fs| == 3 ensures !Holds(bytes, 1, fs) {
      if Holds(bytes, 1, fs) {
        HoldsFirst(bytes, offset, fs[|read|..]);
        assert false;
      }
    }
  }

  /** Reads three fields that fill the bytes from the second one on. */
  method ReadFields(bytes: Bytes) returns (fields: Option<seq<Bytes>>)
    requires |bytes| >= 1
    ensures fields.Some? ==> |fields.value| == 3 && Holds(bytes, 1, fields.value)
    ensures fields.None? ==> forall fs | |fs| == 3 :: !Holds(bytes, 1, fs)
  {
    var offset := 1;
    var read: seq<Bytes> := [];
    while |read| < 3
      invariant ReadSoFar(bytes, offset, read)
      decreases 3 - |read|
    {
      var next := ReadField(bytes, offset);
      if next.None? {
        ReadsNoMore(bytes, offset, read);
        return None;
      }
      var (field, end) := next.value;
      ReadsOneMore(bytes, offset, read, field, end);
      read := read + [field];
      offset := end;
    }
    if offset != |bytes| {
      forall fs | |fs| == 3 ensures !Holds(bytes, 1, fs) {
        assert fs[3..] == [];
      }
      return None;
    }
    assert bytes[1..offset] == bytes[1..];
    return Some(read);
  }

  lemma EndOfField(bytes: Bytes, offset: nat, field: Bytes, end: nat)
    requires end <= |bytes| && FieldAt(bytes, offset, field, bytes[end..]) && offset >= 1
    ensures offset <= end && bytes[1..end] == bytes[1..offset] + Field(field)
  {
  }

  /** Accepts exactly the layouts of valid packages, each back to its package. */
  method Decode(bytes: Bytes) returns (package: Option<KeyPackage>)
    ensures package.Some? ==> ValidPackage(package.value) && bytes == Layout(package.value)
    ensures package.None? ==> forall p | ValidPackage(p) :: bytes != Layout(p)
  {
    if |bytes| < 1 + 3 * 4 + 3 || bytes[0] != CODEC_VERSION {
      return None;
    }
    var fields := ReadFields(bytes);
    if fields.None? {
      forall p | ValidPackage(p) ensures bytes != Layout(p) {
        if bytes == Layout(p) {
          HoldsLayout(bytes, p);
          assert false;
        }
      }
      return None;
    }
    var fs := fields.value;
    var p := KeyPackage(fs[0], fs[1], fs[2]);
    assert fs == FieldsOf(p);
    LayoutIsConcat(p);
    assert bytes == [bytes[0]] + bytes[1..];
    return Some(p);
  }

  /** Different valid packages have different layouts. */
  lemma LayoutInjective(p: KeyPackage, q: KeyPackage)
    requires ValidPackage(p) && ValidPackage(q) && Layout(p) == Layout(q)
    ensures p == q
  {
    var bytes := Layout(p);
    SplitLayout(p);
    SplitLayout(q);
    FieldReads(bytes, 1, p.initKey, Field(p.hpkeKey) + Field(p.signatureKey));
    FieldReads(bytes, 1, q.initKey, Field(q.hpkeKey) + Field(q.signatureKey));
    var rest := Field(p.hpkeKey) + Field(p.signatureKey);
    assert rest[0..] == rest;
    FieldReads(rest, 0, p.hpkeKey, Field(p.signatureKey));
    FieldReads(rest, 0, q.hpkeKey, Field(q.signatureKey));
    var last := Field(p.signatureKey);
    assert last[0..] == last && last == Field(p.signatureKey) + [] && last == Field(q.signatureKey) + [];
    FieldReads(last, 0, p.signatureKey, []);
    FieldReads(last, 0, q.signatureKey, []);
  }

  lemma SplitLayout(p: KeyPackage)
    requires ValidPackage(p)
    ensures FieldAt(Layout(p), 1, p.initKey, Field(p.hpkeKey) + Field(p.signatureKey))
  {
  }
}
